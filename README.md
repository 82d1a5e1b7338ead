# Tier-list board controller, modelled in Dafny

This project models the drag-and-drop board of the tier-list page in
`src/App.jsx`. The board has seven drop containers: the unranked pool
`#selector-items` and the six tier rows S, A, B, C, D and E. Each container
holds an ordered list of `item-img` nodes. These are the draggable images
made by `createNewImg`, and the `.drag-preview` clones that a drag-over
leaves behind. Around the board sit:

- the `draggedElementRef` slot, which records the dragged item and its
  source container;
- the `drag-over` and `drag-files` class marks on the containers;
- the file reads that are in flight.

The model has four modules:

- `Dom` (`dom.dfy`): nodes and child lists as values. It covers the
  first-match search that `removeChild` performs, removal by position, and
  the `querySelector('.drag-preview')?.remove()` step.
- `Board` (`board.dfy`): the board as a map from container to child list,
  read in document order (pool first, then rows S to E). It also defines
  the item bag and the board invariant `WellFormed`: every container has a
  list, no two items share an identity, and every identity was handed out
  before the next-identity counter.
- `Handlers` (`handlers.dfy`): what each handler does to the child lists,
  written as functions, with the lemmas that state each handler's
  properties.
- `TierListApp` (`app.dfy`): the component's state as the class
  `TierList`. It has:
  - one method per event handler, proved against the `Handlers` functions;
  - the routing of each drag event to the handlers that the `useEffect`
    wires on the container it hits. Rows get only the item handlers. The
    pool gets each item handler followed by its desktop counterpart.
    The class invariant `Valid` is the board invariant plus "only the
    pool ever carries `drag-files`".

Some ways the model reads the code:

- A `removeChild` that throws `NotFoundError` does not throw in the model.
  The dragged item may no longer be a child of its recorded source; then
  the drop handler stops at that call. The model returns `ok == false`
  and changes nothing. On the pool the desktop drop listener still runs
  afterwards.
- A dropped item's new `src` is the payload text (`getData('text/plain')`,
  the empty string when absent). The page's own `setData` call is commented
  out, so this text is opaque to the page.
- The `'internal'` marker is never set by this page. The check for it in
  `handleDropFromDesktop` is modelled as written.
- Preview clones carry the class `item-img`, because `cloneNode` copies the
  class list. So the reset selector `.tier .item-img` also moves leftover
  previews to the pool. "At most one preview per container" is therefore
  proved to be kept by drag-over, drag-leave and drop, and not by reset.
- A row's first child, its label `aside`, is left out of the row's child
  list. No handler moves it, and neither `.item-img` nor `.drag-preview`
  matches it.
- A file drop onto a row creates no item: rows are wired only to the item
  handlers (src/App.jsx:82-86), and only the pool has the desktop ones
  (`TierListApp.TierList.OnDrop`).
- A drag-leave removes the target's first preview only. With at most one
  preview, the target then shows none (`Handlers.LeavePreview`).

## Model

| member | source | states |
|---|---|---|
| Dom.IndexOfItem | src/App.jsx:138 | The search `removeChild` makes in the source container. The result is Some(k) exactly when an item with that identity is a child. Then k is in range, the k-th node has that identity and no earlier node does. It is None (`NotFoundError`) exactly when no child has it. |
| Dom.RemoveAtCounts | src/App.jsx:138 | Detaching the k-th child takes exactly one occurrence of that node out of the list. |
| Dom.RemoveItemAt | src/App.jsx:138 | Detaching the k-th child, an item, takes exactly that item out of the item list. The items before and after it stay in order, and there is one item fewer. |
| Dom.WithoutFirstPreviewCounts | src/App.jsx:145 | `querySelector('.drag-preview')?.remove()` takes out one preview when there is one and nothing else. A list without a preview is unchanged. |
| Dom.WithoutFirstPreviewKeepsItems | src/App.jsx:171 | Removing the preview leaves the items, and their order, as they were. |
| Dom.WithoutFirstPreviewAppendPreview | src/App.jsx:159-162 | A preview appended to a list without one is exactly the preview that the removal takes out again. |
| Board.ContainersListed | src/App.jsx:81-88 | The seven containers are the pool and the six rows, each listed once. |
| Handlers.DragOverChildren | src/App.jsx:148-165 | A drag-over changes only the target's list and keeps its items. With an idle session, or over the session's own source, it changes nothing. |
| Handlers.DragOverPreview | src/App.jsx:157-163 | While an item is dragged over another container, that container shows a preview afterwards. A preview-free target gets one clone appended last. A target that already shows a preview is left exactly as it was. A container never gets a second preview, so the at-most-one-preview invariant is kept. |
| Handlers.LeaveChildren | src/App.jsx:167-172 | A drag-leave changes only the target's list and keeps its items. |
| Handlers.LeavePreview | src/App.jsx:171 | Under the one-preview invariant the target shows no preview after a drag-leave, and the invariant is kept. |
| Handlers.LeaveIdempotent | src/App.jsx:167-172 | On a container with at most one preview, a second drag-leave changes nothing. |
| Handlers.HoverThenLeaveKeepsItems | src/App.jsx:148-172 | Hovering a container and leaving it without dropping keeps every container's items. |
| Handlers.HoverThenLeaveRestores | src/App.jsx:148-172 | On a container that shows no preview, hovering and leaving restores every child list exactly. |
| Handlers.AppendPreviewKeepsWellFormed | src/App.jsx:159-162 | Appending a preview clone keeps the board invariant. |
| Handlers.RemovePreviewKeepsWellFormed | src/App.jsx:171 | Removing a preview keeps the board invariant. |
| Handlers.UniqueIndex | src/App.jsx:26-29 | On a well-formed board, the identity that drag-start records is found at the position of the item it fired on. So a later `removeChild` on the recorded source detaches that very item. |
| Handlers.DropChildren | src/App.jsx:132-146 | The drop fails (None) exactly when an item is dragged and it is no longer a child of its recorded source. Every container still has a list afterwards. With an idle session the drop is exactly a drag-leave on the target, so no container's items change. |
| Handlers.DropKeepsOthers | src/App.jsx:138-142 | A drop changes no container other than the source and the target. When they differ, the source loses exactly the dragged node. |
| Handlers.DropTargetList | src/App.jsx:141-145 | After a drop the target holds its earlier list (without the dragged node on a same-container drop), minus its preview, then the new item. |
| Handlers.DropMovesOneItem | src/App.jsx:137-145 | A drop detaches the dragged item and appends exactly one new item, last, to the target. The target's items are its earlier items followed by the new one. When the target showed at most one preview before, it shows none afterwards. No other container changes. |
| Handlers.DropKeepsOnePreview | src/App.jsx:142-145 | A drop never leaves a container with a second preview. |
| Handlers.DropOnSourceMovesToEnd | src/App.jsx:138-142 | A drop on the item's own container keeps its item count and moves the item to the end, as a new node. |
| Handlers.DropBag | src/App.jsx:138-142 | A drop swaps the dragged item for the new item in the bag of all items on the board. |
| Handlers.DropKeepsCount | src/App.jsx:138-142 | A drop neither creates nor loses an item overall. |
| Handlers.DropKeepsWellFormed | src/App.jsx:137-145 | A drop keeps item identities unique, hands out the next identity, and leaves the dragged item in no container. |
| Handlers.ResetChildren | src/App.jsx:14-23 | After a reset no row holds a node. The pool is the old pool followed by the row nodes in document order (rows S to E, each in child order). |
| Handlers.ResetKeepsBoard | src/App.jsx:14-23 | A reset keeps the board's nodes in document order, so the item count and the board invariant are kept too. |
| Handlers.ResetGathersPreviews | src/App.jsx:16 | Every preview left on the board ends up in the pool, because the reset selector matches previews too. |
| Handlers.ResetIdempotent | src/App.jsx:14-23 | A second reset changes nothing. |
| Handlers.ReadsCompleted | src/App.jsx:69-71 | A batch of completed reads keeps the old pool as a prefix. It appends one item per data URL, in completion order, with consecutive fresh identities. |
| Handlers.ReadsCompletedAdd | src/App.jsx:65-71 | N completed reads add N items to the pool, showing the N data URLs in completion order, and no preview. |
| Handlers.ReadsCompletedStep | src/App.jsx:69-71 | Reads completing one at a time give the same pool as the whole batch in that order. |
| Handlers.CompletionOrderIrrelevant | src/App.jsx:65-72 | Whatever order a batch of reads completes in, the pool gains the same number of items showing the same data URLs. |
| Handlers.AppendFreshKeepsWellFormed | src/App.jsx:45-58 | Appending a new image with the next identity to the pool keeps the board invariant and adds exactly one item. |
| TierListApp.TierList.constructor | src/App.jsx:5-12 | The first render has empty containers, no marks, an idle drag slot, no reads in flight, and the labels S to E. |
| TierListApp.TierList.DragStart | src/App.jsx:25-36 | Records the item the event fired on and its parent container, keeps the invariant, and the recorded source finds that item. |
| TierListApp.TierList.DragEnd | src/App.jsx:38-43 | The drag slot is idle again, whatever happened during the drag. |
| TierListApp.TierList.CreateNewImg | src/App.jsx:45-58 | Appends a new item showing `src`, with a fresh identity, to the end of the pool and returns it. Nothing else changes. |
| Handlers.ReadsCompletedOne | src/App.jsx:69-71 | One completed read is the same as one `createNewImg`: the pool gains one item showing that data URL at its end. |
| TierListApp.TierList.HandleFilesInput | src/App.jsx:60-73 | A missing or empty file list starts nothing. Otherwise one read per file is started, and the loop keeps the files started so far as its invariant. |
| TierListApp.TierList.ReadCompleted | src/App.jsx:69-71 | A read's `onload` ends that read and appends one new pool item showing its data URL. It keeps the invariant and adds exactly one item. |
| TierListApp.TierList.RemoveDragged | src/App.jsx:138 | Detaches the dragged item from its recorded source. When it is not a child there, it fails and changes nothing. |
| TierListApp.TierList.AppendNewImg | src/App.jsx:140-142 | `createNewImg` followed by `appendChild` on the target nets one new item at the end of the target; every container other than the target is as before. |
| TierListApp.TierList.ClearTarget | src/App.jsx:144-145 | Removes the target's `drag-over` mark and its first preview. |
| TierListApp.TierList.DropItem | src/App.jsx:132-146 | Equals `Handlers.DropChildren` on the old state. A failed detach changes nothing and leaves the mark. Otherwise the mark is cleared, an identity is handed out exactly when an item was dragged, and the item count and invariant are kept. |
| TierListApp.TierList.DragOver | src/App.jsx:148-165 | Equals `Handlers.DragOverChildren`. Over the session's own source the mark stays as it was. Elsewhere the mark is set, with an idle session too. |
| TierListApp.TierList.DragLeave | src/App.jsx:167-172 | Equals `Handlers.LeaveChildren`, and the mark is cleared. |
| TierListApp.TierList.DragOverFromDesktop | src/App.jsx:116-122 | Sets the pool's `drag-files` mark exactly when the payload types include `Files`. |
| TierListApp.TierList.DragLeaveFromDesktop | src/App.jsx:124-128 | Clears the pool's `drag-files` mark. |
| TierListApp.TierList.DropFromDesktop | src/App.jsx:106-114 | Starts one read per dropped file and clears `drag-files`, exactly when the payload text is not `internal` and the types include `Files`. Otherwise nothing changes. |
| TierListApp.TierList.MoveRowToPool | src/App.jsx:19-22 | Moves every node of one row, in order, to the end of the pool and empties the row; nothing else changes. |
| TierListApp.TierList.GatherRows | src/App.jsx:16-22 | The reset loop over the row nodes in document order yields exactly `Handlers.ResetChildren` of the old board. |
| TierListApp.TierList.ResetBtn | src/App.jsx:14-23 | The reset button gives `Handlers.ResetChildren` of the old board. The item count, the invariant and the labels are kept. |
| TierListApp.TierList.OnDragOver | src/App.jsx:83-90 | A `dragover` runs the item handler everywhere and the desktop handler on the pool only. The target is marked `drag-over` unless it is the dragged item's own source, and its children change as in `Handlers.DragOverChildren`. `drag-files` changes only for a file drag over the pool. |
| TierListApp.TierList.OnDrop | src/App.jsx:84-93 | A `drop` runs the item handler everywhere and the desktop handler on the pool only, even after a failed detach. A file drop on a row starts no read. An identity is handed out exactly when an item was dragged and detached, and then the item count is kept. With an idle session no container's items change. |
| TierListApp.TierList.OnDragLeave | src/App.jsx:85-96 | A `dragleave` runs the item handler everywhere and clears `drag-files` on the pool only. |

## Left out

- The PNG export (`handleSaveBtn`, src/App.jsx:174-188): it is a foreign library (`html2canvas`), a canvas and a browser download.
- `FileReader` decoding and its asynchronous scheduling (src/App.jsx:66-71):
  - Each `onload` is the discrete event `ReadCompleted`, and the data URL is its parameter.
  - A read that fails never fires `onload`. In the model it simply stays in flight.
- `handleImgInput` (src/App.jsx:75-78) only passes the file input's `files` to `handleFilesInput`, which is modelled. The input element itself is not modelled.
- Rendering: JSX, the SVG icons, CSS variables and the editable labels (src/App.jsx:190-331). The labels appear only as a field that no handler changes.
- How the `useEffect` registers and cleans up listeners (src/App.jsx:80-104). Only the resulting routing is modelled.
- Browser drag behaviour:
  - `dragleave` firing when the pointer enters a child element;
  - whether `dragend` still fires on a detached node;
  - `preventDefault`;
  - how `removeChild`'s exception is reported.
- The visual identity of a preview clone. A preview is an opaque node. A preview is draggable (the attribute is cloned), but it has no `dragstart` handler, so dragging one never changes the drag slot. `TierListApp.TierList.DragStart` is therefore stated for items only.
- DOM node identity is an unbounded counter handed out by `createNewImg`.
