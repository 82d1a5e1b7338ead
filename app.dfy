/**
 * The `App` component's board controller as one mutable object: the seven
 * drop containers' child lists, the `drag-over` and `drag-files` class marks,
 * the `draggedElementRef` slot, the file reads in flight, and one method per
 * event handler, plus the routing of each drag event to the handlers wired
 * on the container it hits.
 */
module TierListApp {
  import opened Dom
  import opened Board
  import opened Handlers

  /** A file the user picked or dropped; its bytes are never looked at here. */
  datatype FileHandle = FileHandle(name: string)

  /**
   * The parts of a drag event's `dataTransfer` that the handlers read:
   * `types`, `getData('text/plain')` (the empty string when absent) and
   * `files`.
   */
  datatype DataTransfer = DataTransfer(types: seq<string>, text: string, files: seq<FileHandle>)

  /** The row labels the component starts with. */
  const InitialContent: seq<string> := ["S", "A", "B", "C", "D", "E"]

  class TierList {
    /** The child list of every drop container. */
    var children: Children
    /** Containers whose class list holds `drag-over`. */
    var dragOver: set<ContainerId>
    /** Containers whose class list holds `drag-files` (only the pool ever gets it). */
    var dragFiles: set<ContainerId>
    /** `draggedElementRef.current`. */
    var session: Session
    /** The identity the next `createNewImg` hands out. */
    var nextId: nat
    /** Files whose `FileReader` was started and whose `onload` has not fired yet. */
    var pending: multiset<FileHandle>
    /** The row labels, edited only through the page, never by a handler. */
    var labels: seq<string>

    /**
     * The board invariant: every container has a list, item identities are
     * unique and handed out, and only the pool, the one container with the
     * desktop handlers, can carry `drag-files`.
     */
    ghost predicate Valid()
      reads this
    {
      WellFormed(children, nextId) && dragFiles <= {Pool}
    }

    /** The page as first rendered: empty containers, no marks, no drag, no reads. */
    constructor ()
      ensures Valid()
      ensures forall c :: children[c] == []
      ensures dragOver == {} && dragFiles == {} && session == Idle
      ensures pending == multiset{} && labels == InitialContent
    {
      children := map c | c in Containers :: [];
      dragOver, dragFiles := {}, {};
      session := Idle;
      nextId := 0;
      pending := multiset{};
      labels := InitialContent;
      new;
      forall c: ContainerId
        ensures c in children && children[c] == []
      {
        ContainersListed(c);
      }
      ConcatEmpty(children, Containers);
    }

    /**
     * `handleDragStart`, fired on the `i`-th child of container `c`, an item:
     * the session records that item and `c`, its parent, and a later
     * `removeChild` on `c` finds that very item.
     */
    method DragStart(c: ContainerId, i: nat)
      requires Valid() && i < |children[c]| && children[c][i].Item?
      modifies this`session
      ensures Valid()
      ensures session == Dragging(children[c][i].id, c)
      ensures IndexOfItem(children[c], session.element) == Some(i)
    {
      session := Dragging(children[c][i].id, c);
      UniqueIndex(children, nextId, c, i);
    }

    /** `handleDragEnd`: the session is idle again, whatever happened during the drag. */
    method DragEnd()
      modifies this`session
      ensures session == Idle
    {
      session := Idle;
    }

    /**
     * `createNewImg`: a new draggable item showing `src`, with a fresh
     * identity, appended to the pool and returned.
     */
    method CreateNewImg(src: string) returns (id: nat)
      requires Total(children)
      modifies this`children, this`nextId
      ensures id == old(nextId) && nextId == id + 1
      ensures children == old(children)[Pool := old(children[Pool]) + [Item(id, src)]]
    {
      id := nextId;
      children := children[Pool := children[Pool] + [Item(id, src)]];
      nextId := nextId + 1;
    }

    /**
     * `handleFilesInput`: nothing for a missing or empty file list; otherwise
     * one read is started per file, in list order.
     */
    method HandleFilesInput(files: Option<seq<FileHandle>>)
      modifies this`pending
      ensures files.None? || files.value == [] ==> pending == old(pending)
      ensures files.Some? ==> pending == old(pending) + multiset(files.value)
    {
      if files.None? || |files.value| == 0 {
        return;
      }
      var fileList := files.value;
      for i := 0 to |fileList|
        invariant pending == old(pending) + multiset(fileList[..i])
      {
        assert fileList[..i + 1] == fileList[..i] + [fileList[i]];
        pending := pending + multiset{fileList[i]};
      }
      assert fileList[..|fileList|] == fileList;
    }

    /**
     * A `FileReader.onload` for a started read of `file`, with data URL
     * `src`: the read is no longer in flight and one new item showing `src`
     * is appended to the pool.
     */
    method ReadCompleted(file: FileHandle, src: string)
      requires Valid() && file in pending
      modifies this`children, this`nextId, this`pending
      ensures Valid()
      ensures pending == old(pending) - multiset{file}
      ensures children == old(children)[Pool := ReadsCompleted(old(children[Pool]), old(nextId), [src])]
      ensures nextId == old(nextId) + 1
      ensures TotalItems(children) == old(TotalItems(children)) + 1
    {
      AppendFreshKeepsWellFormed(children, nextId, src);
      ReadsCompletedOne(children[Pool], nextId, src);
      pending := pending - multiset{file};
      var _ := CreateNewImg(src);
    }

    /**
     * `srcContainer.removeChild(element)` for the dragged item: it leaves its
     * recorded source. When it is not a child there the call throws
     * NotFoundError: `ok` is false and nothing changes.
     */
    method RemoveDragged() returns (ok: bool)
      requires Total(children) && session.Dragging?
      modifies this`children
      ensures var k := IndexOfItem(old(children[session.src]), session.element);
        && ok == k.Some?
        && children == if ok then old(children)[session.src := RemoveAt(old(children[session.src]), k.value)] else old(children)
    {
      var src := session.src;
      var k := IndexOfItem(children[src], session.element);
      ok := k.Some?;
      if ok {
        children := children[src := RemoveAt(children[src], k.value)];
      }
    }

    /**
     * `createNewImg(src)` followed by `currentTarget.appendChild`: the new
     * item is made in the pool and then moved to the end of `target`.
     */
    method AppendNewImg(target: ContainerId, text: string) returns (id: nat)
      requires Total(children)
      modifies this`children, this`nextId
      ensures id == old(nextId) && nextId == id + 1
      ensures children == old(children)[target := old(children[target]) + [Item(id, text)]]
    {
      ghost var was := children;
      id := CreateNewImg(text);
      AppendThenDetachLast(was, Pool, Item(id, text));
      var pool := children[Pool];
      children := children[Pool := pool[..|pool| - 1]];
      children := children[target := children[target] + [Item(id, text)]];
    }

    /**
     * The last two steps of both `handleDropItem` and `handleDragLeave`:
     * `drag-over` is removed from `target` and so is its first preview.
     */
    method ClearTarget(target: ContainerId)
      requires Total(children)
      modifies this`children, this`dragOver
      ensures children == LeaveChildren(old(children), target)
      ensures dragOver == old(dragOver) - {target}
    {
      dragOver := dragOver - {target};
      children := children[target := WithoutFirstPreview(children[target])];
    }

    /**
     * `handleDropItem` on `target`, with payload text `text`. With a dragged
     * item, the item is detached from its recorded source; when that throws,
     * the handler stops there and nothing changes (`ok` is false). Otherwise
     * a new item showing `text` is appended to `target`. Then the target's
     * `drag-over` mark and preview are cleared.
     */
    method DropItem(target: ContainerId, text: string) returns (ok: bool)
      requires Valid()
      modifies this`children, this`nextId, this`dragOver
      ensures Valid()
      ensures var r := DropChildren(old(children), session, target, text, old(nextId));
        && ok == r.Some?
        && children == (if ok then r.value else old(children))
      ensures ok ==> dragOver == old(dragOver) - {target}
      ensures !ok ==> dragOver == old(dragOver)
      ensures nextId == if ok && session.Dragging? then old(nextId) + 1 else old(nextId)
      ensures ok && session.Dragging? ==> TotalItems(children) == old(TotalItems(children))
    {
      ghost var ch, marks := children, dragOver;
      if session.Dragging? {
        ok := RemoveDragged();
        assert dragOver == marks;
        if !ok {
          return;
        }
        var id := AppendNewImg(target, text);
        assert dragOver == marks;
        ghost var dropped := LeaveChildren(children, target);
        assert dropped == DropChildren(ch, session, target, text, id).value by {
          DropShape(ch, session, target, text, id);
        }
        assert WellFormed(dropped, nextId) && TotalItems(dropped) == TotalItems(ch) by {
          DropKeepsWellFormed(ch, session, target, text, id);
          DropKeepsCount(ch, session, target, text, id);
        }
      } else {
        RemovePreviewKeepsWellFormed(children, target, nextId);
      }
      assert dragOver == marks;
      ClearTarget(target);
      ok := true;
    }

    /**
     * `handleDragOver` on `target`: nothing over the session's own source;
     * elsewhere the `drag-over` mark is set (also with an idle session) and,
     * while an item is dragged and the target shows no preview, a preview
     * clone is appended.
     */
    method DragOver(target: ContainerId)
      requires Valid()
      modifies this`children, this`dragOver
      ensures Valid()
      ensures children == DragOverChildren(old(children), session, target)
      ensures session.Dragging? && session.src == target ==> dragOver == old(dragOver)
      ensures !(session.Dragging? && session.src == target) ==> dragOver == old(dragOver) + {target}
    {
      if session.Dragging? && session.src == target {
        return;
      }
      dragOver := dragOver + {target};
      if session.Dragging? && Preview !in children[target] {
        AppendPreviewKeepsWellFormed(children, target, nextId);
        children := children[target := children[target] + [Preview]];
      }
    }

    /** `handleDragLeave` on `target`: the mark and the target's first preview go. */
    method DragLeave(target: ContainerId)
      requires Valid()
      modifies this`children, this`dragOver
      ensures Valid()
      ensures children == LeaveChildren(old(children), target)
      ensures dragOver == old(dragOver) - {target}
    {
      RemovePreviewKeepsWellFormed(children, target, nextId);
      ClearTarget(target);
    }

    /** `handleDragOverFromDesktop` on the pool: `drag-files` is set when files are dragged. */
    method DragOverFromDesktop(dt: DataTransfer)
      modifies this`dragFiles
      ensures "Files" in dt.types ==> dragFiles == old(dragFiles) + {Pool}
      ensures "Files" !in dt.types ==> dragFiles == old(dragFiles)
    {
      if "Files" in dt.types {
        dragFiles := dragFiles + {Pool};
      }
    }

    /** `handleDragLeaveFromDesktop` on the pool: `drag-files` goes. */
    method DragLeaveFromDesktop()
      modifies this`dragFiles
      ensures dragFiles == old(dragFiles) - {Pool}
    {
      dragFiles := dragFiles - {Pool};
    }

    /**
     * `handleDropFromDesktop` on the pool: a payload marked `internal` is
     * ignored; a payload carrying files starts one read per file and clears
     * `drag-files`.
     */
    method DropFromDesktop(dt: DataTransfer)
      modifies this`pending, this`dragFiles
      ensures dt.text != "internal" && "Files" in dt.types ==>
        pending == old(pending) + multiset(dt.files) && dragFiles == old(dragFiles) - {Pool}
      ensures !(dt.text != "internal" && "Files" in dt.types) ==>
        pending == old(pending) && dragFiles == old(dragFiles)
    {
      if dt.text == "internal" {
        return;
      }
      if "Files" in dt.types {
        HandleFilesInput(Some(dt.files));
        dragFiles := dragFiles - {Pool};
      }
    }

    /** Moves every node of `row`, in order, to the end of the pool. */
    method MoveRowToPool(row: ContainerId)
      requires Total(children) && row != Pool
      modifies this`children
      ensures children == old(children)[row := []][Pool := old(children[Pool]) + old(children[row])]
    {
      ghost var was := children;
      var nodes := children[row];
      for k := 0 to |nodes|
        invariant Total(children)
        invariant children[row] == nodes[k..]
        invariant children[Pool] == was[Pool] + nodes[..k]
        invariant forall c :: c != row && c != Pool ==> children[c] == was[c]
      {
        var img := children[row][0];
        assert img == nodes[k] && children[row][1..] == nodes[k + 1..];
        assert nodes[..k + 1] == nodes[..k] + [img];
        children := children[row := children[row][1..]];
        children := children[Pool := children[Pool] + [img]];
      }
      assert nodes[..|nodes|] == nodes;
      ghost var want := was[row := []][Pool := was[Pool] + nodes];
      forall c: ContainerId
        ensures c in children && c in want && children[c] == want[c]
      {
      }
    }

    /**
     * The loop of `handleResetBtn`: every node of the rows, in document
     * order (rows S to E, each in child order), is removed and appended to
     * the pool.
     */
    method GatherRows()
      requires Total(children)
      modifies this`children
      ensures children == ResetChildren(old(children))
    {
      ghost var was := children;
      for t := 0 to |Rows|
        invariant Total(children)
        invariant children[Pool] == was[Pool] + Concat(was, Rows[..t])
        invariant forall j :: 0 <= j < t ==> children[Rows[j]] == []
        invariant forall j :: t <= j < |Rows| ==> children[Rows[j]] == was[Rows[j]]
      {
        ContainersListed(Pool);
        assert Rows[..t + 1] == Rows[..t] + [Rows[t]];
        ConcatSnoc(was, Rows[..t], Rows[t]);
        MoveRowToPool(Rows[t]);
      }
      assert Rows[..|Rows|] == Rows;
      ghost var want := ResetChildren(was);
      forall c: ContainerId
        ensures c in children && c in want && children[c] == want[c]
      {
        ContainersListed(c);
        if c != Pool {
          var j :| 0 <= j < |Rows| && Rows[j] == c;
        }
      }
      assert children == want;
    }

    /**
     * `handleResetBtn`: the rows are emptied into the pool. The items on the
     * board, the marks, the session and the labels are as they were.
     */
    method ResetBtn()
      requires Valid()
      modifies this`children
      ensures Valid()
      ensures children == ResetChildren(old(children))
      ensures TotalItems(children) == old(TotalItems(children))
      ensures labels == old(labels)
    {
      ResetKeepsBoard(children, nextId);
      GatherRows();
    }

    // ----- routing of each drag event to the handlers wired on its container -----

    /**
     * A `dragover` event on `target`: `handleDragOver`, then, on the pool
     * only, `handleDragOverFromDesktop`.
     */
    method OnDragOver(target: ContainerId, dt: DataTransfer)
      requires Valid()
      modifies this`children, this`dragOver, this`dragFiles
      ensures Valid()
      ensures children == DragOverChildren(old(children), session, target)
      ensures session.Dragging? && session.src == target ==> dragOver == old(dragOver)
      ensures !(session.Dragging? && session.src == target) ==> dragOver == old(dragOver) + {target}
      ensures target == Pool && "Files" in dt.types ==> dragFiles == old(dragFiles) + {Pool}
      ensures !(target == Pool && "Files" in dt.types) ==> dragFiles == old(dragFiles)
    {
      DragOver(target);
      if target == Pool {
        DragOverFromDesktop(dt);
      }
    }

    /**
     * A `drop` event on `target`: `handleDropItem`, then, on the pool only,
     * `handleDropFromDesktop`, which runs even when the first listener threw.
     * A file drop on a row therefore starts no read; on the pool it starts
     * one per file unless the payload says `internal`. With an idle session
     * no container's items change.
     */
    method OnDrop(target: ContainerId, dt: DataTransfer) returns (ok: bool)
      requires Valid()
      modifies this`children, this`nextId, this`dragOver, this`pending, this`dragFiles
      ensures Valid()
      ensures var r := DropChildren(old(children), session, target, dt.text, old(nextId));
        && ok == r.Some?
        && children == (if ok then r.value else old(children))
      ensures ok ==> dragOver == old(dragOver) - {target}
      ensures !ok ==> dragOver == old(dragOver)
      ensures nextId == if ok && session.Dragging? then old(nextId) + 1 else old(nextId)
      ensures ok && session.Dragging? ==> TotalItems(children) == old(TotalItems(children))
      ensures session.Idle? ==> forall c :: Items(children[c]) == Items(old(children)[c])
      ensures target == Pool && dt.text != "internal" && "Files" in dt.types ==>
        pending == old(pending) + multiset(dt.files) && dragFiles == old(dragFiles) - {Pool}
      ensures !(target == Pool && dt.text != "internal" && "Files" in dt.types) ==>
        pending == old(pending) && dragFiles == old(dragFiles)
    {
      ok := DropItem(target, dt.text);
      if target == Pool {
        DropFromDesktop(dt);
      }
    }

    /**
     * A `dragleave` event on `target`: `handleDragLeave`, then, on the pool
     * only, `handleDragLeaveFromDesktop`.
     */
    method OnDragLeave(target: ContainerId)
      requires Valid()
      modifies this`children, this`dragOver, this`dragFiles
      ensures Valid()
      ensures children == LeaveChildren(old(children), target)
      ensures dragOver == old(dragOver) - {target}
      ensures target == Pool ==> dragFiles == old(dragFiles) - {Pool}
      ensures target != Pool ==> dragFiles == old(dragFiles)
    {
      DragLeave(target);
      if target == Pool {
        DragLeaveFromDesktop();
      }
    }
  }
}
