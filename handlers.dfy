/**
 * What each drag-and-drop handler, the reset button and a completed file
 * read do to the board's child lists, as functions, with the properties the
 * board relies on.
 */
module Handlers {
  import opened Dom
  import opened Board

  /**
   * `draggedElementRef.current`: idle (element and source container both
   * null), or the identity of the dragged item and the container it was in
   * when the drag started.
   */
  datatype Session = Idle | Dragging(element: nat, src: ContainerId)

  /** A drag-over previews on `target` only while an item is dragged and `target` is not its source. */
  predicate ShowsPreview(session: Session, target: ContainerId) {
    session.Dragging? && session.src != target
  }

  // ----- drag-over and drag-leave -----

  /**
   * `handleDragOver`'s effect on the child lists: when an item is dragged
   * over a container other than its source and that container has no
   * `.drag-preview` yet, a preview is appended.
   */
  function DragOverChildren(ch: Children, session: Session, target: ContainerId): (r: Children)
    requires Total(ch)
    ensures Total(r)
    ensures forall c :: c != target ==> r[c] == ch[c]
    ensures Items(r[target]) == Items(ch[target])
    ensures !ShowsPreview(session, target) ==> r == ch
  {
    if ShowsPreview(session, target) && Preview !in ch[target] then
      ItemsConcat(ch[target], [Preview]);
      ch[target := ch[target] + [Preview]]
    else
      ch
  }

  /** `handleDragLeave`'s effect on the child lists: the target's first preview is removed. */
  function LeaveChildren(ch: Children, target: ContainerId): (r: Children)
    requires Total(ch)
    ensures Total(r)
    ensures forall c :: c != target ==> r[c] == ch[c]
    ensures Items(r[target]) == Items(ch[target])
  {
    WithoutFirstPreviewKeepsItems(ch[target]);
    ch[target := WithoutFirstPreview(ch[target])]
  }

  /**
   * A drag-over shows a preview where it acts: a new one goes last, a
   * target that already shows one is left as it is, and no container ever
   * gets a second one.
   */
  lemma DragOverPreview(ch: Children, session: Session, target: ContainerId)
    requires Total(ch)
    ensures var r := DragOverChildren(ch, session, target);
      && (ShowsPreview(session, target) ==> Preview in r[target])
      && (ShowsPreview(session, target) && Preview !in ch[target] ==> r[target] == ch[target] + [Preview])
      && (Preview in ch[target] ==> r == ch)
      && (PreviewCount(ch[target]) <= 1 ==> PreviewCount(r[target]) <= 1)
      && (AtMostOnePreview(ch) ==> AtMostOnePreview(r))
  {
    if ShowsPreview(session, target) && Preview !in ch[target] {
      assert PreviewCount(ch[target]) == 0;
      assert multiset(ch[target] + [Preview]) == multiset(ch[target]) + multiset{Preview};
    }
  }

  /** A drag-leave takes away the one preview of its target and adds none anywhere. */
  lemma LeavePreview(ch: Children, target: ContainerId)
    requires Total(ch)
    ensures var r := LeaveChildren(ch, target);
      && (PreviewCount(ch[target]) <= 1 ==> Preview !in r[target])
      && (AtMostOnePreview(ch) ==> AtMostOnePreview(r))
  {
    WithoutFirstPreviewCounts(ch[target]);
  }

  /** Under the one-preview invariant, a second drag-leave changes nothing. */
  lemma LeaveIdempotent(ch: Children, target: ContainerId)
    requires Total(ch) && PreviewCount(ch[target]) <= 1
    ensures LeaveChildren(LeaveChildren(ch, target), target) == LeaveChildren(ch, target)
  {
    var once := LeaveChildren(ch, target);
    LeavePreview(ch, target);
    WithoutFirstPreviewCounts(once[target]);
    assert once[target := once[target]] == once;
  }

  /** Hovering a container and leaving it without dropping keeps every container's items. */
  lemma HoverThenLeaveKeepsItems(ch: Children, session: Session, target: ContainerId)
    requires Total(ch)
    ensures var r := LeaveChildren(DragOverChildren(ch, session, target), target);
      forall c :: Items(r[c]) == Items(ch[c])
  {
  }

  /**
   * Hovering a container that shows no preview and leaving it without
   * dropping restores the child lists exactly.
   */
  lemma HoverThenLeaveRestores(ch: Children, session: Session, target: ContainerId)
    requires Total(ch) && Preview !in ch[target]
    ensures LeaveChildren(DragOverChildren(ch, session, target), target) == ch
  {
    if ShowsPreview(session, target) {
      WithoutFirstPreviewAppendPreview(ch[target]);
    } else {
      WithoutFirstPreviewCounts(ch[target]);
    }
    assert ch[target := ch[target]] == ch;
  }

  /** Replacing a child list by one with the same items keeps the board's item bag. */
  lemma SameItemsSameBag(ch: Children, c: ContainerId, v: seq<Node>)
    requires Total(ch) && Items(v) == Items(ch[c])
    ensures ItemBag(ch[c := v]) == ItemBag(ch)
    ensures TotalItems(ch[c := v]) == TotalItems(ch)
  {
    BagUpdate(ch, c, v);
    CancelSame(ItemBag(ch[c := v]), ItemBag(ch), multiset(Items(v)));
    assert |ItemBag(ch[c := v])| == |ItemBag(ch)|;
  }

  /** Appending a preview clone keeps the board invariant: previews are not items. */
  lemma AppendPreviewKeepsWellFormed(ch: Children, target: ContainerId, nextId: nat)
    requires WellFormed(ch, nextId)
    ensures WellFormed(ch[target := ch[target] + [Preview]], nextId)
  {
    ItemsConcat(ch[target], [Preview]);
    SameItemsSameBag(ch, target, ch[target] + [Preview]);
  }

  /** Removing a container's first preview keeps the board invariant. */
  lemma RemovePreviewKeepsWellFormed(ch: Children, target: ContainerId, nextId: nat)
    requires WellFormed(ch, nextId)
    ensures WellFormed(ch[target := WithoutFirstPreview(ch[target])], nextId)
  {
    WithoutFirstPreviewKeepsItems(ch[target]);
    SameItemsSameBag(ch, target, WithoutFirstPreview(ch[target]));
  }

  // ----- drag start -----

  /** A node that occurs twice in a child list has multiplicity at least two. */
  lemma TwiceInList(s: seq<Node>, j: nat, i: nat)
    requires j < i < |s| && s[j] == s[i]
    ensures multiset(s)[s[i]] >= 2
  {
    var a, b := s[..i], s[i..];
    assert s == a + b;
    assert a[j] == s[j] && b[0] == s[i];
    assert multiset(s) == multiset(a) + multiset(b);
  }

  /**
   * On a well-formed board an identity is found where the dragged item is:
   * `removeChild` on the source detaches exactly the item drag-start saw.
   */
  lemma UniqueIndex(ch: Children, nextId: nat, c: ContainerId, i: nat)
    requires WellFormed(ch, nextId) && i < |ch[c]| && ch[c][i].Item?
    ensures IndexOfItem(ch[c], ch[c][i].id) == Some(i)
  {
    var s := ch[c];
    forall j | 0 <= j < i
      ensures !HasId(s[j], s[i].id)
    {
      if HasId(s[j], s[i].id) {
        var bag := ItemBag(ch);
        assert multiset(Items(s)) <= bag by {
          BagUpdate(ch, c, s);
        }
        assert InBag(bag, s[j]) && InBag(bag, s[i]) by {
          ItemsMembers(s, s[j]);
          ItemsMembers(s, s[i]);
        }
        assert s[j] == s[i];
        TwiceInList(s, j, i);
        ItemsAndPreviews(s);
        assert false;
      }
    }
  }

  // ----- drop -----

  /**
   * `handleDropItem`'s effect on the child lists. With a dragged item, the
   * item is detached from its recorded source container (None when it is no
   * longer a child there: `removeChild` throws and nothing else happens), a
   * new item with identity `newId` showing the payload text is appended to
   * the target, and the target's preview is removed. With an idle session
   * only the preview is removed.
   */
  function DropChildren(ch: Children, session: Session, target: ContainerId, text: string, newId: nat): (r: Option<Children>)
    requires Total(ch)
    ensures r.None? <==> session.Dragging? && IndexOfItem(ch[session.src], session.element).None?
    ensures r.Some? ==> Total(r.value)
    ensures session.Idle? ==> r == Some(LeaveChildren(ch, target))
    ensures session.Idle? ==> r.Some? && forall c :: Items(r.value[c]) == Items(ch[c])
  {
    match session
    case Idle =>
      Some(LeaveChildren(ch, target))
    case Dragging(element, src) =>
      match IndexOfItem(ch[src], element)
      case None => None
      case Some(k) =>
        var detached := ch[src := RemoveAt(ch[src], k)];
        var created := detached[target := detached[target] + [Item(newId, text)]];
        Some(LeaveChildren(created, target))
  }

  /**
   * `createNewImg` appends the new image to the pool and `appendChild` then
   * moves it to the target: in between, the pool is as it was before.
   */
  lemma AppendThenDetachLast(ch: Children, c: ContainerId, x: Node)
    requires c in ch
    ensures var grown := ch[c := ch[c] + [x]];
      c in grown && |grown[c]| > 0 && grown[c := grown[c][..|grown[c]| - 1]] == ch
  {
    var grown := ch[c := ch[c] + [x]];
    assert grown[c][..|grown[c]| - 1] == ch[c];
  }

  /** A drop that finds the dragged item in its source. */
  ghost predicate DropApplies(ch: Children, session: Session) {
    Total(ch) && session.Dragging? && IndexOfItem(ch[session.src], session.element).Some?
  }

  /** The target's child list that the new item is appended to. */
  function DropBase(ch: Children, session: Session, target: ContainerId): seq<Node>
    requires DropApplies(ch, session)
  {
    var k := IndexOfItem(ch[session.src], session.element).value;
    if session.src == target then RemoveAt(ch[session.src], k) else ch[target]
  }

  /** The child lists after a drop that finds the dragged item, built step by step. */
  lemma DropShape(ch: Children, session: Session, target: ContainerId, text: string, newId: nat)
    requires DropApplies(ch, session)
    ensures var k := IndexOfItem(ch[session.src], session.element).value;
      var detached := ch[session.src := RemoveAt(ch[session.src], k)];
      var grown := DropBase(ch, session, target) + [Item(newId, text)];
      && detached[target] == DropBase(ch, session, target)
      && DropChildren(ch, session, target, text, newId).value
         == detached[target := grown][target := WithoutFirstPreview(grown)]
  {
  }

  /** A drop leaves every container other than the source and the target as it was. */
  lemma DropKeepsOthers(ch: Children, session: Session, target: ContainerId, text: string, newId: nat)
    requires DropApplies(ch, session)
    ensures var k := IndexOfItem(ch[session.src], session.element).value;
      var r := DropChildren(ch, session, target, text, newId).value;
      && (forall c :: c != session.src && c != target ==> r[c] == ch[c])
      && (session.src != target ==> r[session.src] == RemoveAt(ch[session.src], k))
  {
    DropShape(ch, session, target, text, newId);
  }

  /** After a drop the target holds its base list, minus the preview, then the new item. */
  lemma DropTargetList(ch: Children, session: Session, target: ContainerId, text: string, newId: nat)
    requires DropApplies(ch, session)
    ensures DropChildren(ch, session, target, text, newId).value[target]
      == WithoutFirstPreview(DropBase(ch, session, target)) + [Item(newId, text)]
  {
    DropShape(ch, session, target, text, newId);
    WithoutFirstPreviewAppendItem(DropBase(ch, session, target), Item(newId, text));
  }

  /**
   * A drop detaches the dragged item from its source and appends exactly one
   * new item, last, to the target; the target's preview goes; no other
   * container changes.
   */
  lemma DropMovesOneItem(ch: Children, session: Session, target: ContainerId, text: string, newId: nat)
    requires DropApplies(ch, session)
    ensures var k := IndexOfItem(ch[session.src], session.element).value;
      var r := DropChildren(ch, session, target, text, newId).value;
      && (forall c :: c != session.src && c != target ==> r[c] == ch[c])
      && (session.src != target ==> r[session.src] == RemoveAt(ch[session.src], k))
      && Items(r[target]) == Items(DropBase(ch, session, target)) + [Item(newId, text)]
      && |r[target]| > 0 && r[target][|r[target]| - 1] == Item(newId, text)
      && (PreviewCount(DropBase(ch, session, target)) <= 1 ==> Preview !in r[target])
  {
    var item := Item(newId, text);
    var base := DropBase(ch, session, target);
    var list := DropChildren(ch, session, target, text, newId).value[target];
    DropKeepsOthers(ch, session, target, text, newId);
    DropTargetList(ch, session, target, text, newId);
    assert Items(list) == Items(base) + [item] by {
      WithoutFirstPreviewKeepsItems(base);
      ItemsConcat(WithoutFirstPreview(base), [item]);
      assert Items([item]) == [item];
    }
    assert PreviewCount(base) <= 1 ==> Preview !in list by {
      if PreviewCount(base) <= 1 {
        WithoutFirstPreviewCounts(base);
        assert Preview !in WithoutFirstPreview(base);
      }
    }
  }

  /** A drop never leaves a container with a second preview. */
  lemma DropKeepsOnePreview(ch: Children, session: Session, target: ContainerId, text: string, newId: nat)
    requires DropApplies(ch, session) && AtMostOnePreview(ch)
    ensures AtMostOnePreview(DropChildren(ch, session, target, text, newId).value)
  {
    var src, k := session.src, IndexOfItem(ch[session.src], session.element).value;
    var r := DropChildren(ch, session, target, text, newId).value;
    RemoveAtCounts(ch[src], k);
    assert PreviewCount(RemoveAt(ch[src], k)) <= PreviewCount(ch[src]);
    DropMovesOneItem(ch, session, target, text, newId);
    forall c | c in r
      ensures PreviewCount(r[c]) <= 1
    {
      if c == target {
        assert PreviewCount(DropBase(ch, session, target)) <= 1;
        assert Preview !in r[c];
      }
    }
  }

  /** Moving an item within its own container keeps its item count and puts the new item last. */
  lemma DropOnSourceMovesToEnd(ch: Children, session: Session, text: string, newId: nat)
    requires DropApplies(ch, session)
    ensures var k := IndexOfItem(ch[session.src], session.element).value;
      var r := DropChildren(ch, session, session.src, text, newId).value;
      && Items(r[session.src]) == Items(RemoveAt(ch[session.src], k)) + [Item(newId, text)]
      && ItemCount(r[session.src]) == ItemCount(ch[session.src])
  {
    var k := IndexOfItem(ch[session.src], session.element).value;
    DropMovesOneItem(ch, session, session.src, text, newId);
    RemoveItemAt(ch[session.src], k);
  }

  /** Multiset cancellation: `x + a == y + b` with `a == b + {o}` gives `x + {o} == y`. */
  lemma Cancel(x: multiset<Node>, y: multiset<Node>, a: multiset<Node>, b: multiset<Node>, o: Node)
    requires x + a == y + b && a == b + multiset{o}
    ensures x + multiset{o} == y
  {
    forall n
      ensures (x + multiset{o})[n] == y[n]
    {
      assert (x + a)[n] == (y + b)[n];
    }
  }

  lemma CancelSame(x: multiset<Node>, y: multiset<Node>, a: multiset<Node>)
    requires x + a == y + a
    ensures x == y
  {
    forall n
      ensures x[n] == y[n]
    {
      assert (x + a)[n] == (y + a)[n];
    }
  }

  /** A drop swaps the dragged item for the new item in the board's item bag. */
  lemma DropBag(ch: Children, session: Session, target: ContainerId, text: string, newId: nat)
    requires DropApplies(ch, session)
    ensures var k := IndexOfItem(ch[session.src], session.element).value;
      var r := DropChildren(ch, session, target, text, newId).value;
      ItemBag(r) + multiset{ch[session.src][k]} == ItemBag(ch) + multiset{Item(newId, text)}
  {
    var src, k := session.src, IndexOfItem(ch[session.src], session.element).value;
    var item, gone := Item(newId, text), ch[session.src][k];
    var removed := RemoveAt(ch[src], k);
    var detached := ch[src := removed];
    var grown := detached[target] + [item];
    var created := detached[target := grown];
    var r := DropChildren(ch, session, target, text, newId).value;
    assert ItemBag(detached) + multiset{gone} == ItemBag(ch) by {
      RemoveItemAt(ch[src], k);
      BagUpdate(ch, src, removed);
      Cancel(ItemBag(detached), ItemBag(ch), multiset(Items(ch[src])), multiset(Items(removed)), gone);
    }
    assert ItemBag(created) == ItemBag(detached) + multiset{item} by {
      BagUpdate(detached, target, grown);
      ItemsConcat(detached[target], [item]);
      assert Items([item]) == [item];
      Cancel(ItemBag(detached), ItemBag(created), multiset(Items(grown)), multiset(Items(detached[target])), item);
    }
    assert ItemBag(r) == ItemBag(created) by {
      DropShape(ch, session, target, text, newId);
      BagUpdate(created, target, WithoutFirstPreview(grown));
      WithoutFirstPreviewKeepsItems(grown);
      CancelSame(ItemBag(r), ItemBag(created), multiset(Items(grown)));
    }
  }

  /** A drop neither creates nor loses an item overall. */
  lemma DropKeepsCount(ch: Children, session: Session, target: ContainerId, text: string, newId: nat)
    requires DropApplies(ch, session)
    ensures TotalItems(DropChildren(ch, session, target, text, newId).value) == TotalItems(ch)
  {
    var k := IndexOfItem(ch[session.src], session.element).value;
    var r := DropChildren(ch, session, target, text, newId).value;
    DropBag(ch, session, target, text, newId);
    assert |ItemBag(r) + multiset{ch[session.src][k]}| == |ItemBag(ch) + multiset{Item(newId, text)}|;
  }

  /**
   * Swapping one item of a bag of unique identities for an item with a fresh
   * identity keeps identities unique, and the swapped-out identity is gone.
   */
  lemma SwapKeepsUnique(bag: multiset<Node>, bag': multiset<Node>, gone: Node, added: Node, nextId: nat)
    requires UniqueIds(bag) && IdsBelow(bag, nextId)
    requires gone in bag && gone.Item? && added.Item? && added.id == nextId
    requires bag' + multiset{gone} == bag + multiset{added}
    ensures UniqueIds(bag') && IdsBelow(bag', nextId + 1)
    ensures forall n :: n in bag' && n.Item? ==> n.id != gone.id
  {
    assert InBag(bag, gone) && !InBag(bag, added);
    forall n | n != added
      ensures bag'[n] <= bag[n]
    {
      assert (bag' + multiset{gone})[n] == (bag + multiset{added})[n];
    }
    assert bag'[gone] == 0 by {
      assert (bag' + multiset{gone})[gone] == (bag + multiset{added})[gone];
    }
    assert bag'[added] == 1 by {
      assert (bag' + multiset{gone})[added] == (bag + multiset{added})[added];
    }
    forall n | InBag(bag', n) && n.Item?
      ensures n.id < nextId + 1 && n.id != gone.id
    {
      if n != added {
        assert InBag(bag, n);
      }
    }
    forall n, m | InBag(bag', n) && InBag(bag', m) && n.Item? && m.Item? && n.id == m.id
      ensures n == m && bag'[n] == 1
    {
      if n != added {
        assert InBag(bag, n);
      }
      if m != added {
        assert InBag(bag, m);
      }
    }
  }

  /**
   * On a well-formed board a drop keeps identities unique, hands out
   * `newId`, and leaves the dragged item in no container at all.
   */
  lemma DropKeepsWellFormed(ch: Children, session: Session, target: ContainerId, text: string, newId: nat)
    requires DropApplies(ch, session) && WellFormed(ch, newId)
    ensures var r := DropChildren(ch, session, target, text, newId).value;
      && WellFormed(r, newId + 1)
      && forall c, i :: 0 <= i < |r[c]| ==> !HasId(r[c][i], session.element)
  {
    var src, k := session.src, IndexOfItem(ch[session.src], session.element).value;
    var gone := ch[src][k];
    var r := DropChildren(ch, session, target, text, newId).value;
    assert gone in ItemBag(ch) by {
      BagUpdate(ch, src, ch[src]);
      ItemsMembers(ch[src], gone);
    }
    DropBag(ch, session, target, text, newId);
    SwapKeepsUnique(ItemBag(ch), ItemBag(r), gone, Item(newId, text), newId);
    forall c, i | 0 <= i < |r[c]|
      ensures !HasId(r[c][i], session.element)
    {
      BagUpdate(r, c, r[c]);
      ItemsMembers(r[c], r[c][i]);
    }
  }

  // ----- reset -----

  /**
   * `handleResetBtn`'s effect: every node of every row, in document order, is
   * appended to the pool, and the rows are left empty.
   */
  function ResetChildren(ch: Children): (r: Children)
    requires Total(ch)
    ensures Total(r)
    ensures r[Pool] == ch[Pool] + RowNodes(ch)
    ensures forall t :: r[Row(t)] == []
  {
    map c | c in ch :: if c == Pool then ch[Pool] + RowNodes(ch) else []
  }

  /**
   * Reset reorders nothing on the board read in document order: the same
   * nodes, so the same item count, the same items and the same invariant.
   */
  lemma ResetKeepsBoard(ch: Children, nextId: nat)
    requires Total(ch)
    ensures BoardNodes(ResetChildren(ch)) == BoardNodes(ch)
    ensures TotalItems(ResetChildren(ch)) == TotalItems(ch)
    ensures WellFormed(ch, nextId) ==> WellFormed(ResetChildren(ch), nextId)
  {
    var r := ResetChildren(ch);
    forall i | 0 <= i < |Rows|
      ensures r[Rows[i]] == []
    {
      ContainersListed(Rows[i]);
    }
    ConcatEmpty(r, Rows);
    BoardIsPoolThenRows(r);
    BoardIsPoolThenRows(ch);
  }

  /** Every `.drag-preview` left on the board ends up in the pool. */
  lemma ResetGathersPreviews(ch: Children)
    requires Total(ch)
    ensures PreviewCount(ResetChildren(ch)[Pool]) == PreviewCount(BoardNodes(ch))
  {
    ResetKeepsBoard(ch, 0);
    var r := ResetChildren(ch);
    BoardIsPoolThenRows(r);
    assert RowNodes(r) == [];
    assert BoardNodes(r) == r[Pool];
  }

  /** A second reset changes nothing. */
  lemma ResetIdempotent(ch: Children)
    requires Total(ch)
    ensures ResetChildren(ResetChildren(ch)) == ResetChildren(ch)
  {
    var r := ResetChildren(ch);
    forall i | 0 <= i < |Rows|
      ensures r[Rows[i]] == []
    {
      ContainersListed(Rows[i]);
    }
    ConcatEmpty(r, Rows);
    assert ResetChildren(r)[Pool] == r[Pool];
  }

  // ----- ingestion -----

  /**
   * The pool after file reads complete with data URLs `srcs`, in completion
   * order: each completion appends one new item, with the next identity.
   */
  function ReadsCompleted(pool: seq<Node>, nextId: nat, srcs: seq<string>): (r: seq<Node>)
    ensures |r| == |pool| + |srcs|
    ensures r[..|pool|] == pool
    ensures forall i :: 0 <= i < |srcs| ==> r[|pool| + i] == Item(nextId + i, srcs[i])
    decreases |srcs|
  {
    if srcs == [] then pool
    else ReadsCompleted(pool + [Item(nextId, srcs[0])], nextId + 1, srcs[1..])
  }

  /** The sources shown by a child list's items, in order. */
  function Sources(s: seq<Node>): (r: seq<string>)
    ensures |r| == ItemCount(s)
  {
    if s == [] then []
    else if s[0].Item? then [s[0].src] + Sources(s[1..])
    else Sources(s[1..])
  }

  lemma {:induction false} SourcesConcat(a: seq<Node>, b: seq<Node>)
    ensures Sources(a + b) == Sources(a) + Sources(b)
  {
    if a == [] {
      assert a + b == b;
    } else {
      assert (a + b)[0] == a[0];
      assert (a + b)[1..] == a[1..] + b;
      SourcesConcat(a[1..], b);
    }
  }

  /** N completed reads add N items to the pool, showing the N data URLs in completion order. */
  lemma ReadsCompletedAdd(pool: seq<Node>, nextId: nat, srcs: seq<string>)
    ensures var r := ReadsCompleted(pool, nextId, srcs);
      && ItemCount(r) == ItemCount(pool) + |srcs|
      && Sources(r) == Sources(pool) + srcs
      && PreviewCount(r) == PreviewCount(pool)
  {
    var r := ReadsCompleted(pool, nextId, srcs);
    var added := r[|pool|..];
    assert r == pool + added;
    assert forall i :: 0 <= i < |added| ==> added[i] == Item(nextId + i, srcs[i]);
    NewItemsSources(added, nextId, srcs);
    SourcesConcat(pool, added);
    ItemsAndPreviews(pool);
    ItemsAndPreviews(added);
    ItemsAndPreviews(r);
  }

  lemma {:induction false} NewItemsSources(added: seq<Node>, nextId: nat, srcs: seq<string>)
    requires |added| == |srcs|
    requires forall i :: 0 <= i < |added| ==> added[i] == Item(nextId + i, srcs[i])
    ensures Sources(added) == srcs
    ensures Preview !in added
  {
    if added != [] {
      NewItemsSources(added[1..], nextId + 1, srcs[1..]);
    }
  }

  /** One completed read appends one new item, last, to the pool. */
  lemma ReadsCompletedOne(pool: seq<Node>, nextId: nat, src: string)
    ensures ReadsCompleted(pool, nextId, [src]) == pool + [Item(nextId, src)]
  {
    assert [src][1..] == [];
  }

  /**
   * Reads that complete one at a time give the same pool as the whole batch
   * in that completion order.
   */
  lemma ReadsCompletedStep(pool: seq<Node>, nextId: nat, srcs: seq<string>, src: string)
    ensures ReadsCompleted(ReadsCompleted(pool, nextId, srcs), nextId + |srcs|, [src])
      == ReadsCompleted(pool, nextId, srcs + [src])
  {
    var once := ReadsCompleted(pool, nextId, srcs);
    var both := ReadsCompleted(once, nextId + |srcs|, [src]);
    var all := ReadsCompleted(pool, nextId, srcs + [src]);
    forall i | 0 <= i < |all|
      ensures both[i] == all[i]
    {
      if i < |pool| {
        assert all[..|pool|][i] == all[i];
        assert both[..|once|][i] == both[i];
        assert once[..|pool|][i] == once[i];
      } else if i < |once| {
        var j := i - |pool|;
        assert both[..|once|][i] == both[i];
        assert once[|pool| + j] == Item(nextId + j, srcs[j]);
        assert all[|pool| + j] == Item(nextId + j, (srcs + [src])[j]);
      } else {
        assert i == |once| + 0 == |pool| + |srcs|;
        assert both[|once| + 0] == Item(nextId + |srcs| + 0, [src][0]);
        assert all[|pool| + |srcs|] == Item(nextId + |srcs|, (srcs + [src])[|srcs|]);
      }
    }
  }

  /**
   * Whatever order the reads of one batch complete in, the pool gains the
   * same number of items showing the same data URLs.
   */
  lemma CompletionOrderIrrelevant(pool: seq<Node>, nextId: nat, order1: seq<string>, order2: seq<string>)
    requires multiset(order1) == multiset(order2)
    ensures ItemCount(ReadsCompleted(pool, nextId, order1)) == ItemCount(ReadsCompleted(pool, nextId, order2))
    ensures multiset(Sources(ReadsCompleted(pool, nextId, order1)))
      == multiset(Sources(ReadsCompleted(pool, nextId, order2)))
  {
    ReadsCompletedAdd(pool, nextId, order1);
    ReadsCompletedAdd(pool, nextId, order2);
    assert |order1| == |multiset(order1)| == |order2|;
  }

  /** Adding an item with a fresh identity to a bag of unique identities keeps them unique. */
  lemma AddKeepsUnique(bag: multiset<Node>, added: Node, nextId: nat)
    requires UniqueIds(bag) && IdsBelow(bag, nextId)
    requires added.Item? && added.id == nextId
    ensures UniqueIds(bag + multiset{added}) && IdsBelow(bag + multiset{added}, nextId + 1)
  {
    var bag' := bag + multiset{added};
    assert !InBag(bag, added);
    forall n | InBag(bag', n) && n.Item?
      ensures n.id < nextId + 1
    {
      if n != added {
        assert InBag(bag, n);
      }
    }
    forall n, m | InBag(bag', n) && InBag(bag', m) && n.Item? && m.Item? && n.id == m.id
      ensures n == m && bag'[n] == 1
    {
      if n != added {
        assert InBag(bag, n);
      }
      if m != added {
        assert InBag(bag, m);
      }
    }
  }

  /**
   * `createNewImg` on a well-formed board: one more item, with an identity no
   * other item has.
   */
  lemma AppendFreshKeepsWellFormed(ch: Children, nextId: nat, src: string)
    requires WellFormed(ch, nextId)
    ensures var r := ch[Pool := ReadsCompleted(ch[Pool], nextId, [src])];
      && WellFormed(r, nextId + 1)
      && TotalItems(r) == TotalItems(ch) + 1
  {
    var item := Item(nextId, src);
    var pool' := ReadsCompleted(ch[Pool], nextId, [src]);
    var r := ch[Pool := pool'];
    assert ItemBag(r) == ItemBag(ch) + multiset{item} by {
      assert pool' == ch[Pool] + [item];
      BagUpdate(ch, Pool, pool');
      ItemsConcat(ch[Pool], [item]);
      assert Items([item]) == [item];
      Cancel(ItemBag(ch), ItemBag(r), multiset(Items(pool')), multiset(Items(ch[Pool])), item);
    }
    AddKeepsUnique(ItemBag(ch), item, nextId);
    assert |ItemBag(r)| == |ItemBag(ch)| + 1;
  }
}
