/**
 * The tier-list board's DOM, as values: the seven drop containers and the
 * child nodes each of them holds, in document order.
 */
module Dom {

  datatype Option<+T> = None | Some(value: T)

  /** The six ranked rows of `.tier`, top to bottom. */
  datatype Tier = S | A | B | C | D | E

  /** A drop container: the unranked pool `#selector-items`, or one tier row. */
  datatype ContainerId = Pool | Row(tier: Tier)

  /**
   * A child of a container that carries the class `item-img`: either a
   * draggable image made by `createNewImg` (`id` is its node identity, `src`
   * the data URL it shows), or the `.drag-preview` clone that a drag-over
   * appends, which is an opaque marker here.
   */
  datatype Node = Item(id: nat, src: string) | Preview

  predicate HasId(n: Node, id: nat) {
    n.Item? && n.id == id
  }

  /** The real items of a child list, previews left out, order kept. */
  function Items(s: seq<Node>): (r: seq<Node>)
    ensures |r| <= |s|
    ensures forall i :: 0 <= i < |r| ==> r[i].Item?
  {
    if s == [] then []
    else if s[0].Item? then [s[0]] + Items(s[1..])
    else Items(s[1..])
  }

  /** A node is among the items of a list exactly when it is an item of that list. */
  lemma {:induction false} ItemsMembers(s: seq<Node>, n: Node)
    ensures n in Items(s) <==> n in s && n.Item?
  {
    if s != [] {
      ItemsMembers(s[1..], n);
      assert s == [s[0]] + s[1..];
    }
  }

  function ItemCount(s: seq<Node>): nat {
    |Items(s)|
  }

  /** How many `.drag-preview` clones a child list holds. */
  function PreviewCount(s: seq<Node>): nat {
    multiset(s)[Preview]
  }

  /** Every node of a child list is an item or a preview, nothing else. */
  lemma {:induction false} ItemsAndPreviews(s: seq<Node>)
    ensures ItemCount(s) + PreviewCount(s) == |s|
    ensures multiset(Items(s)) == multiset(s)[Preview := 0]
  {
    if s != [] {
      ItemsAndPreviews(s[1..]);
      assert s == [s[0]] + s[1..];
      assert multiset(s) == multiset{s[0]} + multiset(s[1..]);
    }
  }

  lemma {:induction false} ItemsConcat(a: seq<Node>, b: seq<Node>)
    ensures Items(a + b) == Items(a) + Items(b)
  {
    if a != [] {
      assert (a + b)[0] == a[0];
      assert (a + b)[1..] == a[1..] + b;
      ItemsConcat(a[1..], b);
    } else {
      assert a + b == b;
    }
  }

  /**
   * The position of the first item whose identity is `id`: where
   * `removeChild` finds the node it detaches, or None when the node is not a
   * child (and `removeChild` throws NotFoundError).
   */
  function IndexOfItem(s: seq<Node>, id: nat): (r: Option<nat>)
    ensures r.Some? ==> r.value < |s| && HasId(s[r.value], id)
    ensures r.Some? ==> forall j :: 0 <= j < r.value ==> !HasId(s[j], id)
    ensures r.None? <==> forall j :: 0 <= j < |s| ==> !HasId(s[j], id)
  {
    if s == [] then None
    else if HasId(s[0], id) then Some(0)
    else match IndexOfItem(s[1..], id)
      case None => None
      case Some(k) => Some(k + 1)
  }

  /** The child list without its `k`-th node (`removeChild`, `remove`). */
  function RemoveAt(s: seq<Node>, k: nat): (r: seq<Node>)
    requires k < |s|
    ensures |r| == |s| - 1
  {
    s[..k] + s[k + 1..]
  }

  /** Removing a node takes out exactly one occurrence of it. */
  lemma RemoveAtCounts(s: seq<Node>, k: nat)
    requires k < |s|
    ensures multiset(RemoveAt(s, k)) == multiset(s) - multiset{s[k]}
  {
    assert s == s[..k] + [s[k]] + s[k + 1..];
  }

  /** Removing an item removes exactly that item from the item list. */
  lemma {:induction false} RemoveItemAt(s: seq<Node>, k: nat)
    requires k < |s| && s[k].Item?
    ensures Items(s) == Items(s[..k]) + [s[k]] + Items(s[k + 1..])
    ensures Items(RemoveAt(s, k)) == Items(s[..k]) + Items(s[k + 1..])
    ensures ItemCount(RemoveAt(s, k)) == ItemCount(s) - 1
    ensures multiset(Items(s)) == multiset(Items(RemoveAt(s, k))) + multiset{s[k]}
  {
    var pre, post := s[..k], s[k + 1..];
    var rest := [s[k]] + post;
    assert s == pre + rest;
    ItemsConcat(pre, rest);
    assert Items(rest) == [s[k]] + Items(post) by {
      assert rest[0] == s[k] && rest[1..] == post;
    }
    assert RemoveAt(s, k) == pre + post;
    ItemsConcat(pre, post);
  }

  /**
   * `querySelector('.drag-preview')?.remove()`: the child list without its
   * first preview, unchanged when it has none.
   */
  function WithoutFirstPreview(s: seq<Node>): seq<Node> {
    if s == [] then []
    else if s[0] == Preview then s[1..]
    else [s[0]] + WithoutFirstPreview(s[1..])
  }

  /** The removal takes out one preview when there is one, and nothing else. */
  lemma {:induction false} WithoutFirstPreviewCounts(s: seq<Node>)
    ensures multiset(WithoutFirstPreview(s)) == multiset(s) - multiset{Preview}
    ensures Preview !in s ==> WithoutFirstPreview(s) == s
  {
    if s != [] {
      assert s == [s[0]] + s[1..];
      if s[0] != Preview {
        WithoutFirstPreviewCounts(s[1..]);
      }
    }
  }

  /** Removing the preview leaves the items, and their order, as they were. */
  lemma {:induction false} WithoutFirstPreviewKeepsItems(s: seq<Node>)
    ensures Items(WithoutFirstPreview(s)) == Items(s)
  {
    if s != [] && s[0] != Preview {
      WithoutFirstPreviewKeepsItems(s[1..]);
      var t := [s[0]] + WithoutFirstPreview(s[1..]);
      assert t[0] == s[0] && t[1..] == WithoutFirstPreview(s[1..]);
    }
  }

  /** An item appended after the preview removal or before it ends up in the same place. */
  lemma {:induction false} WithoutFirstPreviewAppendItem(s: seq<Node>, x: Node)
    requires x.Item?
    ensures WithoutFirstPreview(s + [x]) == WithoutFirstPreview(s) + [x]
  {
    var t := s + [x];
    if s == [] {
      assert t == [x];
    } else {
      assert t[0] == s[0];
      assert t[1..] == s[1..] + [x];
      if s[0] == Preview {
        assert WithoutFirstPreview(t) == t[1..];
      } else {
        WithoutFirstPreviewAppendItem(s[1..], x);
        assert WithoutFirstPreview(t) == [s[0]] + WithoutFirstPreview(t[1..]);
      }
    }
  }

  /** A preview appended to a list without one is the preview that is removed. */
  lemma {:induction false} WithoutFirstPreviewAppendPreview(s: seq<Node>)
    requires Preview !in s
    ensures WithoutFirstPreview(s + [Preview]) == s
  {
    var t := s + [Preview];
    if s == [] {
      assert t == [Preview];
    } else {
      assert t[0] == s[0] != Preview;
      assert t[1..] == s[1..] + [Preview];
      WithoutFirstPreviewAppendPreview(s[1..]);
      assert WithoutFirstPreview(t) == [s[0]] + WithoutFirstPreview(t[1..]);
    }
  }
}
