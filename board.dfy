/**
 * The whole board as a table from drop container to child list, and the
 * board read in document order: the pool first, then the rows S to E.
 */
module Board {
  import opened Dom

  /** The child list of every drop container. */
  type Children = map<ContainerId, seq<Node>>

  /** The tier rows in document order, S to E. */
  const Rows: seq<ContainerId> := [Row(S), Row(A), Row(B), Row(C), Row(D), Row(E)]

  /** Every drop container: the pool, then the rows. */
  const Containers: seq<ContainerId> := [Pool] + Rows

  /** Every container has a child list. */
  ghost predicate Total(ch: Children) {
    forall c: ContainerId :: c in ch
  }

  predicate Distinct(cs: seq<ContainerId>) {
    forall i, j :: 0 <= i < j < |cs| ==> cs[i] != cs[j]
  }

  /** The containers are listed once each, and every one is listed. */
  lemma ContainersListed(c: ContainerId)
    ensures Distinct(Containers) && Distinct(Rows)
    ensures c in Containers
    ensures c != Pool <==> c in Rows
  {
    match c
    case Pool =>
    case Row(t) =>
      match t
      case S => assert Rows[0] == c;
      case A => assert Rows[1] == c;
      case B => assert Rows[2] == c;
      case C => assert Rows[3] == c;
      case D => assert Rows[4] == c;
      case E => assert Rows[5] == c;
  }

  /** The child lists of `cs`, one after the other. */
  function Concat(ch: Children, cs: seq<ContainerId>): seq<Node>
    requires Total(ch)
  {
    if cs == [] then [] else ch[cs[0]] + Concat(ch, cs[1..])
  }

  /** The row nodes in document order: what `.tier .item-img` selects. */
  function RowNodes(ch: Children): seq<Node>
    requires Total(ch)
  {
    Concat(ch, Rows)
  }

  /** Every node of the board, the pool first and then the rows S to E. */
  function BoardNodes(ch: Children): seq<Node>
    requires Total(ch)
  {
    Concat(ch, Containers)
  }

  /** The items on the board, as a bag. */
  ghost function ItemBag(ch: Children): multiset<Node>
    requires Total(ch)
  {
    multiset(Items(BoardNodes(ch)))
  }

  /** The number of real items on the board, previews not counted. */
  function TotalItems(ch: Children): nat
    requires Total(ch)
  {
    ItemCount(BoardNodes(ch))
  }

  /**
   * `n` is in `bag`. The invariants below quantify over this predicate, so
   * that their instances are made only where a proof names a member.
   */
  ghost predicate InBag(bag: multiset<Node>, n: Node) {
    n in bag
  }

  /** No two items on the board are the same node or share an identity. */
  ghost predicate UniqueIds(bag: multiset<Node>) {
    forall n, m {:trigger InBag(bag, n), InBag(bag, m)} :: InBag(bag, n) && InBag(bag, m) && n.Item? && m.Item? && n.id == m.id ==> n == m && bag[n] == 1
  }

  /** Every item identity on the board was handed out before `nextId`. */
  ghost predicate IdsBelow(bag: multiset<Node>, nextId: nat) {
    forall n {:trigger InBag(bag, n)} :: InBag(bag, n) && n.Item? ==> n.id < nextId
  }

  /** The board invariant kept by every handler. */
  ghost predicate WellFormed(ch: Children, nextId: nat) {
    Total(ch) && UniqueIds(ItemBag(ch)) && IdsBelow(ItemBag(ch), nextId)
  }

  /** No container shows more than one `.drag-preview`. */
  predicate AtMostOnePreview(ch: Children) {
    forall c :: c in ch ==> PreviewCount(ch[c]) <= 1
  }

  lemma DistinctTail(cs: seq<ContainerId>)
    requires Distinct(cs) && cs != []
    ensures Distinct(cs[1..]) && cs[0] !in cs[1..]
  {
    forall i | 0 <= i < |cs[1..]|
      ensures cs[1..][i] != cs[0]
    {
      assert cs[1..][i] == cs[i + 1];
    }
  }

  /** Replacing the child list of a container that is not flattened changes nothing. */
  lemma {:induction false} ConcatUpdateOther(ch: Children, cs: seq<ContainerId>, c: ContainerId, v: seq<Node>)
    requires Total(ch) && c !in cs
    ensures Concat(ch[c := v], cs) == Concat(ch, cs)
  {
    if cs != [] {
      ConcatUpdateOther(ch, cs[1..], c, v);
    }
  }

  /**
   * Replacing the child list of a container that is flattened once swaps
   * that list's items for the new list's items.
   */
  lemma {:induction false} ConcatUpdate(ch: Children, cs: seq<ContainerId>, c: ContainerId, v: seq<Node>)
    requires Total(ch) && Distinct(cs) && c in cs
    ensures multiset(Items(Concat(ch[c := v], cs))) + multiset(Items(ch[c]))
      == multiset(Items(Concat(ch, cs))) + multiset(Items(v))
    ensures multiset(Items(ch[c])) <= multiset(Items(Concat(ch, cs)))
  {
    var ch' := ch[c := v];
    var head, tail := cs[0], cs[1..];
    DistinctTail(cs);
    ItemsConcat(ch'[head], Concat(ch', tail));
    ItemsConcat(ch[head], Concat(ch, tail));
    var newTail, oldTail := multiset(Items(Concat(ch', tail))), multiset(Items(Concat(ch, tail)));
    if head == c {
      ConcatUpdateOther(ch, tail, c, v);
      SwapHead(multiset(Items(Concat(ch', cs))), multiset(Items(Concat(ch, cs))), oldTail,
        multiset(Items(ch[c])), multiset(Items(v)));
    } else {
      ConcatUpdate(ch, tail, c, v);
      SwapInTail(multiset(Items(Concat(ch', cs))), multiset(Items(Concat(ch, cs))), multiset(Items(ch[head])),
        newTail, oldTail, multiset(Items(ch[c])), multiset(Items(v)));
    }
  }

  /** Bag arithmetic for a swap in the first part of a sum. */
  lemma SwapHead(x: multiset<Node>, y: multiset<Node>, t: multiset<Node>, p: multiset<Node>, q: multiset<Node>)
    requires x == q + t && y == p + t
    ensures x + p == y + q && p <= y
  {
  }

  /** Bag arithmetic for a swap in the second part of a sum. */
  lemma SwapInTail(x: multiset<Node>, y: multiset<Node>, h: multiset<Node>, nt: multiset<Node>, ot: multiset<Node>,
                   p: multiset<Node>, q: multiset<Node>)
    requires x == h + nt && y == h + ot && nt + p == ot + q && p <= ot
    ensures x + p == y + q && p <= y
  {
    forall n
      ensures (x + p)[n] == (y + q)[n]
    {
      assert (nt + p)[n] == (ot + q)[n];
    }
  }

  lemma {:induction false} ConcatSnoc(ch: Children, cs: seq<ContainerId>, c: ContainerId)
    requires Total(ch)
    ensures Concat(ch, cs + [c]) == Concat(ch, cs) + ch[c]
  {
    if cs == [] {
      assert cs + [c] == [c];
    } else {
      assert (cs + [c])[0] == cs[0];
      assert (cs + [c])[1..] == cs[1..] + [c];
      ConcatSnoc(ch, cs[1..], c);
    }
  }

  lemma {:induction false} ConcatEmpty(ch: Children, cs: seq<ContainerId>)
    requires Total(ch)
    requires forall i :: 0 <= i < |cs| ==> ch[cs[i]] == []
    ensures Concat(ch, cs) == []
  {
    if cs != [] {
      ConcatEmpty(ch, cs[1..]);
    }
  }

  /** The board in document order is the pool followed by the rows. */
  lemma BoardIsPoolThenRows(ch: Children)
    requires Total(ch)
    ensures BoardNodes(ch) == ch[Pool] + RowNodes(ch)
  {
    assert Containers[0] == Pool && Containers[1..] == Rows;
  }

  /**
   * Replacing one container's child list swaps that list's items for the new
   * list's items in the board's item bag; every container's items are part
   * of the bag.
   */
  lemma BagUpdate(ch: Children, c: ContainerId, v: seq<Node>)
    requires Total(ch)
    ensures ItemBag(ch[c := v]) + multiset(Items(ch[c])) == ItemBag(ch) + multiset(Items(v))
    ensures multiset(Items(ch[c])) <= ItemBag(ch)
  {
    ContainersListed(c);
    ConcatUpdate(ch, Containers, c, v);
  }
}
