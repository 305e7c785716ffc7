/** The intrusive lists of include/list.h. */
module Lists {
  import opened Collections

  /** `s` with `x` put in before position `k`. */
  function Insert<T>(s: seq<T>, k: nat, x: T): seq<T>
    requires k <= |s|
  {
    s[..k] + [x] + s[k..]
  }

  function Remove<T>(s: seq<T>, k: nat): seq<T>
    requires k < |s|
  {
    s[..k] + s[k + 1..]
  }

  lemma Differ<T>(s: seq<T>, i: int, j: int)
    requires Distinct(s) && 0 <= i < |s| && 0 <= j < |s| && i != j
    ensures s[i] != s[j]
  {
    if j < i {
      assert s[j] != s[i];
    }
  }

  lemma InsertFacts<T>(s: seq<T>, k: nat, x: T)
    requires Distinct(s) && k <= |s| && x !in s
    ensures var t := Insert(s, k, x);
            && Distinct(t) && |t| == |s| + 1 && t[k] == x
            && (forall i :: 0 <= i < k ==> t[i] == s[i]) && (forall i :: k < i <= |s| ==> t[i] == s[i - 1])
  {
  }

  lemma RemoveFacts<T>(s: seq<T>, k: nat)
    requires Distinct(s) && k < |s|
    ensures var t := Remove(s, k);
            && Distinct(t) && |t| == |s| - 1 && s[k] !in t
            && (forall i :: 0 <= i < k ==> t[i] == s[i]) && (forall i :: k <= i < |t| ==> t[i] == s[i + 1])
  {
  }

  function After(n: int, i: int): int {
    if i + 1 < n then i + 1 else 0
  }

  /** `struct list_head`: a node, or the head of a list, which is a node like the others. */
  class ListHead {
    var next: ListHead
    var prev: ListHead

    /** `INIT_LIST_HEAD`. */
    constructor ()
      ensures Ring([this])
    {
      next := this;
      prev := this;
    }
  }

  /** Neighbours know each other. */
  ghost predicate Linked(c: seq<ListHead>, i: int)
    requires 0 <= i < |c|
    reads c
  {
    c[i].next == c[After(|c|, i)] && c[After(|c|, i)].prev == c[i]
  }

  /** The nodes of `c` form a circle, forwards and backwards. */
  ghost predicate Ring(c: seq<ListHead>)
    reads c
  {
    Distinct(c) && forall i :: 0 <= i < |c| ==> Linked(c, i)
  }

  lemma HeadNext(head: ListHead, s: seq<ListHead>)
    requires Ring([head] + s)
    ensures head.next == if s == [] then head else s[0]
  {
    assert Linked([head] + s, 0);
  }

  lemma Neighbours(head: ListHead, s: seq<ListHead>, k: nat)
    requires Ring([head] + s) && k < |s|
    ensures var c := [head] + s; s[k].prev == c[k] && s[k].next == if k + 1 < |s| then s[k + 1] else head
  {
    assert Linked([head] + s, k) && Linked([head] + s, k + 1);
  }

  /** `__list_add` between two neighbours. */
  method ListAddBetween(node: ListHead, prev: ListHead, next: ListHead, ghost c: seq<ListHead>, ghost k: nat)
    requires Ring(c) && node !in c && k < |c| && prev == c[k] && next == c[After(|c|, k)]
    modifies node, prev`next, next`prev
    ensures Ring(Insert(c, k + 1, node))
  {
    hide Insert, Distinct;
    assert Linked(c, k);
    next.prev := node;
    node.next := next;
    node.prev := prev;
    prev.next := node;
    ghost var d := Insert(c, k + 1, node);
    InsertFacts(c, k + 1, node);
    forall j | 0 <= j < |d|
      ensures Linked(d, j)
    {
      if j != k && j != k + 1 {
        ghost var i := if j < k then j else j - 1;
        assert old(Linked(c, i));
        Differ(c, i, k);
        Differ(c, After(|c|, i), After(|c|, k));
      }
    }
  }

  /** `list_add`: the new node comes first. */
  method ListAdd(node: ListHead, head: ListHead, ghost s: seq<ListHead>)
    requires Ring([head] + s) && node !in [head] + s
    modifies node, head`next, head.next`prev
    ensures Ring([head] + [node] + s)
  {
    assert Linked([head] + s, 0);
    ListAddBetween(node, head, head.next, [head] + s, 0);
    assert Insert([head] + s, 1, node) == [head] + [node] + s;
  }

  /** `list_add_tail`: the new node comes last. */
  method ListAddTail(node: ListHead, head: ListHead, ghost s: seq<ListHead>)
    requires Ring([head] + s) && node !in [head] + s
    modifies node, head`prev, head.prev`next
    ensures Ring([head] + s + [node])
  {
    ghost var c := [head] + s;
    assert Linked(c, |s|);
    ListAddBetween(node, head.prev, head, c, |s|);
    assert Insert(c, |c|, node) == [head] + s + [node];
  }

  /** `list_del`. */
  method ListDel(entry: ListHead, ghost head: ListHead, ghost s: seq<ListHead>, ghost k: nat)
    requires Ring([head] + s) && k < |s| && entry == s[k]
    modifies entry.prev`next, entry.next`prev
    ensures Ring([head] + Remove(s, k))
  {
    hide Remove, Distinct;
    ghost var c := [head] + s;
    assert Linked(c, k) && Linked(c, k + 1);
    var prev, next := entry.prev, entry.next;
    next.prev := prev;
    prev.next := next;
    ghost var d := Remove(c, k + 1);
    RemoveFacts(c, k + 1);
    forall j | 0 <= j < |d|
      ensures Linked(d, j)
    {
      if j != k {
        ghost var i := if j < k then j else j + 1;
        assert old(Linked(c, i));
        Differ(c, i, k);
        Differ(c, After(|c|, i), After(|c|, k + 1));
      }
    }
    RemoveTail(head, s, k);
  }

  lemma RemoveTail<T>(h: T, s: seq<T>, k: nat)
    requires k < |s|
    ensures Remove([h] + s, k + 1) == [h] + Remove(s, k)
  {
  }

  /** `list_empty`. */
  method ListEmpty(head: ListHead, ghost s: seq<ListHead>) returns (r: bool)
    requires Ring([head] + s)
    ensures r <==> s == []
  {
    ghost var c := [head] + s;
    assert Linked(c, 0);
    if |s| > 0 {
      Differ(c, 0, 1);
    }
    r := head.next == head;
  }

  /** `list_for_each`: every node once, in order. */
  method ListForEach(head: ListHead, ghost s: seq<ListHead>) returns (visited: seq<ListHead>)
    requires Ring([head] + s)
    ensures visited == s
  {
    ghost var c := [head] + s;
    visited := [];
    assert Linked(c, 0);
    var pos := head.next;
    while pos != head
      invariant |visited| <= |s| && visited == s[..|visited|]
      invariant pos == c[After(|c|, |visited|)]
      decreases |s| - |visited|
    {
      ghost var n := |visited|;
      assert n != |s|;
      assert Linked(c, n + 1);
      visited := visited + [pos];
      pos := pos.next;
      assert visited == s[..n + 1];
    }
    if |visited| < |s| {
      Differ(c, 0, |visited| + 1);
    }
  }

  /** A place that holds the address of a node: what a `pprev` points to. */
  datatype Slot = Nowhere | First(head: HListHead) | Next(node: HListNode)

  class HListHead {
    var first: HListNode?

    constructor ()
      ensures Chain(this, [])
    {
      first := null;
    }
  }

  class HListNode {
    var next: HListNode?
    var pprev: Slot

    /** `INIT_HLIST_NODE`. */
    constructor ()
      ensures next == null && pprev == Nowhere
    {
      next := null;
      pprev := Nowhere;
    }
  }

  /** Node `i` of `s`, or null past the end. */
  function Node(s: seq<HListNode>, i: int): HListNode? {
    if 0 <= i < |s| then s[i] else null
  }

  /** The slot that leads to node `i`. */
  function SlotOf(h: HListHead, s: seq<HListNode>, i: int): Slot {
    if 0 < i <= |s| then Next(s[i - 1]) else First(h)
  }

  ghost predicate HLinked(h: HListHead, s: seq<HListNode>, i: int)
    requires 0 <= i < |s|
    reads s
  {
    s[i].next == Node(s, i + 1) && s[i].pprev == SlotOf(h, s, i)
  }

  /** The list of `h` is `s`, and each `pprev` is the place that leads to its node. */
  ghost predicate Chain(h: HListHead, s: seq<HListNode>)
    reads h, s
  {
    Distinct(s) && h.first == Node(s, 0) && forall i :: 0 <= i < |s| ==> HLinked(h, s, i)
  }

  /** `hlist_add_head`. */
  method HListAddHead(node: HListNode, h: HListHead, ghost s: seq<HListNode>)
    requires Chain(h, s) && node !in s
    modifies node, h, s
    ensures Chain(h, [node] + s)
  {
    var first := h.first;
    node.pprev := First(h);
    node.next := first;
    if first != null {
      first.pprev := Next(node);
    }
    h.first := node;
    ghost var d := [node] + s;
    forall i | 0 <= i < |d|
      ensures HLinked(h, d, i)
    {
      if i > 0 {
        assert old(HLinked(h, s, i - 1));
      }
    }
  }

  /** `hlist_del`: the place that led to the node leads to the next one, whether it was the head or
      another node. */
  method HListDel(node: HListNode, ghost h: HListHead, ghost s: seq<HListNode>, ghost k: nat)
    requires Chain(h, s) && k < |s| && node == s[k]
    modifies h, s
    ensures Chain(h, Remove(s, k))
  {
    assert HLinked(h, s, k);
    var next, pprev := node.next, node.pprev;
    match pprev {
      case First(head) => head.first := next;
      case Next(prev) => prev.next := next;
      case Nowhere => assert false;
    }
    if next != null {
      next.pprev := pprev;
    }
    ghost var d := Remove(s, k);
    RemoveFacts(s, k);
    forall j | 0 <= j < |d|
      ensures HLinked(h, d, j)
    {
      ghost var i := if j < k then j else j + 1;
      assert old(HLinked(h, s, i));
    }
  }
}
