/** The slab lists of mm/slab.c as the code has them: the `list` nodes of the slabs, linked behind the
    heads of a cache with the operations of include/list.h. */
module SlabLists {
  import opened Collections
  import opened Lists
  import opened Slabs

  function Links(s: seq<Slab>): (r: seq<ListHead>)
    ensures |r| == |s| && forall i :: 0 <= i < |s| ==> r[i] == s[i].list
  {
    seq(|s|, i requires 0 <= i < |s| => s[i].list)
  }

  /** No slab is on two of the lists, or twice on one. */
  ghost predicate AllApart(lists: seq<seq<Slab>>) {
    && (forall i :: 0 <= i < |lists| ==> Distinct(lists[i]))
    && (forall i, j, s :: 0 <= i < j < |lists| && s in lists[i] ==> s !in lists[j])
  }

  class SlabHeads {
    const heads: seq<ListHead>
    const owner: map<ListHead, Slab>  // container_of

    /** The three empty lists of `kmem_cache_createx`. */
    constructor (owner: map<ListHead, Slab>)
      ensures Shows([[], [], []]) && this.owner == owner && forall h :: h in heads ==> fresh(h)
    {
      var partial := new ListHead();
      var full := new ListHead();
      var free := new ListHead();
      heads := [partial, full, free];
      this.owner := owner;
      new;
      hide Fine, Ring;
      EmptyShown();
    }

    lemma EmptyShown()
      requires |heads| == 3 && HeadsOk() && forall i :: 0 <= i < 3 ==> Ring([heads[i]])
      ensures Shows([[], [], []])
    {
      hide Ring, Links;
      forall i | 0 <= i < 3
        ensures ShowsOne(i, [])
      {
        assert Circle(i, []) == [heads[i]];
      }
    }

    ghost predicate Embedded(s: Slab) {
      s.list in owner && owner[s.list] == s
    }

    ghost predicate AllIn(s: seq<Slab>) {
      forall i :: 0 <= i < |s| ==> Embedded(s[i])
    }

    ghost predicate HeadsOk() {
      Distinct(heads) && forall h :: h in heads ==> h !in owner
    }

    ghost function Circle(i: nat, s: seq<Slab>): seq<ListHead>
      requires i < |heads|
    {
      [heads[i]] + Links(s)
    }

    ghost predicate Fine(lists: seq<seq<Slab>>) {
      && HeadsOk() && AllApart(lists)
      && forall i :: 0 <= i < |lists| ==> AllIn(lists[i])
    }

    /** The circles have no node in common. */
    lemma CirclesApart(lists: seq<seq<Slab>>, i: nat, j: nat)
      requires |lists| == |heads| && Fine(lists) && i < |lists| && j < |lists| && i != j
      ensures forall n :: n in Circle(i, lists[i]) ==> n !in Circle(j, lists[j])
    {
      forall k, l | 0 <= k < |lists[i]| && 0 <= l < |lists[j]|
        ensures lists[i][k].list != lists[j][l].list
      {
        assert Embedded(lists[i][k]) && Embedded(lists[j][l]);
        assert lists[i][k] in lists[i] && lists[j][l] in lists[j];
      }
      forall k | 0 <= k < |lists[i]|
        ensures lists[i][k].list in owner
      {
        assert Embedded(lists[i][k]);
      }
      forall l | 0 <= l < |lists[j]|
        ensures lists[j][l].list in owner
      {
        assert Embedded(lists[j][l]);
      }
      assert heads[i] != heads[j] by { Differ(heads, i, j); }
    }

    /** The pointers behind the heads hold these lists. */
    ghost predicate Shows(lists: seq<seq<Slab>>)
      reads heads, owner.Keys
    {
      && |lists| == |heads| && Fine(lists)
      && forall i :: 0 <= i < |lists| ==> ShowsOne(i, lists[i])
    }

    ghost predicate ShowsOne(i: nat, s: seq<Slab>)
      requires i < |heads|
      reads heads, owner.Keys
    {
      (forall n :: n in Circle(i, s) ==> n in heads || n in owner.Keys) && Ring(Circle(i, s))
    }

    /** `list_del`. */
    method Unlink(s: Slab, ghost lists: seq<seq<Slab>>, ghost i: nat, ghost k: nat)
      requires Shows(lists) && i < |lists| && k < |lists[i]| && s == lists[i][k]
      modifies heads, owner.Keys
      ensures Shows(lists[i := Remove(lists[i], k)])
    {
      hide Ring, Fine, Remove;
      ghost var q := Remove(lists[i], k);
      assert ShowsOne(i, lists[i]);
      Neighbours(heads[i], Links(lists[i]), k);
      assert s.list.prev in Circle(i, lists[i]) && s.list.next in Circle(i, lists[i]);
      ListDel(s.list, heads[i], Links(lists[i]), k);
      RemoveLinks(lists[i], k);
      forall j | 0 <= j < |lists| && j != i
        ensures ShowsOne(j, lists[j])
      {
        CirclesApart(lists, i, j);
        assert old(ShowsOne(j, lists[j]));
      }
      RemoveFine(lists, i, k);
    }

    lemma RemoveLinks(s: seq<Slab>, k: nat)
      requires k < |s|
      ensures Remove(Links(s), k) == Links(Remove(s, k))
      ensures forall n :: n in Links(Remove(s, k)) ==> n in Links(s)
    {
    }

    lemma RemoveFine(lists: seq<seq<Slab>>, i: nat, k: nat)
      requires Fine(lists) && i < |lists| && k < |lists[i]|
      ensures Fine(lists[i := Remove(lists[i], k)])
    {
      RemoveFacts(lists[i], k);
      assert forall s :: s in Remove(lists[i], k) ==> s in lists[i];
    }

    /** `list_add`. */
    method Link(s: Slab, ghost lists: seq<seq<Slab>>, i: nat)
      requires Shows(lists) && i < |lists| && Embedded(s) && forall j :: 0 <= j < |lists| ==> s !in lists[j]
      modifies heads, owner.Keys
      ensures Shows(Headed(lists, i, s))
    {
      hide Ring, Fine;
      assert ShowsOne(i, lists[i]);
      HeadNext(heads[i], Links(lists[i]));
      assert heads[i] in Circle(i, lists[i]) && heads[i].next in Circle(i, lists[i]);
      LinkFresh(lists, i, s);
      ListAdd(s.list, heads[i], Links(lists[i]));
      assert [heads[i]] + [s.list] + Links(lists[i]) == [heads[i]] + Links([s] + lists[i]);
      forall j | 0 <= j < |lists| && j != i
        ensures ShowsOne(j, lists[j])
      {
        CirclesApart(lists, i, j);
        assert old(ShowsOne(j, lists[j]));
      }
    }

    /** The node of a slab on no list is in no circle. */
    lemma LinkFresh(lists: seq<seq<Slab>>, i: nat, s: Slab)
      requires |lists| == |heads| && Fine(lists) && i < |lists| && Embedded(s)
      requires forall j :: 0 <= j < |lists| ==> s !in lists[j]
      ensures forall j :: 0 <= j < |lists| ==> s.list !in Circle(j, lists[j])
      ensures Fine(Headed(lists, i, s))
    {
      forall j, k | 0 <= j < |lists| && 0 <= k < |lists[j]|
        ensures lists[j][k].list != s.list
      {
        assert AllIn(lists[j]);
        assert Embedded(lists[j][k]) && lists[j][k] in lists[j];
      }
    }

    /** `list_del` and `list_add` to another list or the same. */
    method Relink(s: Slab, ghost lists: seq<seq<Slab>>, ghost i: nat, ghost k: nat, to: nat)
      requires Shows(lists) && |lists| == 3 && i < 3 && k < |lists[i]| && s == lists[i][k] && to < 3
      modifies heads, owner.Keys
      ensures Shows(Headed([Without(lists[0], s), Without(lists[1], s), Without(lists[2], s)], to, s))
    {
      hide Shows, ShowsOne, Headed;
      IsEmbedded(lists, i, k);
      WithoutOne(lists, i, k);
      Unlink(s, lists, i, k);
      Link(s, lists[i := Remove(lists[i], k)], to);
    }

    lemma IsEmbedded(lists: seq<seq<Slab>>, i: nat, k: nat)
      requires Shows(lists) && i < |lists| && k < |lists[i]|
      ensures AllApart(lists) && Embedded(lists[i][k])
    {
      assert AllIn(lists[i]);
    }

    /** The second part of `_slab_alloc` on the lists beside the one on the sequences: they go on to agree. */
    method MoveAfterAlloc(c: Cache, s: Slab, ghost i: nat, ghost k: nat)
      requires c.ListsOk() && s.cache == c && Shows(c.Three())
      requires i < 3 && k < |c.Three()[i]| && c.Three()[i][k] == s
      modifies c, heads, owner.Keys
      ensures c.ListsOk() && Shows(c.Three())
    {
      hide Shows, Cache.ListsOk, Without, Headed;
      Relink(s, c.Three(), i, k, if s.free == BUFCTL_END then 1 else 0);
      c.MoveAfterAlloc(s);
    }

    /** The second part of `_slab_free` likewise. */
    method MoveAfterFree(c: Cache, s: Slab, ghost i: nat, ghost k: nat)
      requires c.ListsOk() && s.cache == c && Shows(c.Three())
      requires i < 3 && k < |c.Three()[i]| && c.Three()[i][k] == s
      modifies c, heads, owner.Keys
      ensures c.ListsOk() && Shows(c.Three())
    {
      hide Shows, Cache.ListsOk, Without, Headed;
      Relink(s, c.Three(), i, k, if s.inuse == 0 then 2 else 0);
      c.MoveAfterFree(s);
    }
  }

  lemma {:induction false} WithoutIsRemove(q: seq<Slab>, k: nat)
    requires Distinct(q) && k < |q|
    ensures Without(q, q[k]) == Remove(q, k)
  {
    if k > 0 {
      WithoutIsRemove(q[1..], k - 1);
      assert q[0] != q[k];
    }
  }

  lemma WithoutOne(lists: seq<seq<Slab>>, i: nat, k: nat)
    requires |lists| == 3 && AllApart(lists) && i < 3 && k < |lists[i]|
    ensures var s := lists[i][k];
            && lists[i := Remove(lists[i], k)] == [Without(lists[0], s), Without(lists[1], s), Without(lists[2], s)]
            && forall q :: q in lists[i := Remove(lists[i], k)] ==> s !in q
  {
    hide Without, Remove;
    var s := lists[i][k];
    assert s in lists[i];
    WithoutIsRemove(lists[i], k);
    RemoveFacts(lists[i], k);
    forall j | 0 <= j < 3 && j != i
      ensures s !in lists[j] && Without(lists[j], s) == lists[j]
    {
      WithoutAbsent(lists[j], s);
    }
  }
}
