/** The buffer lists of kernel/blk_drv/buffer.c as the code has them: the `b_hash` and `b_free` nodes of
    the buffer heads, linked by pointers, walked and relinked with the operations of include/list.h. */
module BufferLists {
  import opened Buffers
  import opened Collections
  import opened Lists

  function Hashes(s: seq<BufferHead>): (r: seq<HListNode>)
    ensures |r| == |s| && forall i :: 0 <= i < |s| ==> r[i] == s[i].hash
  {
    seq(|s|, i requires 0 <= i < |s| => s[i].hash)
  }

  function Frees(s: seq<BufferHead>): (r: seq<ListHead>)
    ensures |r| == |s| && forall i :: 0 <= i < |s| ==> r[i] == s[i].free
  {
    seq(|s|, i requires 0 <= i < |s| => s[i].free)
  }

  /** `container_of`: the buffer each node lies in. */
  function Owners<N>(nodes: seq<N>, pool: seq<BufferHead>): (m: map<N, BufferHead>)
    requires Distinct(nodes) && |nodes| == |pool|
    ensures m.Keys == Members(nodes)
    ensures forall i :: 0 <= i < |pool| ==> m[nodes[i]] == pool[i]
  {
    map i | 0 <= i < |nodes| :: nodes[i] := pool[i]
  }

  // ----- the two lists after `n` turns of the reclaim loop -----

  ghost function FreedAt(cached: seq<BufferHead>, pinned: set<BufferHead>, n: nat): seq<BufferHead>
    requires n <= |cached|
  {
    Reversed(Keep(cached[..n], Members(cached) - pinned))
  }

  ghost function LeftAt(cached: seq<BufferHead>, pinned: set<BufferHead>, n: nat): seq<BufferHead>
    requires n <= |cached|
  {
    Keep(cached[..n], pinned) + cached[n..]
  }

  lemma WalkEnds(cached: seq<BufferHead>, pinned: set<BufferHead>)
    ensures FreedAt(cached, pinned, 0) == [] && LeftAt(cached, pinned, 0) == cached
    ensures FreedAt(cached, pinned, |cached|) == Reversed(Keep(cached, Members(cached) - pinned))
    ensures LeftAt(cached, pinned, |cached|) == Keep(cached, pinned)
  {
    NothingKept(cached, pinned);
    NothingKept(cached, Members(cached) - pinned);
    hide Keep, Reversed;
    assert cached[..|cached|] == cached;
  }

  /** A turn moves buffer `n` to the head of the free list or leaves it; the next one is where it was. */
  lemma WalkTurn(cached: seq<BufferHead>, pinned: set<BufferHead>, n: nat, k: nat)
    requires Distinct(cached) && n < |cached| && k == |Keep(cached[..n], pinned)|
    ensures k < |LeftAt(cached, pinned, n)| && LeftAt(cached, pinned, n)[k] == cached[n]
    ensures Node(Hashes(LeftAt(cached, pinned, n)), k + 1) == Node(Hashes(cached), n + 1)
    ensures if cached[n] in pinned then
              FreedAt(cached, pinned, n + 1) == FreedAt(cached, pinned, n)
              && LeftAt(cached, pinned, n + 1) == LeftAt(cached, pinned, n)
            else
              cached[n] !in FreedAt(cached, pinned, n)
              && FreedAt(cached, pinned, n + 1) == [cached[n]] + FreedAt(cached, pinned, n)
              && LeftAt(cached, pinned, n + 1) == Remove(LeftAt(cached, pinned, n), k)
  {
    hide Keep, Reversed;
    var idle := Members(cached) - pinned;
    KeepNext(cached, n, pinned);
    KeepNext(cached, n, idle);
    KeepMembers(cached[..n], idle);
    ReversedMembers(Keep(cached[..n], idle));
    ReversedPush(Keep(cached[..n], idle), cached[n]);
    assert cached[n] in cached;
    assert forall i :: 0 <= i < n ==> cached[i] != cached[n];
  }

  class LinkedLists {
    const cachedList: HListHead
    const freeList: ListHead
    const hashOwner: map<HListNode, BufferHead>  // container_of
    const freeOwner: map<ListHead, BufferHead>

    /** Two empty lists for the buffers of `pool`. */
    constructor (pool: seq<BufferHead>)
      requires Distinct(Hashes(pool)) && Distinct(Frees(pool))
      ensures Shows([], []) && fresh(cachedList) && fresh(freeList)
      ensures hashOwner.Keys == Members(Hashes(pool)) && freeOwner.Keys == Members(Frees(pool))
      ensures forall b :: b in pool ==> Embedded(b)
    {
      hide Distinct;
      cachedList := new HListHead();
      freeList := new ListHead();
      hashOwner := Owners(Hashes(pool), pool);
      freeOwner := Owners(Frees(pool), pool);
      new;
      NoneIn();
      assert Hashes([]) == [] && [freeList] + Frees([]) == [freeList];
      forall i | 0 <= i < |pool|
        ensures Embedded(pool[i])
      {
        assert Hashes(pool)[i] == pool[i].hash && Frees(pool)[i] == pool[i].free;
      }
    }

    /** The nodes of `b` lead back to `b`. */
    ghost predicate Embedded(b: BufferHead) {
      && b.hash in hashOwner && hashOwner[b.hash] == b
      && b.free in freeOwner && freeOwner[b.free] == b
    }

    ghost predicate AllIn(s: seq<BufferHead>) {
      freeList !in freeOwner && Distinct(s) && forall i :: 0 <= i < |s| ==> Embedded(s[i])
    }

    lemma NoneIn()
      requires freeList !in freeOwner
      ensures AllIn([])
    {
    }

    lemma NodesDiffer(s: seq<BufferHead>)
      requires AllIn(s)
      ensures Distinct(Hashes(s)) && Distinct([freeList] + Frees(s))
    {
      forall i, j | 0 <= i < j < |s|
        ensures s[i].hash != s[j].hash && s[i].free != s[j].free
      {
        assert Embedded(s[i]) && Embedded(s[j]);
      }
      forall i | 0 <= i < |s|
        ensures freeList != s[i].free
      {
        assert Embedded(s[i]);
      }
    }

    /** The pointers hold these two lists. */
    ghost predicate Shows(free: seq<BufferHead>, cached: seq<BufferHead>)
      reads cachedList, freeList, hashOwner.Keys, freeOwner.Keys
    {
      && AllIn(free) && AllIn(cached)
      && (forall i :: 0 <= i < |cached| ==> cached[i].hash in hashOwner)
      && (forall i :: 0 <= i < |free| ==> free[i].free in freeOwner)
      && Chain(cachedList, Hashes(cached))
      && Ring([freeList] + Frees(free))
    }

    /** `list_add` to the free list. */
    method AddFree(b: BufferHead, ghost free: seq<BufferHead>, ghost cached: seq<BufferHead>)
      requires Shows(free, cached) && Embedded(b) && b !in free
      modifies freeList, freeOwner.Keys
      ensures Shows([b] + free, cached)
    {
      hide Ring, Chain;
      NodesDiffer([b] + free);
      HeadNext(freeList, Frees(free));
      ListAdd(b.free, freeList, Frees(free));
      assert [freeList] + [b.free] + Frees(free) == [freeList] + Frees([b] + free);
    }

    /** The lists that `buffer_init` links. */
    method LinkAll(pool: seq<BufferHead>)
      requires Shows([], []) && Distinct(pool) && forall b :: b in pool ==> Embedded(b)
      modifies freeList, freeOwner.Keys
      ensures Shows(pool, [])
    {
      hide Shows;
      var k := |pool|;
      assert pool[k..] == [];
      while k > 0
        invariant 0 <= k <= |pool| && Shows(pool[k..], [])
      {
        k := k - 1;
        AddFree(pool[k], pool[k + 1..], []);
        assert [pool[k]] + pool[k + 1..] == pool[k..];
      }
    }

    /** One turn of the reclaim loop on an unpinned buffer: `hlist_del` and `list_add`. */
    method Move(cur: BufferHead, ghost free: seq<BufferHead>, ghost cached: seq<BufferHead>, ghost i: nat)
      requires Shows(free, cached) && i < |cached| && cur == cached[i] && cur !in free
      modifies cachedList, freeList, hashOwner.Keys, freeOwner.Keys
      ensures Shows([cur] + free, Remove(cached, i))
    {
      hide Ring, Chain;
      assert Embedded(cur);
      HListDel(cur.hash, cachedList, Hashes(cached), i);
      assert Remove(Hashes(cached), i) == Hashes(Remove(cached, i));
      RemoveFacts(cached, i);
      AddFree(cur, free, Remove(cached, i));
    }

    /** The reclaim loop, `hlist_for_each_entry_safe`: the next node is read before its predecessor may
        be relinked. */
    method Reclaim(ghost cached: seq<BufferHead>, ghost pinned: set<BufferHead>) returns (last: BufferHead?)
      requires Shows([], cached) && forall b :: b in cached ==> (b in pinned <==> b.count != 0)
      modifies cachedList, freeList, hashOwner.Keys, freeOwner.Keys
      ensures Shows(Reversed(Keep(cached, Members(cached) - pinned)), Keep(cached, pinned))
      ensures last == if cached == [] then null else cached[|cached| - 1]
    {
      hide Shows, Ring, Chain, FreedAt, LeftAt, Keep, Reversed, Distinct;
      ghost var n := 0;
      WalkEnds(cached, pinned);
      HeadPlace([], cached);
      var pos := cachedList.first;
      last := null;
      while pos != null
        invariant 0 <= n <= |cached| && pos == Node(Hashes(cached), n)
        invariant Shows(FreedAt(cached, pinned, n), LeftAt(cached, pinned, n))
        invariant last == if n == 0 then null else cached[n - 1]
        decreases |cached| - n
      {
        pos, last := Turn(pos, cached, pinned, n);
        n := n + 1;
      }
    }

    /** The body of the reclaim loop. */
    method Turn(pos: HListNode, ghost cached: seq<BufferHead>, ghost pinned: set<BufferHead>, ghost n: nat)
      returns (next: HListNode?, cur: BufferHead)
      requires Distinct(cached) && n < |cached| && pos == Hashes(cached)[n]
      requires Shows(FreedAt(cached, pinned, n), LeftAt(cached, pinned, n))
      requires cached[n] in pinned <==> cached[n].count != 0
      modifies cachedList, freeList, hashOwner.Keys, freeOwner.Keys
      ensures Shows(FreedAt(cached, pinned, n + 1), LeftAt(cached, pinned, n + 1))
      ensures cur == cached[n] && next == Node(Hashes(cached), n + 1)
    {
      hide Shows, Ring, Chain, FreedAt, LeftAt, Keep, Distinct;
      ghost var k := |Keep(cached[..n], pinned)|;
      WalkTurn(cached, pinned, n, k);
      NodePlace(FreedAt(cached, pinned, n), LeftAt(cached, pinned, n), k);
      next := pos.next;
      cur := hashOwner[pos];
      if cur.count == 0 {
        Move(cur, FreedAt(cached, pinned, n), LeftAt(cached, pinned, n), k);
      }
    }

    /** The search loop of `bread`, `hlist_for_each_entry`. */
    method Find(dev: int, blk: int, ghost free: seq<BufferHead>, ghost cached: seq<BufferHead>)
      returns (hit: BufferHead?)
      requires Shows(free, cached)
      ensures hit == null ==> forall b :: b in cached ==> !(b.uptodate && b.Id() == Key(dev, blk))
      ensures hit != null ==> hit in cached && hit.uptodate && hit.Id() == Key(dev, blk)
    {
      hide Shows, Ring, Chain;
      ghost var n := 0;
      HeadPlace(free, cached);
      var pos := cachedList.first;
      while pos != null
        invariant 0 <= n <= |cached| && pos == Node(Hashes(cached), n)
        invariant forall i :: 0 <= i < n ==> !(cached[i].uptodate && cached[i].Id() == Key(dev, blk))
        decreases |cached| - n
      {
        NodePlace(free, cached, n);
        var cur := hashOwner[pos];
        if cur.uptodate && cur.dev == dev && cur.blk == blk {
          return cur;
        }
        pos := pos.next;
        n := n + 1;
      }
      hit := null;
    }

    /** The middle of `bread`: the first free buffer, after the reclaim loop if there was none. */
    method TakeFree(ghost free: seq<BufferHead>, ghost cached: seq<BufferHead>, ghost pinned: set<BufferHead>)
      returns (cur: BufferHead)
      requires Shows(free, cached) && forall b :: b in cached ==> (b in pinned <==> b.count != 0)
      requires free != [] || (cached != [] && cached[|cached| - 1] !in pinned)
      modifies cachedList, freeList, hashOwner.Keys, freeOwner.Keys
      ensures if free != [] then Shows(free, cached) && cur == free[0]
              else Shows(Reversed(Keep(cached, Members(cached) - pinned)), Keep(cached, pinned))
                   && cur == cached[|cached| - 1]
    {
      hide Shows, Ring, Chain, Keep, Reversed;
      HeadPlace(free, cached);
      var empty := IsEmpty(free, cached);
      if empty {
        cur := Reclaim(cached, pinned);
      } else {
        cur := freeOwner[freeList.next];
      }
    }

    method IsEmpty(ghost free: seq<BufferHead>, ghost cached: seq<BufferHead>) returns (r: bool)
      requires Shows(free, cached)
      ensures r <==> free == []
    {
      r := ListEmpty(freeList, Frees(free));
    }

    /** `list_del` and `hlist_add_head` of the chosen buffer. */
    method Install(cur: BufferHead, ghost free: seq<BufferHead>, ghost cached: seq<BufferHead>)
      requires Shows(free, cached) && free != [] && cur == free[0] && cur !in cached
      modifies cachedList, freeList, hashOwner.Keys, freeOwner.Keys
      ensures Shows(free[1..], [cur] + cached)
    {
      hide Ring, Chain;
      assert Embedded(cur);
      FirstPlace(free, cached);
      ListDel(cur.free, freeList, Frees(free), 0);
      assert [freeList] + Remove(Frees(free), 0) == [freeList] + Frees(free[1..]);
      NodesDiffer([cur] + cached);
      HListAddHead(cur.hash, cachedList, Hashes(cached));
      assert [cur.hash] + Hashes(cached) == Hashes([cur] + cached);
    }

    lemma FirstPlace(free: seq<BufferHead>, cached: seq<BufferHead>)
      requires Shows(free, cached) && free != []
      ensures free[0].free.prev == freeList
      ensures free[0].free.next == if |free| > 1 then free[1].free else freeList
      ensures |free| > 1 ==> Embedded(free[1])
    {
      ghost var c := [freeList] + Frees(free);
      assert Linked(c, 0) && Linked(c, 1);
    }

    /** `bread` up to the read, on the lists alone. */
    method Choose(dev: int, blk: int, ghost free: seq<BufferHead>, ghost cached: seq<BufferHead>,
                  ghost pinned: set<BufferHead>) returns (cur: BufferHead, hit: bool)
      requires Shows(free, cached) && forall b :: b in cached ==> (b in pinned <==> b.count != 0) && b !in free
      requires free != [] || (cached != [] && cached[|cached| - 1] !in pinned)
               || exists b :: Matches(b, dev, blk, cached)
      modifies cachedList, freeList, hashOwner.Keys, freeOwner.Keys
      ensures hit <==> old(exists b :: Matches(b, dev, blk, cached))
      ensures hit ==> cur in cached && old(Matches(cur, dev, blk, cached)) && Shows(free, cached)
      ensures !hit && free != [] ==> cur == free[0] && Shows(free[1..], [cur] + cached)
      ensures !hit && free == [] ==>
                && cached != [] && cur == cached[|cached| - 1]
                && var freed := Reversed(Keep(cached, Members(cached) - pinned));
                freed != [] && cur == freed[0] && Shows(freed[1..], [cur] + Keep(cached, pinned))
    {
      hide Shows, Ring, Chain, Keep, Reversed;
      var found := Find(dev, blk, free, cached);
      if found != null {
        assert Matches(found, dev, blk, cached);
        return found, true;
      }
      hit := false;
      cur := TakeFree(free, cached, pinned);
      ghost var f, c := free, cached;
      if free == [] {
        f, c := Reversed(Keep(cached, Members(cached) - pinned)), Keep(cached, pinned);
        KeepLast(cached, Members(cached) - pinned);
        KeepMembers(cached, pinned);
      }
      Install(cur, f, c);
    }

    ghost predicate Matches(b: BufferHead, dev: int, blk: int, cached: seq<BufferHead>)
      reads b
    {
      b in cached && b.uptodate && b.Id() == Key(dev, blk)
    }

    /** `bread` on the lists beside `bread` on the sequences: both choose the same buffer, and the lists
        go on to show the sequences. */
    method Bread(cache: BufferCache, dev: int, blk: int) returns (linked: BufferHead, bh: BufferHead)
      requires cache.Valid() && Key(dev, blk) in cache.disk && cache.CanRead(Key(dev, blk))
      requires Shows(cache.freeList, cache.cached)
      modifies cache`freeList, cache`cached, cache`holder, cache.buffers
      modifies cachedList, freeList, hashOwner.Keys, freeOwner.Keys
      ensures cache.Valid() && Shows(cache.freeList, cache.cached) && linked == bh
      ensures bh.Id() == Key(dev, blk) && bh.data == cache.Logical()[Key(dev, blk)]
    {
      hide Shows, Ring, Chain, Keep, Reversed, BufferCache.ValidWith, BufferCache.Lists, BufferCache.Logical,
           BufferCache.CanRead, BufferCache.Pinned, BufferCache.InCache, Members, Matches;
      MatchIsHit(cache, dev, blk);
      var hit;
      linked, hit := Choose(dev, blk, cache.freeList, cache.cached, cache.Pinned());
      bh := cache.Bread(dev, blk);
      if !hit && old(cache.freeList) == [] {
        assert cache.freeList == ([bh] + cache.freeList)[1..];
      }
    }

    lemma MatchIsHit(cache: BufferCache, dev: int, blk: int)
      requires cache.Valid()
      ensures cache.CanRead(Key(dev, blk)) <==>
                || cache.freeList != []
                || (cache.cached != [] && cache.cached[|cache.cached| - 1] !in cache.Pinned())
                || exists b :: Matches(b, dev, blk, cache.cached)
      ensures (exists b :: Matches(b, dev, blk, cache.cached)) <==> cache.InCache(Key(dev, blk))
      ensures forall b :: Matches(b, dev, blk, cache.cached) ==> b == cache.holder[Key(dev, blk)]
      ensures forall b :: b in cache.cached ==> (b in cache.Pinned() <==> b.count != 0) && b !in cache.freeList
      ensures cache.freeList == [] ==> Members(cache.cached) == cache.buffers
    {
      if cache.InCache(Key(dev, blk)) {
        assert Matches(cache.holder[Key(dev, blk)], dev, blk, cache.cached);
      }
    }

    lemma HeadPlace(free: seq<BufferHead>, cached: seq<BufferHead>)
      requires Shows(free, cached)
      ensures Distinct(cached) && cachedList.first == Node(Hashes(cached), 0)
      ensures freeList.next == if free == [] then freeList else free[0].free
      ensures forall i :: 0 <= i < |free| ==> Embedded(free[i])
    {
      HeadNext(freeList, Frees(free));
    }

    lemma NodePlace(free: seq<BufferHead>, cached: seq<BufferHead>, i: nat)
      requires Shows(free, cached) && i < |cached|
      ensures Embedded(cached[i]) && cached[i].hash.next == Node(Hashes(cached), i + 1)
    {
      assert HLinked(cachedList, Hashes(cached), i);
    }
  }

  /** `buffer_init`: the lists show the cache from the start. */
  method BufferInit(start: int, end: int, contents: Disk) returns (cache: BufferCache, lists: LinkedLists)
    ensures cache.Valid() && cache.disk == contents == cache.Logical()
    ensures lists.Shows(cache.freeList, cache.cached)
  {
    hide BufferCache.ValidWith, BufferCache.Logical, BufferCache.Pinned, LinkedLists.Shows, Owners, Distinct, Members;
    cache := new BufferCache(start, end, contents);
    var pool := cache.freeList;
    PoolNodes(pool);
    lists := new LinkedLists(pool);
    lists.LinkAll(pool);
  }

  lemma PoolNodes(pool: seq<BufferHead>)
    requires Distinct(pool) && NodesApart(pool)
    ensures Distinct(Hashes(pool)) && Distinct(Frees(pool))
    ensures forall f :: f in Members(Frees(pool)) ==> exists b :: b in pool && b.free == f
  {
  }
}
