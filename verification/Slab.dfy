/** mm/slab.c: caches of equal objects, one page a slab. */
module Slabs {
  import opened SlabLayout
  import opened Pages
  import opened Collections
  import Lists

  const BUFCTL_END: int := 0xffff_ffff
  const KMEM_CACHE_SIZE: nat := 48 // sizeof(struct kmem_cache) on the i386

  /** `struct kmem_cache`: the slabs of each state, the newest first. */
  class Cache {
    const objsz: nat
    const objcnt: nat
    var partial: seq<Slab>
    var full: seq<Slab>
    var empty: seq<Slab>  // slabs_free

    /** The fields `kmem_cache_createx` sets. The cache can hold objects, each at its own address, for
        sizes of at least four bytes that leave a page room for one. */
    constructor (objsize: nat)
      requires objsize > 0
      ensures objsz == Align(objsize) && partial == full == empty == []
      ensures Legal() <==> 4 <= objsize < 4072
    {
      LegalIff(objsize);
      objsz := Align(objsize);
      objcnt := ObjCnt(Align(objsize));
      partial, full, empty := [], [], [];
    }

    predicate Legal() {
      LegalSize(objsz) && objcnt == ObjCnt(objsz)
    }

    function Three(): seq<seq<Slab>>
      reads this
    {
      [partial, full, empty]
    }

    ghost predicate Has(s: Slab)
      reads this
    {
      s in partial || s in full || s in empty
    }

    /** The lists hold slabs of this cache, each once. */
    ghost predicate ListsOk()
      reads this
    {
      && Apart(partial, full, empty)
      && (forall s :: s in partial ==> s.cache == this)
      && (forall s :: s in full ==> s.cache == this)
      && (forall s :: s in empty ==> s.cache == this)
    }

    lemma Owns()
      requires ListsOk()
      ensures forall s :: s in partial || s in full || s in empty ==> s.cache == this
    {
    }

    /** `list_del`. */
    method Unlink(s: Slab)
      requires ListsOk()
      modifies this
      ensures ListsOk() && !Has(s)
      ensures partial == Without(old(partial), s) && full == Without(old(full), s) && empty == Without(old(empty), s)
      ensures OnlyMoved(s, old(partial), old(full), old(empty))
    {
      WithoutLists(partial, full, empty, s);
      hide Without, Apart;
      partial, full, empty := Without(partial, s), Without(full, s), Without(empty, s);
    }

    /** All slabs but `s` are on the lists they were on. */
    ghost predicate OnlyMoved(s: Slab, partial0: seq<Slab>, full0: seq<Slab>, empty0: seq<Slab>)
      reads this
    {
      && (forall t :: t in partial ==> t == s || t in partial0)
      && (forall t :: t in full ==> t == s || t in full0)
      && (forall t :: t in empty ==> t == s || t in empty0)
      && (forall t :: t in partial0 ==> t == s || t in partial)
      && (forall t :: t in full0 ==> t == s || t in full)
      && (forall t :: t in empty0 ==> t == s || t in empty)
    }

    /** `list_add` of a fresh slab to `slabs_free`. */
    method AddEmpty(s: Slab)
      requires ListsOk() && !Has(s) && s.cache == this
      modifies this`empty
      ensures ListsOk() && empty == [s] + old(empty)
    {
      Heading(partial, full, empty, s);
      hide Apart;
      empty := [s] + empty;
    }

    /** The second part of `_slab_alloc`: the slab goes to the head of `slabs_full` or `slabs_partial`. */
    method MoveAfterAlloc(s: Slab)
      requires ListsOk() && s.cache == this
      modifies this
      ensures ListsOk() && OnlyMoved(s, old(partial), old(full), old(empty)) && s !in empty
      ensures if s.free == BUFCTL_END then s in full && s !in partial else s in partial && s !in full
      ensures var to := if s.free == BUFCTL_END then 1 else 0;
              Three() == Headed([Without(old(partial), s), Without(old(full), s), Without(old(empty), s)], to, s)
    {
      hide Apart, Without;
      Unlink(s);
      Heading(partial, full, empty, s);
      if s.free == BUFCTL_END {
        full := [s] + full;
      } else {
        partial := [s] + partial;
      }
    }

    /** The second part of `_slab_free`: the slab goes to the head of `slabs_free` or `slabs_partial`. */
    method MoveAfterFree(s: Slab)
      requires ListsOk() && s.cache == this
      modifies this
      ensures ListsOk() && OnlyMoved(s, old(partial), old(full), old(empty)) && s !in full
      ensures if s.inuse == 0 then s in empty && s !in partial else s in partial && s !in empty
      ensures var to := if s.inuse == 0 then 2 else 0;
              Three() == Headed([Without(old(partial), s), Without(old(full), s), Without(old(empty), s)], to, s)
    {
      hide Apart, Without;
      Unlink(s);
      Heading(partial, full, empty, s);
      if s.inuse == 0 {
        empty := [s] + empty;
      } else {
        partial := [s] + partial;
      }
    }
  }

  /** The lists with `x` at the head of list `i`. */
  function Headed<T>(lists: seq<seq<T>>, i: nat, x: T): seq<seq<T>>
    requires i < |lists|
  {
    lists[i := [x] + lists[i]]
  }

  /** A member of no list may head any. */
  lemma Heading<T>(p: seq<T>, f: seq<T>, e: seq<T>, x: T)
    requires Apart(p, f, e) && x !in p && x !in f && x !in e
    ensures Apart([x] + p, f, e) && Apart(p, [x] + f, e) && Apart(p, f, [x] + e)
  {
  }

  /** No list has a member twice and no two share one. */
  ghost predicate Apart<T>(p: seq<T>, f: seq<T>, e: seq<T>) {
    && Distinct(p) && Distinct(f) && Distinct(e)
    && (forall s :: s in p ==> s !in f && s !in e)
    && (forall s :: s in f ==> s !in e)
  }

  /** `q` without its first `x`. */
  function Without<T(==)>(q: seq<T>, x: T): seq<T> {
    if q == [] then [] else if q[0] == x then q[1..] else [q[0]] + Without(q[1..], x)
  }

  lemma {:induction false} WithoutFacts<T>(q: seq<T>, x: T)
    requires Distinct(q)
    ensures Distinct(Without(q, x))
    ensures forall y :: y in Without(q, x) ==> y in q && y != x
    ensures forall y :: y in q && y != x ==> y in Without(q, x)
  {
    if q != [] {
      WithoutFacts(q[1..], x);
      assert q == [q[0]] + q[1..];
      assert q[0] !in q[1..];
      assert forall i :: 0 <= i < |Without(q[1..], x)| ==> Without(q[1..], x)[i] in Without(q[1..], x);
    }
  }

  lemma {:induction false} WithoutAbsent<T>(q: seq<T>, x: T)
    requires x !in q
    ensures Without(q, x) == q
  {
    if q != [] {
      WithoutAbsent(q[1..], x);
      assert q == [q[0]] + q[1..];
    }
  }

  lemma WithoutLists<T>(p: seq<T>, f: seq<T>, e: seq<T>, x: T)
    requires Apart(p, f, e)
    ensures Apart(Without(p, x), Without(f, x), Without(e, x))
    ensures forall y :: y in Without(p, x) <==> y in p && y != x
    ensures forall y :: y in Without(f, x) <==> y in f && y != x
    ensures forall y :: y in Without(e, x) <==> y in e && y != x
  {
    WithoutFacts(p, x);
    WithoutFacts(f, x);
    WithoutFacts(e, x);
    forall y | y in Without(p, x)
      ensures y in p && y !in Without(f, x) && y !in Without(e, x)
    {
      assert y in p && y !in f && y !in e;
    }
  }

  /** The entries of `table` link `chain` from `first` to the end mark. */
  ghost predicate Linked(table: seq<int>, first: int, chain: seq<int>) {
    && first == (if chain == [] then BUFCTL_END else chain[0])
    && (forall k :: 0 <= k < |chain| ==> 0 <= chain[k] < |table|)
    && (forall k :: 0 <= k < |chain| ==> table[chain[k]] == After(chain, k))
    && Distinct(chain)
  }

  /** What follows entry `k` of a chain. */
  function After(chain: seq<int>, k: nat): int {
    if k + 1 < |chain| then chain[k + 1] else BUFCTL_END
  }

  /** Taking the first of a chain, and putting an index not on it in front. */
  lemma PopChain(table: seq<int>, first: int, chain: seq<int>)
    requires Linked(table, first, chain) && chain != []
    ensures 0 <= first < |table| && Linked(table, table[first], chain[1..]) && first !in chain[1..]
  {
    var rest := chain[1..];
    assert table[chain[0]] == After(chain, 0);
    forall k | 0 <= k < |rest|
      ensures table[rest[k]] == After(rest, k)
    {
      assert rest[k] == chain[k + 1] && After(rest, k) == After(chain, k + 1);
    }
  }

  lemma PushChain(table: seq<int>, first: int, chain: seq<int>, n: int)
    requires Linked(table, first, chain) && 0 <= n < |table| && n !in chain
    ensures Linked(table[n := first], n, [n] + chain)
  {
    var chain' := [n] + chain;
    forall k | 0 <= k < |chain'|
      ensures table[n := first][chain'[k]] == After(chain', k)
    {
      if k > 0 {
        assert chain'[k] == chain[k - 1] && After(chain', k) == After(chain, k - 1);
      }
    }
  }

  /** The table `_create_slab` writes: 1, 2, ..., end. */
  lemma FreshChain(table: seq<int>, chain: seq<int>)
    requires 0 < |table| == |chain| < BUFCTL_END
    requires chain == Iota(|table|)
    requires forall k :: 0 <= k < |table| ==> table[k] == if k + 1 < |table| then k + 1 else BUFCTL_END
    ensures Linked(table, 0, chain)
    ensures forall k :: 0 <= k < |table| ==> k in chain
  {
    IotaAt(|table|);
    forall k | 0 <= k < |table|
      ensures k in chain
    {
      assert chain[k] == k;
    }
    assert forall k :: 0 <= k < |table| ==> table[chain[k]] == After(chain, k);
  }

  function Iota(n: nat): (s: seq<int>)
    ensures |s| == n
  {
    if n == 0 then [] else Iota(n - 1) + [n - 1]
  }

  lemma {:induction false} IotaAt(n: nat)
    ensures forall k :: 0 <= k < n ==> Iota(n)[k] == k
  {
    if n > 0 {
      IotaAt(n - 1);
    }
  }

  lemma SmallCount(objsz: nat)
    ensures ObjCnt(objsz) < BUFCTL_END
  {
  }

  /** `struct slab`, with its index table. The ghost chain is the free list in order. */
  class Slab {
    const cache: Cache
    const data: int
    const bufctl: array<int>
    const list: Lists.ListHead
    var inuse: int
    var free: int
    ghost var chain: seq<int>

    ghost predicate Ok()
      reads this, bufctl
    {
      && cache.Legal() && data % 4096 == 0
      && bufctl.Length == cache.objcnt < BUFCTL_END
      && Linked(bufctl[..], free, chain)
      && |chain| + inuse == cache.objcnt && inuse >= 0
    }

    /** The slab is on exactly the list of its state. */
    ghost predicate InPlace()
      reads this, cache
    {
      && (this in cache.partial <==> inuse > 0 && chain != [])
      && (this in cache.full <==> inuse > 0 && chain == [])
      && (this in cache.empty <==> inuse == 0)
    }

    lemma Placed()
      requires Ok() && InPlace()
      ensures cache.Has(this)
    {
    }

    /** Index `i` is a live object. */
    ghost predicate Used(i: int)
      reads this
    {
      0 <= i < cache.objcnt && i !in chain
    }

    /** The part of `_create_slab` that fills a fresh page. */
    constructor (cache: Cache, page: int)
      requires cache.Legal() && page % 4096 == 0
      ensures Ok() && this.cache == cache && data == page && fresh(bufctl)
      ensures inuse == 0 && forall i :: !Used(i)
    {
      hide Linked, ObjCnt;
      this.cache := cache;
      data := page;
      inuse := 0;
      free := 0;
      var table := new int[cache.objcnt];
      bufctl := table;
      list := new Lists.ListHead();
      chain := Iota(cache.objcnt);
      new;
      for i := 0 to cache.objcnt
        invariant inuse == 0 && free == 0 && chain == Iota(cache.objcnt)
        invariant forall j :: 0 <= j < i ==> bufctl[j] == j + 1
      {
        bufctl[i] := i + 1;
      }
      SmallCount(cache.objsz);
      bufctl[cache.objcnt - 1] := BUFCTL_END;
      FreshChain(bufctl[..], chain);
    }

    /** `__check_slab`: the walk along the chain ends and its count is right. */
    method Check() returns (freecnt: nat)
      requires Ok()
      ensures freecnt + inuse == cache.objcnt && freecnt == |chain|
    {
      freecnt := 0;
      var next := free;
      while next != BUFCTL_END
        invariant 0 <= freecnt <= |chain|
        invariant next == if freecnt < |chain| then chain[freecnt] else BUFCTL_END
        decreases |chain| - freecnt
      {
        assert bufctl[..][chain[freecnt]] == After(chain, freecnt);
        freecnt := freecnt + 1;
        next := bufctl[next];
      }
    }

    /** The first part of `_slab_alloc`: the first free index becomes an object. */
    method Take() returns (objnr: int)
      requires Ok() && free != BUFCTL_END
      modifies this
      ensures Ok() && !old(Used(objnr)) && 0 <= objnr < cache.objcnt
      ensures forall i :: Used(i) <==> old(Used(i)) || i == objnr
      ensures chain == old(chain)[1..] && old(chain) != [] && inuse == old(inuse) + 1
    {
      var cnt := Check();
      PopChain(bufctl[..], free, chain);
      objnr := free;
      free := bufctl[free];
      chain := chain[1..];
      inuse := inuse + 1;
    }

    /** The first part of `_slab_free`: the object's index goes in front of the chain. */
    method Put(objnr: int)
      requires Ok() && Used(objnr)
      modifies this, bufctl
      ensures Ok() && forall i :: Used(i) <==> old(Used(i)) && i != objnr
      ensures chain == [objnr] + old(chain) && inuse == old(inuse) - 1
    {
      var cnt := Check();
      UsedBound(objnr);
      PushChain(bufctl[..], free, chain, objnr);
      ghost var table := bufctl[..];
      bufctl[objnr] := free;
      assert bufctl[..] == table[objnr := free];
      free := objnr;
      chain := [objnr] + chain;
      inuse := inuse - 1;
    }

    /** The end mark is no index, so it shows exactly an empty chain. */
    lemma EndMark()
      requires Ok()
      ensures free == BUFCTL_END <==> chain == []
      ensures inuse == 0 ==> chain != []
    {
    }

    /** With none in use every index is on the chain. */
    lemma NothingUsed()
      requires Ok() && inuse == 0
      ensures forall i :: !Used(i)
    {
      forall i
        ensures !Used(i)
      {
        if Used(i) {
          UsedBound(i);
          assert false;
        }
      }
    }

    /** A slab with a live object has one in use. */
    lemma UsedBound(i: int)
      requires Ok() && Used(i)
      ensures inuse >= 1
    {
      var all := RangeSet(cache.objcnt);
      DistinctSize(chain);
      SubsetSize(Members(chain), all - {i});
    }
  }

  /** The slab allocator over its pages. */
  class SlabMem {
    const pages: PageMap
    const cacheCache: Cache  // the cache of `struct kmem_cache`
    ghost var caches: set<Cache>
    var generic: seq<Cache>  // generic_cachep
    var slabs: map<int, Slab>  // the slab in each slab page, as `ADDR_TO_SLAB` finds it

    constructor (pages: PageMap)
      requires pages.Valid() && pages.Safe()
      ensures Valid() && this.pages == pages && caches == {cacheCache} && slabs == map[]
      ensures fresh(cacheCache) && cacheCache.objsz == KMEM_CACHE_SIZE && cacheCache.objcnt == 78
    {
      LegalIff(KMEM_CACHE_SIZE);
      this.pages := pages;
      var c := new Cache(KMEM_CACHE_SIZE);
      cacheCache := c;
      caches := {c};
      generic := [];
      slabs := map[];
    }

    ghost function Heads(): set<Slab>
      reads this
    {
      set p | p in slabs :: slabs[p]
    }

    ghost function Tables(): set<array<int>>
      reads this
    {
      set p | p in slabs :: slabs[p].bufctl
    }

    ghost predicate Valid()
      reads this, pages, pages.memMap, caches, Heads(), Tables()
    {
      && pages.Valid() && pages.Safe()
      && PagesOk(pages.memMap, pages.runs, slabs)
      && (forall p :: p in slabs ==> slabs[p].Ok() && slabs[p].cache in caches && slabs[p].InPlace())
      && (forall c :: c in caches ==> CacheOk(c))
    }

    /** Every slab has its own page, taken as a run of one, and its own table. */
    static ghost predicate PagesOk(memMap: array<int>, runs: Runs, slabs: map<int, Slab>) {
      && (forall p :: p in slabs ==> slabs[p].data == p && p == AddrOf(Mmi(p)) && Mmi(p) in runs && runs[Mmi(p)] == 1)
      && (forall p :: p in slabs ==> slabs[p].bufctl != memMap)
      && (forall p, q :: p in slabs && q in slabs && slabs[p].bufctl == slabs[q].bufctl ==> p == q)
    }

    /** `Valid` while `slab` may still be on the list of its last state. */
    ghost predicate ValidBut(slab: Slab)
      reads this, pages, pages.memMap, caches, Heads(), Tables()
    {
      && pages.Valid() && pages.Safe()
      && PagesOk(pages.memMap, pages.runs, slabs)
      && (forall p :: p in slabs ==> slabs[p].Ok() && slabs[p].cache in caches)
      && (forall p :: p in slabs && slabs[p] != slab ==> slabs[p].InPlace())
      && (forall c :: c in caches ==> CacheOk(c))
      && Known(slabs, slab)
    }

    ghost predicate CacheOk(c: Cache)
      reads this, c
    {
      CacheOkIn(slabs, c)
    }

    static ghost predicate CacheOkIn(slabs: map<int, Slab>, c: Cache)
      reads c
    {
      && c.Legal() && c.ListsOk()
      && AllKnown(slabs, c.partial) && AllKnown(slabs, c.full) && AllKnown(slabs, c.empty)
    }

    static ghost predicate AllKnown(slabs: map<int, Slab>, q: seq<Slab>) {
      forall s :: s in q ==> Known(slabs, s)
    }

    static lemma KnowMore(slabs: map<int, Slab>, q: seq<Slab>, slab: Slab)
      requires AllKnown(slabs, q) && slab.data !in slabs
      ensures AllKnown(slabs[slab.data := slab], q) && AllKnown(slabs[slab.data := slab], [slab] + q)
      ensures slab !in q
    {
    }

    static predicate Known(slabs: map<int, Slab>, s: Slab) {
      s.data in slabs && slabs[s.data] == s
    }

    /** A live object at `addr`: `ADDR_TO_SLAB` and the division find a used index. */
    ghost predicate Allocated(addr: int)
      reads this, Heads()
    {
      var p := PageOf(addr);
      && p in slabs
      && slabs[p].cache.objsz > 0
      && (addr - p) % slabs[p].cache.objsz == 0
      && slabs[p].Used((addr - p) / slabs[p].cache.objsz)
    }

    /** The size of the object at `addr`. */
    ghost function SizeAt(addr: int): int
      reads this
    {
      var p := PageOf(addr);
      if p in slabs then slabs[p].cache.objsz else 0
    }

    /** `_slab_alloc`. */
    method SlabAlloc(slab: Slab) returns (addr: int)
      requires Valid() && Known(slabs, slab) && slab.free != BUFCTL_END
      modifies slab, slab.cache
      ensures Valid() && SizeAt(addr) == slab.cache.objsz && PageOf(addr) == slab.data
      ensures |slab.chain| == old(|slab.chain|) - 1
      ensures !old(Allocated(addr)) && forall a :: Allocated(a) <==> old(Allocated(a)) || a == addr
    {
      hide Linked, ObjCnt, Mmi, PageOf, Cache.ListsOk;
      var objnr := TakeFrom(slab);
      Resettle(slab);
      addr := ObjAddr(slab.data, slab.cache.objsz, objnr);
      AddrRecovers(slab.data, slab.cache.objsz, objnr);
      forall a
        ensures Allocated(a) <==> old(Allocated(a)) || a == addr
      {
        IndexOfAddr(slab.data, slab.cache.objsz, objnr, a);
      }
    }

    method TakeFrom(slab: Slab) returns (objnr: int)
      requires Valid() && Known(slabs, slab) && slab.free != BUFCTL_END
      modifies slab
      ensures ValidBut(slab) && slab.inuse > 0 && |slab.chain| == old(|slab.chain|) - 1
      ensures !old(slab.Used(objnr)) && 0 <= objnr < slab.cache.objcnt
      ensures forall i :: slab.Used(i) <==> old(slab.Used(i)) || i == objnr
    {
      hide Linked, ObjCnt, Mmi, PageOf, Apart;
      objnr := slab.Take();
    }

    /** The relinking of a slab whose state has just changed. */
    method Resettle(slab: Slab)
      requires ValidBut(slab) && slab.inuse > 0
      modifies slab.cache
      ensures Valid()
    {
      hide Linked, ObjCnt, Mmi, PageOf, Cache.ListsOk;
      slab.EndMark();
      slab.cache.MoveAfterAlloc(slab);
    }

    /** `_slab_free`: the address is all there is to go by; it has to be a live object's. */
    method SlabFree(addr: int)
      requires Valid() && Allocated(addr)
      modifies slabs[PageOf(addr)], slabs[PageOf(addr)].bufctl, slabs[PageOf(addr)].cache
      ensures Valid() && forall a :: Allocated(a) <==> old(Allocated(a)) && a != addr
      ensures slabs[PageOf(addr)].inuse == old(slabs[PageOf(addr)].inuse) - 1
    {
      hide Linked, ObjCnt, Mmi, PageOf, Cache.ListsOk;
      var slab := slabs[PageOf(addr)];
      var objnr := (addr - slab.data) / slab.cache.objsz;
      PutInto(slab, objnr);
      slab.EndMark();
      Rejoin(slab);
      forall a
        ensures Allocated(a) <==> old(Allocated(a)) && a != addr
      {
        IndexOfAddr(slab.data, slab.cache.objsz, objnr, a);
        IndexOfAddr(slab.data, slab.cache.objsz, objnr, addr);
      }
    }

    method PutInto(slab: Slab, objnr: int)
      requires Valid() && Known(slabs, slab) && slab.Used(objnr)
      modifies slab, slab.bufctl
      ensures ValidBut(slab) && slab.chain != [] && slab.inuse == old(slab.inuse) - 1
      ensures forall i :: slab.Used(i) <==> old(slab.Used(i)) && i != objnr
    {
      hide Linked, ObjCnt, Mmi, PageOf, Apart;
      slab.Put(objnr);
    }

    /** The relinking after a free. */
    method Rejoin(slab: Slab)
      requires ValidBut(slab) && slab.chain != []
      modifies slab.cache
      ensures Valid()
    {
      hide Linked, ObjCnt, Mmi, PageOf, Cache.ListsOk;
      slab.cache.MoveAfterFree(slab);
    }

    /** `alloc_zeroed_page` finds a page. */
    ghost predicate PageAvailable()
      reads pages, pages.memMap
    {
      exists s :: FreeRun(pages.memMap[..], s, 1)
    }

    /** `_create_slab`. */
    method CreateSlab(c: Cache) returns (slab: Slab)
      requires Valid() && c in caches && PageAvailable()
      modifies this`slabs, c, pages`runs, pages.memMap
      ensures Valid() && fresh(slab) && slab.cache == c && slab.inuse == 0 && slab.free != BUFCTL_END
      ensures |slab.chain| == c.objcnt
      ensures slab.data !in old(slabs) && slabs == old(slabs)[slab.data := slab]
      ensures c.partial == old(c.partial) && c.full == old(c.full) && c.empty == [slab] + old(c.empty)
      ensures forall a :: Allocated(a) <==> old(Allocated(a))
    {
      hide Linked, ObjCnt, Cache.ListsOk, Consistent, BelowHigh, FreeRun, FirstRun, Mmi;
      assert Pow2(0) == 1;
      var page := pages.AllocPages(0);
      slab := new Slab(c, page);
      slab.EndMark();
      Adopt(slab);
    }

    /** The new slab joins its cache. */
    method Adopt(slab: Slab)
      requires Valid() && slab.Ok() && slab.cache in caches && slab.inuse == 0 && slab.chain != []
      requires slab.data !in slabs && slab.bufctl !in Tables() && slab.bufctl != pages.memMap
      requires slab.data == AddrOf(Mmi(slab.data)) && Mmi(slab.data) in pages.runs && pages.runs[Mmi(slab.data)] == 1
      modifies this`slabs, slab.cache`empty
      ensures Valid() && slabs == old(slabs)[slab.data := slab]
      ensures slab.cache.empty == [slab] + old(slab.cache.empty)
    {
      hide Slab.Ok, Slab.InPlace, PageMap.Valid, PageMap.Safe, CacheOkIn, PagesOk, Mmi;
      assert forall p :: p in slabs ==> slabs[p].bufctl in Tables();
      PagesMore(pages.memMap, pages.runs, slabs, slab);
      Shelve(slab);
      slabs := slabs[slab.data := slab];
    }

    static lemma PagesMore(memMap: array<int>, runs: Runs, slabs: map<int, Slab>, slab: Slab)
      requires PagesOk(memMap, runs, slabs) && slab.data !in slabs && slab.bufctl != memMap
      requires forall p :: p in slabs ==> slabs[p].bufctl != slab.bufctl
      requires slab.data == AddrOf(Mmi(slab.data)) && Mmi(slab.data) in runs && runs[Mmi(slab.data)] == 1
      ensures PagesOk(memMap, runs, slabs[slab.data := slab])
    {
      hide Mmi;
    }

    /** The link of a new slab, before its page counts as a slab. */
    method Shelve(slab: Slab)
      requires slab.cache in caches && slab.data !in slabs && slab.inuse == 0 && slab.chain != []
      requires forall c :: c in caches ==> CacheOk(c)
      requires forall p :: p in slabs ==> slabs[p].InPlace()
      modifies slab.cache`empty
      ensures slab.cache.empty == [slab] + old(slab.cache.empty)
      ensures forall c :: c in caches ==> CacheOkIn(slabs[slab.data := slab], c)
      ensures slab.InPlace() && forall p :: p in slabs ==> slabs[p].InPlace()
    {
      hide AllKnown, Cache.ListsOk, Cache.Legal;
      forall c | c in caches
        ensures AllKnown(slabs[slab.data := slab], c.partial) && AllKnown(slabs[slab.data := slab], c.full)
        ensures AllKnown(slabs[slab.data := slab], c.empty) && AllKnown(slabs[slab.data := slab], [slab] + c.empty)
        ensures slab !in c.partial && slab !in c.full && slab !in c.empty
      {
        KnowMore(slabs, c.partial, slab);
        KnowMore(slabs, c.full, slab);
        KnowMore(slabs, c.empty, slab);
      }
      slab.cache.AddEmpty(slab);
    }

    /** `kmem_cache_alloc`: a new object, of the cache's size; a page is taken only when every slab of
        the cache is full. */
    method KmemCacheAlloc(c: Cache) returns (addr: int)
      requires Valid() && c in caches
      requires c.partial == [] && c.empty == [] ==> PageAvailable()
      modifies this`slabs, c, Heads(), pages`runs, pages.memMap
      ensures Valid() && SizeAt(addr) == c.objsz
      ensures !old(Allocated(addr)) && forall a :: Allocated(a) <==> old(Allocated(a)) || a == addr
      ensures if old(c.partial == [] && c.empty == [])
              then PageOf(addr) !in old(slabs) && slabs.Keys == old(slabs.Keys) + {PageOf(addr)}
              else slabs == old(slabs) && pages.runs == old(pages.runs) && pages.memMap[..] == old(pages.memMap[..])
      ensures PageOf(addr) in slabs && slabs[PageOf(addr)].cache == c
      ensures old(c.partial == [] && c.empty == []) ==> |slabs[PageOf(addr)].chain| == c.objcnt - 1
      ensures forall p :: p in old(slabs) ==> |slabs[p].chain| >= old(|slabs[p].chain|) - 1
      ensures fresh(Heads() - old(Heads())) && forall p :: p in old(slabs) ==> p in slabs && slabs[p] == old(slabs)[p]
    {
      hide Linked, ObjCnt, Mmi, PageOf, Consistent, BelowHigh, PagesOk, Apart, FreeRun, FirstRun;
      var slab: Slab;
      if c.partial == [] {
        if c.empty == [] {
          slab := CreateSlab(c);
        } else {
          slab := c.empty[0];
        }
      } else {
        slab := c.partial[0];
      }
      assert Known(slabs, slab) && slabs[slab.data].Ok();
      slab.EndMark();
      addr := SlabAlloc(slab);
    }

    /** `c` can give out `k` more objects with at most one more page. */
    ghost predicate Room(c: Cache, k: int)
      reads this, pages, pages.memMap, Heads()
    {
      PageAvailable() || exists p :: p in slabs && slabs[p].cache == c && |slabs[p].chain| >= k
    }

    /** A slab with a free index is on a list that `kmem_cache_alloc` takes from. */
    lemma RoomHelps(c: Cache, k: int)
      requires Valid() && c in caches && Room(c, k) && k > 0
      ensures c.partial == [] && c.empty == [] ==> PageAvailable()
    {
      hide PageMap.Valid, PageMap.Safe, CacheOkIn, PagesOk, Slab.Ok, PageAvailable;
      if p :| p in slabs && slabs[p].cache == c && |slabs[p].chain| >= k {
        assert slabs[p].InPlace();
        SlabOk(p);
      }
    }

    lemma SlabOk(p: int)
      requires Valid() && p in slabs
      ensures slabs[p].inuse >= 0
    {
    }

    /** `kmem_cache_createx`: the structure is an object of `cache_cache`, and there is one more cache, of the
        size asked for rounded down. */
    method KmemCacheCreatex(objsize: nat) returns (c: Cache, addr: int)
      requires Valid() && objsize > 0 && cacheCache in caches
      requires cacheCache.partial == [] && cacheCache.empty == [] ==> PageAvailable()
      modifies this`slabs, this`caches, cacheCache, Heads(), pages`runs, pages.memMap
      ensures Valid() && fresh(c) && c.objsz == Align(objsize) && c.partial == c.full == c.empty == []
      ensures caches == if 4 <= objsize < 4072 then old(caches) + {c} else old(caches)
      ensures SizeAt(addr) == cacheCache.objsz && !old(Allocated(addr))
      ensures forall a :: Allocated(a) <==> old(Allocated(a)) || a == addr
      ensures forall k :: 0 <= k < cacheCache.objcnt && old(Room(cacheCache, k + 1)) ==> Room(cacheCache, k)
      ensures fresh(Heads() - old(Heads()))
    {
      hide Valid, Allocated, Align, Room, PageAvailable;
      addr := AllocStruct();
      c := AddCache(objsize);
    }

    /** The object of `cache_cache`. */
    method AllocStruct() returns (addr: int)
      requires Valid() && cacheCache in caches
      requires cacheCache.partial == [] && cacheCache.empty == [] ==> PageAvailable()
      modifies this`slabs, cacheCache, Heads(), pages`runs, pages.memMap
      ensures Valid() && SizeAt(addr) == cacheCache.objsz && !old(Allocated(addr))
      ensures forall a :: Allocated(a) <==> old(Allocated(a)) || a == addr
      ensures forall k :: 0 <= k < cacheCache.objcnt && old(Room(cacheCache, k + 1)) ==> Room(cacheCache, k)
      ensures fresh(Heads() - old(Heads()))
    {
      hide Valid, Allocated, PageOf, FreeRun;
      addr := KmemCacheAlloc(cacheCache);
    }

    /** The fields of a new cache. */
    method AddCache(objsize: nat) returns (c: Cache)
      requires Valid() && objsize > 0
      modifies this`caches
      ensures Valid() && fresh(c) && c.objsz == Align(objsize) && c.partial == c.full == c.empty == []
      ensures caches == if 4 <= objsize < 4072 then old(caches) + {c} else old(caches)
      ensures forall a :: Allocated(a) <==> old(Allocated(a))
      ensures forall k :: old(Room(cacheCache, k)) ==> Room(cacheCache, k)
    {
      hide Linked, ObjCnt, Align, PagesOk, PageMap.Valid, PageMap.Safe, Slab.Ok, Slab.InPlace;
      c := new Cache(objsize);
      if 4 <= objsize < 4072 {
        caches := caches + {c};
      }
    }

    /** One call of `kmem_cache_create` in `cache_init`; `out` are the structures made so far. */
    method CreateClass(objsize: nat, ghost k: int, ghost out: seq<int>) returns (c: Cache, ghost homes: seq<int>)
      requires Valid() && 4 <= objsize < 4072 && cacheCache in caches && 0 < k <= cacheCache.objcnt
      requires Room(cacheCache, k) && Distinct(out) && forall a :: a in out ==> Allocated(a)
      modifies this`slabs, this`caches, cacheCache, Heads(), pages`runs, pages.memMap
      ensures Valid() && caches == old(caches) + {c} && c.objsz == Align(objsize) && Room(cacheCache, k - 1)
      ensures |homes| == |out| + 1 && Distinct(homes) && forall a :: a in homes <==> a in out || a == homes[|out|]
      ensures !old(Allocated(homes[|out|])) && SizeAt(homes[|out|]) == cacheCache.objsz
      ensures forall a :: Allocated(a) <==> old(Allocated(a)) || a == homes[|out|]
      ensures fresh(Heads() - old(Heads()))
    {
      hide Valid, Allocated, Align, Room, PageAvailable;
      RoomHelps(cacheCache, k);
      var addr;
      c, addr := KmemCacheCreatex(objsize);
      homes := out + [addr];
    }

    /** Three such calls. */
    method CreateThree(s1: nat, s2: nat, s3: nat, ghost k: int, ghost out: seq<int>)
      returns (q: seq<Cache>, ghost homes: seq<int>)
      requires Valid() && cacheCache in caches && 3 <= k <= cacheCache.objcnt && Room(cacheCache, k)
      requires 4 <= s1 < 4072 && 4 <= s2 < 4072 && 4 <= s3 < 4072
      requires Distinct(out) && forall a :: a in out ==> Allocated(a)
      modifies this`slabs, this`caches, cacheCache, Heads(), pages`runs, pages.memMap
      ensures Valid() && old(caches) <= caches && Room(cacheCache, k - 3) && fresh(Heads() - old(Heads()))
      ensures |q| == 3 && q[0] in caches && q[1] in caches && q[2] in caches
      ensures q[0].objsz == Align(s1) && q[1].objsz == Align(s2) && q[2].objsz == Align(s3)
      ensures |homes| == |out| + 3 && Distinct(homes) && forall a :: a in homes ==> a in out || !old(Allocated(a))
      ensures forall a :: a in out ==> a in homes
      ensures forall a :: Allocated(a) <==> old(Allocated(a)) || a in homes
    {
      hide Valid, Allocated, Room, Distinct, PageAvailable, Align;
      var c1, c2, c3;
      c1, homes := CreateClass(s1, k, out);
      c2, homes := CreateClass(s2, k - 1, homes);
      c3, homes := CreateClass(s3, k - 2, homes);
      q := [c1, c2, c3];
    }

    /** The six calls of `cache_init`. */
    method CreateGeneric() returns (q: seq<Cache>, ghost homes: seq<int>)
      requires Valid() && cacheCache in caches && cacheCache.objcnt >= 6 && Room(cacheCache, 6)
      modifies this`slabs, this`caches, cacheCache, Heads(), pages`runs, pages.memMap
      ensures Valid() && old(caches) <= caches
      ensures |q| == 6 && forall i :: 0 <= i < 6 ==> q[i] in caches && q[i].objsz == 4 * Pow2(i)
      ensures |homes| == 6 && Distinct(homes) && forall a :: a in homes ==> !old(Allocated(a))
      ensures forall a :: Allocated(a) <==> old(Allocated(a)) || a in homes
    {
      hide Valid, Allocated, Room, Distinct, PageAvailable, Align;
      Powers();
      GenericSizes();
      NoneDistinct();
      var small, large;
      small, homes := CreateThree(4, 8, 16, 6, []);
      large, homes := CreateThree(32, 64, 128, 3, homes);
      q := small + large;
    }

    lemma NoneDistinct()
      ensures Distinct<int>([])
    {
    }

    /** `cache_init`: afterwards `kmalloc` has a cache for every size class, and the six structures are six
        new objects. */
    method CacheInit()
      requires Valid() && cacheCache in caches && cacheCache.objcnt >= 6 && Room(cacheCache, 6)
      modifies this`slabs, this`caches, this`generic, cacheCache, Heads(), pages`runs, pages.memMap
      ensures Valid() && GenericOk() && old(caches) <= caches
      ensures exists homes :: |homes| == 6 && Distinct(homes) && (forall a :: a in homes ==> !old(Allocated(a)))
                              && forall a :: Allocated(a) <==> old(Allocated(a)) || a in homes
    {
      hide Linked, ObjCnt, PagesOk, PageMap.Valid, PageMap.Safe, Slab.Ok, Slab.InPlace, CacheOkIn, Room;
      var q;
      ghost var homes;
      q, homes := CreateGeneric();
      generic := q;
    }

    /** `_destroy_slab`: the page goes back. It panics for the very last page of memory. */
    method DestroySlab(slab: Slab)
      requires Valid() && Known(slabs, slab) && slab.inuse == 0 && Mmi(slab.data) + 1 < NR_PAGES
      modifies this`slabs, slab.cache, pages`runs, pages.memMap
      ensures Valid() && slabs == old(slabs) - {slab.data}
      ensures slab.cache.empty == Without(old(slab.cache.empty), slab)
      ensures slab.cache.partial == old(slab.cache.partial) && slab.cache.full == old(slab.cache.full)
      ensures pages.runs == old(pages.runs) - {Mmi(slab.data)}
      ensures forall a :: Allocated(a) <==> old(Allocated(a))
    {
      hide Linked, PageOf, ObjCnt, Apart, Consistent, BelowHigh, Without, Mmi, Cache.ListsOk, FreeRun, FirstRun;
      slab.NothingUsed();
      Retire(slab);
      assert Pow2(0) == 1;
      pages.FreePages(slab.data, 0);
    }

    /** `list_del` of an empty slab: it is no slab of its cache any more. */
    method Retire(slab: Slab)
      requires Valid() && Known(slabs, slab) && slab.inuse == 0
      modifies this`slabs, slab.cache
      ensures Valid() && slabs == old(slabs) - {slab.data}
      ensures slab.cache.empty == Without(old(slab.cache.empty), slab)
      ensures slab.cache.partial == old(slab.cache.partial) && slab.cache.full == old(slab.cache.full)
      ensures Mmi(slab.data) in pages.runs && pages.runs[Mmi(slab.data)] == 1 && slab.data == AddrOf(Mmi(slab.data))
      ensures forall p :: p in slabs ==> Mmi(p) != Mmi(slab.data)
    {
      hide Slab.Ok, Slab.InPlace, PageMap.Valid, PageMap.Safe, CacheOkIn, PagesOk, Mmi;
      PagesFewer(pages.memMap, pages.runs, slabs, slab);
      Unshelve(slab);
      slabs := slabs - {slab.data};
    }

    static lemma PagesFewer(memMap: array<int>, runs: Runs, slabs: map<int, Slab>, slab: Slab)
      requires PagesOk(memMap, runs, slabs) && Known(slabs, slab)
      ensures PagesOk(memMap, runs, slabs - {slab.data})
      ensures Mmi(slab.data) in runs && runs[Mmi(slab.data)] == 1 && slab.data == AddrOf(Mmi(slab.data))
      ensures forall p :: p in slabs && p != slab.data ==> slabs[p] != slab && Mmi(p) != Mmi(slab.data)
      ensures forall p :: p in slabs ==> slabs[p].data == p
    {
      hide Mmi;
    }

    /** The unlinking of an empty slab whose page no longer counts as a slab. */
    method Unshelve(slab: Slab)
      requires slab.cache in caches && Known(slabs, slab) && slab.InPlace() && slab.inuse == 0
      requires forall c :: c in caches ==> CacheOk(c)
      requires forall p :: p in slabs ==> slabs[p].InPlace() && slabs[p].data == p
      modifies slab.cache
      ensures slab.cache.empty == Without(old(slab.cache.empty), slab)
      ensures slab.cache.partial == old(slab.cache.partial) && slab.cache.full == old(slab.cache.full)
      ensures forall c :: c in caches ==> CacheOkIn(slabs - {slab.data}, c)
      ensures forall p :: p in slabs && p != slab.data ==> slabs[p].InPlace()
    {
      hide Apart, Cache.ListsOk, Cache.Legal, AllKnown, Without;
      var c := slab.cache;
      WithoutAbsent(c.partial, slab);
      WithoutAbsent(c.full, slab);
      forall d | d in caches && d != c
        ensures AllKnown(slabs - {slab.data}, d.partial) && AllKnown(slabs - {slab.data}, d.full)
        ensures AllKnown(slabs - {slab.data}, d.empty)
      {
        d.Owns();
        KnowLess(slabs, d.partial, d.partial, slab);
        KnowLess(slabs, d.full, d.full, slab);
        KnowLess(slabs, d.empty, d.empty, slab);
      }
      c.Unlink(slab);
      KnowLess(slabs, old(c.partial), c.partial, slab);
      KnowLess(slabs, old(c.full), c.full, slab);
      KnowLess(slabs, old(c.empty), c.empty, slab);
    }

    static lemma KnowLess(slabs: map<int, Slab>, q: seq<Slab>, rest: seq<Slab>, slab: Slab)
      requires AllKnown(slabs, q) && Known(slabs, slab) && forall s :: s in rest ==> s in q && s != slab
      ensures AllKnown(slabs - {slab.data}, rest)
    {
    }

    /** `kmem_cache_destroy`: a cache with live objects panics; otherwise all its pages go back. */
    method KmemCacheDestroy(c: Cache)
      requires Valid() && c in caches && c.partial == [] && c.full == []
      requires forall s :: s in c.empty ==> Mmi(s.data) + 1 < NR_PAGES
      modifies this`slabs, this`caches, c, pages`runs, pages.memMap
      ensures Valid() && caches == old(caches) - {c} && c.empty == []
      ensures forall p :: p in slabs ==> p in old(slabs) && slabs[p] == old(slabs)[p] && slabs[p].cache != c
      ensures forall a :: Allocated(a) <==> old(Allocated(a))
    {
      hide Slab.Ok, PageMap.Valid, PageMap.Safe, Apart, Cache.Legal, PageOf, Mmi;
      while c.empty != []
        invariant Valid() && c in caches && caches == old(caches) && c.partial == [] && c.full == []
        invariant forall s :: s in c.empty ==> Mmi(s.data) + 1 < NR_PAGES
        invariant forall p :: p in slabs ==> p in old(slabs) && slabs[p] == old(slabs)[p]
        invariant forall a :: Allocated(a) <==> old(Allocated(a))
        decreases |c.empty|
      {
        var slab := c.empty[0];
        assert Known(slabs, slab) && slabs[slab.data].InPlace();
        DestroySlab(slab);
      }
      forall p | p in slabs
        ensures slabs[p].cache != c
      {
        slabs[p].Placed();
      }
      caches := caches - {c};
    }

    /** The size classes of `cache_init`. */
    ghost predicate GenericOk()
      reads this
    {
      |generic| == 6 && forall i :: 0 <= i < 6 ==> generic[i] in caches && generic[i].objsz == 4 * Pow2(i)
    }

    /** `kmalloc`: an object of the least class that holds `size` bytes, apart from all others. */
    method Kmalloc(size: int) returns (addr: int)
      requires Valid() && GenericOk() && 0 < size <= 128
      requires generic[ClassOf(size)].partial == [] && generic[ClassOf(size)].empty == [] ==> PageAvailable()
      modifies this`slabs, caches, Heads(), pages`runs, pages.memMap
      ensures Valid() && size <= SizeAt(addr) && (SizeAt(addr) > 4 ==> SizeAt(addr) < 2 * size)
      ensures !old(Allocated(addr)) && forall a :: Allocated(a) <==> old(Allocated(a)) || a == addr
      ensures forall a :: old(Allocated(a)) ==> SizeAt(a) == old(SizeAt(a))
    {
      hide Linked, ObjCnt, Mmi, PageOf, PagesOk, Apart, FreeRun, FirstRun, Cache.ListsOk, Slab.Ok, PageMap.Valid,
           PageMap.Safe;
      Powers();
      var cachep: Cache;
      if size <= 32 {
        if size <= 8 {
          if size <= 4 {
            cachep := generic[0];
          } else {
            cachep := generic[1];
          }
        } else {
          if size <= 16 {
            cachep := generic[2];
          } else {
            cachep := generic[3];
          }
        }
      } else {
        if size <= 64 {
          cachep := generic[4];
        } else {
          cachep := generic[5];
        }
      }
      assert cachep in caches && size <= cachep.objsz && (cachep.objsz > 4 ==> cachep.objsz < 2 * size);
      addr := KmemCacheAlloc(cachep);
    }

    /** `kfree`, and `kmem_cache_free`, which does not look at its cache argument. */
    method Kfree(addr: int)
      requires Valid() && Allocated(addr)
      modifies Heads(), Tables(), caches
      ensures Valid() && forall a :: Allocated(a) <==> old(Allocated(a)) && a != addr
    {
      var slab := slabs[PageOf(addr)];
      var cnt := slab.Check();
      SlabFree(addr);
    }

    /** Live objects never overlap, whatever caches they come from, and stay off the tables and headers. */
    lemma LiveDisjoint(a: int, b: int)
      requires Valid() && Allocated(a) && Allocated(b) && a < b
      ensures a + SizeAt(a) <= b
      ensures a + SizeAt(a) <= HeaderOf(a) - 4 * slabs[PageOf(a)].cache.objcnt
    {
      hide Linked;
      var p, q := PageOf(a), PageOf(b);
      var s, t := slabs[p], slabs[q];
      var i, j := (a - p) / s.cache.objsz, (b - q) / t.cache.objsz;
      DivBack(a - p, s.cache.objsz);
      DivBack(b - q, t.cache.objsz);
      PartsDisjoint(p, s.cache.objsz, i, s.cache.objcnt - 1);
      if p == q {
        IndexLess(i, j, s.cache.objsz);
        PartsDisjoint(p, s.cache.objsz, i, j);
      }
    }
  }

  /** The index of the size class for `size` bytes. */
  function ClassOf(size: int): (i: nat)
    ensures i < 6
    ensures 0 < size <= 128 ==> size <= 4 * Pow2(i) && (i > 0 ==> 4 * Pow2(i) < 2 * size)
  {
    Powers();
    if size <= 4 then 0 else if size <= 8 then 1 else if size <= 16 then 2
    else if size <= 32 then 3 else if size <= 64 then 4 else 5
  }

  /** `cache_init` right after `mem_init`: the allocator can start as long as there is a free page. */
  method StartAllocator(pages: PageMap) returns (mem: SlabMem)
    requires pages.Valid() && pages.Safe() && exists s :: FreeRun(pages.memMap[..], s, 1)
    modifies pages`runs, pages.memMap
    ensures mem.Valid() && mem.GenericOk() && fresh(mem) && mem.pages == pages
  {
    hide PageMap.Valid, PageMap.Safe, Slab.Ok, SlabMem.PagesOk, SlabMem.CacheOkIn, FreeRun;
    mem := new SlabMem(pages);
    mem.CacheInit();
  }

  lemma GenericSizes()
    ensures LegalSize(4) && LegalSize(8) && LegalSize(16) && LegalSize(32) && LegalSize(64) && LegalSize(128)
    ensures Align(4) == 4 && Align(8) == 8 && Align(16) == 16 && Align(32) == 32 && Align(64) == 64 && Align(128) == 128
  {
  }

  lemma Powers()
    ensures Pow2(0) == 1 && Pow2(1) == 2 && Pow2(2) == 4 && Pow2(3) == 8 && Pow2(4) == 16 && Pow2(5) == 32
  {
  }

  /** Only one address of the page leads to index `i`. */
  lemma IndexOfAddr(page: int, objsz: nat, i: nat, a: int)
    requires LegalSize(objsz) && i < ObjCnt(objsz) && page % 4096 == 0
    ensures a == ObjAddr(page, objsz, i) <==>
            PageOf(a) == page && (a - page) % objsz == 0 && (a - page) / objsz == i
  {
    AddrRecovers(page, objsz, i);
    if (a - page) % objsz == 0 {
      DivBack(a - page, objsz);
    }
  }

  lemma DivBack(n: int, d: nat)
    requires d > 0 && n % d == 0
    ensures n == n / d * d
  {
  }

  lemma IndexLess(i: nat, j: nat, d: nat)
    requires i * d < j * d
    ensures i < j
  {
    MultipleBound(i - j, d);
  }
}
