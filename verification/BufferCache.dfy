/** kernel/blk_drv/buffer.c: a write-back cache of disk blocks with pin counts.

  A buffer is on the free list or on the cached list. `bread` pins a buffer, the
  holder may change its bytes and mark it with `bwrite`, and `brelease` writes a
  marked buffer back when the last pin goes. What the layers above see is the
  logical disk: the bytes of the cached buffer when a block is cached, the bytes
  on the disk otherwise.
*/
module Buffers {
  import opened Collections
  import opened Lists

  const BLOCK_SIZE: nat := 1024
  const HEAD_SIZE: nat := 56 // bytes of a struct buffer_head

  type Block = b: seq<bv8> | |b| == BLOCK_SIZE witness seq(BLOCK_SIZE, _ => 0)

  datatype Key = Key(dev: int, blk: int)

  type Disk = map<Key, Block>

  /** The bytes `bytes` laid over `b` from offset `off` on. */
  function Splice(b: Block, off: nat, bytes: seq<bv8>): (r: Block)
    requires off + |bytes| <= BLOCK_SIZE
    ensures forall i :: 0 <= i < BLOCK_SIZE ==>
                          r[i] == if off <= i < off + |bytes| then bytes[i - off] else b[i]
  {
    b[..off] + bytes + b[off + |bytes|..]
  }

  class BufferHead {
    var dev: int
    var blk: int
    var uptodate: bool
    var data: Block
    var dirty: bool
    var count: int
    const hash: HListNode
    const free: ListHead

    /** A static buffer head of `buffer_init`: zeroed counters, nothing read yet. */
    constructor ()
      ensures !uptodate && !dirty && count == 0 && fresh(hash) && fresh(free)
    {
      dev, blk, uptodate, dirty, count := 0, 0, false, false, 0;
      data := seq(BLOCK_SIZE, _ => 0);
      hash := new HListNode();
      free := new ListHead();
    }

    /** The "read data" part of `bread`: the head becomes the block's buffer. */
    method Fill(dev: int, blk: int, bytes: Block)
      modifies this
      ensures Id() == Key(dev, blk) && data == bytes && uptodate && count == 1 && dirty == old(dirty)
    {
      count := 1;
      this.dev := dev;
      this.blk := blk;
      data := bytes;
      uptodate := true;
    }

    function Id(): Key
      reads this
    {
      Key(dev, blk)
    }
  }

  /** The members of `s` that belong to `p`, in order. */
  ghost function Keep<T>(s: seq<T>, p: set<T>): seq<T>
  {
    if s == [] then [] else
    var n := |s| - 1; Keep(s[..n], p) + (if s[n] in p then [s[n]] else [])
  }

  lemma KeepNext<T>(s: seq<T>, n: nat, p: set<T>)
    requires n < |s|
    ensures Keep(s[..n + 1], p) == if s[n] in p then Keep(s[..n], p) + [s[n]] else Keep(s[..n], p)
  {
    assert s[..n + 1][..n] == s[..n];
  }

  lemma NothingKept<T>(s: seq<T>, p: set<T>)
    ensures Keep(s[..0], p) == [] && Reversed(Keep(s[..0], p)) == []
  {
  }

  lemma {:induction false} KeepMembers<T>(s: seq<T>, p: set<T>)
    ensures forall x :: x in Keep(s, p) <==> x in s && x in p
    ensures Distinct(s) ==> Distinct(Keep(s, p))
  {
    if s != [] {
      var n := |s| - 1;
      assert s == s[..n] + [s[n]];
      KeepMembers(s[..n], p);
    }
  }

  lemma PartitionFacts<T>(s: seq<T>, all: set<T>, p: set<T>)
    requires Distinct(s) && forall x :: x in s ==> x in all
    ensures Distinct(Keep(s, p)) && Distinct(Reversed(Keep(s, all - p)))
    ensures forall x :: x in Keep(s, p) <==> x in s && x in p
    ensures forall x :: x in Reversed(Keep(s, all - p)) <==> x in s && x !in p
  {
    KeepMembers(s, p);
    KeepMembers(s, all - p);
    ReversedMembers(Keep(s, all - p));
  }

  /** When the last of `s` is kept, it comes first in the reverse. */
  lemma KeepLast<T>(s: seq<T>, p: set<T>)
    requires s != [] && s[|s| - 1] in p
    ensures var f := Reversed(Keep(s, p)); f != [] && f[0] == s[|s| - 1]
  {
    ReversedPush(Keep(s[..|s| - 1], p), s[|s| - 1]);
  }

  /** No two heads share a list node. */
  ghost predicate NodesApart(s: seq<BufferHead>) {
    forall i, j :: 0 <= i < j < |s| ==> s[i].hash != s[j].hash && s[i].free != s[j].free
  }

  class BufferCache {
    ghost const buffers: set<BufferHead>
    var freeList: seq<BufferHead>
    var cached: seq<BufferHead>
    var disk: Disk
    ghost var holder: map<Key, BufferHead>  // the cached buffer of each cached block

    /** Every buffer is on exactly one list; no block is cached twice; a buffer
        nobody pins is clean and equals the disk. */
    ghost predicate Valid()
      reads this, buffers
    {
      ValidWith(freeList, cached)
    }

    ghost predicate ValidWith(freeList: seq<BufferHead>, cached: seq<BufferHead>)
      reads this, buffers
    {
      && Lists(buffers, freeList, cached, holder)
      && (forall b :: b in freeList ==> b.count == 0 && !b.dirty)
      && (forall b :: b in cached ==> Wf(b) && b.Id() in holder && holder[b.Id()] == b)
      && (forall k :: k in holder ==> holder[k].Id() == k)
    }

    /** Every buffer is on exactly one list, once. */
    static ghost predicate Lists(buffers: set<BufferHead>, freeList: seq<BufferHead>, cached: seq<BufferHead>,
                                 holder: map<Key, BufferHead>)
    {
      && (forall b :: b in buffers ==> b in freeList || b in cached)
      && (forall b :: b in freeList ==> b in buffers && b !in cached)
      && (forall b :: b in cached ==> b in buffers)
      && (forall k :: k in holder ==> holder[k] in cached)
      && Distinct(freeList)
      && Distinct(cached)
    }

    static lemma TakeHead(buffers: set<BufferHead>, freeList: seq<BufferHead>, cached: seq<BufferHead>,
                          holder: map<Key, BufferHead>, k: Key)
      requires Lists(buffers, freeList, cached, holder) && freeList != [] && k !in holder
      ensures var b := freeList[0];
              && b in buffers && b !in cached && b !in freeList[1..]
              && Lists(buffers, freeList[1..], [b] + cached, holder[k := b])
      ensures forall c :: c in freeList[1..] ==> c in freeList
      ensures forall h :: h in holder ==> holder[h] in cached
    {
      assert freeList == [freeList[0]] + freeList[1..];
    }

    ghost predicate Wf(b: BufferHead)
      reads this, b
    {
      && b.uptodate && b.count >= 0 && b.Id() in disk
      && (b.count == 0 ==> !b.dirty && b.data == disk[b.Id()])
    }

    ghost predicate InCache(k: Key)
      reads this
    {
      k in holder
    }

    /** What a reader of each block sees. */
    ghost function Logical(): Disk
      reads this`disk, this`holder, (set k | k in holder :: holder[k])`data
    {
      map k | k in disk :: if k in holder then holder[k].data else disk[k]
    }

    ghost function Pinned(): set<BufferHead>
      reads this, buffers
    {
      set b | b in buffers && b.count != 0
    }

    /** When `bread` does not panic: a hit, a free buffer, or an unpinned oldest
        cached buffer. An idle buffer elsewhere does not help, see `TakeFree` and `OldestPinned`. */
    ghost predicate CanRead(k: Key)
      reads this, buffers
      requires Valid()
    {
      InCache(k) || freeList != [] || OldestIdle()
    }

    /** Nobody pins anything: the state between two file system helpers. */
    ghost predicate Quiet()
      reads this, buffers
    {
      Valid() && buffers != {} && forall b :: b in buffers ==> b.count == 0
    }

    /** `buffer_init`: as many buffers as heads from `start` on and blocks from `end` down have room for. */
    constructor (start: int, end: int, contents: Disk)
      ensures Valid() && fresh(buffers) && disk == contents && Logical() == contents && cached == []
      ensures |freeList| > 0 ==> start + |freeList| * (HEAD_SIZE + BLOCK_SIZE) <= end
      ensures end < start + (|freeList| + 1) * (HEAD_SIZE + BLOCK_SIZE)
      ensures |freeList| > 0 ==> Quiet()
      ensures Distinct(freeList) && NodesApart(freeList) && forall b :: b in freeList ==> fresh(b.hash) && fresh(b.free)
    {
      disk := contents;
      cached := [];
      holder := map[];
      var pool: seq<BufferHead> := [];
      var buffer, block := start, end - BLOCK_SIZE;
      while block - buffer >= HEAD_SIZE
        invariant buffer == start + |pool| * HEAD_SIZE && block == end - (|pool| + 1) * BLOCK_SIZE
        invariant |pool| > 0 ==> buffer <= block + BLOCK_SIZE
        invariant Distinct(pool) && NodesApart(pool)
        invariant forall b :: b in pool ==> fresh(b) && b.count == 0 && !b.dirty && fresh(b.hash) && fresh(b.free)
      {
        var b := new BufferHead();
        pool := [b] + pool;
        buffer := buffer + HEAD_SIZE;
        block := block - BLOCK_SIZE;
      }
      freeList := pool;
      buffers := set b | b in pool;
      new;
      assert |freeList| > 0 ==> freeList[0] in buffers;
    }

    /** The reclaim loop, each step relinking or skipping one cached buffer. */
    method ReclaimWalk(ghost pinned: set<BufferHead>) returns (last: BufferHead?)
      requires freeList == [] && forall b :: b in cached ==> (b in pinned <==> b.count != 0)
      modifies this`freeList, this`cached
      ensures freeList == Reversed(Keep(old(cached), (set b | b in old(cached)) - pinned))
      ensures cached == Keep(old(cached), pinned)
      ensures last == if old(cached) == [] then null else old(cached)[|old(cached)| - 1]
    {
      hide Keep, Reversed;
      ghost var was := cached;
      ghost var idle := (set b | b in was) - pinned;
      ghost var n := 0;
      NothingKept(was, pinned);
      NothingKept(was, idle);
      var i := 0;
      last := null;
      while i < |cached|
        invariant 0 <= n <= |was| && 0 <= i <= |cached|
        invariant cached[..i] == Keep(was[..n], pinned) && cached[i..] == was[n..]
        invariant freeList == Reversed(Keep(was[..n], idle))
        invariant last == if n == 0 then null else was[n - 1]
        decreases |was| - n
      {
        last := cached[i];
        assert last == cached[i..][0] == was[n];
        KeepNext(was, n, pinned);
        KeepNext(was, n, idle);
        assert last in was && (last in idle <==> last.count == 0);
        if last.count == 0 {
          ReversedPush<BufferHead>(Keep(was[..n], idle), was[n]);
          cached := cached[..i] + cached[i + 1..];
          freeList := [last] + freeList;
        } else {
          i := i + 1;
        }
        n := n + 1;
      }
      assert was[..n] == was && cached[..i] == cached;
    }

    /** The reclaim walk moves exactly the unpinned cached buffers to the free
        list, each to its head, so the oldest ends in front. */
    method Reclaim() returns (last: BufferHead?)
      requires Valid() && freeList == []
      modifies this`freeList, this`cached, this`holder
      ensures Valid() && Logical() == old(Logical()) && holder.Keys <= old(holder.Keys)
      ensures freeList == Reversed(Keep(old(cached), buffers - old(Pinned())))
      ensures cached == Keep(old(cached), old(Pinned()))
      ensures last == if old(cached) == [] then null else old(cached)[|old(cached)| - 1]
    {
      hide Keep, Reversed;
      ghost var was, pinned := cached, Pinned();
      last := ReclaimWalk(pinned);
      assert (set b | b in was) == buffers;
      PartitionFacts(was, buffers, pinned);
      Forget(was);
    }

    /** The reclaimed buffers hold no block any more. */
    ghost method Forget(was: seq<BufferHead>)
      requires ValidWith([], was) && Distinct(freeList) && Distinct(cached)
      requires forall b :: b in freeList <==> b in was && b.count == 0
      requires forall b :: b in cached <==> b in was && b.count != 0
      modifies this`holder
      ensures Valid() && Logical() == old(Logical()) && holder.Keys <= old(holder.Keys)
    {
      holder := map k | k in holder && holder[k].count != 0 :: holder[k];
    }

    method Bread(dev: int, blk: int) returns (bh: BufferHead)
      requires Valid() && Key(dev, blk) in disk && CanRead(Key(dev, blk))
      modifies this`freeList, this`cached, this`holder, buffers
      ensures Valid() && Logical() == old(Logical())
      ensures bh in cached && bh in buffers && bh.Id() == Key(dev, blk) && bh.data == Logical()[Key(dev, blk)]
      ensures forall b :: b in buffers && b != bh ==> unchanged(b)
      ensures bh.count == 1 + (if old(InCache(Key(dev, blk))) then old(bh.count) else 0)
      ensures old(InCache(Key(dev, blk))) ==>
                && bh == old(holder)[Key(dev, blk)] && bh.dirty == old(bh.dirty)
                && freeList == old(freeList) && cached == old(cached)
      ensures !old(InCache(Key(dev, blk))) ==>
                && old(bh.count) == 0 && !bh.dirty
                && (if old(freeList) != [] then
                      bh == old(freeList)[0] && freeList == old(freeList)[1..] && cached == [bh] + old(cached)
                    else
                      && bh == old(cached)[|old(cached)| - 1] && cached == [bh] + Keep(old(cached), old(Pinned()))
                      && [bh] + freeList == Reversed(Keep(old(cached), buffers - old(Pinned()))))
    {
      hide Keep, Reversed, ValidWith;
      var hit := Find(dev, blk);
      if hit != null {
        bh := hit;
        Pin(bh);
        return;
      }
      var cur, ok := TakeFree();
      assert ok;
      bh := cur;
      Install(bh, dev, blk);
    }

    /** A hit of `bread`. */
    method Pin(bh: BufferHead)
      requires Valid() && bh in cached
      modifies bh`count
      ensures Valid() && Logical() == old(Logical()) && bh.data == Logical()[bh.Id()]
      ensures bh.count == old(bh.count) + 1
    {
      bh.count := bh.count + 1;
    }

    /** The search loop of `bread`. */
    method Find(dev: int, blk: int) returns (hit: BufferHead?)
      requires Valid()
      ensures hit != null <==> InCache(Key(dev, blk))
      ensures hit != null ==> hit in cached && hit in buffers && hit.Id() == Key(dev, blk)
      ensures hit != null ==> holder[Key(dev, blk)] == hit
    {
      for i := 0 to |cached|
        invariant forall j :: 0 <= j < i ==> cached[j].Id() != Key(dev, blk)
      {
        var cur := cached[i];
        if cur.uptodate && cur.dev == dev && cur.blk == blk {
          assert holder[cur.Id()] == cur;
          return cur;
        }
      }
      hit := null;
    }

    /** The middle of `bread`: after it the chosen buffer heads the free list. `ok` is whether both of its
        checks pass, that the pool is not full and that the chosen buffer is idle: exactly when a buffer is
        free or the oldest cached one is idle. */
    method TakeFree() returns (cur: BufferHead?, ok: bool)
      requires Valid()
      modifies this`freeList, this`cached, this`holder
      ensures Valid() && Logical() == old(Logical()) && holder.Keys <= old(holder.Keys)
      ensures ok <==> old(freeList != [] || OldestIdle())
      ensures ok ==> freeList != [] && cur != null && cur == freeList[0] && cur in buffers
      ensures ok ==>
                if old(freeList) != [] then freeList == old(freeList) && cached == old(cached)
                else cur == old(cached)[|old(cached)| - 1] && cached == Keep(old(cached), old(Pinned()))
                     && freeList == Reversed(Keep(old(cached), buffers - old(Pinned())))
    {
      hide Keep, Reversed, ValidWith;
      if freeList == [] {
        IdleFreed();
        cur := Reclaim();
        if freeList == [] {
          return cur, false;
        }
      } else {
        FreeIdle();
        cur := freeList[0];
      }
      ok := cur != null && cur.count == 0;
    }

    /** What the reclaim walk will find. */
    lemma IdleFreed()
      requires Valid() && freeList == []
      ensures cached != [] ==> cached[|cached| - 1] in buffers
      ensures var f := Reversed(Keep(cached, buffers - Pinned()));
              OldestIdle() ==> f != [] && f[0] == cached[|cached| - 1]
    {
      if OldestIdle() {
        KeepLast(cached, buffers - Pinned());
      }
    }

    lemma FreeIdle()
      requires Valid() && freeList != []
      ensures freeList[0] in buffers && freeList[0].count == 0
    {
    }

    lemma InCacheIff(k: Key)
      requires Valid()
      ensures InCache(k) <==> exists b :: b in cached && b.Id() == k
    {
    }

    ghost predicate OldestIdle()
      reads this, buffers
      requires Valid()
    {
      cached != [] && cached[|cached| - 1].count == 0
    }

    /** The tail of `bread`: take the head of the free list, put it on the cached
        list and fill it from the disk. */
    method Install(cur: BufferHead, dev: int, blk: int)
      requires Valid() && Key(dev, blk) in disk && !InCache(Key(dev, blk))
      requires freeList != [] && cur == freeList[0]
      modifies this`freeList, this`cached, this`holder, cur
      ensures Valid() && Logical() == old(Logical())
      ensures freeList == old(freeList)[1..] && cached == [cur] + old(cached)
      ensures cur in buffers && cur.Id() == Key(dev, blk) && cur.data == Logical()[Key(dev, blk)]
      ensures old(cur.count) == 0 && cur.count == 1 && !cur.dirty
    {
      hide Lists;
      TakeHead(buffers, freeList, cached, holder, Key(dev, blk));
      freeList := freeList[1..];
      cached := [cur] + cached;
      holder := holder[Key(dev, blk) := cur];
      cur.Fill(dev, blk, disk[Key(dev, blk)]);
    }

    method Brelease(bh: BufferHead)
      requires Valid() && bh in cached && bh.count > 0
      requires bh.count == 1 && !bh.dirty ==> bh.data == disk[bh.Id()]
      modifies this`disk, bh`count, bh`dirty
      ensures Valid() && Logical() == old(Logical())
      ensures bh.count == old(bh.count) - 1
      ensures bh.dirty == (old(bh.dirty) && bh.count > 0)
      ensures disk == if bh.count == 0 && old(bh.dirty) then old(disk)[bh.Id() := bh.data] else old(disk)
    {
      hide Lists;
      bh.count := bh.count - 1;
      if bh.count == 0 {
        if bh.dirty {
          disk := disk[bh.Id() := bh.data];
          bh.dirty := false;
        }
      }
    }

    method Bwrite(bh: BufferHead)
      requires Valid() && bh in cached && bh.count > 0
      modifies bh`dirty
      ensures Valid() && Logical() == old(Logical()) && bh.dirty
    {
      bh.dirty := true;
    }

    /** A holder's memcpy or memset into `b_data`. */
    method Store(bh: BufferHead, off: nat, bytes: seq<bv8>)
      requires Valid() && bh in cached && bh.count > 0
      requires off + |bytes| <= BLOCK_SIZE
      modifies bh`data
      ensures Valid() && bh.data == Splice(old(bh.data), off, bytes)
      ensures Logical() == old(Logical())[bh.Id() := bh.data]
    {
      bh.data := Splice(bh.data, off, bytes);
    }

    /** Between helpers the disk itself is what readers see, and nothing can panic. */
    lemma QuietFacts()
      requires Quiet()
      ensures Logical() == disk && forall b :: b in cached ==> b in buffers
      ensures forall k :: CanRead(k)
    {
      var b :| b in buffers;
      assert b in freeList || b in cached;
    }

    /** The read idiom of fs.c: bread, memcpy out of `b_data`, brelease. */
    method Load(dev: int, blk: int, off: nat, n: nat) returns (bytes: seq<bv8>)
      requires Quiet() && Key(dev, blk) in disk && off + n <= BLOCK_SIZE
      modifies this`freeList, this`cached, this`holder, this`disk, buffers
      ensures Quiet() && disk == old(disk)
      ensures bytes == disk[Key(dev, blk)][off..off + n]
    {
      hide ValidWith, Logical, CanRead, InCache, Keep;
      QuietFacts();
      var bh := Bread(dev, blk);
      bytes := bh.data[off..off + n];
      Brelease(bh);
      QuietFacts();
    }

    /** The write idiom of fs.c: bread, memcpy into `b_data`, bwrite, brelease. */
    method Save(dev: int, blk: int, off: nat, bytes: seq<bv8>)
      requires Quiet() && Key(dev, blk) in disk && off + |bytes| <= BLOCK_SIZE
      modifies this`freeList, this`cached, this`holder, this`disk, buffers
      ensures Quiet()
      ensures disk == old(disk)[Key(dev, blk) := Splice(old(disk)[Key(dev, blk)], off, bytes)]
    {
      hide ValidWith, Logical, CanRead, InCache, Keep;
      QuietFacts();
      var bh := Bread(dev, blk);
      Store(bh, off, bytes);
      Bwrite(bh);
      Brelease(bh);
      QuietFacts();
    }
  }

  /** A read that panics although a buffer is idle: of two buffers the older is pinned, the newer is not. */
  method OldestPinned(contents: Disk) returns (cache: BufferCache, idle: BufferHead)
    requires forall blk :: 1 <= blk <= 3 ==> Key(3, blk) in contents
    ensures cache.Valid() && idle in cache.buffers && idle.count == 0 && !cache.CanRead(Key(3, 3))
  {
    hide BufferCache.ValidWith, BufferCache.Logical, BufferCache.InCache, BufferCache.Pinned, Keep, Reversed,
         NodesApart;
    cache := new BufferCache(0, 2160, contents);
    cache.InCacheIff(Key(3, 1));
    var oldest := cache.Bread(3, 1);
    cache.InCacheIff(Key(3, 2));
    idle := cache.Bread(3, 2);
    cache.Brelease(idle);
    cache.InCacheIff(Key(3, 3));
  }
}
