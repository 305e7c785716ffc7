/** fs/fs.c: inodes, zones and the bytes of files, over the buffer cache. */
module FileSystem {
  import opened Buffers
  import opened Bitmap
  import opened InodeTable
  import opened Superblock
  import opened Ownership
  import opened Transfer
  import opened FsState
  import opened Outcomes
  import opened Collections

  /** `struct inode` in memory. */
  class Inode {
    var inum: int
    var size: int
    var mode: int
    var nlink: int
    var zone: seq<int>
    var refcnt: int

    constructor (d: DInode)
      ensures Value() == d && refcnt == 0
    {
      inum, size, mode, nlink, zone, refcnt := d.inum, d.size, d.mode, d.nlink, d.zone, 0;
    }

    function Value(): DInode
      reads this
    {
      DInode(inum, size, mode, nlink, zone)
    }
  }

  lemma FullMap(disk: Disk, a: Area)
    requires a.end == a.start + 1 && forall i :: 0 <= i < 4096 ==> a.Test(disk, i)
    ensures |a.Set(disk)| == 4096
  {
    assert a.Set(disk) == RangeSet(4096);
  }

  /** With fewer than 4096 bits set there is a clear one. */
  lemma FreeBit(disk: Disk, a: Area)
    requires a.end == a.start + 1 && |a.Set(disk)| < 4096
    ensures exists i :: 0 <= i < a.Bits() && !a.Test(disk, i)
  {
    if forall i :: 0 <= i < a.Bits() ==> a.Test(disk, i) {
      FullMap(disk, a);
      assert false;
    }
  }

  function RootInode(): DInode {
    DInode(1, 0, 0, 2, [0, 0, 0, 0, 0, 0, 0, 0, 0])
  }

  lemma SetOfBits(disk: Disk, blk: int, n: nat)
    requires Key(DEV, blk) in disk && n <= SECTOR_BITS
    requires forall i :: 0 <= i < 8 * 1024 ==> Bit(disk[Key(DEV, blk)], i) == (i < n)
    ensures Area(DEV, blk, blk + 1).Set(disk) == RangeSet(n)
  {
    hide Bit;
    var a := Area(DEV, blk, blk + 1);
    forall i | 0 <= i < a.Bits()
      ensures a.Test(disk, i) == (i < n)
    {
      assert a.Home(i) == Key(DEV, blk);
    }
  }

  lemma RootSlot(disk: Disk, tail: seq<bv8>)
    requires DiskOn(disk) && |tail| == 24
    ensures SlotKey(1) == Key(DEV, 4) && SlotKey(1) in disk
    ensures OnlyBlock(disk, WroteInode(disk, RootInode(), tail), 4)
    ensures Slot(WroteInode(disk, RootInode(), tail), 1) == RootInode()
  {
    hide Slot, Encode, Splice, SlotOff;
    SlotAfterWrite(disk, 1, RootInode(), tail, 1);
  }

  /** What `mkfs` leaves is a file system with one empty file, the root. */
  lemma MkfsState(disk: Disk)
    requires DiskOn(disk) && IMAP.Set(disk) == RangeSet(2) && ZMAP.Set(disk) == RangeSet(DATA_START)
    requires SlotKey(1) in disk ==> Slot(disk, 1) == RootInode()
    ensures Inv(disk, map[]) && FsState.Files(disk, map[]) == map[1 := File([], 0, 2)]
  {
    hide Area.Set, Slot, RangeSet, Owned, Raw, HasLayout;
    RootSlotKey(disk);
    var live := map[1 := RootInode()];
    assert Live(disk, map[]) == live;
    assert HeldBy(live, 0, 0) == map[1 := []];
    NothingOwned(ZMAP.Set(disk));
  }

  lemma RootSlotKey(disk: Disk)
    requires DiskOn(disk)
    ensures SlotKey(1) == Key(DEV, 4) && SlotKey(1) in disk
  {
  }

  lemma NothingOwned(used: set<int>)
    requires used == RangeSet(DATA_START)
    ensures Owned(map[1 := []], used)
  {
    hide RangeSet;
    assert forall b :: !Holds(map[1 := []], b);
  }

  lemma UnloadedFacts(disk: Disk, mem: Inodes, n: int)
    requires Inv(disk, mem) && n in FsState.Files(disk, mem) && n !in mem
    ensures n in IMAP.Set(disk) && 1 <= n < NR_INODES
    ensures SlotKey(n) in disk && Slot(disk, n).inum == n
  {
    hide Area.Set, Owned, Slot, Raw, SlotKey;
    assert Live(disk, mem)[n] == Slot(disk, n);
  }

  lemma DeleteFiles(disk: Disk, mem: Inodes, disk1: Disk, mem1: Inodes, n: int)
    requires Inv(disk, mem) && n in mem && InvAt(disk1, mem1, n, 0) && n in mem1
    requires OthersKept(disk, mem, ZonesOf(mem[n].size), disk1, mem1, 0, n)
    ensures IMAP.Home(n) in disk1 && 0 <= n < NR_INODES
    ensures var disk', mem' := MarkedInode(disk1, n, false), mem1 - {n};
            && Inv(disk', mem')
            && ZMAP.Set(disk') == ZMAP.Set(disk1)
            && IMAP.Set(disk') == IMAP.Set(disk1) - {n}
            && IMAP.Set(disk1) == IMAP.Set(disk)
            && FsState.Files(disk', mem') == FsState.Files(disk, mem) - {n}
  {
    hide Raw, Owned, Area.Set, InvAt, MarkedInode, Live, Slot, SlotKey, HeldBy;
    LoadedIsLive(disk1, mem1, n, 0);
    InvFacts(disk1, mem1, n, 0);
    DeleteStep(disk1, mem1, n);
    MarkedLive(disk1, n);
    SameNumbers(disk, mem, disk1, mem1, n);
    Settle(disk, mem, n);
    LoadedIsLive(disk, mem, n, ZonesOf(mem[n].size));
    KeptFiles(disk, mem, ZonesOf(mem[n].size), disk1, mem1, 0, n);
    hide FileOf, OthersKept;
    var live, live' := Live(disk, mem), Live(MarkedInode(disk1, n, false), mem1 - {n});
    assert live'.Keys == live.Keys - {n};
    forall m | m in live'
      ensures FileOf(MarkedInode(disk1, n, false), live'[m]) == FileOf(disk, live[m])
    {
      assert m in Live(disk1, mem1);
    }
  }

  lemma MarkedLive(disk: Disk, n: int)
    requires DiskOn(disk) && 0 <= n < NR_INODES
    ensures IMAP.Home(n) in disk && IMAP.Set(MarkedInode(disk, n, false)) == IMAP.Set(disk) - {n}
  {
    hide Slot;
    MarkLaws(disk, n, false);
  }

  /** The bytes and attributes of the other files follow from `OthersKept`. */
  lemma KeptFiles(disk: Disk, mem: Inodes, z: int, disk': Disk, mem': Inodes, z': int, n: int)
    requires OthersKept(disk, mem, z, disk', mem', z', n)
    ensures forall m :: m in Live(disk, mem) && m != n ==>
                          && m in Live(disk', mem')
                          && FileOf(disk', Live(disk', mem')[m]) == FileOf(disk, Live(disk, mem)[m])
    ensures forall m :: m in Live(disk', mem') && m != n ==> m in Live(disk, mem)
  {
    hide Raw, Live;
    forall m | m in Live(disk, mem) && m != n
      ensures FileOf(disk', Live(disk', mem')[m]) == FileOf(disk, Live(disk, mem)[m])
    {
      assert m in HeldBy(Live(disk, mem), n, z);
    }
  }

  /** The numbers in use are those of the live inodes and 0. */
  lemma SameNumbers(disk: Disk, mem: Inodes, disk1: Disk, mem1: Inodes, n: int)
    requires Inv(disk, mem) && InvAt(disk1, mem1, n, 0) && n in mem && n in mem1
    requires OthersKept(disk, mem, ZonesOf(mem[n].size), disk1, mem1, 0, n)
    ensures IMAP.Set(disk1) == IMAP.Set(disk)
  {
    hide Raw, Area.Set, Live, HeldBy, InvAt;
    ImapOfLive(disk, mem, 0, 0);
    ImapOfLive(disk1, mem1, n, 0);
    assert n in Live(disk, mem) && n in Live(disk1, mem1);
    assert forall m :: m != n ==> (m in Live(disk, mem) <==> m in Live(disk1, mem1));
    forall i
      ensures i in IMAP.Set(disk1) <==> i in IMAP.Set(disk)
    {
      if i == n {}
    }
  }

  lemma ImapOfLive(disk: Disk, mem: Inodes, n: int, z: int)
    requires InvAt(disk, mem, n, z)
    ensures forall i :: i in IMAP.Set(disk) <==> i == 0 || i in Live(disk, mem)
    ensures 0 !in Live(disk, mem)
    ensures forall i :: i in mem ==> i in Live(disk, mem)
  {
    hide Raw, Owned, Slot, SlotKey, HeldBy, AllGood;
    forall i | 1 <= i < NR_INODES
      ensures SlotKey(i) in disk
    {
      SlotsDisjoint(i, i);
      SlotKeyDev(i);
    }
    assert forall i :: i in IMAP.Set(disk) ==> 0 <= i;
    hide Area.Set;
  }

  /** The bytes of file `d` after `_write` of `buf` at `pos`. */
  ghost function WrittenBytes(disk: Disk, d: DInode, pos: nat, buf: seq<bv8>): seq<bv8> {
    Wrote(Raw(disk, Prefix(d.zone, ZonesOf(d.size))), d.size, pos, buf)
  }

  /** That is how `_write` ends with its guards, and `Writable` is when it does. */
  lemma WrittenIsOutcome(disk: Disk, d: DInode, pos: nat, buf: seq<bv8>)
    requires |d.zone| == 9 && 0 <= d.size <= MAX_SIZE && buf != []
    ensures WriteOutcome(Raw(disk, Prefix(d.zone, ZonesOf(d.size))), d.size, pos, buf) ==
      if Writable(d.size, pos, |buf|) then Done(WrittenBytes(disk, d, pos, buf)) else Panic
  {
    hide WriteOutcome, Wrote, Raw;
    WriteOutcomeIs(Raw(disk, Prefix(d.zone, ZonesOf(d.size))), d.size, pos, buf);
  }

  /** A short write inside the file, or at its end, is the flat write of a byte sequence. */
  lemma FlatWrite(disk: Disk, d: DInode, pos: nat, buf: seq<bv8>)
    requires |d.zone| == 9 && 0 <= d.size <= MAX_SIZE && pos <= d.size && pos + |buf| <= MAX_SIZE
    requires Short(pos, |buf|)
    ensures |FileOf(disk, d).bytes| == d.size
    ensures WrittenBytes(disk, d, pos, buf) == Patched(FileOf(disk, d).bytes, pos, buf)
  {
    hide Raw, Wrote;
    WroteFlat(Raw(disk, Prefix(d.zone, ZonesOf(d.size))), d.size, pos, buf);
  }

  /** The bytes `_read` delivers. */
  ghost function ReadBytes(disk: Disk, d: DInode, pos: nat, count: nat): seq<bv8> {
    var raw := Raw(disk, Prefix(d.zone, ZonesOf(d.size)));
    if Left(pos, count) < 2048 && pos + count <= |raw| then Read(raw, pos, count) else []
  }

  /** That is how `_read` ends with its guards. */
  lemma ReadIsOutcome(disk: Disk, d: DInode, pos: nat, count: nat)
    requires |d.zone| == 9 && 0 <= d.size <= MAX_SIZE
    ensures ReadOutcome(Raw(disk, Prefix(d.zone, ZonesOf(d.size))), d.size, pos, count) ==
      if pos + count > d.size then Refused
      else if Left(pos, count) < 2048 && pos < MAX_SIZE then Done(ReadBytes(disk, d, pos, count)) else Panic
  {
    hide Read, Raw;
    if pos + count <= d.size {
      ReadOutcomeIs(Raw(disk, Prefix(d.zone, ZonesOf(d.size))), d.size, pos, count);
    }
  }

  /** A short read inside the file is the slice of its bytes. */
  lemma FlatRead(disk: Disk, d: DInode, pos: nat, count: nat)
    requires |d.zone| == 9 && 0 <= d.size <= MAX_SIZE && pos + count <= d.size && Short(pos, count)
    ensures |FileOf(disk, d).bytes| == d.size
    ensures ReadBytes(disk, d, pos, count) == FileOf(disk, d).bytes[pos..pos + count]
  {
    hide Raw, Read, Short;
    var raw := Raw(disk, Prefix(d.zone, ZonesOf(d.size)));
    ReadShort(raw, pos, count);
    assert Prefix(raw, d.size) == raw[..d.size];
    assert raw[..d.size][pos..pos + count] == raw[pos..pos + count];
  }

  function RestRead(raw: seq<bv8>, zone: int, left: nat): seq<bv8> {
    if 0 <= zone && left < 2048 && zone * 1024 + left <= |raw| && |raw| % 1024 == 0 then ReadRest(raw, zone, left)
    else []
  }

  lemma RestReadStep(raw: seq<bv8>, zone: int, left: nat)
    requires 0 <= zone && 0 < left < 2048 && 1024 * (zone + ZonesOf(left)) <= |raw| && |raw| % 1024 == 0
    ensures zone * 1024 + Step(left) <= |raw|
    ensures RestRead(raw, zone, left)
         == raw[zone * 1024..zone * 1024 + Step(left)] + RestRead(raw, zone + 1, left - Step(left))
  {
  }

  /** `_read` is its first transfer and then its loop. */
  lemma ReadParts(disk: Disk, d: DInode, pos: nat, count: nat)
    requires |d.zone| == 9 && 0 <= d.size <= MAX_SIZE && pos + count <= d.size && Left(pos, count) < 2048
    ensures var raw := Raw(disk, Prefix(d.zone, ZonesOf(d.size)));
            && pos + First(pos, count) <= |raw|
            && ReadBytes(disk, d, pos, count)
               == raw[pos..pos + First(pos, count)] + RestRead(raw, pos / 1024 + 1, Left(pos, count))
  {
    hide Raw, First, ReadRest;
    var raw := Raw(disk, Prefix(d.zone, ZonesOf(d.size)));
    NextBlock(pos, count);
    RestReadDone(raw, pos / 1024 + 1);
  }

  /** Where the second transfer starts. */
  lemma NextBlock(pos: nat, count: nat)
    ensures Left(pos, count) > 0 ==> pos + First(pos, count) == (pos / 1024 + 1) * 1024
    ensures First(pos, count) + Left(pos, count) == count
  {
    if Left(pos, count) > 0 {
      NextZone(pos, count);
    }
  }

  /** Each turn of a transfer loop uses up one zone. */
  lemma ZonesStep(left: nat)
    requires 0 < left < 2048
    ensures 0 < Step(left) <= 1024 && ZonesOf(left) >= 1
    ensures ZonesOf(left - Step(left)) == ZonesOf(left) - 1
  {
  }

  lemma StepIs(left: nat, n: int)
    requires n == if left > 1024 then left % 1024 else left
    ensures n == Step(left)
  {
  }

  lemma SeqAssoc<T>(a: seq<T>, b: seq<T>, c: seq<T>)
    ensures a + (b + c) == (a + b) + c
  {
  }

  lemma RestReadDone(raw: seq<bv8>, zone: int)
    ensures RestRead(raw, zone, 0) == []
  {
  }

  lemma RawSlice(disk: Disk, zones: seq<int>, i: int, off: nat, n: nat)
    requires 0 <= i < |zones| && off + n <= BLOCK_SIZE
    ensures i * 1024 + off + n <= |Raw(disk, zones)|
    ensures Raw(disk, zones)[i * 1024 + off..i * 1024 + off + n] == BlockAt(disk, zones[i])[off..off + n]
  {
    RawAt(disk, zones, i);
    assert Raw(disk, zones)[i * 1024..(i + 1) * 1024][off..off + n]
        == Raw(disk, zones)[i * 1024 + off..i * 1024 + off + n];
  }

  function RestWritten(raw: seq<bv8>, zone: int, buf: seq<bv8>): seq<bv8> {
    if 0 <= zone && |buf| < 2048 && zone * 1024 + |buf| <= |raw| && |raw| % 1024 == 0 then WriteRest(raw, zone, buf)
    else raw
  }

  function Get(files: map<int, File>, n: int): File {
    if n in files then files[n] else File([], 0, 0)
  }

  function Shortened(f: File, length: int): File {
    f.(bytes := Prefix(f.bytes, length))
  }

  lemma NotShortened(f: File, length: int)
    requires |f.bytes| <= length
    ensures Shortened(f, length) == f
  {
  }

  lemma PrefixAt<T>(s: seq<T>, n: int, i: int)
    requires 0 <= i < n <= |s|
    ensures i < |Prefix(s, n)| && Prefix(s, n)[i] == s[i]
  {
  }

  lemma ZoneInDisk(disk: Disk, mem: Inodes, n: int, z: int, zone: int)
    requires InvAt(disk, mem, n, z) && n in mem && 0 <= zone < MAX_ZONES
    ensures |mem[n].zone| == 9 && Key(DEV, mem[n].zone[zone]) in disk
  {
    hide HeldBy, Owned, Live, Area.Set;
    HeldLaws(disk, mem, n, z);
  }

  lemma InvInode(disk: Disk, mem: Inodes, n: int, z: int)
    requires InvAt(disk, mem, n, z) && n in mem
    ensures n in IMAP.Set(disk) && 1 <= n < NR_INODES
  {
  }

  /** The bytes of a file that lost its tail. */
  lemma ShorterFile(disk: Disk, d: DInode, disk': Disk, d': DInode)
    requires 0 <= d'.size <= d.size && d'.mode == d.mode && d'.nlink == d.nlink
    requires |d.zone| == 9 && d.size <= MAX_SIZE
    requires Raw(disk', Prefix(d'.zone, ZonesOf(d'.size)))
          == Resized(Raw(disk, Prefix(d.zone, ZonesOf(d.size))), 1024 * ZonesOf(d'.size))
    ensures FileOf(disk', d') == Shortened(FileOf(disk, d), d'.size)
  {
    var raw := Raw(disk, Prefix(d.zone, ZonesOf(d.size)));
    hide Raw;
    PrefixTwice(raw, 1024 * ZonesOf(d'.size), d'.size);
    PrefixTwice(raw, d.size, d'.size);
  }

  lemma FileFacts(disk: Disk, mem: Inodes, n: int)
    requires Inv(disk, mem) && n in mem
    ensures n in FsState.Files(disk, mem) && FsState.Files(disk, mem)[n] == FileOf(disk, mem[n])
    ensures |FileOf(disk, mem[n]).bytes| == mem[n].size
  {
    hide Area.Set, Owned, Slot, Raw;
    Settle(disk, mem, n);
    LoadedIsLive(disk, mem, n, ZonesOf(mem[n].size));
    InvFacts(disk, mem, n, ZonesOf(mem[n].size));
  }

  lemma InvFacts(disk: Disk, mem: Inodes, n: int, z: int)
    requires InvAt(disk, mem, n, z)
    ensures DiskOn(disk) && 0 in ZMAP.Set(disk) && |ZMAP.Set(disk)| <= 4096
    ensures n in mem ==> GoodInode(mem[n], n, z)
  {
    SubsetSize(ZMAP.Set(disk), RangeSet(4096));
    hide Area.Set, Slot, Raw;
    if n in mem {
      LoadedIsLive(disk, mem, n, z);
    }
  }

  /** The block numbers in `zone[lo..hi]`. */
  function BlockSet(zone: seq<int>, lo: int, hi: int): set<int> {
    set i | lo <= i < hi && 0 <= i < |zone| :: zone[i]
  }

  /** The state of the truncating loop: the blocks of zones `cur` to `from` have gone back. */
  ghost predicate Shrunk(disk0: Disk, mem0: Inodes, zone0: seq<int>, from: int,
                         disk: Disk, mem: Inodes, zone: seq<int>, cur: int, n: int) {
    && Prefix(zone, cur) == Prefix(zone0, cur) && |zone| == |zone0| == 9
    && OthersKept(disk0, mem0, from, disk, mem, cur, n)
    && Raw(disk, Prefix(zone, cur)) == Prefix(Raw(disk0, Prefix(zone0, from)), 1024 * cur)
    && ZMAP.Set(disk) == ZMAP.Set(disk0) - BlockSet(zone0, cur, from)
    && |ZMAP.Set(disk)| == |ZMAP.Set(disk0)| - (from - cur)
  }

  lemma ShrunkStart(disk: Disk, mem: Inodes, zone: seq<int>, from: int, n: int)
    requires 0 <= from < |zone| == 9
    ensures Shrunk(disk, mem, zone, from, disk, mem, zone, from, n)
  {
    hide OthersKept, Raw, Area.Set, Prefix;
    OthersKeptRefl(disk, mem, from, n);
    PrefixFacts(zone, from);
    PrefixFacts(Raw(disk, Prefix(zone, from)), 1024 * from);
    assert BlockSet(zone, from, from) == {};
  }

  lemma ShrunkOne(disk0: Disk, mem0: Inodes, zone0: seq<int>, from: int,
                  disk: Disk, mem: Inodes, zone: seq<int>, cur: int,
                  disk': Disk, mem': Inodes, zone': seq<int>, n: int)
    requires Shrunk(disk0, mem0, zone0, from, disk, mem, zone, cur, n) && 0 < cur <= from < |zone'| == 9
    requires OthersKept(disk, mem, cur, disk', mem', cur - 1, n) && Prefix(zone', cur - 1) == Prefix(zone, cur - 1)
    requires Raw(disk', Prefix(zone', cur - 1)) == Prefix(Raw(disk, Prefix(zone, cur)), 1024 * (cur - 1))
    requires ZMAP.Set(disk') == ZMAP.Set(disk) - BlockSet(zone, cur - 1, cur)
    requires |ZMAP.Set(disk')| == |ZMAP.Set(disk)| - 1
    ensures Shrunk(disk0, mem0, zone0, from, disk', mem', zone', cur - 1, n)
  {
    hide OthersKept, Raw, Area.Set, Prefix, BlockSet;
    OthersKeptTrans(disk0, mem0, from, disk, mem, cur, disk', mem', cur - 1, n);
    PrefixLess(zone, zone0, cur - 1);
    PrefixFacts(zone0, from);
    PrefixTwice(Raw(disk0, Prefix(zone0, from)), 1024 * cur, 1024 * (cur - 1));
  }

  lemma ShrunkFacts(disk0: Disk, mem0: Inodes, zone0: seq<int>, from: int,
                    disk: Disk, mem: Inodes, zone: seq<int>, cur: int, n: int)
    requires Shrunk(disk0, mem0, zone0, from, disk, mem, zone, cur, n)
    ensures OthersKept(disk0, mem0, from, disk, mem, cur, n)
    ensures Raw(disk, Prefix(zone, cur)) == Prefix(Raw(disk0, Prefix(zone0, from)), 1024 * cur)
    ensures ZMAP.Set(disk) == ZMAP.Set(disk0) - BlockSet(zone0, cur, from)
    ensures |ZMAP.Set(disk)| == |ZMAP.Set(disk0)| - (from - cur)
  {
    hide OthersKept, Raw, Area.Set, Prefix, BlockSet;
  }

  /** The bitmap has gained exactly the blocks of zones `from` to `to`, which were free; the zones
      below are as they were. */
  ghost predicate Took(used: set<int>, used': set<int>, zone: seq<int>, zone': seq<int>, from: int, to: int) {
    && Prefix(zone', from) == Prefix(zone, from)
    && used !! BlockSet(zone', from, to)
    && used' == used + BlockSet(zone', from, to)
  }

  lemma TookNone(used: set<int>, zone: seq<int>, from: int)
    ensures Took(used, used, zone, zone, from, from)
  {
    assert BlockSet(zone, from, from) == {};
  }

  lemma TookOne(used: set<int>, used': set<int>, zone: seq<int>, zone': seq<int>, from: int, to: int, b: int)
    requires Took(used, used', zone, zone', from, to) && 0 <= from <= to < |zone'| && b !in used'
    ensures Took(used, used' + {b}, zone, zone'[to := b], from, to + 1)
  {
    var zone'' := zone'[to := b];
    assert Prefix(zone'', from) == Prefix(zone', from);
    assert BlockSet(zone'', from, to + 1) == BlockSet(zone', from, to) + {b} by {
      assert forall i :: from <= i < to ==> zone''[i] == zone'[i];
      assert zone''[to] == b;
    }
  }

  lemma PrefixTwice<T>(s: seq<T>, m: int, n: int)
    requires 0 <= n <= m <= |s|
    ensures Prefix(Prefix(s, m), n) == Prefix(s, n)
  {
  }

  lemma PrefixFacts<T>(s: seq<T>, n: int)
    requires 0 <= n <= |s|
    ensures |Prefix(s, n)| == n && (n == |s| ==> Prefix(s, n) == s)
  {
  }

  /** Zone lists that agree below `cur + 1` name the same block there. */
  lemma PrefixLess(zone: seq<int>, zone0: seq<int>, cur: int)
    requires 0 <= cur < |zone| == |zone0| && Prefix(zone, cur + 1) == Prefix(zone0, cur + 1)
    ensures Prefix(zone, cur) == Prefix(zone0, cur)
    ensures BlockSet(zone, cur, cur + 1) == {zone0[cur]} == BlockSet(zone0, cur, cur + 1)
    ensures BlockSet(zone0, cur, cur) == {}
    ensures forall hi :: cur < hi ==> BlockSet(zone0, cur, hi) == BlockSet(zone0, cur + 1, hi) + {zone0[cur]}
  {
    assert zone[cur] == zone0[cur] by { assert Prefix(zone, cur + 1)[cur] == zone[cur]; }
    assert Prefix(zone, cur) == Prefix(Prefix(zone, cur + 1), cur);
  }

  lemma OthersKeptRefl(disk: Disk, mem: Inodes, z: int, n: int)
    ensures OthersKept(disk, mem, z, disk, mem, z, n)
  {
  }

  /** Division as C has it. */
  function TruncDiv(n: int, d: int): int
    requires d > 0
  {
    if n >= 0 then n / d else -(-n / d)
  }

  lemma TruncZones(length: int)
    ensures TruncDiv(length + 1023, 1024) >= 0 <==> length > -2047
    ensures length >= 0 ==> TruncDiv(length + 1023, 1024) == ZonesOf(length)
    ensures -2047 < length < 0 ==> TruncDiv(length + 1023, 1024) == 0
  {
  }

  /** The invariant has no room for a negative size. */
  lemma NegativeSize(disk: Disk, mem: Inodes, n: int)
    requires n in mem && mem[n].size < 0
    ensures !Inv(disk, mem)
  {
    hide InvAt;
    if Inv(disk, mem) {
      Settle(disk, mem, n);
      InvFacts(disk, mem, n, ZonesOf(mem[n].size));
    }
  }

  lemma SlotOnDisk(inum: int)
    requires 0 <= inum < SECTOR_BITS
    ensures 0 <= SlotKey(inum).blk < NR_BLOCKS
  {
  }

  lemma MarkBeyond(disk: Disk)
    requires DiskOn(disk)
    ensures IMAP.Home(84) in disk && DiskOn(MarkedInode(disk, 84, true))
    ensures IMAP.Set(MarkedInode(disk, 84, true)) == IMAP.Set(disk) + {84}
  {
    hide WithBit, Area.Set;
    assert IMAP.Home(84) == Key(DEV, 2);
    SetAfter(disk, IMAP, 84, true);
    OnlyBlockLaws(disk, MarkedInode(disk, 84, true), map[], 2);
  }

  /** The record of inode 84 lies in the first data block. */
  lemma WroteBeyond(disk: Disk, d: DInode, tail: seq<bv8>)
    requires DiskOn(disk) && d.inum == 84 && |d.zone| == 9 && |tail| == 24
    ensures SlotKey(84) == Key(DEV, 10) && SlotKey(84) in disk
    ensures IMAP.Set(WroteInode(disk, d, tail)) == IMAP.Set(disk)
    ensures Key(DEV, 10) in WroteInode(disk, d, tail)
    ensures WroteInode(disk, d, tail)[Key(DEV, 10)][..72] == Encode(d, tail)
  {
    hide Area.Set, Encode;
    InTableIff(84);
    OnlyBlockLaws(disk, WroteInode(disk, d, tail), map[], 10);
  }

  lemma RawByte(disk: Disk, zones: seq<int>, p: nat)
    requires p < 1024 * |zones|
    ensures p / 1024 < |zones| && Raw(disk, zones)[p] == BlockAt(disk, zones[p / 1024])[p % 1024]
  {
    hide Raw, BlockAt;
    var i := p / 1024;
    RawAt(disk, zones, i);
    assert Raw(disk, zones)[p] == Raw(disk, zones)[i * 1024..(i + 1) * 1024][p % 1024];
  }

  /** The file `f` with `record` over the start of block 10, if that is one of its blocks. */
  ghost function Hit(f: File, zone: seq<int>, record: seq<bv8>): File {
    f.(bytes := seq(|f.bytes|, p requires 0 <= p < |f.bytes| =>
                      if p / 1024 < |zone| && zone[p / 1024] == 10 && p % 1024 < |record|
                      then record[p % 1024] else f.bytes[p]))
  }

  ghost predicate RecordAt10(disk: Disk, disk': Disk, record: seq<bv8>) {
    forall b, q :: b >= DATA_START && 0 <= q < 1024 ==>
                     BlockAt(disk', b)[q] == if b == 10 && q < |record| then record[q] else BlockAt(disk, b)[q]
  }

  lemma HitFile(disk: Disk, disk': Disk, d: DInode, record: seq<bv8>)
    requires |d.zone| == 9 && 0 <= d.size <= MAX_SIZE && RecordAt10(disk, disk', record)
    requires forall i :: 0 <= i < ZonesOf(d.size) ==> d.zone[i] >= DATA_START
    ensures FileOf(disk', d) == Hit(FileOf(disk, d), d.zone, record)
  {
    hide Raw, BlockAt;
    var zones := Prefix(d.zone, ZonesOf(d.size));
    assert FileOf(disk, d).bytes == Raw(disk, zones)[..d.size] && FileOf(disk', d).bytes == Raw(disk', zones)[..d.size];
    forall p | 0 <= p < d.size
      ensures FileOf(disk', d).bytes[p] == Hit(FileOf(disk, d), d.zone, record).bytes[p]
    {
      RawByte(disk, zones, p);
      RawByte(disk', zones, p);
    }
  }

  /** What happens to the files when number 84 is handed out. */
  lemma BeyondFiles(disk: Disk, mem: Inodes, d: DInode, tail: seq<bv8>)
    requires Inv(disk, mem) && d.inum == 84 && |d.zone| == 9 && |tail| == 24
    requires IMAP.Home(84) in disk && SlotKey(84) in MarkedInode(disk, 84, true)
    ensures var disk' := WroteInode(MarkedInode(disk, 84, true), d, tail);
            var files, files' := FsState.Files(disk, mem), FsState.Files(disk', mem[84 := d]);
            && files'.Keys == files.Keys == Live(disk, mem).Keys
            && forall n :: n in files ==> files'[n] == Hit(files[n], Live(disk, mem)[n].zone, Encode(d, tail))
  {
    hide Raw, Hit, FileOf, Encode, RecordAt10, Owned, HeldBy;
    var disk1 := MarkedInode(disk, 84, true);
    var disk' := WroteInode(disk1, d, tail);
    SameLive(disk, mem, d, tail);
    RecordStored(disk, d, tail);
    hide Live, MarkedInode, WroteInode, Area.Set;
    forall n | n in Live(disk, mem)
      ensures FileOf(disk', Live(disk, mem)[n])
           == Hit(FileOf(disk, Live(disk, mem)[n]), Live(disk, mem)[n].zone, Encode(d, tail))
    {
      LiveZones(disk, mem, n);
      HitFile(disk, disk', Live(disk, mem)[n], Encode(d, tail));
    }
  }

  lemma SameLive(disk: Disk, mem: Inodes, d: DInode, tail: seq<bv8>)
    requires Inv(disk, mem) && d.inum == 84 && |d.zone| == 9 && |tail| == 24
    requires IMAP.Home(84) in disk && SlotKey(84) in MarkedInode(disk, 84, true)
    ensures Live(WroteInode(MarkedInode(disk, 84, true), d, tail), mem[84 := d]) == Live(disk, mem)
  {
    hide Slot, SlotKey, Area.Set, WithBit, Encode, MarkedInode, WroteInode, HeldBy, AllGood, Owned;
    var disk' := WroteInode(MarkedInode(disk, 84, true), d, tail);
    MarkBeyond(disk);
    WroteBeyond(MarkedInode(disk, 84, true), d, tail);
    forall n | 1 <= n < NR_INODES
      ensures SlotKey(n) in disk && SlotKey(n) in disk' && Slot(disk', n) == Slot(disk, n)
    {
      SameSlot(disk, d, tail, n);
    }
  }

  lemma SameSlot(disk: Disk, d: DInode, tail: seq<bv8>, n: int)
    requires DiskOn(disk) && d.inum == 84 && |d.zone| == 9 && |tail| == 24 && 1 <= n < NR_INODES
    requires IMAP.Home(84) in disk && SlotKey(84) in MarkedInode(disk, 84, true)
    ensures var disk' := WroteInode(MarkedInode(disk, 84, true), d, tail);
            SlotKey(n) in disk && SlotKey(n) in disk' && Slot(disk', n) == Slot(disk, n)
  {
    hide Slot, Area.Set, WithBit, Encode, Splice;
    MarkBeyond(disk);
    InTableIff(84);
    var disk1 := MarkedInode(disk, 84, true);
    SlotOffBlock(disk, disk1, 2, n);
    SlotOffBlock(disk1, WroteInode(disk1, d, tail), 10, n);
  }

  lemma RecordStored(disk: Disk, d: DInode, tail: seq<bv8>)
    requires DiskOn(disk) && d.inum == 84 && |d.zone| == 9 && |tail| == 24
    requires IMAP.Home(84) in disk && SlotKey(84) in MarkedInode(disk, 84, true)
    ensures RecordAt10(disk, WroteInode(MarkedInode(disk, 84, true), d, tail), Encode(d, tail))
  {
    hide WithBit, Encode;
    InTableIff(84);
    assert IMAP.Home(84) == Key(DEV, 2);
    var disk1, record := MarkedInode(disk, 84, true), Encode(d, tail);
    var disk' := WroteInode(disk1, d, tail);
    assert Key(DEV, 10) in disk && disk1[Key(DEV, 10)] == disk[Key(DEV, 10)];
    assert BlockAt(disk', 10) == Splice(BlockAt(disk, 10), 0, record);
    assert forall b :: b >= DATA_START && b != 10 ==> BlockAt(disk', b) == BlockAt(disk, b);
  }

  lemma LiveZones(disk: Disk, mem: Inodes, n: int)
    requires Inv(disk, mem) && n in Live(disk, mem)
    ensures var d := Live(disk, mem)[n];
            && |d.zone| == 9 && 0 <= d.size <= MAX_SIZE
            && forall i :: 0 <= i < ZonesOf(d.size) ==> d.zone[i] >= DATA_START
  {
    hide Area.Set, Slot, SlotKey, Owned;
    var d, held := Live(disk, mem)[n], HeldBy(Live(disk, mem), 0, 0);
    assert n >= 1 && n in held;
    DataBlocks(held, ZMAP.Set(disk), n);
    assert held[n] == Prefix(d.zone, ZonesOf(d.size));
  }

  /** With nothing in memory the disk is a file system with a root. */
  ghost predicate Formatted(disk: Disk) {
    Inv(disk, map[]) && 1 in FsState.Files(disk, map[])
  }

  class Fs {
    const cache: BufferCache
    var inodes: seq<Inode>
    ghost var loaded: map<int, Inode>  // the inode list by inode number

    ghost predicate ListOk()
      reads this, inodes
    {
      && Distinct(inodes)
      && (forall x :: x in inodes ==> x.inum in loaded && loaded[x.inum] == x)
      && (forall n :: n in loaded ==> loaded[n] in inodes && loaded[n].inum == n)
    }

    ghost function Mem(): Inodes
      reads this`loaded, set n | n in loaded :: loaded[n]
    {
      map n | n in loaded :: loaded[n].Value()
    }

    ghost predicate ValidAt(n: int, z: int)
      reads this, cache, cache.buffers, inodes
      reads set n | n in loaded :: loaded[n]
    {
      cache.Quiet() && ListOk() && InvAt(cache.disk, Mem(), n, z)
    }

    ghost predicate Valid()
      reads this, cache, cache.buffers, inodes
      reads set n | n in loaded :: loaded[n]
    {
      && ValidAt(0, 0)
      && forall x :: x in inodes ==> x.refcnt > 0
    }

    ghost function Files(): map<int, File>
      reads this`loaded, cache`disk, set n | n in loaded :: loaded[n]
    {
      FsState.Files(cache.disk, Mem())
    }

    constructor (cache: BufferCache)
      ensures this.cache == cache && inodes == [] && loaded == map[]
    {
      this.cache := cache;
      inodes := [];
      loaded := map[];
    }

    /** `mkfs`: the superblock, the bitmaps, in which inodes 0 and 1 and the first ten blocks are taken, and
        the root inode. */
    method Mkfs()
      requires cache.Quiet() && Blocks(cache.disk)
      modifies cache`freeList, cache`cached, cache`holder, cache`disk, cache.buffers
      ensures cache.Quiet() && HasLayout(cache.disk) && Inv(cache.disk, map[])
      ensures FsState.Files(cache.disk, map[]) == map[1 := File([], 0, 2)]
      ensures ZMAP.Set(cache.disk) == RangeSet(DATA_START)
      ensures IMAP.Set(cache.disk) == RangeSet(2)
    {
      hide Area.Set, BufferCache.Quiet, WithBit, RangeSet, Slot, SlotKey, Live, InvAt, FsState.Files, HasLayout, Blocks;
      WriteSuper();
      FormatMap(2, 2);
      label Maps:
      FormatMap(3, DATA_START);
      OnlyBlockLaws(old@Maps(cache.disk), cache.disk, map[], 3);
      FormatRoot();
      MkfsState(cache.disk);
    }

    /** `write_super` of the layout. */
    method WriteSuper()
      requires cache.Quiet() && Blocks(cache.disk)
      modifies cache`freeList, cache`cached, cache`holder, cache`disk, cache.buffers
      ensures cache.Quiet() && DiskOn(cache.disk) && OnlyBlock(old(cache.disk), cache.disk, 1)
    {
      hide BufferCache.Quiet, EncodeSuper, DecodeSuper;
      assert |seq(2, _ => 0 as bv8)| == 2;
      var pad: seq<bv8> :| |pad| == 2;
      LayoutStored(cache.disk[SUPER_KEY], pad);
      cache.Save(DEV, 1, 0, EncodeSuper(Layout(), pad));
    }

    /** `read_super`. */
    method ReadSuper() returns (sb: Super)
      requires cache.Quiet() && Blocks(cache.disk)
      modifies cache`freeList, cache`cached, cache`holder, cache`disk, cache.buffers
      ensures cache.Quiet() && cache.disk == old(cache.disk) && sb == SuperOf(cache.disk[SUPER_KEY])
    {
      hide BufferCache.Quiet, DecodeSuper;
      var bytes := cache.Load(DEV, 1, 0, SUPER_SIZE);
      sb := DecodeSuper(bytes).(dev := DEV);
    }

    /** `fs_init`: a disk whose superblock has the magic number is taken as it is, with all its files; any
        other becomes an empty file system. That the former is one is for the caller to know. */
    method Init() returns (root: Inode)
      requires cache.Quiet() && Blocks(cache.disk) && inodes == [] && loaded == map[]
      requires HasMagic(cache.disk) ==> Formatted(cache.disk)
      modifies this`inodes, this`loaded, cache`freeList, cache`cached, cache`holder, cache`disk, cache.buffers
      ensures Valid() && HasLayout(cache.disk)
      ensures if old(HasMagic(cache.disk)) then
                cache.disk == old(cache.disk) && Files() == old(FsState.Files(cache.disk, map[]))
              else
                Files() == map[1 := File([], 0, 2)]
                && ZMAP.Set(cache.disk) == RangeSet(DATA_START) && IMAP.Set(cache.disk) == RangeSet(2)
      ensures inodes == [root] && fresh(root) && root.inum == 1 && root.refcnt == 1
    {
      hide Area.Set, InvAt, BufferCache.Quiet, FsState.Files, RangeSet, SuperOf;
      var sb := ReadSuper();
      if sb.magic != SUPER_MAGIC {
        Mkfs();
      }
      InvFacts(cache.disk, map[], 0, 0);
      sb := ReadSuper();
      assert sb == Layout();
      root := Mount();
    }

    /** The end of `fs_init`: the root is loaded, and the files are those of the disk. */
    method Mount() returns (root: Inode)
      requires cache.Quiet() && inodes == [] && loaded == map[]
      requires Formatted(cache.disk)
      modifies this`inodes, this`loaded, cache`freeList, cache`cached, cache`holder, cache`disk, cache.buffers
      ensures Valid() && Files() == old(FsState.Files(cache.disk, map[])) && cache.disk == old(cache.disk)
      ensures inodes == [root] && fresh(root) && root.inum == 1 && root.refcnt == 1
    {
      hide Inv, InvAt, BufferCache.Quiet, FsState.Files;
      assert Mem() == map[] && ListOk();
      StartsValid();
      root := LoadInode(1);
    }

    lemma StartsValid()
      requires cache.Quiet() && inodes == [] && loaded == map[] && Inv(cache.disk, map[])
      ensures Valid()
    {
      hide InvAt, BufferCache.Quiet;
      assert Mem() == map[];
    }

    /** When every loaded inode is on the disk as it is in memory, the disk alone holds the files: so it
        is once the last reference to every inode is gone. */
    lemma Persistent()
      requires Valid() && forall n :: n in loaded ==> SlotKey(n) in cache.disk && Slot(cache.disk, n) == Mem()[n]
      ensures Inv(cache.disk, map[]) && FsState.Files(cache.disk, map[]) == Files()
      ensures Blocks(cache.disk) && HasMagic(cache.disk)
    {
      hide InvAt, BufferCache.Quiet, FsState.Files, Slot, SlotKey, Live, SuperOf;
      InvFacts(cache.disk, Mem(), 0, 0);
      LayoutRead(cache.disk);
      forall n | n in Mem()
        ensures SlotKey(n) in cache.disk && Slot(cache.disk, n) == Mem()[n]
      {
        MemKeys(n);
      }
      LoadStep(cache.disk, Mem(), map[]);
    }

    /** The root inode is written to the table. */
    method FormatRoot()
      requires cache.Quiet() && DiskOn(cache.disk) && 1 in IMAP.Set(cache.disk)
      modifies cache`freeList, cache`cached, cache`holder, cache`disk, cache.buffers
      ensures cache.Quiet() && DiskOn(cache.disk)
      ensures IMAP.Set(cache.disk) == old(IMAP.Set(cache.disk)) && ZMAP.Set(cache.disk) == old(ZMAP.Set(cache.disk))
      ensures SlotKey(1) in cache.disk && Slot(cache.disk, 1) == RootInode()
    {
      hide Area.Set, BufferCache.Quiet, WroteInode, SlotKey, Slot, DiskOn;
      var root := new Inode(RootInode());
      ghost var tail := WriteInode(root);
      RootSlot(old(cache.disk), tail);
      OnlyBlockLaws(old(cache.disk), cache.disk, map[], 4);
      RootSlotKey(cache.disk);
    }

    /** One bitmap block of `mkfs`: cleared, then its first `n` bits set. */
    method FormatMap(blk: int, n: nat)
      requires cache.Quiet() && DiskOn(cache.disk) && 2 <= blk < NR_BLOCKS && n <= SECTOR_BITS
      modifies cache`freeList, cache`cached, cache`holder, cache`disk, cache.buffers
      ensures cache.Quiet() && DiskOn(cache.disk) && OnlyBlock(old(cache.disk), cache.disk, blk)
      ensures Area(DEV, blk, blk + 1).Set(cache.disk) == RangeSet(n)
    {
      var data := new bv8[1024](_ => 0);
      SetNBit(data, n);
      SpliceAll(cache.disk[Key(DEV, blk)], data[..]);
      cache.Save(DEV, blk, 0, data[..]);
      SetOfBits(cache.disk, blk, n);
    }

    lemma LoadedFacts(ip: Inode)
      requires ListOk() && ip in inodes
      ensures ip.inum in Mem() && Mem()[ip.inum] == ip.Value() && Mem() == Mem()[ip.inum := ip.Value()]
    {
    }

    /** What a loaded inode and the disk are like in the middle of an operation. */
    lemma AtFacts(ip: Inode, z: int)
      requires ip in inodes && ValidAt(ip.inum, z)
      ensures ip.inum in Mem() && Mem()[ip.inum] == ip.Value() && Mem() == Mem()[ip.inum := ip.Value()]
      ensures GoodInode(ip.Value(), ip.inum, z) && DiskOn(cache.disk) && |ZMAP.Set(cache.disk)| <= 4096
    {
      hide InvAt, BufferCache.Quiet, Area.Set;
      LoadedFacts(ip);
      InvFacts(cache.disk, Mem(), ip.inum, z);
    }

    /** What a loaded inode says is its file. */
    lemma FileOfLoaded(ip: Inode)
      requires Valid() && ip in inodes
      ensures ip.inum in Files() && Files()[ip.inum] == FileOf(cache.disk, ip.Value())
      ensures |Files()[ip.inum].bytes| == ip.size <= MAX_SIZE && |ip.zone| == 9
    {
      hide InvAt, BufferCache.Quiet, FileOf, FsState.Files;
      LoadedFacts(ip);
      Settle(cache.disk, Mem(), ip.inum);
      InvFacts(cache.disk, Mem(), ip.inum, ZonesOf(ip.size));
      FileFacts(cache.disk, Mem(), ip.inum);
    }

    /** `_get_blk`. */
    method GetBlk() returns (b: int)
      requires cache.Quiet() && DiskOn(cache.disk)
      requires 0 in ZMAP.Set(cache.disk) && |ZMAP.Set(cache.disk)| < 4096
      modifies cache`freeList, cache`cached, cache`holder, cache`disk, cache.buffers
      ensures cache.Quiet()
      ensures 0 <= b < NR_BLOCKS && b !in old(ZMAP.Set(cache.disk))
      ensures forall i :: 0 <= i < b ==> i in old(ZMAP.Set(cache.disk))
      ensures ZMAP.Home(b) in old(cache.disk) && cache.disk == GotBlock(old(cache.disk), b)
    {
      hide Area.Test, WithBit, BufferCache.Quiet;
      FreeBit(cache.disk, ZMAP);
      b := BitmapAlloc(cache, ZMAP);
      assert ZMAP.Test(old(cache.disk), 0);
      if b != 0 {
        SpliceAll(cache.disk[Key(DEV, b)], Zeros());
        cache.Save(DEV, b, 0, Zeros());
      }
    }

    /** `write_inode`: the bytes of pointers and counters that go along do not matter. */
    method WriteInode(ip: Inode) returns (ghost tail: seq<bv8>)
      requires cache.Quiet() && DiskOn(cache.disk)
      requires ip.inum in IMAP.Set(cache.disk) && 1 <= ip.inum && |ip.zone| == 9
      modifies cache`freeList, cache`cached, cache`holder, cache`disk, cache.buffers
      ensures cache.Quiet() && |tail| == 24 && SlotKey(ip.inum) in old(cache.disk)
      ensures cache.disk == WroteInode(old(cache.disk), ip.Value(), tail)
    {
      hide Area.Set, BufferCache.Quiet;
      var exists_ := BitmapTest(cache, IMAP, ip.inum);
      assert exists_;
      SlotOnDisk(ip.inum);
      assert |seq(24, _ => 0 as bv8)| == 24;
      var bytes: seq<bv8> :| |bytes| == 24;
      tail := bytes;
      cache.Save(SlotKey(ip.inum).dev, SlotKey(ip.inum).blk, SlotOff(ip.inum), Encode(ip.Value(), bytes));
    }

    /** `read_inode`. */
    method ReadInode(ip: Inode, inum: int)
      requires cache.Quiet() && DiskOn(cache.disk)
      requires inum in IMAP.Set(cache.disk) && 1 <= inum < NR_INODES
      requires SlotKey(inum) in cache.disk ==> Slot(cache.disk, inum).inum == inum
      modifies cache`freeList, cache`cached, cache`holder, cache`disk, cache.buffers
      modifies ip`inum, ip`size, ip`mode, ip`nlink, ip`zone
      ensures cache.Quiet() && cache.disk == old(cache.disk)
      ensures SlotKey(inum) in cache.disk && ip.Value() == Slot(cache.disk, inum)
    {
      hide Area.Set, BufferCache.Quiet, Decode;
      var exists_ := BitmapTest(cache, IMAP, inum);
      assert exists_;
      SlotFacts(cache.disk, inum);
      hide SlotKey, SlotOff, DiskOn;
      var bytes := cache.Load(SlotKey(inum).dev, SlotKey(inum).blk, SlotOff(inum), INODE_SIZE);
      var d := Decode(bytes);
      ip.inum := inum;
      assert ip.inum == d.inum;
      ip.size, ip.mode, ip.nlink, ip.zone := d.size, d.mode, d.nlink, d.zone;
    }

    static lemma SlotFacts(disk: Disk, inum: int)
      requires DiskOn(disk) && 1 <= inum < NR_INODES
      ensures SlotKey(inum) in disk && SlotKey(inum) == Key(SlotKey(inum).dev, SlotKey(inum).blk)
    {
      SlotsDisjoint(inum, inum);
    }

    /** `_set_zone_blk`: indirect zones panic. */
    method SetZoneBlk(ip: Inode, zone: int, b: int)
      requires ListOk() && ip in inodes && 0 <= zone < MAX_ZONES && |ip.zone| == 9
      modifies ip`zone
      ensures ListOk() && ip.Value() == WithZone(old(ip.Value()), zone, b)
      ensures Mem() == old(Mem())[ip.inum := ip.Value()]
    {
      assert forall n :: n in loaded && n != ip.inum ==> loaded[n] != ip;
      ip.zone := ip.zone[zone := b];
    }

    /** `_get_zone_blk`: a zone past the size, or an indirect one, panics. */
    method GetZoneBlk(ip: Inode, zone: int) returns (b: int)
      requires 0 <= zone && ZoneOk(ip.size, zone) && |ip.zone| == 9
      ensures b == ip.zone[zone]
    {
      b := ip.zone[zone];
    }

    /** One turn of the growing loop of `_reserve_zone`. */
    method GrowOne(ip: Inode, cur: int) returns (next: int)
      requires ip in inodes && ValidAt(ip.inum, cur) && 0 <= cur < MAX_ZONES
      requires |ZMAP.Set(cache.disk)| < 4096
      modifies ip`zone, cache`freeList, cache`cached, cache`holder, cache`disk, cache.buffers
      ensures next == cur + 1 && ValidAt(ip.inum, next)
      ensures Mem() == old(Mem())[ip.inum := ip.Value()]
      ensures OthersKept(old(cache.disk), old(Mem()), cur, cache.disk, Mem(), next, ip.inum)
      ensures Raw(cache.disk, Prefix(ip.zone, next)) == Raw(old(cache.disk), Prefix(old(ip.zone), cur)) + Zeros()
      ensures |ip.zone| == |old(ip.zone)| == 9 && ip.zone == old(ip.zone)[cur := ip.zone[cur]]
      ensures ip.zone[cur] !in old(ZMAP.Set(cache.disk))
      ensures ZMAP.Set(cache.disk) == old(ZMAP.Set(cache.disk)) + {ip.zone[cur]}
    {
      hide Area.Set, InvAt, OthersKept, GotBlock, BufferCache.Quiet, Raw, ListOk, Mem;
      ghost var disk, mem := cache.disk, Mem();
      LoadedFacts(ip);
      InvFacts(disk, mem, ip.inum, cur);
      var b := GetBlk();
      GrowStep(disk, mem, ip.inum, cur, b);
      SetZoneBlk(ip, cur, b);
      next := cur + 1;
    }

    /** The growing loop of `_reserve_zone`: fresh zeroed blocks behind the old ones. */
    method GrowZones(ip: Inode, from: int, nzone: int)
      requires ip in inodes && ValidAt(ip.inum, from) && 0 <= from < nzone <= MAX_ZONES
      requires |ZMAP.Set(cache.disk)| + (nzone - from) <= 4096
      modifies ip`zone, cache`freeList, cache`cached, cache`holder, cache`disk, cache.buffers
      ensures ValidAt(ip.inum, nzone)
      ensures Mem() == old(Mem())[ip.inum := ip.Value()]
      ensures OthersKept(old(cache.disk), old(Mem()), from, cache.disk, Mem(), nzone, ip.inum)
      ensures Raw(cache.disk, Prefix(ip.zone, nzone))
           == Raw(old(cache.disk), Prefix(old(ip.zone), from)) + ZeroBytes(1024 * (nzone - from))
      ensures |ZMAP.Set(cache.disk)| == old(|ZMAP.Set(cache.disk)|) + (nzone - from)
      ensures Took(old(ZMAP.Set(cache.disk)), ZMAP.Set(cache.disk), old(ip.zone), ip.zone, from, nzone)
    {
      hide Area.Set, InvAt, OthersKept, GotBlock, BufferCache.Quiet, Raw, ListOk, Mem, Took, Slot, SlotKey, Live,
           ValidAt, Prefix;
      ghost var n := ip.inum;
      ghost var disk0, mem0 := cache.disk, Mem();
      var cur := from;
      AtFacts(ip, from);
      OthersKeptRefl(disk0, mem0, from, n);
      TookNone(ZMAP.Set(disk0), ip.zone, from);
      assert ZeroBytes(0) == [];
      while cur != nzone
        invariant from <= cur <= nzone && ip in inodes && ip.inum == n
        invariant ValidAt(n, cur)
        invariant Mem() == mem0[n := ip.Value()]
        invariant OthersKept(disk0, mem0, from, cache.disk, Mem(), cur, n)
        invariant Raw(cache.disk, Prefix(ip.zone, cur))
               == Raw(disk0, Prefix(old(ip.zone), from)) + ZeroBytes(1024 * (cur - from))
        invariant |ZMAP.Set(cache.disk)| == |ZMAP.Set(disk0)| + (cur - from)
        invariant Took(ZMAP.Set(disk0), ZMAP.Set(cache.disk), old(ip.zone), ip.zone, from, cur)
      {
        ghost var disk, mem, was, zone := cache.disk, Mem(), cur, ip.zone;
        cur := GrowOne(ip, cur);
        TookOne(ZMAP.Set(disk0), ZMAP.Set(disk), old(ip.zone), zone, from, was, ip.zone[was]);
        OthersKeptTrans(disk0, mem0, from, disk, mem, was, cache.disk, Mem(), cur, n);
      }
    }

    /** One turn of the truncating loop of `_reserve_zone`. */
    method ShrinkOne(ip: Inode, cur: int) returns (next: int)
      requires ip in inodes && ValidAt(ip.inum, cur) && 0 < cur <= ZonesOf(ip.size) + 1
      modifies ip`zone, cache`freeList, cache`cached, cache`holder, cache`disk, cache.buffers
      ensures next == cur - 1 && ValidAt(ip.inum, next)
      ensures Mem() == old(Mem())[ip.inum := ip.Value()]
      ensures OthersKept(old(cache.disk), old(Mem()), cur, cache.disk, Mem(), next, ip.inum)
      ensures Raw(cache.disk, Prefix(ip.zone, next))
           == Prefix(Raw(old(cache.disk), Prefix(old(ip.zone), cur)), 1024 * next)
      ensures Prefix(ip.zone, next) == Prefix(old(ip.zone), next) && |ip.zone| == |old(ip.zone)| == 9
      ensures ZMAP.Set(cache.disk) == old(ZMAP.Set(cache.disk)) - BlockSet(old(ip.zone), next, cur)
      ensures |ZMAP.Set(cache.disk)| == old(|ZMAP.Set(cache.disk)|) - 1
    {
      hide Area.Set, InvAt, OthersKept, BufferCache.Quiet, Raw, WithBit, ListOk, Mem;
      ghost var disk, mem := cache.disk, Mem();
      LoadedFacts(ip);
      InvFacts(disk, mem, ip.inum, cur);
      ShrinkStep(disk, mem, ip.inum, cur);
      next := cur - 1;
      PrefixLess(ip.zone, ip.zone, next);
      var blk := GetZoneBlk(ip, next);
      SetZoneBlk(ip, next, 0);
      BitmapFree(cache, ZMAP, blk);
    }

    /** The truncating loop of `_reserve_zone`: the blocks behind `nzone` go back. */
    method ShrinkZones(ip: Inode, from: int, nzone: int)
      requires ip in inodes && ValidAt(ip.inum, from) && 0 <= nzone < from <= ZonesOf(ip.size)
      modifies ip`zone, cache`freeList, cache`cached, cache`holder, cache`disk, cache.buffers
      ensures ValidAt(ip.inum, nzone)
      ensures Mem() == old(Mem())[ip.inum := ip.Value()]
      ensures OthersKept(old(cache.disk), old(Mem()), from, cache.disk, Mem(), nzone, ip.inum)
      ensures Raw(cache.disk, Prefix(ip.zone, nzone))
           == Prefix(Raw(old(cache.disk), Prefix(old(ip.zone), from)), 1024 * nzone)
      ensures ZMAP.Set(cache.disk) == old(ZMAP.Set(cache.disk)) - BlockSet(old(ip.zone), nzone, from)
      ensures |ZMAP.Set(cache.disk)| == old(|ZMAP.Set(cache.disk)|) - (from - nzone)
    {
      hide Area.Set, InvAt, OthersKept, BufferCache.Quiet, Raw, Prefix, BlockSet, ListOk, Mem, Shrunk;
      ghost var n := ip.inum;
      ghost var disk0, mem0, zone0 := cache.disk, Mem(), ip.zone;
      var cur := from;
      LoadedFacts(ip);
      InvFacts(disk0, mem0, n, from);
      ShrunkStart(disk0, mem0, zone0, from, n);
      while cur != nzone
        invariant nzone <= cur <= from && ip in inodes && ip.inum == n && ip.size == old(ip.size)
        invariant ValidAt(n, cur)
        invariant Mem() == mem0[n := ip.Value()]
        invariant Shrunk(disk0, mem0, zone0, from, cache.disk, Mem(), ip.zone, cur, n)
      {
        ghost var disk, mem, zone := cache.disk, Mem(), ip.zone;
        cur := ShrinkOne(ip, cur);
        ShrunkOne(disk0, mem0, zone0, from, disk, mem, zone, cur + 1, cache.disk, Mem(), ip.zone, n);
      }
      ShrunkFacts(disk0, mem0, zone0, from, cache.disk, Mem(), ip.zone, cur, n);
    }

    /** `_reserve_zone`. */
    method ReserveZone(ip: Inode, nzone: int, truncate: bool) returns (ghost z: int)
      requires ip in inodes && ValidAt(ip.inum, ZonesOf(ip.size)) && 0 <= nzone <= MAX_ZONES
      requires |ZMAP.Set(cache.disk)| + nzone - ZonesOf(ip.size) <= 4096
      modifies ip`zone, cache`freeList, cache`cached, cache`holder, cache`disk, cache.buffers
      ensures z == if ZonesOf(ip.size) < nzone || truncate then nzone else ZonesOf(ip.size)
      ensures ValidAt(ip.inum, z)
      ensures Mem() == old(Mem())[ip.inum := ip.Value()]
      ensures OthersKept(old(cache.disk), old(Mem()), ZonesOf(ip.size), cache.disk, Mem(), z, ip.inum)
      ensures Raw(cache.disk, Prefix(ip.zone, z))
           == Resized(Raw(old(cache.disk), Prefix(old(ip.zone), ZonesOf(ip.size))), 1024 * z)
      ensures z <= ZonesOf(ip.size) ==>
                ZMAP.Set(cache.disk) == old(ZMAP.Set(cache.disk)) - BlockSet(old(ip.zone), z, ZonesOf(ip.size))
      ensures |ZMAP.Set(cache.disk)| == old(|ZMAP.Set(cache.disk)|) + z - ZonesOf(ip.size)
      ensures z >= ZonesOf(ip.size) ==>
                Took(old(ZMAP.Set(cache.disk)), ZMAP.Set(cache.disk), old(ip.zone), ip.zone, ZonesOf(ip.size), z)
    {
      hide Area.Set, InvAt, OthersKept, BufferCache.Quiet, Raw, BlockSet, ListOk, Mem, Took;
      ghost var m0, zone0 := ZMAP.Set(cache.disk), ip.zone;
      LoadedFacts(ip);
      InvFacts(cache.disk, Mem(), ip.inum, ZonesOf(ip.size));
      OthersKeptRefl(cache.disk, Mem(), ZonesOf(ip.size), ip.inum);
      PrefixLess(ip.zone, ip.zone, ZonesOf(ip.size));
      TookNone(m0, zone0, ZonesOf(ip.size));
      var cur := ZonesOf(ip.size);
      z := cur;
      if cur < nzone {
        GrowZones(ip, cur, nzone);
        z := nzone;
      } else if cur > nzone && truncate {
        ShrinkZones(ip, cur, nzone);
        z := nzone;
      }
    }

    /** `inode->i_size = size`. */
    method SetSize(ip: Inode, size: int)
      requires ListOk() && ip in inodes
      modifies ip`size
      ensures ListOk() && ip.size == size && Mem() == old(Mem())[ip.inum := ip.Value()]
    {
      assert forall n :: n in loaded && n != ip.inum ==> loaded[n] != ip;
      ip.size := size;
    }

    /** A new link count, in memory and, by `write_inode`, on the disk. */
    method SetNlink(ip: Inode, nlink: int)
      requires Valid() && ip in inodes && 0 <= nlink < 0x8000
      modifies ip`nlink, cache`freeList, cache`cached, cache`holder, cache`disk, cache.buffers
      ensures Valid() && ip.nlink == nlink && ip.inum in old(Files())
      ensures Files() == old(Files())[ip.inum := Get(old(Files()), ip.inum).(nlink := nlink)]
      ensures ZMAP.Set(cache.disk) == old(ZMAP.Set(cache.disk))
    {
      hide Area.Set, InvAt, OthersKept, BufferCache.Quiet, Raw, ListOk, Mem, FsState.Files, Slot, SlotKey;
      ghost var n, disk, mem, z := ip.inum, cache.disk, Mem(), ZonesOf(ip.size);
      LoadedFacts(ip);
      Settle(disk, mem, n);
      InvFacts(disk, mem, n, z);
      FileFacts(disk, mem, n);
      StoreNlink(ip, nlink);
      MetaStep(disk, mem, n, z, ip.Value());
      Settle(disk, Mem(), n);
      FilesAfter(disk, mem, disk, Mem(), n);
      SyncInode(ip);
    }

    method StoreNlink(ip: Inode, nlink: int)
      requires ListOk() && ip in inodes
      modifies ip`nlink
      ensures ListOk() && ip.nlink == nlink && Mem() == old(Mem())[ip.inum := ip.Value()]
    {
      assert forall n :: n in loaded && n != ip.inum ==> loaded[n] != ip;
      ip.nlink := nlink;
    }

    /** What `sys_truncate` does to the inode it finds: the file keeps its first `length` bytes and the
        blocks behind them go back. A negative length is accepted too, down to the first that makes
        `_reserve_zone` run below zone 0; it leaves a negative size, and exactly then the file system
        invariant is gone. */
    method Truncate(ip: Inode, length: int)
      requires Valid() && ip in inodes && TruncDiv(length + 1023, 1024) >= 0
      modifies ip`zone, ip`size, cache`freeList, cache`cached, cache`holder, cache`disk, cache.buffers
      ensures Valid() <==> 0 <= length
      ensures ip.inum in old(Files()) && old(ip.size) == |Get(old(Files()), ip.inum).bytes|
      ensures length < old(ip.size) ==> ip.size == length
      ensures 0 <= length < old(ip.size) ==>
                (Raw(cache.disk, Prefix(ip.zone, ZonesOf(length)))
                 == Resized(Raw(old(cache.disk), Prefix(old(ip.zone), ZonesOf(old(ip.size)))), 1024 * ZonesOf(length)))
      ensures 0 <= length ==> Files() == old(Files())[ip.inum := Shortened(Get(old(Files()), ip.inum), length)]
      ensures ZMAP.Set(cache.disk) ==
              if length < old(ip.size)
              then old(ZMAP.Set(cache.disk))
                   - BlockSet(old(ip.zone), TruncDiv(length + 1023, 1024), ZonesOf(old(ip.size)))
              else old(ZMAP.Set(cache.disk))
    {
      hide Area.Set, InvAt, OthersKept, BufferCache.Quiet, Raw, BlockSet, ListOk, Mem, FsState.Files, TruncDiv,
           Prefix, Took, Slot, SlotKey, Resized;
      ghost var n, disk0, mem0, d0 := ip.inum, cache.disk, Mem(), ip.Value();
      LoadedFacts(ip);
      Settle(disk0, mem0, n);
      FileFacts(disk0, mem0, n);
      InvFacts(disk0, mem0, n, ZonesOf(ip.size));
      if length < ip.size {
        Cut(ip, length);
        if length >= 0 {
          LoadedFacts(ip);
          Settle(cache.disk, Mem(), n);
          FilesAfter(disk0, mem0, cache.disk, Mem(), n);
          ShorterFile(disk0, d0, cache.disk, ip.Value());
        }
      } else {
        ghost var f := Files()[n];
        NotShortened(f, length);
        assert Files()[n := f] == Files();
      }
    }

    /** The branch of `sys_truncate` for a shorter length, in terms of zones. */
    method Cut(ip: Inode, length: int)
      requires ip in inodes && ValidAt(ip.inum, ZonesOf(ip.size))
      requires length < ip.size && TruncDiv(length + 1023, 1024) >= 0
      modifies ip`zone, ip`size, cache`freeList, cache`cached, cache`holder, cache`disk, cache.buffers
      ensures ip.size == length && Mem() == old(Mem())[ip.inum := ip.Value()]
      ensures length < 0 ==> !Inv(cache.disk, Mem())
      ensures 0 <= length ==> ValidAt(ip.inum, ZonesOf(length))
      ensures 0 <= length ==>
                OthersKept(old(cache.disk), old(Mem()), ZonesOf(old(ip.size)),
                           cache.disk, Mem(), ZonesOf(length), ip.inum)
      ensures 0 <= length ==>
                (Raw(cache.disk, Prefix(ip.zone, ZonesOf(length)))
                 == Resized(Raw(old(cache.disk), Prefix(old(ip.zone), ZonesOf(old(ip.size)))), 1024 * ZonesOf(length)))
      ensures ZMAP.Set(cache.disk) ==
              old(ZMAP.Set(cache.disk)) - BlockSet(old(ip.zone), TruncDiv(length + 1023, 1024), ZonesOf(old(ip.size)))
    {
      hide Area.Set, InvAt, OthersKept, BufferCache.Quiet, Raw, BlockSet, ListOk, Mem, TruncDiv,
           Prefix, Took, Slot, SlotKey, Resized;
      ghost var n, disk0, mem0, size0 := ip.inum, cache.disk, Mem(), ip.size;
      LoadedFacts(ip);
      InvFacts(disk0, mem0, n, ZonesOf(ip.size));
      TruncZones(length);
      ghost var z := ReserveZone(ip, TruncDiv(length + 1023, 1024), true);
      ghost var disk1, mem1 := cache.disk, Mem();
      LoadedFacts(ip);
      InvFacts(disk1, mem1, n, z);
      SetSize(ip, length);
      if length < 0 {
        NegativeSize(disk1, Mem(), n);
      } else {
        MetaStep(disk1, mem1, n, z, ip.Value());
        OthersKeptTrans(disk0, mem0, ZonesOf(size0), disk1, mem1, z, disk1, Mem(), z, n);
      }
    }

    /** One block transfer of `_write`. */
    method WriteBlock(ip: Inode, ghost z: int, zone: int, off: nat, bytes: seq<bv8>)
      requires ip in inodes && ValidAt(ip.inum, z) && 0 <= zone < z && zone <= ZonesOf(ip.size)
      requires off + |bytes| <= BLOCK_SIZE
      modifies cache`freeList, cache`cached, cache`holder, cache`disk, cache.buffers
      ensures ValidAt(ip.inum, z)
      ensures OthersKept(old(cache.disk), Mem(), z, cache.disk, Mem(), z, ip.inum)
      ensures zone * 1024 + off + |bytes| <= |Raw(old(cache.disk), Prefix(ip.zone, z))|
      ensures Raw(cache.disk, Prefix(ip.zone, z))
           == Over(Raw(old(cache.disk), Prefix(ip.zone, z)), zone * 1024 + off, bytes)
      ensures ZMAP.Set(cache.disk) == old(ZMAP.Set(cache.disk))
    {
      hide Area.Set, InvAt, OthersKept, BufferCache.Quiet, Raw, ListOk, Mem, Over, Splice;
      LoadedFacts(ip);
      InvFacts(cache.disk, Mem(), ip.inum, z);
      DataStep(cache.disk, Mem(), ip.inum, z, zone, off, bytes);
      var blk := GetZoneBlk(ip, zone);
      cache.Save(DEV, blk, off, bytes);
    }

    /** The loop of `_write` after the first block. */
    method WriteBlocks(ip: Inode, ghost z: int, first: int, buf: seq<bv8>)
      requires ip in inodes && ValidAt(ip.inum, z) && |buf| < 2 * 1024
      requires 0 <= first && first + ZonesOf(|buf|) <= z && first + ZonesOf(|buf|) <= ZonesOf(ip.size) + 1
      modifies cache`freeList, cache`cached, cache`holder, cache`disk, cache.buffers
      ensures ValidAt(ip.inum, z)
      ensures OthersKept(old(cache.disk), Mem(), z, cache.disk, Mem(), z, ip.inum)
      ensures first * 1024 + |buf| <= |Raw(old(cache.disk), Prefix(ip.zone, z))| == 1024 * z
      ensures Raw(cache.disk, Prefix(ip.zone, z)) == RestWritten(Raw(old(cache.disk), Prefix(ip.zone, z)), first, buf)
      ensures ZMAP.Set(cache.disk) == old(ZMAP.Set(cache.disk))
    {
      hide Area.Set, InvAt, OthersKept, BufferCache.Quiet, Raw, ListOk, Mem, Over, Prefix;
      ghost var disk0, mem, zones, n := cache.disk, Mem(), Prefix(ip.zone, z), ip.inum;
      LoadedFacts(ip);
      InvFacts(disk0, mem, n, z);
      PrefixFacts(ip.zone, z);
      OthersKeptRefl(disk0, mem, z, n);
      var zone, rest := first, buf;
      while |rest| > 0
        invariant ValidAt(n, z) && Mem() == mem && |rest| < 2 * 1024
        invariant 0 <= zone && zone + ZonesOf(|rest|) <= first + ZonesOf(|buf|)
        invariant OthersKept(disk0, mem, z, cache.disk, mem, z, n)
        invariant RestWritten(Raw(cache.disk, zones), zone, rest) == RestWritten(Raw(disk0, zones), first, buf)
        invariant ZMAP.Set(cache.disk) == old(ZMAP.Set(cache.disk))
        decreases |rest|
      {
        ghost var disk := cache.disk;
        var bytes := if |rest| > 1024 then |rest| % 1024 else |rest|;
        WriteBlock(ip, z, zone, 0, rest[..bytes]);
        OthersKeptTrans(disk0, mem, z, disk, mem, z, cache.disk, mem, z, n);
        rest := rest[bytes..];
        zone := zone + 1;
      }
    }

    /** `_write`, whenever it does not panic: `WriteOutcomeIs` says that this is when it is `Writable`,
        as long as the disk has room for its blocks. */
    method Write(ip: Inode, pos: int, buf: seq<bv8>) returns (r: int)
      requires Valid() && ip in inodes && 0 <= pos && |buf| > 0
      requires Writable(ip.size, pos, |buf|)
      requires |ZMAP.Set(cache.disk)| + ZonesOf(pos + |buf|) - ZonesOf(ip.size) <= 4096
      modifies ip`zone, ip`size, cache`freeList, cache`cached, cache`holder, cache`disk, cache.buffers
      ensures Valid() && r == |buf|
      ensures ip.size == Max(old(ip.size), pos + |buf|)
      ensures ip.inum in old(Files()) && |Get(old(Files()), ip.inum).bytes| == old(ip.size)
      ensures Files() == old(Files())[ip.inum := Get(old(Files()), ip.inum).(
                           bytes := WrittenBytes(old(cache.disk), old(ip.Value()), pos, buf))]
      ensures |ZMAP.Set(cache.disk)| == old(|ZMAP.Set(cache.disk)|) + ZonesOf(ip.size) - ZonesOf(old(ip.size))
      ensures Took(old(ZMAP.Set(cache.disk)), ZMAP.Set(cache.disk), old(ip.zone), ip.zone,
                   ZonesOf(old(ip.size)), ZonesOf(ip.size))
    {
      hide Area.Set, InvAt, OthersKept, BufferCache.Quiet, Raw, ListOk, Mem, Prefix, FsState.Files, Took, Slot, SlotKey;
      ghost var n, disk0, mem0 := ip.inum, cache.disk, Mem();
      LoadedFacts(ip);
      Settle(disk0, mem0, n);
      FileFacts(disk0, mem0, n);
      WriteBody(ip, pos, buf);
      LoadedFacts(ip);
      Settle(cache.disk, Mem(), n);
      FilesAfter(disk0, mem0, cache.disk, Mem(), n);
      r := |buf|;
    }

    /** `_write` in terms of zones. */
    method WriteBody(ip: Inode, pos: int, buf: seq<bv8>)
      requires ip in inodes && ValidAt(ip.inum, ZonesOf(ip.size)) && 0 <= pos && |buf| > 0
      requires Writable(ip.size, pos, |buf|)
      requires |ZMAP.Set(cache.disk)| + ZonesOf(pos + |buf|) - ZonesOf(ip.size) <= 4096
      modifies ip`zone, ip`size, cache`freeList, cache`cached, cache`holder, cache`disk, cache.buffers
      ensures ValidAt(ip.inum, ZonesOf(ip.size)) && ip.size == Max(old(ip.size), pos + |buf|)
      ensures Mem() == old(Mem())[ip.inum := ip.Value()]
      ensures OthersKept(old(cache.disk), old(Mem()), ZonesOf(old(ip.size)),
                         cache.disk, Mem(), ZonesOf(ip.size), ip.inum)
      ensures Raw(cache.disk, Prefix(ip.zone, ZonesOf(ip.size))) ==
        Transferred(Resized(Raw(old(cache.disk), Prefix(old(ip.zone), ZonesOf(old(ip.size)))),
                            1024 * ZonesOf(ip.size)), pos, buf)
      ensures |ZMAP.Set(cache.disk)| == old(|ZMAP.Set(cache.disk)|) + ZonesOf(ip.size) - ZonesOf(old(ip.size))
      ensures Took(old(ZMAP.Set(cache.disk)), ZMAP.Set(cache.disk), old(ip.zone), ip.zone,
                   ZonesOf(old(ip.size)), ZonesOf(ip.size))
    {
      hide Area.Set, InvAt, OthersKept, BufferCache.Quiet, Raw, ListOk, Mem, Prefix, BlockSet, Took, Slot, SlotKey,
           Transferred, Resized;
      ghost var n, disk0, mem0 := ip.inum, cache.disk, Mem();
      LoadedFacts(ip);
      InvFacts(disk0, mem0, n, ZonesOf(ip.size));
      ghost var z0 := ZonesOf(ip.size);
      ghost var z := ReserveZone(ip, (pos + |buf| + 1024 - 1) / 1024, false);
      ghost var disk1, mem1 := cache.disk, Mem();
      WriteReserved(ip, z, pos, buf);
      OthersKeptTrans(disk0, mem0, z0, disk1, mem1, z, cache.disk, Mem(), z, n);
    }

    /** `_write` once its zones are reserved. */
    method WriteReserved(ip: Inode, ghost z: int, pos: int, buf: seq<bv8>)
      requires ip in inodes && ValidAt(ip.inum, z) && 0 <= pos && |buf| > 0
      requires Writable(ip.size, pos, |buf|) && z == ZonesOf(Max(ip.size, pos + |buf|))
      modifies ip`size, cache`freeList, cache`cached, cache`holder, cache`disk, cache.buffers
      ensures ValidAt(ip.inum, z) && ip.size == Max(old(ip.size), pos + |buf|)
      ensures Mem() == old(Mem())[ip.inum := ip.Value()]
      ensures OthersKept(old(cache.disk), old(Mem()), z, cache.disk, Mem(), z, ip.inum)
      ensures Raw(cache.disk, Prefix(ip.zone, z)) == Transferred(Raw(old(cache.disk), Prefix(ip.zone, z)), pos, buf)
      ensures ZMAP.Set(cache.disk) == old(ZMAP.Set(cache.disk))
    {
      hide Area.Set, InvAt, OthersKept, BufferCache.Quiet, Raw, ListOk, Mem, Prefix, Slot, SlotKey, Transferred;
      ghost var n, disk1, mem1 := ip.inum, cache.disk, Mem();
      WriteAll(ip, z, pos, buf);
      ghost var disk2 := cache.disk;
      FinishWrite(ip, z, pos + |buf|);
      OthersKeptTrans(disk1, mem1, z, disk2, mem1, z, cache.disk, Mem(), z, n);
    }

    /** The end of `_write`: the size grows if the transfer went past it, and the inode is written. */
    method FinishWrite(ip: Inode, ghost z: int, end: int)
      requires ip in inodes && ValidAt(ip.inum, z) && 0 <= end <= MAX_SIZE
      modifies ip`size, cache`freeList, cache`cached, cache`holder, cache`disk, cache.buffers
      ensures ValidAt(ip.inum, z)
      ensures ip.size == Max(old(ip.size), end) && Mem() == old(Mem())[ip.inum := ip.Value()]
      ensures OthersKept(old(cache.disk), old(Mem()), z, cache.disk, Mem(), z, ip.inum)
      ensures Raw(cache.disk, Prefix(ip.zone, z)) == Raw(old(cache.disk), Prefix(ip.zone, z))
      ensures ZMAP.Set(cache.disk) == old(ZMAP.Set(cache.disk))
    {
      hide Area.Set, InvAt, OthersKept, BufferCache.Quiet, Raw, ListOk, Mem, Prefix, WroteInode, SlotKey, Slot;
      ghost var n, disk0, mem0 := ip.inum, cache.disk, Mem();
      LoadedFacts(ip);
      InvFacts(disk0, mem0, n, z);
      if ip.size < end {
        SetSize(ip, end);
      }
      MetaStep(disk0, mem0, n, z, ip.Value());
      ghost var mem1 := Mem();
      InvInode(disk0, mem1, n, z);
      ghost var tail := WriteInode(ip);
      assert ListOk() && Mem() == mem1;
      SlotStep(disk0, mem1, n, z, tail);
      OthersKeptTrans(disk0, mem0, z, disk0, mem1, z, cache.disk, mem1, z, n);
    }

    /** The transfers of `_write`. */
    method WriteAll(ip: Inode, ghost z: int, pos: int, buf: seq<bv8>)
      requires ip in inodes && ValidAt(ip.inum, z) && 0 <= pos && |buf| > 0
      requires ZonesOf(pos + |buf|) <= z && ZonesOf(pos + |buf|) <= ZonesOf(ip.size) + 1
      requires Left(pos, |buf|) < 2 * 1024
      modifies cache`freeList, cache`cached, cache`holder, cache`disk, cache.buffers
      ensures ValidAt(ip.inum, z)
      ensures OthersKept(old(cache.disk), Mem(), z, cache.disk, Mem(), z, ip.inum)
      ensures Raw(cache.disk, Prefix(ip.zone, z)) == Transferred(Raw(old(cache.disk), Prefix(ip.zone, z)), pos, buf)
      ensures ZMAP.Set(cache.disk) == old(ZMAP.Set(cache.disk))
    {
      hide Area.Set, InvAt, OthersKept, BufferCache.Quiet, Raw, ListOk, Mem, Over, Prefix;
      ghost var disk0, mem, n := cache.disk, Mem(), ip.inum;
      LoadedFacts(ip);
      InvFacts(disk0, mem, n, z);
      PrefixFacts(ip.zone, z);
      var bytes := 1024 - pos % 1024;
      bytes := if |buf| < bytes then |buf| else bytes;
      WriteBlock(ip, z, pos / 1024, pos % 1024, buf[..bytes]);
      ghost var disk1 := cache.disk;
      WriteBlocks(ip, z, pos / 1024 + 1, buf[bytes..]);
      OthersKeptTrans(disk0, mem, z, disk1, mem, z, cache.disk, mem, z, n);
    }

    /** One block transfer of `_read`. */
    method ReadBlock(ip: Inode, zone: int, off: nat, n: nat) returns (bytes: seq<bv8>)
      requires ip in inodes && ValidAt(ip.inum, ZonesOf(ip.size))
      requires 0 <= zone <= ZonesOf(ip.size) && zone < MAX_ZONES && off + n <= BLOCK_SIZE
      requires n > 0 ==> zone < ZonesOf(ip.size)
      modifies cache`freeList, cache`cached, cache`holder, cache`disk, cache.buffers
      ensures ValidAt(ip.inum, ZonesOf(ip.size)) && cache.disk == old(cache.disk) && |bytes| == n
      ensures n > 0 ==>
                zone * 1024 + off + n <= |Raw(cache.disk, Prefix(ip.zone, ZonesOf(ip.size)))|
                && bytes == Raw(cache.disk, Prefix(ip.zone, ZonesOf(ip.size)))[zone * 1024 + off..zone * 1024 + off + n]
    {
      hide Area.Set, InvAt, BufferCache.Quiet, Raw, ListOk, Mem;
      LoadedFacts(ip);
      InvFacts(cache.disk, Mem(), ip.inum, ZonesOf(ip.size));
      ZoneInDisk(cache.disk, Mem(), ip.inum, ZonesOf(ip.size), zone);
      PrefixFacts(ip.zone, ZonesOf(ip.size));
      hide DiskOn, Prefix;
      var blk := GetZoneBlk(ip, zone);
      bytes := cache.Load(DEV, blk, off, n);
      if n > 0 {
        PrefixAt(ip.zone, ZonesOf(ip.size), zone);
        RawSlice(cache.disk, Prefix(ip.zone, ZonesOf(ip.size)), zone, off, n);
      }
    }

    /** The loop of `_read` after the first block. */
    method ReadBlocks(ip: Inode, first: int, count: nat) returns (buf: seq<bv8>)
      requires ip in inodes && ValidAt(ip.inum, ZonesOf(ip.size))
      requires count < 2 * 1024 && 0 <= first
      requires count > 0 ==> first + ZonesOf(count) <= ZonesOf(ip.size)
      modifies cache`freeList, cache`cached, cache`holder, cache`disk, cache.buffers
      ensures ValidAt(ip.inum, ZonesOf(ip.size)) && cache.disk == old(cache.disk)
      ensures buf == RestRead(Raw(cache.disk, Prefix(ip.zone, ZonesOf(ip.size))), first, count)
    {
      hide Area.Set, InvAt, BufferCache.Quiet, Raw, ListOk, Mem, Prefix, RestRead, ZonesOf, Step, ValidAt, DiskOn;
      AtFacts(ip, ZonesOf(ip.size));
      PrefixFacts(ip.zone, ZonesOf(ip.size));
      ghost var raw := Raw(cache.disk, Prefix(ip.zone, ZonesOf(ip.size)));
      var zone, left := first, count;
      buf := [];
      while left > 0
        invariant ValidAt(ip.inum, ZonesOf(ip.size)) && cache.disk == old(cache.disk) && 0 <= left < 2 * 1024
        invariant 0 <= zone && (left > 0 ==> zone + ZonesOf(left) <= ZonesOf(ip.size))
        invariant buf + RestRead(raw, zone, left) == RestRead(raw, first, count)
      {
        var n := if left > 1024 then left % 1024 else left;
        StepIs(left, n);
        ZonesStep(left);
        var bytes := ReadBlock(ip, zone, 0, n);
        RestReadStep(raw, zone, left);
        SeqAssoc(buf, bytes, RestRead(raw, zone + 1, left - n));
        buf := buf + bytes;
        left := left - n;
        zone := zone + 1;
      }
      RestReadDone(raw, zone);
    }

    /** `_read`: -1 past the end, the bytes otherwise; it has to end and stay on direct zones. */
    method Read(ip: Inode, pos: int, count: int) returns (r: int, buf: seq<bv8>)
      requires Valid() && ip in inodes && 0 <= pos && 0 <= count
      requires pos + count <= ip.size ==> Left(pos, count) < 2 * 1024 && pos < MAX_SIZE
      modifies cache`freeList, cache`cached, cache`holder, cache`disk, cache.buffers
      ensures Valid() && cache.disk == old(cache.disk) && Mem() == old(Mem())
      ensures pos + count > ip.size ==> r == -1
      ensures pos + count <= ip.size ==> r == count && buf == ReadBytes(cache.disk, ip.Value(), pos, count)
      ensures ip.inum in Files() && |Get(Files(), ip.inum).bytes| == ip.size
      ensures pos + count <= ip.size && Short(pos, count) ==> buf == Get(Files(), ip.inum).bytes[pos..pos + count]
    {
      hide Area.Set, InvAt, BufferCache.Quiet, Raw, ListOk, Mem, Prefix, FsState.Files, RestRead, ReadBytes, FileOf;
      LoadedFacts(ip);
      Settle(cache.disk, Mem(), ip.inum);
      InvFacts(cache.disk, Mem(), ip.inum, ZonesOf(ip.size));
      FileFacts(cache.disk, Mem(), ip.inum);
      ghost var disk0, mem0 := cache.disk, Mem();
      r, buf := -1, [];
      if pos + count > ip.size {
        return;
      }
      ReadParts(cache.disk, ip.Value(), pos, count);
      if Short(pos, count) { FlatRead(cache.disk, ip.Value(), pos, count); }
      var left := count;
      var zone := pos / 1024;
      var bytes := 1024 - pos % 1024;
      bytes := if left < bytes then left else bytes;
      buf := ReadBlock(ip, zone, pos % 1024, bytes);
      left := left - bytes;
      var rest := ReadBlocks(ip, zone + 1, left);
      buf := buf + rest;
      r := count;
    }

    /** `list_add` of a newly loaded inode. */
    method Link(ip: Inode)
      requires ListOk() && ip !in inodes && ip.inum !in loaded
      modifies this`inodes, this`loaded
      ensures ListOk() && inodes == [ip] + old(inodes)
      ensures Mem() == old(Mem())[ip.inum := ip.Value()] && ip.inum !in old(Mem())
    {
      inodes := [ip] + inodes;
      loaded := loaded[ip.inum := ip];
    }

    /** `list_del`. */
    method Unlink(ip: Inode)
      requires ListOk() && ip in inodes
      modifies this`inodes, this`loaded
      ensures ListOk() && ip !in inodes && (forall x :: x in inodes ==> x in old(inodes))
      ensures forall x :: x in old(inodes) && x != ip ==> x in inodes
      ensures Mem() == old(Mem()) - {ip.inum}
    {
      var i :| 0 <= i < |inodes| && inodes[i] == ip;
      assert inodes == inodes[..i] + [ip] + inodes[i + 1..];
      inodes := inodes[..i] + inodes[i + 1..];
      loaded := loaded - {ip.inum};
      assert Mem().Keys == old(Mem()).Keys - {ip.inum};
    }

    /** `create_inode`: the least free inode number becomes an empty file without links. */
    method CreateInode(mode: int) returns (ip: Inode)
      requires Valid() && 0 <= mode < 0x1_0000
      requires exists i :: 0 <= i < NR_INODES && i !in IMAP.Set(cache.disk)
      modifies this`inodes, this`loaded, cache`freeList, cache`cached, cache`holder, cache`disk, cache.buffers
      ensures Valid() && fresh(ip) && inodes == [ip] + old(inodes) && ip.refcnt == 1 && 0 <= ip.inum < NR_INODES
      ensures ip.inum !in old(IMAP.Set(cache.disk)) && forall i :: 0 <= i < ip.inum ==> i in old(IMAP.Set(cache.disk))
      ensures Files() == old(Files())[ip.inum := File([], mode, 0)] && ip.inum !in old(Files())
      ensures ZMAP.Set(cache.disk) == old(ZMAP.Set(cache.disk))
    {
      hide Area.Set, ValidAt, Files, ListOk, InvAt, BufferCache.Quiet, Mem, FsState.Files, Slot, SlotKey;
      ip := PlaceInode(mode);
      SyncInode(ip);
    }

    /** `create_inode` when all 84 numbers are taken: the bitmap has room for more, so it goes on with
        number 84, whose record overwrites the start of the first data block. The file that holds this
        block, if there is one, is damaged there; no other file is. */
    method CreateBeyond(mode: int) returns (ip: Inode, ghost tail: seq<bv8>)
      requires Valid() && 0 <= mode < 0x1_0000
      requires forall i :: 0 <= i < NR_INODES ==> i in IMAP.Set(cache.disk)
      modifies this`inodes, this`loaded, cache`freeList, cache`cached, cache`holder, cache`disk, cache.buffers
      ensures !Valid() && fresh(ip) && inodes == [ip] + old(inodes) && ip.refcnt == 1
      ensures ip.Value() == NewInode(84, mode) && |tail| == 24
      ensures IMAP.Set(cache.disk) == old(IMAP.Set(cache.disk)) + {84}
      ensures Key(DEV, 10) in cache.disk && cache.disk[Key(DEV, 10)][..72] == Encode(NewInode(84, mode), tail)
      ensures Files().Keys == old(Files()).Keys == old(Live(cache.disk, Mem())).Keys
      ensures forall n :: n in old(Files()) ==> var zone := old(Live(cache.disk, Mem()))[n].zone;
                Files()[n] == Hit(old(Files())[n], zone, Encode(NewInode(84, mode), tail))
    {
      hide Area.Set, Mem, MarkedInode, ListOk, DiskOn, AllGood, Owned, Encode, BufferCache.Quiet, FsState.Files, Live,
           Hit, WroteInode;
      ghost var disk0, mem0 := cache.disk, Mem();
      NoneBeyond();
      ip, tail := PlaceBeyond(mode);
      WroteBeyond(MarkedInode(disk0, 84, true), NewInode(84, mode), tail);
      BeyondFiles(disk0, mem0, NewInode(84, mode), tail);
    }

    /** What it does to the disk and the list. */
    method PlaceBeyond(mode: int) returns (ip: Inode, ghost tail: seq<bv8>)
      requires Valid() && forall i :: 0 <= i < NR_INODES ==> i in IMAP.Set(cache.disk)
      modifies this`inodes, this`loaded, cache`freeList, cache`cached, cache`holder, cache`disk, cache.buffers
      ensures fresh(ip) && inodes == [ip] + old(inodes) && ip.refcnt == 1
      ensures ip.Value() == NewInode(84, mode) && |tail| == 24 && Mem() == old(Mem())[84 := ip.Value()]
      ensures IMAP.Home(84) in old(cache.disk) && DiskOn(MarkedInode(old(cache.disk), 84, true))
      ensures IMAP.Set(MarkedInode(old(cache.disk), 84, true)) == old(IMAP.Set(cache.disk)) + {84}
      ensures SlotKey(84) in MarkedInode(old(cache.disk), 84, true)
      ensures cache.disk == WroteInode(MarkedInode(old(cache.disk), 84, true), NewInode(84, mode), tail)
    {
      hide Area.Set, Area.Home, Mem, MarkedInode, ListOk, DiskOn, AllGood, Owned, Encode, BufferCache.Quiet,
           WroteInode, Live, SlotKey;
      ghost var disk0 := cache.disk;
      NoneBeyond();
      var inum := AllocInodeNr();
      ip := NewLoaded(NewInode(inum, mode));
      MarkBeyond(disk0);
      tail := WriteInode(ip);
    }

    lemma NoneBeyond()
      requires Valid()
      ensures 84 !in IMAP.Set(cache.disk) && 84 !in Mem() && Inv(cache.disk, Mem())
    {
    }

    /** `create_inode` up to its `write_inode`. */
    method PlaceInode(mode: int) returns (ip: Inode)
      requires Valid() && 0 <= mode < 0x1_0000
      requires exists i :: 0 <= i < NR_INODES && i !in IMAP.Set(cache.disk)
      modifies this`inodes, this`loaded, cache`freeList, cache`cached, cache`holder, cache`disk, cache.buffers
      ensures Valid() && fresh(ip) && inodes == [ip] + old(inodes) && ip.refcnt == 1 && 0 <= ip.inum < NR_INODES
      ensures ip.inum !in old(IMAP.Set(cache.disk)) && forall i :: 0 <= i < ip.inum ==> i in old(IMAP.Set(cache.disk))
      ensures Files() == old(Files())[ip.inum := File([], mode, 0)] && ip.inum !in old(Files())
      ensures ZMAP.Set(cache.disk) == old(ZMAP.Set(cache.disk))
    {
      hide Area.Set, Area.Home, InvAt, BufferCache.Quiet, Mem, FsState.Files, MarkedInode, ListOk, DiskOn;
      ghost var disk0, mem0 := cache.disk, Mem();
      InvFacts(disk0, mem0, 0, 0);
      var inum := AllocInodeNr();
      CreateStep(disk0, mem0, inum, mode);
      ip := NewLoaded(NewInode(inum, mode));
      assert forall x :: x in inodes ==> x.refcnt > 0;
    }

    /** A fresh inode body, on the list with one reference. */
    method NewLoaded(d: DInode) returns (ip: Inode)
      requires ListOk() && d.inum !in Mem()
      modifies this`inodes, this`loaded
      ensures fresh(ip) && ip.Value() == d && ip.refcnt == 1
      ensures ListOk() && inodes == [ip] + old(inodes) && Mem() == old(Mem())[d.inum := d]
    {
      MemKeys(d.inum);
      ip := new Inode(d);
      ip.refcnt := 1;
      Link(ip);
    }

    /** `alloc_inode_nr`. */
    method AllocInodeNr() returns (inum: int)
      requires cache.Quiet() && DiskOn(cache.disk)
      requires exists i :: 0 <= i < SECTOR_BITS && i !in IMAP.Set(cache.disk)
      modifies cache`freeList, cache`cached, cache`holder, cache`disk, cache.buffers
      ensures cache.Quiet() && 0 <= inum < SECTOR_BITS
      ensures inum !in old(IMAP.Set(cache.disk)) && forall i :: 0 <= i < inum ==> i in old(IMAP.Set(cache.disk))
      ensures IMAP.Home(inum) in old(cache.disk) && cache.disk == MarkedInode(old(cache.disk), inum, true)
    {
      hide Area.Test, BufferCache.Quiet, WithBit;
      ghost var free :| 0 <= free < SECTOR_BITS && free !in IMAP.Set(cache.disk);
      inum := BitmapAlloc(cache, IMAP);
      assert !(free < inum);
    }

    /** `write_inode` between operations: the disk catches up, no file changes. */
    method SyncInode(ip: Inode)
      requires ValidAt(0, 0) && ip in inodes
      modifies cache`freeList, cache`cached, cache`holder, cache`disk, cache.buffers
      ensures ValidAt(0, 0) && Files() == old(Files())
      ensures SlotKey(ip.inum) in cache.disk && Slot(cache.disk, ip.inum) == ip.Value()
      ensures ZMAP.Set(cache.disk) == old(ZMAP.Set(cache.disk))
      ensures IMAP.Set(cache.disk) == old(IMAP.Set(cache.disk))
      ensures 1 <= ip.inum < NR_INODES && ip.inum in IMAP.Set(cache.disk)
    {
      hide Area.Set, InvAt, BufferCache.Quiet, Mem, FsState.Files, WroteInode, Slot, SlotKey, ListOk, OthersKept, Raw;
      ghost var n, disk0, mem, z := ip.inum, cache.disk, Mem(), ZonesOf(ip.size);
      LoadedFacts(ip);
      Settle(disk0, mem, n);
      InvInode(disk0, mem, n, z);
      InvFacts(disk0, mem, n, z);
      FileFacts(disk0, mem, n);
      ghost var tail := WriteInode(ip);
      assert ListOk() && Mem() == mem;
      SlotStep(disk0, mem, n, z, tail);
      Settle(cache.disk, mem, n);
      FilesAfter(disk0, mem, cache.disk, mem, n);
      assert FileOf(cache.disk, mem[n]) == FileOf(disk0, mem[n]);
      assert Files() == FsState.Files(disk0, mem);
    }

    lemma MemKeys(n: int)
      ensures n in Mem() <==> n in loaded
    {
    }

    /** `get_inode`: the loaded inode with one more reference, or the disk's with its first. */
    method GetInode(inum: int) returns (ip: Inode)
      requires Valid() && inum in Files()
      modifies this`inodes, this`loaded, inodes
      modifies cache`freeList, cache`cached, cache`holder, cache`disk, cache.buffers
      ensures Valid() && ip in inodes && ip.inum == inum
      ensures Files() == old(Files()) && ZMAP.Set(cache.disk) == old(ZMAP.Set(cache.disk))
      ensures if inum in old(loaded) then ip == old(loaded)[inum] && ip.refcnt == old(ip.refcnt) + 1
              && inodes == old(inodes)
              else fresh(ip) && ip.refcnt == 1 && inodes == [ip] + old(inodes)
      ensures forall x :: x in old(inodes) && x != ip ==> unchanged(x)
    {
      hide Area.Set, InvAt, BufferCache.Quiet, Mem, FsState.Files;
      for i := 0 to |inodes|
        invariant forall j :: 0 <= j < i ==> inodes[j].inum != inum
      {
        if inodes[i].inum == inum && inodes[i].refcnt != 0 {
          ip := inodes[i];
          SetRef(ip, ip.refcnt + 1);
          return;
        }
      }
      ip := LoadInode(inum);
    }

    /** A change of the reference count. */
    method SetRef(ip: Inode, refs: int)
      requires ListOk() && ip in inodes
      modifies ip`refcnt
      ensures ListOk() && Mem() == old(Mem()) && ip.refcnt == refs
    {
      ip.refcnt := refs;
    }

    /** The miss of `get_inode`. */
    method LoadInode(inum: int) returns (ip: Inode)
      requires Valid() && inum in Files() && inum !in loaded
      modifies this`inodes, this`loaded, cache`freeList, cache`cached, cache`holder, cache`disk, cache.buffers
      ensures Valid() && fresh(ip) && ip.inum == inum && ip.refcnt == 1 && inodes == [ip] + old(inodes)
      ensures cache.disk == old(cache.disk) && Files() == old(Files())
              && ZMAP.Set(cache.disk) == old(ZMAP.Set(cache.disk))
    {
      hide Area.Set, InvAt, BufferCache.Quiet, Mem, FsState.Files, ListOk, Slot, SlotKey;
      MemKeys(inum);
      UnloadedFacts(cache.disk, Mem(), inum);
      InvFacts(cache.disk, Mem(), 0, 0);
      ip := new Inode(DInode(0, 0, 0, 0, []));
      ReadInode(ip, inum);
      ip.refcnt := ip.refcnt + 1;
      LinkLoaded(ip);
    }

    /** An inode just read from the disk joins the list: nothing live changes. */
    method LinkLoaded(ip: Inode)
      requires ValidAt(0, 0) && ip !in inodes && ip.inum !in loaded && ip.refcnt > 0
      requires ip.inum in IMAP.Set(cache.disk) && 1 <= ip.inum
      requires SlotKey(ip.inum) in cache.disk && Slot(cache.disk, ip.inum) == ip.Value()
      modifies this`inodes, this`loaded
      ensures ValidAt(0, 0) && inodes == [ip] + old(inodes) && Files() == old(Files())
    {
      hide Area.Set, InvAt, BufferCache.Quiet, Mem, FsState.Files, ListOk, Slot, SlotKey;
      ghost var mem := Mem();
      Link(ip);
      LoadStep(cache.disk, mem, Mem());
    }

    /** `put_inode`: the last reference to a file without links deletes it and frees exactly its
        blocks; the last reference to any other writes it back. */
    method PutInode(ip: Inode)
      requires Valid() && ip in inodes
      requires ip.refcnt == 1 && ip.nlink == 0 ==> ip.inum != 1
      modifies this`inodes, this`loaded, ip`refcnt, ip`zone
      modifies cache`freeList, cache`cached, cache`holder, cache`disk, cache.buffers
      ensures Valid() && ip.refcnt == old(ip.refcnt) - 1
      ensures ip in inodes <==> ip.refcnt > 0
      ensures forall x :: x in old(inodes) && x != ip ==> x in inodes
      ensures if ip.refcnt == 0 && ip.nlink == 0
              then && Files() == old(Files()) - {ip.inum}
                   && ZMAP.Set(cache.disk) == old(ZMAP.Set(cache.disk)) - BlockSet(old(ip.zone), 0, ZonesOf(ip.size))
                   && IMAP.Set(cache.disk) == old(IMAP.Set(cache.disk)) - {ip.inum}
              else && Files() == old(Files())
                   && ZMAP.Set(cache.disk) == old(ZMAP.Set(cache.disk))
                   && IMAP.Set(cache.disk) == old(IMAP.Set(cache.disk))
    {
      hide Area.Set, InvAt, BufferCache.Quiet, Mem, FsState.Files, ListOk, BlockSet, Slot, SlotKey;
      SetRef(ip, ip.refcnt - 1);
      if ip.refcnt == 0 {
        if ip.nlink == 0 {
          DeleteInode(ip);
        } else {
          DropInode(ip);
        }
      }
    }

    /** The branch of `put_inode` that writes the inode back. */
    method DropInode(ip: Inode)
      requires ValidAt(0, 0) && ip in inodes
      modifies this`inodes, this`loaded, cache`freeList, cache`cached, cache`holder, cache`disk, cache.buffers
      ensures ValidAt(0, 0) && ip !in inodes && (forall x :: x in inodes ==> x in old(inodes))
      ensures forall x :: x in old(inodes) && x != ip ==> x in inodes
      ensures Files() == old(Files()) && ZMAP.Set(cache.disk) == old(ZMAP.Set(cache.disk))
      ensures IMAP.Set(cache.disk) == old(IMAP.Set(cache.disk))
    {
      hide Area.Set, InvAt, BufferCache.Quiet, Mem, FsState.Files, ListOk, Slot, SlotKey;
      SyncInode(ip);
      ghost var mem := Mem();
      LoadedFacts(ip);
      Unlink(ip);
      LoadStep(cache.disk, mem, Mem());
    }

    /** The deleting branch of `put_inode`. */
    method DeleteInode(ip: Inode)
      requires ValidAt(0, 0) && ip in inodes
      modifies this`inodes, this`loaded, ip`zone
      modifies cache`freeList, cache`cached, cache`holder, cache`disk, cache.buffers
      ensures ValidAt(0, 0) && ip !in inodes && (forall x :: x in inodes ==> x in old(inodes))
      ensures forall x :: x in old(inodes) && x != ip ==> x in inodes
      ensures Files() == old(Files()) - {ip.inum}
      ensures ZMAP.Set(cache.disk) == old(ZMAP.Set(cache.disk)) - BlockSet(old(ip.zone), 0, ZonesOf(ip.size))
      ensures IMAP.Set(cache.disk) == old(IMAP.Set(cache.disk)) - {ip.inum}
    {
      hide Area.Set, InvAt, BufferCache.Quiet, Mem, FsState.Files, ListOk, MarkedInode, BlockSet, OthersKept, Raw;
      ghost var n, disk0, mem0 := ip.inum, cache.disk, Mem();
      LoadedFacts(ip);
      Settle(disk0, mem0, n);
      InvFacts(disk0, mem0, n, ZonesOf(ip.size));
      ghost var z := ReserveZone(ip, 0, true);
      ghost var disk1, mem1 := cache.disk, Mem();
      FreeInodeNr(ip);
      Unlink(ip);
      DeleteFiles(disk0, mem0, disk1, mem1, n);
    }

    /** `free_inode_nr`. */
    method FreeInodeNr(ip: Inode)
      requires ip in inodes && ValidAt(ip.inum, 0)
      modifies cache`freeList, cache`cached, cache`holder, cache`disk, cache.buffers
      ensures cache.Quiet() && IMAP.Home(ip.inum) in old(cache.disk) && 0 <= ip.inum < NR_INODES
      ensures cache.disk == MarkedInode(old(cache.disk), ip.inum, false)
    {
      hide Area.Set, InvAt, BufferCache.Quiet, Mem, ListOk, WithBit;
      LoadedFacts(ip);
      InvInode(cache.disk, Mem(), ip.inum, 0);
      InvFacts(cache.disk, Mem(), ip.inum, 0);
      BitmapFree(cache, IMAP, ip.inum);
    }
  }

  /** The bytes of a loaded file. */
  ghost function BytesOf(fs: Fs, dir: Inode): seq<bv8>
    reads fs, fs.cache, fs.inodes, dir, set n | n in fs.loaded :: fs.loaded[n]
  {
    Get(fs.Files(), dir.inum).bytes
  }
}
