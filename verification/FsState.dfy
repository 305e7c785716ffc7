/** The state of fs/fs.c as values: the disk, the inodes in memory, and the files they make up. */
module FsState {
  import opened Buffers
  import opened Bitmap
  import opened InodeTable
  import opened Superblock
  import opened Ownership
  import opened Transfer

  const IMAP: Area := Area(DEV, 2, 3)
  const ZMAP: Area := Area(DEV, 3, 4)
  const MAX_ZONES: int := 7
  const MAX_SIZE: int := MAX_ZONES * 1024

  type Inodes = map<int, DInode>

  /** A file as a user sees it. */
  datatype File = File(bytes: seq<bv8>, mode: int, nlink: int)

  /** `(size + BLOCK_SIZE - 1) / BLOCK_SIZE`. */
  function ZonesOf(size: int): int {
    (size + 1024 - 1) / 1024
  }

  ghost predicate Blocks(disk: Disk) {
    forall b :: 0 <= b < NR_BLOCKS ==> Key(DEV, b) in disk
  }

  /** A disk with the superblock of `mkfs`. */
  ghost predicate DiskOn(disk: Disk) {
    Blocks(disk) && HasLayout(disk)
  }

  /** Every live inode with the fields that count: the ones in memory when it is
      loaded, the ones on the disk otherwise. */
  ghost function Live(disk: Disk, mem: Inodes): Inodes
  {
    map n | n in IMAP.Set(disk) && 1 <= n < NR_INODES && SlotKey(n) in disk ::
      if n in mem then mem[n] else Slot(disk, n)
  }

  ghost predicate GoodInode(d: DInode, n: int, zones: int) {
    && d.inum == n && d.Fits() && 0 <= d.size <= MAX_SIZE && 0 <= zones <= MAX_ZONES
    && d.nlink >= 0
    && forall j :: zones <= j < 9 ==> d.zone[j] == 0
  }

  /** How many zones inode `n` holds, when `who` is the one whose size is about to change. */
  ghost function Count(live: Inodes, n: int, who: int, zones: int): int
    requires n in live
  {
    if n == who then zones else ZonesOf(live[n].size)
  }

  ghost predicate AllGood(live: Inodes, who: int, zones: int) {
    forall n :: n in live ==> GoodInode(live[n], n, Count(live, n, who, zones))
  }

  function Prefix<T>(s: seq<T>, n: int): seq<T> {
    if 0 <= n <= |s| then s[..n] else s
  }

  ghost function HeldBy(live: Inodes, who: int, zones: int): Held {
    map n | n in live :: Prefix(live[n].zone, Count(live, n, who, zones))
  }

  /** The file system invariant, when `who` holds its first `zones` zones and every
      other file as many as its size asks for. */
  ghost predicate InvAt(disk: Disk, mem: Inodes, who: int, zones: int) {
    && DiskOn(disk)
    && 0 in IMAP.Set(disk)
    && (forall i :: i in IMAP.Set(disk) ==> i < NR_INODES)
    && (forall n :: n in mem ==> 1 <= n && n in IMAP.Set(disk))
    && AllGood(Live(disk, mem), who, zones)
    && Owned(HeldBy(Live(disk, mem), who, zones), ZMAP.Set(disk))
  }

  ghost predicate Inv(disk: Disk, mem: Inodes) {
    InvAt(disk, mem, 0, 0)
  }

  function Zeros(): Block {
    seq(BLOCK_SIZE, _ => 0)
  }

  function BlockAt(disk: Disk, b: int): Block {
    if Key(DEV, b) in disk then disk[Key(DEV, b)] else Zeros()
  }

  /** The blocks `zones` end to end. */
  ghost function Raw(disk: Disk, zones: seq<int>): (r: seq<bv8>)
    ensures |r| == 1024 * |zones|
  {
    if zones == [] then [] else Raw(disk, zones[..|zones| - 1]) + BlockAt(disk, zones[|zones| - 1])
  }

  lemma {:induction false} RawAt(disk: Disk, zones: seq<int>, i: int)
    requires 0 <= i < |zones|
    ensures Raw(disk, zones)[i * 1024..(i + 1) * 1024] == BlockAt(disk, zones[i])
  {
    var n := |zones| - 1;
    if i < n {
      RawAt(disk, zones[..n], i);
      assert (i + 1) * 1024 <= n * 1024;
    }
  }

  /** Writing a block outside a file leaves its bytes. */
  lemma {:induction false} RawFrame(disk: Disk, disk': Disk, zones: seq<int>)
    requires forall i :: 0 <= i < |zones| ==> BlockAt(disk', zones[i]) == BlockAt(disk, zones[i])
    ensures Raw(disk', zones) == Raw(disk, zones)
  {
    if zones != [] {
      RawFrame(disk, disk', zones[..|zones| - 1]);
    }
  }

  lemma RawLast(disk: Disk, zones: seq<int>)
    requires zones != []
    ensures Raw(disk, zones) == Raw(disk, zones[..|zones| - 1]) + BlockAt(disk, zones[|zones| - 1])
  {
  }

  lemma OverExtend(r: seq<bv8>, at: nat, bytes: seq<bv8>, last: seq<bv8>)
    requires at + |bytes| <= |r|
    ensures Over(r, at, bytes) + last == Over(r + last, at, bytes)
  {
  }

  lemma OverLast(r: seq<bv8>, last: Block, off: nat, bytes: seq<bv8>)
    requires off + |bytes| <= BLOCK_SIZE
    ensures r + Splice(last, off, bytes) == Over(r + last, |r| + off, bytes)
  {
  }

  /** Writing into block `i` of a file lays the bytes over its bytes. */
  lemma {:induction false} RawSplice(disk: Disk, zones: seq<int>, i: int, off: nat, bytes: seq<bv8>)
    requires forall j, k :: 0 <= j < k < |zones| ==> zones[j] != zones[k]
    requires 0 <= i < |zones| && off + |bytes| <= BLOCK_SIZE && Key(DEV, zones[i]) in disk
    ensures i * 1024 + off + |bytes| <= 1024 * |zones|
    ensures var k := Key(DEV, zones[i]);
            Raw(disk[k := Splice(disk[k], off, bytes)], zones) == Over(Raw(disk, zones), i * 1024 + off, bytes)
  {
    hide Over, Splice, Raw, BlockAt;
    var n := |zones| - 1;
    var k := Key(DEV, zones[i]);
    var x := Splice(disk[k], off, bytes);
    var disk' := disk[k := x];
    var r := Raw(disk, zones[..n]);
    RawLast(disk, zones);
    RawLast(disk', zones);
    BlockAfter(disk, zones[i], x, zones[n]);
    if i < n {
      assert (i + 1) * 1024 <= n * 1024;
      RawSplice(disk, zones[..n], i, off, bytes);
      OverExtend(r, i * 1024 + off, bytes, BlockAt(disk, zones[n]));
    } else {
      forall j | 0 <= j < n
        ensures BlockAt(disk', zones[..n][j]) == BlockAt(disk, zones[..n][j])
      {
        BlockAfter(disk, zones[n], x, zones[j]);
      }
      RawFrame(disk, disk', zones[..n]);
      OverLast(r, disk[k], off, bytes);
      BlockAfter(disk, zones[n], disk[k], zones[n]);
      assert disk[k := disk[k]] == disk;
    }
  }

  lemma BlockAfter(disk: Disk, b: int, x: Block, c: int)
    ensures BlockAt(disk[Key(DEV, b) := x], c) == if c == b then x else BlockAt(disk, c)
  {
  }

  // ----- what depends on which block -----

  /** `disk'` differs from `disk` at block `b` only. */
  ghost predicate OnlyBlock(disk: Disk, disk': Disk, b: int) {
    disk'.Keys == disk.Keys && forall k :: k in disk && k != Key(DEV, b) ==> disk'[k] == disk[k]
  }

  lemma OnlyBlockLaws(disk: Disk, disk': Disk, mem: Inodes, b: int)
    requires DiskOn(disk) && OnlyBlock(disk, disk', b)
    ensures b != 1 ==> DiskOn(disk')
    ensures b != 2 ==> IMAP.Set(disk') == IMAP.Set(disk)
    ensures b != 3 ==> ZMAP.Set(disk') == ZMAP.Set(disk)
    ensures b != 2 && (b < TABLE_START || TABLE_START + TABLE_BLOCKS <= b) ==> Live(disk', mem) == Live(disk, mem)
  {
    hide Area.Set, Slot, SlotKey;
    if b != 2 {
      SetOfBlock(disk, disk', IMAP);
    }
    if b != 3 {
      SetOfBlock(disk, disk', ZMAP);
    }
    if b != 2 && (b < TABLE_START || TABLE_START + TABLE_BLOCKS <= b) {
      forall n | 1 <= n < NR_INODES
        ensures SlotKey(n) in disk && SlotKey(n) in disk' && Slot(disk', n) == Slot(disk, n)
      {
        SlotOffBlock(disk, disk', b, n);
      }
    }
  }

  /** An inode record depends on its block only. */
  lemma SlotOffBlock(disk: Disk, disk': Disk, b: int, n: int)
    requires DiskOn(disk) && OnlyBlock(disk, disk', b) && 1 <= n < NR_INODES
    requires b < TABLE_START || TABLE_START + TABLE_BLOCKS <= b
    ensures SlotKey(n) in disk && SlotKey(n) in disk' && Slot(disk', n) == Slot(disk, n)
  {
    hide Decode, SlotOff;
    SlotsDisjoint(n, n);
  }

  /** A bitmap of one block depends on that block only. */
  lemma SetOfBlock(disk: Disk, disk': Disk, a: Area)
    requires a.On(disk) && a.On(disk') && a.end == a.start + 1
    requires disk'[Key(a.dev, a.start)] == disk[Key(a.dev, a.start)]
    ensures a.Set(disk') == a.Set(disk)
  {
    hide Bit;
    forall i | 0 <= i < a.Bits()
      ensures a.Test(disk', i) == a.Test(disk, i)
    {
      assert a.Home(i) == Key(a.dev, a.start);
    }
  }

  // ----- one step of an operation on inode `n`: everything else stays -----

  /** All other files keep their inode fields, their blocks and their bytes. */
  ghost predicate OthersKept(disk: Disk, mem: Inodes, z: int, disk': Disk, mem': Inodes, z': int, n: int)
  {
    var live, live' := Live(disk, mem), Live(disk', mem');
    var held := HeldBy(live, n, z);
    && (forall m :: m != n ==> (m in live <==> m in live'))
    && (forall m :: m != n && m in live ==> live'[m] == live[m] && Raw(disk', held[m]) == Raw(disk, held[m]))
  }

  lemma OthersKeptTrans(d1: Disk, m1: Inodes, z1: int, d2: Disk, m2: Inodes, z2: int,
                        d3: Disk, m3: Inodes, z3: int, n: int)
    requires OthersKept(d1, m1, z1, d2, m2, z2, n) && OthersKept(d2, m2, z2, d3, m3, z3, n)
    ensures OthersKept(d1, m1, z1, d3, m3, z3, n)
  {
    hide Live, Raw;
  }

  /** The common part of a step: block `b`, which no other file holds, is the only one
      of the disk that changes apart from the bitmaps. */
  lemma OthersBytes(disk: Disk, disk': Disk, held: Held, n: int)
    requires forall m, i :: m in held && m != n && 0 <= i < |held[m]| ==>
                              BlockAt(disk', held[m][i]) == BlockAt(disk, held[m][i])
    ensures forall m :: m in held && m != n ==> Raw(disk', held[m]) == Raw(disk, held[m])
  {
    forall m | m in held && m != n
      ensures Raw(disk', held[m]) == Raw(disk, held[m])
    {
      RawFrame(disk, disk', held[m]);
    }
  }

  /** Setting the inode in memory sets what is live. */
  lemma LiveUpdate(disk: Disk, mem: Inodes, n: int, d: DInode)
    requires n in Live(disk, mem)
    ensures Live(disk, mem[n := d]) == Live(disk, mem)[n := d]
  {
    hide Slot, Area.Set;
  }

  lemma HeldUpdate(live: Inodes, n: int, z: int, d: DInode, z': int)
    requires AllGood(live, n, z) && GoodInode(d, n, z')
    ensures AllGood(live[n := d], n, z')
    ensures ZonesOf(d.size) == z' && n != 0 && 0 !in live ==> AllGood(live[n := d], 0, 0)
    ensures HeldBy(live[n := d], n, z') == HeldBy(live, n, z)[n := Prefix(d.zone, z')]
    ensures HeldBy(live, n, z).Keys == live.Keys && HeldBy(live[n := d], n, z').Keys == live[n := d].Keys
  {
  }

  /** A step on the loaded inode `n` that keeps the inode bitmap, the table and the blocks
      of other files, and whose new blocks of `n` agree with the zone bitmap. */
  lemma StepLaws(disk: Disk, mem: Inodes, n: int, z: int, disk': Disk, d: DInode, z': int)
    requires InvAt(disk, mem, n, z) && n in mem && DiskOn(disk')
    requires IMAP.Set(disk') == IMAP.Set(disk) && Live(disk', mem) == Live(disk, mem)
    requires GoodInode(d, n, z')
    requires var held := HeldBy(Live(disk, mem), n, z);
             && Owned(held[n := Prefix(d.zone, z')], ZMAP.Set(disk'))
             && forall m, i :: m in held && m != n && 0 <= i < |held[m]| ==>
                                 BlockAt(disk', held[m][i]) == BlockAt(disk, held[m][i])
    ensures InvAt(disk', mem[n := d], n, z')
    ensures OthersKept(disk, mem, z, disk', mem[n := d], z', n)
  {
    hide Owned, Raw, Slot, Live, HeldBy, AllGood, GoodInode, Area.Set;
    var live := Live(disk, mem);
    var held := HeldBy(live, n, z);
    LoadedIsLive(disk, mem, n, z);
    LiveUpdate(disk', mem, n, d);
    HeldUpdate(live, n, z, d, z');
    OthersBytes(disk, disk', held, n);
  }

  lemma LoadedIsLive(disk: Disk, mem: Inodes, n: int, z: int)
    requires InvAt(disk, mem, n, z) && n in mem
    ensures n in Live(disk, mem) && Live(disk, mem)[n] == mem[n]
    ensures 1 <= n < NR_INODES && SlotKey(n) in disk
  {
    hide Area.Set, Slot, HeldBy, Owned, SlotKey, AllGood;
    SlotsDisjoint(n, n);
    SlotKeyDev(n);
  }

  lemma SlotKeyDev(n: int)
    ensures SlotKey(n) == Key(DEV, SlotKey(n).blk)
  {
  }

  /** The blocks inode `n` holds, and what the invariant says of them. */
  lemma HeldLaws(disk: Disk, mem: Inodes, n: int, z: int)
    requires InvAt(disk, mem, n, z) && n in mem
    ensures n in Live(disk, mem) && Live(disk, mem)[n] == mem[n] && GoodInode(mem[n], n, z)
    ensures var held := HeldBy(Live(disk, mem), n, z);
            && n in held && held[n] == mem[n].zone[..z]
            && (forall m, i :: m in held && 0 <= i < |held[m]| ==>
                                 held[m][i] >= DATA_START && held[m][i] in ZMAP.Set(disk))
            && (forall m, i, j :: m in held && m != n && 0 <= i < |held[m]| && 0 <= j < z ==>
                                 held[m][i] != mem[n].zone[j])
    ensures forall i :: 0 <= i < z ==> DATA_START <= mem[n].zone[i] < NR_BLOCKS
    ensures forall i, j :: 0 <= i < j < z ==> mem[n].zone[i] != mem[n].zone[j]
  {
    hide Slot, SlotKey, Area.Set, Raw, Owned;
    LoadedIsLive(disk, mem, n, z);
    hide Live;
    var held := HeldBy(Live(disk, mem), n, z);
    assert n in held && held[n] == mem[n].zone[..z];
    hide HeldBy;
    OwnedLaws(held, ZMAP.Set(disk), n, mem[n].zone, z);
  }

  lemma OwnedLaws(held: Held, used: set<int>, n: int, zone: seq<int>, z: int)
    requires Owned(held, used) && n in held && 0 <= z <= |zone| && held[n] == zone[..z]
    ensures forall m, i :: m in held && 0 <= i < |held[m]| ==> held[m][i] >= DATA_START && held[m][i] in used
    ensures forall m, i, j :: m in held && m != n && 0 <= i < |held[m]| && 0 <= j < z ==> held[m][i] != zone[j]
    ensures forall i :: 0 <= i < z ==> DATA_START <= zone[i] < NR_BLOCKS
    ensures forall i, j :: 0 <= i < j < z ==> zone[i] != zone[j]
  {
    forall m, i | m in held && 0 <= i < |held[m]|
      ensures held[m][i] in used
    {
      assert Holds(held, held[m][i]);
    }
    assert forall i :: 0 <= i < z ==> held[n][i] == zone[i];
  }

  /** The disk after `_get_blk` returned `b`. */
  function GotBlock(disk: Disk, b: int): Disk
    requires ZMAP.Home(b) in disk && 0 <= b < NR_BLOCKS
  {
    disk[ZMAP.Home(b) := WithBit(disk[ZMAP.Home(b)], b % SECTOR_BITS, true)][Key(DEV, b) := Zeros()]
  }

  /** The disk after `_put_blk` of `b`. */
  function PutBlock(disk: Disk, b: int): Disk
    requires ZMAP.Home(b) in disk && 0 <= b < NR_BLOCKS
  {
    disk[ZMAP.Home(b) := WithBit(disk[ZMAP.Home(b)], b % SECTOR_BITS, false)]
  }

  function WithZone(d: DInode, i: int, b: int): DInode
    requires 0 <= i < |d.zone|
  {
    d.(zone := d.zone[i := b])
  }

  /** One turn of the growing loop of `_reserve_zone`. */
  lemma GrowStep(disk: Disk, mem: Inodes, n: int, z: int, b: int)
    requires InvAt(disk, mem, n, z) && n in mem && z < MAX_ZONES
    requires 0 <= b < NR_BLOCKS && b !in ZMAP.Set(disk)
    ensures ZMAP.Home(b) in disk && |mem[n].zone| == 9 && z >= 0
    ensures forall j :: 0 <= j < z ==> DATA_START <= mem[n].zone[j] < NR_BLOCKS
    ensures var disk', mem' := GotBlock(disk, b), mem[n := WithZone(mem[n], z, b)];
            && InvAt(disk', mem', n, z + 1)
            && OthersKept(disk, mem, z, disk', mem', z + 1, n)
            && ZMAP.Set(disk') == ZMAP.Set(disk) + {b}
            && Raw(disk', mem'[n].zone[..z + 1]) == Raw(disk, mem[n].zone[..z]) + Zeros()
  {
    hide Slot, Area.Set, Raw, Live, HeldBy, Owned, WithBit;
    HeldLaws(disk, mem, n, z);
    var held := HeldBy(Live(disk, mem), n, z);
    assert ZMAP.Home(b) == Key(DEV, 3);
    var disk1 := disk[Key(DEV, 3) := WithBit(disk[Key(DEV, 3)], b % SECTOR_BITS, true)];
    var disk' := GotBlock(disk, b);
    SetAfter(disk, ZMAP, b, true);
    OnlyBlockLaws(disk, disk1, mem, 3);
    Take(held, ZMAP.Set(disk), n, b);
    ReservedUsed(held, ZMAP.Set(disk), b);
    OnlyBlockLaws(disk1, disk', mem, b);
    var d := WithZone(mem[n], z, b);
    assert d.zone[..z + 1] == held[n] + [b];
    StepLaws(disk, mem, n, z, disk', d, z + 1);
    RawGrow(disk, disk', mem[n].zone[..z], b);
  }

  lemma ReservedUsed(held: Held, used: set<int>, b: int)
    requires Owned(held, used) && b !in used && 0 <= b
    ensures b >= DATA_START
  {
  }

  lemma RawGrow(disk: Disk, disk': Disk, zones: seq<int>, b: int)
    requires forall i :: 0 <= i < |zones| ==> BlockAt(disk', zones[i]) == BlockAt(disk, zones[i])
    ensures Raw(disk', zones + [b]) == Raw(disk, zones) + BlockAt(disk', b)
  {
    RawFrame(disk, disk', zones);
    assert (zones + [b])[..|zones|] == zones;
  }

  /** One turn of the truncating loop of `_reserve_zone`. */
  lemma ShrinkStep(disk: Disk, mem: Inodes, n: int, z: int)
    requires InvAt(disk, mem, n, z) && n in mem && z > 0
    ensures |mem[n].zone| == 9 && z <= MAX_ZONES
    ensures forall j :: 0 <= j < z ==> DATA_START <= mem[n].zone[j] < NR_BLOCKS
    ensures mem[n].zone[z - 1] in ZMAP.Set(disk) && ZMAP.Home(mem[n].zone[z - 1]) in disk
    ensures var b := mem[n].zone[z - 1];
            var disk', mem' := PutBlock(disk, b), mem[n := WithZone(mem[n], z - 1, 0)];
            && InvAt(disk', mem', n, z - 1)
            && OthersKept(disk, mem, z, disk', mem', z - 1, n)
            && ZMAP.Set(disk') == ZMAP.Set(disk) - {b}
            && Raw(disk, mem[n].zone[..z]) == Raw(disk', mem'[n].zone[..z - 1]) + BlockAt(disk, b)
  {
    hide Slot, Area.Set, Raw, Live, HeldBy, Owned, WithBit;
    HeldLaws(disk, mem, n, z);
    var held := HeldBy(Live(disk, mem), n, z);
    var b := held[n][z - 1];
    assert ZMAP.Home(b) == Key(DEV, 3);
    var disk' := PutBlock(disk, b);
    SetAfter(disk, ZMAP, b, false);
    OnlyBlockLaws(disk, disk', mem, 3);
    Give(held, ZMAP.Set(disk), n);
    var d := WithZone(mem[n], z - 1, 0);
    assert d.zone[..z - 1] == held[n][..z - 1];
    StepLaws(disk, mem, n, z, disk', d, z - 1);
    RawGrow(disk', disk, mem[n].zone[..z - 1], b);
    assert mem[n].zone[..z - 1] + [b] == mem[n].zone[..z];
  }

  /** Bytes go into block `i` of the file: its bytes change there, nothing else does. */
  lemma DataStep(disk: Disk, mem: Inodes, n: int, z: int, i: int, off: nat, bytes: seq<bv8>)
    requires InvAt(disk, mem, n, z) && n in mem && 0 <= i < z && off + |bytes| <= BLOCK_SIZE
    ensures |mem[n].zone| == 9 && z <= MAX_ZONES
    ensures forall j :: 0 <= j < z ==> DATA_START <= mem[n].zone[j] < NR_BLOCKS
    ensures i * 1024 + off + |bytes| <= z * 1024
    ensures var k := Key(DEV, mem[n].zone[i]);
            k in disk &&
            var disk' := disk[k := Splice(disk[k], off, bytes)];
            && InvAt(disk', mem, n, z)
            && OthersKept(disk, mem, z, disk', mem, z, n)
            && ZMAP.Set(disk') == ZMAP.Set(disk)
            && Raw(disk', mem[n].zone[..z]) == Over(Raw(disk, mem[n].zone[..z]), i * 1024 + off, bytes)
  {
    hide Slot, Area.Set, Raw, Live, HeldBy, Owned, WithBit, Splice, Over;
    HeldLaws(disk, mem, n, z);
    var held := HeldBy(Live(disk, mem), n, z);
    var b := mem[n].zone[i];
    var k := Key(DEV, b);
    var disk' := disk[k := Splice(disk[k], off, bytes)];
    OnlyBlockLaws(disk, disk', mem, b);
    assert held[n := mem[n].zone[..z]] == held && mem[n := mem[n]] == mem;
    StepLaws(disk, mem, n, z, disk', mem[n], z);
    RawSplice(disk, mem[n].zone[..z], i, off, bytes);
  }

  /** The inode fields change, the blocks do not. */
  lemma MetaStep(disk: Disk, mem: Inodes, n: int, z: int, d: DInode)
    requires InvAt(disk, mem, n, z) && n in mem
    requires GoodInode(d, n, z) && d.zone == mem[n].zone
    ensures InvAt(disk, mem[n := d], n, z)
    ensures OthersKept(disk, mem, z, disk, mem[n := d], z, n)
  {
    hide Slot, Area.Set, Raw, Live, HeldBy, Owned;
    HeldLaws(disk, mem, n, z);
    var held := HeldBy(Live(disk, mem), n, z);
    assert held[n := d.zone[..z]] == held;
    StepLaws(disk, mem, n, z, disk, d, z);
  }

  /** The disk after `write_inode` of `d`. */
  function WroteInode(disk: Disk, d: DInode, tail: seq<bv8>): Disk
    requires SlotKey(d.inum) in disk && |d.zone| == 9 && |tail| == 24
  {
    disk[SlotKey(d.inum) := Splice(disk[SlotKey(d.inum)], SlotOff(d.inum), Encode(d, tail))]
  }

  /** `write_inode` of a loaded inode brings the disk up to date and changes nothing live. */
  lemma SlotStep(disk: Disk, mem: Inodes, n: int, z: int, tail: seq<bv8>)
    requires InvAt(disk, mem, n, z) && n in mem && |tail| == 24
    ensures mem[n].inum == n && SlotKey(n) in disk && |mem[n].zone| == 9
    ensures var disk' := WroteInode(disk, mem[n], tail);
            && InvAt(disk', mem, n, z)
            && OthersKept(disk, mem, z, disk', mem, z, n)
            && SlotKey(n) in disk' && Slot(disk', n) == mem[n]
            && ZMAP.Set(disk') == ZMAP.Set(disk) && IMAP.Set(disk') == IMAP.Set(disk)
            && Raw(disk', Prefix(mem[n].zone, z)) == Raw(disk, Prefix(mem[n].zone, z))
  {
    hide Area.Set, Raw, HeldBy, Owned, Splice, Encode, SlotOff, Slot, SlotKey, Live, DiskOn;
    LoadedIsLive(disk, mem, n, z);
    HeldLaws(disk, mem, n, z);
    SlotsDisjoint(n, n);
    SlotKeyDev(n);
    var disk' := WroteInode(disk, mem[n], tail);
    OnlyBlockLaws(disk, disk', mem, SlotKey(n).blk);
    SlotLive(disk, mem, n, tail);
    var held := HeldBy(Live(disk, mem), n, z);
    assert held[n := Prefix(mem[n].zone, z)] == held && mem[n := mem[n]] == mem;
    StepLaws(disk, mem, n, z, disk', mem[n], z);
    RawFrame(disk, disk', Prefix(mem[n].zone, z));
  }

  lemma SlotLive(disk: Disk, mem: Inodes, n: int, tail: seq<bv8>)
    requires DiskOn(disk) && n in mem && 1 <= n < NR_INODES && |tail| == 24
    requires mem[n].inum == n && mem[n].Fits() && SlotKey(n) in disk
    ensures var disk' := WroteInode(disk, mem[n], tail);
            && SlotKey(n) in disk' && Slot(disk', n) == mem[n]
            && (IMAP.Set(disk') == IMAP.Set(disk) ==> Live(disk', mem) == Live(disk, mem))
  {
    hide Area.Set, Slot, SlotKey, SlotOff, Encode, Splice;
    var disk' := WroteInode(disk, mem[n], tail);
    forall m | 1 <= m < NR_INODES
      ensures SlotKey(m) in disk && Slot(disk', m) == if m == n then mem[n] else Slot(disk, m)
    {
      SlotsDisjoint(m, m);
      SlotKeyDev(m);
      SlotAfterWrite(disk, n, mem[n], tail, m);
    }
  }

  // ----- whole operations -----

  ghost function FileOf(disk: Disk, d: DInode): File {
    File(Prefix(Raw(disk, Prefix(d.zone, ZonesOf(d.size))), d.size), d.mode, d.nlink)
  }

  /** Every live file: the abstract state of the file system. */
  ghost function Files(disk: Disk, mem: Inodes): map<int, File> {
    map n | n in Live(disk, mem) :: FileOf(disk, Live(disk, mem)[n])
  }

  /** An inode that holds as many zones as its size asks for is no exception. */
  lemma Settle(disk: Disk, mem: Inodes, n: int)
    requires n in mem
    ensures Inv(disk, mem) <==> InvAt(disk, mem, n, ZonesOf(mem[n].size))
  {
    hide Owned, Area.Set, Raw, Slot;
    var live := Live(disk, mem);
    var z := ZonesOf(mem[n].size);
    assert 0 !in live;
    assert n in live ==> live[n] == mem[n];
    assert HeldBy(live, 0, 0) == HeldBy(live, n, z);
  }

  lemma FilesAfter(disk: Disk, mem: Inodes, disk': Disk, mem': Inodes, n: int)
    requires Inv(disk, mem) && Inv(disk', mem') && n in mem && n in mem'
    requires OthersKept(disk, mem, ZonesOf(mem[n].size), disk', mem', ZonesOf(mem'[n].size), n)
    ensures Files(disk', mem') == Files(disk, mem)[n := FileOf(disk', mem'[n])]
  {
    hide Live, Raw, Owned, InvAt, Prefix, Area.Set;
    Settle(disk, mem, n);
    Settle(disk', mem', n);
    LoadedIsLive(disk, mem, n, ZonesOf(mem[n].size));
    LoadedIsLive(disk', mem', n, ZonesOf(mem'[n].size));
    var live, live' := Live(disk, mem), Live(disk', mem');
    forall m | m in live && m != n
      ensures m in live' && FileOf(disk', live'[m]) == FileOf(disk, live[m])
    {
      assert HeldBy(live, n, ZonesOf(mem[n].size))[m] == Prefix(live[m].zone, ZonesOf(live[m].size));
    }
    hide FileOf, HeldBy;
    forall m
      ensures m in live <==> m in live'
    {
      if m == n {}
    }
  }

  /** The disk after `alloc_inode_nr` returned `i`, or after `free_inode_nr` of it. */
  function MarkedInode(disk: Disk, i: int, on: bool): Disk
    requires IMAP.Home(i) in disk && 0 <= i < SECTOR_BITS
  {
    disk[IMAP.Home(i) := WithBit(disk[IMAP.Home(i)], i % SECTOR_BITS, on)]
  }

  function NewInode(i: int, mode: int): DInode {
    DInode(i, 0, mode, 0, [0, 0, 0, 0, 0, 0, 0, 0, 0])
  }

  lemma MarkLaws(disk: Disk, i: int, on: bool)
    requires DiskOn(disk) && 0 <= i < NR_INODES
    ensures IMAP.Home(i) in disk && OnlyBlock(disk, MarkedInode(disk, i, on), 2)
    ensures DiskOn(MarkedInode(disk, i, on)) && ZMAP.Set(MarkedInode(disk, i, on)) == ZMAP.Set(disk)
    ensures IMAP.Set(MarkedInode(disk, i, on)) == if on then IMAP.Set(disk) + {i} else IMAP.Set(disk) - {i}
    ensures forall n :: SlotKey(n) in disk && 1 <= n < NR_INODES ==> Slot(MarkedInode(disk, i, on), n) == Slot(disk, n)
  {
    hide WithBit, Area.Set, Slot;
    assert IMAP.Home(i) == Key(DEV, 2);
    SetAfter(disk, IMAP, i, on);
    OnlyBlockLaws(disk, MarkedInode(disk, i, on), map[], 2);
    forall n | SlotKey(n) in disk && 1 <= n < NR_INODES
      ensures Slot(MarkedInode(disk, i, on), n) == Slot(disk, n)
    {
      SlotsDisjoint(n, n);
      SlotElsewhere(disk, MarkedInode(disk, i, on), n);
    }
  }

  lemma SlotElsewhere(disk: Disk, disk': Disk, n: int)
    requires OnlyBlock(disk, disk', 2) && SlotKey(n) in disk && SlotKey(n).blk != 2
    ensures Slot(disk', n) == Slot(disk, n)
  {
  }

  /** `create_inode` on a free number `i`: one more file, empty and without links. */
  lemma CreateStep(disk: Disk, mem: Inodes, i: int, mode: int)
    requires Inv(disk, mem) && i !in IMAP.Set(disk) && 0 <= i < NR_INODES && 0 <= mode < 0x1_0000
    ensures IMAP.Home(i) in disk && 1 <= i && i !in mem && i !in Files(disk, mem)
    ensures var disk', mem' := MarkedInode(disk, i, true), mem[i := NewInode(i, mode)];
            && Inv(disk', mem')
            && ZMAP.Set(disk') == ZMAP.Set(disk)
            && Files(disk', mem') == Files(disk, mem)[i := File([], mode, 0)]
  {
    hide Area.Set, Slot, Raw, Owned, SlotKey, HeldBy, AllGood, FileOf, Live, BlockAt, OnlyBlock, Files;
    CreateLive(disk, mem, i, mode);
    MarkLaws(disk, i, true);
    NotLive(disk, mem, i);
    var d := NewInode(i, mode);
    var disk', mem' := MarkedInode(disk, i, true), mem[i := d];
    HeldUpdate(Live(disk, mem), i, 0, d, 0);
    BlocksAndFiles(disk, mem, disk', mem', i);
    NewFile(disk', i, mode);
    OneMoreFile(disk, mem, disk', mem', i, d);
  }

  lemma OneMoreFile(disk: Disk, mem: Inodes, disk': Disk, mem': Inodes, i: int, d: DInode)
    requires i !in Live(disk, mem) && Live(disk', mem') == Live(disk, mem)[i := d]
    requires forall m :: m in Live(disk, mem) ==>
                           FileOf(disk', Live(disk', mem')[m]) == FileOf(disk, Live(disk, mem)[m])
    ensures i !in Files(disk, mem) && Files(disk', mem') == Files(disk, mem)[i := FileOf(disk', d)]
  {
    hide Live, FileOf;
    var files, files' := Files(disk, mem), Files(disk', mem');
    assert files'.Keys == files.Keys + {i};
    forall m | m in files
      ensures files'[m] == files[m]
    {
      assert m in Live(disk, mem);
    }
  }

  lemma CreateLive(disk: Disk, mem: Inodes, i: int, mode: int)
    requires Inv(disk, mem) && i !in IMAP.Set(disk) && 0 <= i < NR_INODES
    ensures IMAP.Home(i) in disk && 1 <= i && i !in mem
    ensures 0 !in Live(disk, mem) && i !in Live(disk, mem)
    ensures var disk', mem' := MarkedInode(disk, i, true), mem[i := NewInode(i, mode)];
            Live(disk', mem') == Live(disk, mem)[i := NewInode(i, mode)]
  {
    hide Area.Set, Slot, SlotKey, HeldBy, AllGood, Owned;
    MarkLaws(disk, i, true);
    SlotsDisjoint(i, i);
    SlotKeyDev(i);
  }

  lemma NewFile(disk: Disk, i: int, mode: int)
    ensures FileOf(disk, NewInode(i, mode)) == File([], mode, 0)
  {
  }

  lemma NotLive(disk: Disk, mem: Inodes, i: int)
    requires Inv(disk, mem) && i !in Live(disk, mem)
    ensures InvAt(disk, mem, i, 0)
  {
    hide Area.Set, Slot, Raw, Owned;
    assert 0 !in Live(disk, mem);
    assert HeldBy(Live(disk, mem), i, 0) == HeldBy(Live(disk, mem), 0, 0);
  }

  /** Inode `n`, holding nothing, comes or goes; the data blocks stay. */
  lemma BlocksAndFiles(disk: Disk, mem: Inodes, disk': Disk, mem': Inodes, n: int)
    requires InvAt(disk, mem, n, 0) && OnlyBlock(disk, disk', 2) && 0 !in Live(disk, mem)
    requires var live, live' := Live(disk, mem), Live(disk', mem');
             && (n in live' ==> ZonesOf(live'[n].size) == 0)
             && (forall m :: m != n ==> (m in live <==> m in live'))
             && (forall m :: m != n && m in live ==> live'[m] == live[m])
             && AllGood(live', 0, 0)
    ensures Owned(HeldBy(Live(disk', mem'), 0, 0), ZMAP.Set(disk))
    ensures forall m :: m in Live(disk, mem) && m != n ==>
                          FileOf(disk', Live(disk', mem')[m]) == FileOf(disk, Live(disk, mem)[m])
  {
    hide Area.Set, Slot, Raw, Owned, Live, DiskOn;
    var live, live' := Live(disk, mem), Live(disk', mem');
    var held, held' := HeldBy(live, n, 0), HeldBy(live', 0, 0);
    forall m
      ensures Of(held, m) == Of(held', m)
    {
    }
    SameBlocks(held, held', ZMAP.Set(disk));
    forall m | m in live && m != n
      ensures FileOf(disk', live'[m]) == FileOf(disk, live[m])
    {
      DataBlocks(held, ZMAP.Set(disk), m);
      RawFrame(disk, disk', held[m]);
    }
  }

  lemma DataBlocks(held: Held, used: set<int>, m: int)
    requires Owned(held, used) && m in held
    ensures forall i :: 0 <= i < |held[m]| ==> DATA_START <= held[m][i] < NR_BLOCKS
  {
  }

  /** The end of a last `put_inode` without links: the file is gone. */
  lemma DeleteStep(disk: Disk, mem: Inodes, n: int)
    requires InvAt(disk, mem, n, 0) && n in mem
    ensures IMAP.Home(n) in disk && 1 <= n < NR_INODES
    ensures var disk', mem' := MarkedInode(disk, n, false), mem - {n};
            && Inv(disk', mem')
            && ZMAP.Set(disk') == ZMAP.Set(disk)
            && Live(disk', mem').Keys == Live(disk, mem).Keys - {n}
            && forall m :: m in Live(disk, mem) && m != n ==>
                             FileOf(disk', Live(disk', mem')[m]) == FileOf(disk, Live(disk, mem)[m])
  {
    hide Area.Set, Slot, Raw, Owned, SlotKey;
    LoadedIsLive(disk, mem, n, 0);
    MarkLaws(disk, n, false);
    var disk', mem' := MarkedInode(disk, n, false), mem - {n};
    var live, live' := Live(disk, mem), Live(disk', mem');
    assert live' == live - {n};
    assert AllGood(live', 0, 0);
    BlocksAndFiles(disk, mem, disk', mem', n);
  }

  /** `get_inode` of an inode on the disk, or dropping one that the disk has: nothing live changes. */
  lemma LoadStep(disk: Disk, mem: Inodes, mem': Inodes)
    requires Inv(disk, mem) && forall n :: n in mem' && n !in mem ==> n in IMAP.Set(disk) && 1 <= n
    requires forall n :: n in mem' && n in mem ==> mem'[n] == mem[n]
    requires forall n :: SlotKey(n) in disk && ((n in mem') != (n in mem)) ==>
                           Slot(disk, n) == if n in mem then mem[n] else mem'[n]
    ensures Live(disk, mem') == Live(disk, mem)
    ensures Inv(disk, mem') && Files(disk, mem') == Files(disk, mem)
  {
    hide Area.Set, Slot, Raw, Owned, SlotKey, HeldBy;
  }
}
