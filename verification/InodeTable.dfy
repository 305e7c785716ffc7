/** The inode table of fs/fs.c: 72-byte records, 14 to a block, laid out as
  `struct inode` of include/fs.h is on the i386. */
module InodeTable {
  import opened Buffers
  import opened Bytes

  const INODE_SIZE: nat := 72
  const PER_BLK: nat := BLOCK_SIZE / INODE_SIZE
  const TABLE_START: int := 4
  const TABLE_BLOCKS: int := 6
  const NR_INODES: int := TABLE_BLOCKS * PER_BLK
  const DEV: int := 3

  /** The part of `struct inode` that `read_inode` takes from the disk. */
  datatype DInode = DInode(inum: int, size: int, mode: int, nlink: int, zone: seq<int>) {
    /** Every field fits its C type: unsigned long, off_t, unsigned short, short, sector_t. */
    predicate Fits() {
      && 0 <= inum < 0x1_0000_0000
      && -0x8000_0000 <= size < 0x8000_0000
      && 0 <= mode < 0x1_0000
      && -0x8000 <= nlink < 0x8000
      && |zone| == 9
      && forall i :: 0 <= i < 9 ==> -0x8000_0000 <= zone[i] < 0x8000_0000
    }
  }

  function Byte(n: int): bv8 {
    ToByte(n % 256)
  }

  /** The low two and four bytes of `n` in two's complement, least significant first. */
  function Bytes2(n: int): (s: seq<bv8>)
    ensures |s| == 2
  {
    [Byte(n), Byte(n / 256)]
  }

  function Bytes4(n: int): (s: seq<bv8>)
    ensures |s| == 4
  {
    Bytes2(n) + Bytes2(n / 0x1_0000)
  }

  function Unsigned2(s: seq<bv8>): int
    requires |s| == 2
  {
    OfByte(s[0]) + 256 * OfByte(s[1])
  }

  function Unsigned4(s: seq<bv8>): int
    requires |s| == 4
  {
    Unsigned2(s[..2]) + 0x1_0000 * Unsigned2(s[2..])
  }

  function Signed2(s: seq<bv8>): int
    requires |s| == 2
  {
    var u := Unsigned2(s);
    if u >= 0x8000 then u - 0x1_0000 else u
  }

  function Signed4(s: seq<bv8>): int
    requires |s| == 4
  {
    var u := Unsigned4(s);
    if u >= 0x8000_0000 then u - 0x1_0000_0000 else u
  }

  /** Reading a stored field back gives the value, for every value of its C type. */
  lemma Back2(n: int)
    ensures Unsigned2(Bytes2(n)) == n % 0x1_0000
    ensures 0 <= n < 0x1_0000 ==> Unsigned2(Bytes2(n)) == n
    ensures -0x8000 <= n < 0x8000 ==> Signed2(Bytes2(n)) == n
  {
    hide Byte, OfByte;
    ByteBack(n);
    ByteBack(n / 256);
    TwoDigits(n);
  }

  lemma TwoDigits(n: int)
    ensures n % 256 + 256 * (n / 256 % 256) == n % 0x1_0000
    ensures 0 <= n < 0x1_0000 ==> n % 0x1_0000 == n
    ensures -0x8000 <= n < 0 ==> n % 0x1_0000 == n + 0x1_0000
  {
    var q, r := n / 256, n % 256;
    assert n == 256 * q + r && q == 256 * (q / 256) + q % 256;
    assert n == 0x1_0000 * (q / 256) + (256 * (q % 256) + r);
  }

  lemma Back4(n: int)
    ensures 0 <= n < 0x1_0000_0000 ==> Unsigned4(Bytes4(n)) == n
    ensures -0x8000_0000 <= n < 0x8000_0000 ==> Signed4(Bytes4(n)) == n
  {
    hide Bytes2, Unsigned2;
    assert Bytes4(n)[..2] == Bytes2(n) && Bytes4(n)[2..] == Bytes2(n / 0x1_0000);
    Back2(n);
    Back2(n / 0x1_0000);
  }

  lemma ByteBack(n: int)
    ensures OfByte(Byte(n)) == n % 256
  {
    hide ToByte, OfByte;
    ToAndOfByte(n % 256);
  }

  /** memcpy of a `struct inode` into a block: 48 bytes of fields, then `tail`, the
      24 bytes of pointers and counters that only mean something in memory. */
  function Encode(d: DInode, tail: seq<bv8>): (s: seq<bv8>)
    requires |d.zone| == 9 && |tail| == 24
    ensures |s| == INODE_SIZE
  {
    Bytes4(d.inum) + Bytes4(d.size) + Bytes2(d.mode) + Bytes2(d.nlink) + EncodeZones(d.zone) + tail
  }

  function EncodeZones(zone: seq<int>): (s: seq<bv8>)
    ensures |s| == 4 * |zone|
  {
    if zone == [] then [] else Bytes4(zone[0]) + EncodeZones(zone[1..])
  }

  function Decode(s: seq<bv8>): DInode
    requires |s| == INODE_SIZE
  {
    DInode(Unsigned4(s[0..4]), Signed4(s[4..8]), Unsigned2(s[8..10]), Signed2(s[10..12]), DecodeZones(s[12..48]))
  }

  function DecodeZones(s: seq<bv8>): (zone: seq<int>)
    requires |s| % 4 == 0
    ensures |zone| == |s| / 4
  {
    if s == [] then [] else [Signed4(s[..4])] + DecodeZones(s[4..])
  }

  lemma {:induction false} ZonesRoundTrip(zone: seq<int>)
    requires forall i :: 0 <= i < |zone| ==> -0x8000_0000 <= zone[i] < 0x8000_0000
    ensures DecodeZones(EncodeZones(zone)) == zone
  {
    if zone != [] {
      hide Bytes4, Signed4;
      var s := EncodeZones(zone);
      assert s[..4] == Bytes4(zone[0]) && s[4..] == EncodeZones(zone[1..]);
      Back4(zone[0]);
      ZonesRoundTrip(zone[1..]);
    }
  }

  /** What `read_inode` finds after `write_inode`. */
  lemma RoundTrip(d: DInode, tail: seq<bv8>)
    requires d.Fits() && |tail| == 24
    ensures Decode(Encode(d, tail)) == d
  {
    hide Bytes2, Bytes4, Unsigned2, Unsigned4, Signed2, Signed4, EncodeZones, DecodeZones;
    var s := Encode(d, tail);
    assert s[0..4] == Bytes4(d.inum);
    assert s[4..8] == Bytes4(d.size);
    assert s[8..10] == Bytes2(d.mode);
    assert s[10..12] == Bytes2(d.nlink);
    assert s[12..48] == EncodeZones(d.zone);
    Back4(d.inum);
    Back4(d.size);
    Back2(d.mode);
    Back2(d.nlink);
    ZonesRoundTrip(d.zone);
  }

  /** The block and the offset in it of inode `inum`. */
  function SlotKey(inum: int): Key {
    Key(DEV, inum / PER_BLK + TABLE_START)
  }

  function SlotOff(inum: int): (off: nat)
    ensures off + INODE_SIZE <= BLOCK_SIZE
  {
    inum % PER_BLK * INODE_SIZE
  }

  ghost predicate TableOn(disk: Disk) {
    forall b :: TABLE_START <= b < TABLE_START + TABLE_BLOCKS ==> Key(DEV, b) in disk
  }

  /** The inode record `inum` on the disk. */
  function Slot(disk: Disk, inum: int): DInode
    requires SlotKey(inum) in disk
  {
    Decode(disk[SlotKey(inum)][SlotOff(inum)..SlotOff(inum) + INODE_SIZE])
  }

  /** The slot of a legal inode lies in the table, and distinct inodes have disjoint slots. */
  lemma SlotsDisjoint(i: int, j: int)
    requires 0 <= i < NR_INODES && 0 <= j < NR_INODES
    ensures TABLE_START <= SlotKey(i).blk < TABLE_START + TABLE_BLOCKS
    ensures i != j && SlotKey(i) == SlotKey(j) ==>
              SlotOff(i) + INODE_SIZE <= SlotOff(j) || SlotOff(j) + INODE_SIZE <= SlotOff(i)
  {
  }

  /** Exactly the numbers below 84 have their records in the table; the record of 84 is the start of
      block 10, the first data block. */
  lemma InTableIff(inum: int)
    requires inum >= 0
    ensures TABLE_START <= SlotKey(inum).blk < TABLE_START + TABLE_BLOCKS <==> inum < NR_INODES
    ensures SlotKey(84) == Key(DEV, 10) && SlotOff(84) == 0 && NR_INODES == 84
  {
  }

  /** Writing inode `i` stores exactly it: record `i` reads back, every other is as before. */
  lemma SlotAfterWrite(disk: Disk, i: int, d: DInode, tail: seq<bv8>, j: int)
    requires TableOn(disk) && 0 <= i < NR_INODES && 0 <= j < NR_INODES
    requires d.Fits() && |tail| == 24
    ensures SlotKey(i) in disk && SlotKey(j) in disk
    ensures var after := disk[SlotKey(i) := Splice(disk[SlotKey(i)], SlotOff(i), Encode(d, tail))];
            Slot(after, j) == if j == i then d else Slot(disk, j)
  {
    SlotsDisjoint(i, j);
    SlotsDisjoint(j, i);
    var b := Splice(disk[SlotKey(i)], SlotOff(i), Encode(d, tail));
    var off := SlotOff(j);
    if j == i {
      assert b[off..off + INODE_SIZE] == Encode(d, tail);
      RoundTrip(d, tail);
    } else if SlotKey(i) == SlotKey(j) {
      assert b[off..off + INODE_SIZE] == disk[SlotKey(j)][off..off + INODE_SIZE];
    }
  }
}
