/** The superblock of fs/fs.c: where `mkfs` puts the parts of the disk, stored in block 1. */
module Superblock {
  import opened Buffers
  import opened InodeTable

  const SUPER_MAGIC: int := 0x1234_5678
  const SUPER_SIZE: nat := 36
  const SUPER_KEY: Key := Key(DEV, 1)

  /** `struct super_block`. */
  datatype Super = Super(magic: int, imapStart: int, imapCount: int, zmapStart: int, zmapCount: int,
                         tableStart: int, tableCount: int, dataStart: int, dev: int)
  {
    /** Every field fits its C type: unsigned long, sector_t, dev_t. */
    predicate Fits() {
      && 0 <= magic < 0x1_0000_0000 && 0 <= dev < 0x1_0000
      && Fits4(imapStart) && Fits4(imapCount) && Fits4(zmapStart) && Fits4(zmapCount)
      && Fits4(tableStart) && Fits4(tableCount) && Fits4(dataStart)
    }
  }

  predicate Fits4(n: int) {
    -0x8000_0000 <= n < 0x8000_0000
  }

  /** What `mkfs` sets. */
  function Layout(): Super {
    Super(SUPER_MAGIC, 2, 1, 3, 1, TABLE_START, TABLE_BLOCKS, 10, DEV)
  }

  /** memcpy of a `struct super_block` into a block; `pad` is the padding at its end. */
  function EncodeSuper(s: Super, pad: seq<bv8>): (r: seq<bv8>)
    requires |pad| == 2
    ensures |r| == SUPER_SIZE
  {
    Bytes4(s.magic) + Bytes4(s.imapStart) + Bytes4(s.imapCount) + Bytes4(s.zmapStart) + Bytes4(s.zmapCount)
    + Bytes4(s.tableStart) + Bytes4(s.tableCount) + Bytes4(s.dataStart) + Bytes2(s.dev) + pad
  }

  function DecodeSuper(s: seq<bv8>): Super
    requires |s| == SUPER_SIZE
  {
    Super(Unsigned4(s[0..4]), Signed4(s[4..8]), Signed4(s[8..12]), Signed4(s[12..16]), Signed4(s[16..20]),
          Signed4(s[20..24]), Signed4(s[24..28]), Signed4(s[28..32]), Unsigned2(s[32..34]))
  }

  /** What `read_super` finds after `write_super`. */
  lemma SuperRoundTrip(s: Super, pad: seq<bv8>)
    requires s.Fits() && |pad| == 2
    ensures DecodeSuper(EncodeSuper(s, pad)) == s
  {
    hide Bytes2, Bytes4, Unsigned2, Unsigned4, Signed4;
    var r := EncodeSuper(s, pad);
    assert r[0..4] == Bytes4(s.magic) && r[4..8] == Bytes4(s.imapStart) && r[8..12] == Bytes4(s.imapCount);
    assert r[12..16] == Bytes4(s.zmapStart) && r[16..20] == Bytes4(s.zmapCount) && r[20..24] == Bytes4(s.tableStart);
    assert r[24..28] == Bytes4(s.tableCount) && r[28..32] == Bytes4(s.dataStart) && r[32..34] == Bytes2(s.dev);
    Back4(s.magic);
    Back4(s.imapStart);
    Back4(s.imapCount);
    Back4(s.zmapStart);
    Back4(s.zmapCount);
    Back4(s.tableStart);
    Back4(s.tableCount);
    Back4(s.dataStart);
    Back2(s.dev);
  }

  /** `read_super`: the device number is set, not read. */
  function SuperOf(b: Block): Super {
    DecodeSuper(b[..SUPER_SIZE]).(dev := DEV)
  }

  /** The disk says that a file system is on it. */
  predicate HasMagic(disk: Disk) {
    SUPER_KEY in disk && SuperOf(disk[SUPER_KEY]).magic == SUPER_MAGIC
  }

  predicate IsSuper(disk: Disk, b: Block) {
    SUPER_KEY in disk && disk[SUPER_KEY] == b
  }

  /** The superblock of the disk is the one `mkfs` writes. */
  ghost predicate HasLayout(disk: Disk) {
    forall b :: IsSuper(disk, b) ==> SuperOf(b) == Layout()
  }

  lemma LayoutRead(disk: Disk)
    requires SUPER_KEY in disk
    ensures HasLayout(disk) <==> SuperOf(disk[SUPER_KEY]) == Layout()
    ensures HasLayout(disk) ==> HasMagic(disk)
  {
    hide SuperOf;
    assert IsSuper(disk, disk[SUPER_KEY]);
  }

  /** The layout depends on block 1 only. */
  lemma LayoutKept(disk: Disk, disk': Disk)
    requires SUPER_KEY in disk && SUPER_KEY in disk' && disk'[SUPER_KEY] == disk[SUPER_KEY]
    ensures HasLayout(disk') <==> HasLayout(disk)
  {
    hide SuperOf;
    LayoutRead(disk);
    LayoutRead(disk');
  }

  /** After `write_super` of the layout. */
  lemma LayoutStored(b: Block, pad: seq<bv8>)
    requires |pad| == 2
    ensures SuperOf(Splice(b, 0, EncodeSuper(Layout(), pad))) == Layout()
  {
    hide EncodeSuper, DecodeSuper;
    var r := EncodeSuper(Layout(), pad);
    assert Splice(b, 0, r)[..SUPER_SIZE] == r;
    SuperRoundTrip(Layout(), pad);
  }
}
