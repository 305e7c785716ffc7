/** Runs of fs/fs.c: a reboot, and two after which something is not as one would expect. */
module Runs {
  import opened Buffers
  import opened Collections
  import opened Bitmap
  import opened InodeTable
  import opened Superblock
  import opened FsState
  import opened Outcomes
  import opened FileSystem
  import opened Undo

  /** Bytes cut off come back: after a `sys_truncate` to `length` a `_write` at `pos` behind it leaves, from
      `length` on, the bytes that stood there before the cut, up to the end of their block, and zero bytes
      from there to `pos`. */
  method CutAndSkip(fs: Fs, ip: Inode, length: int, pos: int, buf: seq<bv8>)
    requires fs.Valid() && ip in fs.inodes && 0 <= length < pos <= ip.size && buf != []
    requires Writable(length, pos, |buf|) && |ZMAP.Set(fs.cache.disk)| < 4096
    modifies ip`zone, ip`size, fs.cache`freeList, fs.cache`cached, fs.cache`holder, fs.cache`disk, fs.cache.buffers
    ensures fs.Valid() && |old(BytesOf(fs, ip))| == old(ip.size) && |BytesOf(fs, ip)| == pos + |buf|
    ensures forall i :: 0 <= i < pos ==>
                          BytesOf(fs, ip)[i] == if i < 1024 * ZonesOf(length) then old(BytesOf(fs, ip))[i] else 0
  {
    hide Fs.Valid, Fs.Files, Area.Set, WrittenBytes, Took, BlockSet, FileOf, Resized;
    fs.FileOfLoaded(ip);
    ghost var disk0, d0 := fs.cache.disk, ip.Value();
    ghost var used := ZMAP.Set(disk0);
    fs.Truncate(ip, length);
    SubsetSize(ZMAP.Set(fs.cache.disk), used);
    fs.FileOfLoaded(ip);
    CutBytes(disk0, d0, fs.cache.disk, ip.Value(), pos, buf);
    var r := fs.Write(ip, pos, buf);
  }

  lemma CutBytes(disk: Disk, d: DInode, disk': Disk, d': DInode, pos: nat, buf: seq<bv8>)
    requires |d.zone| == 9 && |d'.zone| == 9 && 0 <= d'.size < pos <= d.size <= MAX_SIZE
    requires buf != [] && Writable(d'.size, pos, |buf|)
    requires Raw(disk', Prefix(d'.zone, ZonesOf(d'.size)))
          == Resized(Raw(disk, Prefix(d.zone, ZonesOf(d.size))), 1024 * ZonesOf(d'.size))
    ensures |WrittenBytes(disk', d', pos, buf)| == pos + |buf| && |FileOf(disk, d).bytes| == d.size
    ensures forall i :: 0 <= i < pos ==>
                          WrittenBytes(disk', d', pos, buf)[i]
                          == if i < 1024 * ZonesOf(d'.size) then FileOf(disk, d).bytes[i] else 0
  {
    hide Writable, Wrote;
    GapBytes(Raw(disk', Prefix(d'.zone, ZonesOf(d'.size))), d'.size, pos, buf);
  }

  /** A fresh file system and one `create_inode` after the other: 82 numbers are left beside 0 and the
      root, and the call after these breaks the invariant. */
  method UseUpNumbers(fs: Fs, mode: int) returns (ip: Inode)
    requires fs.cache.Quiet() && Blocks(fs.cache.disk) && !HasMagic(fs.cache.disk)
    requires fs.inodes == [] && fs.loaded == map[] && 0 <= mode < 0x1_0000
    modifies fs, fs.cache`freeList, fs.cache`cached, fs.cache`holder, fs.cache`disk, fs.cache.buffers
    ensures !fs.Valid() && ip.inum == 84
    ensures fs.Files().Keys == RangeSet(84) - {0}
  {
    hide Fs.Valid, Fs.Files, Area.Set, RangeSet, Hit, Encode, Live, BufferCache.Quiet, Blocks, WroteInode;
    FillTable(fs, mode);
    NumbersOfFiles(fs);
    ghost var used := IMAP.Set(fs.cache.disk);
    AllTaken(used, fs.Files().Keys);
    ghost var tail;
    ip, tail := fs.CreateBeyond(mode);
  }

  lemma AllTaken(used: set<int>, numbers: set<int>)
    requires used == RangeSet(84) && forall i :: i in used <==> i == 0 || i in numbers
    requires 0 !in numbers
    ensures numbers == RangeSet(84) - {0} && forall i :: 0 <= i < 84 ==> i in used
  {
    hide RangeSet;
  }

  /** All the numbers of the table. */
  method FillTable(fs: Fs, mode: int)
    requires fs.cache.Quiet() && Blocks(fs.cache.disk) && !HasMagic(fs.cache.disk)
    requires fs.inodes == [] && fs.loaded == map[] && 0 <= mode < 0x1_0000
    modifies fs, fs.cache`freeList, fs.cache`cached, fs.cache`holder, fs.cache`disk, fs.cache.buffers
    ensures fs.Valid() && IMAP.Set(fs.cache.disk) == RangeSet(84)
  {
    hide Fs.Valid, Fs.Files, Area.Set, RangeSet, BufferCache.Quiet, Blocks;
    var root := fs.Init();
    for n := 2 to 84
      invariant fs.Valid() && IMAP.Set(fs.cache.disk) == RangeSet(n)
    {
      TakeNumber(fs, mode, n);
    }
  }

  /** The next number. */
  method TakeNumber(fs: Fs, mode: int, n: nat)
    requires fs.Valid() && IMAP.Set(fs.cache.disk) == RangeSet(n) && n < 84 && 0 <= mode < 0x1_0000
    modifies fs`inodes, fs`loaded, fs.cache`freeList, fs.cache`cached, fs.cache`holder, fs.cache`disk, fs.cache.buffers
    ensures fs.Valid() && IMAP.Set(fs.cache.disk) == RangeSet(n + 1)
  {
    hide Fs.Valid, Fs.Files, Area.Set, RangeSet, BufferCache.Quiet;
    ghost var used := IMAP.Set(fs.cache.disk);
    NumbersOfFiles(fs);
    assert n !in used;
    var ip := fs.CreateInode(mode);
    NumbersOfFiles(fs);
    NextNumber(used, IMAP.Set(fs.cache.disk), ip.inum, n);
  }

  lemma NextNumber(used: set<int>, used': set<int>, i: int, n: nat)
    requires used == RangeSet(n) && 0 <= i && i !in used && forall j :: 0 <= j < i ==> j in used
    requires forall j :: j in used' <==> j == i || j in used
    ensures i == n && used' == RangeSet(n + 1)
  {
    assert !(i > n);
    hide RangeSet;
  }

  /** After a reboot, with a fresh cache on the disk as it is, `fs_init` finds every file, as long as every
      loaded inode has been written back: after the last `put_inode` of each, say. */
  method Reboot(fs: Fs, start: int, end: int) returns (next: Fs)
    requires fs.Valid() && 1 in fs.Files() && end - start >= HEAD_SIZE + BLOCK_SIZE
    requires forall n :: n in fs.loaded ==> SlotKey(n) in fs.cache.disk && Slot(fs.cache.disk, n) == fs.Mem()[n]
    ensures next.Valid() && next.Files() == fs.Files() && next.cache.disk == fs.cache.disk
  {
    hide Fs.Valid, Fs.Files, Slot, SlotKey, Inv, FsState.Files, BufferCache.ValidWith, BufferCache.Logical,
         HasMagic, Blocks;
    fs.Persistent();
    var cache := new BufferCache(start, end, fs.cache.disk);
    next := new Fs(cache);
    var root := next.Init();
  }
}
