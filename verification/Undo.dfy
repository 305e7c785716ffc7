/** What one call of fs/fs.c takes, another gives back: runs that leave the file system, bitmaps and
    all, as they found it. */
module Undo {
  import opened Bitmap
  import opened InodeTable
  import opened Transfer
  import opened FsState
  import opened Outcomes
  import opened FileSystem

  /** The inode bitmap is 0 and the numbers of the files. */
  lemma NumbersOfFiles(fs: Fs)
    requires fs.Valid()
    ensures forall i :: i in IMAP.Set(fs.cache.disk) <==> i == 0 || i in fs.Files()
    ensures 0 !in fs.Files()
  {
    hide Live, FileOf;
    ImapOfLive(fs.cache.disk, fs.Mem(), 0, 0);
  }

  /** Equal files have equal inode bitmaps. */
  lemma SameNumbersSet(a: set<int>, b: set<int>, files: map<int, File>)
    requires forall i :: i in a <==> i == 0 || i in files
    requires forall i :: i in b <==> i == 0 || i in files
    ensures a == b
  {
    assert forall i :: i in a <==> i in b;
  }

  lemma TookThenGone(used: set<int>, used': set<int>, zone: seq<int>, zone': seq<int>, from: int, to: int)
    requires Took(used, used', zone, zone', from, to)
    ensures used' - BlockSet(zone', from, to) == used
  {
  }

  /** `create_inode`, one `_write` and the last `put_inode` of a file nobody linked: no file, no inode
      number and no block is gained or lost. */
  method TemporaryFile(fs: Fs, mode: int, buf: seq<bv8>)
    requires fs.Valid() && 1 in fs.Files() && 0 <= mode < 0x1_0000 && 0 < |buf| <= 1024
    requires exists i :: 0 <= i < NR_INODES && i !in IMAP.Set(fs.cache.disk)
    requires |ZMAP.Set(fs.cache.disk)| < 4096
    modifies fs`inodes, fs`loaded, fs.cache`freeList, fs.cache`cached, fs.cache`holder, fs.cache`disk, fs.cache.buffers
    ensures fs.Valid() && fs.Files() == old(fs.Files())
    ensures ZMAP.Set(fs.cache.disk) == old(ZMAP.Set(fs.cache.disk))
    ensures IMAP.Set(fs.cache.disk) == old(IMAP.Set(fs.cache.disk))
  {
    hide Fs.Valid, Fs.Files, Area.Set, WrittenBytes, Took, BlockSet, Left;
    NumbersOfFiles(fs);
    ghost var files0, zmap0, imap0 := fs.Files(), ZMAP.Set(fs.cache.disk), IMAP.Set(fs.cache.disk);
    var ip := fs.CreateInode(mode);
    fs.FileOfLoaded(ip);
    FirstBlock(|buf|);
    assert ip.size == 0 && ip.nlink == 0 && ip.inum != 1;
    ghost var zone := ip.zone;
    var r := fs.Write(ip, 0, buf);
    TookThenGone(zmap0, ZMAP.Set(fs.cache.disk), zone, ip.zone, 0, ZonesOf(ip.size));
    fs.PutInode(ip);
    assert fs.Files() == files0;
    NumbersOfFiles(fs);
    SameNumbersSet(IMAP.Set(fs.cache.disk), imap0, files0);
  }

  lemma FirstBlock(n: int)
    requires 0 < n <= 1024
    ensures Left(0, n) == 0 && ZonesOf(n) == 1 && ZonesOf(0) == 0
  {
  }

  /** Bytes appended by `_write` and cut off again by `sys_truncate`: the file and the bitmap are as
      they were. */
  method AppendAndCut(fs: Fs, ip: Inode, buf: seq<bv8>)
    requires fs.Valid() && ip in fs.inodes && buf != [] && 0 <= ip.size && Short(ip.size, |buf|)
    requires ip.size + |buf| <= MAX_SIZE && ZonesOf(ip.size + |buf|) <= ZonesOf(ip.size) + 1
    requires |ZMAP.Set(fs.cache.disk)| + ZonesOf(ip.size + |buf|) - ZonesOf(ip.size) <= 4096
    modifies ip`zone, ip`size, fs.cache`freeList, fs.cache`cached, fs.cache`holder, fs.cache`disk, fs.cache.buffers
    ensures fs.Valid() && fs.Files() == old(fs.Files()) && ip.size == old(ip.size)
    ensures ZMAP.Set(fs.cache.disk) == old(ZMAP.Set(fs.cache.disk))
  {
    hide Fs.Valid, Fs.Files, Area.Set, WrittenBytes, Took, BlockSet, Left, FileOf, Patched, Prefix;
    fs.FileOfLoaded(ip);
    ShortEnds(ip.size, |buf|);
    FlatWrite(fs.cache.disk, ip.Value(), ip.size, buf);
    ghost var files0, zmap0, zone, size := fs.Files(), ZMAP.Set(fs.cache.disk), ip.zone, ip.size;
    ghost var file := files0[ip.inum];
    var length := ip.size;
    var r := fs.Write(ip, ip.size, buf);
    TookThenGone(zmap0, ZMAP.Set(fs.cache.disk), zone, ip.zone, ZonesOf(size), ZonesOf(ip.size));
    CutBack(file, buf);
    fs.Truncate(ip, length);
    assert fs.Files() == files0[ip.inum := file] == files0;
    fs.FileOfLoaded(ip);
  }

  lemma ShortEnds(pos: nat, count: nat)
    requires Short(pos, count)
    ensures Left(pos, count) < 2048
  {
  }

  lemma CutBack(f: File, buf: seq<bv8>)
    ensures Shortened(f.(bytes := Patched(f.bytes, |f.bytes|, buf)), |f.bytes|) == f
  {
  }
}
