/** The loops of `sys_read` and `sys_write` in fs/fs.c. */
module SysCalls {
  import opened Buffers
  import opened Bitmap
  import opened InodeTable
  import opened Transfer
  import opened FsState
  import opened Outcomes
  import opened FileSystem

  const PAGE_SIZE: int := 4096

  /** `struct file`. */
  class OpenFile {
    const inode: Inode
    var pos: int

    constructor (inode: Inode)
      ensures this.inode == inode && pos == 0
    {
      this.inode := inode;
      pos := 0;
    }
  }

  function Min(a: int, b: int): int {
    if a < b then a else b
  }

  /** What is left of the file can be moved without a panic. */
  predicate Readable(size: int, pos: nat, count: nat) {
    pos <= size && var n := Min(count, size - pos); n > 0 ==> Left(pos, n) < 2048
  }

  /** `sys_read`: what is left of the file, at most `count` bytes; the rest of the call is cut off.
      Otherwise it would not return, says `SysReadEndsIff`. What it delivers is the slice of the file when
      the transfer is short, and `ReadExactIff` says that it need not be otherwise. */
  method SysRead(fs: Fs, f: OpenFile, count: int) returns (n: int, data: seq<bv8>)
    requires fs.Valid() && f.inode in fs.inodes && 0 <= count && 0 <= f.pos
    requires count == 0 || Readable(f.inode.size, f.pos, count)
    modifies f`pos, fs.cache`freeList, fs.cache`cached, fs.cache`holder, fs.cache`disk, fs.cache.buffers
    ensures fs.Valid() && fs.cache.disk == old(fs.cache.disk) && fs.Files() == old(fs.Files())
    ensures n == |data| == (if count == 0 then 0 else Min(count, f.inode.size - old(f.pos))) && f.pos == old(f.pos) + n
    ensures |BytesOf(fs, f.inode)| == f.inode.size
    ensures data == if n == 0 then [] else ReadBytes(fs.cache.disk, f.inode.Value(), old(f.pos), n)
    ensures n > 0 && Short(old(f.pos), n) ==> data == BytesOf(fs, f.inode)[old(f.pos)..old(f.pos) + n]
  {
    hide Fs.Valid, Fs.Files, Left, Short, ReadBytes;
    Loaded(fs, f.inode);
    var left, cnt := count, count;
    data := [];
    ghost var pos0, n0 := f.pos, Min(count, f.inode.size - f.pos);
    while left > 0
      invariant fs.Valid() && fs.cache.disk == old(fs.cache.disk) && fs.Files() == old(fs.Files())
      invariant f.pos == pos0 + |data| && cnt == left + |data|
      invariant data == [] ==> left == count || (left == n0 && n0 < count)
      invariant data != [] ==> left == 0 && |data| == n0
      invariant data != [] ==> data == ReadBytes(fs.cache.disk, f.inode.Value(), pos0, n0)
      invariant data != [] && Short(pos0, n0) ==> data == BytesOf(fs, f.inode)[pos0..pos0 + n0]
      decreases cnt, left
    {
      var bytes := if left > PAGE_SIZE then PAGE_SIZE else left;
      EndingFits(f.pos, left, f.inode.size - f.pos);
      var r, buf := ReadOnce(fs, f.inode, f.pos, bytes);
      if r > 0 {
        data := data + buf;
        left := left - r;
        f.pos := f.pos + r;
      } else {
        cnt := cnt - (left - (f.inode.size - f.pos));
        left := f.inode.size - f.pos;
      }
    }
    n := cnt - left;
  }

  lemma Loaded(fs: Fs, ip: Inode)
    requires fs.Valid() && ip in fs.inodes
    ensures ip.inum in fs.Files() && |Get(fs.Files(), ip.inum).bytes| == ip.size <= MAX_SIZE
    ensures |ip.zone| == 9 && fs.Files()[ip.inum] == FileOf(fs.cache.disk, ip.Value())
  {
    hide BufferCache.Quiet, InvAt, FsState.Files, FileOf;
    fs.FileOfLoaded(ip);
  }

  /** One `_read` of the loop. */
  method ReadOnce(fs: Fs, ip: Inode, pos: int, count: int) returns (r: int, buf: seq<bv8>)
    requires fs.Valid() && ip in fs.inodes && 0 <= pos <= ip.size && 0 < count
    requires pos + count <= ip.size ==> Left(pos, count) < 2048
    modifies fs.cache`freeList, fs.cache`cached, fs.cache`holder, fs.cache`disk, fs.cache.buffers
    ensures fs.Valid() && fs.cache.disk == old(fs.cache.disk) && fs.Files() == old(fs.Files())
    ensures r == if pos + count > ip.size then -1 else count
    ensures |BytesOf(fs, ip)| == ip.size
    ensures r > 0 ==> |buf| == count && buf == ReadBytes(fs.cache.disk, ip.Value(), pos, count)
    ensures r > 0 && Short(pos, count) ==> buf == BytesOf(fs, ip)[pos..pos + count]
  {
    hide Fs.Mem, Fs.ListOk, BufferCache.Quiet, InvAt, FsState.Files, Left, Short, FileOf, ReadBytes;
    Loaded(fs, ip);
    if pos + count <= ip.size {
      ReadBytesSize(fs.cache.disk, ip.Value(), pos, count);
    }
    r, buf := fs.Read(ip, pos, count);
  }

  lemma ReadBytesSize(disk: Disk, d: DInode, pos: nat, count: nat)
    requires |d.zone| == 9 && 0 <= d.size <= MAX_SIZE && pos + count <= d.size && Left(pos, count) < 2048
    ensures |ReadBytes(disk, d, pos, count)| == count
  {
    hide Raw, Read, Left;
  }

  /** A transfer that ends is below a page. */
  lemma EndingFits(pos: nat, left: nat, rest: nat)
    requires var n := Min(left, rest); n > 0 ==> Left(pos, n) < 2048
    ensures 0 < left <= rest ==> Left(pos, left) < 2048 && left <= PAGE_SIZE
    ensures rest < left ==> rest < PAGE_SIZE && (rest > 0 ==> Left(pos, rest) < 2048)
  {
  }

  // ----- how the loop of `sys_read` ends -----

  /** Where the loop is, or the panic of a `_read`. `left` is unsigned. */
  datatype Reading = At(pos: int, left: int) | Crashed

  /** A panic prints and spins, so only this is an end. */
  predicate Returned(s: Reading) {
    s.At? && s.left == 0
  }

  /** One turn of the loop on a file of `size` bytes. */
  function Turn(raw: seq<bv8>, size: nat, s: Reading): Reading
    requires |raw| == 1024 * ZonesOf(size)
  {
    if s.Crashed? || s.left <= 0 || s.pos < 0 then s else
    match ReadOutcome(raw, size, s.pos, Min(s.left, PAGE_SIZE))
    case Done(bytes) => At(s.pos + |bytes|, s.left - |bytes|)
    case Refused => At(s.pos, (size - s.pos) % 0x1_0000_0000)
    case Panic => Crashed
  }

  function Turns(raw: seq<bv8>, size: nat, s: Reading, n: nat): Reading
    requires |raw| == 1024 * ZonesOf(size)
  {
    if n == 0 then s else Turn(raw, size, Turns(raw, size, s, n - 1))
  }

  /** `sys_read` returns if and only if nothing is asked for, or the position is not behind the file and
      the bytes to deliver leave less than two blocks after the first transfer. */
  lemma SysReadEndsIff(raw: seq<bv8>, size: nat, pos: int, count: int)
    requires |raw| == 1024 * ZonesOf(size) && size <= MAX_SIZE
    requires 0 <= pos < 0x8000_0000 - PAGE_SIZE && 0 <= count < 0x1_0000_0000
    ensures (exists n :: Returned(Turns(raw, size, At(pos, count), n))) <==> count == 0 || Readable(size, pos, count)
  {
    hide ReadOutcome, Turn, Left;
    if count == 0 {
      assert Returned(Turns(raw, size, At(pos, count), 0));
    } else if pos <= size {
      TwoTurns(raw, size, pos, count);
      if Readable(size, pos, count) {
        assert Returned(Turns(raw, size, At(pos, count), 2));
      } else {
        forall n: nat
          ensures !Returned(Turns(raw, size, At(pos, count), n))
        {
          CrashedStays(raw, size, At(pos, count), n);
        }
      }
    } else {
      forall n: nat
        ensures !Returned(Turns(raw, size, At(pos, count), n))
      {
        PastTheEnd(raw, size, pos, count, n);
      }
    }
  }

  /** A read of a page at the start of a file of seven blocks never returns. */
  lemma PageReadSpins(raw: seq<bv8>, n: nat)
    requires |raw| == MAX_SIZE
    ensures !Returned(Turns(raw, MAX_SIZE, At(0, PAGE_SIZE), n))
  {
    SysReadEndsIff(raw, MAX_SIZE, 0, PAGE_SIZE);
  }

  /** After two turns inside the file the loop has ended or crashed. */
  lemma TwoTurns(raw: seq<bv8>, size: nat, pos: nat, count: nat)
    requires |raw| == 1024 * ZonesOf(size) && pos <= size <= MAX_SIZE && 0 < count
    ensures var s := Turns(raw, size, At(pos, count), 2);
            if Readable(size, pos, count) then Returned(s) else s == Crashed
    ensures !Readable(size, pos, count) ==> !Returned(Turns(raw, size, At(pos, count), 1))
  {
    hide ReadOutcome;
    var s1 := Turn(raw, size, At(pos, count));
    assert Turns(raw, size, At(pos, count), 1) == Turn(raw, size, Turns(raw, size, At(pos, count), 0));
    assert Turns(raw, size, At(pos, count), 2) == Turn(raw, size, s1);
    if pos + Min(count, PAGE_SIZE) <= size {
      InsideTurn(raw, size, pos, count);
    } else {
      RefusedTurn(raw, size, pos, count);
      if size > pos {
        InsideTurn(raw, size, pos, size - pos);
      }
    }
  }

  lemma {:induction false} CrashedStays(raw: seq<bv8>, size: nat, s: Reading, n: nat)
    requires |raw| == 1024 * ZonesOf(size) && Turns(raw, size, s, 2) == Crashed
    ensures n >= 2 ==> Turns(raw, size, s, n) == Crashed
  {
    if n > 2 {
      CrashedStays(raw, size, s, n - 1);
    }
  }

  lemma InsideTurn(raw: seq<bv8>, size: nat, pos: nat, left: nat)
    requires |raw| == 1024 * ZonesOf(size) && size <= MAX_SIZE && 0 < left && pos + Min(left, PAGE_SIZE) <= size
    ensures Turn(raw, size, At(pos, left)) ==
            if Left(pos, left) < 2048 then At(pos + left, 0) else Crashed
  {
    hide ReadOutcome, Read;
    ReadOutcomeIs(raw, size, pos, Min(left, PAGE_SIZE));
  }

  lemma RefusedTurn(raw: seq<bv8>, size: nat, pos: nat, left: nat)
    requires |raw| == 1024 * ZonesOf(size) && 0 < left && pos + Min(left, PAGE_SIZE) > size
    ensures Turn(raw, size, At(pos, left)) == At(pos, (size - pos) % 0x1_0000_0000)
  {
  }

  /** Behind the end every turn is refused and leaves a huge number of bytes to go. */
  lemma {:induction false} PastTheEnd(raw: seq<bv8>, size: nat, pos: int, count: int, n: nat)
    requires |raw| == 1024 * ZonesOf(size) && size < pos < 0x8000_0000 && 0 < count
    ensures var s := Turns(raw, size, At(pos, count), n); s.At? && s.pos == pos && s.left > 0
  {
    hide ReadOutcome, Turn;
    if n > 0 {
      PastTheEnd(raw, size, pos, count, n - 1);
      RefusedTurn(raw, size, pos, Turns(raw, size, At(pos, count), n - 1).left);
    }
  }

  /** `sys_write`: one `_write` of everything, whenever that does not panic; more than a page at once
      always does. */
  method SysWrite(fs: Fs, f: OpenFile, data: seq<bv8>) returns (n: int)
    requires fs.Valid() && f.inode in fs.inodes && 0 <= f.pos
    requires data != [] ==> Writable(f.inode.size, f.pos, |data|)
    requires |ZMAP.Set(fs.cache.disk)| + ZonesOf(f.pos + |data|) - ZonesOf(f.inode.size) <= 4096
    modifies f`pos, f.inode`zone, f.inode`size
    modifies fs.cache`freeList, fs.cache`cached, fs.cache`holder, fs.cache`disk, fs.cache.buffers
    ensures fs.Valid() && n == |data| && f.pos == old(f.pos) + |data|
    ensures fs.Files() == old(fs.Files())[f.inode.inum := old(WrittenFile(fs, f.inode, f.pos, data))]
    ensures data != [] && old(f.pos) <= old(f.inode.size) && Short(old(f.pos), |data|) ==>
              BytesOf(fs, f.inode) == PatchedAt(old(BytesOf(fs, f.inode)), old(f.pos), data)
  {
    hide Fs.Valid, Fs.Files, Fs.Mem, Short, Area.Set, ZonesOf, Writable, WrittenBytes, PatchedAt;
    Loaded(fs, f.inode);
    ghost var file := WrittenFile(fs, f.inode, f.pos, data);
    var left, rest := |data|, data;
    while left > 0
      invariant left == 0 || left == |data|
      invariant fs.Valid() && f.pos == old(f.pos) + |data| - left
      invariant left > 0 ==> rest == data && fs.cache.disk == old(fs.cache.disk) && fs.Files() == old(fs.Files())
                             && f.inode.Value() == old(f.inode.Value())
      invariant left == 0 ==> fs.Files() == old(fs.Files())[f.inode.inum := file]
      invariant data != [] && left == 0 && old(f.pos) <= old(f.inode.size) && Short(old(f.pos), |data|) ==>
                  BytesOf(fs, f.inode) == PatchedAt(old(BytesOf(fs, f.inode)), old(f.pos), data)
    {
      var bytes := if left > PAGE_SIZE then PAGE_SIZE else left;
      WritableFits(f.inode.size, f.pos, left);
      assert bytes == |data| && rest[..bytes] == data;
      var r := WriteOnce(fs, f.inode, f.pos, rest[..bytes]);
      if r > 0 {
        left := left - r;
        rest := rest[r..];
        f.pos := f.pos + r;
      } else {
        break;
      }
    }
    n := |data| - left;
  }

  /** The first `_write` of the loop returns if and only if one of everything would; it is then the only one. */
  lemma SysWriteEndsIff(raw: seq<bv8>, size: nat, pos: nat, data: seq<bv8>)
    requires |raw| == 1024 * ZonesOf(size) && size <= MAX_SIZE && data != []
    ensures WriteOutcome(raw, size, pos, data[..Min(|data|, PAGE_SIZE)]) != Panic <==> Writable(size, pos, |data|)
    ensures Writable(size, pos, |data|) ==> |data| < PAGE_SIZE
  {
    hide WriteOutcome, Wrote;
    WriteOutcomeIs(raw, size, pos, data[..Min(|data|, PAGE_SIZE)]);
  }

  /** One `_write` of the loop. */
  method WriteOnce(fs: Fs, ip: Inode, pos: int, data: seq<bv8>) returns (r: int)
    requires fs.Valid() && ip in fs.inodes && 0 <= pos && data != [] && Writable(ip.size, pos, |data|)
    requires |ZMAP.Set(fs.cache.disk)| + ZonesOf(pos + |data|) - ZonesOf(ip.size) <= 4096
    modifies ip`zone, ip`size, fs.cache`freeList, fs.cache`cached, fs.cache`holder, fs.cache`disk, fs.cache.buffers
    ensures fs.Valid() && r == |data|
    ensures fs.Files() == old(fs.Files())[ip.inum := old(WrittenFile(fs, ip, pos, data))]
    ensures pos <= old(ip.size) && Short(pos, |data|) ==>
              BytesOf(fs, ip) == PatchedAt(old(BytesOf(fs, ip)), pos, data)
  {
    hide Fs.Valid, Fs.Files, Area.Set, WrittenBytes, FileOf, Short, Patched, Writable;
    Loaded(fs, ip);
    ghost var d := ip.Value();
    if pos <= ip.size && Short(pos, |data|) {
      WritableFits(ip.size, pos, |data|);
      FlatWrite(fs.cache.disk, d, pos, data);
    }
    r := fs.Write(ip, pos, data);
  }

  lemma WritableFits(size: int, pos: nat, count: nat)
    requires Writable(size, pos, count)
    ensures count <= PAGE_SIZE && pos + count <= MAX_SIZE
  {
  }

  /** The file of a loaded inode after `_write`. */
  ghost function WrittenFile(fs: Fs, ip: Inode, pos: int, data: seq<bv8>): File
    reads fs, fs.cache, fs.inodes, ip, set n | n in fs.loaded :: fs.loaded[n]
  {
    var f := Get(fs.Files(), ip.inum);
    if data != [] && 0 <= pos then f.(bytes := WrittenBytes(fs.cache.disk, ip.Value(), pos, data)) else f
  }

  function PatchedAt(bytes: seq<bv8>, pos: int, data: seq<bv8>): seq<bv8> {
    if 0 <= pos <= |bytes| then Patched(bytes, pos, data) else bytes
  }
}
