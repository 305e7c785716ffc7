/** Directories of fs/fs.c: files of 32-byte records, read as a map from names to inode numbers. */
module Directory {
  import opened Buffers
  import opened Bytes
  import opened InodeTable
  import opened CStrings
  import opened Transfer
  import opened Bitmap
  import opened FsState
  import opened Outcomes
  import opened FileSystem

  const REC: int := 32
  const NAME_LENGTH: int := 24

  /** `struct dir_entry`. */
  datatype DirEntry = DirEntry(ino: int, recLen: int, nameLen: int, fileType: int, name: seq<bv8>) {
    predicate Fits() {
      && 0 <= ino < 0x1_0000_0000 && 0 <= recLen < 0x1_0000 && 0 <= nameLen < 0x100 && 0 <= fileType < 0x100
      && |name| == NAME_LENGTH
    }

    /** A name as `create_dentry` makes it: not empty, shorter than the field, its length recorded. */
    predicate Named() {
      Fits() && 0 < nameLen < NAME_LENGTH && |CStr(name)| == nameLen
    }
  }

  function EncodeEntry(e: DirEntry): (s: seq<bv8>)
    requires |e.name| == NAME_LENGTH
    ensures |s| == 32
  {
    Bytes4(e.ino) + Bytes2(e.recLen) + [Byte(e.nameLen), Byte(e.fileType)] + e.name
  }

  function DecodeEntry(s: seq<bv8>): (e: DirEntry)
    requires |s| == 32
    ensures |e.name| == NAME_LENGTH
  {
    DirEntry(Unsigned4(s[0..4]), Unsigned2(s[4..6]), OfByte(s[6]), OfByte(s[7]), s[8..32])
  }

  lemma EntryRoundTrip(e: DirEntry)
    requires e.Fits()
    ensures DecodeEntry(EncodeEntry(e)) == e
  {
    hide Bytes2, Bytes4, Unsigned2, Unsigned4, Byte, OfByte;
    var s := EncodeEntry(e);
    assert s[0..4] == Bytes4(e.ino) && s[4..6] == Bytes2(e.recLen) && s[8..32] == e.name;
    assert s[6] == Byte(e.nameLen) && s[7] == Byte(e.fileType);
    Back4(e.ino);
    Back2(e.recLen);
    ByteBack(e.nameLen);
    ByteBack(e.fileType);
  }

  /** Record `k` of a directory. */
  function Rec(bytes: seq<bv8>, k: int): (e: DirEntry)
    ensures |e.name| == NAME_LENGTH
  {
    if 0 <= k && 32 * k + 32 <= |bytes| then DecodeEntry(bytes[32 * k..32 * k + 32])
    else DirEntry(0, 0, 0, 0, seq(NAME_LENGTH, _ => 0))
  }

  function Name(bytes: seq<bv8>, k: int): seq<bv8> {
    CStr(Rec(bytes, k).name)
  }

  predicate LiveRec(bytes: seq<bv8>, k: int) {
    0 <= k < |bytes| / 32 && Rec(bytes, k).ino != 0
  }

  /** Whole records; live ones have proper and distinct names, removed ones are blank. */
  ghost predicate DirOk(bytes: seq<bv8>) {
    && |bytes| % 32 == 0
    && (forall k :: LiveRec(bytes, k) ==> 0 < |Name(bytes, k)| < NAME_LENGTH)
    && (forall k :: 0 <= k < |bytes| / 32 && !LiveRec(bytes, k) ==> Name(bytes, k) == [])
    && (forall j, k :: LiveRec(bytes, j) && LiveRec(bytes, k) && Name(bytes, j) == Name(bytes, k) ==> j == k)
  }

  /** What the directory means. */
  ghost function DirMap(bytes: seq<bv8>): map<seq<bv8>, int>
    requires DirOk(bytes)
  {
    map k | 0 <= k < |bytes| / 32 && LiveRec(bytes, k) :: Name(bytes, k) := Rec(bytes, k).ino
  }

  /** No record straddles a block, so a record is always a short transfer in one block. */
  lemma RecordInBlock(k: nat)
    ensures 32 * k % 1024 + 32 <= 1024 && Short(32 * k, 32) && First(32 * k, 32) == 32
  {
  }

  lemma SameRec(bytes: seq<bv8>, bytes': seq<bv8>, k: int)
    requires 0 <= k && 32 * k + 32 <= |bytes| && 32 * k + 32 <= |bytes'|
    requires bytes[32 * k..32 * k + 32] == bytes'[32 * k..32 * k + 32]
    ensures Rec(bytes, k) == Rec(bytes', k)
  {
  }

  /** Writing a record changes that record. */
  lemma PatchedRecs(bytes: seq<bv8>, k: int, e: DirEntry, j: int)
    requires |bytes| % 32 == 0 && 0 <= k <= |bytes| / 32 && e.Fits()
    requires 0 <= j < |bytes| / 32 || j == k
    ensures 0 <= 32 * k <= |bytes|
    ensures var bytes' := Patched(bytes, 32 * k, EncodeEntry(e));
            && |bytes'| == (if k == |bytes| / 32 then |bytes| + 32 else |bytes|)
            && Rec(bytes', j) == if j == k then e else Rec(bytes, j)
  {
    var enc := EncodeEntry(e);
    EntryRoundTrip(e);
    hide EncodeEntry, DecodeEntry;
    var bytes' := Patched(bytes, 32 * k, enc);
    if j == k {
      assert bytes'[32 * k..32 * k + 32] == enc;
    } else if j < k {
      assert bytes'[32 * j..32 * j + 32] == bytes[32 * j..32 * j + 32];
      SameRec(bytes', bytes, j);
    } else {
      assert bytes'[32 * j..32 * j + 32] == bytes[32 * j..32 * j + 32];
      SameRec(bytes', bytes, j);
    }
  }

  /** A live record in a blank or new place, under a new name, adds exactly that binding. */
  lemma AddBinding(bytes: seq<bv8>, k: int, e: DirEntry)
    requires DirOk(bytes) && 0 <= k <= |bytes| / 32 && !LiveRec(bytes, k)
    requires e.Named() && e.ino != 0 && CStr(e.name) !in DirMap(bytes)
    ensures 0 <= 32 * k <= |bytes|
    ensures var bytes' := Patched(bytes, 32 * k, EncodeEntry(e));
            DirOk(bytes') && DirMap(bytes') == DirMap(bytes)[CStr(e.name) := e.ino]
  {
    hide Rec, EncodeEntry, Patched, LiveRec, DirOk, DirMap;
    OkFacts(bytes);
    PatchedLive(bytes, k, e);
    var bytes' := Patched(bytes, 32 * k, EncodeEntry(e));
    Rebind(bytes, bytes', k, e);
    ReboundMap(bytes, bytes', k, e);
  }

  /** Which records are live after a record was written. */
  lemma PatchedLive(bytes: seq<bv8>, k: int, e: DirEntry)
    requires |bytes| % 32 == 0 && 0 <= k <= |bytes| / 32 && e.Fits() && e.ino != 0
    ensures 0 <= 32 * k <= |bytes|
    ensures var bytes' := Patched(bytes, 32 * k, EncodeEntry(e));
            && |bytes'| == (if k == |bytes| / 32 then |bytes| + 32 else |bytes|) && Rec(bytes', k) == e
            && (forall j :: 0 <= j < |bytes| / 32 && j != k ==> Rec(bytes', j) == Rec(bytes, j))
            && (forall j :: LiveRec(bytes', j) <==> j == k || LiveRec(bytes, j))
  {
    hide Rec, EncodeEntry, Patched;
    var bytes' := Patched(bytes, 32 * k, EncodeEntry(e));
    PatchedRecs(bytes, k, e, k);
    forall j | 0 <= j < |bytes| / 32 && j != k
      ensures Rec(bytes', j) == Rec(bytes, j)
    {
      PatchedRecs(bytes, k, e, j);
    }
    forall j
      ensures LiveRec(bytes', j) <==> j == k || LiveRec(bytes, j)
    {
      if 0 <= j < |bytes| / 32 {}
    }
  }

  lemma Rebind(bytes: seq<bv8>, bytes': seq<bv8>, k: int, e: DirEntry)
    requires DirOk(bytes) && |bytes'| % 32 == 0 && |bytes| <= |bytes'|
    requires e.Named() && CStr(e.name) !in DirMap(bytes) && !LiveRec(bytes, k)
    requires forall j :: LiveRec(bytes', j) <==> j == k || LiveRec(bytes, j)
    requires Rec(bytes', k) == e && forall j :: 0 <= j < |bytes| / 32 && j != k ==> Rec(bytes', j) == Rec(bytes, j)
    requires |bytes'| / 32 <= |bytes| / 32 || k == |bytes| / 32 == |bytes'| / 32 - 1
    ensures DirOk(bytes')
    ensures forall j :: LiveRec(bytes, j) ==> j != k && Rec(bytes', j) == Rec(bytes, j)
  {
    hide Rec;
    assert forall j :: LiveRec(bytes, j) ==> 0 <= j < |bytes| / 32 && j != k && Rec(bytes', j) == Rec(bytes, j);
    assert forall j :: LiveRec(bytes, j) ==> Name(bytes, j) in DirMap(bytes);
    hide LiveRec;
  }

  lemma ReboundMap(bytes: seq<bv8>, bytes': seq<bv8>, k: int, e: DirEntry)
    requires DirOk(bytes) && DirOk(bytes') && Rec(bytes', k) == e && e.ino != 0
    requires forall j :: LiveRec(bytes', j) <==> j == k || LiveRec(bytes, j)
    requires forall j :: LiveRec(bytes, j) ==> j != k && Rec(bytes', j) == Rec(bytes, j)
    ensures DirMap(bytes') == DirMap(bytes)[CStr(e.name) := e.ino]
  {
    hide Rec, DirMap, DirOk, LiveRec;
    var m, m' := DirMap(bytes), DirMap(bytes');
    BindingOf(bytes', k);
    forall x | x in m
      ensures x in m' && m'[x] == m[x]
    {
      var j := RecordOf(bytes, x);
      BindingOf(bytes', j);
    }
    forall x | x in m' && x != CStr(e.name)
      ensures x in m
    {
      var j := RecordOf(bytes', x);
      BindingOf(bytes, j);
    }
    NotTwice(bytes, bytes', k);
  }

  lemma NotTwice(bytes: seq<bv8>, bytes': seq<bv8>, k: int)
    requires DirOk(bytes) && DirOk(bytes') && LiveRec(bytes', k)
    requires forall j :: LiveRec(bytes, j) ==> j != k && LiveRec(bytes', j) && Rec(bytes', j) == Rec(bytes, j)
    ensures Name(bytes', k) !in DirMap(bytes)
  {
    hide Rec;
    assert forall j :: LiveRec(bytes, j) ==> Name(bytes', j) == Name(bytes, j);
  }

  /** A live record is a binding, and a binding is a live record. */
  lemma BindingOf(bytes: seq<bv8>, k: int)
    requires DirOk(bytes) && LiveRec(bytes, k)
    ensures Name(bytes, k) in DirMap(bytes) && DirMap(bytes)[Name(bytes, k)] == Rec(bytes, k).ino
  {
    hide Rec;
  }

  lemma RecordOf(bytes: seq<bv8>, x: seq<bv8>) returns (k: int)
    requires DirOk(bytes) && x in DirMap(bytes)
    ensures LiveRec(bytes, k) && Name(bytes, k) == x && DirMap(bytes)[x] == Rec(bytes, k).ino
    ensures 0 <= k < |bytes| / 32
  {
    k :| 0 <= k < |bytes| / 32 && LiveRec(bytes, k) && Name(bytes, k) == x;
    BindingOf(bytes, k);
  }

  /** One `_read` of a record: the record, or not 32 past the last one. */
  method ReadRecord(fs: Fs, dir: Inode, pos: int) returns (r: int, e: DirEntry)
    requires fs.Valid() && dir in fs.inodes && 0 <= pos && pos % 32 == 0
    requires |BytesOf(fs, dir)| % 32 == 0
    modifies fs.cache`freeList, fs.cache`cached, fs.cache`holder, fs.cache`disk, fs.cache.buffers
    ensures fs.Valid() && fs.Files() == old(fs.Files()) && fs.cache.disk == old(fs.cache.disk)
    ensures dir.size == |BytesOf(fs, dir)| && (r == REC <==> pos < dir.size)
    ensures r == REC ==> e == Rec(BytesOf(fs, dir), pos / 32)
  {
    hide Fs.Mem, Fs.ListOk, BufferCache.Quiet, InvAt, FsState.Files, Left, First, Short, DecodeEntry;
    fs.FileOfLoaded(dir);
    RecordInBlock(pos / 32);
    RecordEnds(pos);
    var buf;
    r, buf := fs.Read(dir, pos, REC);
    e := DirEntry(0, 0, 0, 0, []);
    if r == REC {
      e := DecodeEntry(buf);
    }
  }

  lemma RecordEnds(pos: nat)
    requires pos % 32 == 0
    ensures Left(pos, 32) < 2048
  {
  }

  /** `_find_dir_entry`: the place of exactly the named live record, whose inode and type go to the
      caller, or -1. */
  method FindDirEntry(fs: Fs, dir: Inode, target: DirEntry) returns (r: int, found: DirEntry)
    requires fs.Valid() && dir in fs.inodes && DirOk(BytesOf(fs, dir)) && target.Named()
    modifies fs.cache`freeList, fs.cache`cached, fs.cache`holder, fs.cache`disk, fs.cache.buffers
    ensures fs.Valid() && fs.Files() == old(fs.Files()) && fs.cache.disk == old(fs.cache.disk)
    ensures r == -1 <==> CStr(target.name) !in DirMap(BytesOf(fs, dir))
    ensures r != -1 ==>
              && 0 <= r < dir.size && r % 32 == 0 && LiveRec(BytesOf(fs, dir), r / 32)
              && Name(BytesOf(fs, dir), r / 32) == CStr(target.name)
              && found.ino == DirMap(BytesOf(fs, dir))[CStr(target.name)]
              && found == Rec(BytesOf(fs, dir), r / 32).(name := target.name, nameLen := target.nameLen)
    ensures r == -1 ==> found == target
  {
    hide Fs.Valid, Fs.Files, DirMap, Rec, DirOk, Stop, SignedChar, SameUpTo;
    ghost var bytes := BytesOf(fs, dir);
    OkFacts(bytes);
    var pos := 0;
    found := target;
    var n, de := ReadRecord(fs, dir, pos);
    while n == REC
      invariant fs.Valid() && fs.Files() == old(fs.Files()) && fs.cache.disk == old(fs.cache.disk)
      invariant 0 <= pos <= dir.size && pos % 32 == 0 && dir.size == |bytes|
      invariant n == REC <==> pos < dir.size
      invariant n == REC ==> de == Rec(bytes, pos / 32)
      invariant forall k :: 0 <= k < pos / 32 && LiveRec(bytes, k) ==> Name(bytes, k) != CStr(target.name)
      decreases dir.size - pos
    {
      var cmp := Strncmp(target.name, de.name, target.nameLen);
      StrncmpExact(target.name, de.name, target.nameLen);
      if cmp == 0 {
        found := found.(ino := de.ino, recLen := de.recLen, fileType := de.fileType);
        break;
      }
      pos := pos + REC;
      n, de := ReadRecord(fs, dir, pos);
    }
    if pos < dir.size {
      NamedIsLive(bytes, pos / 32);
      BindingOf(bytes, pos / 32);
      r := pos;
    } else {
      Unbound(bytes, CStr(target.name));
      r := -1;
    }
  }

  lemma OkFacts(bytes: seq<bv8>)
    requires DirOk(bytes)
    ensures |bytes| % 32 == 0
  {
    hide LiveRec, Rec;
  }

  lemma NamedIsLive(bytes: seq<bv8>, k: int)
    requires DirOk(bytes) && 0 <= k < |bytes| / 32 && Name(bytes, k) != []
    ensures LiveRec(bytes, k)
  {
  }

  lemma Unbound(bytes: seq<bv8>, x: seq<bv8>)
    requires DirOk(bytes)
    requires forall k :: 0 <= k < |bytes| / 32 && LiveRec(bytes, k) ==> Name(bytes, k) != x
    ensures x !in DirMap(bytes)
  {
    hide Rec;
  }

  /** Room for one more record: a blank one, or a place behind the last. */
  ghost predicate HasRoom(fs: Fs, dir: Inode)
    reads fs, fs.cache, fs.cache.buffers, fs.inodes, dir, set n | n in fs.loaded :: fs.loaded[n]
  {
    var bytes := BytesOf(fs, dir);
    (exists k :: 0 <= k < |bytes| / 32 && !LiveRec(bytes, k))
    || (|bytes| + REC <= MAX_SIZE && (|bytes| % 1024 == 0 ==> |ZMAP.Set(fs.cache.disk)| < 4096))
  }

  /** `_add_dir_entry`: it fails exactly on a name that is there, and otherwise adds that binding and
      one link; no other binding and no other file changes. */
  method AddDirEntry(fs: Fs, dir: Inode, target: DirEntry) returns (r: int)
    requires fs.Valid() && dir in fs.inodes && DirOk(BytesOf(fs, dir))
    requires target.Named() && target.ino != 0
    requires CStr(target.name) in DirMap(BytesOf(fs, dir)) || (HasRoom(fs, dir) && 0 <= dir.nlink < 0x7fff)
    modifies dir`zone, dir`size, dir`nlink
    modifies fs.cache`freeList, fs.cache`cached, fs.cache`holder, fs.cache`disk, fs.cache.buffers
    ensures fs.Valid() && DirOk(BytesOf(fs, dir))
    ensures r == if CStr(target.name) in old(DirMap(BytesOf(fs, dir))) then -1 else 0
    ensures r == -1 ==> fs.Files() == old(fs.Files())
    ensures r == 0 ==> DirMap(BytesOf(fs, dir)) == old(DirMap(BytesOf(fs, dir)))[CStr(target.name) := target.ino]
    ensures r == 0 ==>
              fs.Files() == old(fs.Files())[dir.inum :=
                File(BytesOf(fs, dir), Get(old(fs.Files()), dir.inum).mode, Get(old(fs.Files()), dir.inum).nlink + 1)]
  {
    hide Fs.Valid, Fs.Files, DirMap, Rec, DirOk, LiveRec, EncodeEntry, Patched, Area.Set;
    ghost var bytes := BytesOf(fs, dir);
    OkFacts(bytes);
    var found, de := FindDirEntry(fs, dir, target);
    if found >= 0 {
      return -1;
    }
    var pos := FindPlace(fs, dir);
    AddBinding(bytes, pos / 32, target);
    StoreRecord(fs, dir, pos, target);
    r := 0;
  }

  /** The end of `_add_dir_entry`: the record is written and the directory has one more link. */
  method StoreRecord(fs: Fs, dir: Inode, pos: int, e: DirEntry)
    requires fs.Valid() && dir in fs.inodes && HasRoom(fs, dir) && e.Fits() && 0 <= dir.nlink < 0x7fff
    requires 0 <= pos <= dir.size == |BytesOf(fs, dir)| && pos % 32 == 0 == dir.size % 32
    requires pos == dir.size ==> forall k :: 0 <= k < pos / 32 ==> LiveRec(BytesOf(fs, dir), k)
    modifies dir`zone, dir`size, dir`nlink
    modifies fs.cache`freeList, fs.cache`cached, fs.cache`holder, fs.cache`disk, fs.cache.buffers
    ensures fs.Valid() && BytesOf(fs, dir) == Patched(old(BytesOf(fs, dir)), pos, EncodeEntry(e))
    ensures fs.Files() == old(fs.Files())[dir.inum := File(BytesOf(fs, dir),
                Get(old(fs.Files()), dir.inum).mode, Get(old(fs.Files()), dir.inum).nlink + 1)]
  {
    hide Fs.Valid, Fs.Files, Rec, LiveRec, EncodeEntry, Patched, WrittenBytes, Left, Short, Area.Set, HasRoom;
    fs.FileOfLoaded(dir);
    RoomForRecord(fs, dir, pos);
    FlatWrite(fs.cache.disk, dir.Value(), pos, EncodeEntry(e));
    var n := fs.Write(dir, pos, EncodeEntry(e));
    NlinkOfLoaded(fs, dir);
    fs.SetNlink(dir, dir.nlink + 1);
  }

  lemma NlinkOfLoaded(fs: Fs, ip: Inode)
    requires fs.Valid() && ip in fs.inodes
    ensures ip.inum in fs.Files() && fs.Files()[ip.inum].nlink == ip.nlink
  {
    hide BufferCache.Quiet, InvAt, FsState.Files, Raw;
    fs.FileOfLoaded(ip);
  }

  /** The second loop of `_add_dir_entry`: the first blank record, or the end. */
  method FindPlace(fs: Fs, dir: Inode) returns (pos: int)
    requires fs.Valid() && dir in fs.inodes && |BytesOf(fs, dir)| % 32 == 0
    modifies fs.cache`freeList, fs.cache`cached, fs.cache`holder, fs.cache`disk, fs.cache.buffers
    ensures fs.Valid() && fs.Files() == old(fs.Files()) && fs.cache.disk == old(fs.cache.disk)
    ensures 0 <= pos <= dir.size == |BytesOf(fs, dir)| && pos % 32 == 0 && !LiveRec(BytesOf(fs, dir), pos / 32)
    ensures pos == dir.size ==> forall k :: 0 <= k < pos / 32 ==> LiveRec(BytesOf(fs, dir), k)
  {
    hide Fs.Valid, Fs.Files, Rec;
    ghost var bytes := BytesOf(fs, dir);
    pos := 0;
    var n, de := ReadRecord(fs, dir, pos);
    while n == REC && de.ino != 0
      invariant fs.Valid() && fs.Files() == old(fs.Files()) && fs.cache.disk == old(fs.cache.disk)
      invariant 0 <= pos <= dir.size && pos % 32 == 0 && dir.size == |bytes|
      invariant n == REC <==> pos < dir.size
      invariant n == REC ==> de == Rec(bytes, pos / 32)
      invariant forall k :: 0 <= k < pos / 32 ==> LiveRec(bytes, k)
      decreases dir.size - pos
    {
      pos := pos + REC;
      n, de := ReadRecord(fs, dir, pos);
    }
  }

  /** `_write` of a record at its place never panics. */
  lemma RoomForRecord(fs: Fs, dir: Inode, pos: int)
    requires fs.Valid() && dir in fs.inodes && HasRoom(fs, dir)
    requires 0 <= pos <= |BytesOf(fs, dir)| == dir.size && pos % 32 == 0 && dir.size % 32 == 0
    requires pos == dir.size ==> forall k :: 0 <= k < pos / 32 ==> LiveRec(BytesOf(fs, dir), k)
    ensures pos + 32 <= MAX_SIZE && ZonesOf(pos + 32) <= ZonesOf(dir.size) + 1
    ensures |ZMAP.Set(fs.cache.disk)| + ZonesOf(pos + 32) - ZonesOf(dir.size) <= 4096
    ensures Left(pos, 32) < 2048 && Short(pos, 32)
  {
    hide Fs.Mem, Fs.ListOk, BufferCache.Quiet, InvAt, FsState.Files, LiveRec, Area.Set, FileOf;
    fs.FileOfLoaded(dir);
    InvFacts(fs.cache.disk, fs.Mem(), 0, 0);
    RecordInBlock(pos / 32);
  }
}
