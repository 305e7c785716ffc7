/** How `_read` and `_write` of fs/fs.c end, with the guards of `_get_zone_blk` and `_set_zone_blk`,
    on a file of `size` bytes whose blocks hold `raw`. */
module Outcomes {
  import opened Collections
  import opened Transfer
  import opened FsState

  /** `bytes` with `buf` over it from `pos` on, longer if need be. */
  function Patched(bytes: seq<bv8>, pos: int, buf: seq<bv8>): seq<bv8>
    requires 0 <= pos <= |bytes|
  {
    bytes[..pos] + buf + if pos + |buf| < |bytes| then bytes[pos + |buf|..] else []
  }

  function ZeroBytes(n: nat): seq<bv8> {
    seq(n, _ => 0)
  }

  /** `raw` cut or padded with zero bytes to `n` bytes. */
  function Resized(raw: seq<bv8>, n: int): seq<bv8> {
    if n <= |raw| then Prefix(raw, n) else raw + ZeroBytes(n - |raw|)
  }

  /** What `_write` leaves in the blocks, on the transfers that do not panic. */
  function Transferred(raw: seq<bv8>, pos: nat, buf: seq<bv8>): seq<bv8> {
    if Left(pos, |buf|) < 2048 && pos + |buf| <= |raw| && |raw| % 1024 == 0 then Write(raw, pos, buf) else raw
  }

  /** The bytes of a file after `_write`, on the transfers that do not panic. */
  function Wrote(raw: seq<bv8>, size: int, pos: nat, buf: seq<bv8>): seq<bv8> {
    var size' := Max(size, pos + |buf|);
    Prefix(Transferred(Resized(raw, 1024 * ZonesOf(size')), pos, buf), size')
  }

  lemma FlatOver(raw: seq<bv8>, size: nat, raw': seq<bv8>, size': nat, pos: nat, buf: seq<bv8>)
    requires pos <= size <= |raw| <= |raw'| && raw'[..|raw|] == raw
    requires size' == Max(size, pos + |buf|) && size' <= |raw'|
    ensures Prefix(Over(raw', pos, buf), size') == Patched(Prefix(raw, size), pos, buf)
  {
    var extra := raw'[|raw|..];
    assert raw' == raw + extra;
    assert raw'[..pos] == raw[..pos];
    if pos + |buf| < size {
      assert raw'[pos + |buf|..size] == raw[pos + |buf|..size];
    }
  }

  /** Neither panic of `_get_zone_blk` for zone `zone` of a file of `size` bytes. */
  predicate ZoneOk(size: int, zone: int) {
    zone <= ZonesOf(size) && zone < MAX_ZONES
  }

  datatype Outcome = Done(bytes: seq<bv8>) | Refused | Panic

  /** The blocks hold the pieces the loops move from `zone` on; pieces of no bytes need no block. */
  predicate Room(raw: seq<bv8>, zone: nat, left: nat) {
    && |raw| % 1024 == 0
    && (left == 0 || zone * 1024 + left <= |raw| || (left >= 2048 && left % 1024 == 0))
  }

  lemma RoomNext(raw: seq<bv8>, zone: nat, left: nat)
    requires Room(raw, zone, left) && left > 0
    ensures Step(left) > 0 ==> zone * 1024 + Step(left) <= |raw|
    ensures Room(raw, zone + 1, left - Step(left))
    ensures left >= 2048 ==> left - Step(left) >= 2048
  {
  }

  /** The loop of `_read`, guard by guard. */
  function ReadLoop(raw: seq<bv8>, size: nat, zone: nat, left: nat): Outcome
    requires Room(raw, zone, left)
    decreases 7 - zone
  {
    if left == 0 then Done([]) else
    if !ZoneOk(size, zone) then Panic else
    RoomNext(raw, zone, left);
    var n := Step(left);
    var piece := if n == 0 then [] else raw[zone * 1024..zone * 1024 + n];
    match ReadLoop(raw, size, zone + 1, left - n)
    case Done(bytes) => Done(piece + bytes)
    case Refused => Refused
    case Panic => Panic
  }

  /** `_read`. */
  function ReadOutcome(raw: seq<bv8>, size: nat, pos: nat, count: nat): Outcome
    requires |raw| == 1024 * ZonesOf(size)
  {
    if pos + count > size then Refused else
    if !ZoneOk(size, pos / 1024) then Panic else
    FirstFits(pos, count, |raw|);
    var n := First(pos, count);
    match ReadLoop(raw, size, pos / 1024 + 1, count - n)
    case Done(bytes) => Done(raw[pos..pos + n] + bytes)
    case Refused => Refused
    case Panic => Panic
  }

  /** The loop of `_write`, guard by guard. */
  function WriteLoop(raw: seq<bv8>, size: nat, zone: nat, buf: seq<bv8>): Outcome
    requires Room(raw, zone, |buf|)
    decreases 7 - zone
  {
    if buf == [] then Done(raw) else
    if !ZoneOk(size, zone) then Panic else
    RoomNext(raw, zone, |buf|);
    var n := Step(|buf|);
    WriteLoop(if n == 0 then raw else Over(raw, zone * 1024, buf[..n]), size, zone + 1, buf[n..])
  }

  /** `_write`: zones are reserved first, but the guard goes by the old size. */
  function WriteOutcome(raw: seq<bv8>, size: nat, pos: nat, buf: seq<bv8>): Outcome
    requires |raw| == 1024 * ZonesOf(size) && size <= MAX_SIZE && buf != []
  {
    var size' := Max(size, pos + |buf|);
    var raw' := Resized(raw, 1024 * ZonesOf(size'));
    if ZonesOf(size') > MAX_ZONES then Panic else
    if !ZoneOk(size, pos / 1024) then Panic else
    FirstFits(pos, |buf|, |raw'|);
    var n := First(pos, |buf|);
    match WriteLoop(Over(raw', pos, buf[..n]), size, pos / 1024 + 1, buf[n..])
    case Done(bytes) => Done(Prefix(bytes, size'))
    case Refused => Refused
    case Panic => Panic
  }

  lemma FirstFits(pos: nat, count: nat, room: nat)
    requires room % 1024 == 0 && pos + count <= room
    ensures Left(pos, count) > 0 ==> (pos / 1024 + 1) * 1024 + Left(pos, count) <= room
    ensures First(pos, count) + Left(pos, count) == count
  {
    if Left(pos, count) > 0 {
      NextZone(pos, count);
    }
  }

  // ----- what the loops come to -----

  /** With two blocks or more left the loops move nothing on and on, until a guard panics. */
  lemma {:induction false} ReadStuck(raw: seq<bv8>, size: nat, zone: nat, left: nat)
    requires Room(raw, zone, left) && left >= 2048
    ensures ReadLoop(raw, size, zone, left) == Panic
    decreases 7 - zone
  {
    hide Room, Step;
    if ZoneOk(size, zone) {
      RoomNext(raw, zone, left);
      ReadStuck(raw, size, zone + 1, left - Step(left));
    }
  }

  lemma {:induction false} WriteStuck(raw: seq<bv8>, size: nat, zone: nat, buf: seq<bv8>)
    requires Room(raw, zone, |buf|) && |buf| >= 2048
    ensures WriteLoop(raw, size, zone, buf) == Panic
    decreases 7 - zone
  {
    hide Step, Over;
    if ZoneOk(size, zone) {
      RoomNext(raw, zone, |buf|);
      var n := Step(|buf|);
      WriteStuck(if n == 0 then raw else Over(raw, zone * 1024, buf[..n]), size, zone + 1, buf[n..]);
    }
  }

  /** A loop with less left panics exactly when its last zone does. */
  lemma {:induction false} ReadEnds(raw: seq<bv8>, size: nat, zone: nat, left: nat)
    requires Room(raw, zone, left) && left < 2048
    ensures ReadLoop(raw, size, zone, left) ==
      if left == 0 then Done([])
      else if ZoneOk(size, zone + ZonesOf(left) - 1) && zone * 1024 + left <= |raw| then Done(ReadRest(raw, zone, left))
      else Panic
    decreases left
  {
    if left > 0 && ZoneOk(size, zone) {
      RoomNext(raw, zone, left);
      TurnZones(left);
      ReadEnds(raw, size, zone + 1, left - Step(left));
    }
  }

  lemma TurnZones(left: nat)
    requires 0 < left < 2048
    ensures 0 < Step(left) <= 1024 && ZonesOf(left) >= 1
    ensures ZonesOf(left - Step(left)) == ZonesOf(left) - 1
  {
  }

  lemma {:induction false} WriteEnds(raw: seq<bv8>, size: nat, zone: nat, buf: seq<bv8>)
    requires Room(raw, zone, |buf|) && |buf| < 2048
    ensures WriteLoop(raw, size, zone, buf) ==
      if buf == [] then Done(raw)
      else if ZoneOk(size, zone + ZonesOf(|buf|) - 1) && zone * 1024 + |buf| <= |raw|
      then Done(WriteRest(raw, zone, buf))
      else Panic
    decreases |buf|
  {
    hide Over;
    if buf != [] && ZoneOk(size, zone) {
      RoomNext(raw, zone, |buf|);
      TurnZones(|buf|);
      var n := Step(|buf|);
      WriteEnds(Over(raw, zone * 1024, buf[..n]), size, zone + 1, buf[n..]);
    }
  }

  /** The zones a transfer touches. */
  lemma LastZone(pos: nat, count: nat)
    requires count > 0
    ensures pos / 1024 <= ZonesOf(pos + count) - 1
    ensures Left(pos, count) == 0 ==> ZonesOf(pos + count) - 1 == pos / 1024
    ensures Left(pos, count) > 0 ==> ZonesOf(pos + count) - 1 == pos / 1024 + ZonesOf(Left(pos, count))
  {
    if Left(pos, count) > 0 {
      NextZone(pos, count);
    }
  }

  /** `_read` inside a file panics exactly when the transfer does not end or starts behind zone 6. */
  lemma ReadOutcomeIs(raw: seq<bv8>, size: nat, pos: nat, count: nat)
    requires |raw| == 1024 * ZonesOf(size) && pos + count <= size <= MAX_SIZE
    ensures ReadOutcome(raw, size, pos, count) ==
      if Left(pos, count) < 2048 && pos < MAX_SIZE then Done(Read(raw, pos, count)) else Panic
  {
    FirstFits(pos, count, |raw|);
    var left := Left(pos, count);
    if count > 0 {
      LastZone(pos, count);
      ZonesUp(pos + count, size);
    }
    if left >= 2048 {
      ReadStuck(raw, size, pos / 1024 + 1, left);
    } else {
      ReadEnds(raw, size, pos / 1024 + 1, left);
    }
    hide ReadLoop, ReadRest, First;
  }

  lemma ZonesUp(a: int, b: int)
    ensures a <= b ==> ZonesOf(a) <= ZonesOf(b)
    ensures b <= MAX_SIZE <==> ZonesOf(b) <= MAX_ZONES
    ensures ZonesOf(Max(a, b)) == Max(ZonesOf(a), ZonesOf(b))
  {
  }

  /** When `_write` returns. */
  predicate Writable(size: int, pos: nat, count: nat) {
    Left(pos, count) < 2048 && ZonesOf(pos + count) <= ZonesOf(size) + 1 && pos + count <= MAX_SIZE
  }

  lemma WritableZones(size: nat, pos: nat, count: nat)
    requires size <= MAX_SIZE && count > 0
    ensures Writable(size, pos, count) <==>
            && ZonesOf(Max(size, pos + count)) <= MAX_ZONES && ZoneOk(size, pos / 1024) && Left(pos, count) < 2048
            && (Left(pos, count) > 0 ==> ZoneOk(size, pos / 1024 + 1 + ZonesOf(Left(pos, count)) - 1))
  {
    ZonesUp(size, pos + count);
    ZonesUp(pos + count, size);
    LastZone(pos, count);
    hide ZonesOf, Left;
  }

  lemma GrownSize(raw: seq<bv8>, size: nat, n: nat)
    requires |raw| == 1024 * ZonesOf(size) && size <= n
    ensures |Resized(raw, 1024 * ZonesOf(n))| == 1024 * ZonesOf(n) >= n
  {
    ZonesUp(size, n);
  }

  /** `_write` panics exactly when the transfer does not end, adds more than one zone, or needs an
      indirect one. */
  lemma WriteOutcomeIs(raw: seq<bv8>, size: nat, pos: nat, buf: seq<bv8>)
    requires |raw| == 1024 * ZonesOf(size) && size <= MAX_SIZE && buf != []
    ensures WriteOutcome(raw, size, pos, buf) ==
      if Writable(size, pos, |buf|) then Done(Wrote(raw, size, pos, buf)) else Panic
  {
    hide Writable, ZonesOf, ZoneOk, Over, Resized, WriteRest, First;
    var count := |buf|;
    var size' := Max(size, pos + count);
    WritableZones(size, pos, count);
    if ZonesOf(size') <= MAX_ZONES && ZoneOk(size, pos / 1024) {
      GrownSize(raw, size, size');
      var raw' := Resized(raw, 1024 * ZonesOf(size'));
      FirstFits(pos, count, |raw'|);
      var n := First(pos, count);
      var raw1, rest := Over(raw', pos, buf[..n]), buf[n..];
      if |rest| >= 2048 {
        WriteStuck(raw1, size, pos / 1024 + 1, rest);
      } else {
        WriteEnds(raw1, size, pos / 1024 + 1, rest);
      }
    }
  }

  // ----- when they are right -----

  /** `_read` inside a file delivers the slice, whatever the file holds, if and only if the transfer
      is short and starts before the last direct zone ends. */
  lemma ReadExactIff(size: nat, pos: nat, count: nat)
    requires pos + count <= size <= MAX_SIZE
    ensures (forall raw: seq<bv8> | |raw| == 1024 * ZonesOf(size) ::
               ReadOutcome(raw, size, pos, count) == Done(raw[pos..pos + count]))
            <==> Short(pos, count) && pos < MAX_SIZE
  {
    hide ReadOutcome, Read, First;
    if Short(pos, count) && pos < MAX_SIZE {
      forall raw: seq<bv8> | |raw| == 1024 * ZonesOf(size)
        ensures ReadOutcome(raw, size, pos, count) == Done(raw[pos..pos + count])
      {
        ReadOutcomeIs(raw, size, pos, count);
        ReadShort(raw, pos, count);
      }
    } else {
      var raw := ReadFails(size, pos, count);
      assert ReadOutcome(raw, size, pos, count) != Done(raw[pos..pos + count]);
    }
  }

  /** A file of the size given on which any other read panics or delivers other bytes. */
  lemma ReadFails(size: nat, pos: nat, count: nat) returns (raw: seq<bv8>)
    requires pos + count <= size <= MAX_SIZE && !(Short(pos, count) && pos < MAX_SIZE)
    ensures |raw| == 1024 * ZonesOf(size)
    ensures ReadOutcome(raw, size, pos, count) != Done(raw[pos..pos + count])
  {
    hide ReadOutcome, Read;
    var mark := (pos / 1024 + 2) * 1024;
    raw := seq(1024 * ZonesOf(size), i => if i == mark then 1 else 0);
    ReadOutcomeIs(raw, size, pos, count);
    var left := Left(pos, count);
    if left < 2048 && pos < MAX_SIZE {
      ReadSkips(raw, pos, count);
      var k := First(pos, count) + (left - 1024);
      assert raw[pos..pos + count][k] == raw[pos + k] == 0;
    }
  }

  /** `_write` at or before the end of a file is the flat write, whatever the file and the buffer
      hold, if and only if the transfer is short, adds one zone at most and stays in the direct ones. */
  lemma WriteExactIff(size: nat, pos: nat, count: nat)
    requires pos <= size <= MAX_SIZE && count > 0
    ensures (forall raw: seq<bv8>, buf: seq<bv8> | |raw| == 1024 * ZonesOf(size) && |buf| == count ::
               WriteOutcome(raw, size, pos, buf) == Done(Patched(Prefix(raw, size), pos, buf)))
            <==> Short(pos, count) && ZonesOf(pos + count) <= ZonesOf(size) + 1 && pos + count <= MAX_SIZE
  {
    hide WriteOutcome, Wrote, Patched;
    if Short(pos, count) && ZonesOf(pos + count) <= ZonesOf(size) + 1 && pos + count <= MAX_SIZE {
      forall raw: seq<bv8>, buf: seq<bv8> | |raw| == 1024 * ZonesOf(size) && |buf| == count
        ensures WriteOutcome(raw, size, pos, buf) == Done(Patched(Prefix(raw, size), pos, buf))
      {
        WriteOutcomeIs(raw, size, pos, buf);
        WroteFlat(raw, size, pos, buf);
      }
    } else {
      var raw, buf := WriteFails(size, pos, count);
      assert WriteOutcome(raw, size, pos, buf) != Done(Patched(Prefix(raw, size), pos, buf));
    }
  }

  lemma WroteFlat(raw: seq<bv8>, size: nat, pos: nat, buf: seq<bv8>)
    requires |raw| == 1024 * ZonesOf(size) && pos <= size && Short(pos, |buf|)
    ensures Wrote(raw, size, pos, buf) == Patched(Prefix(raw, size), pos, buf)
  {
    hide Write, Over;
    var size' := Max(size, pos + |buf|);
    GrownSize(raw, size, size');
    var raw' := Resized(raw, 1024 * ZonesOf(size'));
    WriteShort(raw', pos, buf);
    FlatOver(raw, size, raw', size', pos, buf);
  }

  /** A file of the size given and a buffer on which any other write panics or stores wrong bytes. */
  lemma WriteFails(size: nat, pos: nat, count: nat) returns (raw: seq<bv8>, buf: seq<bv8>)
    requires pos <= size <= MAX_SIZE && count > 0
    requires !(Short(pos, count) && ZonesOf(pos + count) <= ZonesOf(size) + 1 && pos + count <= MAX_SIZE)
    ensures |raw| == 1024 * ZonesOf(size) && |buf| == count
    ensures WriteOutcome(raw, size, pos, buf) != Done(Patched(Prefix(raw, size), pos, buf))
  {
    hide WriteOutcome, Write, Resized;
    raw := seq(1024 * ZonesOf(size), i => 0);
    buf := seq(count, i => 1);
    WriteOutcomeIs(raw, size, pos, buf);
    if Writable(size, pos, count) {
      var size' := Max(size, pos + count);
      GrownSize(raw, size, size');
      var raw' := Resized(raw, 1024 * ZonesOf(size'));
      WriteMisses(raw', pos, buf);
      var at := pos + First(pos, count) + (Left(pos, count) - 1024);
      GrownZero(raw, 1024 * ZonesOf(size'), at);
      assert Wrote(raw, size, pos, buf)[at] == 0;
      assert Patched(Prefix(raw, size), pos, buf)[at] == buf[at - pos] == 1;
    }
  }

  lemma GrownZero(raw: seq<bv8>, n: nat, i: nat)
    requires |raw| <= n && i < n && forall j :: 0 <= j < |raw| ==> raw[j] == 0
    ensures i < |Resized(raw, n)| && Resized(raw, n)[i] == 0
  {
  }

  /** A short transfer that panics: 1500 bytes at the start of an empty file. Two zones are reserved,
      but the second is behind the old size. */
  lemma EmptyFileWrite(buf: seq<bv8>)
    requires |buf| == 1500
    ensures Short(0, 1500) && WriteOutcome([], 0, 0, buf) == Panic
  {
    WriteOutcomeIs([], 0, 0, buf);
  }

  /** So does every append of more than a block to a file that ends on a block boundary. */
  lemma BoundaryAppend(raw: seq<bv8>, size: nat, buf: seq<bv8>)
    requires |raw| == 1024 * ZonesOf(size) && size % 1024 == 0 && size <= MAX_SIZE && 1024 < |buf|
    ensures WriteOutcome(raw, size, size, buf) == Panic
  {
    hide WriteOutcome;
    WriteOutcomeIs(raw, size, size, buf);
    LastZone(size, |buf|);
  }

  // ----- behind the end of the file -----

  /** A write behind the end leaves the file as it was, then what its last block holds behind the end,
      whatever that is, then zero bytes; a short one puts the buffer after these. */
  lemma GapBytes(raw: seq<bv8>, size: nat, pos: nat, buf: seq<bv8>)
    requires |raw| == 1024 * ZonesOf(size) && size <= pos && buf != [] && Writable(size, pos, |buf|)
    ensures |Wrote(raw, size, pos, buf)| == pos + |buf|
    ensures forall i :: 0 <= i < pos ==> Wrote(raw, size, pos, buf)[i] == if i < |raw| then raw[i] else 0
    ensures Short(pos, |buf|) ==> Wrote(raw, size, pos, buf)[pos..] == buf
  {
    hide Write, Over, ZonesOf;
    var n := pos + |buf|;
    GrownSize(raw, size, n);
    var raw' := Resized(raw, 1024 * ZonesOf(n));
    ResizedBytes(raw, 1024 * ZonesOf(n));
    forall i | 0 <= i < pos
      ensures Wrote(raw, size, pos, buf)[i] == if i < |raw| then raw[i] else 0
    {
      WriteBefore(raw', pos, buf, i);
    }
    if Short(pos, |buf|) {
      WriteShort(raw', pos, buf);
      OverEnd(raw', pos, buf);
    }
  }

  lemma ResizedBytes(raw: seq<bv8>, n: nat)
    ensures |Resized(raw, n)| == n
    ensures forall i :: 0 <= i < n ==> Resized(raw, n)[i] == if i < |raw| then raw[i] else 0
  {
  }

  lemma OverEnd(raw: seq<bv8>, pos: nat, buf: seq<bv8>)
    requires pos + |buf| <= |raw|
    ensures Prefix(Over(raw, pos, buf), pos + |buf|)[pos..] == buf
  {
  }

  /** The gap reads as zero bytes if and only if the last block is zero behind the end, up to the
      position. */
  lemma GapZeroIff(raw: seq<bv8>, size: nat, pos: nat, buf: seq<bv8>)
    requires |raw| == 1024 * ZonesOf(size) && size <= pos && buf != [] && Writable(size, pos, |buf|)
    ensures |Wrote(raw, size, pos, buf)| == pos + |buf|
    ensures (forall i :: size <= i < pos ==> Wrote(raw, size, pos, buf)[i] == 0)
            <==> forall i :: size <= i < pos && i < |raw| ==> raw[i] == 0
  {
    hide Wrote, Writable;
    GapBytes(raw, size, pos, buf);
    if i :| size <= i < pos && i < |raw| && raw[i] != 0 {
      assert Wrote(raw, size, pos, buf)[i] != 0;
    }
  }
}
