/** The block splitting of `_read` and `_write` in fs/fs.c, on the bytes of a file's blocks.

  The first transfer runs to the end of its block. Each later one moves
  `left % BLOCK_SIZE` bytes when more than a block is left, and starts at the
  next block whatever it moved. So two blocks come out right, three come out
  shuffled, and from 2048 bytes after the first transfer on the loop stops
  moving bytes and walks off the direct zones.
*/
module Transfer {

  function First(pos: nat, count: nat): (n: nat)
    ensures n <= count
  {
    var room := 1024 - pos % 1024;
    if count < room then count else room
  }

  function Left(pos: nat, count: nat): nat {
    count - First(pos, count)
  }

  /** `bytes` in the loops. */
  function Step(left: nat): (n: nat)
    ensures n <= left
  {
    if left > 1024 then left % 1024 else left
  }

  function ReadRest(raw: seq<bv8>, zone: nat, left: nat): (r: seq<bv8>)
    requires left < 2 * 1024 && zone * 1024 + left <= |raw| && |raw| % 1024 == 0
    ensures |r| == left
    decreases left
  {
    if left == 0 then [] else
    var n := Step(left); raw[zone * 1024..zone * 1024 + n] + ReadRest(raw, zone + 1, left - n)
  }

  /** What `_read` puts into `buf`. */
  function Read(raw: seq<bv8>, pos: nat, count: nat): (r: seq<bv8>)
    requires Left(pos, count) < 2 * 1024 && pos + count <= |raw| && |raw| % 1024 == 0
    ensures |r| == count
  {
    var n := First(pos, count);
    raw[pos..pos + n] + if n == count then [] else ReadRest(raw, pos / 1024 + 1, count - n)
  }

  /** `raw` with `bytes` laid over it from `at` on. */
  function Over(raw: seq<bv8>, at: nat, bytes: seq<bv8>): (r: seq<bv8>)
    requires at + |bytes| <= |raw|
    ensures |r| == |raw|
  {
    raw[..at] + bytes + raw[at + |bytes|..]
  }

  lemma OverIndex(raw: seq<bv8>, at: nat, bytes: seq<bv8>, i: nat)
    requires at + |bytes| <= |raw| && i < |raw|
    ensures Over(raw, at, bytes)[i] == if at <= i < at + |bytes| then bytes[i - at] else raw[i]
  {
  }

  function WriteRest(raw: seq<bv8>, zone: nat, buf: seq<bv8>): (r: seq<bv8>)
    requires |buf| < 2 * 1024 && zone * 1024 + |buf| <= |raw| && |raw| % 1024 == 0
    ensures |r| == |raw|
    decreases |buf|
  {
    if buf == [] then raw else
    var n := Step(|buf|); WriteRest(Over(raw, zone * 1024, buf[..n]), zone + 1, buf[n..])
  }

  /** What `_write` leaves in the file's blocks. */
  function Write(raw: seq<bv8>, pos: nat, buf: seq<bv8>): (r: seq<bv8>)
    requires Left(pos, |buf|) < 2 * 1024 && pos + |buf| <= |raw| && |raw| % 1024 == 0
    ensures |r| == |raw|
  {
    var n := First(pos, |buf|);
    var raw' := Over(raw, pos, buf[..n]);
    if n == |buf| then raw' else WriteRest(raw', pos / 1024 + 1, buf[n..])
  }

  lemma NextZone(pos: nat, count: nat)
    requires Left(pos, count) > 0
    ensures pos + First(pos, count) == (pos / 1024 + 1) * 1024
  {
  }

  /** The transfer crosses at most one block boundary. */
  predicate Short(pos: nat, count: nat) {
    count <= 2 * 1024 - pos % 1024
  }

  lemma ReadShort(raw: seq<bv8>, pos: nat, count: nat)
    requires Short(pos, count) && pos + count <= |raw| && |raw| % 1024 == 0
    ensures Left(pos, count) < 2 * 1024
    ensures Read(raw, pos, count) == raw[pos..pos + count]
  {
    var n := First(pos, count);
    if n < count {
      assert pos + n == (pos / 1024 + 1) * 1024;
      assert ReadRest(raw, pos / 1024 + 2, 0) == [];
    }
  }

  lemma WriteShort(raw: seq<bv8>, pos: nat, buf: seq<bv8>)
    requires Short(pos, |buf|) && pos + |buf| <= |raw| && |raw| % 1024 == 0
    ensures Left(pos, |buf|) < 2 * 1024
    ensures Write(raw, pos, buf) == Over(raw, pos, buf)
  {
    var n := First(pos, |buf|);
    if n < |buf| {
      var zone := pos / 1024 + 1;
      assert pos + n == zone * 1024;
      var rest := buf[n..];
      assert rest[..|rest|] == rest && rest[|rest|..] == [];
      var raw' := Over(raw, pos, buf[..n]);
      assert WriteRest(raw', zone, rest) == Over(raw', zone * 1024, rest);
      assert Over(raw', zone * 1024, rest) == Over(raw, pos, buf);
    } else {
      assert buf[..n] == buf;
    }
  }

  /** A rest of more than one block: a short piece, and then a whole block from the next zone. */
  lemma RestReadLong(raw: seq<bv8>, zone: nat, left: nat)
    requires 1024 < left < 2 * 1024 && zone * 1024 + left <= |raw| && |raw| % 1024 == 0
    ensures (zone + 2) * 1024 <= |raw|
    ensures var r := left - 1024;
            ReadRest(raw, zone, left) == raw[zone * 1024..zone * 1024 + r] + raw[(zone + 1) * 1024..(zone + 2) * 1024]
  {
    var r := left - 1024;
    assert ReadRest(raw, zone + 2, 0) == [];
    assert ReadRest(raw, zone + 1, 1024) == raw[(zone + 1) * 1024..(zone + 2) * 1024] + [];
    assert ReadRest(raw, zone, left) == raw[zone * 1024..zone * 1024 + r] + ReadRest(raw, zone + 1, 1024);
  }

  /** Such a read delivers, where byte `at` of the file belongs, the first byte of the next block. */
  lemma ReadSkips(raw: seq<bv8>, pos: nat, count: nat)
    requires 1024 < Left(pos, count) < 2 * 1024 && pos + count <= |raw| && |raw| % 1024 == 0
    ensures var k := First(pos, count) + (Left(pos, count) - 1024);
            && k < count && (pos / 1024 + 2) * 1024 < |raw|
            && |Read(raw, pos, count)| == count && Read(raw, pos, count)[k] == raw[(pos / 1024 + 2) * 1024]
            && pos + k < (pos / 1024 + 2) * 1024
  {
    hide ReadRest, First;
    NextZone(pos, count);
    RestReadLong(raw, pos / 1024 + 1, Left(pos, count));
  }

  /** A rest of more than one block: the next piece is cut short and the last one
      starts a whole block further on. */
  lemma RestLong(raw: seq<bv8>, zone: nat, rest: seq<bv8>)
    requires 1024 < |rest| < 2 * 1024 && zone * 1024 + |rest| <= |raw| && |raw| % 1024 == 0
    ensures (zone + 2) * 1024 <= |raw|
    ensures var r := |rest| - 1024;
            WriteRest(raw, zone, rest) == Over(Over(raw, zone * 1024, rest[..r]), (zone + 1) * 1024, rest[r..])
  {
    hide Over;
    var r := |rest| - 1024;
    var last := rest[r..];
    assert last[..1024] == last && last[1024..] == [];
    var raw1 := Over(raw, zone * 1024, rest[..r]);
    assert WriteRest(raw, zone, rest) == WriteRest(raw1, zone + 1, last);
    assert WriteRest(raw1, zone + 1, last) == WriteRest(Over(raw1, (zone + 1) * 1024, last), zone + 2, []);
  }

  /** Such a write leaves a byte in its range as it was. */
  lemma WriteMisses(raw: seq<bv8>, pos: nat, buf: seq<bv8>)
    requires 1024 < Left(pos, |buf|) < 2 * 1024 && pos + |buf| <= |raw| && |raw| % 1024 == 0
    ensures var at := pos + First(pos, |buf|) + (Left(pos, |buf|) - 1024);
            at < pos + |buf| && Write(raw, pos, buf)[at] == raw[at]
  {
    hide WriteRest, Over, First;
    NextZone(pos, |buf|);
    var n, zone := First(pos, |buf|), pos / 1024 + 1;
    var raw1, rest := Over(raw, pos, buf[..n]), buf[n..];
    RestLong(raw1, zone, rest);
    var r := |rest| - 1024;
    var raw2 := Over(raw1, zone * 1024, rest[..r]);
    var at := zone * 1024 + r;
    OverIndex(raw, pos, buf[..n], at);
    OverIndex(raw1, zone * 1024, rest[..r], at);
    OverIndex(raw2, (zone + 1) * 1024, rest[r..], at);
  }

  lemma {:induction false} RestBefore(raw: seq<bv8>, zone: nat, buf: seq<bv8>, i: nat)
    requires |buf| < 2 * 1024 && zone * 1024 + |buf| <= |raw| && |raw| % 1024 == 0 && i < zone * 1024 && i < |raw|
    ensures WriteRest(raw, zone, buf)[i] == raw[i]
    decreases |buf|
  {
    hide Over;
    if buf != [] {
      var n := Step(|buf|);
      OverIndex(raw, zone * 1024, buf[..n], i);
      RestBefore(Over(raw, zone * 1024, buf[..n]), zone + 1, buf[n..], i);
    }
  }

  /** No write touches a byte before its position. */
  lemma WriteBefore(raw: seq<bv8>, pos: nat, buf: seq<bv8>, i: nat)
    requires Left(pos, |buf|) < 2 * 1024 && pos + |buf| <= |raw| && |raw| % 1024 == 0 && i < pos && i < |raw|
    ensures Write(raw, pos, buf)[i] == raw[i]
  {
    hide WriteRest, Over;
    var n := First(pos, |buf|);
    OverIndex(raw, pos, buf[..n], i);
    if n < |buf| {
      NextZone(pos, |buf|);
      RestBefore(Over(raw, pos, buf[..n]), pos / 1024 + 1, buf[n..], i);
    }
  }
}
