/** The ring queue macros of include/io.h. */
module RingQueue {
  const QUEUE_BUF_SZ: int := 16

  /** `s` is what lies between head and tail. The tail may stand one past the end: it wraps before
      the next store, while the head wraps right after a load. */
  ghost predicate Rep(buf: seq<int>, head: int, tail: int, count: int, s: seq<int>) {
    && |buf| == 16 && 0 <= head < 16 && 0 <= tail <= 16 && |s| == count <= 16
    && (tail == head + count || tail == head + count - 16 || tail == head + count + 16)
    && (forall k :: 0 <= k < count ==> s[k] == buf[Pos(head, k)])
  }

  function Pos(head: int, k: int): int {
    if head + k < 16 then head + k else head + k - 16
  }

  class Queue {
    const buffer: array<int>
    var head: int
    var tail: int
    var count: int
    ghost var contents: seq<int>

    ghost predicate Valid()
      reads this, buffer
    {
      buffer.Length == 16 && Rep(buffer[..], head, tail, count, contents)
    }

    /** `QUEUE_INIT`. */
    constructor ()
      ensures Valid() && fresh(buffer) && contents == []
    {
      buffer := new int[16];
      head, tail, count := 0, 0, 0;
      contents := [];
    }

    /** `QUEUE_ENQ`: a full queue fails its assert. */
    method Enq(v: int)
      requires Valid() && count < QUEUE_BUF_SZ
      modifies this`tail, this`count, this`contents, buffer
      ensures Valid() && contents == old(contents) + [v]
    {
      if tail >= QUEUE_BUF_SZ {
        tail := tail - QUEUE_BUF_SZ;
      }
      buffer[tail] := v;
      tail := tail + 1;
      count := count + 1;
      contents := contents + [v];
    }

    /** `QUEUE_DEQ`: the store stays as it is, so saved head and count can bring it all back. */
    method Deq() returns (v: int)
      requires Valid() && count > 0
      modifies this`head, this`count, this`contents
      ensures Valid() && v == old(contents)[0] && contents == old(contents)[1..]
      ensures CanRestore(old(head), old(count), old(contents))
    {
      assert contents[0] == buffer[Pos(head, 0)];
      v := buffer[head];
      head := head + 1;
      if head >= QUEUE_BUF_SZ {
        head := head - QUEUE_BUF_SZ;
      }
      count := count - 1;
      contents := contents[1..];
      assert forall k :: 0 <= k < count ==> contents[k] == old(contents)[k + 1];
    }

    lemma CountIsLength()
      requires Valid()
      ensures count == |contents| <= 16
    {
    }

    /** Head and count of an earlier state in which the queue held `s`, with nothing stored since. */
    ghost predicate CanRestore(saveHead: int, saveCount: int, s: seq<int>)
      reads this`tail, buffer
    {
      buffer.Length == 16 && Rep(buffer[..], saveHead, tail, saveCount, s)
    }

    /** The queue restore of `tty_cook`. */
    method Restore(saveHead: int, saveCount: int, ghost s: seq<int>)
      requires Valid() && CanRestore(saveHead, saveCount, s)
      modifies this`head, this`count, this`contents
      ensures Valid() && contents == s
    {
      head := saveHead;
      count := saveCount;
      contents := s;
    }
  }
}
