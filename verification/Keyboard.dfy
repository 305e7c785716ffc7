/** The keyboard of kernel/io.c: scan codes are cooked as they come, and a code that is only half
    there goes back into the queue. */
module Keyboard {
  import opened RingQueue

  const KEY_CTRL_L: int := 0x1d
  const KEY_SHIFT_L: int := 0x2a
  const KEY_ALT_L: int := 0x38
  const KB_F_CTRL: bv32 := 1
  const KB_F_ALT: bv32 := 2
  const KB_F_SHIFT: bv32 := 4

  /** The tables `kb_keycode` and `kb_ascii`, whatever they hold. */
  datatype Keys = Keys(keycode: int -> int, ascii: (int, bv32) -> int)

  predicate IsPrint(c: int) {
    0x20 <= c <= 0x7e
  }

  datatype CookState = CS_NORMAL | CS_E0 | CS_DONE

  function Modified(flag: bv32, mask: bv32, code: int): bv32 {
    if code >= 0x80 then flag & !mask else flag | mask
  }

  /** The modifier flags after a code that stands alone. */
  function FlagsAfter(keys: Keys, code: int, flag: bv32): bv32 {
    if keys.keycode(code) == KEY_CTRL_L then Modified(flag, KB_F_CTRL, code)
    else if keys.keycode(code) == KEY_SHIFT_L then Modified(flag, KB_F_SHIFT, code)
    else if keys.keycode(code) == KEY_ALT_L then Modified(flag, KB_F_ALT, code)
    else flag
  }

  predicate IsModifier(keys: Keys, code: int) {
    keys.keycode(code) in {KEY_CTRL_L, KEY_SHIFT_L, KEY_ALT_L}
  }

  /** The character, if any, of a code that stands alone: printable keys when they go down. */
  function CharsOf(keys: Keys, code: int, flag: bv32): (out: seq<int>)
    ensures |out| <= 1
  {
    if !IsModifier(keys, code) && code < 0x80 && IsPrint(keys.ascii(code, flag)) then [keys.ascii(code, flag)] else []
  }

  /** Flags, characters and the codes still waiting for their second half. */
  datatype Cooked = Cooked(flag: bv32, out: seq<int>, rest: seq<int>)

  /** Folding the codes in one go: 0xe0 swallows the code after it. */
  function Batch(keys: Keys, codes: seq<int>, flag: bv32): (r: Cooked)
    ensures |r.out| + |r.rest| <= |codes|
    ensures r.rest == [] || r.rest == [0xe0]
  {
    if codes == [] then Cooked(flag, [], [])
    else if codes[0] == 0xe0 then
      if |codes| == 1 then Cooked(flag, [], [0xe0]) else Batch(keys, codes[2..], flag)
    else
      var r := Batch(keys, codes[1..], FlagsAfter(keys, codes[0], flag));
      r.(out := CharsOf(keys, codes[0], flag) + r.out)
  }

  lemma Regroup(a: seq<int>, b: seq<int>, c: seq<int>)
    ensures (a + b) + c == a + (b + c)
  {
  }

  /** Codes may be cut anywhere: what waits from the first part is put before the second. */
  lemma {:induction false} BatchSplit(keys: Keys, a: seq<int>, b: seq<int>, flag: bv32)
    ensures var r := Batch(keys, a, flag);
            var t := Batch(keys, r.rest + b, r.flag);
            Batch(keys, a + b, flag) == Cooked(t.flag, r.out + t.out, t.rest)
  {
    hide CharsOf, FlagsAfter;
    if a == [] {
      assert a + b == b && [] + b == b;
    } else if a[0] == 0xe0 {
      if |a| == 1 {
        assert a == [0xe0];
      } else {
        assert (a + b)[2..] == a[2..] + b;
        BatchSplit(keys, a[2..], b, flag);
      }
    } else {
      assert (a + b)[1..] == a[1..] + b;
      var c, r := CharsOf(keys, a[0], flag), Batch(keys, a[1..], FlagsAfter(keys, a[0], flag));
      var t := Batch(keys, r.rest + b, r.flag);
      BatchSplit(keys, a[1..], b, FlagsAfter(keys, a[0], flag));
      Regroup(c, r.out, t.out);
    }
  }

  /** One interrupt at a time: each code is put behind what waits and the lot is cooked. */
  function OneByOne(keys: Keys, codes: seq<int>, flag: bv32, waiting: seq<int>): Cooked
    decreases |codes|
  {
    if codes == [] then Cooked(flag, [], waiting)
    else
      var r := Batch(keys, waiting + [codes[0]], flag);
      var t := OneByOne(keys, codes[1..], r.flag, r.rest);
      t.(out := r.out + t.out)
  }

  /** Incremental cooking is batch cooking. */
  lemma {:induction false} IncrementalIsBatch(keys: Keys, codes: seq<int>, flag: bv32, waiting: seq<int>)
    requires waiting == [] || waiting == [0xe0]
    ensures OneByOne(keys, codes, flag, waiting) == Batch(keys, waiting + codes, flag)
    decreases |codes|
  {
    if codes == [] {
      assert waiting + codes == waiting;
    } else {
      var r := Batch(keys, waiting + [codes[0]], flag);
      IncrementalIsBatch(keys, codes[1..], r.flag, r.rest);
      assert waiting + codes == (waiting + [codes[0]]) + codes[1..];
      BatchSplit(keys, waiting + [codes[0]], codes[1..], flag);
    }
  }

  /** What `tty_cook` does to the two queues: it stops when the second one is full. */
  function Drain(keys: Keys, read: seq<int>, flag: bv32, second: seq<int>): (r: Cooked)
    decreases |read|
  {
    if |second| >= 16 || read == [] then Cooked(flag, second, read)
    else if read[0] == 0xe0 then
      if |read| == 1 then Cooked(flag, second, read) else Drain(keys, read[2..], flag, second)
    else
      Drain(keys, read[1..], FlagsAfter(keys, read[0], flag), second + CharsOf(keys, read[0], flag))
  }

  lemma {:induction false} DrainIsBatch(keys: Keys, read: seq<int>, flag: bv32, second: seq<int>)
    requires |second| + |read| <= 16
    ensures var b := Batch(keys, read, flag);
            Drain(keys, read, flag, second) == Cooked(b.flag, second + b.out, b.rest)
    decreases |read|
  {
    if read == [] {
    } else if |second| >= 16 {
    } else if read[0] == 0xe0 {
      if |read| > 1 {
        DrainIsBatch(keys, read[2..], flag, second);
      }
    } else {
      var c := CharsOf(keys, read[0], flag);
      var b := Batch(keys, read[1..], FlagsAfter(keys, read[0], flag));
      DrainIsBatch(keys, read[1..], FlagsAfter(keys, read[0], flag), second + c);
      assert second + c + b.out == second + (c + b.out);
    }
  }

  predicate CodesOk(s: seq<int>) {
    forall i :: 0 <= i < |s| ==> 0 <= s[i] < 0x100
  }

  /** What the interrupt handler does with each cooked character. */
  function Scrolls(out: seq<int>): seq<int> {
    if out == [] then [] else
    var n := |out| - 1;
    Scrolls(out[..n]) + (if out[n] == 'j' as int || out[n] == 'J' as int then [3]
                         else if out[n] == 'k' as int || out[n] == 'K' as int then [-3] else [])
  }

  class Tty {
    const keys: Keys
    const readQ: Queue
    const secondary: Queue
    var kbFlag: bv32
    var scrolled: seq<int>    // the arguments of the calls of `scroll_screen`
    ghost var typed: seq<int> // the characters the handler took out

    ghost predicate Valid()
      reads this, readQ, readQ.buffer, secondary, secondary.buffer
    {
      && readQ != secondary && readQ.buffer != secondary.buffer
      && readQ.Valid() && secondary.Valid()
      && CodesOk(readQ.contents)
      && scrolled == Scrolls(typed)
    }

    /** Between interrupts: nothing waits but perhaps a lone 0xe0. */
    ghost predicate Idle()
      reads this, readQ, readQ.buffer, secondary, secondary.buffer
    {
      Valid() && secondary.contents == [] && (readQ.contents == [] || readQ.contents == [0xe0])
    }

    /** `tty_init`. */
    constructor (keys: Keys)
      ensures Idle() && readQ.contents == [] && kbFlag == 0 && typed == [] && this.keys == keys
      ensures fresh(readQ) && fresh(readQ.buffer) && fresh(secondary) && fresh(secondary.buffer)
    {
      this.keys := keys;
      readQ := new Queue();
      secondary := new Queue();
      kbFlag := 0;
      scrolled, typed := [], [];
    }

    /** `cook`. In state CS_DONE it panics. */
    method Cook(code: int, cstate: CookState) returns (state: CookState, out: seq<int>)
      requires 0 <= code < 0x100 && cstate != CS_DONE
      modifies this`kbFlag
      ensures cstate == CS_NORMAL && code == 0xe0 ==> state == CS_E0 && out == [] && kbFlag == old(kbFlag)
      ensures cstate == CS_NORMAL && code != 0xe0 ==>
                && state == CS_DONE && kbFlag == FlagsAfter(keys, code, old(kbFlag))
                && out == CharsOf(keys, code, old(kbFlag))
      ensures cstate == CS_E0 ==> state == CS_DONE && out == [] && kbFlag == old(kbFlag)
    {
      hide Modified;
      out := [];
      if cstate == CS_NORMAL {
        if code == 0xe0 {
          state := CS_E0;
        } else if keys.keycode(code) == KEY_CTRL_L {
          kbFlag := Modified(kbFlag, KB_F_CTRL, code);
          state := CS_DONE;
        } else if keys.keycode(code) == KEY_SHIFT_L {
          kbFlag := Modified(kbFlag, KB_F_SHIFT, code);
          state := CS_DONE;
        } else if keys.keycode(code) == KEY_ALT_L {
          kbFlag := Modified(kbFlag, KB_F_ALT, code);
          state := CS_DONE;
        } else if code < 0x80 {
          var c := keys.ascii(code, kbFlag);
          if IsPrint(c) {
            out := [c];
          }
          state := CS_DONE;
        } else {
          state := CS_DONE;
        }
      } else {
        state := CS_DONE;
      }
    }

    /** The copy loop of `tty_cook`. */
    method CopyOut(filter: seq<int>)
      requires Valid() && |secondary.contents| + |filter| <= 16
      modifies secondary`tail, secondary`count, secondary`contents, secondary.buffer
      ensures Valid() && secondary.contents == old(secondary.contents) + filter
    {
      hide Rep, Drain, Batch, Scrolls;
      var p := 0;
      while p < |filter|
        invariant 0 <= p <= |filter|
        invariant Valid() && secondary.contents == old(secondary.contents) + filter[..p]
      {
        secondary.CountIsLength();
        secondary.Enq(filter[p]);
        p := p + 1;
      }
    }

    /** One code taken from the read queue and cooked in the given state. */
    method TakeAndCook(cstate: CookState) returns (state: CookState, filter: seq<int>)
      requires Valid() && readQ.contents != [] && cstate != CS_DONE
      modifies this`kbFlag, readQ`head, readQ`count, readQ`contents
      ensures Valid() && readQ.contents == old(readQ.contents)[1..]
      ensures var code := old(readQ.contents)[0];
        if cstate == CS_E0 then state == CS_DONE && filter == [] && kbFlag == old(kbFlag)
        else if code == 0xe0 then state == CS_E0 && filter == [] && kbFlag == old(kbFlag)
        else && state == CS_DONE && kbFlag == FlagsAfter(keys, code, old(kbFlag))
             && filter == CharsOf(keys, code, old(kbFlag))
      ensures cstate == CS_NORMAL ==> readQ.CanRestore(old(readQ.head), old(readQ.count), old(readQ.contents))
    {
      hide Rep, Drain, Batch, Scrolls, CharsOf, FlagsAfter;
      readQ.CountIsLength();
      var code := readQ.Deq();
      state, filter := Cook(code, cstate);
    }

    /** The end of a turn of `tty_cook`: hand the characters over or, when they do not all fit, put
        the codes back. */
    method HandOver(filter: seq<int>, saveHead: int, saveCount: int, ghost saved: seq<int>) returns (fits: bool)
      requires Valid() && readQ.CanRestore(saveHead, saveCount, saved) && CodesOk(saved)
      modifies readQ`head, readQ`count, readQ`contents
      modifies secondary`tail, secondary`count, secondary`contents, secondary.buffer
      ensures Valid() && fits == (|filter| <= 16 - |old(secondary.contents)|)
      ensures readQ.contents == if fits then old(readQ.contents) else saved
      ensures secondary.contents == if fits then old(secondary.contents) + filter else old(secondary.contents)
    {
      hide Rep, Drain, Batch, Scrolls;
      secondary.CountIsLength();
      fits := QUEUE_BUF_SZ - secondary.count >= |filter|;
      if fits {
        CopyOut(filter);
      } else {
        readQ.Restore(saveHead, saveCount, saved);
      }
    }

    /** `tty_cook`. */
    method TtyCook()
      requires Valid()
      modifies this`kbFlag, readQ`head, readQ`count, readQ`contents
      modifies secondary`tail, secondary`count, secondary`contents, secondary.buffer
      ensures Valid()
      ensures Cooked(kbFlag, secondary.contents, readQ.contents)
           == Drain(keys, old(readQ.contents), old(kbFlag), old(secondary.contents))
    {
      hide Rep, Scrolls, FlagsAfter;
      readQ.CountIsLength();
      secondary.CountIsLength();
      while secondary.count != QUEUE_BUF_SZ && readQ.count != 0
        invariant Valid()
        invariant secondary.count == |secondary.contents| <= 16 && readQ.count == |readQ.contents|
        invariant Drain(keys, readQ.contents, kbFlag, secondary.contents)
               == Drain(keys, old(readQ.contents), old(kbFlag), old(secondary.contents))
        decreases |readQ.contents|
      {
        var saveHead, saveCount := readQ.head, readQ.count;
        ghost var saved, flag := readQ.contents, kbFlag;
        var state, filter := TakeAndCook(CS_NORMAL);
        readQ.CountIsLength();
        if state != CS_DONE {
          if readQ.count == 0 {
            readQ.Restore(saveHead, saveCount, saved);
            return;
          }
          state, filter := TakeAndCook(CS_E0);
          assert saved[1..][1..] == saved[2..] && secondary.contents + [] == secondary.contents;
        }
        assert Drain(keys, saved, flag, secondary.contents)
            == Drain(keys, readQ.contents, kbFlag, secondary.contents + filter);
        var fits := HandOver(filter, saveHead, saveCount, saved);
        if !fits {
          assert false; // one key gives at most one character
        }
        readQ.CountIsLength();
        secondary.CountIsLength();
      }
    }

    /** The loop of the interrupt handler that takes the characters out. */
    method TakeOut()
      requires Valid()
      modifies this`scrolled, this`typed, secondary`head, secondary`count, secondary`contents
      ensures Valid() && secondary.contents == [] && typed == old(typed) + old(secondary.contents)
    {
      hide Rep, Batch, Drain;
      secondary.CountIsLength();
      while secondary.count != 0
        invariant Valid() && secondary.count == |secondary.contents|
        invariant typed + secondary.contents == old(typed) + old(secondary.contents)
        decreases |secondary.contents|
      {
        ghost var s := secondary.contents;
        var c := secondary.Deq();
        if c == 'j' as int || c == 'J' as int {
          scrolled := scrolled + [3];
        } else if c == 'k' as int || c == 'K' as int {
          scrolled := scrolled + [-3];
        }
        assert (typed + [c])[..|typed|] == typed && typed + [c] + s[1..] == typed + s by {
          assert s == [c] + s[1..];
        }
        typed := typed + [c];
        secondary.CountIsLength();
      }
    }

    /** `on_keyboard_interrupt`. Between interrupts the queue never holds more than one code, so the
        panic of a full buffer is out of reach. */
    method OnInterrupt(code: int)
      requires Idle() && 0 <= code < 0x100
      modifies this`kbFlag, this`scrolled, this`typed
      modifies readQ, readQ.buffer, secondary, secondary.buffer
      ensures Idle()
      ensures var b := Batch(keys, old(readQ.contents) + [code], old(kbFlag));
        kbFlag == b.flag && typed == old(typed) + b.out && readQ.contents == b.rest
    {
      hide Rep, Drain, Batch, Scrolls;
      readQ.CountIsLength();
      if readQ.count != QUEUE_BUF_SZ {
        readQ.Enq(code);
        DrainIsBatch(keys, readQ.contents, kbFlag, secondary.contents);
        TtyCook();
        assert [] + Batch(keys, old(readQ.contents) + [code], old(kbFlag)).out == secondary.contents;
        TakeOut();
      } else {
        assert false; // "keyboard buffer is full"
      }
    }

    /** Any run of interrupts comes to the same flags, characters and waiting codes as cooking the
        whole sequence at once. */
    method Type(codes: seq<int>)
      requires Idle() && CodesOk(codes)
      modifies this`kbFlag, this`scrolled, this`typed
      modifies readQ, readQ.buffer, secondary, secondary.buffer
      ensures Idle()
      ensures var b := Batch(keys, old(readQ.contents) + codes, old(kbFlag));
        kbFlag == b.flag && typed == old(typed) + b.out && readQ.contents == b.rest
    {
      hide Rep, Drain, Batch, Scrolls;
      ghost var b := OneByOne(keys, codes, kbFlag, readQ.contents);
      IncrementalIsBatch(keys, codes, kbFlag, readQ.contents);
      var i := 0;
      while i < |codes|
        invariant 0 <= i <= |codes| && Idle()
        invariant var t := OneByOne(keys, codes[i..], kbFlag, readQ.contents);
          b == Cooked(t.flag, b.out, t.rest) && old(typed) + b.out == typed + t.out
      {
        OnInterrupt(codes[i]);
        assert codes[i..][1..] == codes[i + 1..];
        i := i + 1;
      }
    }
  }
}
