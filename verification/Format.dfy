/** The integer formatter `__itoaf` of lib/printf.c. */
module Format {
  import opened Collections
  import opened Numbers

  /** The flags of a conversion; at most one is ever set. */
  datatype Flag = NoFlag | LeftJust | SignPlus | SignSpace | Mark | ZeroPad

  function Prefix(v: int, base: int, flag: Flag): seq<char> {
    if base == 10 && v > 0 then
      if flag == SignPlus then "+" else if flag == SignSpace then " " else ""
    else if (base == 8 || base == 16) && flag == Mark then
      if base == 16 then "0x" else "0"
    else ""
  }

  function Sign(v: int, base: int): seq<char> {
    if v < 0 && base == 10 then "-" else ""
  }

  /** Prefix and sign. */
  function Head(v: int, base: int, flag: Flag): seq<char> {
    Prefix(v, base, flag) + Sign(v, base)
  }

  function Magnitude(v: int, base: int): seq<char>
    requires 2 <= base <= 36
  {
    if v < 0 && base == 10 then Digits(-v, 10) else Digits(Unsigned(v), base)
  }

  function Fill(c: char, n: int): (s: seq<char>)
    ensures |s| == Max(n, 0)
    ensures forall i :: 0 <= i < |s| ==> s[i] == c
  {
    if n <= 0 then [] else [c] + Fill(c, n - 1)
  }

  /** Sign and digits, with zeros between them up to the precision. */
  function Precise(v: int, base: int, flag: Flag, precision: int): seq<char>
    requires 2 <= base <= 36
  {
    var d := Magnitude(v, base);
    Head(v, base, flag) + (Fill('0', precision - |d|) + d)
  }

  /** What a conversion writes. */
  function Itoaf(v: int, base: int, flag: Flag, width: int, precision: int): (s: seq<char>)
    requires 2 <= base <= 36
  {
    var core := Precise(v, base, flag, precision);
    var n := width - |core|;
    if flag == LeftJust then core + Fill(' ', n)
    else if precision < 0 && flag == ZeroPad then
      Head(v, base, flag) + (Fill('0', n) + Magnitude(v, base))
    else Fill(' ', n) + core
  }

  /** Zeros for the precision, but nothing for the width: then the terminator is overwritten by the
      shift and not written again. */
  predicate LosesEnd(v: int, base: int, flag: Flag, width: int, precision: int)
    requires 2 <= base <= 36
  {
    precision > |Magnitude(v, base)| && width <= |Precise(v, base, flag, precision)|
  }

  /** It happens: `%.3d` of 5. */
  lemma LosesEndHappens()
    ensures LosesEnd(5, 10, NoFlag, 0, 3) && Itoaf(5, 10, NoFlag, 0, 3) == "005"
  {
    assert Digits(Unsigned(5), 10) == "5";
    assert Fill('0', 2) == ['0'] + Fill('0', 1);
  }

  /** The length of a conversion. */
  lemma ItoafLength(v: int, base: int, flag: Flag, width: int, precision: int)
    requires 2 <= base <= 36
    ensures |Itoaf(v, base, flag, width, precision)|
         == Max(width, |Prefix(v, base, flag)| + |Sign(v, base)| + Max(precision, |Magnitude(v, base)|))
  {
  }

  ghost predicate HoldsAt(a: seq<char>, at: int, s: seq<char>) {
    0 <= at && at + |s| <= |a| && forall i :: 0 <= i < |s| ==> s[i] == a[at + i]
  }

  ghost predicate SameOutside(a: seq<char>, b: seq<char>, lo: int, hi: int) {
    |a| == |b| && forall i :: 0 <= i < |a| && !(lo <= i < hi) ==> a[i] == b[i]
  }

  /** `shift_pad` with a positive shift. */
  method ShiftPad(str: array<char>, first: nat, end: nat, shift: nat, pad: char)
    requires first < end && shift > 0 && end + shift <= str.Length
    modifies str
    ensures forall i :: first <= i < first + shift ==> str[i] == pad
    ensures forall i :: first + shift <= i < end + shift ==> str[i] == old(str[i - shift])
    ensures SameOutside(str[..], old(str[..]), first, end + shift)
  {
    ghost var was := str[..];
    var e := end;
    while e != first
      invariant first <= e <= end
      invariant forall i {:trigger str[i]} :: 0 <= i < str.Length ==>
        str[i] == if e + shift <= i < end + shift then was[i - shift] else was[i]
    {
      e := e - 1;
      str[e + shift] := str[e];
    }
    e := e + shift;
    while e != first
      invariant first <= e <= first + shift
      invariant forall i {:trigger str[i]} :: 0 <= i < str.Length ==>
        str[i] == if first + shift <= i < end + shift then was[i - shift]
                  else if e <= i < first + shift then pad else was[i]
    {
      e := e - 1;
      str[e] := pad;
    }
  }

  /** `shift_pad` with a negative shift, which no caller asks for, in a memory of `mem.Length` addresses. The
      piece moves back, but then `first` is moved on instead of back: the padding starts behind the end and
      goes round the memory to it. Nothing but the `back` characters behind the end is left. */
  method ShiftPadBack(mem: array<char>, first: nat, end: nat, back: nat, pad: char)
    requires 0 < back <= first < end && end + back < mem.Length
    modifies mem
    ensures forall i :: 0 <= i < mem.Length ==> mem[i] == if end <= i < end + back then old(mem[i]) else pad
  {
    var p := first;
    while p != end
      invariant first <= p <= end
      invariant forall i {:trigger mem[i]} :: end <= i < mem.Length ==> mem[i] == old(mem[i])
    {
      mem[p - back] := mem[p];
      p := p + 1;
    }
    p := p + back;
    ghost var done := 0;
    while p != end
      invariant 0 <= done <= mem.Length - back
      invariant p == if done < mem.Length - (end + back) then end + back + done else done - (mem.Length - (end + back))
      invariant forall i {:trigger mem[i]} :: end + back <= i < mem.Length && i < end + back + done ==> mem[i] == pad
      invariant forall i {:trigger mem[i]} :: 0 <= i < done - (mem.Length - (end + back)) ==> mem[i] == pad
      invariant forall i {:trigger mem[i]} :: end <= i < end + back ==> mem[i] == old(mem[i])
      decreases mem.Length - back - done
    {
      mem[p] := pad;
      p := if p + 1 == mem.Length then 0 else p + 1;
      done := done + 1;
    }
  }

  /** Shifting the second of two pieces that lie in a row puts the padding between them. */
  lemma Shifted(a: seq<char>, b: seq<char>, at: int, x: seq<char>, y: seq<char>, shift: nat, pad: char)
    requires HoldsAt(a, at, x + y) && y != [] && shift > 0 && at + |x + y| + shift <= |a|
    requires forall i :: at + |x| <= i < at + |x| + shift ==> 0 <= i < |b| && b[i] == pad
    requires forall i :: at + |x| + shift <= i < at + |x + y| + shift ==> 0 <= i < |b| && b[i] == a[i - shift]
    requires SameOutside(b, a, at + |x|, at + |x + y| + shift)
    ensures HoldsAt(b, at, x + (Fill(pad, shift) + y))
  {
    hide Fill;
    var f := Fill(pad, shift);
    var s := x + (f + y);
    forall i | 0 <= i < |s|
      ensures s[i] == b[at + i]
    {
      if i < |x| {
        assert s[i] == (x + y)[i];
      } else if i < |x| + shift {
        assert s[i] == f[i - |x|];
      } else {
        assert s[i] == (x + y)[i - shift];
      }
    }
  }

  /** `strlen` of a string without a terminator inside. */
  method Strlen(str: array<char>, at: nat, ghost s: seq<char>) returns (n: nat)
    requires HoldsString(str[..], at, s) && forall i :: 0 <= i < |s| ==> s[i] != '\0'
    ensures n == |s|
  {
    n := 0;
    while str[at + n] != '\0'
      invariant n <= |s| && (n < |s| ==> s[n] == str[at + n])
      decreases |s| - n
    {
      assert n < |s|;
      n := n + 1;
    }
  }

  /** The first part of `__itoaf`: prefix and number, without any padding. */
  method PutNumber(value: int, str: array<char>, start: nat, base: int, flag: Flag) returns (nstart: nat, nend: nat)
    requires IsInt(value) && 2 <= base <= 36
    requires start + |Head(value, base, flag) + Magnitude(value, base)| < str.Length
    modifies str
    ensures HoldsString(str[..], start, Head(value, base, flag) + Magnitude(value, base))
    ensures nstart == start + |Head(value, base, flag)| && nend == nstart + |Magnitude(value, base)|
    ensures SameOutside(str[..], old(str[..]), start, nend + 1)
  {
    hide Digits, Itoa, Prefix, Sign, Magnitude;
    ItoaParts(value, base, flag);
    ItoaShape(value, base);
    var p := PutPrefix(value, str, start, base, flag);
    ItoaInto(value, str, p, base);
    var n := Strlen(str, p, Itoa(value, base));
    nstart, nend := p, p + n;
    assert Itoa(value, base)[0] == str[nstart];
    if str[nstart] == '-' {
      nstart := nstart + 1;
    }
    Behind(str[..], start, Prefix(value, base, flag), Itoa(value, base));
  }

  lemma ItoaParts(v: int, base: int, flag: Flag)
    requires 2 <= base <= 36
    ensures Prefix(v, base, flag) + Itoa(v, base) == Head(v, base, flag) + Magnitude(v, base)
    ensures |Sign(v, base)| <= 1 && |Itoa(v, base)| == |Sign(v, base)| + |Magnitude(v, base)|
  {
    hide Digits;
  }

  method PutPrefix(value: int, str: array<char>, start: nat, base: int, flag: Flag) returns (p: nat)
    requires start + |Prefix(value, base, flag)| < str.Length
    modifies str
    ensures p == start + |Prefix(value, base, flag)| && HoldsAt(str[..], start, Prefix(value, base, flag))
    ensures SameOutside(str[..], old(str[..]), start, p)
  {
    p := start;
    if base == 10 && value > 0 {
      if flag == SignPlus {
        str[p] := '+';
        p := p + 1;
      } else if flag == SignSpace {
        str[p] := ' ';
        p := p + 1;
      }
    } else if base == 8 || base == 16 {
      if flag == Mark {
        str[p] := '0';
        p := p + 1;
        if base == 16 {
          str[p] := 'x';
          p := p + 1;
        }
      }
    }
  }

  lemma Behind(a: seq<char>, at: nat, x: seq<char>, y: seq<char>)
    requires HoldsAt(a, at, x) && HoldsString(a, at + |x|, y)
    ensures HoldsString(a, at, x + y)
  {
  }

  /** A number starts with a minus sign or has none, and has no terminator inside. */
  lemma ItoaShape(v: int, base: int)
    requires IsInt(v) && 2 <= base <= 36
    ensures forall i :: 0 <= i < |Itoa(v, base)| ==> Itoa(v, base)[i] != '\0'
    ensures Itoa(v, base)[0] == '-' <==> |Sign(v, base)| == 1
  {
    hide Digits;
    var n := if v < 0 && base == 10 then -v else Unsigned(v);
    DigitsShape(n, base);
    assert forall i :: 0 <= i < |Digits(n, base)| ==> Plain(Digits(n, base)[i], base);
  }

  /** The second part of `__itoaf`: zeros for the precision. */
  method PadPrecision(value: int, str: array<char>, start: nat, nstart: nat, nend: nat, base: int,
                      flag: Flag, precision: int)
    returns (p: nat)
    requires 2 <= base <= 36 && HoldsString(str[..], start, Head(value, base, flag) + Magnitude(value, base))
    requires nstart == start + |Head(value, base, flag)| && nend == nstart + |Magnitude(value, base)|
    requires start + |Precise(value, base, flag, precision)| < str.Length
    modifies str
    ensures p == start + |Precise(value, base, flag, precision)|
    ensures HoldsAt(str[..], start, Precise(value, base, flag, precision))
    ensures precision <= |Magnitude(value, base)| ==> str[p] == '\0'
    ensures SameOutside(str[..], old(str[..]), start, p)
  {
    hide Digits, Fill, Prefix, Sign;
    ghost var d := Magnitude(value, base);
    p := nend;
    if nstart + precision > nend {
      var padcnt := precision - (nend - nstart);
      ShiftPad(str, nstart, nend, padcnt, '0');
      Shifted(old(str[..]), str[..], start, Head(value, base, flag), d, padcnt, '0');
      p := nend + padcnt;
    } else {
      assert Fill('0', precision - |d|) + d == d;
    }
  }

  /** The loop for left justification. */
  method SpacesBehind(str: array<char>, start: nat, end: nat, ghost s: seq<char>, n: nat)
    requires HoldsAt(str[..], start, s) && end == start + |s| && end + n < str.Length
    modifies str
    ensures HoldsString(str[..], start, s + Fill(' ', n))
    ensures SameOutside(str[..], old(str[..]), start, start + |s| + n + 1)
  {
    hide Fill;
    ghost var f := Fill(' ', n);
    var p := end;
    while end + n > p
      invariant end <= p <= end + n && SameOutside(str[..], old(str[..]), end, p)
      invariant forall i :: end <= i < p ==> str[i] == ' '
    {
      str[p] := ' ';
      p := p + 1;
    }
    str[p] := '\0';
    forall i | 0 <= i < |s + f|
      ensures (s + f)[i] == str[start + i]
    {
      if i < |s| {
        assert s[i] == old(str[start + i]);
      } else {
        assert f[i - |s|] == ' ';
      }
    }
  }

  /** The rest of `__itoaf`: padding for the width. */
  method PadWidth(value: int, str: array<char>, start: nat, nstart: nat, end: nat, base: int, flag: Flag,
                  width: int, precision: int)
    requires 2 <= base <= 36 && HoldsAt(str[..], start, Precise(value, base, flag, precision))
    requires nstart == start + |Head(value, base, flag)| && end == start + |Precise(value, base, flag, precision)|
    requires start + |Itoaf(value, base, flag, width, precision)| < str.Length
    modifies str
    ensures HoldsAt(str[..], start, Itoaf(value, base, flag, width, precision))
    ensures var n := start + |Itoaf(value, base, flag, width, precision)|;
            && (str[n] == if width > |Precise(value, base, flag, precision)| then '\0' else old(str[n]))
            && SameOutside(str[..], old(str[..]), start, n + 1)
  {
    hide Digits, Fill, Prefix, Sign, Magnitude, Precise, Head, Itoaf, HoldsAt, HoldsString;
    ghost var core := Precise(value, base, flag, precision);
    CoreFacts(value, base, flag, width, precision);
    if start + width > end {
      var padcnt := width - (end - start);
      if flag == LeftJust {
        SpacesBehind(str, start, end, core, padcnt);
      } else if precision < 0 && flag == ZeroPad {
        PadFront(str, start, nstart, end, Head(value, base, flag), Magnitude(value, base), padcnt, '0');
      } else {
        PadFront(str, start, start, end, [], core, padcnt, ' ');
      }
      StringLies(str[..], start, Itoaf(value, base, flag, width, precision));
    }
  }

  lemma StringLies(a: seq<char>, at: nat, s: seq<char>)
    requires HoldsString(a, at, s)
    ensures HoldsAt(a, at, s) && at + |s| < |a| && a[at + |s|] == '\0'
  {
  }

  /** A shift of the piece behind `x`, and the terminator. */
  method PadFront(str: array<char>, start: nat, at: nat, end: nat, ghost x: seq<char>, ghost y: seq<char>,
                  n: nat, pad: char)
    requires HoldsAt(str[..], start, x + y) && at == start + |x| && end == at + |y|
    requires y != [] && n > 0 && end + n < str.Length
    modifies str
    ensures HoldsString(str[..], start, x + (Fill(pad, n) + y))
            && SameOutside(str[..], old(str[..]), start, end + n + 1)
  {
    hide Fill;
    ShiftPad(str, at, end, n, pad);
    Shifted(old(str[..]), str[..], start, x, y, n, pad);
    str[end + n] := '\0';
  }

  /** The three ways to pad. */
  lemma CoreFacts(v: int, base: int, flag: Flag, width: int, precision: int)
    requires 2 <= base <= 36
    ensures var core, d := Precise(v, base, flag, precision), Magnitude(v, base);
            var r := Itoaf(v, base, flag, width, precision);
            var n := width - |core|;
            && core != [] && d != [] && [] + core == core
            && (precision < 0 ==> core == Head(v, base, flag) + d)
            && |r| == Max(width, |core|)
            && (n <= 0 ==> r == core)
            && (flag == LeftJust ==> r == core + Fill(' ', n))
            && (precision < 0 && flag == ZeroPad ==> r == Head(v, base, flag) + (Fill('0', n) + d))
            && (flag != LeftJust && !(precision < 0 && flag == ZeroPad) ==> r == [] + (Fill(' ', n) + core))
  {
    hide Magnitude, Head, Fill, Precise;
    var d, core := Magnitude(v, base), Precise(v, base, flag, precision);
    PreciseShape(v, base, flag, precision);
    NoFill('0', width - |core|, d);
    NoFill(' ', width - |core|, core);
    NoneBefore(core);
    NoneBefore(Fill(' ', width - |core|) + core);
  }

  lemma NoneBefore(s: seq<char>)
    ensures [] + s == s
  {
  }

  lemma PreciseShape(v: int, base: int, flag: Flag, precision: int)
    requires 2 <= base <= 36
    ensures Precise(v, base, flag, precision) != [] && Magnitude(v, base) != []
    ensures precision < 0 ==> Precise(v, base, flag, precision) == Head(v, base, flag) + Magnitude(v, base)
  {
    hide Magnitude, Head, Fill;
    MagnitudeSome(v, base);
    NoFill('0', precision - |Magnitude(v, base)|, Magnitude(v, base));
  }

  lemma MagnitudeSome(v: int, base: int)
    requires 2 <= base <= 36
    ensures Magnitude(v, base) != []
  {
    hide Digits;
  }

  /** Nothing to fill changes nothing. */
  lemma NoFill(c: char, n: int, s: seq<char>)
    ensures n <= 0 ==> Fill(c, n) + s == s && s + Fill(c, n) == s
    ensures [] + (Fill(c, n) + s) == Fill(c, n) + s && [] + s == s
  {
  }

  /** `__itoaf`. The string it writes ends with a terminator unless the conversion loses its end;
      then the old character stays behind it. */
  method ItoafInto(value: int, str: array<char>, start: nat, base: int, flag: Flag, width: int, precision: int)
    requires IsInt(value) && 2 <= base <= 36
    requires start + |Itoaf(value, base, flag, width, precision)| < str.Length
    modifies str
    ensures HoldsAt(str[..], start, Itoaf(value, base, flag, width, precision))
    ensures var n := start + |Itoaf(value, base, flag, width, precision)|;
            && str[n] == (if LosesEnd(value, base, flag, width, precision) then old(str[n]) else '\0')
            && SameOutside(str[..], old(str[..]), start, n + 1)
  {
    hide Digits, Fill, Prefix, Sign, Magnitude, Precise, Head, Itoaf;
    CoreFacts(value, base, flag, width, precision);
    PreciseLength(value, base, flag, precision);
    var nstart, nend := PutNumber(value, str, start, base, flag);
    var p := PadPrecision(value, str, start, nstart, nend, base, flag, precision);
    PadWidth(value, str, start, nstart, p, base, flag, width, precision);
  }

  lemma PreciseLength(v: int, base: int, flag: Flag, precision: int)
    requires 2 <= base <= 36
    ensures |Precise(v, base, flag, precision)| == |Head(v, base, flag)| + Max(precision, |Magnitude(v, base)|)
    ensures |Head(v, base, flag) + Magnitude(v, base)| == |Head(v, base, flag)| + |Magnitude(v, base)|
  {
  }
}
