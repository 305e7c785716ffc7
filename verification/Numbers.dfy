/** Numbers to strings and back: `__itoa` and `atoi` of lib/printf.c. */
module Numbers {
  import opened Collections

  /** The value a signed 32-bit word has after arithmetic that wraps around. */
  function Wrap(x: int): (w: int)
    ensures -0x8000_0000 <= w < 0x8000_0000
  {
    (x + 0x8000_0000) % 0x1_0000_0000 - 0x8000_0000
  }

  /** The same bits read as an unsigned word. */
  function Unsigned(v: int): (u: int)
    ensures 0 <= u < 0x1_0000_0000
  {
    v % 0x1_0000_0000
  }

  predicate IsInt(v: int) {
    -0x8000_0000 <= v < 0x8000_0000
  }

  predicate IsSpace(c: char) {
    '\t' <= c <= '\r' || c == ' '
  }

  predicate IsDigit(c: char) {
    '0' <= c <= '9'
  }

  function DigitChar(d: int): char
    requires 0 <= d < 36
  {
    if d < 10 then '0' + d as char else 'a' + (d - 10) as char
  }

  function DigitValue(c: char): int {
    if c <= '9' then c as int - '0' as int else c as int - 'a' as int + 10
  }

  lemma DigitLaws(d: int)
    requires 0 <= d < 36
    ensures DigitValue(DigitChar(d)) == d && DigitChar(d) != '-' && !IsSpace(DigitChar(d)) && DigitChar(d) != '\0'
    ensures (DigitChar(d) == '0' <==> d == 0) && (d < 10 <==> IsDigit(DigitChar(d)))
  {
  }

  function Quot(n: nat, base: int): nat
    requires base >= 2
  {
    n / base
  }

  function Rem(n: nat, base: int): (r: int)
    requires base >= 2
    ensures 0 <= r < base
  {
    n % base
  }

  lemma QuotLaws(n: nat, base: int)
    requires base >= 2
    ensures n == Quot(n, base) * base + Rem(n, base)
    ensures n > 0 ==> Quot(n, base) < n
    ensures Quot(n, base) == 0 <==> n < base
  {
  }

  /** The digits of a number, the first one first. */
  function Digits(n: nat, base: int): (s: seq<char>)
    requires 2 <= base <= 36
    ensures |s| >= 1
    decreases n
  {
    QuotLaws(n, base);
    if n < base then [DigitChar(n)] else Digits(Quot(n, base), base) + [DigitChar(Rem(n, base))]
  }

  /** The number a string of digits stands for. */
  function Value(s: seq<char>, base: int): int {
    if s == [] then 0 else Value(s[..|s| - 1], base) * base + DigitValue(s[|s| - 1])
  }

  lemma ValueOne(c: char, base: int)
    ensures Value([c], base) == DigitValue(c)
  {
  }

  lemma ValuePush(s: seq<char>, c: char, base: int)
    ensures Value(s + [c], base) == Value(s, base) * base + DigitValue(c)
  {
    assert (s + [c])[..|s + [c]| - 1] == s;
  }

  /** Digits evaluate to their number. */
  lemma {:induction false} ValueOfDigits(n: nat, base: int)
    requires 2 <= base <= 36
    ensures Value(Digits(n, base), base) == n
    decreases n
  {
    hide Quot, Rem, DigitChar, DigitValue, Value;
    QuotLaws(n, base);
    if n < base {
      DigitLaws(n);
      ValueOne(DigitChar(n), base);
    } else {
      DigitLaws(Rem(n, base));
      ValueOfDigits(Quot(n, base), base);
      ValuePush(Digits(Quot(n, base), base), DigitChar(Rem(n, base)), base);
    }
  }

  /** A character that can follow a sign. */
  predicate Plain(c: char, base: int) {
    c != '-' && c != '\0' && !IsSpace(c) && (base <= 10 ==> IsDigit(c))
  }

  /** Nothing but digits, and no zero in front of more. */
  lemma {:induction false} DigitsShape(n: nat, base: int)
    requires 2 <= base <= 36
    ensures Digits(n, base)[0] == '0' ==> n == 0 && |Digits(n, base)| == 1
    ensures forall i :: 0 <= i < |Digits(n, base)| ==> Plain(Digits(n, base)[i], base)
    decreases n
  {
    hide Quot, Rem, DigitChar, IsSpace, IsDigit;
    QuotLaws(n, base);
    if n < base {
      DigitLaws(n);
    } else {
      var s := Digits(Quot(n, base), base);
      DigitLaws(Rem(n, base));
      DigitsShape(Quot(n, base), base);
      assert forall i :: 0 <= i < |s| ==> (s + [DigitChar(Rem(n, base))])[i] == s[i];
    }
  }

  /** What `__itoa` writes: signed in base 10, the bits of the word in every other base. */
  function Itoa(v: int, base: int): (s: seq<char>)
    requires 2 <= base <= 36
    ensures |s| >= 1
  {
    if v < 0 && base == 10 then ['-'] + Digits(-v, 10) else Digits(Unsigned(v), base)
  }

  function SkipSpaces(s: seq<char>): seq<char> {
    if s != [] && IsSpace(s[0]) then SkipSpaces(s[1..]) else s
  }

  function LeadingDigits(s: seq<char>): seq<char> {
    if s != [] && IsDigit(s[0]) then [s[0]] + LeadingDigits(s[1..]) else []
  }

  function DropDigits(s: seq<char>): (r: seq<char>)
    ensures |r| <= |s|
  {
    if s != [] && IsDigit(s[0]) then DropDigits(s[1..]) else s
  }

  /** What `atoi` returns for a string: spaces, a sign, and then digits modulo 2^32. */
  function Atoi(s: seq<char>): int {
    var t := SkipSpaces(s);
    var negative := t != [] && t[0] == '-';
    var u := if t != [] && (t[0] == '-' || t[0] == '+') then t[1..] else t;
    var v := Wrap(Value(LeadingDigits(u), 10));
    if negative && v != -0x8000_0000 then -v else v
  }

  lemma WrapShift(x: int, k: int)
    ensures Wrap(x + k * 0x1_0000_0000) == Wrap(x)
  {
    ModShift(x + 0x8000_0000, k);
  }

  lemma ModShift(x: int, k: int)
    ensures (x + k * 0x1_0000_0000) % 0x1_0000_0000 == x % 0x1_0000_0000
  {
  }

  /** Wrapping every step or only at the end comes to the same. */
  lemma WrapStep(x: int, d: int)
    ensures Wrap(Wrap(Wrap(x) * 10) + d) == Wrap(x * 10 + d)
  {
    hide Wrap;
    var k := WrapBy(x);
    var y := Wrap(x) * 10;
    var j := WrapBy(y);
    WrapShift(x * 10 + d, 10 * k + j);
  }

  lemma WrapBy(x: int) returns (k: int)
    ensures Wrap(x) == x + k * 0x1_0000_0000
  {
    k := -((x + 0x8000_0000) / 0x1_0000_0000);
  }

  lemma WrapSmall(x: int)
    requires IsInt(x)
    ensures Wrap(x) == x
  {
  }

  lemma {:induction false} AllDigits(s: seq<char>)
    requires forall i :: 0 <= i < |s| ==> IsDigit(s[i])
    ensures LeadingDigits(s) == s
  {
    if s != [] {
      AllDigits(s[1..]);
    }
  }

  /** Every 32-bit number survives being written in decimal and read back, INT_MIN too. */
  lemma NumberRoundTrip(v: int)
    requires IsInt(v)
    ensures Atoi(Itoa(v, 10)) == v
  {
    hide Digits, Value, Wrap, LeadingDigits;
    var n := if v < 0 then -v else v;
    var s, d := Itoa(v, 10), Digits(n, 10);
    assert v >= 0 ==> Unsigned(v) == v;
    DigitsShape(n, 10);
    ValueOfDigits(n, 10);
    AllDigits(d);
    assert Plain(d[0], 10);
    assert SkipSpaces(s) == s;
    if v < 0 {
      assert s[1..] == d;
    }
    if n < 0x8000_0000 {
      WrapSmall(n);
    } else {
      WrapShift(v, 1);
      WrapSmall(v);
    }
  }

  /** In bases 8 and 16 the digits stand for the bits of the word and none is wasted. */
  lemma BitsRoundTrip(v: int, base: int)
    requires IsInt(v) && (base == 8 || base == 16)
    ensures Value(Itoa(v, base), base) == if v < 0 then v + 0x1_0000_0000 else v
    ensures Itoa(v, base)[0] == '0' ==> v == 0 && Itoa(v, base) == "0"
  {
    hide Digits, Value;
    ValueOfDigits(Unsigned(v), base);
    DigitsShape(Unsigned(v), base);
    assert Unsigned(v) == if v < 0 then v + 0x1_0000_0000 else v by { UnsignedOf(v); }
  }

  lemma UnsignedOf(v: int)
    requires IsInt(v)
    ensures Unsigned(v) == if v < 0 then v + 0x1_0000_0000 else v
  {
    if v < 0 {
      ModShift(v, 1);
    }
  }

  /** The character at `p`, where the terminator stands behind the last one. */
  function At(s: seq<char>, p: nat): char {
    if p < |s| then s[p] else '\0'
  }

  /** The digit loop of `atoi`. */
  method ParseDigits(str: seq<char>, start: nat) returns (value: int)
    requires start <= |str|
    ensures value == Wrap(Value(LeadingDigits(str[start..]), 10))
  {
    hide Wrap, Value, IsDigit, DigitValue;
    ghost var done: seq<char> := [];
    var p := start;
    value := 0;
    ValueNone();
    while IsDigit(At(str, p))
      invariant start <= p <= |str|
      invariant LeadingDigits(str[start..]) == done + LeadingDigits(str[p..])
      invariant value == Wrap(Value(done, 10))
      decreases |str| - p
    {
      DigitIsChar(At(str, p));
      assert str[p..][1..] == str[p + 1..];
      assert done + ([str[p]] + LeadingDigits(str[p + 1..])) == done + [str[p]] + LeadingDigits(str[p + 1..]);
      ValuePush(done, str[p], 10);
      WrapStep(Value(done, 10), DigitValue(str[p]));
      value := Wrap(value * 10);
      value := Wrap(value + (str[p] as int - '0' as int));
      done := done + [str[p]];
      p := p + 1;
    }
    DigitIsChar(At(str, p));
    assert done + [] == done;
  }

  lemma DigitIsChar(c: char)
    ensures IsDigit(c) ==> c != '\0' && DigitValue(c) == c as int - '0' as int
    ensures !IsDigit('\0')
  {
  }

  /** `atoi`. */
  method ParseInt(str: seq<char>) returns (r: int)
    ensures r == Atoi(str) && IsInt(r)
  {
    hide Wrap, Value, LeadingDigits, IsDigit;
    var p, negative := 0, false;
    while IsSpace(At(str, p))
      invariant p <= |str| && SkipSpaces(str[p..]) == SkipSpaces(str)
      decreases |str| - p
    {
      assert str[p..][1..] == str[p + 1..];
      p := p + 1;
    }
    assert str[p..] == SkipSpaces(str);
    if At(str, p) == '+' || At(str, p) == '-' {
      negative := At(str, p) == '-';
      assert str[p..][1..] == str[p + 1..];
      p := p + 1;
    }
    if !IsDigit(At(str, p)) {
      NoDigits(str, p);
      return 0;
    }
    var value := ParseDigits(str, p);
    r := if negative && value != -0x8000_0000 then -value else value;
  }

  lemma NoDigits(str: seq<char>, p: nat)
    requires p <= |str| && !IsDigit(At(str, p))
    ensures Wrap(Value(LeadingDigits(str[p..]), 10)) == 0
  {
    ValueNone();
    assert LeadingDigits(str[p..]) == [];
  }

  lemma ValueNone()
    ensures Value([], 10) == 0 && Wrap(0) == 0
  {
  }

  /** The loop of `__itoa` that turns the digits in [lo, hi) around. */
  method ReverseRange(str: array<char>, lo: nat, hi: nat)
    requires lo <= hi <= str.Length
    modifies str
    ensures str[lo..hi] == Reversed(old(str[lo..hi]))
    ensures forall i :: 0 <= i < str.Length && !(lo <= i < hi) ==> str[i] == old(str[i])
  {
    hide Reversed;
    ghost var was := str[..];
    var tmp, p := lo, hi - 1;
    while p > tmp
      invariant lo <= tmp <= p + 2 && p == hi - 1 - (tmp - lo)
      invariant forall i {:trigger str[i]} :: lo <= i < tmp || p < i < hi ==> str[i] == was[lo + hi - 1 - i]
      invariant forall i {:trigger str[i]} :: 0 <= i < str.Length && (i < lo || i >= hi || tmp <= i <= p) ==>
                str[i] == was[i]
    {
      var c := str[p];
      str[p] := str[tmp];
      p := p - 1;
      str[tmp] := c;
      tmp := tmp + 1;
    }
    ghost var s := was[lo..hi];
    forall k | 0 <= k < |s|
      ensures str[lo..hi][k] == Reversed(s)[k]
    {
      ReversedAt(s, k);
      assert s[|s| - 1 - k] == was[lo + (|s| - 1 - k)] && str[lo..hi][k] == str[lo + k];
    }
  }

  /** The last digit, and those before it. */
  lemma DigitsOne(n: nat, base: int)
    requires 2 <= base <= 36
    ensures Digits(n, base) == (if Quot(n, base) > 0 then Digits(Quot(n, base), base) else [])
            + [DigitChar(Rem(n, base))]
    ensures n == 0 ==> Digits(n, base) == ['0']
  {
    QuotLaws(n, base);
    if Quot(n, base) == 0 {
      SmallRem(n, base);
    }
    if n == 0 {
      DigitLaws(0);
    }
  }

  lemma SmallRem(n: nat, base: int)
    requires base >= 2 && Quot(n, base) == 0
    ensures Rem(n, base) == n
  {
  }

  lemma SplitLast<T>(a: seq<T>, x: T, b: seq<T>)
    ensures (a + [x]) + b == a + ([x] + b)
  {
  }

  /** The loop of `__itoa` that writes the digits, the last one first. */
  method WriteDigits(u: nat, str: array<char>, start: nat, base: int) returns (end: nat)
    requires 2 <= base <= 36 && start + |Digits(u, base)| < str.Length
    modifies str
    ensures end == start + |Digits(u, base)| && Reversed(str[start..end]) == Digits(u, base)
    ensures forall i :: 0 <= i < str.Length && !(start <= i < end) ==> str[i] == old(str[i])
  {
    hide Digits, Quot, Rem, DigitChar, Reversed;
    DigitsOne(u, base);
    ghost var all := Digits(u, base);
    if u == 0 {
      str[start] := '0';
      end := start + 1;
      assert str[start..end] == ['0'];
      ReversedOne('0');
    } else {
      var uvalue := u;
      end := start;
      ReversedNone<char>();
      while uvalue > 0
        invariant start <= end <= start + |all|
        invariant all == (if uvalue > 0 then Digits(uvalue, base) else []) + Reversed(str[start..end])
        invariant forall i :: 0 <= i < str.Length && !(start <= i < end) ==> str[i] == old(str[i])
        decreases uvalue
      {
        QuotLaws(uvalue, base);
        DigitsOne(uvalue, base);
        ghost var written := str[start..end];
        var d := Rem(uvalue, base);
        str[end] := DigitChar(d);
        end := end + 1;
        assert str[start..end] == written + [DigitChar(d)];
        ReversedPush(written, DigitChar(d));
        SplitLast(if Quot(uvalue, base) > 0 then Digits(Quot(uvalue, base), base) else [],
                  DigitChar(d), Reversed(written));
        uvalue := Quot(uvalue, base);
      }
    }
  }

  /** `s` and a terminator lie at `at`. */
  ghost predicate HoldsString(a: seq<char>, at: int, s: seq<char>) {
    0 <= at && at + |s| < |a| && a[at + |s|] == '\0' && forall i :: 0 <= i < |s| ==> s[i] == a[at + i]
  }

  /** `strcpy`. */
  method Strcpy(str: array<char>, at: nat, s: seq<char>)
    requires at + |s| < str.Length
    modifies str
    ensures HoldsString(str[..], at, s)
    ensures forall i :: 0 <= i < str.Length && !(at <= i <= at + |s|) ==> str[i] == old(str[i])
  {
    for k := 0 to |s|
      invariant str[at..at + k] == s[..k]
      invariant forall i :: 0 <= i < str.Length && !(at <= i < at + k) ==> str[i] == old(str[i])
    {
      str[at + k] := s[k];
    }
    str[at + |s|] := '\0';
  }

  lemma IntMinDigits()
    ensures Itoa(-0x8000_0000, 10) == "-2147483648"
  {
    assert Digits(2, 10) == "2";
    assert Digits(21, 10) == "21";
    assert Digits(214, 10) == "214";
    assert Digits(2147, 10) == "2147";
    assert Digits(21474, 10) == "21474";
    assert Digits(214748, 10) == "214748";
    assert Digits(2147483, 10) == "2147483";
    assert Digits(21474836, 10) == "21474836";
    assert Digits(214748364, 10) == "214748364";
    assert Digits(2147483648, 10) == "2147483648";
  }

  /** `__itoa` from the conversion on; `first` is behind the sign. */
  method PutDigits(u: nat, str: array<char>, start: nat, first: nat, base: int)
    requires 2 <= base <= 36 && first + |Digits(u, base)| < str.Length
    requires start == first || (start == first - 1 && str[start] == '-')
    modifies str
    ensures HoldsString(str[..], first, Digits(u, base))
    ensures forall i :: 0 <= i < str.Length && !(first <= i <= first + |Digits(u, base)|) ==> str[i] == old(str[i])
  {
    hide Digits, Reversed, DigitChar;
    var p := WriteDigits(u, str, first, base);
    str[p] := '\0';
    var tmp := start;
    FirstIsPlain(u, base, str[first..p]);
    assert str[first] == str[first..p][0];
    if str[tmp] == '-' {
      tmp := tmp + 1;
    }
    ReverseRange(str, tmp, p);
  }

  /** The case of `__itoa` that negation would break. */
  method PutIntMin(str: array<char>, start: nat)
    requires start + |Itoa(-0x8000_0000, 10)| < str.Length
    modifies str
    ensures HoldsString(str[..], start, Itoa(-0x8000_0000, 10))
    ensures forall i :: 0 <= i < str.Length && !(start <= i <= start + |Itoa(-0x8000_0000, 10)|) ==>
            str[i] == old(str[i])
  {
    hide Digits;
    IntMinDigits();
    Strcpy(str, start, "-2147483648");
  }

  /** `__itoa`. */
  method ItoaInto(value: int, str: array<char>, start: nat, base: int)
    requires IsInt(value) && 2 <= base <= 36 && start + |Itoa(value, base)| < str.Length
    modifies str
    ensures HoldsString(str[..], start, Itoa(value, base))
    ensures forall i :: 0 <= i < str.Length && !(start <= i <= start + |Itoa(value, base)|) ==> str[i] == old(str[i])
  {
    hide Digits, HoldsString, Itoa, Unsigned;
    if value < 0 && base == 10 {
      if value == -0x8000_0000 {
        PutIntMin(str, start);
        return;
      }
      SignedItoa(value);
      str[start] := '-';
      PutDigits(-value, str, start, start + 1, base);
      SignBefore(str[..], start, Digits(-value, 10));
    } else {
      PlainItoa(value, base);
      PutDigits(Unsigned(value), str, start, start, base);
    }
  }

  lemma SignedItoa(v: int)
    requires v < 0
    ensures Itoa(v, 10) == ['-'] + Digits(-v, 10) && |Itoa(v, 10)| == 1 + |Digits(-v, 10)|
  {
  }

  lemma PlainItoa(v: int, base: int)
    requires 2 <= base <= 36 && (v >= 0 || base != 10)
    ensures Itoa(v, base) == Digits(Unsigned(v), base)
  {
  }

  lemma SignBefore(a: seq<char>, at: nat, s: seq<char>)
    requires HoldsString(a, at + 1, s) && a[at] == '-'
    ensures HoldsString(a, at, ['-'] + s)
  {
  }

  lemma FirstIsPlain(u: nat, base: int, low: seq<char>)
    requires 2 <= base <= 36 && Reversed(low) == Digits(u, base)
    ensures low[0] != '-'
  {
    hide Digits, Reversed;
    DigitsShape(u, base);
    ReversedAt(low, |low| - 1);
    assert Plain(Digits(u, base)[|low| - 1], base);
  }
}
