/** The format machine `vsprintf` of lib/printf.c. */
module Printf {
  import opened Collections
  import opened Numbers
  import opened Format

  datatype Class = Flags | Count | Point | Length | Specifier | Other

  /** `format_table`. */
  function ClassOf(c: char): Class {
    if c in " #+-0" then Flags
    else if '1' <= c <= '9' || c == '*' then Count
    else if c == '.' then Point
    else if c in "Lhjltz" then Length
    else if c in "%AEFGXacdefginopsux" then Specifier
    else Other
  }

  function FlagOf(c: char): Flag {
    match c
    case '-' => LeftJust
    case '+' => SignPlus
    case ' ' => SignSpace
    case '#' => Mark
    case '0' => ZeroPad
    case _ => NoFlag
  }

  datatype Arg = Int(v: int) | Str(s: seq<char>)

  predicate ArgOk(a: Arg) {
    match a
    case Int(v) => IsInt(v)
    case Str(s) => forall i :: 0 <= i < |s| ==> s[i] != '\0'
  }

  predicate ArgsOk(args: seq<Arg>) {
    forall i :: 0 <= i < |args| ==> ArgOk(args[i])
  }

  /** The conversion being read: `escape` is 0 outside one and grows as its parts go by. */
  datatype Conv = Conv(escape: nat, flag: Flag, width: int, precision: int, toPrecision: bool)

  const NONE: Conv := Conv(0, NoFlag, 0, -1, false)

  /** `Undefined` is for what C leaves open: arguments that are missing or of the wrong kind, a
      conversion that loses its end, and the write through an `n`. */
  datatype Status = Going | Bad | Panicked | Undefined

  datatype State = State(conv: Conv, out: seq<char>, args: seq<Arg>, status: Status)

  function Start(args: seq<Arg>): State {
    State(NONE, [], args, Going)
  }

  function UpperChar(c: char): char {
    if 'a' <= c <= 'z' then (c as int - 32) as char else c
  }

  function Upper(s: seq<char>): (r: seq<char>)
    ensures |r| == |s| && forall i :: 0 <= i < |s| ==> r[i] == UpperChar(s[i])
  {
    if s == [] then [] else [UpperChar(s[0])] + Upper(s[1..])
  }

  function CharOf(v: int): char {
    (v % 256) as char
  }

  /** What a conversion of an integer adds. */
  function Number(c: char, v: int, cv: Conv): (s: seq<char>) {
    match c
    case 'c' => [CharOf(v)]
    case 'o' => Itoaf(v, 8, cv.flag, cv.width, cv.precision)
    case 'x' => Itoaf(v, 16, cv.flag, cv.width, cv.precision)
    case 'p' => ['b'] + Itoaf(v, 16, cv.flag, cv.width, cv.precision)
    case 'X' => Upper(Itoaf(v, 16, cv.flag, cv.width, cv.precision))
    case _ => Itoaf(v, 10, cv.flag, cv.width, cv.precision)
  }

  function BaseOf(c: char): int {
    if c == 'o' then 8 else if c in "xXp" then 16 else 10
  }

  /** `__print_arg`. */
  function Print(c: char, st: State): State {
    if c == '%' then st.(out := st.out + [c])
    else if c in "cdioxXp" then
      if st.args == [] || st.args[0].Str? then st.(status := Undefined)
      else if c != 'c' && LosesEnd(st.args[0].v, BaseOf(c), st.conv.flag, st.conv.width, st.conv.precision) then
        st.(status := Undefined)
      else st.(out := st.out + Number(c, st.args[0].v, st.conv), args := st.args[1..])
    else if c == 's' then
      if st.args == [] || st.args[0].Int? then st.(status := Undefined)
      else st.(out := st.out + st.args[0].s, args := st.args[1..])
    else if c == 'n' then st.(status := Undefined)
    else st.(status := Panicked)
  }

  /** The state after one turn of the loop, and what is left of the format. */
  datatype Turn = Turn(st: State, rest: seq<char>)

  function SetNumber(cv: Conv, v: int): Conv {
    if cv.toPrecision then cv.(precision := v) else cv.(width := v)
  }

  function Digit(c: char, rest: seq<char>, st: State): Turn {
    var e := Max(st.conv.escape, 2);
    if e != 2 && e != 3 then Turn(st.(status := Bad), rest)
    else if c == '*' then
      if st.args == [] || st.args[0].Str? then Turn(st.(status := Undefined), rest)
      else Turn(st.(conv := SetNumber(st.conv, st.args[0].v).(escape := e + 1), args := st.args[1..]), rest)
    else Turn(st.(conv := SetNumber(st.conv, Atoi([c] + rest)).(escape := e + 1)), DropDigits(rest))
  }

  function DropLengths(s: seq<char>): (r: seq<char>)
    ensures |r| <= |s|
  {
    if s != [] && ClassOf(s[0]) == Length then DropLengths(s[1..]) else s
  }

  function Escaped(c: char, rest: seq<char>, st: State): Turn {
    var e := st.conv.escape;
    match ClassOf(c)
    case Flags =>
      if e == 1 then Turn(st.(conv := st.conv.(escape := 2, flag := FlagOf(c))), rest)
      else if (e == 2 || e == 3) && c == '0' then Digit(c, rest, st)
      else Turn(st.(status := Bad), rest)
    case Count => Digit(c, rest, st)
    case Point =>
      if e <= 3 then Turn(st.(conv := st.conv.(escape := 3, toPrecision := true)), rest)
      else Turn(st.(status := Bad), rest)
    case Length =>
      if e <= 4 then Turn(st.(conv := st.conv.(escape := 5)), DropLengths(rest))
      else Turn(st.(status := Bad), rest)
    case Specifier =>
      if e <= 5 then Turn(Print(c, st).(conv := NONE), rest) else Turn(st.(status := Bad), rest)
    case Other => Turn(st.(status := Bad), rest)
  }

  function Step(c: char, rest: seq<char>, st: State): (t: Turn)
    ensures |t.rest| <= |rest|
  {
    if st.conv.escape != 0 then Escaped(c, rest, st)
    else if c == '%' then Turn(st.(conv := st.conv.(escape := 1)), rest)
    else Turn(st.(out := st.out + [c]), rest)
  }

  /** The loop of `vsprintf`. */
  function Run(fmt: seq<char>, st: State): State
    decreases |fmt|
  {
    if fmt == [] || st.status != Going then st
    else
      var t := Step(fmt[0], fmt[1..], st);
      Run(t.rest, t.st)
  }

  function Vsprintf(fmt: seq<char>, args: seq<Arg>): State {
    Run(fmt, Start(args))
  }

  // ---- Composition ----

  lemma {:induction false} DropDigitsApp(a: seq<char>, b: seq<char>)
    requires DropDigits(a) != []
    ensures DropDigits(a + b) == DropDigits(a) + b && LeadingDigits(a + b) == LeadingDigits(a)
  {
    if a != [] {
      assert (a + b)[1..] == a[1..] + b;
      if IsDigit(a[0]) {
        DropDigitsApp(a[1..], b);
      }
    }
  }

  lemma {:induction false} DropLengthsApp(a: seq<char>, b: seq<char>)
    requires DropLengths(a) != []
    ensures DropLengths(a + b) == DropLengths(a) + b
  {
    hide ClassOf;
    if a != [] {
      assert (a + b)[1..] == a[1..] + b;
      if ClassOf(a[0]) == Length {
        DropLengthsApp(a[1..], b);
      }
    }
  }

  lemma AtoiApp(c: char, a: seq<char>, b: seq<char>)
    requires IsDigit(c) && DropDigits(a) != []
    ensures Atoi([c] + (a + b)) == Atoi([c] + a)
  {
    hide Value, Wrap, DropDigits;
    DropDigitsApp(a, b);
    assert ([c] + (a + b))[1..] == a + b && ([c] + a)[1..] == a;
    assert SkipSpaces([c] + a) == [c] + a && SkipSpaces([c] + (a + b)) == [c] + (a + b);
  }

  /** One turn does not look past the end of the conversion it is in. */
  lemma StepApp(c: char, a: seq<char>, b: seq<char>, st: State)
    requires var t := Step(c, a, st); t.rest != [] || t.st.conv.escape == 0
    ensures Step(c, a + b, st) == Turn(Step(c, a, st).st, Step(c, a, st).rest + b)
  {
    hide Print, Atoi, DropDigits, DropLengths;
    if st.conv.escape != 0 && (ClassOf(c) == Count || (c == '0' && 2 <= st.conv.escape <= 3)) {
      DigitApp(c, a, b, st);
    }
    if st.conv.escape != 0 && ClassOf(c) == Length && DropLengths(a) != [] {
      DropLengthsApp(a, b);
    }
  }

  lemma DigitApp(c: char, a: seq<char>, b: seq<char>, st: State)
    requires st.conv.escape > 0 && (c == '*' || IsDigit(c))
    requires var t := Digit(c, a, st); t.rest != [] || t.st.conv.escape == 0
    ensures Digit(c, a + b, st) == Turn(Digit(c, a, st).st, Digit(c, a, st).rest + b)
  {
    hide Atoi, DropDigits;
    if c != '*' && DropDigits(a) != [] {
      DropDigitsApp(a, b);
      AtoiApp(c, a, b);
    }
  }

  /** The first format is read to its end before the second one begins. */
  lemma {:induction false} RunApp(a: seq<char>, b: seq<char>, st: State)
    requires Run(a, st).status == Going && Run(a, st).conv.escape == 0
    ensures Run(a + b, st) == Run(b, Run(a, st))
    decreases |a|
  {
    hide Step;
    if a == [] {
      assert a + b == b;
    } else {
      var t := Step(a[0], a[1..], st);
      assert (a + b)[1..] == a[1..] + b;
      StepApp(a[0], a[1..], b, st);
      RunApp(t.rest, b, t.st);
    }
  }

  /** A state with more written before it and more arguments behind it. */
  function Framed(o: seq<char>, st: State, more: seq<Arg>): State {
    st.(out := o + st.out, args := st.args + more)
  }

  lemma PrintFrame(o: seq<char>, c: char, st: State, more: seq<Arg>)
    requires more == [] || Print(c, st).status != Undefined
    ensures Print(c, Framed(o, st, more)) == Framed(o, Print(c, st), more)
  {
    hide Number, LosesEnd, BaseOf;
    assert o + st.out + [c] == o + (st.out + [c]);
    if st.args != [] {
      var arg := st.args[0];
      assert (st.args + more)[1..] == st.args[1..] + more && (st.args + more)[0] == arg;
      if arg.Str? {
        assert o + st.out + arg.s == o + (st.out + arg.s);
      } else {
        assert o + st.out + Number(c, arg.v, st.conv) == o + (st.out + Number(c, arg.v, st.conv));
      }
    }
  }

  lemma StepFrame(o: seq<char>, c: char, rest: seq<char>, st: State, more: seq<Arg>)
    requires more == [] || Step(c, rest, st).st.status != Undefined
    ensures Step(c, rest, Framed(o, st, more)) == Turn(Framed(o, Step(c, rest, st).st, more), Step(c, rest, st).rest)
  {
    hide Print, Atoi, DropDigits, DropLengths;
    if 1 <= st.conv.escape <= 5 && ClassOf(c) == Specifier {
      PrintFrame(o, c, st, more);
    }
    assert o + st.out + [c] == o + (st.out + [c]);
    if st.args != [] {
      assert (st.args + more)[1..] == st.args[1..] + more && (st.args + more)[0] == st.args[0];
    }
  }

  /** What was written before does not matter, nor do arguments that are not reached. */
  lemma {:induction false} RunFrame(o: seq<char>, fmt: seq<char>, st: State, more: seq<Arg>)
    requires more == [] || Run(fmt, st).status != Undefined
    ensures Run(fmt, Framed(o, st, more)) == Framed(o, Run(fmt, st), more)
    decreases |fmt|
  {
    hide Step;
    if fmt != [] && st.status == Going {
      var t := Step(fmt[0], fmt[1..], st);
      assert t.st.status == Undefined ==> Run(t.rest, t.st) == t.st;
      StepFrame(o, fmt[0], fmt[1..], st, more);
      RunFrame(o, t.rest, t.st, more);
    }
  }

  /** Outside a conversion nothing of an earlier one is left. */
  lemma {:induction false} RunClean(fmt: seq<char>, st: State)
    requires st.conv.escape == 0 ==> st.conv == NONE
    ensures Run(fmt, st).conv.escape == 0 ==> Run(fmt, st).conv == NONE
    decreases |fmt|
  {
    hide Print, Atoi, DropDigits, DropLengths;
    if fmt != [] && st.status == Going {
      var t := Step(fmt[0], fmt[1..], st);
      RunClean(t.rest, t.st);
    }
  }

  /** Formats compose: when the first one ends outside a conversion and uses up its arguments, both
      together write what they write one after the other, and end as the second one ends. */
  lemma Compose(f1: seq<char>, a1: seq<Arg>, f2: seq<char>, a2: seq<Arg>)
    requires var r := Vsprintf(f1, a1); r.status == Going && r.conv.escape == 0 && r.args == []
    ensures var r1, r2 := Vsprintf(f1, a1), Vsprintf(f2, a2);
            Vsprintf(f1 + f2, a1 + a2) == r2.(out := r1.out + r2.out)
  {
    hide Run;
    var r1 := Vsprintf(f1, a1);
    RunClean(f1, Start(a1));
    RunFrame([], f1, Start(a1), a2);
    assert Framed([], Start(a1), a2) == Start(a1 + a2);
    assert Framed([], r1, a2) == Framed(r1.out, Start(a2), []);
    RunApp(f1, f2, Start(a1 + a2));
    RunFrame(r1.out, f2, Start(a2), []);
    var r2 := Vsprintf(f2, a2);
    assert r2.args + [] == r2.args;
  }

  // ---- The buffer ----

  predicate NoEnd(s: seq<char>) {
    forall i :: 0 <= i < |s| ==> s[i] != '\0'
  }

  lemma NoEndApp(a: seq<char>, b: seq<char>)
    requires NoEnd(a) && NoEnd(b)
    ensures NoEnd(a + b)
  {
  }

  /** A conversion has no terminator inside. */
  lemma ItoafPlain(v: int, base: int, flag: Flag, width: int, precision: int)
    requires IsInt(v) && 2 <= base <= 36
    ensures NoEnd(Itoaf(v, base, flag, width, precision))
  {
    hide Magnitude, Head, Fill;
    var h, d, core := Head(v, base, flag), Magnitude(v, base), Precise(v, base, flag, precision);
    var z, n := Fill('0', precision - |d|), width - |core|;
    MagnitudePlain(v, base);
    HeadPlain(v, base, flag);
    NoEndApp(z, d);
    NoEndApp(h, z + d);
    NoEndApp(Fill('0', n), d);
    NoEndApp(h, Fill('0', n) + d);
    NoEndApp(Fill(' ', n), core);
    NoEndApp(core, Fill(' ', n));
    hide NoEnd;
  }

  lemma HeadPlain(v: int, base: int, flag: Flag)
    ensures NoEnd(Head(v, base, flag))
  {
  }

  lemma MagnitudePlain(v: int, base: int)
    requires IsInt(v) && 2 <= base <= 36
    ensures NoEnd(Magnitude(v, base))
  {
    hide Digits;
    var n := if v < 0 && base == 10 then -v else Unsigned(v);
    DigitsShape(n, base);
    assert forall i :: 0 <= i < |Digits(n, base)| ==> Plain(Digits(n, base)[i], base);
  }

  /** A conversion written at the end of the output, and its length found by `strlen`. */
  method Convert(str: array<char>, out: nat, v: int, base: int, cv: Conv) returns (end: nat)
    requires IsInt(v) && 2 <= base <= 36 && !LosesEnd(v, base, cv.flag, cv.width, cv.precision)
    requires out + |Itoaf(v, base, cv.flag, cv.width, cv.precision)| < str.Length
    modifies str
    ensures end == out + |Itoaf(v, base, cv.flag, cv.width, cv.precision)|
    ensures HoldsString(str[..], out, Itoaf(v, base, cv.flag, cv.width, cv.precision))
    ensures str[..end] == old(str[..out]) + Itoaf(v, base, cv.flag, cv.width, cv.precision)
  {
    hide Itoaf, LosesEnd;
    ItoafInto(v, str, out, base, cv.flag, cv.width, cv.precision);
    ItoafPlain(v, base, cv.flag, cv.width, cv.precision);
    var n := Strlen(str, out, Itoaf(v, base, cv.flag, cv.width, cv.precision));
    end := out + n;
  }

  /** The loop of `X`: upper case up to the terminator. */
  method Upcase(str: array<char>, at: nat, ghost s: seq<char>) returns (end: nat)
    requires HoldsString(str[..], at, s) && forall i :: 0 <= i < |s| ==> s[i] != '\0'
    modifies str
    ensures end == at + |s| && str[..end] == old(str[..at]) + Upper(s)
  {
    hide Upper;
    end := at;
    while str[end] != '\0'
      invariant at <= end <= at + |s| && str[at + |s|] == '\0'
      invariant forall i :: 0 <= i < at ==> str[i] == old(str[i])
      invariant forall i {:trigger s[i]} :: 0 <= i < |s| ==>
                  str[at + i] == if at + i < end then UpperChar(s[i]) else s[i]
      invariant end < at + |s| ==> str[end] == s[end - at]
      decreases at + |s| - end
    {
      if 'a' <= str[end] <= 'z' {
        str[end] := UpperChar(str[end]);
      }
      end := end + 1;
    }
  }

  /** The state of the machine whose output so far lies in the buffer. */
  ghost function Now(str: array<char>, out: nat, cv: Conv, args: seq<Arg>, bad: bool): State
    requires out <= str.Length
    reads str
  {
    State(cv, str[..out], args, if bad then Bad else Going)
  }

  /** `__print_arg`, with the specifier lying at the end of the output. */
  method PrintInto(str: array<char>, out: nat, c: char, cv: Conv, args: seq<Arg>) returns (end: nat, left: seq<Arg>)
    requires ArgsOk(args) && out < str.Length && str[out] == c
    requires var r := Print(c, Now(str, out, cv, args, false)); r.status == Going && |r.out| < str.Length
    modifies str
    ensures end < str.Length && ArgsOk(left)
    ensures State(cv, str[..end], left, Going) == Print(c, old(Now(str, out, cv, args, false)))
  {
    hide Itoaf, LosesEnd;
    left := if c == '%' then args else args[1..];
    if c == '%' {
      end := out + 1;
    } else if c == 's' {
      end := Strcat(str, out, args[0].s);
    } else {
      end := ConvertArg(str, out, c, args[0].v, cv);
    }
  }

  /** `strcpy` to the end of the output and `strlen`. */
  method Strcat(str: array<char>, out: nat, s: seq<char>) returns (end: nat)
    requires out + |s| < str.Length && ArgOk(Str(s))
    modifies str
    ensures end == out + |s| && str[..end] == old(str[..out]) + s
  {
    Strcpy(str, out, s);
    var n := Strlen(str, out, s);
    end := out + n;
  }

  /** The integer cases of `__print_arg`. */
  method ConvertArg(str: array<char>, out: nat, c: char, v: int, cv: Conv) returns (end: nat)
    requires IsInt(v) && c in "cdioxXp"
    requires c != 'c' ==> !LosesEnd(v, BaseOf(c), cv.flag, cv.width, cv.precision)
    requires out + |Number(c, v, cv)| < str.Length
    modifies str
    ensures end == out + |Number(c, v, cv)| && str[..end] == old(str[..out]) + Number(c, v, cv)
  {
    hide Itoaf, LosesEnd, Upper;
    match c {
      case 'c' =>
        str[out] := CharOf(v);
        end := out + 1;
      case 'x' =>
        end := Convert(str, out, v, 16, cv);
      case 'p' =>
        str[out] := 'b';
        end := Convert(str, out + 1, v, 16, cv);
      case 'X' =>
        ghost var s := Itoaf(v, 16, cv.flag, cv.width, cv.precision);
        ItoafPlain(v, 16, cv.flag, cv.width, cv.precision);
        end := Convert(str, out, v, 16, cv);
        end := Upcase(str, out, s);
      case 'o' =>
        end := Convert(str, out, v, 8, cv);
      case _ =>
        end := Convert(str, out, v, 10, cv);
    }
  }

  method SkipDigits(fmt: seq<char>, start: nat) returns (p: nat)
    requires start <= |fmt|
    ensures start <= p <= |fmt| && fmt[p..] == DropDigits(fmt[start..])
  {
    p := start;
    while p < |fmt| && IsDigit(fmt[p])
      invariant start <= p <= |fmt| && DropDigits(fmt[p..]) == DropDigits(fmt[start..])
    {
      assert fmt[p..][1..] == fmt[p + 1..];
      p := p + 1;
    }
  }

  method SkipLengths(fmt: seq<char>, start: nat) returns (p: nat)
    requires start <= |fmt|
    ensures start <= p <= |fmt| && fmt[p..] == DropLengths(fmt[start..])
  {
    hide ClassOf;
    p := start;
    while p < |fmt| && ClassOf(fmt[p]) == Length
      invariant start <= p <= |fmt| && DropLengths(fmt[p..]) == DropLengths(fmt[start..])
    {
      assert fmt[p..][1..] == fmt[p + 1..];
      p := p + 1;
    }
  }

  /** The number part of a conversion: a width, or a precision behind the point. */
  method ReadNumber(fmt: seq<char>, p: nat, cv: Conv, args: seq<Arg>, ghost st: State)
    returns (next: nat, cv': Conv, left: seq<Arg>, bad: bool)
    requires 0 < p <= |fmt| && ArgsOk(args) && st.conv == cv && st.args == args && st.status == Going
    requires fmt[p - 1] == '*' || IsDigit(fmt[p - 1])
    requires Digit(fmt[p - 1], fmt[p..], st).st.status in {Going, Bad}
    ensures p <= next <= |fmt| && ArgsOk(left)
    ensures Digit(fmt[p - 1], fmt[p..], st) == Turn(State(cv', st.out, left, if bad then Bad else Going), fmt[next..])
  {
    hide Atoi, DropDigits, IsDigit;
    next, cv', left, bad := p, cv, args, false;
    var e := Max(cv.escape, 2);
    if e == 2 || e == 3 {
      var v;
      if fmt[p - 1] == '*' {
        v := args[0].v;
        left := args[1..];
      } else {
        assert [fmt[p - 1]] + fmt[p..] == fmt[p - 1..];
        v := ParseInt(fmt[p - 1..]);
        next := SkipDigits(fmt, p);
      }
      cv' := if cv.toPrecision then cv.(escape := e + 1, precision := v) else cv.(escape := e + 1, width := v);
    } else {
      bad := true;
    }
  }

  /** One turn of the loop inside a conversion. */
  method EscapedInto(str: array<char>, out: nat, fmt: seq<char>, p: nat, cv: Conv, args: seq<Arg>)
    returns (end: nat, next: nat, cv': Conv, left: seq<Arg>, bad: bool)
    requires 0 < p <= |fmt| && ArgsOk(args) && out < str.Length && str[out] == fmt[p - 1] && cv.escape != 0
    requires var t := Escaped(fmt[p - 1], fmt[p..], Now(str, out, cv, args, false));
             t.st.status in {Going, Bad} && |t.st.out| < str.Length
    modifies str
    ensures p <= next <= |fmt| && end < str.Length && ArgsOk(left)
    ensures Turn(Now(str, end, cv', left, bad), fmt[next..])
         == Escaped(fmt[p - 1], fmt[p..], old(Now(str, out, cv, args, false)))
  {
    hide Digit, Print, DropLengths, IsDigit;
    var c := fmt[p - 1];
    ghost var st := Now(str, out, cv, args, false);
    end, next, cv', left, bad := out, p, cv, args, false;
    match ClassOf(c) {
      case Flags =>
        if cv.escape == 1 {
          cv' := cv.(escape := 2, flag := FlagOf(c));
        } else if (cv.escape == 2 || cv.escape == 3) && c == '0' {
          CountIsDigit(c);
          next, cv', left, bad := ReadNumber(fmt, p, cv, args, st);
        } else {
          bad := true;
        }
      case Count =>
        CountIsDigit(c);
        next, cv', left, bad := ReadNumber(fmt, p, cv, args, st);
      case Point =>
        if Max(cv.escape, 3) == 3 {
          cv' := cv.(escape := 3, toPrecision := true);
        } else {
          bad := true;
        }
      case Length =>
        if Max(cv.escape, 4) == 4 {
          cv' := cv.(escape := 5);
          next := SkipLengths(fmt, p);
        } else {
          bad := true;
        }
      case Specifier =>
        if Max(cv.escape, 5) == 5 {
          PrintNotBad(c, st);
          end, left := PrintInto(str, out, c, cv, args);
          cv' := NONE;
        } else {
          bad := true;
        }
      case Other =>
        bad := true;
    }
  }

  lemma PrintNotBad(c: char, st: State)
    requires st.status == Going
    ensures Print(c, st).status != Bad
  {
    hide Number, LosesEnd, BaseOf;
  }

  lemma CountIsDigit(c: char)
    ensures ClassOf(c) == Count || c == '0' ==> c == '*' || IsDigit(c)
  {
  }

  lemma StepGrows(c: char, rest: seq<char>, st: State)
    ensures st.out <= Step(c, rest, st).st.out
  {
    hide Number, LosesEnd, BaseOf, Atoi, DropDigits, DropLengths;
  }

  /** A machine only ever adds to its output, and a stopped one stays as it is. */
  lemma {:induction false} RunGrows(fmt: seq<char>, st: State)
    ensures st.out <= Run(fmt, st).out && (st.status != Going ==> Run(fmt, st) == st)
    decreases |fmt|
  {
    hide Step;
    if fmt != [] && st.status == Going {
      var t := Step(fmt[0], fmt[1..], st);
      StepGrows(fmt[0], fmt[1..], st);
      RunGrows(t.rest, t.st);
    }
  }

  lemma VsprintfRuns(fmt: seq<char>, args: seq<Arg>)
    ensures Vsprintf(fmt, args) == Run(fmt, Start(args))
  {
  }

  /** `vsprintf`: whenever the format and its arguments leave nothing open and the buffer is long
      enough, it holds the machine's output and a terminator. */
  method VsprintfInto(str: array<char>, fmt: seq<char>, args: seq<Arg>) returns (ret: int)
    requires ArgsOk(args) && Vsprintf(fmt, args).status in {Going, Bad} && |Vsprintf(fmt, args).out| < str.Length
    modifies str
    ensures HoldsString(str[..], 0, Vsprintf(fmt, args).out)
    ensures ret == if Vsprintf(fmt, args).status == Bad then -1 else |Vsprintf(fmt, args).out|
  {
    hide Escaped, Vsprintf;
    ghost var final := Vsprintf(fmt, args);
    var p: nat, out: nat, bad, cv, left := 0, 0, false, NONE, args;
    assert final == Run(fmt, Start(args)) by { VsprintfRuns(fmt, args); }
    RunGrows(fmt, Start(args));
    assert fmt[0..] == fmt && Now(str, out, cv, left, bad) == Start(args);
    while p < |fmt| && !bad
      invariant p <= |fmt| && out < str.Length && ArgsOk(left)
      invariant Run(fmt[p..], Now(str, out, cv, left, bad)) == final
      decreases |fmt| - p
    {
      ghost var st := Now(str, out, cv, left, bad);
      ghost var t := Step(fmt[p], fmt[p + 1..], st);
      assert fmt[p..][1..] == fmt[p + 1..];
      assert Run(fmt[p..], st) == Run(t.rest, t.st);
      RunGrows(t.rest, t.st);
      str[out] := fmt[p];
      p := p + 1;
      if cv.escape == 0 && str[out] == '%' {
        cv := cv.(escape := 1);
      } else if cv.escape != 0 {
        assert Now(str, out, cv, left, false) == st;
        out, p, cv, left, bad := EscapedInto(str, out, fmt, p, cv, left);
      } else {
        out := out + 1;
        assert str[..out] == st.out + [fmt[p - 1]];
      }
      assert Turn(Now(str, out, cv, left, bad), fmt[p..]) == t;
    }
    assert Now(str, out, cv, left, bad) == final;
    str[out] := '\0';
    ret := if bad then -1 else out;
  }
}
