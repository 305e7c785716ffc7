/** The functions of lib/string.c that directories rest on. */
module CStrings {

  /** The characters before the terminator. */
  function CStr(s: seq<bv8>): (r: seq<bv8>)
    ensures |r| <= |s| && r == s[..|r|] && 0 !in r
    ensures |r| < |s| ==> s[|r|] == 0
  {
    if s == [] || s[0] == 0 then [] else [s[0]] + CStr(s[1..])
  }

  lemma {:induction false} CStrUnique(s: seq<bv8>, n: nat)
    requires n < |s| && s[n] == 0 && 0 !in s[..n]
    ensures CStr(s) == s[..n]
  {
    if n > 0 {
      assert s[0] == s[..n][0];
      assert forall i :: 0 <= i < n - 1 ==> s[1..][i] == s[..n][i + 1];
      CStrUnique(s[1..], n - 1);
    }
  }

  /** How `char` compares: as a signed byte. */
  function SignedChar(b: bv8): int {
    if b >= 128 then b as int - 256 else b as int
  }

  /** `strncmp`. It also compares the characters at index `num`, unlike the C standard's:
      a match of `num` characters must end together. */
  method Strncmp(str1: seq<bv8>, str2: seq<bv8>, num: nat) returns (r: int)
    requires num == 0 || (num < |str1| && num < |str2|)
    ensures num == 0 ==> r == 0
    ensures num > 0 ==> (r == 0 <==> SameUpTo(str1, str2, num))
    ensures num > 0 ==> var k := Stop(str1, str2, num, 0);
              && (r == -1 <==> SignedChar(str1[k]) < SignedChar(str2[k]))
              && (r == 1 <==> SignedChar(str1[k]) > SignedChar(str2[k]))
  {
    if num == 0 {
      return 0;
    }
    var k, left := 0, num;
    while left > 0 && str1[k] == str2[k] && str1[k] != 0
      invariant 0 <= k <= num && left == num - k
      invariant Stop(str1, str2, num, 0) == Stop(str1, str2, num, k)
    {
      k := k + 1;
      left := left - 1;
    }
    SignedCharInjective(str1[k], str2[k]);
    r := if str1[k] == str2[k] then 0 else if SignedChar(str1[k]) < SignedChar(str2[k]) then -1 else 1;
  }

  lemma SignedCharInjective(a: bv8, b: bv8)
    ensures SignedChar(a) == SignedChar(b) ==> a == b
  {
  }

  /** The index at which the comparison stops. */
  function Stop(str1: seq<bv8>, str2: seq<bv8>, num: nat, k: nat): (r: nat)
    requires k <= num < |str1| && num < |str2|
    ensures k <= r <= num
    decreases num - k
  {
    if k < num && str1[k] == str2[k] && str1[k] != 0 then Stop(str1, str2, num, k + 1) else k
  }

  predicate SameUpTo(str1: seq<bv8>, str2: seq<bv8>, num: nat)
    requires num < |str1| && num < |str2|
  {
    var k := Stop(str1, str2, num, 0);
    str1[k] == str2[k]
  }

  lemma {:induction false} StopFacts(str1: seq<bv8>, str2: seq<bv8>, num: nat, k: nat)
    requires k <= num < |str1| && num < |str2|
    ensures var r := Stop(str1, str2, num, k);
            && (forall i :: k <= i < r ==> str1[i] == str2[i] && str1[i] != 0)
            && (r == num || str1[r] != str2[r] || str1[r] == 0)
    decreases num - k
  {
    if k < num && str1[k] == str2[k] && str1[k] != 0 {
      StopFacts(str1, str2, num, k + 1);
    }
  }

  /** For a name of exactly `num` characters the comparison is equality of names, not a prefix test. */
  lemma StrncmpExact(name: seq<bv8>, other: seq<bv8>, num: nat)
    requires 0 < num < |name| && num < |other| && |CStr(name)| == num
    ensures SameUpTo(name, other, num) <==> CStr(other) == CStr(name)
  {
    StopFacts(name, other, num, 0);
    var k := Stop(name, other, num, 0);
    assert forall i :: 0 <= i < num ==> name[i] == CStr(name)[i];
    if CStr(other) == CStr(name) {
      assert forall i :: 0 <= i < num ==> other[i] == CStr(other)[i];
      assert name[num] == 0 == other[num];
    }
    if name[k] == other[k] {
      assert k == num;
      assert other[..num] == name[..num] == CStr(name);
      CStrUnique(other, num);
    }
  }

  /** `strncpy`. With a longer source `num` wraps below zero and the padding loop runs wild, so the
      source must fit; then it is copied and padded with zero bytes. */
  method Strncpy(dst: array<bv8>, src: seq<bv8>, num: nat)
    requires |CStr(src)| < |src| && |CStr(src)| <= num <= dst.Length
    modifies dst
    ensures dst[..num] == CStr(src) + seq(num - |CStr(src)|, _ => 0)
    ensures dst[num..] == old(dst[num..])
  {
    var p, left := 0, num;
    while src[p] != 0 && left > 0
      invariant 0 <= p <= |CStr(src)| && left == num - p
      invariant dst[..p] == src[..p]
      invariant dst[num..] == old(dst[num..])
      decreases left
    {
      assert src[p] == CStr(src)[p] || p == |CStr(src)|;
      dst[p] := src[p];
      p := p + 1;
      left := left - 1;
    }
    ghost var len := p;
    assert p == |CStr(src)|;
    while left > 0
      invariant len <= p <= num && left == num - p
      invariant dst[..len] == CStr(src)
      invariant forall i :: len <= i < p ==> dst[i] == 0
      invariant dst[num..] == old(dst[num..])
    {
      dst[p] := 0;
      p := p + 1;
      left := left - 1;
    }
  }
}
