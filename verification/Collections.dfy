/** Finite sets, sequences without repeats, and sequences turned around. */
module Collections {
  function RangeSet(n: nat): (r: set<int>)
    ensures forall i :: i in r <==> 0 <= i < n
    ensures |r| == n
  {
    if n == 0 then {} else RangeSet(n - 1) + {n - 1}
  }

  lemma {:induction false} SubsetSize<T>(a: set<T>, b: set<T>)
    requires a <= b
    ensures |a| <= |b|
  {
    if a != {} {
      var x :| x in a;
      SubsetSize(a - {x}, b - {x});
    }
  }

  ghost predicate Distinct<T>(s: seq<T>) {
    forall i, j :: 0 <= i < j < |s| ==> s[i] != s[j]
  }

  /** The members of a list. */
  function Members<T>(q: seq<T>): set<T> {
    set x | x in q
  }

  lemma {:induction false} DistinctSize<T>(q: seq<T>)
    requires Distinct(q)
    ensures |Members(q)| == |q|
  {
    if q != [] {
      DistinctSize(q[1..]);
      assert q == [q[0]] + q[1..];
      assert Members(q) == Members(q[1..]) + {q[0]};
    }
  }

  function Max(x: int, y: int): int {
    if x > y then x else y
  }

  function Reversed<T>(s: seq<T>): (r: seq<T>)
    ensures |r| == |s|
  {
    if s == [] then [] else Reversed(s[1..]) + [s[0]]
  }

  lemma {:induction false} ReversedAt<T>(s: seq<T>, k: nat)
    requires k < |s|
    ensures Reversed(s)[k] == s[|s| - 1 - k]
  {
    if k < |s| - 1 {
      ReversedAt(s[1..], k);
    }
  }

  lemma {:induction false} ReversedPush<T>(s: seq<T>, x: T)
    ensures Reversed(s + [x]) == [x] + Reversed(s)
  {
    if s != [] {
      assert (s + [x])[1..] == s[1..] + [x];
      ReversedPush(s[1..], x);
    }
  }

  lemma ReversedOne<T>(x: T)
    ensures Reversed([x]) == [x]
  {
  }

  lemma ReversedNone<T>()
    ensures Reversed<T>([]) == []
  {
  }

  lemma {:induction false} ReversedMembers<T>(s: seq<T>)
    ensures forall x :: x in Reversed(s) <==> x in s
    ensures Distinct(s) ==> Distinct(Reversed(s))
  {
    if s != [] {
      assert s == [s[0]] + s[1..];
      ReversedMembers(s[1..]);
      assert Distinct(s) ==> s[0] !in s[1..];
      assert forall i :: 0 <= i < |s| - 1 ==> Reversed(s)[i] in Reversed(s[1..]);
    }
  }
}
