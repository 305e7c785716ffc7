/** The round-robin rule of kernel/proc.c as a function on values, and what follows for whole runs. */
module SchedulerSpec {
  const NR_TASK: int := 64

  /** An entry of `task_table`. */
  datatype Slot = Empty | Task(priority: int, timespan: int)

  /** The table and the index of the current task. */
  datatype Sched = Sched(slots: seq<Slot>, cur: int) {
    predicate Ok() {
      |slots| == 64 && 0 <= cur < 64 && slots[cur].Task?
    }
  }

  predicate HasQuota(t: Slot) {
    t.Task? && t.timespan > 0
  }

  function Quota(t: Slot): nat {
    if HasQuota(t) then t.timespan else 0
  }

  function Share(t: Slot): nat {
    if t.Task? && t.priority > 0 then t.priority else 0
  }

  predicate AnyQuota(s: Sched) {
    exists i :: 0 <= i < |s.slots| && HasQuota(s.slots[i])
  }

  predicate AnyShare(s: Sched) {
    exists i :: 0 <= i < |s.slots| && Share(s.slots[i]) > 0
  }

  /** The index at distance `d` after the current task. */
  function At(s: Sched, d: nat): (i: int)
    requires s.Ok() && d <= 64
    ensures 0 <= i < 64
  {
    if s.cur + d < 64 then s.cur + d else s.cur + d - 64
  }

  /** The search: the first distance from `d` on with quota, or the full circle. */
  function Search(s: Sched, d: nat): (r: nat)
    requires s.Ok() && 1 <= d <= 64
    ensures d <= r <= 64
    decreases 64 - d
  {
    if d == 64 || HasQuota(s.slots[At(s, d)]) then d else Search(s, d + 1)
  }

  function Recharge(t: Slot): Slot {
    if t.Task? then t.(timespan := t.priority) else t
  }

  /** "reset all" of `schedule`. */
  function Reset(s: Sched): (r: Sched)
    ensures |r.slots| == |s.slots|
    ensures forall i :: 0 <= i < |s.slots| ==> r.slots[i] == Recharge(s.slots[i])
  {
    Sched(ResetSlots(s.slots), s.cur)
  }

  function ResetSlots(slots: seq<Slot>): (r: seq<Slot>)
    ensures |r| == |slots| && forall i :: 0 <= i < |slots| ==> r[i] == Recharge(slots[i])
  {
    if slots == [] then [] else [Recharge(slots[0])] + ResetSlots(slots[1..])
  }

  /** One turn for the task at `i`. */
  function Charge(s: Sched, i: int): Sched
    requires 0 <= i < |s.slots|
  {
    Sched(s.slots[i := Spend(s.slots[i])], i)
  }

  function Spend(t: Slot): Slot {
    if t.Task? then t.(timespan := t.timespan - 1) else t
  }

  /** When `schedule` returns. */
  predicate Ready(s: Sched) {
    s.Ok() && (AnyQuota(s) || AnyShare(s))
  }

  /** Where `schedule` looks first. */
  function Found(s: Sched): (i: int)
    requires s.Ok()
    ensures 0 <= i < 64
  {
    At(s, Search(s, 1))
  }

  lemma {:induction false} SearchFinds(s: Sched, d: nat)
    requires s.Ok() && 1 <= d <= 64
    ensures var r := Search(s, d);
            && (forall e :: d <= e < r ==> !HasQuota(s.slots[At(s, e)]))
            && (r == 64 || HasQuota(s.slots[At(s, r)]))
    decreases 64 - d
  {
    if !(d == 64 || HasQuota(s.slots[At(s, d)])) {
      SearchFinds(s, d + 1);
    }
  }

  /** How far `k` is after the current task, between 1 and 64. */
  function Dist(s: Sched, k: int): (d: nat)
    requires s.Ok() && 0 <= k < 64
    ensures 1 <= d <= 64 && At(s, d) == k
  {
    if k > s.cur then k - s.cur else k + 64 - s.cur
  }

  /** The search stops at the first task with quota after the current one, and finds one if there is one. */
  lemma FoundIsFirst(s: Sched)
    requires s.Ok()
    ensures HasQuota(s.slots[Found(s)]) <==> AnyQuota(s)
    ensures s.slots[Found(s)].Task?
    ensures forall k :: 0 <= k < 64 && HasQuota(s.slots[k]) ==> Dist(s, Found(s)) <= Dist(s, k)
  {
    SearchFinds(s, 1);
    assert At(s, 64) == s.cur;
    forall k | 0 <= k < 64 && HasQuota(s.slots[k])
      ensures Dist(s, Found(s)) <= Dist(s, k) && HasQuota(s.slots[Found(s)])
    {
      assert At(s, Dist(s, k)) == k;
    }
  }

  lemma ResetHasQuota(s: Sched)
    ensures AnyQuota(Reset(s)) <==> AnyShare(s)
    ensures AnyShare(Reset(s)) <==> AnyShare(s)
  {
    forall i | 0 <= i < |s.slots|
      ensures HasQuota(Reset(s).slots[i]) <==> Share(s.slots[i]) > 0
      ensures Share(Reset(s).slots[i]) == Share(s.slots[i])
    {
    }
  }

  /** `schedule`. */
  function Step(s: Sched): (r: Sched)
    requires Ready(s)
    ensures r.Ok()
    decreases if AnyQuota(s) then 0 else 1
  {
    FoundIsFirst(s);
    if HasQuota(s.slots[Found(s)]) then Charge(s, Found(s))
    else
      (ResetHasQuota(s);
       Step(Reset(s)))
  }

  /** Without quota anywhere the next step is that of the recharged table, one level down; without
      shares as well the recharged table is no better, and `schedule` would call itself for ever. */
  lemma StepOrReset(s: Sched)
    requires s.Ok()
    ensures Ready(s) && AnyQuota(s) ==> Step(s) == Charge(s, Found(s))
    ensures Ready(s) && !AnyQuota(s) ==> AnyQuota(Reset(s)) && Step(s) == Charge(Reset(s), Found(Reset(s)))
    ensures !Ready(s) ==> Reset(s).Ok() && !Ready(Reset(s))
  {
    FoundIsFirst(s);
    ResetHasQuota(s);
    if s.Ok() && !AnyQuota(s) {
      FoundIsFirst(Reset(s));
    }
  }

  /** Priorities never change, so readiness lasts. */
  lemma StepKeeps(s: Sched)
    requires Ready(s) && AnyShare(s)
    ensures Ready(Step(s)) && AnyShare(Step(s))
    ensures forall i :: 0 <= i < 64 ==> Share(Step(s).slots[i]) == Share(s.slots[i])
  {
    StepOrReset(s);
    FoundIsFirst(s);
    FoundIsFirst(Reset(s));
    forall i | 0 <= i < 64
      ensures Share(Step(s).slots[i]) == Share(s.slots[i])
    {
    }
    var i :| 0 <= i < 64 && Share(s.slots[i]) > 0;
    assert Share(Step(s).slots[i]) > 0;
  }

  // ----- conservation -----

  function Sum(q: seq<nat>): nat {
    if q == [] then 0 else q[0] + Sum(q[1..])
  }

  function Quotas(slots: seq<Slot>): (q: seq<nat>)
    ensures |q| == |slots| && forall i :: 0 <= i < |slots| ==> q[i] == Quota(slots[i])
  {
    if slots == [] then [] else [Quota(slots[0])] + Quotas(slots[1..])
  }

  function Shares(slots: seq<Slot>): (q: seq<nat>)
    ensures |q| == |slots| && forall i :: 0 <= i < |slots| ==> q[i] == Share(slots[i])
  {
    if slots == [] then [] else [Share(slots[0])] + Shares(slots[1..])
  }

  function Total(s: Sched): nat {
    Sum(Quotas(s.slots))
  }

  lemma {:induction false} SumUpdate(q: seq<nat>, i: int, v: nat)
    requires 0 <= i < |q|
    ensures Sum(q[i := v]) == Sum(q) - q[i] + v
  {
    if i == 0 {
      assert q[0 := v][1..] == q[1..];
    } else {
      assert q[i := v][1..] == q[1..][i - 1 := v];
      SumUpdate(q[1..], i - 1, v);
    }
  }

  lemma {:induction false} SumZero(q: seq<nat>)
    ensures Sum(q) == 0 <==> forall i :: 0 <= i < |q| ==> q[i] == 0
  {
    if q != [] {
      SumZero(q[1..]);
      assert forall i :: 1 <= i < |q| ==> q[i] == q[1..][i - 1];
    }
  }

  lemma TotalZero(s: Sched)
    ensures Total(s) == 0 <==> !AnyQuota(s)
  {
    SumZero(Quotas(s.slots));
    assert forall i :: 0 <= i < |s.slots| ==> (HasQuota(s.slots[i]) <==> Quotas(s.slots)[i] > 0);
  }

  lemma TotalCharge(s: Sched, i: int)
    requires 0 <= i < |s.slots| && HasQuota(s.slots[i])
    ensures Total(Charge(s, i)) == Total(s) - 1
  {
    var v := Quota(s.slots[i]) - 1;
    assert Quotas(Charge(s, i).slots) == Quotas(s.slots)[i := v];
    SumUpdate(Quotas(s.slots), i, v);
  }

  lemma TotalReset(s: Sched)
    ensures Total(Reset(s)) == Sum(Shares(s.slots))
  {
    assert Quotas(Reset(s).slots) == Shares(s.slots);
  }

  /** Each call takes exactly one unit off the total quota, which starts over at the sum of the
      priorities when it is used up. */
  lemma Conservation(s: Sched)
    requires Ready(s)
    ensures Total(Step(s)) == (if Total(s) > 0 then Total(s) else Sum(Shares(s.slots))) - 1
  {
    TotalZero(s);
    StepOrReset(s);
    if AnyQuota(s) {
      FoundIsFirst(s);
      TotalCharge(s, Found(s));
    } else {
      FoundIsFirst(Reset(s));
      TotalReset(s);
      TotalCharge(Reset(s), Found(Reset(s)));
    }
  }

  /** Quotas stay between 0 and the priority. */
  predicate Bounded(s: Sched) {
    forall i :: 0 <= i < |s.slots| && s.slots[i].Task? ==> 0 <= s.slots[i].timespan <= s.slots[i].priority
  }

  lemma StepBounded(s: Sched)
    requires Ready(s) && Bounded(s)
    ensures Bounded(Step(s))
  {
    hide Step, Search, AnyQuota, AnyShare, At;
    StepOrReset(s);
    FoundIsFirst(s);
    FoundIsFirst(Reset(s));
    assert Bounded(Reset(s));
  }

  // ----- runs -----

  /** The tasks picked by `n` calls in a row. */
  ghost function Picks(s: Sched, n: nat): (p: seq<int>)
    requires Ready(s) && AnyShare(s)
    ensures |p| == n
    decreases n
  {
    if n == 0 then [] else
      (StepKeeps(s);
       [Step(s).cur] + Picks(Step(s), n - 1))
  }

  ghost function After(s: Sched, n: nat): (r: Sched)
    requires Ready(s) && AnyShare(s)
    ensures Ready(r) && AnyShare(r)
    ensures forall i :: 0 <= i < 64 ==> Share(r.slots[i]) == Share(s.slots[i])
    decreases n
  {
    if n == 0 then s else
      (StepKeeps(s);
       After(Step(s), n - 1))
  }

  lemma FirstPick(s: Sched, n: nat)
    requires Ready(s) && AnyShare(s) && n > 0
    ensures Ready(Step(s)) && AnyShare(Step(s))
    ensures Picks(s, n) == [Step(s).cur] + Picks(Step(s), n - 1) && After(s, n) == After(Step(s), n - 1)
  {
    hide Step;
    StepKeeps(s);
  }

  /** A task with quota is picked before the search comes round: its distance falls at every call
      that does not pick it. */
  lemma {:induction false} PickedInTurn(s: Sched, k: int)
    requires s.Ok() && Ready(s) && AnyShare(s) && 0 <= k < 64 && HasQuota(s.slots[k])
    ensures k in Picks(s, Dist(s, k))
    decreases Dist(s, k)
  {
    hide Step, Search, Ready, AnyShare, AnyQuota, Picks;
    FirstPick(s, Dist(s, k));
    var s' := Step(s);
    Closer(s, k);
    if s'.cur != k {
      PickedInTurn(s', k);
      MorePicks(s', Dist(s', k), Dist(s, k) - 1);
      InPrefix(k, Picks(s', Dist(s, k) - 1), Dist(s', k));
    }
  }

  lemma NoPicks(s: Sched)
    requires Ready(s) && AnyShare(s)
    ensures Picks(s, 0) == [] && After(s, 0) == s
  {
  }

  /** A call that does not pick a waiting task brings it nearer and leaves its quota alone. */
  lemma Closer(s: Sched, k: int)
    requires Ready(s) && 0 <= k < 64 && HasQuota(s.slots[k])
    ensures var s' := Step(s); s'.Ok() && s'.cur != k ==> s'.slots[k] == s.slots[k] && Dist(s', k) < Dist(s, k)
  {
    FoundIsFirst(s);
    StepOrReset(s);
    hide Step, Search;
    assert AnyQuota(s);
  }

  lemma InPrefix<T>(x: T, q: seq<T>, m: nat)
    requires m <= |q| && x in q[..m]
    ensures x in q
  {
  }

  lemma {:induction false} MorePicks(s: Sched, m: nat, n: nat)
    requires Ready(s) && AnyShare(s) && m <= n
    ensures Picks(s, m) == Picks(s, n)[..m]
    decreases m
  {
    hide Step, Ready, AnyShare, Picks, After;
    if m > 0 {
      FirstPick(s, m);
      FirstPick(s, n);
      MorePicks(Step(s), m - 1, n - 1);
    } else {
      NoPicks(s);
    }
  }

  lemma {:induction false} PicksSplit(s: Sched, m: nat, n: nat)
    requires Ready(s) && AnyShare(s)
    ensures Picks(s, m + n) == Picks(s, m) + Picks(After(s, m), n)
    decreases m
  {
    hide Step, Ready, AnyShare, Picks, After;
    if m > 0 {
      FirstPick(s, m);
      FirstPick(s, m + n);
      PicksSplit(Step(s), m - 1, n);
    } else {
      NoPicks(s);
    }
  }

  /** Recharging an exhausted table does not change what comes next. */
  lemma PicksAfterReset(s: Sched, n: nat)
    requires Ready(s) && AnyShare(s) && !AnyQuota(s)
    ensures Ready(Reset(s)) && AnyShare(Reset(s)) && Picks(s, n) == Picks(Reset(s), n)
  {
    ResetHasQuota(s);
    StepOrReset(s);
    StepOrReset(Reset(s));
  }

  /** Within an epoch a task runs exactly as often as its quota falls. */
  lemma {:induction false} EpochCounts(s: Sched, n: nat, k: int)
    requires Ready(s) && AnyShare(s) && n <= Total(s) && 0 <= k < 64
    ensures multiset(Picks(s, n))[k] + Quota(After(s, n).slots[k]) == Quota(s.slots[k])
    ensures Total(After(s, n)) == Total(s) - n
    decreases n
  {
    if n > 0 {
      TotalZero(s);
      FoundIsFirst(s);
      StepOrReset(s);
      FirstPick(s, n);
      Conservation(s);
      hide Step, AnyQuota, AnyShare, Search, Sum, Picks, After, Ready;
      EpochCounts(Step(s), n - 1, k);
      assert Quota(s.slots[k]) == Quota(Step(s).slots[k]) + if Step(s).cur == k then 1 else 0;
    }
  }

  /** In a whole epoch every task gets exactly its quota. */
  lemma EpochIsFair(s: Sched, k: int)
    requires Ready(s) && AnyShare(s) && 0 <= k < 64
    ensures multiset(Picks(s, Total(s)))[k] == Quota(s.slots[k])
  {
    EpochCounts(s, Total(s), k);
    TotalZero(After(s, Total(s)));
  }

  /** No task with a positive priority starves: it is picked within the remaining quota plus one round. */
  lemma NoStarvation(s: Sched, k: int)
    requires Ready(s) && 0 <= k < 64 && Share(s.slots[k]) > 0
    ensures AnyShare(s) && k in Picks(s, Total(s) + 64)
  {
    hide Step, Picks, After, Search, Sum, AnyQuota;
    ShareCounts(s, k);
    hide Ready, AnyShare;
    var t := Total(s);
    EpochCounts(s, t, k);
    var s' := After(s, t);
    TotalZero(s');
    PicksAfterReset(s', 64);
    var r := Reset(s');
    ReadyOk(r);
    PickedInTurn(r, k);
    MorePicks(r, Dist(r, k), 64);
    InPrefix(k, Picks(r, 64), Dist(r, k));
    PicksSplit(s, t, 64);
  }

  lemma ShareCounts(s: Sched, k: int)
    requires Ready(s) && 0 <= k < 64 && Share(s.slots[k]) > 0
    ensures AnyShare(s) && s.Ok()
  {
  }

  lemma ReadyOk(s: Sched)
    requires Ready(s)
    ensures s.Ok()
  {
  }

  /** With quotas within the priorities that is at most the sum of the priorities plus a round. */
  lemma NoStarvationBound(s: Sched, k: int)
    requires Ready(s) && Bounded(s) && 0 <= k < 64 && Share(s.slots[k]) > 0
    ensures AnyShare(s) && k in Picks(s, Sum(Shares(s.slots)) + 64)
  {
    hide Step, Picks, After, Search, Sum, AnyQuota;
    ShareCounts(s, k);
    hide Ready, AnyShare;
    NoStarvation(s, k);
    SumLe(Quotas(s.slots), Shares(s.slots));
    MorePicks(s, Total(s) + 64, Sum(Shares(s.slots)) + 64);
    InPrefix(k, Picks(s, Sum(Shares(s.slots)) + 64), Total(s) + 64);
  }

  lemma {:induction false} SumLe(p: seq<nat>, q: seq<nat>)
    requires |p| == |q| && forall i :: 0 <= i < |p| ==> p[i] <= q[i]
    ensures Sum(p) <= Sum(q)
  {
    if p != [] {
      SumLe(p[1..], q[1..]);
    }
  }
}
