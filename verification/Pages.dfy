/** The page-run allocator of mm/memory.c. */
module Pages {
  const LOW_MEM: int := 0x100000
  const TOTAL_MEM: int := 15 * 1024 * 1024
  const NR_PAGES: int := 3840
  const RESERVED_PAGE: int := 100

  /** `mmi`: the page of an address. */
  function Mmi(addr: int): int {
    (addr - LOW_MEM) / 4096
  }

  function AddrOf(page: int): int {
    LOW_MEM + 4096 * page
  }

  /** `1 << order`. */
  function Pow2(order: nat): (n: nat)
    ensures n >= 1
  {
    if order == 0 then 1 else 2 * Pow2(order - 1)
  }

  ghost predicate FreeRun(m: seq<int>, s: int, n: int) {
    0 <= s && s + n <= |m| && forall i :: s <= i < s + n ==> m[i] == 0
  }

  /** The lowest run of `n` free pages. */
  ghost predicate FirstRun(m: seq<int>, s: int, n: int) {
    FreeRun(m, s, n) && forall t :: 0 <= t < s ==> !FreeRun(m, t, n)
  }

  /** `m` with the `n` entries from `s` on set to `v`. */
  ghost function Mark(m: seq<int>, s: int, n: int, v: int): seq<int> {
    seq(|m|, i requires 0 <= i < |m| => if s <= i < s + n then v else m[i])
  }

  /** The runs handed out and not taken back: length by first page. */
  type Runs = map<int, int>

  ghost predicate In(s: int, n: int, i: int) {
    s <= i < s + n
  }

  ghost predicate Covered(runs: Runs, i: int) {
    exists s :: s in runs && In(s, runs[s], i)
  }

  /** Runs lie in the map and do not overlap; exactly their pages count 1, the others are
      free or reserved. */
  ghost predicate Consistent(m: seq<int>, runs: Runs) {
    && |m| == NR_PAGES
    && (forall s :: s in runs ==> 0 <= s && 0 < runs[s] && s + runs[s] <= NR_PAGES)
    && (forall s, t :: s in runs && t in runs && s < t ==> s + runs[s] <= t)
    && (forall s, i :: s in runs && s <= i < s + runs[s] ==> m[i] == 1)
    && (forall i :: 0 <= i < NR_PAGES && !Covered(runs, i) ==> m[i] == 0 || m[i] == RESERVED_PAGE)
  }

  /** A free page is in no run. */
  lemma FreeApart(m: seq<int>, s: int, n: int, t: int, k: int)
    requires FreeRun(m, s, n) && n > 0 && k > 0 && 0 <= t && t + k <= |m|
    requires forall i :: t <= i < t + k ==> m[i] == 1
    ensures t + k <= s || s + n <= t
  {
    var i := if s < t then t else s;
    if i < s + n {
      assert m[i] == 0;
    }
  }

  lemma AllocKeeps(m: seq<int>, runs: Runs, s: int, n: int)
    requires Consistent(m, runs) && FreeRun(m, s, n) && n > 0
    ensures s !in runs && Consistent(Mark(m, s, n, 1), runs[s := n])
  {
    hide Covered;
    var m', runs' := Mark(m, s, n, 1), runs[s := n];
    forall t | t in runs
      ensures t + runs[t] <= s || s + n <= t
    {
      FreeApart(m, s, n, t, runs[t]);
    }
    assert s !in runs;
    forall i | 0 <= i < NR_PAGES && !Covered(runs', i)
      ensures m'[i] == 0 || m'[i] == RESERVED_PAGE
    {
      CoveredMore(runs, s, n, i);
    }
    forall t, i | t in runs' && t <= i < t + runs'[t]
      ensures m'[i] == 1
    {
      if t != s {
        assert m[i] == 1;
      }
    }
  }

  lemma CoveredMore(runs: Runs, s: int, n: int, i: int)
    requires s !in runs
    ensures Covered(runs[s := n], i) <==> Covered(runs, i) || In(s, n, i)
  {
    var runs' := runs[s := n];
    if In(s, n, i) {
      assert In(s, runs'[s], i);
    }
    if t :| t in runs && In(t, runs[t], i) {
      assert t in runs' && In(t, runs'[t], i);
    }
  }

  lemma FreeKeeps(m: seq<int>, runs: Runs, s: int)
    requires Consistent(m, runs) && s in runs
    ensures Consistent(Mark(m, s, runs[s], 0), runs - {s})
  {
    hide Covered;
    var m', runs' := Mark(m, s, runs[s], 0), runs - {s};
    assert runs'[s := runs[s]] == runs;
    forall i | 0 <= i < NR_PAGES && !Covered(runs', i)
      ensures m'[i] == 0 || m'[i] == RESERVED_PAGE
    {
      CoveredMore(runs', s, runs[s], i);
    }
  }

  /** Taking a run and giving it back leaves the map as it was. */
  lemma AllocThenFree(m: seq<int>, s: int, n: int)
    requires FreeRun(m, s, n)
    ensures Mark(Mark(m, s, n, 1), s, n, 0) == m
  {
  }

  /** The map `mem_init` makes. */
  ghost function InitMap(start: int, end: int): (m: seq<int>)
    ensures |m| == NR_PAGES
  {
    seq(NR_PAGES, i => if Mmi(start) <= i <= Mmi(end) then 0 else RESERVED_PAGE)
  }

  /** Every page that is free or handed out starts below `high`, so the closing assert of
      `alloc_pages` cannot fail. */
  ghost predicate BelowHigh(m: seq<int>, high: int) {
    forall i :: 0 <= i < |m| && m[i] != RESERVED_PAGE ==> AddrOf(i) < high
  }

  lemma MarkBelow(m: seq<int>, high: int, s: int, n: int, v: int)
    requires BelowHigh(m, high) && forall i :: s <= i < s + n && 0 <= i < |m| ==> m[i] != RESERVED_PAGE
    ensures BelowHigh(Mark(m, s, n, v), high)
  {
  }

  lemma MapSize(m: seq<int>, runs: Runs)
    requires Consistent(m, runs)
    ensures |m| == NR_PAGES
  {
  }

  lemma FreeBelow(m: seq<int>, high: int, s: int, n: int)
    requires BelowHigh(m, high) && FreeRun(m, s, n) && n > 0
    ensures AddrOf(s) < high && BelowHigh(Mark(m, s, n, 1), high)
  {
    assert m[s] == 0;
    MarkBelow(m, high, s, n, 1);
  }

  class PageMap {
    const memMap: array<int>
    var high: int
    ghost var runs: Runs

    ghost predicate Valid()
      reads this, memMap
    {
      Consistent(memMap[..], runs)
    }

    /** The assert of `alloc_pages` cannot fail. */
    ghost predicate Safe()
      reads this, memMap
    {
      BelowHigh(memMap[..], high)
    }

    /** `mem_init`: the pages from `start` to that of `end`, inclusive, become free. */
    constructor (start: int, end: int)
      requires LOW_MEM <= start < end < LOW_MEM + TOTAL_MEM
      ensures Valid() && fresh(memMap) && runs == map[] && high == end
      ensures memMap[..] == InitMap(start, end)
      ensures Safe() <==> (end - LOW_MEM) % 4096 != 0
    {
      var m := new int[NR_PAGES];
      memMap := m;
      high := end;
      runs := map[];
      new;
      for i := 0 to NR_PAGES
        invariant runs == map[] && high == end
        invariant forall j :: 0 <= j < i ==> memMap[j] == RESERVED_PAGE
      {
        memMap[i] := RESERVED_PAGE;
      }
      for i := Mmi(start) to Mmi(end) + 1
        invariant runs == map[] && high == end
        invariant forall j :: 0 <= j < NR_PAGES ==> memMap[j] == if Mmi(start) <= j < i then 0 else RESERVED_PAGE
      {
        memMap[i] := 0;
      }
      assert memMap[..] == InitMap(start, end);
      InitBelow(start, end, high);
    }

    /** `alloc_pages`: the lowest run of 2^order free pages. Without one it panics, and so it does
        when the run found starts at the end of memory. */
    method AllocPages(order: nat) returns (page: int)
      requires Valid()
      requires exists s :: FreeRun(memMap[..], s, Pow2(order))
      requires Safe() || forall s :: FirstRun(memMap[..], s, Pow2(order)) ==> AddrOf(s) < high
      modifies this`runs, memMap
      ensures Valid() && (old(Safe()) ==> Safe())
      ensures FirstRun(old(memMap[..]), Mmi(page), Pow2(order)) && page == AddrOf(Mmi(page))
      ensures memMap[..] == Mark(old(memMap[..]), Mmi(page), Pow2(order), 1)
      ensures runs == old(runs)[Mmi(page) := Pow2(order)] && Mmi(page) !in old(runs)
      ensures LOW_MEM <= page < high
    {
      hide Consistent, BelowHigh, Covered;
      var require := Pow2(order);
      ghost var m := memMap[..];
      MapSize(m, runs);
      var i := FindRun(require);
      var accum := require;
      while accum > 0
        invariant 0 <= accum <= require && runs == old(runs) && high == old(high)
        invariant FirstRun(m, i - accum + 1, require)
        invariant forall j :: 0 <= j < NR_PAGES ==> memMap[j] == if i < j <= i - accum + require then 1 else m[j]
        decreases accum
      {
        assert memMap[i] == 0;
        memMap[i] := memMap[i] + 1;
        accum := accum - 1;
        i := i - 1;
      }
      i := i + 1;
      assert memMap[..] == Mark(m, i, require, 1);
      AllocKeeps(m, runs, i, require);
      if BelowHigh(m, high) {
        FreeBelow(m, high, i, require);
      }
      runs := runs[i := require];
      page := LOW_MEM + i * 4096;
    }

    /** The search loop of `alloc_pages`: the last page of the lowest run. */
    method FindRun(require: int) returns (i: int)
      requires memMap.Length == NR_PAGES && require > 0
      requires exists s :: FreeRun(memMap[..], s, require)
      ensures FirstRun(memMap[..], i - require + 1, require)
    {
      ghost var m := memMap[..];
      var accum := 0;
      i := 0;
      while i < NR_PAGES
        invariant 0 <= i <= NR_PAGES && 0 <= accum < require && accum <= i
        invariant forall j :: i - accum <= j < i ==> m[j] == 0
        invariant accum < i ==> m[i - accum - 1] != 0
        invariant forall s :: 0 <= s && s + require <= i ==> !FreeRun(m, s, require)
      {
        if memMap[i] == 0 {
          accum := accum + 1;
        } else {
          accum := 0;
        }
        if accum == require {
          break;
        }
        forall s | 0 <= s && s + require <= i + 1
          ensures !FreeRun(m, s, require)
        {
          if accum < i + 1 { assert m[i - accum] != 0; }
        }
        i := i + 1;
      }
      assert i < NR_PAGES;
    }

    /** `free_pages` of a run handed out. It refuses a run that ends with the last page. */
    method FreePages(addr: int, order: nat)
      requires Valid()
      requires Mmi(addr) in runs && runs[Mmi(addr)] == Pow2(order) && Mmi(addr) + Pow2(order) < NR_PAGES
      modifies this`runs, memMap
      ensures Valid() && (old(Safe()) ==> Safe())
      ensures memMap[..] == Mark(old(memMap[..]), Mmi(addr), Pow2(order), 0)
      ensures runs == old(runs) - {Mmi(addr)}
    {
      var require := Pow2(order);
      ghost var n := require;
      var start := Mmi(addr);
      ghost var m := memMap[..];
      while require > 0
        invariant 0 <= require <= n && runs == old(runs) && start == Mmi(addr) + n - require
        invariant forall j :: 0 <= j < NR_PAGES ==> memMap[j] == if Mmi(addr) <= j < start then 0 else m[j]
        decreases require
      {
        memMap[start] := memMap[start] - 1;
        assert memMap[start] >= 0;
        require := require - 1;
        start := start + 1;
      }
      assert memMap[..] == Mark(m, Mmi(addr), n, 0);
      FreeKeeps(m, runs, Mmi(addr));
      if BelowHigh(m, high) {
        MarkBelow(m, high, Mmi(addr), n, 0);
      }
      runs := runs - {Mmi(addr)};
    }
  }

  lemma MmiBounds(start: int, end: int)
    requires LOW_MEM <= start <= end < LOW_MEM + TOTAL_MEM
    ensures 0 <= Mmi(start) <= Mmi(end) < NR_PAGES
  {
  }

  lemma MmiOfPage(p: int)
    ensures Mmi(AddrOf(p)) == p
  {
  }

  /** Right after `mem_init` the assert is safe exactly when memory does not end on a page boundary: the
      page at `end` counts as free, and at a boundary it is all beyond. */
  lemma InitBelow(start: int, end: int, high: int)
    requires LOW_MEM <= start < end < LOW_MEM + TOTAL_MEM && high == end
    ensures BelowHigh(InitMap(start, end), high) <==> (end - LOW_MEM) % 4096 != 0
  {
    MmiBounds(start, end);
    var m, last := InitMap(start, end), Mmi(end);
    assert AddrOf(last) <= end && (AddrOf(last) == end <==> (end - LOW_MEM) % 4096 == 0);
    assert m[last] == 0;
  }

  // ----- histories -----

  datatype Op = Alloc(order: nat) | Free(page: int)

  /** After a history: the map and the runs that are out, or how it ended. `Refused` is the assert of
      `free_pages` on a run that is out, `Misuse` a free that no allocation justifies. */
  datatype History = Running(m: seq<int>, runs: Runs) | OutOfMemory | AssertFailed | Refused | Misuse

  ghost function Do(h: History, op: Op, high: int): History {
    if !h.Running? then h else
    match op
    case Alloc(order) =>
      var n := Pow2(order);
      if !exists s :: FreeRun(h.m, s, n) then OutOfMemory
      else
        var s := Lowest(h.m, n);
        if AddrOf(s) >= high then AssertFailed else Running(Mark(h.m, s, n, 1), h.runs[s := n])
    case Free(page) =>
      if page !in h.runs then Misuse
      else if page + h.runs[page] >= NR_PAGES then Refused
      else Running(Mark(h.m, page, h.runs[page], 0), h.runs - {page})
  }

  /** The start of the lowest free run. */
  ghost function Lowest(m: seq<int>, n: int): (s: int)
    requires exists s :: FreeRun(m, s, n)
    ensures FirstRun(m, s, n)
  {
    var s :| FreeRun(m, s, n);
    LowestBelow(m, n, s);
    var t :| FirstRun(m, t, n);
    t
  }

  lemma {:induction false} LowestBelow(m: seq<int>, n: int, s: int)
    requires FreeRun(m, s, n)
    ensures exists t :: FirstRun(m, t, n)
    decreases s
  {
    if t :| 0 <= t < s && FreeRun(m, t, n) {
      LowestBelow(m, n, t);
    } else {
      assert FirstRun(m, s, n);
    }
  }

  ghost function DoAll(h: History, ops: seq<Op>, high: int): History {
    if ops == [] then h else Do(DoAll(h, ops[..|ops| - 1], high), ops[|ops| - 1], high)
  }

  /** Below `high` nothing can fail the assert, and every call keeps it so. */
  lemma {:induction false} StaysBelow(h: History, ops: seq<Op>, high: int)
    requires h.Running? && Consistent(h.m, h.runs) && BelowHigh(h.m, high)
    ensures var r := DoAll(h, ops, high);
            r != AssertFailed && (r.Running? ==> Consistent(r.m, r.runs) && BelowHigh(r.m, high))
  {
    hide Consistent, BelowHigh, Do, FirstRun;
    if ops != [] {
      StaysBelow(h, ops[..|ops| - 1], high);
      var r := DoAll(h, ops[..|ops| - 1], high);
      if r.Running? {
        OneBelow(r, ops[|ops| - 1], high);
      } else {
        Ended(r, ops[|ops| - 1], high);
      }
    }
  }

  lemma Ended(h: History, op: Op, high: int)
    requires !h.Running?
    ensures Do(h, op, high) == h
  {
  }

  lemma OneBelow(h: History, op: Op, high: int)
    requires h.Running? && Consistent(h.m, h.runs) && BelowHigh(h.m, high)
    ensures var r := Do(h, op, high);
            r != AssertFailed && (r.Running? ==> Consistent(r.m, r.runs) && BelowHigh(r.m, high))
  {
    match op
    case Alloc(order) =>
      var n := Pow2(order);
      if exists s :: FreeRun(h.m, s, n) {
        var s := Lowest(h.m, n);
        assert h.m[s] == 0;
        AllocKeeps(h.m, h.runs, s, n);
        MarkBelow(h.m, high, s, n, 1);
      }
    case Free(page) =>
      if page in h.runs {
        FreeKeeps(h.m, h.runs, page);
        MarkBelow(h.m, high, page, h.runs[page], 0);
      }
  }

  /** The map after the first `k` free pages were taken one by one. */
  ghost function TakenMap(start: int, end: int, k: int): (m: seq<int>)
    ensures |m| == NR_PAGES
  {
    seq(NR_PAGES, i =>
          if Mmi(start) <= i < Mmi(start) + k then 1 else if Mmi(start) <= i <= Mmi(end) then 0 else RESERVED_PAGE)
  }

  lemma NextTaken(start: int, end: int, k: nat)
    requires LOW_MEM <= start < end < LOW_MEM + TOTAL_MEM && k <= Mmi(end) - Mmi(start)
    ensures var m := TakenMap(start, end, k);
            && (exists s :: FreeRun(m, s, 1)) && Lowest(m, 1) == Mmi(start) + k
            && Mark(m, Mmi(start) + k, 1, 1) == TakenMap(start, end, k + 1)
  {
    MmiBounds(start, end);
    var m, s := TakenMap(start, end, k), Mmi(start) + k;
    assert 0 <= Mmi(start) <= s <= Mmi(end) < NR_PAGES;
    assert m[s] == 0;
    assert FreeRun(m, s, 1);
    var t := Lowest(m, 1);
    assert m[t] == 0;
    assert !(s < t);
  }

  lemma {:induction false} TakeAll(start: int, end: int, k: nat)
    requires LOW_MEM <= start < end < LOW_MEM + TOTAL_MEM && k <= Mmi(end) - Mmi(start)
    ensures var r := DoAll(Running(InitMap(start, end), map[]), seq(k, _ => Alloc(0)), end);
            r.Running? && r.m == TakenMap(start, end, k)
  {
    hide Lowest, TakenMap, Mmi;
    var ops := seq(k, _ => Alloc(0));
    if k == 0 {
      NoneTaken(start, end);
    } else {
      assert ops[..k - 1] == seq(k - 1, _ => Alloc(0));
      TakeAll(start, end, k - 1);
      NextTaken(start, end, k - 1);
      BelowEnd(end, Mmi(start) + k - 1);
      assert Pow2(0) == 1;
    }
  }

  lemma NoneTaken(start: int, end: int)
    ensures TakenMap(start, end, 0) == InitMap(start, end)
  {
  }

  lemma BelowEnd(end: int, i: int)
    ensures i < Mmi(end) ==> AddrOf(i) < end
    ensures i == Mmi(end) ==> (AddrOf(i) < end <==> (end - LOW_MEM) % 4096 != 0)
  {
  }

  /** The failing history: all pages but the last are handed out, and then one more is asked for. */
  lemma LastOneFails(start: int, end: int) returns (ops: seq<Op>)
    requires LOW_MEM <= start < end < LOW_MEM + TOTAL_MEM && (end - LOW_MEM) % 4096 == 0
    ensures DoAll(Running(InitMap(start, end), map[]), ops, end) == AssertFailed
  {
    hide Lowest, TakenMap;
    var k := Mmi(end) - Mmi(start);
    TakeAll(start, end, k);
    NextTaken(start, end, k);
    BelowEnd(end, Mmi(end));
    var most := seq(k, _ => Alloc(0));
    ops := most + [Alloc(0)];
    assert ops[..|ops| - 1] == most;
    assert Pow2(0) == 1;
  }

  /** The assert of `alloc_pages` fails in no history if and only if memory does not end on a page
      boundary. */
  lemma AssertHoldsIff(start: int, end: int)
    requires LOW_MEM <= start < end < LOW_MEM + TOTAL_MEM
    ensures (forall ops :: DoAll(Running(InitMap(start, end), map[]), ops, end) != AssertFailed)
            <==> (end - LOW_MEM) % 4096 != 0
  {
    hide DoAll;
    var h := Running(InitMap(start, end), map[]);
    if (end - LOW_MEM) % 4096 != 0 {
      InitBelow(start, end, end);
      InitConsistent(start, end);
      forall ops
        ensures DoAll(h, ops, end) != AssertFailed
      {
        StaysBelow(h, ops, end);
      }
    } else {
      var ops := LastOneFails(start, end);
    }
  }

  // ----- the run that cannot go back -----

  /** The last page is reserved, so no run is out that ends with it. */
  ghost predicate LastReserved(m: seq<int>, runs: Runs) {
    Consistent(m, runs) && m[NR_PAGES - 1] == RESERVED_PAGE
  }

  lemma {:induction false} NeverRefused(h: History, ops: seq<Op>, high: int)
    requires h.Running? && LastReserved(h.m, h.runs)
    ensures var r := DoAll(h, ops, high); r != Refused && (r.Running? ==> LastReserved(r.m, r.runs))
  {
    hide LastReserved, Do;
    if ops != [] {
      NeverRefused(h, ops[..|ops| - 1], high);
      var r := DoAll(h, ops[..|ops| - 1], high);
      if r.Running? {
        OneNotRefused(r, ops[|ops| - 1], high);
      } else {
        Ended(r, ops[|ops| - 1], high);
      }
    }
  }

  lemma OneNotRefused(h: History, op: Op, high: int)
    requires h.Running? && LastReserved(h.m, h.runs)
    ensures var r := Do(h, op, high); r != Refused && (r.Running? ==> LastReserved(r.m, r.runs))
  {
    match op
    case Alloc(order) =>
      var n := Pow2(order);
      if exists s :: FreeRun(h.m, s, n) {
        var s := Lowest(h.m, n);
        AllocKeeps(h.m, h.runs, s, n);
        assert s + n <= NR_PAGES - 1;
      }
    case Free(page) =>
      if page in h.runs {
        FreeKeeps(h.m, h.runs, page);
        assert h.m[NR_PAGES - 1] != 1;
      }
  }

  /** The run that cannot go back: single pages until only the last one is left, or the last two when
      memory ends on the boundary below the last page; then these in one run. */
  lemma LastRunRefused(start: int, end: int) returns (ops: seq<Op>)
    requires LOW_MEM <= start < end < LOW_MEM + TOTAL_MEM && Mmi(end) == NR_PAGES - 1
    ensures DoAll(Running(InitMap(start, end), map[]), ops, end) == Refused
  {
    hide Lowest, TakenMap, Mark;
    var order := if (end - LOW_MEM) % 4096 == 0 then 1 else 0;
    var s, n := NR_PAGES - 1 - order, order + 1;
    var k := s - Mmi(start);
    LastRun(start, end, s, n);
    TakeAll(start, end, k);
    BelowEnd(end, s);
    assert Pow2(0) == 1 && Pow2(1) == 2;
    var most := seq(k, _ => Alloc(0));
    var taken := most + [Alloc(order)];
    ops := taken + [Free(s)];
    assert taken[..|taken| - 1] == most && ops[..|ops| - 1] == taken;
  }

  /** One or two pages at the end of the map, when they are all that is left. */
  lemma LastRun(start: int, end: int, s: int, n: int)
    requires LOW_MEM <= start < end < LOW_MEM + TOTAL_MEM && Mmi(end) == NR_PAGES - 1
    requires n == (if (end - LOW_MEM) % 4096 == 0 then 2 else 1) && s == NR_PAGES - n
    ensures Mmi(start) <= s
    ensures var m := TakenMap(start, end, s - Mmi(start)); (exists t :: FreeRun(m, t, n)) && Lowest(m, n) == s
  {
    MmiBounds(start, end);
    var m := TakenMap(start, end, s - Mmi(start));
    assert FreeRun(m, s, n);
    var t := Lowest(m, n);
    assert m[t] == 0;
  }

  /** Whatever `mem_init` was told: every run handed out can go back, over all histories, if and only if
      the last page of the map stays reserved. */
  lemma GivesBackIff(start: int, end: int)
    requires LOW_MEM <= start < end < LOW_MEM + TOTAL_MEM
    ensures (forall ops :: DoAll(Running(InitMap(start, end), map[]), ops, end) != Refused)
            <==> Mmi(end) < NR_PAGES - 1
  {
    hide DoAll;
    MmiBounds(start, end);
    var h := Running(InitMap(start, end), map[]);
    if Mmi(end) < NR_PAGES - 1 {
      InitConsistent(start, end);
      forall ops
        ensures DoAll(h, ops, end) != Refused
      {
        NeverRefused(h, ops, end);
      }
    } else {
      var ops := LastRunRefused(start, end);
    }
  }

  lemma InitConsistent(start: int, end: int)
    ensures Consistent(InitMap(start, end), map[])
  {
  }

  /** The shortest such run on the code: a memory of one page and the page at its end. One page is
      handed out, and the only free run left starts at the end of memory, where the assert fails. */
  method LastPageRun() returns (p: PageMap)
    ensures p.Valid() && p.high == LOW_MEM + 4 * 4096
    ensures FirstRun(p.memMap[..], 4, Pow2(0)) && AddrOf(4) == p.high
  {
    hide Mmi;
    MmiOfPage(3);
    MmiOfPage(4);
    p := new PageMap(AddrOf(3), AddrOf(4));
    ghost var m := p.memMap[..];
    assert Pow2(0) == 1;
    assert m[3] == 0;
    assert FreeRun(m, 3, 1);
    OnlyAt(m, 3);
    var page := p.AllocPages(0);
    assert Mmi(page) == 3;
    OnlyAt(p.memMap[..], 4);
  }

  /** The shortest run on the code whose page cannot go back: the last page of the 16 MB, which the kernel's
      own `mem_init(0x100000, 0xffffff)` frees, is handed out. */
  method LastPageKept() returns (p: PageMap)
    ensures p.Valid() && p.Safe() && p.high == 0xff_ffff && Mmi(0xff_ffff) == NR_PAGES - 1
    ensures p.runs == map[NR_PAGES - 1 := Pow2(0)] && NR_PAGES - 1 + Pow2(0) == NR_PAGES
  {
    hide Mmi, Consistent;
    var last := NR_PAGES - 1;
    MmiOfPage(last);
    KernelEnd();
    p := new PageMap(AddrOf(last), 0xff_ffff);
    ghost var m := p.memMap[..];
    assert Pow2(0) == 1;
    assert m[last] == 0;
    assert FreeRun(m, last, 1);
    OnlyAt(m, last);
    var page := p.AllocPages(0);
    assert Mmi(page) == last;
  }

  lemma KernelEnd()
    ensures Mmi(0xff_ffff) == NR_PAGES - 1 && (0xff_ffff - LOW_MEM) % 4096 != 0
  {
  }

  lemma OnlyAt(m: seq<int>, s: int)
    requires FreeRun(m, s, 1) && forall i :: 0 <= i < s ==> m[i] != 0
    ensures FirstRun(m, s, 1) && forall t :: FirstRun(m, t, 1) ==> t == s
  {
    forall t | 0 <= t < s
      ensures !FreeRun(m, t, 1)
    {
      assert m[t] != 0;
    }
    forall t | FirstRun(m, t, 1)
      ensures t == s
    {
      assert m[t] == 0;
    }
  }
}
