/** The page tables of mm/memory.c: sharing at fork and the two page faults. */
module Paging {
  import opened Pages

  /** 32 bits. */
  type Word = x: int | 0 <= x < 0x1_0000_0000
  type Addr = Word

  /** `e & 0xfffff000`, as the number of the page frame. */
  function Frame(e: int): int {
    e / 4096
  }

  lemma FrameZero()
    ensures Frame(0) == 0
  {
  }

  predicate CanWrite(e: int) {
    e / 2 % 2 == 1
  }

  /** `e & 0xfffffffd`. */
  function ReadOnly(e: int): int {
    if CanWrite(e) then e - 2 else e
  }

  /** `e | 2`. */
  function Writable(e: int): int {
    if CanWrite(e) then e else e + 2
  }

  /** `(addr & 0xfffff000) | PAGE_DEFAULT`. */
  function Entry(addr: int): int {
    Frame(addr) * 4096 + 7
  }

  /** Write protection moves no page. */
  lemma ProtectLaws(e: int)
    ensures Frame(ReadOnly(e)) == Frame(e) == Frame(Writable(e))
    ensures !CanWrite(ReadOnly(e)) && CanWrite(Writable(e))
    ensures 0 <= e < 0x1_0000_0000 ==> 0 <= ReadOnly(e) <= e <= Writable(e) < 0x1_0000_0000
  {
    var f, r := e / 4096, e % 4096;
    assert e == f * 4096 + r;
    Digits(f, r);
    if CanWrite(e) {
      Digits(f, r - 2);
    } else {
      Digits(f, r + 2);
    }
  }

  lemma Digits(f: int, r: int)
    requires 0 <= r < 4096
    ensures Frame(f * 4096 + r) == f && CanWrite(f * 4096 + r) == CanWrite(r)
  {
    Halves(f * 2048, r);
    Even(f * 1024, r / 2);
  }

  lemma Halves(a: int, r: int)
    ensures (2 * a + r) / 2 == a + r / 2
  {
  }

  lemma Even(a: int, q: int)
    ensures (2 * a + q) % 2 == q % 2
  {
  }

  lemma EntryLaws(addr: Addr)
    ensures Frame(Entry(addr)) == Frame(addr) && CanWrite(Entry(addr)) && 0 < Entry(addr) < 0x1_0000_0000
    ensures 0 <= Frame(addr) < 0x10_0000 && Entry(addr) == Frame(addr) * 4096 + 7
  {
    var f := Frame(addr);
    Digits(f, 7);
  }

  function PdeIndex(addr: Addr): (d: int)
    ensures 0 <= d < 1024
  {
    addr / 0x40_0000
  }

  function PteIndex(addr: Addr): (i: int)
    ensures 0 <= i < 1024
  {
    addr / 4096 % 1024
  }

  /** The word of its page an address lies in. */
  function WordIndex(addr: Addr): (w: int)
    ensures 0 <= w < 1024
  {
    addr % 4096 / 4
  }

  /** The low megabyte, and the pages the allocator has given out. */
  ghost predicate InUse(m: seq<int>, f: int)
    requires |m| == NR_PAGES
  {
    0 <= f < 256 || (256 <= f < 4096 && m[f - 256] != 0)
  }

  lemma FrameOfPage(p: int)
    ensures Frame(AddrOf(p)) == p + 256 && AddrOf(p) % 4096 == 0
  {
  }

  ghost predicate HasFree(m: seq<int>) {
    exists p :: 0 <= p < |m| && m[p] == 0
  }

  ghost predicate HasTwoFree(m: seq<int>) {
    exists p, q :: 0 <= p < q < |m| && m[p] == 0 && m[q] == 0
  }

  lemma OneLeft(m: seq<int>, x: int)
    requires HasTwoFree(m)
    ensures HasFree(m) && HasFree(Mark(m, x, 1, 1))
  {
    var p, q :| 0 <= p < q < |m| && m[p] == 0 && m[q] == 0;
    assert Mark(m, x, 1, 1)[if x == p then q else p] == 0;
  }

  lemma OneLeftAny(m: seq<int>)
    requires HasTwoFree(m)
    ensures HasFree(m) && forall m', f :: TookPage(m, m', f) ==> HasFree(m')
  {
    forall m', f | TookPage(m, m', f)
      ensures HasFree(m')
    {
      OneLeft(m, f - 256);
    }
    OneLeft(m, 0);
  }

  ghost predicate LowestFree(m: seq<int>, f: int) {
    256 <= f < 4096 && FirstRun(m, f - 256, 1)
  }

  /** The lowest free page, frame `f`, has been given out. */
  ghost predicate TookPage(m: seq<int>, m': seq<int>, f: int) {
    LowestFree(m, f) && m' == Mark(m, f - 256, 1, 1)
  }

  /** The child's entry for an entry of the parent: read-only, all but number 144. */
  function Shared(e: int, i: int): int {
    if i == 144 then Writable(ReadOnly(e)) else ReadOnly(e)
  }

  /** Sharing moves no page and takes away the right to write, which only entry 144 gets back. */
  lemma SharedLaws(e: int, i: int)
    ensures Frame(Shared(e, i)) == Frame(e) && (CanWrite(Shared(e, i)) <==> i == 144)
  {
    ProtectLaws(e);
    ProtectLaws(ReadOnly(e));
  }

  /** The megabyte every task sees of its own: the first 256 pages at a multiple of 64 MB. */
  predicate InWindow(d: int, i: int) {
    0 <= d < 1024 && d % 16 == 0 && 0 <= i < 256
  }

  /** Frames 0 to 4 as the boot code leaves them: a directory of four tables that map the 16 MB of
      memory to itself. */
  function BootWord(f: int, w: int): int
    requires 0 <= f <= 4 && 0 <= w < 1024
  {
    if f == 0 then (if w < 4 then (w + 1) * 4096 + 7 else 0)
    else ((f - 1) * 1024 + w) * 4096 + 7
  }

  lemma BootFrames(f: int, w: int)
    requires 0 <= f <= 4 && 0 <= w < 1024
    ensures f == 0 ==> Frame(BootWord(f, w)) == if w < 4 then w + 1 else 0
    ensures f == 0 ==> (BootWord(f, w) != 0 <==> w < 4)
    ensures f > 0 ==> Frame(BootWord(f, w)) == (f - 1) * 1024 + w
  {
  }

  // ----- the memory before and after a first store -----

  /** All of memory, a row a page frame. */
  type Image = m: seq<seq<int>> | |m| == 4096 && forall f :: 0 <= f < 4096 ==> |m[f]| == 1024
    ghost witness seq(4096, _ => seq(1024, _ => 0))

  function TableOf(m: Image, d: int): int
    requires 0 <= d < 1024
  {
    Frame(m[0][d])
  }

  ghost predicate TablesIn(m: Image) {
    && (forall d :: 0 <= d < 1024 && m[0][d] != 0 ==> 0 < TableOf(m, d) < 4096)
    && (forall d, e :: 0 <= d < 1024 && 0 <= e < 1024 && d != e && m[0][d] != 0 && m[0][e] != 0 ==>
          TableOf(m, d) != TableOf(m, e))
  }

  /** Directory entry `d` has a table. */
  ghost predicate HasTable(m: Image, d: int) {
    0 <= d < 1024 && m[0][d] != 0
  }

  /** The frame that entry `i` of the table of directory entry `d` leads to. */
  ghost function Leads(m: Image, d: int, i: int): int
    requires TablesIn(m) && HasTable(m, d) && 0 <= i < 1024
  {
    Frame(m[TableOf(m, d)][i])
  }

  /** What a task reads through that entry; beyond the memory there is nothing. */
  ghost function Shown(m: Image, d: int, i: int): seq<int>
    requires TablesIn(m) && HasTable(m, d) && 0 <= i < 1024
  {
    var f := Leads(m, d, i);
    if 0 <= f < 4096 then m[f] else []
  }

  /** Entry `i` under `d` may fault for a copy to frame `f`: it leads to a page of the low megabyte, and
      the frame is no table. */
  ghost predicate MayCopy(m: Image, d: int, i: int, f: int) {
    && TablesIn(m) && HasTable(m, d) && 0 <= i < 1024 && 0 <= Leads(m, d, i) < 256
    && 256 <= f < 4096 && forall e :: 0 <= e < 1024 ==> TableOf(m, e) != f
  }

  function WithWord(m: Image, f: int, w: int, x: int): Image
    requires 0 <= f < 4096 && 0 <= w < 1024
  {
    m[f := m[f][w := x]]
  }

  /** `do_wp_page`: frame `f` gets a copy of the page and the entry leads to it. */
  ghost function Faulted(m: Image, d: int, i: int, f: int): Image
    requires MayCopy(m, d, i, f)
  {
    WithWord(m[f := m[Leads(m, d, i)]], TableOf(m, d), i, f * 4096 + 7)
  }

  /** Directory entries with tables other than that of `d`. */
  ghost predicate Others(m: Image, d: int, ds: set<int>) {
    forall e :: e in ds ==> e != d && HasTable(m, e)
  }

  /** No entry of the tables of `ds` leads to frame `g`. */
  ghost predicate Apart(m: Image, ds: set<int>, g: int)
    requires TablesIn(m) && forall e :: e in ds ==> HasTable(m, e)
  {
    forall e, j :: e in ds && 0 <= j < 1024 ==> Leads(m, e, j) != g
  }

  /** Through none of its 1024 entries does a table of `ds` show another content. */
  ghost predicate Isolated(m: Image, m': Image, ds: set<int>)
    requires TablesIn(m) && TablesIn(m') && forall e :: e in ds ==> HasTable(m, e) && HasTable(m', e)
  {
    forall e, j :: e in ds && 0 <= j < 1024 ==> Shown(m', e, j) == Shown(m, e, j)
  }

  /** A word written outside the directory and the tables of `ds` moves no entry of theirs. */
  lemma WordKeeps(m: Image, f: int, w: int, x: int, ds: set<int>)
    requires TablesIn(m) && 0 < f < 4096 && 0 <= w < 1024
    requires forall e :: e in ds ==> HasTable(m, e) && TableOf(m, e) != f
    ensures var m' := WithWord(m, f, w, x);
            && TablesIn(m') && (forall e :: HasTable(m', e) <==> HasTable(m, e))
            && (forall e :: 0 <= e < 1024 ==> TableOf(m', e) == TableOf(m, e))
            && forall e, j :: e in ds && 0 <= j < 1024 ==> Leads(m', e, j) == Leads(m, e, j)
  {
    hide Frame;
    assert WithWord(m, f, w, x)[0] == m[0];
  }

  /** A store to frame `f` is seen by no other table if and only if no entry of theirs leads to it. */
  lemma StoreIsolatedIff(m: Image, d: int, f: int, ds: set<int>)
    requires TablesIn(m) && 0 < f < 4096 && Others(m, d, ds) && forall e :: 0 <= e < 1024 ==> TableOf(m, e) != f
    ensures forall w, x: Word :: 0 <= w < 1024 ==> var m' := WithWord(m, f, w, x);
              TablesIn(m') && forall e :: e in ds ==> HasTable(m', e)
    ensures (forall w, x: Word :: 0 <= w < 1024 ==> Isolated(m, WithWord(m, f, w, x), ds)) <==> Apart(m, ds, f)
  {
    hide TableOf, Frame;
    forall w, x: Word | 0 <= w < 1024
      ensures var m' := WithWord(m, f, w, x); TablesIn(m') && forall e :: e in ds ==> HasTable(m', e)
      ensures Apart(m, ds, f) ==> Isolated(m, WithWord(m, f, w, x), ds)
    {
      WordKeeps(m, f, w, x, ds);
    }
    if e, j :| e in ds && 0 <= j < 1024 && Leads(m, e, j) == f {
      var x := if m[f][0] == 0 then 1 else 0;
      WordKeeps(m, f, 0, x, ds);
      assert Shown(WithWord(m, f, 0, x), e, j)[0] == x;
    }
  }

  /** The copy moves no entry of another table and changes only frame `f` and the faulting table. */
  lemma FaultKeeps(m: Image, d: int, i: int, f: int, ds: set<int>)
    requires MayCopy(m, d, i, f) && Others(m, d, ds)
    ensures var m' := Faulted(m, d, i, f);
            && TablesIn(m') && Others(m', d, ds) && HasTable(m', d)
            && (forall e :: 0 <= e < 1024 ==> TableOf(m', e) == TableOf(m, e))
            && (forall e, j :: e in ds && 0 <= j < 1024 ==> Leads(m', e, j) == Leads(m, e, j))
            && (forall g :: 0 <= g < 4096 && g != f && g != TableOf(m, d) ==> m'[g] == m[g])
            && m'[f] == m[Leads(m, d, i)] && m'[TableOf(m, d)] != m[TableOf(m, d)]
  {
    hide Frame;
    var m1 := m[f := m[Leads(m, d, i)]];
    assert m1[0] == m[0];
    assert forall e :: 0 <= e < 1024 ==> TableOf(m1, e) == TableOf(m, e);
    WordKeeps(m1, TableOf(m, d), i, f * 4096 + 7, ds);
    assert m[TableOf(m, d)][i] != f * 4096 + 7 by {
      Digits(f, 7);
    }
  }

  /** The fault and the store after it are seen by no other table, whatever is stored, if and only if no
      entry of theirs led to the fresh frame or to the table of the faulting task itself. */
  lemma FirstStoreIsolatedIff(m: Image, d: int, i: int, f: int, ds: set<int>)
    requires MayCopy(m, d, i, f) && Others(m, d, ds)
    ensures forall w, x: Word :: 0 <= w < 1024 ==> var m' := WithWord(Faulted(m, d, i, f), f, w, x);
              TablesIn(m') && forall e :: e in ds ==> HasTable(m', e)
    ensures (forall w, x: Word :: 0 <= w < 1024 ==> Isolated(m, WithWord(Faulted(m, d, i, f), f, w, x), ds))
            <==> Apart(m, ds, f) && Apart(m, ds, TableOf(m, d))
  {
    hide TableOf, Frame, Faulted;
    FaultKeeps(m, d, i, f, ds);
    var m1, t := Faulted(m, d, i, f), TableOf(m, d);
    forall w, x: Word | 0 <= w < 1024
      ensures var m' := WithWord(m1, f, w, x); TablesIn(m') && forall e :: e in ds ==> HasTable(m', e)
      ensures Apart(m, ds, f) && Apart(m, ds, t) ==> Isolated(m, WithWord(m1, f, w, x), ds)
    {
      WordKeeps(m1, f, w, x, ds);
    }
    if e, j :| e in ds && 0 <= j < 1024 && Leads(m, e, j) == f {
      var x := if m[f][0] == 0 then 1 else 0;
      WordKeeps(m1, f, 0, x, ds);
      assert Shown(WithWord(m1, f, 0, x), e, j)[0] == x;
    } else if e, j :| e in ds && 0 <= j < 1024 && Leads(m, e, j) == t {
      WordKeeps(m1, f, 0, 0, ds);
      assert Shown(WithWord(m1, f, 0, 0), e, j) == m1[t];
    }
  }

  /** Tables that still show the first 4 MB as it is, like those of task 0 and of every fork. */
  ghost predicate Forked(m: Image, ds: set<int>)
    requires TablesIn(m) && forall e :: e in ds ==> HasTable(m, e)
  {
    forall e, j :: e in ds && 0 <= j < 1024 ==> Leads(m, e, j) == j
  }

  /** With at least one such table about, that of `e`: exactly the frames behind the first 4 MB stay
      out of sight. */
  lemma ForkedApart(m: Image, d: int, ds: set<int>, e: int, g: int)
    requires TablesIn(m) && Others(m, d, ds) && Forked(m, ds) && e in ds && g >= 0
    ensures Apart(m, ds, g) <==> g >= 1024
  {
    if g < 1024 {
      assert Leads(m, e, g) == g;
    }
  }

  class Mmu {
    const mem: array2<int>  // the 16 MB of memory, a row a page frame; the directory is frame 0
    const pages: PageMap

    ghost predicate Valid()
      reads mem, pages, pages.memMap
    {
      && mem.Length0 == 4096 && mem.Length1 == 1024
      && pages.memMap.Length == NR_PAGES && pages.Valid() && pages.Safe()
      && TablesOk()
    }

    /** Page tables are pages in use, each in the directory once, and the directory is none of them. */
    ghost predicate TablesOk()
      requires mem.Length0 == 4096 && mem.Length1 == 1024 && pages.memMap.Length == NR_PAGES
      reads mem, pages.memMap
    {
      && (forall d :: 0 <= d < 1024 ==> InUse(pages.memMap[..], Frame(mem[0, d])))
      && (forall d :: 0 <= d < 1024 && mem[0, d] != 0 ==> Frame(mem[0, d]) != 0)
      && (forall d, e :: 0 <= d < e < 1024 && mem[0, d] != 0 && mem[0, e] != 0 ==> Frame(mem[0, d]) != Frame(mem[0, e]))
    }

    ghost predicate Has(d: int)
      requires Valid()
      reads mem, pages, pages.memMap
    {
      0 <= d < 1024 && mem[0, d] != 0
    }

    ghost function Table(d: int): int
      requires Valid() && 0 <= d < 1024
      reads mem, pages, pages.memMap
    {
      Frame(mem[0, d])
    }

    /** Entry `i` of the table of directory entry `d`. */
    ghost function Pte(d: int, i: int): int
      requires Valid() && 0 <= d < 1024 && 0 <= i < 1024
      reads mem, pages, pages.memMap
    {
      mem[Frame(mem[0, d]), i]
    }

    /** The frame an address leads to. */
    ghost function FrameOf(addr: Addr): int
      requires Valid()
      reads mem, pages, pages.memMap
    {
      Frame(Pte(PdeIndex(addr), PteIndex(addr)))
    }

    ghost function Memory(): (m: Image)
      requires Valid()
      reads mem, pages, pages.memMap
      ensures forall f, w :: 0 <= f < 4096 && 0 <= w < 1024 ==> m[f][w] == mem[f, w]
      ensures TablesIn(m) && forall d :: HasTable(m, d) <==> Has(d)
      ensures forall d :: 0 <= d < 1024 ==> TableOf(m, d) == Table(d)
      ensures forall d, i :: Has(d) && 0 <= i < 1024 ==> Leads(m, d, i) == Frame(Pte(d, i))
    {
      hide Frame, PageMap.Valid, PageMap.Safe;
      seq(4096, f requires 0 <= f < 4096 reads mem => seq(1024, w requires 0 <= w < 1024 reads mem => mem[f, w]))
    }

    ghost predicate NoTable(f: int)
      requires mem.Length0 == 4096 && mem.Length1 == 1024
      reads mem
    {
      forall d :: 0 <= d < 1024 ==> Frame(mem[0, d]) != f
    }

    /** No other window leads to the page that `addr` leads to. */
    ghost predicate Alone(addr: Addr)
      requires Valid()
      reads mem, pages, pages.memMap
    {
      forall d, i :: InWindow(d, i) && Has(d) && !(d == PdeIndex(addr) && i == PteIndex(addr)) ==>
                       Frame(Pte(d, i)) != FrameOf(addr)
    }

    /** No task sees a free page in its window, nor a page table that a fork or a fault has made. */
    ghost predicate WindowOk()
      requires Valid()
      reads mem, pages, pages.memMap
    {
      forall d, i :: InWindow(d, i) && Has(d) ==> Fits(Frame(Pte(d, i)))
    }

    ghost predicate Fits(f: int)
      requires mem.Length0 == 4096 && mem.Length1 == 1024 && pages.memMap.Length == NR_PAGES
      reads mem, pages, pages.memMap
    {
      InUse(pages.memMap[..], f) && (f < 256 || NoTable(f))
    }

    /** The state `setup_paging` and `mem_init` leave behind. */
    constructor (start: int, end: int, rest: (int, int) -> int)
      requires LOW_MEM <= start < end < LOW_MEM + TOTAL_MEM && (end - LOW_MEM) % 4096 != 0
      ensures Valid() && WindowOk() && fresh(mem) && fresh(pages) && fresh(pages.memMap)
      ensures pages.memMap[..] == InitMap(start, end)
      ensures forall f, w :: 5 <= f < 4096 && 0 <= w < 1024 ==> mem[f, w] == rest(f, w)
      ensures forall d, i :: 0 <= d < 4 && 0 <= i < 1024 ==> Frame(Pte(d, i)) == d * 1024 + i
      ensures forall d :: Has(d) <==> 0 <= d < 4
    {
      hide Frame, BootWord;
      mem := new int[4096, 1024]((f, w) => if 0 <= f <= 4 && 0 <= w < 1024 then BootWord(f, w) else rest(f, w));
      pages := new PageMap(start, end);
      new;
      assert pages.memMap.Length == NR_PAGES;
      hide PageMap.Valid, PageMap.Safe;
      forall d | 0 <= d < 1024
        ensures Frame(mem[0, d]) == (if d < 4 then d + 1 else 0) && (mem[0, d] != 0 <==> d < 4)
      {
        BootFrames(0, d);
      }
      forall d, i {:trigger mem[d + 1, i]} | 0 <= d < 4 && 0 <= i < 1024
        ensures Frame(mem[d + 1, i]) == d * 1024 + i
      {
        BootFrames(d + 1, i);
      }
    }

    /** `alloc_page`: the lowest free page, which is no table and in no window. */
    method AllocPage() returns (addr: Addr)
      requires Valid() && HasFree(pages.memMap[..])
      modifies pages`runs, pages.memMap
      ensures Valid() && (old(WindowOk()) ==> WindowOk())
      ensures addr % 4096 == 0 && TookPage(old(pages.memMap[..]), pages.memMap[..], Frame(addr))
      ensures !old(InUse(pages.memMap[..], Frame(addr))) && Fits(Frame(addr))
    {
      hide Frame, PageMap.Valid, PageMap.Safe;
      ghost var m := pages.memMap[..];
      assert Pow2(0) == 1;
      ghost var p :| 0 <= p < |m| && m[p] == 0;
      assert FreeRun(m, p, 1);
      addr := pages.AllocPages(0);
      FrameOfPage(Mmi(addr));
    }

    /** The loop of `share_vma`: a table copied with the write bits off. */
    method CopyTable(from: int, to: int)
      requires mem.Length0 == 4096 && mem.Length1 == 1024 && 0 <= from < 4096 && 0 <= to < 4096 && from != to
      modifies mem
      ensures forall i :: 0 <= i < 1024 ==> mem[to, i] == ReadOnly(old(mem[from, i]))
      ensures forall f, w :: 0 <= f < 4096 && 0 <= w < 1024 && f != to ==> mem[f, w] == old(mem[f, w])
    {
      hide ReadOnly;
      for i := 0 to 1024
        invariant forall j :: 0 <= j < i ==> mem[to, j] == ReadOnly(old(mem[from, j]))
        invariant forall f, w :: 0 <= f < 4096 && 0 <= w < 1024 && f != to ==> mem[f, w] == old(mem[f, w])
      {
        mem[to, i] := ReadOnly(mem[from, i]);
      }
    }

    /** `memcpy` of a page. */
    method CopyPage(from: int, to: int)
      requires mem.Length0 == 4096 && mem.Length1 == 1024 && 0 <= from < 4096 && 0 <= to < 4096 && from != to
      modifies mem
      ensures forall i :: 0 <= i < 1024 ==> mem[to, i] == old(mem[from, i])
      ensures forall f, w :: 0 <= f < 4096 && 0 <= w < 1024 && f != to ==> mem[f, w] == old(mem[f, w])
    {
      for i := 0 to 1024
        invariant forall j :: 0 <= j < i ==> mem[to, j] == old(mem[from, j])
        invariant forall f, w :: 0 <= f < 4096 && 0 <= w < 1024 && f != to ==> mem[f, w] == old(mem[f, w])
      {
        mem[to, i] := mem[from, i];
      }
    }

    /** `memset` of a page. */
    method ZeroPage(to: int)
      requires mem.Length0 == 4096 && mem.Length1 == 1024 && 0 <= to < 4096
      modifies mem
      ensures forall i :: 0 <= i < 1024 ==> mem[to, i] == 0
      ensures forall f, w :: 0 <= f < 4096 && 0 <= w < 1024 && f != to ==> mem[f, w] == old(mem[f, w])
    {
      for i := 0 to 1024
        invariant forall j :: 0 <= j < i ==> mem[to, j] == 0
        invariant forall f, w :: 0 <= f < 4096 && 0 <= w < 1024 && f != to ==> mem[f, w] == old(mem[f, w])
      {
        mem[to, i] := 0;
      }
    }

    /** `share_vma`: the child gets a table of its own that leads to the pages of the parent. The
        parent has a table; both addresses are multiples of 4 MB. */
    method ShareVma(from: Addr, to: Addr, size: int)
      requires Valid() && HasFree(pages.memMap[..])
      requires from % 0x40_0000 == 0 == to % 0x40_0000 && (if from > to then from - to else to - from) >= size
      requires Has(PdeIndex(from)) && !Has(PdeIndex(to))
      modifies mem, pages`runs, pages.memMap
      ensures Valid() && Has(PdeIndex(to)) && TookPage(old(pages.memMap[..]), pages.memMap[..], Table(PdeIndex(to)))
      ensures forall i :: 0 <= i < 1024 ==> Pte(PdeIndex(to), i) == Shared(old(Pte(PdeIndex(from), i)), i)
      ensures forall f, w ::
                0 <= f < 4096 && 0 <= w < 1024 && f != Table(PdeIndex(to)) && !(f == 0 && w == PdeIndex(to)) ==>
                mem[f, w] == old(mem[f, w])
      ensures forall d :: old(Has(d)) ==> Has(d)
      ensures forall d, i :: 0 <= i < 1024 && old(Has(d)) ==> Pte(d, i) == old(Pte(d, i))
      ensures old(WindowOk()) && PdeIndex(from) % 16 == 0 ==> WindowOk()
    {
      hide Frame, ReadOnly, Writable, PageMap.Valid, PageMap.Safe, PdeIndex, Entry, FirstRun, LowestFree;
      var parent, child := PdeIndex(from), PdeIndex(to);
      var page := AllocPage();
      EntryLaws(page);
      mem[0, child] := Entry(page);
      CopyTable(Frame(mem[0, parent]), Frame(mem[0, child]));
      mem[Frame(mem[0, child]), 144] := Writable(mem[Frame(mem[0, child]), 144]);
      forall i | 0 <= i < 1024
        ensures Frame(mem[Frame(mem[0, child]), i]) == Frame(old(mem[Frame(mem[0, parent]), i]))
      {
        SharedLaws(old(mem[Frame(mem[0, parent]), i]), i);
      }
    }

    /** The first half of `do_no_page`: a table where there is none. */
    method NeedTable(d: int)
      requires Valid() && 0 <= d < 1024
      requires mem[0, d] % 2 == 0 ==> HasFree(pages.memMap[..])
      modifies mem, pages`runs, pages.memMap
      ensures Valid() && Has(d) && (old(WindowOk()) ==> WindowOk())
      ensures forall e :: old(Has(e)) ==> Has(e)
      ensures forall e, i :: 0 <= i < 1024 && e != d && old(Has(e)) ==> Pte(e, i) == old(Pte(e, i))
      ensures forall i :: 0 <= i < 1024 ==> Pte(d, i) == if old(mem[0, d]) % 2 == 1 then old(Pte(d, i)) else 0
      ensures if old(mem[0, d]) % 2 == 1 then pages.memMap[..] == old(pages.memMap[..])
        else TookPage(old(pages.memMap[..]), pages.memMap[..], Table(d))
    {
      hide Frame, PageMap.Valid, PageMap.Safe, Entry, FirstRun, LowestFree;
      if mem[0, d] % 2 == 0 {
        var page := AllocPage();
        EntryLaws(page);
        ZeroPage(Frame(page));
        mem[0, d] := Entry(page);
        assert Frame(0) == 0 by { FrameZero(); }
      }
    }

    /** An entry of one table written: no other entry of any table changes. */
    method SetPte(d: int, i: int, e: int)
      requires Valid() && Has(d) && 0 <= i < 1024 && Fits(Frame(e))
      modifies mem
      ensures Valid() && (old(WindowOk()) ==> WindowOk()) && Pte(d, i) == e
      ensures forall c :: old(Has(c)) <==> Has(c)
      ensures forall c :: 0 <= c < 1024 ==> mem[0, c] == old(mem[0, c])
      ensures forall c, j :: 0 <= j < 1024 && Has(c) && !(c == d && j == i) ==> Pte(c, j) == old(Pte(c, j))
      ensures forall f, w :: 0 <= f < 4096 && 0 <= w < 1024 && !(f == Table(d) && w == i) ==>
              mem[f, w] == old(mem[f, w])
    {
      hide Frame, PageMap.Valid, PageMap.Safe;
      mem[Frame(mem[0, d]), i] := e;
    }

    /** `do_no_page`: the missing page becomes a page that nobody had. */
    method DoNoPage(addr: Addr)
      requires Valid()
      requires mem[0, PdeIndex(addr)] % 2 == 1 ==> Pte(PdeIndex(addr), PteIndex(addr)) == 0 && HasFree(pages.memMap[..])
      requires mem[0, PdeIndex(addr)] % 2 == 0 ==> HasTwoFree(pages.memMap[..])
      modifies mem, pages`runs, pages.memMap
      ensures Valid() && (old(WindowOk()) ==> WindowOk())
      ensures Has(PdeIndex(addr)) && CanWrite(Pte(PdeIndex(addr), PteIndex(addr)))
      ensures var f := FrameOf(addr); !InUse(old(pages.memMap[..]), f)
      ensures forall e :: old(Has(e)) ==> Has(e)
      ensures forall e, i :: 0 <= i < 1024 && e != PdeIndex(addr) && old(Has(e)) ==> Pte(e, i) == old(Pte(e, i))
      ensures forall i :: 0 <= i < 1024 && i != PteIndex(addr) ==>
        Pte(PdeIndex(addr), i) == if old(mem[0, PdeIndex(addr)]) % 2 == 1 then old(Pte(PdeIndex(addr), i)) else 0
    {
      hide Frame, PageMap.Valid, PageMap.Safe, Entry, FirstRun, LowestFree, PdeIndex, PteIndex, Mmu.TablesOk;
      var d := PdeIndex(addr);
      if mem[0, d] % 2 == 0 {
        OneLeftAny(pages.memMap[..]);
      }
      NeedTable(d);
      label Ready:
      var page := AllocPage();
      EntryLaws(page);
      forall i | 0 <= i < 1024
        ensures Pte(d, i) == if old(mem[0, d]) % 2 == 1 then old(Pte(d, i)) else 0
      {
        assert old@Ready(Pte(d, i)) == if old(mem[0, d]) % 2 == 1 then old(Pte(d, i)) else 0;
      }
      SetPte(d, PteIndex(addr), Entry(page));
    }

    /** `do_wp_page` for a page of the low megabyte: the task gets a copy of it, on a page nobody had.
        Beside that page only the faulting entry changes. */
    method DoWpPage(addr: Addr)
      requires Valid() && HasFree(pages.memMap[..])
      requires Has(PdeIndex(addr)) && 0 <= FrameOf(addr) < 256 // the page lies below LOW_MEM
      modifies mem, pages`runs, pages.memMap
      ensures Valid() && Pte(PdeIndex(addr), PteIndex(addr)) == FrameOf(addr) * 4096 + 7
      ensures CanWrite(Pte(PdeIndex(addr), PteIndex(addr)))
      ensures TookPage(old(pages.memMap[..]), pages.memMap[..], FrameOf(addr)) && NoTable(FrameOf(addr))
      ensures forall w :: 0 <= w < 1024 ==> mem[FrameOf(addr), w] == old(mem[FrameOf(addr), w])
      ensures forall f, w ::
                (0 <= f < 4096 && 0 <= w < 1024 && f != FrameOf(addr)
                 && !(f == Table(PdeIndex(addr)) && w == PteIndex(addr)))
                ==> mem[f, w] == old(mem[f, w])
      ensures forall c :: old(Has(c)) <==> Has(c)
      ensures forall c, j :: 0 <= j < 1024 && Has(c) && !(c == PdeIndex(addr) && j == PteIndex(addr)) ==>
                               Pte(c, j) == old(Pte(c, j))
      ensures old(WindowOk()) ==> WindowOk() && Alone(addr)
    {
      hide Frame, PageMap.Valid, PageMap.Safe, Entry, FirstRun, LowestFree, PdeIndex, PteIndex;
      var d := PdeIndex(addr);
      var page := AllocPage();
      EntryLaws(page);
      CopyPage(Frame(mem[Frame(mem[0, d]), PteIndex(addr)]), Frame(page));
      SetPte(d, PteIndex(addr), Entry(page));
    }

    /** A load by the running program, through the tables. */
    method Load(addr: Addr) returns (x: int)
      requires Valid() && Has(PdeIndex(addr)) && 0 <= FrameOf(addr) < 4096
      ensures x == mem[FrameOf(addr), WordIndex(addr)]
    {
      hide Frame;
      x := mem[Frame(mem[Frame(mem[0, PdeIndex(addr)]), PteIndex(addr)]), WordIndex(addr)];
    }

    /** A store by the running program, through the tables. */
    method Store(addr: Addr, x: int)
      requires Valid() && Has(PdeIndex(addr)) && CanWrite(Pte(PdeIndex(addr), PteIndex(addr)))
      requires 0 < FrameOf(addr) < 4096 && NoTable(FrameOf(addr))
      modifies mem
      ensures Valid() && (old(WindowOk()) ==> WindowOk())
      ensures forall d :: 0 <= d < 1024 ==> mem[0, d] == old(mem[0, d])
      ensures forall d, i :: 0 <= d < 1024 && 0 <= i < 1024 ==> Pte(d, i) == old(Pte(d, i))
      ensures forall f, w :: 0 <= f < 4096 && 0 <= w < 1024 ==>
                mem[f, w] == if f == FrameOf(addr) && w == WordIndex(addr) then x else old(mem[f, w])
    {
      hide Frame, PageMap.Valid, PageMap.Safe, PdeIndex, PteIndex, WordIndex;
      mem[Frame(mem[Frame(mem[0, PdeIndex(addr)]), PteIndex(addr)]), WordIndex(addr)] := x;
    }

    /** A child's first store to a shared page of the low megabyte: the fault and then the store. The
        child reads what the page held, with `x` in its place. All of memory afterwards is `Faulted` and
        then `WithWord` of the memory before. Under a table made by a fork or a fault, one from frame 256
        on, no other task reads another word in its first megabyte; what others see through all their
        entries is said by `FirstStoreSeen`. */
    method FirstStore(addr: Addr, x: int)
      requires Valid() && HasFree(pages.memMap[..])
      requires Has(PdeIndex(addr)) && 0 <= FrameOf(addr) < 256
      modifies mem, pages`runs, pages.memMap
      ensures Valid() && TookPage(old(pages.memMap[..]), pages.memMap[..], FrameOf(addr))
      ensures forall w :: 0 <= w < 1024 ==>
                mem[FrameOf(addr), w] == if w == WordIndex(addr) then x else old(mem[FrameOf(addr), w])
      ensures forall c :: old(Has(c)) <==> Has(c)
      ensures forall c, j :: 0 <= j < 1024 && Has(c) && !(c == PdeIndex(addr) && j == PteIndex(addr)) ==>
                               Pte(c, j) == old(Pte(c, j))
      ensures old(WindowOk()) ==> WindowOk() && Alone(addr)
      ensures forall c, j, w :: old(WindowOk()) && InWindow(c, j) && Has(c) && 0 <= w < 1024
                                && !(c == PdeIndex(addr) && j == PteIndex(addr))
                                && (Table(PdeIndex(addr)) >= 256 || Frame(Pte(c, j)) != Table(PdeIndex(addr)))
                                ==> mem[Frame(Pte(c, j)), w] == old(mem[Frame(Pte(c, j)), w])
      ensures var m, d, i, f := old(Memory()), PdeIndex(addr), PteIndex(addr), FrameOf(addr);
              MayCopy(m, d, i, f) && Memory() == WithWord(Faulted(m, d, i, f), f, WordIndex(addr), x)
    {
      hide Frame, PageMap.Valid, PageMap.Safe, PdeIndex, PteIndex, WordIndex, FirstRun;
      ghost var m := Memory();
      LowestCopies(addr);
      DoWpPage(addr);
      Store(addr, x);
      ghost var m1 := Faulted(m, PdeIndex(addr), PteIndex(addr), FrameOf(addr));
      SameImage(Memory(), WithWord(m1, FrameOf(addr), WordIndex(addr), x));
    }

    /** The lowest free page may take the copy. */
    lemma LowestCopies(addr: Addr)
      requires Valid() && Has(PdeIndex(addr)) && 0 <= FrameOf(addr) < 256
      ensures forall f :: LowestFree(pages.memMap[..], f) ==> MayCopy(Memory(), PdeIndex(addr), PteIndex(addr), f)
    {
      hide Frame, PageMap.Valid, PageMap.Safe, PdeIndex, PteIndex;
    }
  }

  lemma SameImage(m: Image, m': Image)
    requires forall f, w :: 0 <= f < 4096 && 0 <= w < 1024 ==> m[f][w] == m'[f][w]
    ensures m == m'
  {
    forall f | 0 <= f < 4096
      ensures m[f] == m'[f]
    {
    }
  }

  /** When other tasks see a first store at `addr`, in terms of the state before it: with `f` the lowest
      free page, and for the tables of any directory entries `ds` other than the faulting one, all 1024
      entries of each included, they see nothing of it, whatever is stored, if and only if no entry of
      theirs leads to `f` or to the faulting task's own table. */
  lemma FirstStoreSeen(mmu: Mmu, addr: Addr, f: int, ds: set<int>)
    requires mmu.Valid() && mmu.Has(PdeIndex(addr)) && 0 <= mmu.FrameOf(addr) < 256
    requires LowestFree(mmu.pages.memMap[..], f) && Others(mmu.Memory(), PdeIndex(addr), ds)
    ensures var d, i := PdeIndex(addr), PteIndex(addr);
            var m := mmu.Memory();
            && MayCopy(m, d, i, f)
            && (forall w, x: Word :: 0 <= w < 1024 ==> var m' := WithWord(Faulted(m, d, i, f), f, w, x);
                  TablesIn(m') && forall e :: e in ds ==> HasTable(m', e))
            && ((forall w, x: Word :: 0 <= w < 1024 ==> Isolated(m, WithWord(Faulted(m, d, i, f), f, w, x), ds))
                <==> forall e, j :: e in ds && 0 <= j < 1024 ==>
                                      Frame(mmu.Pte(e, j)) != f && Frame(mmu.Pte(e, j)) != mmu.Table(d))
  {
    hide Frame, TableOf, PdeIndex, PteIndex, Mmu.Valid, Faulted, MayCopy, LowestFree;
    mmu.LowestCopies(addr);
    FirstStoreIsolatedIff(mmu.Memory(), PdeIndex(addr), PteIndex(addr), f, ds);
  }

  /** Among forks that have not faulted themselves, the first store stays out of sight if and only if
      neither the lowest free page nor the faulting task's table lies in the first 4 MB. */
  lemma ForksSee(mmu: Mmu, addr: Addr, f: int, ds: set<int>)
    requires mmu.Valid() && mmu.Has(PdeIndex(addr)) && 0 <= mmu.FrameOf(addr) < 256
    requires LowestFree(mmu.pages.memMap[..], f) && Others(mmu.Memory(), PdeIndex(addr), ds)
    requires (exists e :: e in ds) && Forked(mmu.Memory(), ds)
    ensures var d, i := PdeIndex(addr), PteIndex(addr);
            var m := mmu.Memory();
            && MayCopy(m, d, i, f)
            && (forall w, x: Word :: 0 <= w < 1024 ==> var m' := WithWord(Faulted(m, d, i, f), f, w, x);
                  TablesIn(m') && forall e :: e in ds ==> HasTable(m', e))
            && ((forall w, x: Word :: 0 <= w < 1024 ==> Isolated(m, WithWord(Faulted(m, d, i, f), f, w, x), ds))
                <==> f >= 1024 && mmu.Table(d) >= 1024)
  {
    hide Frame, TableOf, PdeIndex, PteIndex, Mmu.Valid, Faulted, LowestFree, Mmu.FrameOf;
    FirstStoreSeen(mmu, addr, f, ds);
    var m := mmu.Memory();
    var e :| e in ds;
    ForkedApart(m, PdeIndex(addr), ds, e, f);
    ForkedApart(m, PdeIndex(addr), ds, e, TableOf(m, PdeIndex(addr)));
  }

  // ----- a first store that another task sees -----

  /** The pages handed out are the `k` lowest. */
  ghost predicate TakenLow(m: seq<int>, k: int) {
    |m| == NR_PAGES && forall p :: 0 <= p < NR_PAGES ==> m[p] == if p < k then 1 else 0
  }

  lemma NextLow(m: seq<int>, k: int)
    requires TakenLow(m, k) && 0 <= k < NR_PAGES
    ensures HasFree(m) && forall m', f :: TookPage(m, m', f) ==> f == 256 + k && TakenLow(m', k + 1)
  {
    assert m[k] == 0;
    OnlyAt(m, k);
    hide FirstRun;
  }

  /** The pages `sys_fork` takes for the child of task 0: its task structure and its table. */
  method ForkFirst(mmu: Mmu, pid: int, ghost k: int)
    requires mmu.Valid() && mmu.Has(0) && 0 < pid < 64 && !mmu.Has(16 * pid)
    requires 0 <= k < NR_PAGES - 1 && TakenLow(mmu.pages.memMap[..], k)
    modifies mmu.mem, mmu.pages`runs, mmu.pages.memMap
    ensures mmu.Valid() && TakenLow(mmu.pages.memMap[..], k + 2)
    ensures forall d :: old(mmu.Has(d)) ==> mmu.Has(d)
    ensures forall d :: d != 16 * pid && mmu.Has(d) ==> old(mmu.Has(d))
    ensures mmu.Has(16 * pid) && mmu.Table(16 * pid) == 257 + k
    ensures forall f, w :: 0 < f < 4096 && f != 257 + k && 0 <= w < 1024 ==> mmu.mem[f, w] == old(mmu.mem[f, w])
    ensures forall i :: 0 <= i < 1024 ==> mmu.Pte(16 * pid, i) == Shared(old(mmu.Pte(0, i)), i)
    ensures forall d, i :: 0 <= i < 1024 && old(mmu.Has(d)) ==> mmu.Pte(d, i) == old(mmu.Pte(d, i))
  {
    hide TakenLow, TookPage, HasFree, Frame, Shared, PageMap.Valid, PageMap.Safe, Mmu.TablesOk;
    NextLow(mmu.pages.memMap[..], k);
    var task := mmu.AllocPage();
    NextLow(mmu.pages.memMap[..], k + 1);
    assert PdeIndex(0) == 0 && PdeIndex(pid * 0x400_0000) == 16 * pid;
    mmu.ShareVma(0, pid * 0x400_0000, 640 * 1024);
  }

  /** The state after two forks of task 0: both children lead to the pages of task 0, and four pages are out. */
  method TwoForks(rest: (int, int) -> int) returns (mmu: Mmu)
    ensures fresh(mmu) && fresh(mmu.mem) && fresh(mmu.pages) && fresh(mmu.pages.memMap)
    ensures mmu.Valid() && mmu.Has(16) && mmu.Has(32) && TakenLow(mmu.pages.memMap[..], 4)
    ensures Frame(mmu.Pte(16, 0)) == 0 && Frame(mmu.Pte(32, 260)) == 260
    ensures mmu.mem[260, 0] == rest(260, 0)
  {
    hide TakenLow, TookPage, Frame, Shared, PageMap.Valid, PageMap.Safe, Mmu.TablesOk, InitMap;
    mmu := new Mmu(LOW_MEM, 0xff_ffff, rest);
    AllFree();
    ForkFirst(mmu, 1, 0);
    ForkFirst(mmu, 2, 2);
    SharedLaws(mmu.Pte(0, 0), 0);
    SharedLaws(mmu.Pte(0, 260), 260);
  }

  /** The first store of task 1 goes to frame 260, which task 2, forked before, has as page 260 of its own
      first 4 MB: it reads `x` there, and read what the frame held after boot before the store. */
  method SiblingSees(rest: (int, int) -> int, x: int) returns (mmu: Mmu, before: int)
    ensures mmu.Valid() && mmu.Has(16) && mmu.Has(32) && before == rest(260, 0)
    ensures mmu.FrameOf(0x400_0000) == 260 == mmu.FrameOf(0x800_0000 + 260 * 4096) && mmu.mem[260, 0] == x
  {
    hide TakenLow, TookPage, Frame, PageMap.Valid, PageMap.Safe, Mmu.TablesOk;
    mmu := TwoForks(rest);
    NextLow(mmu.pages.memMap[..], 4);
    assert PdeIndex(0x400_0000) == 16 && PteIndex(0x400_0000) == 0 == WordIndex(0x400_0000);
    var addr: Addr := 0x800_0000 + 260 * 4096;
    assert PdeIndex(addr) == 32 && PteIndex(addr) == 260 && WordIndex(addr) == 0;
    before := mmu.Load(addr);
    mmu.FirstStore(0x400_0000, x);
  }

  lemma AllFree()
    ensures TakenLow(InitMap(LOW_MEM, 0xff_ffff), 0)
  {
    assert Mmi(LOW_MEM) == 0 && Mmi(0xff_ffff) == NR_PAGES - 1;
  }
}
