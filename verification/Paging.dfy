/**
 Page tables and physical pages, on values (kernel/src/kernel/memory/mmu.c):
 binding, unbinding and allocating pages, and the two-level translation of the
 processor (Intel SDM volume 3A, section 4.3). Shifts and masks of addresses are
 written as divisions: addr >> 12 is addr / 4096, and so on.
 */
module Paging {
  import opened Machine
  import opened PageBits

  const PAGE_SIZE := 4096
  const TABLE_SIZE := 4194304
  const VIRT_BASE := 0xC000_0000
  const KERNEL_PAGES_END := 0xC200_0000  // VIRT_BASE + 8 tables
  const TASKS_START := 0x200_0000        // PHYS_TASKS_SPACE_START
  const TASKS_END := 0x400_0000          // PHYS_TASKS_SPACE_END
  const BITMAP_WORDS := 512              // 32 words for each of 16 tables

  /** The written fields of a directory or table entry; `page` is the 20-bit frame number. */
  datatype Entry = Entry(present: bool, writable: bool, user: bool, page: nat)

  const ZeroEntry := Entry(false, false, false, 0)

  type Table = seq<Entry>

  function Pte(lin: u32): nat { lin / 4096 % 1024 }

  function Pde(lin: u32): nat { lin / 4194304 }

  /** The linear addresses that bind_page and unbind_page refuse to touch. */
  predicate KernelLinear(lin: u32) {
    VIRT_BASE < lin < KERNEL_PAGES_END
  }

  /** simple_page_bitmap_callback: pages beyond the bitmap are not tracked. */
  function Track(bm: Bitmap, phys: u32, value: bool): (r: Bitmap)
    requires |bm| == BITMAP_WORDS
    ensures |r| == BITMAP_WORDS
  {
    if phys / 131072 < BITMAP_WORDS then Mark(bm, phys / 4096, value) else bm
  }

  /** The guard at the top of bind_page; `ops` is kernel_pages_operations. */
  predicate BindRefused(lin: u32, phys: u32, ops: bool) {
    !ops && (KernelLinear(lin) || phys < TASKS_START)
  }

  /** A bitmap and one page table. */
  datatype Space = Space(bm: Bitmap, table: Table)

  /** bind_page with simple_page_bitmap_callback, for a table that starts at entry `off`. */
  function Bind(s: Space, off: nat, lin: u32, phys: u32, ops: bool): Space
    requires |s.bm| == BITMAP_WORDS && off + Pte(lin) < |s.table|
  {
    if BindRefused(lin, phys, ops) then s
    else
      var e := off + Pte(lin);
      Space(Track(s.bm, phys, true), s.table[e := Entry(true, true, false, phys / 4096)])
  }

  /** unbind_page. */
  function Unbind(s: Space, lin: u32, ops: bool): Space
    requires |s.bm| == BITMAP_WORDS && Pte(lin) < |s.table|
  {
    if KernelLinear(lin) && !ops then s
    else
      var e := s.table[Pte(lin)];
      Space(Track(s.bm, Wrap(e.page * 4096), false), s.table[Pte(lin) := e.(present := false, page := 0)])
  }

  /** The first unmarked page of the task zone from page p on, or the zone's end. */
  function FirstFree(bm: Bitmap, p: nat): (r: nat)
    requires |bm| == BITMAP_WORDS && TASKS_START / 4096 <= p <= TASKS_END / 4096
    ensures p <= r <= TASKS_END / 4096
    ensures r < TASKS_END / 4096 ==> !Marked(bm, r)
    ensures forall q :: p <= q < r ==> Marked(bm, q)
    decreases TASKS_END / 4096 - p
  {
    if p == TASKS_END / 4096 || !Marked(bm, p) then p else FirstFree(bm, p + 1)
  }

  /** alloc_page: the physical address returned, 0 for none, and the space after it. */
  function Alloc(s: Space, lin: u32, ops: bool): (Space, u32)
    requires |s.bm| == BITMAP_WORDS && Pte(lin) < |s.table|
  {
    var p := FirstFree(s.bm, TASKS_START / 4096);
    if p == TASKS_END / 4096 then (s, 0) else (Bind(s, 0, lin, p * 4096, ops), p * 4096)
  }

  // ---- what one call means ---------------------------------------------------------

  predicate TaskPage(page: nat) {
    TASKS_START / 4096 <= page < TASKS_END / 4096
  }

  /**
   alloc_page outside the kernel range: 0 exactly when every task page is marked; else the
   lowest unmarked task page, which is now marked and held by the entry, and nothing else changes.
   */
  lemma AllocResult(s: Space, lin: u32)
    requires |s.bm| == BITMAP_WORDS && Pte(lin) < |s.table| && !KernelLinear(lin)
    ensures var (r, phys) := Alloc(s, lin, false);
            var p := phys / 4096;
            && (phys == 0 <==> forall q :: TaskPage(q) ==> Marked(s.bm, q))
            && (phys == 0 ==> r == s)
            && (phys != 0 ==>
                  && phys == p * 4096 && TaskPage(p) && !Marked(s.bm, p)
                  && (forall q :: TASKS_START / 4096 <= q < p ==> Marked(s.bm, q))
                  && |r.bm| == BITMAP_WORDS
                  && (forall q :: 0 <= q < 32 * BITMAP_WORDS ==> Marked(r.bm, q) == (q == p || Marked(s.bm, q)))
                  && r.table == s.table[Pte(lin) := Entry(true, true, false, p)])
  {
    hide Marked, Mark;
    var p := FirstFree(s.bm, TASKS_START / 4096);
    if p < TASKS_END / 4096 {
      forall q | 0 <= q < 32 * BITMAP_WORDS ensures Marked(Mark(s.bm, p, true), q) == (q == p || Marked(s.bm, q)) {
        MarkExactly(s.bm, p, true, q);
      }
      assert TaskPage(p);
    }
  }

  /** alloc_page reserves the page it returns exactly when the linear address is outside the kernel range. */
  lemma AllocReserves(s: Space, lin: u32)
    requires |s.bm| == BITMAP_WORDS && Pte(lin) < |s.table| && Alloc(s, lin, false).1 != 0
    ensures Marked(Alloc(s, lin, false).0.bm, Alloc(s, lin, false).1 / 4096) <==> !KernelLinear(lin)
    ensures KernelLinear(lin) ==> Alloc(Alloc(s, lin, false).0, lin, false).1 == Alloc(s, lin, false).1
  {
    hide Marked, Mark;
    var p := FirstFree(s.bm, TASKS_START / 4096);
    MarkExactly(s.bm, p, true, p);
  }

  /** Unbinding a page that was just allocated into an absent entry gives back the same bitmap and an absent entry. */
  lemma AllocThenUnbind(s: Space, lin: u32)
    requires |s.bm| == BITMAP_WORDS && Pte(lin) < |s.table| && !KernelLinear(lin)
    requires Alloc(s, lin, false).1 != 0
    ensures var r := Unbind(Alloc(s, lin, false).0, lin, false);
            r.bm == s.bm && r.table == s.table[Pte(lin) := Entry(false, true, false, 0)]
  {
    hide Marked, Mark;
    var p := FirstFree(s.bm, TASKS_START / 4096);
    MarkUndone(s.bm, p);
  }

  /**
   bind_page: nothing when it is refused; else the entry holds the frame, whatever it held before, and the
   bitmap gains exactly that page, if it reaches that far.
   */
  lemma BindResult(s: Space, off: nat, lin: u32, phys: u32, ops: bool)
    requires |s.bm| == BITMAP_WORDS && off + Pte(lin) < |s.table|
    ensures var r := Bind(s, off, lin, phys, ops);
            && (!ops && (0xC000_0000 < lin < 0xC200_0000 || phys < 0x200_0000) ==> r == s)
            && (ops || !(0xC000_0000 < lin < 0xC200_0000 || phys < 0x200_0000) ==>
                  && |r.bm| == BITMAP_WORDS
                  && r.table == s.table[off + Pte(lin) := Entry(true, true, false, phys / 4096)]
                  && forall q :: 0 <= q < 16384 ==> Marked(r.bm, q) == (q == phys / 4096 || Marked(s.bm, q)))
  {
    hide Marked, Mark;
    if phys / 4096 < 16384 {
      forall q | 0 <= q < 16384
        ensures Marked(Mark(s.bm, phys / 4096, true), q) == (q == phys / 4096 || Marked(s.bm, q))
      {
        MarkExactly(s.bm, phys / 4096, true, q);
      }
    }
  }

  /**
   unbind_page outside the kernel range, whatever the entry holds: the page's bit is cleared, no other
   one; the entry is absent and names frame 0. So unbinding an absent entry unmarks physical page 0.
   */
  lemma UnbindResult(s: Space, lin: u32)
    requires |s.bm| == BITMAP_WORDS && Pte(lin) < |s.table| && !KernelLinear(lin)
    requires s.table[Pte(lin)].page < 16384
    ensures var r, e := Unbind(s, lin, false), s.table[Pte(lin)];
            && |r.bm| == BITMAP_WORDS
            && (forall q :: 0 <= q < 16384 ==> Marked(r.bm, q) == (q != e.page && Marked(s.bm, q)))
            && r.table == s.table[Pte(lin) := Entry(false, e.writable, e.user, 0)]
  {
    hide Marked, Mark;
    var page := s.table[Pte(lin)].page;
    forall q | 0 <= q < 16384 ensures Marked(Mark(s.bm, page, false), q) == (q != page && Marked(s.bm, q)) {
      MarkExactly(s.bm, page, false, q);
    }
  }

  /** The two ends of the task zone: the first page is handed out first, the last one last, and then none. */
  lemma ZoneEnds(s: Space, lin: u32)
    requires |s.bm| == BITMAP_WORDS && Pte(lin) < |s.table| && !KernelLinear(lin)
    ensures !Marked(s.bm, 8192) ==> Alloc(s, lin, false).1 == 0x200_0000
    ensures (forall q :: 8192 <= q < 16383 ==> Marked(s.bm, q)) ==>
              Alloc(s, lin, false).1 == if Marked(s.bm, 16383) then 0 else 0x3FF_F000
  {
    hide Marked, Bind;
    assert FirstFree(s.bm, 8192) < 8192 + 1 || Marked(s.bm, 8192);
  }

  /** The edges of the guards: which addresses are refused, and which pages are tracked. */
  lemma GuardEdges(bm: Bitmap, value: bool)
    requires |bm| == BITMAP_WORDS
    ensures KernelLinear(0xC000_0001) && KernelLinear(0xC1FF_FFFF)
    ensures !KernelLinear(0xC000_0000) && !KernelLinear(0xC200_0000)
    ensures BindRefused(0, 0x1FF_FFFF, false) && !BindRefused(0, 0x200_0000, false)
    ensures !BindRefused(0xC100_0000, 0, true)
    ensures Track(bm, 0x400_0000, value) == bm && Marked(Track(bm, 0x3FF_F000, value), 16383) == value
  {
    MarkExactly(bm, 16383, value, 16383);
  }

  // ---- translation --------------------------------------------------------------------

  /** The page tables that lie in memory, by the frame number of the page each fills. */
  type Tables = map<nat, Table>

  /** The processor's walk from a directory through a table to a physical address. */
  function Translate(dir: Table, tables: Tables, lin: u32): Option<nat>
    requires |dir| == 1024
  {
    var d := dir[Pde(lin)];
    if !d.present || d.page !in tables || Pte(lin) >= |tables[d.page]| then None
    else
      var e := tables[d.page][Pte(lin)];
      if !e.present then None else Some(e.page * 4096 + lin % 4096)
  }

  /** bind_table, for a table that lies at the (page-aligned) linear address pt. */
  function BindTable(dir: Table, pt: u32, lin: u32, ops: bool): Table
    requires |dir| == 1024
  {
    if KernelLinear(lin) && !ops then dir
    else dir[Pde(lin) := Entry(true, true, false, Wrap(pt - VIRT_BASE) / 4096)]
  }
}
