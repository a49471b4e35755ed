/** What a loaded program finds in its address space. */
module ElfLoad {
  import opened Machine
  import opened PageBits
  import opened Paging
  import opened ElfImage
  import P = PagingRuns

  /** The memory of all tasks when task t has the space s. */
  function All(others: map<nat, Table>, t: nat, s: Space): P.Spaces {
    P.Spaces(s.bm, others[t := s.table])
  }

  /** The unmarked pages of the task zone. */
  ghost function Free(bm: Bitmap): set<nat>
    requires |bm| == BITMAP_WORDS
  {
    set q: nat | q < TASKS_END / 4096 && TaskPage(q) && !Marked(bm, q)
  }

  ghost predicate Sized(s: Space) {
    |s.bm| == BITMAP_WORDS && |s.table| == TASK_PAGES
  }

  // ---- mapping --------------------------------------------------------------------

  /** One alloc_page with a page to spare: its entry becomes present, all others stay. */
  lemma MapOne(others: map<nat, Table>, t: nat, s: Space, lin: u32)
    requires Sized(s) && P.Inv(All(others, t, s))
    requires lin / 4096 < TASK_PAGES && Free(s.bm) != {}
    ensures var r := Alloc(s, lin, false).0;
            && Sized(r) && P.Inv(All(others, t, r))
            && |Free(r.bm)| == |Free(s.bm)| - 1
            && r.table == s.table[lin / 4096 := r.table[lin / 4096]] && r.table[lin / 4096].present
  {
    hide Alloc, Marked, P.Inv;
    AllocResult(s, lin);
    var (r, phys) := Alloc(s, lin, false);
    var q :| q in Free(s.bm);
    assert phys != 0;
    var m := All(others, t, s);
    P.AllocKeepsInv(m, t, lin);
    assert m.tables[t := r.table] == others[t := r.table];
    assert Free(r.bm) == Free(s.bm) - {phys / 4096};
  }

  lemma {:induction false} MapAll(others: map<nat, Table>, t: nat, s: Space, vaddr: u32, i: nat, n: nat)
    requires Sized(s) && P.Inv(All(others, t, s))
    requires i <= n && vaddr / 4096 + n <= TASK_PAGES && |Free(s.bm)| >= n - i
    ensures var r, first := MapRange(s, vaddr, i, n), vaddr / 4096;
            && Sized(r) && P.Inv(All(others, t, r))
            && |Free(r.bm)| == |Free(s.bm)| - (n - i)
            && forall e :: 0 <= e < TASK_PAGES ==>
                 if first + i <= e < first + n then r.table[e].present else r.table[e] == s.table[e]
    decreases n - i
  {
    hide P.Inv, Free, Alloc;
    if i < n {
      assert (vaddr + i * 4096) / 4096 == vaddr / 4096 + i;
      MapOne(others, t, s, vaddr + i * 4096);
      MapAll(others, t, Alloc(s, vaddr + i * 4096, false).0, vaddr, i + 1, n);
    }
  }

  // ---- copying ---------------------------------------------------------------------

  ghost predicate Injective(table: Table) {
    forall e, f :: 0 <= e < |table| && 0 <= f < |table| && table[e].present && table[f].present ==>
      table[e].page == table[f].page ==> e == f
  }

  lemma InjectiveFromInv(others: map<nat, Table>, t: nat, s: Space)
    requires P.Inv(All(others, t, s))
    ensures Injective(s.table)
  {
    var m := All(others, t, s);
    forall e: nat, f: nat | e < |s.table| && f < |s.table| && s.table[e].present && s.table[f].present
                  && s.table[e].page == s.table[f].page ensures e == f {
      assert P.Holds(m, t, e, s.table[e].page) && P.Holds(m, t, f, s.table[e].page);
    }
  }

  /** Different linear addresses have different physical ones. */
  lemma LocateInjective(table: Table, a: nat, b: nat)
    requires Injective(table) && Locate(table, a).Some? && Locate(table, a) == Locate(table, b)
    ensures a == b
  {
    var p, q := table[a / 4096].page, table[b / 4096].page;
    assert p * 4096 + a % 4096 == q * 4096 + b % 4096;
    assert p == q;
  }

  ghost predicate AllLocated(table: Table, lin: nat, n: nat) {
    forall a: nat {:trigger Locate(table, a)} :: lin <= a < lin + n ==> Locate(table, a).Some?
  }

  /** A copy puts each byte where its linear address translates to, and writes nothing else. */
  lemma {:induction false} CopyPuts(phys: Memory, table: Table, lin: nat, bytes: seq<byte>)
    requires Injective(table) && AllLocated(table, lin, |bytes|)
    ensures CopyIn(phys, table, lin, bytes).Some?
    ensures forall a: nat {:trigger Locate(table, a)} :: Locate(table, a).Some? ==>
              Peek(CopyIn(phys, table, lin, bytes).value, Locate(table, a).value)
              == if lin <= a < lin + |bytes| then bytes[a - lin] else Peek(phys, Locate(table, a).value)
    decreases |bytes|
  {
    hide Locate, Injective;
    if bytes != [] {
      assert Locate(table, lin).Some?;
      var p := Locate(table, lin).value;
      var next := phys[p := bytes[0]];
      CopyPuts(next, table, lin + 1, bytes[1..]);
      forall a: nat | Locate(table, a).Some? ensures Locate(table, a).value == p ==> a == lin {
        if Locate(table, a).value == p {
          LocateInjective(table, a, lin);
        }
      }
    }
  }

  // ---- segments ----------------------------------------------------------------------

  /** The pages elf_exec maps reach to the end of the segment. */
  predicate Covered(g: Segment) {
    g.vaddr % 4096 + g.memsz % 4096 <= 4096
  }

  /** The linear address lies in the pages mapped for the segment. */
  predicate InPages(g: Segment, a: int) {
    FirstPage(g) <= a / 4096 < FirstPage(g) + PageCount(g)
  }

  /** The first n bytes of a segment lie in its pages exactly when they end there. */
  lemma EndsInside(g: Segment, n: nat)
    requires g.memsz > 0
    ensures g.vaddr % 4096 + n <= 4096 * PageCount(g) <==>
              forall a: nat :: g.vaddr <= a < g.vaddr + n ==> InPages(g, a)
  {
    if g.vaddr % 4096 + n <= 4096 * PageCount(g) {
      forall a: nat | g.vaddr <= a < g.vaddr + n ensures InPages(g, a) {
        assert a < 4096 * (FirstPage(g) + PageCount(g));
      }
    } else {
      var last := g.vaddr + n - 1;
      assert last >= 4096 * (FirstPage(g) + PageCount(g));
      assert !InPages(g, last);
    }
  }

  /** memsz / PAGE_SIZE + 1 pages from the first hold the segment exactly when its two odd ends fit one page. */
  lemma CoveredExactly(g: Segment)
    requires g.memsz > 0
    ensures Covered(g) <==> forall a: nat :: g.vaddr <= a < g.vaddr + g.memsz ==> InPages(g, a)
  {
    hide InPages;
    EndsInside(g, g.memsz);
  }

  /** What the loader needs of a segment: its pages in the table, its bytes in the file. */
  predicate WellPlaced(g: Segment, file: seq<byte>) {
    && g.offset + g.filesz <= |file|
    && g.filesz <= g.memsz
    && (g.memsz > 0 ==> FirstPage(g) + PageCount(g) <= TASK_PAGES && Covered(g))
  }

  predicate Apart(g: Segment, h: Segment) {
    || g.memsz == 0 || h.memsz == 0
    || FirstPage(g) + PageCount(g) <= FirstPage(h) || FirstPage(h) + PageCount(h) <= FirstPage(g)
  }

  /** Every byte of the segment is mapped, and the file's bytes, or zeros, are there. */
  ghost predicate Loaded(im: Image, file: seq<byte>, g: Segment)
    requires g.offset + g.filesz <= |file|
  {
    forall a: nat {:trigger Locate(im.space.table, a)} :: g.vaddr <= a < g.vaddr + g.memsz ==>
      && Locate(im.space.table, a).Some?
      && (a < g.vaddr + |Contents(file, g)| ==>
            Peek(im.phys, Locate(im.space.table, a).value) == Contents(file, g)[a - g.vaddr])
  }

  /** The state of the loop: sizes, the sharing invariant, and how many pages were taken. */
  ghost predicate Loading(im: Image, others: map<nat, Table>, t: nat) {
    Sized(im.space) && P.Inv(All(others, t, im.space))
  }

  function Needed(g: Segment): nat {
    if g.memsz == 0 then 0 else PageCount(g)
  }

  lemma LoadOne(im: Image, others: map<nat, Table>, t: nat, file: seq<byte>, g: Segment)
    requires Loading(im, others, t) && WellPlaced(g, file)
    requires |im.pages| + Needed(g) <= TASK_PAGES && Needed(g) <= |Free(im.space.bm)|
    ensures var r := LoadSegment(im, file, g);
            && r.Some? && Loading(r.value, others, t) && Loaded(r.value, file, g)
            && |r.value.pages| == |im.pages| + Needed(g)
            && |Free(r.value.space.bm)| == |Free(im.space.bm)| - Needed(g)
  {
    hide P.Inv, Free, MapRange, CopyIn, Injective, Locate;
    if g.memsz > 0 {
      var s := MapRange(im.space, g.vaddr, 0, PageCount(g));
      MapAll(others, t, im.space, g.vaddr, 0, PageCount(g));
      InjectiveFromInv(others, t, s);
      Mapped(s.table, g);
      CopyPuts(im.phys, s.table, g.vaddr, Contents(file, g));
    }
  }

  /** When all pages of a covered segment are present, all its bytes translate. */
  lemma Mapped(table: Table, g: Segment)
    requires g.memsz > 0 && Covered(g) && |table| == TASK_PAGES && FirstPage(g) + PageCount(g) <= TASK_PAGES
    requires forall e :: FirstPage(g) <= e < FirstPage(g) + PageCount(g) ==> table[e].present
    ensures AllLocated(table, g.vaddr, g.memsz)
  {
    CoveredExactly(g);
    forall a: nat | g.vaddr <= a < g.vaddr + g.memsz ensures Locate(table, a).Some? {
      assert InPages(g, a);
    }
  }

  /** Loading one segment leaves a segment on other pages as it was loaded. */
  lemma LoadKeepsOthers(im: Image, others: map<nat, Table>, t: nat, file: seq<byte>, g: Segment, h: Segment)
    requires Loading(im, others, t) && WellPlaced(g, file) && WellPlaced(h, file) && Apart(g, h)
    requires |im.pages| + Needed(g) <= TASK_PAGES && Needed(g) <= |Free(im.space.bm)|
    requires Loaded(im, file, h)
    ensures LoadSegment(im, file, g).Some? && Loaded(LoadSegment(im, file, g).value, file, h)
  {
    hide P.Inv, Free, MapRange, CopyIn, Injective;
    LoadOne(im, others, t, file, g);
    if g.memsz > 0 && h.memsz > 0 {
      var s := MapRange(im.space, g.vaddr, 0, PageCount(g));
      MapAll(others, t, im.space, g.vaddr, 0, PageCount(g));
      InjectiveFromInv(others, t, s);
      Mapped(s.table, g);
      CopyPuts(im.phys, s.table, g.vaddr, Contents(file, g));
      CoveredExactly(g);
      CoveredExactly(h);
      var r := LoadSegment(im, file, g).value;
      forall a: nat | h.vaddr <= a < h.vaddr + h.memsz
        ensures Locate(r.space.table, a) == Locate(im.space.table, a)
        ensures !(g.vaddr <= a < g.vaddr + |Contents(file, g)|)
      {
        assert InPages(h, a);
        assert r.space.table[a / 4096] == im.space.table[a / 4096];
        assert g.vaddr <= a < g.vaddr + g.memsz ==> InPages(g, a);
      }
    }
  }

  // ---- when one segment loads -----------------------------------------------------------

  /** A copy comes to its end exactly when every byte of it translates. */
  lemma {:induction false} CopyFaults(phys: Memory, table: Table, lin: nat, bytes: seq<byte>)
    ensures CopyIn(phys, table, lin, bytes).Some? <==> AllLocated(table, lin, |bytes|)
    decreases |bytes|
  {
    hide Locate;
    if bytes != [] {
      assert AllLocated(table, lin, |bytes|) <==>
             Locate(table, lin).Some? && AllLocated(table, lin + 1, |bytes| - 1);
      if Locate(table, lin).Some? {
        CopyFaults(phys[Locate(table, lin).value := bytes[0]], table, lin + 1, bytes[1..]);
      }
    }
  }

  /** A table without any present entry, and pages enough for the segment. */
  ghost predicate FreshFor(im: Image, others: map<nat, Table>, t: nat, g: Segment) {
    && Loading(im, others, t)
    && (forall e :: 0 <= e < TASK_PAGES ==> !im.space.table[e].present)
    && FirstPage(g) + PageCount(g) <= TASK_PAGES
    && |im.pages| + PageCount(g) <= TASK_PAGES
    && PageCount(g) <= |Free(im.space.bm)|
  }

  /** In a fresh table the loop maps exactly its pages: they hold the whole segment exactly when it is covered. */
  lemma MappedExactly(im: Image, others: map<nat, Table>, t: nat, g: Segment)
    requires FreshFor(im, others, t, g) && g.memsz > 0
    ensures var table := MapRange(im.space, g.vaddr, 0, PageCount(g)).table;
            && (forall a: nat :: Locate(table, a).Some? <==> InPages(g, a))
            && (AllLocated(table, g.vaddr, g.memsz) <==> Covered(g))
  {
    hide P.Inv, Free, MapRange;
    MapAll(others, t, im.space, g.vaddr, 0, PageCount(g));
    CoveredExactly(g);
  }

  /**
   In a fresh table a segment loads exactly when its contents end inside its last page. For a
   segment that the file holds in full, or not at all, that is when it is covered; else a page fault.
   */
  lemma LoadsExactly(im: Image, others: map<nat, Table>, t: nat, file: seq<byte>, g: Segment)
    requires FreshFor(im, others, t, g) && g.memsz > 0 && g.offset + g.filesz <= |file|
    ensures LoadSegment(im, file, g).Some?
       <==> g.vaddr % 4096 + |Contents(file, g)| <= 4096 * PageCount(g)
    ensures g.filesz == 0 || g.filesz == g.memsz ==> (LoadSegment(im, file, g).Some? <==> Covered(g))
  {
    hide P.Inv, Free, MapRange, CopyIn, Locate, InPages, Contents;
    var table, n := MapRange(im.space, g.vaddr, 0, PageCount(g)).table, |Contents(file, g)|;
    MappedExactly(im, others, t, g);
    CopyFaults(im.phys, table, g.vaddr, Contents(file, g));
    EndsInside(g, n);
    FullContents(file, g);
  }

  lemma FullContents(file: seq<byte>, g: Segment)
    requires g.offset + g.filesz <= |file|
    ensures g.filesz == 0 || g.filesz == g.memsz ==> |Contents(file, g)| == g.memsz
  {
  }

  /** A segment without memory is skipped, whatever the file holds for it; the 33rd page of one is too many. */
  lemma Skipped(im: Image, file: seq<byte>, g: Segment)
    requires |im.space.bm| == BITMAP_WORDS && |im.space.table| == TASK_PAGES && g.offset + g.filesz <= |file|
    ensures g.memsz == 0 ==> LoadSegment(im, file, g) == Some(im)
    ensures g.memsz >= 32 * 4096 ==> LoadSegment(im, file, g) == None
  {
  }

  /** Two bytes on either side of a page border get one page, and the copy faults at the second. */
  lemma BorderFaults(bm: Bitmap, others: map<nat, Table>, t: nat, phys: Memory)
    requires P.Inv(P.Spaces(bm, others)) && t !in others && |bm| == BITMAP_WORDS && Free(bm) != {}
    ensures var im := Image(Space(bm, seq(TASK_PAGES, _ => ZeroEntry)), phys, []);
            LoadSegment(im, [1, 2], Segment(0, 4095, 2, 2)) == None
  {
    hide P.Inv, Free;
    var im := Image(Space(bm, seq(TASK_PAGES, _ => ZeroEntry)), phys, []);
    FreshTable(bm, others, t);
    LoadsExactly(im, others, t, [1, 2], Segment(0, 4095, 2, 2));
  }

  // ---- the whole program --------------------------------------------------------------

  predicate AllWellPlaced(gs: seq<Segment>, file: seq<byte>) {
    forall g :: g in gs ==> WellPlaced(g, file)
  }

  predicate AllApart(gs: seq<Segment>) {
    forall i, j :: 0 <= i < j < |gs| ==> Apart(gs[i], gs[j])
  }

  function TotalNeeded(gs: seq<Segment>): nat {
    if gs == [] then 0 else Needed(gs[0]) + TotalNeeded(gs[1..])
  }

  lemma {:induction false} LoadRest(im: Image, others: map<nat, Table>, t: nat, file: seq<byte>,
                                    done: seq<Segment>, gs: seq<Segment>)
    requires Loading(im, others, t) && AllWellPlaced(done + gs, file) && AllApart(done + gs)
    requires forall g :: g in gs ==> g.offset + g.filesz <= |file|
    requires |im.pages| + TotalNeeded(gs) <= TASK_PAGES && TotalNeeded(gs) <= |Free(im.space.bm)|
    requires forall i {:trigger done[i]} :: 0 <= i < |done| ==>
               done[i].offset + done[i].filesz <= |file| && Loaded(im, file, done[i])
    ensures var r := Load(im, file, gs);
            && r.Some? && Loading(r.value, others, t)
            && forall i {:trigger (done + gs)[i]} :: 0 <= i < |done + gs| ==>
                 (done + gs)[i].offset + (done + gs)[i].filesz <= |file| && Loaded(r.value, file, (done + gs)[i])
    decreases |gs|
  {
    hide Loading, Loaded, Free, LoadSegment, WellPlaced, Apart;
    if gs == [] {
      assert done + gs == done;
    } else {
      var g := gs[0];
      assert g == (done + gs)[|done|];
      assert WellPlaced(g, file);
      LoadOne(im, others, t, file, g);
      SizedOf(im, others, t);
      var next := LoadSegment(im, file, g).value;
      forall i | 0 <= i < |done| ensures Loaded(next, file, done[i]) {
        assert (done + gs)[i] == done[i];
        assert WellPlaced(done[i], file);
        assert Apart(done[i], g);
        ApartSymmetric(done[i], g);
        LoadKeepsOthers(im, others, t, file, g, done[i]);
      }
      assert done + [g] + gs[1..] == done + gs;
      LoadRest(next, others, t, file, done + [g], gs[1..]);
    }
  }

  lemma SizedOf(im: Image, others: map<nat, Table>, t: nat)
    requires Loading(im, others, t)
    ensures Sized(im.space)
  {
  }

  lemma ApartSymmetric(g: Segment, h: Segment)
    requires Apart(g, h)
    ensures Apart(h, g)
  {
  }

  /** The pages of one segment, and of several. */
  ghost function PagesOf(g: Segment): (r: set<nat>)
    ensures |r| == Needed(g)
    ensures forall e :: e in r <==> FirstPage(g) <= e < FirstPage(g) + Needed(g)
  {
    Interval(FirstPage(g), Needed(g))
  }

  ghost function Interval(a: nat, n: nat): (r: set<nat>)
    ensures |r| == n && forall e :: e in r <==> a <= e < a + n
  {
    if n == 0 then {} else Interval(a, n - 1) + {a + n - 1}
  }

  ghost function AllPages(gs: seq<Segment>): set<nat> {
    if gs == [] then {} else PagesOf(gs[0]) + AllPages(gs[1..])
  }

  lemma ApartPages(g: Segment, h: Segment)
    requires Apart(g, h)
    ensures PagesOf(g) !! PagesOf(h)
  {
  }

  lemma WithinTable(g: Segment, file: seq<byte>)
    requires WellPlaced(g, file)
    ensures PagesOf(g) <= Interval(0, TASK_PAGES)
  {
  }

  lemma {:induction false} ApartFromAll(g: Segment, gs: seq<Segment>)
    requires forall i :: 0 <= i < |gs| ==> Apart(g, gs[i])
    ensures PagesOf(g) !! AllPages(gs)
  {
    hide Apart, PagesOf;
    if gs != [] {
      ApartPages(g, gs[0]);
      ApartFromAll(g, gs[1..]);
    }
  }

  /** Segments on different pages of one table never overflow task_mem.pages. */
  lemma {:induction false} PagesFit(gs: seq<Segment>, file: seq<byte>)
    requires AllWellPlaced(gs, file) && AllApart(gs)
    ensures |AllPages(gs)| == TotalNeeded(gs) <= TASK_PAGES
    ensures AllPages(gs) <= Interval(0, TASK_PAGES)
  {
    hide Apart, WellPlaced, PagesOf, Interval;
    if gs != [] {
      var rest := gs[1..];
      forall i, j | 0 <= i < j < |rest| ensures Apart(rest[i], rest[j]) {
        assert Apart(gs[i + 1], gs[j + 1]);
      }
      forall i | 0 <= i < |rest| ensures Apart(gs[0], rest[i]) {
        assert Apart(gs[0], gs[i + 1]);
      }
      PagesFit(rest, file);
      ApartFromAll(gs[0], rest);
      WithinTable(gs[0], file);
    }
    SubsetSize(AllPages(gs), Interval(0, TASK_PAGES));
  }

  lemma SubsetSize(a: set<nat>, b: set<nat>)
    requires a <= b
    ensures |a| <= |b|
  {
    assert b == a + (b - a);
  }

  /** create_page_table and the other tables make a sound start. */
  lemma FreshTable(bm: Bitmap, others: map<nat, Table>, t: nat)
    requires P.Inv(P.Spaces(bm, others)) && t !in others
    ensures P.Inv(All(others, t, Space(bm, seq(TASK_PAGES, _ => ZeroEntry))))
  {
    P.NewTableKeepsInv(P.Spaces(bm, others), t, TASK_PAGES);
  }

  /**
   Loading is correct: for segments on separate pages of the first 32, with enough free pages,
   the loop succeeds; afterwards every byte of every segment translates, the file's bytes are
   read back through the new directory, bss reads as zero, and the pages are task pages that
   no other linear page of any task maps.
   */
  lemma LoadCorrect(bm: Bitmap, others: map<nat, Table>, t: nat, phys: Memory, file: seq<byte>, gs: seq<Segment>)
    requires P.Inv(P.Spaces(bm, others)) && t !in others
    requires AllWellPlaced(gs, file) && AllApart(gs)
    requires TotalNeeded(gs) <= |Free(bm)|
    ensures forall g :: g in gs ==> g.offset + g.filesz <= |file|
    ensures var start := Image(Space(bm, seq(TASK_PAGES, _ => ZeroEntry)), phys, []);
            var r := Load(start, file, gs);
            && r.Some?
            && P.Inv(All(others, t, r.value.space))
            && forall i {:trigger gs[i]} :: 0 <= i < |gs| ==> Loaded(r.value, file, gs[i])
  {
    hide P.Inv, Loaded, Load, AllWellPlaced, AllApart, Free, TotalNeeded, AllPages, Interval;
    var start := Image(Space(bm, seq(TASK_PAGES, _ => ZeroEntry)), phys, []);
    WithinFile(gs, file);
    FreshTable(bm, others, t);
    PagesFit(gs, file);
    BitmapSize(bm, others);
    assert [] + gs == gs;
    LoadRest(start, others, t, file, [], gs);
  }

  lemma WithinFile(gs: seq<Segment>, file: seq<byte>)
    requires AllWellPlaced(gs, file)
    ensures forall g :: g in gs ==> g.offset + g.filesz <= |file|
  {
    assert forall g :: g in gs ==> WellPlaced(g, file);
  }

  lemma BitmapSize(bm: Bitmap, others: map<nat, Table>)
    requires P.Inv(P.Spaces(bm, others))
    ensures |bm| == BITMAP_WORDS
  {
  }

  /** What Loaded and the sharing invariant say for one byte of a loaded program. */
  lemma ByteOfSegment(im: Image, others: map<nat, Table>, t: nat, file: seq<byte>, g: Segment, k: nat)
    requires Loading(im, others, t) && WellPlaced(g, file) && Loaded(im, file, g) && k < g.memsz
    ensures var at := Locate(im.space.table, g.vaddr + k);
            && at.Some? && TaskPage(at.value / 4096)
            && (k < g.filesz ==> Peek(im.phys, at.value) == file[g.offset + k])
            && (g.filesz == 0 ==> Peek(im.phys, at.value) == 0)
            && forall u, e :: P.Holds(All(others, t, im.space), u, e, at.value / 4096) ==>
                                u == t && e == (g.vaddr + k) / 4096
  {
    var a: nat := g.vaddr + k;
    assert Locate(im.space.table, a).Some?;
    var m, e0 := All(others, t, im.space), a / 4096;
    var page := im.space.table[e0].page;
    assert (page * 4096 + a % 4096) / 4096 == page;
    assert P.IsEntry(m, t, e0) && P.EntryOk(m, t, e0) && P.Holds(m, t, e0, page);
  }
}
