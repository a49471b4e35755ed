/** What elf_exec takes, task_delete gives back (kernel/src/kernel/scheduler/task.c:86-90). */
module ElfUnload {
  import opened Machine
  import opened PageBits
  import opened Paging
  import opened ElfImage
  import opened ElfLoad

  ghost predicate InTable(table: Table, q: nat) {
    exists e :: 0 <= e < |table| && table[e].present && table[e].page == q
  }

  /** Exactly the pages marked at the start and those of the table are marked, and no page is both. */
  ghost predicate Accounts(bm0: Bitmap, s: Space) {
    && Sized(s) && |bm0| == BITMAP_WORDS && Injective(s.table)
    && (forall e {:trigger s.table[e]} :: 0 <= e < TASK_PAGES && s.table[e].present ==>
          TaskPage(s.table[e].page) && !Marked(bm0, s.table[e].page))
    && (forall q {:trigger Marked(s.bm, q)} :: 0 <= q < 16384 ==>
          (Marked(s.bm, q) <==> Marked(bm0, q) || InTable(s.table, q)))
  }

  /** The present entries are exactly those of the recorded addresses, each recorded once. */
  ghost predicate Recorded(pages: seq<u32>, table: Table) {
    && |table| == TASK_PAGES
    && (forall i {:trigger pages[i]} :: 0 <= i < |pages| ==>
          pages[i] / 4096 < TASK_PAGES && table[pages[i] / 4096].present)
    && (forall i, j :: 0 <= i < j < |pages| ==> pages[i] / 4096 != pages[j] / 4096)
    && (forall e {:trigger table[e]} :: 0 <= e < TASK_PAGES && table[e].present ==>
          exists i :: 0 <= i < |pages| && pages[i] / 4096 == e)
  }

  // ---- one page ---------------------------------------------------------------------------

  lemma PteIs(lin: u32)
    requires lin / 4096 < TASK_PAGES
    ensures Pte(lin) == lin / 4096 && !KernelLinear(lin)
  {
  }

  lemma AllocAccounts(bm0: Bitmap, s: Space, lin: u32)
    requires Accounts(bm0, s) && lin / 4096 < TASK_PAGES && !s.table[lin / 4096].present
    ensures Accounts(bm0, Alloc(s, lin, false).0)
  {
    hide Alloc, Marked, Pte, KernelLinear;
    PteIs(lin);
    AllocResult(s, lin);
    var r, e0 := Alloc(s, lin, false).0, lin / 4096;
    if Alloc(s, lin, false).1 != 0 {
      var p := Alloc(s, lin, false).1 / 4096;
      forall q: nat | q < 16384 ensures InTable(r.table, q) == (q == p || InTable(s.table, q)) {
        TableSet(s.table, e0, Entry(true, true, false, p), q);
      }
      forall e: nat | e < TASK_PAGES && s.table[e].present ensures s.table[e].page != p {
        assert Marked(s.bm, s.table[e].page) by {
          assert InTable(s.table, s.table[e].page);
        }
      }
    }
  }

  /** An absent entry that becomes present adds its page. */
  lemma TableSet(table: Table, e0: nat, x: Entry, q: nat)
    requires e0 < |table| && !table[e0].present && x.present
    ensures InTable(table[e0 := x], q) <==> q == x.page || InTable(table, q)
  {
    var after := table[e0 := x];
    if q == x.page {
      assert after[e0].present && after[e0].page == q;
    }
    if InTable(table, q) {
      var e :| 0 <= e < |table| && table[e].present && table[e].page == q;
      assert after[e] == table[e];
    }
  }

  /** A present entry that becomes absent takes its page away, because no other entry has it. */
  lemma TableClear(table: Table, e0: nat, x: Entry, q: nat)
    requires e0 < |table| && table[e0].present && !x.present && Injective(table)
    ensures InTable(table[e0 := x], q) <==> q != table[e0].page && InTable(table, q)
  {
    var after := table[e0 := x];
    if InTable(table, q) && q != table[e0].page {
      var e :| 0 <= e < |table| && table[e].present && table[e].page == q;
      assert after[e] == table[e];
    }
  }

  lemma UnbindAccounts(bm0: Bitmap, s: Space, lin: u32)
    requires Accounts(bm0, s) && lin / 4096 < TASK_PAGES && s.table[lin / 4096].present
    ensures var r := Unbind(s, lin, false);
            Accounts(bm0, r) && r.table == s.table[lin / 4096 := r.table[lin / 4096]] && !r.table[lin / 4096].present
  {
    hide Unbind, Marked, Pte, KernelLinear;
    PteIs(lin);
    var r, e0 := Unbind(s, lin, false), lin / 4096;
    var p := s.table[e0].page;
    UnbindResult(s, lin);
    assert InTable(s.table, p);
    forall q: nat | q < 16384 ensures InTable(r.table, q) == (q != p && InTable(s.table, q)) {
      TableClear(s.table, e0, r.table[e0], q);
    }
    forall e: nat | e < TASK_PAGES && r.table[e].present ensures r.table[e] == s.table[e] && e != e0 {
    }
  }

  // ---- loading ------------------------------------------------------------------------------

  lemma {:induction false} MapAccounts(bm0: Bitmap, s: Space, vaddr: u32, i: nat, n: nat)
    requires Accounts(bm0, s) && i <= n && vaddr / 4096 + n <= TASK_PAGES
    requires forall e {:trigger s.table[e]} :: vaddr / 4096 + i <= e < vaddr / 4096 + n ==> !s.table[e].present
    ensures Accounts(bm0, MapRange(s, vaddr, i, n))
    decreases n - i
  {
    hide Accounts, Alloc;
    if i < n {
      SizedAccounts(bm0, s);
      assert (vaddr + i * 4096) / 4096 == vaddr / 4096 + i;
      AllocAccounts(bm0, s, vaddr + i * 4096);
      AllocElsewhere(s, vaddr + i * 4096);
      MapAccounts(bm0, Alloc(s, vaddr + i * 4096, false).0, vaddr, i + 1, n);
    }
  }

  lemma SizedAccounts(bm0: Bitmap, s: Space)
    requires Accounts(bm0, s)
    ensures Sized(s) && |bm0| == BITMAP_WORDS
  {
  }

  lemma AllocElsewhere(s: Space, lin: u32)
    requires Sized(s) && lin / 4096 < TASK_PAGES
    ensures var r := Alloc(s, lin, false).0;
            && Sized(r)
            && forall e {:trigger r.table[e]} :: 0 <= e < TASK_PAGES && e != lin / 4096 ==> r.table[e] == s.table[e]
  {
    hide Marked, Mark;
    PteIs(lin);
  }

  /** None of the segment's pages is mapped yet. */
  ghost predicate Untouched(table: Table, g: Segment) {
    forall e {:trigger table[e]} :: FirstPage(g) <= e < FirstPage(g) + Needed(g) && e < |table| ==> !table[e].present
  }

  lemma RecordOne(bm0: Bitmap, im: Image, others: map<nat, Table>, t: nat, file: seq<byte>, g: Segment)
    requires Loading(im, others, t) && WellPlaced(g, file) && Untouched(im.space.table, g)
    requires |im.pages| + Needed(g) <= TASK_PAGES && Needed(g) <= |Free(im.space.bm)|
    requires Accounts(bm0, im.space) && Recorded(im.pages, im.space.table)
    ensures LoadSegment(im, file, g).Some?
    ensures var r := LoadSegment(im, file, g).value;
            && Accounts(bm0, r.space) && Recorded(r.pages, r.space.table)
            && forall e {:trigger r.space.table[e]} ::
                 0 <= e < TASK_PAGES && !(FirstPage(g) <= e < FirstPage(g) + Needed(g)) ==>
                   r.space.table[e] == im.space.table[e]
  {
    hide P.Inv, Free, MapRange, CopyIn, Accounts, Recorded, Contents;
    LoadOne(im, others, t, file, g);
    if g.memsz > 0 {
      MapAll(others, t, im.space, g.vaddr, 0, PageCount(g));
      MapAccounts(bm0, im.space, g.vaddr, 0, PageCount(g));
      RecordMore(im.pages, im.space.table, MapRange(im.space, g.vaddr, 0, PageCount(g)).table, g.vaddr, PageCount(g));
    }
  }

  lemma RecordMore(pages: seq<u32>, table: Table, after: Table, vaddr: u32, n: nat)
    requires Recorded(pages, table) && vaddr / 4096 + n <= TASK_PAGES && |after| == TASK_PAGES
    requires forall e {:trigger table[e]} :: vaddr / 4096 <= e < vaddr / 4096 + n ==> !table[e].present
    requires forall e :: 0 <= e < TASK_PAGES ==>
               if vaddr / 4096 <= e < vaddr / 4096 + n then after[e].present else after[e] == table[e]
    ensures Recorded(pages + PageAddresses(vaddr, 0, n), after)
  {
    var added := PageAddresses(vaddr, 0, n);
    AddressPages(vaddr, n);
    JoinRecords(pages, added, table, after, vaddr / 4096, n);
  }

  lemma AddressPages(vaddr: u32, n: nat)
    requires vaddr / 4096 + n <= TASK_PAGES
    ensures forall j {:trigger PageAddresses(vaddr, 0, n)[j]} :: 0 <= j < n ==>
              PageAddresses(vaddr, 0, n)[j] / 4096 == vaddr / 4096 + j
  {
    hide PageAddresses;
  }

  lemma JoinRecords(pages: seq<u32>, added: seq<u32>, table: Table, after: Table, first: nat, n: nat)
    requires Recorded(pages, table) && first + n <= TASK_PAGES && |after| == TASK_PAGES && |added| == n
    requires forall j {:trigger added[j]} :: 0 <= j < n ==> added[j] / 4096 == first + j
    requires forall e {:trigger table[e]} :: first <= e < first + n ==> !table[e].present
    requires forall e {:trigger after[e]} :: 0 <= e < TASK_PAGES ==>
               if first <= e < first + n then after[e].present else after[e] == table[e]
    ensures Recorded(pages + added, after)
  {
    var all := pages + added;
    forall e: nat | e < TASK_PAGES && after[e].present ensures exists i :: 0 <= i < |all| && all[i] / 4096 == e {
      if first <= e < first + n {
        assert all[|pages| + (e - first)] == added[e - first];
      } else {
        assert table[e].present;
        var i :| 0 <= i < |pages| && pages[i] / 4096 == e;
        assert all[i] == pages[i];
      }
    }
  }

  lemma {:induction false} RecordAll(bm0: Bitmap, im: Image, others: map<nat, Table>, t: nat,
                                     file: seq<byte>, gs: seq<Segment>)
    requires Loading(im, others, t) && AllWellPlaced(gs, file) && AllApart(gs)
    requires forall g :: g in gs ==> g.offset + g.filesz <= |file| && Untouched(im.space.table, g)
    requires |im.pages| + TotalNeeded(gs) <= TASK_PAGES && TotalNeeded(gs) <= |Free(im.space.bm)|
    requires Accounts(bm0, im.space) && Recorded(im.pages, im.space.table)
    ensures var r := Load(im, file, gs);
            r.Some? && Accounts(bm0, r.value.space) && Recorded(r.value.pages, r.value.space.table)
    decreases |gs|
  {
    hide Loading, Free, LoadSegment, WellPlaced, Apart, Accounts, Recorded, Untouched;
    if gs != [] {
      var g := gs[0];
      SizedOf(im, others, t);
      LoadOne(im, others, t, file, g);
      RecordOne(bm0, im, others, t, file, g);
      var next := LoadSegment(im, file, g).value;
      SizedOf(next, others, t);
      forall h | h in gs[1..] ensures Untouched(next.space.table, h) {
        var j :| 0 <= j < |gs[1..]| && gs[1..][j] == h;
        assert Apart(gs[0], gs[j + 1]);
        StaysUntouched(im.space.table, next.space.table, g, h);
      }
      RestApart(gs);
      RecordAll(bm0, next, others, t, file, gs[1..]);
    }
  }

  lemma RestApart(gs: seq<Segment>)
    requires AllApart(gs) && gs != []
    ensures AllApart(gs[1..])
  {
    hide Apart;
    forall i, j | 0 <= i < j < |gs[1..]| ensures Apart(gs[1..][i], gs[1..][j]) {
      assert Apart(gs[i + 1], gs[j + 1]);
    }
  }

  lemma StaysUntouched(table: Table, after: Table, g: Segment, h: Segment)
    requires |table| == |after| == TASK_PAGES && Untouched(table, h) && Apart(g, h)
    requires forall e {:trigger after[e]} :: 0 <= e < TASK_PAGES && !(FirstPage(g) <= e < FirstPage(g) + Needed(g)) ==>
               after[e] == table[e]
    ensures Untouched(after, h)
  {
  }

  // ---- giving back ----------------------------------------------------------------------------

  lemma {:induction false} UnloadAll(bm0: Bitmap, s: Space, pages: seq<u32>)
    requires Accounts(bm0, s) && Recorded(pages, s.table)
    ensures var r := Unload(s, pages);
            && Sized(r) && (forall e {:trigger r.table[e]} :: 0 <= e < TASK_PAGES ==> !r.table[e].present)
            && forall q {:trigger Marked(r.bm, q)} :: 0 <= q < 16384 ==> (Marked(r.bm, q) <==> Marked(bm0, q))
    decreases |pages|
  {
    hide Unbind, Marked;
    if pages != [] {
      UnbindAccounts(bm0, s, pages[0]);
      RecordLess(pages, s.table, Unbind(s, pages[0], false).table);
      UnloadAll(bm0, Unbind(s, pages[0], false), pages[1..]);
    }
  }

  lemma RecordLess(pages: seq<u32>, table: Table, after: Table)
    requires pages != [] && Recorded(pages, table) && |after| == |table|
    requires !after[pages[0] / 4096].present && after == table[pages[0] / 4096 := after[pages[0] / 4096]]
    ensures Recorded(pages[1..], after)
  {
    forall e: nat | e < TASK_PAGES && after[e].present
      ensures exists i :: 0 <= i < |pages[1..]| && pages[1..][i] / 4096 == e
    {
      assert table[e].present;
      var i :| 0 <= i < |pages| && pages[i] / 4096 == e;
      assert pages[1..][i - 1] / 4096 == e;
    }
  }

  /**
   The round trip: for segments on separate pages, unbinding the recorded pages after loading
   leaves no present entry, and in the bitmap exactly the pages that were marked before.
   */
  lemma GivesBack(bm: Bitmap, others: map<nat, Table>, t: nat, phys: Memory, file: seq<byte>, gs: seq<Segment>)
    requires P.Inv(P.Spaces(bm, others)) && t !in others
    requires AllWellPlaced(gs, file) && AllApart(gs)
    requires TotalNeeded(gs) <= |Free(bm)|
    ensures |bm| == BITMAP_WORDS && forall g :: g in gs ==> g.offset + g.filesz <= |file|
    ensures var im := Load(Image(Space(bm, seq(TASK_PAGES, _ => ZeroEntry)), phys, []), file, gs);
            && im.Some? && Sized(im.value.space) && Recorded(im.value.pages, im.value.space.table)
            && var r := Unload(im.value.space, im.value.pages);
               && Sized(r)
               && (forall e {:trigger r.table[e]} :: 0 <= e < TASK_PAGES ==> !r.table[e].present)
               && forall q {:trigger Marked(r.bm, q)} :: 0 <= q < 16384 ==> (Marked(r.bm, q) <==> Marked(bm, q))
  {
    hide P.Inv, Load, AllWellPlaced, AllApart, Free, TotalNeeded, AllPages, Interval, Accounts, Recorded,
         Unload, Marked;
    var start := Image(Space(bm, seq(TASK_PAGES, _ => ZeroEntry)), phys, []);
    WithinFile(gs, file);
    FreshTable(bm, others, t);
    PagesFit(gs, file);
    BitmapSize(bm, others);
    NothingTaken(bm);
    RecordAll(bm, start, others, t, file, gs);
    var im := Load(start, file, gs).value;
    SizedAccounts(bm, im.space);
    UnloadAll(bm, im.space, im.pages);
  }

  lemma NothingTaken(bm: Bitmap)
    requires |bm| == BITMAP_WORDS
    ensures Accounts(bm, Space(bm, seq(TASK_PAGES, _ => ZeroEntry))) && Recorded([], seq(TASK_PAGES, _ => ZeroEntry))
  {
    hide Marked;
  }
}
