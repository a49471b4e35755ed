/** Any number of page tables sharing the physical pages of the task zone. */
module PagingRuns {
  import opened Machine
  import opened PageBits
  import opened Paging

  /** All page tables, by the task that owns them. */
  datatype Spaces = Spaces(bm: Bitmap, tables: map<nat, Table>)

  datatype Op =
    | NewTable(t: nat, entries: nat)  // create_page_table, cleared by memset
    | AllocPage(t: nat, lin: u32)
    | UnbindPage(t: nat, lin: u32)

  predicate Callable(m: Spaces, op: Op) {
    |m.bm| == BITMAP_WORDS &&
    match op
    case NewTable(t, n) => t !in m.tables && n <= 1024
    case AllocPage(t, lin) => t in m.tables && Pte(lin) < |m.tables[t]| && !KernelLinear(lin)
    case UnbindPage(t, lin) => t in m.tables && Pte(lin) < |m.tables[t]|
  }

  function Do(m: Spaces, op: Op): Spaces
    requires Callable(m, op)
  {
    match op
    case NewTable(t, n) => m.(tables := m.tables[t := seq(n, _ => ZeroEntry)])
    case AllocPage(t, lin) =>
      var s := Alloc(Space(m.bm, m.tables[t]), lin, false).0;
      Spaces(s.bm, m.tables[t := s.table])
    case UnbindPage(t, lin) =>
      var s := Unbind(Space(m.bm, m.tables[t]), lin, false);
      Spaces(s.bm, m.tables[t := s.table])
  }

  predicate IsEntry(m: Spaces, t: nat, e: nat) {
    t in m.tables && e < |m.tables[t]|
  }

  /** A present entry holds a marked page of the task zone; an absent one names frame 0. */
  predicate EntryOk(m: Spaces, t: nat, e: nat)
    requires IsEntry(m, t, e) && |m.bm| == BITMAP_WORDS
  {
    var en := m.tables[t][e];
    if en.present then TaskPage(en.page) && Marked(m.bm, en.page) else en.page == 0
  }

  predicate Holds(m: Spaces, t: nat, e: nat, page: nat) {
    IsEntry(m, t, e) && m.tables[t][e].present && m.tables[t][e].page == page
  }

  /** No page is held by two entries, every held page is marked, and all are task pages. */
  ghost predicate Inv(m: Spaces) {
    && |m.bm| == BITMAP_WORDS
    && (forall t, e :: IsEntry(m, t, e) ==> EntryOk(m, t, e))
    && (forall t, e, t', e', page :: Holds(m, t, e, page) && Holds(m, t', e', page) ==> t == t' && e == e')
  }

  lemma NewTableKeepsInv(m: Spaces, t: nat, n: nat)
    requires Inv(m) && Callable(m, NewTable(t, n))
    ensures Inv(Do(m, NewTable(t, n)))
  {
    hide Marked;
    var r := Do(m, NewTable(t, n));
    forall t': nat, e: nat | IsEntry(r, t', e) ensures EntryOk(r, t', e) && (t' != t ==> IsEntry(m, t', e)) {
      if t' != t {
        assert IsEntry(m, t', e) && EntryOk(m, t', e);
      }
    }
    forall t1: nat, e1: nat, t2: nat, e2: nat, page: nat | Holds(r, t1, e1, page) && Holds(r, t2, e2, page)
      ensures t1 == t2 && e1 == e2
    {
      assert Holds(m, t1, e1, page) && Holds(m, t2, e2, page);
    }
  }

  lemma AllocKeepsInv(m: Spaces, t: nat, lin: u32)
    requires Inv(m) && Callable(m, AllocPage(t, lin))
    ensures Inv(Do(m, AllocPage(t, lin)))
  {
    hide Marked, Alloc;
    var s := Space(m.bm, m.tables[t]);
    AllocResult(s, lin);
    var r, p := Do(m, AllocPage(t, lin)), Alloc(s, lin, false).1 / 4096;
    if Alloc(s, lin, false).1 == 0 {
      assert r == m;
    } else {
      forall t': nat, e: nat | IsEntry(r, t', e) ensures EntryOk(r, t', e) {
        assert IsEntry(m, t', e) && EntryOk(m, t', e);
      }
      forall t1: nat, e1: nat, t2: nat, e2: nat, page: nat | Holds(r, t1, e1, page) && Holds(r, t2, e2, page)
        ensures t1 == t2 && e1 == e2
      {
        assert (t1, e1) != (t, Pte(lin)) ==> Holds(m, t1, e1, page) && EntryOk(m, t1, e1);
        assert (t2, e2) != (t, Pte(lin)) ==> Holds(m, t2, e2, page) && EntryOk(m, t2, e2);
      }
    }
  }

  lemma UnbindKeepsInv(m: Spaces, t: nat, lin: u32)
    requires Inv(m) && Callable(m, UnbindPage(t, lin))
    ensures Inv(Do(m, UnbindPage(t, lin)))
  {
    hide Marked, Mark;
    var r, e0 := Do(m, UnbindPage(t, lin)), Pte(lin);
    var page0 := m.tables[t][e0].page;
    assert IsEntry(m, t, e0) && EntryOk(m, t, e0);
    if KernelLinear(lin) {
      assert r == m;
    } else {
      assert page0 < 32 * BITMAP_WORDS;
      assert r.bm == Mark(m.bm, page0, false);
      forall t': nat, e: nat | IsEntry(r, t', e) ensures EntryOk(r, t', e) {
        assert IsEntry(m, t', e) && EntryOk(m, t', e);
        if (t', e) != (t, e0) && r.tables[t'][e].present {
          var page := m.tables[t'][e].page;
          assert Holds(m, t', e, page);
          assert m.tables[t][e0].present ==> Holds(m, t, e0, page0);
          assert page != page0;
          MarkExactly(m.bm, page0, false, page);
        }
      }
      forall t1: nat, e1: nat, t2: nat, e2: nat, page: nat | Holds(r, t1, e1, page) && Holds(r, t2, e2, page)
        ensures t1 == t2 && e1 == e2
      {
        assert Holds(m, t1, e1, page) && Holds(m, t2, e2, page);
      }
    }
  }

  lemma DoKeepsInv(m: Spaces, op: Op)
    requires Inv(m) && Callable(m, op)
    ensures Inv(Do(m, op))
  {
    hide Inv, Do;
    match op
    case NewTable(t, n) => NewTableKeepsInv(m, t, n);
    case AllocPage(t, lin) => AllocKeepsInv(m, t, lin);
    case UnbindPage(t, lin) => UnbindKeepsInv(m, t, lin);
  }

  ghost predicate AllCallable(m: Spaces, ops: seq<Op>)
    decreases |ops|
  {
    ops != [] ==> Callable(m, ops[0]) && AllCallable(Do(m, ops[0]), ops[1..])
  }

  function Run(m: Spaces, ops: seq<Op>): Spaces
    requires AllCallable(m, ops)
    decreases |ops|
  {
    if ops == [] then m else Run(Do(m, ops[0]), ops[1..])
  }

  lemma {:induction false} RunKeepsInv(m: Spaces, ops: seq<Op>)
    requires Inv(m) && AllCallable(m, ops)
    ensures Inv(Run(m, ops))
    decreases |ops|
  {
    hide Inv, Do, Callable;
    if ops != [] {
      DoKeepsInv(m, ops[0]);
      RunKeepsInv(Do(m, ops[0]), ops[1..]);
    }
  }

  /**
   Physical pages are never shared: after any run from no tables at all, whatever bits were
   set before, two different present entries hold different pages, all of them marked task pages.
   */
  lemma NoPageTwice(bm: Bitmap, ops: seq<Op>, t: nat, e: nat, t': nat, e': nat)
    requires |bm| == BITMAP_WORDS && AllCallable(Spaces(bm, map[]), ops)
    requires var m := Run(Spaces(bm, map[]), ops);
             IsEntry(m, t, e) && IsEntry(m, t', e') && m.tables[t][e].present && m.tables[t'][e'].present
    ensures var m := Run(Spaces(bm, map[]), ops);
            && |m.bm| == BITMAP_WORDS
            && TaskPage(m.tables[t][e].page) && Marked(m.bm, m.tables[t][e].page)
            && (m.tables[t][e].page == m.tables[t'][e'].page ==> t == t' && e == e')
  {
    hide Marked;
    RunKeepsInv(Spaces(bm, map[]), ops);
    var m := Run(Spaces(bm, map[]), ops);
    assert EntryOk(m, t, e);
    assert Holds(m, t, e, m.tables[t][e].page) && Holds(m, t', e', m.tables[t'][e'].page);
  }
}
