/** Whole runs of kmalloc and kfree, and where the heap's promises end. */
module HeapRuns {
  import opened Machine
  import opened HeapBlocks
  import opened HeapInvariant

  /** Inv survives a kmalloc that returns exactly when it is refused as full, or is positive and can be met. */
  lemma KmallocKeepsInv(bs: Blocks, n: u32, slots: nat)
    requires Inv(bs) && |bs| <= slots
    ensures Kmalloc(bs, n, slots).Returned? ==>
              (Inv(Kmalloc(bs, n, slots).blocks) <==> Full(bs, n) || (n > 0 && Fits(bs, n)))
  {
    KmallocResult(bs, n, slots);
  }

  /** The NULL of a failed insertion is dereferenced exactly when the slots are used up and one is needed. */
  lemma FaultExactly(bs: Blocks, n: u32, slots: nat)
    requires Inv(bs) && |bs| <= slots
    ensures Kmalloc(bs, n, slots).Fault? <==> OutOfSlots(bs, n, slots)
    ensures 2 * |Live(bs)| + 1 < slots ==> Kmalloc(bs, n, slots).Returned?
  {
    KmallocResult(bs, n, slots);
    SlotBound(bs, HEAP_START);
  }

  // ---- runs -------------------------------------------------------------------

  datatype Op = Malloc(n: u32) | Free(p: u32)

  function Step(bs: Blocks, op: Op, slots: nat): Outcome {
    match op
    case Malloc(n) => Kmalloc(bs, n, slots)
    case Free(p) => Returned(Kfree(bs, p), 0)
  }

  /** The heap after a run of calls, which ends early at a NULL dereference. */
  function Run(bs: Blocks, ops: seq<Op>, slots: nat): Outcome
    decreases |ops|
  {
    if ops == [] then Returned(bs, 0)
    else
      var o := Step(bs, ops[0], slots);
      if o.Fault? then o else Run(o.blocks, ops[1..], slots)
  }

  /** The pointers the calls of a run return. */
  function Ptrs(bs: Blocks, ops: seq<Op>, slots: nat): seq<u32>
    decreases |ops|
  {
    if ops == [] then []
    else
      var o := Step(bs, ops[0], slots);
      if o.Fault? then [] else [o.ptr] + Ptrs(o.blocks, ops[1..], slots)
  }

  /** Every request the run comes to is positive and fits. */
  ghost predicate Admissible(bs: Blocks, ops: seq<Op>, slots: nat)
    decreases |ops|
  {
    ops != [] ==>
      && (ops[0].Malloc? ==> ops[0].n > 0 && Fits(bs, ops[0].n))
      && var o := Step(bs, ops[0], slots);
         o.Returned? ==> Admissible(o.blocks, ops[1..], slots)
  }

  /** The run never asks for a slot when all are in use. */
  predicate SlotsLast(bs: Blocks, ops: seq<Op>, slots: nat)
    decreases |ops|
  {
    ops != [] ==>
      && (ops[0].Malloc? ==> !OutOfSlots(bs, ops[0].n, slots))
      && SlotsLast(Step(bs, ops[0], slots).blocks, ops[1..], slots)
  }

  /** At every request of the run fewer blocks are live than half of the slots. */
  predicate FewLive(bs: Blocks, ops: seq<Op>, slots: nat)
    decreases |ops|
  {
    ops != [] ==>
      && (ops[0].Malloc? ==> 2 * |Live(bs)| + 1 < slots)
      && FewLive(Step(bs, ops[0], slots).blocks, ops[1..], slots)
  }

  /** The range [p, p + n) lies in the heap and meets no live block. */
  ghost predicate Clear(live: map<u32, u32>, p: u32, n: u32) {
    && HEAP_START <= p && p + n <= HEAP_END
    && forall a :: a in live ==> a + live[a] <= p || p + n <= a
  }

  /** The specification: a finite map of live blocks, to which an allocation adds a clear block. */
  ghost predicate MapRun(live: map<u32, u32>, ops: seq<Op>, ptrs: seq<u32>, end: map<u32, u32>)
    decreases |ops|
  {
    if ops == [] then ptrs == [] && end == live
    else
      && ptrs != []
      && match ops[0]
         case Free(p) => MapRun(live - {p}, ops[1..], ptrs[1..], end)
         case Malloc(n) =>
           if ptrs[0] == 0 then MapRun(live, ops[1..], ptrs[1..], end)
           else Clear(live, ptrs[0], n) && MapRun(live[ptrs[0] := n], ops[1..], ptrs[1..], end)
  }

  /** A kmalloc that finds a slot on a reachable heap adds one clear block to the live map and nothing else. */
  lemma KmallocRefines(bs: Blocks, n: u32, slots: nat)
    requires Inv(bs) && |bs| <= slots && n > 0 && Fits(bs, n)
    requires !OutOfSlots(bs, n, slots)
    ensures var o := Kmalloc(bs, n, slots);
            && o.Returned? && Inv(o.blocks) && |o.blocks| <= slots
            && (o.ptr == 0 ==> o.blocks == bs)
            && (o.ptr != 0 ==> o.ptr !in Live(bs) && Live(o.blocks) == Live(bs)[o.ptr := n])
            && (o.ptr != 0 ==> Clear(Live(bs), o.ptr, n))
  {
    hide Tiles, Live, Total;
    KmallocResult(bs, n, slots);
    var o := Kmalloc(bs, n, slots);
    if o.ptr != 0 {
      LiveRange(o.blocks, HEAP_START, o.ptr);
      forall a | a in Live(bs) ensures a + Live(bs)[a] <= o.ptr || o.ptr + n <= a {
        if a < o.ptr {
          LiveDisjoint(o.blocks, HEAP_START, a, o.ptr);
        } else {
          LiveDisjoint(o.blocks, HEAP_START, o.ptr, a);
        }
      }
    }
  }

  /**
   Every admissible run from a reachable heap comes to its end exactly when it never asks for
   a slot in vain, and then it is a run of the map.
   */
  lemma {:induction false} RunRefines(bs: Blocks, ops: seq<Op>, slots: nat)
    requires Inv(bs) && |bs| <= slots && Admissible(bs, ops, slots)
    ensures var o := Run(bs, ops, slots);
            && (o.Returned? <==> SlotsLast(bs, ops, slots))
            && (o.Returned? ==>
                  && Inv(o.blocks) && |o.blocks| <= slots
                  && MapRun(Live(bs), ops, Ptrs(bs, ops, slots), Live(o.blocks)))
    decreases |ops|
  {
    hide Inv, Live, Kmalloc, Kfree, Fits, Clear, OutOfSlots;
    if ops != [] {
      var o := Step(bs, ops[0], slots);
      match ops[0]
      case Malloc(n) =>
        FaultExactly(bs, n, slots);
        if o.Returned? {
          KmallocRefines(bs, n, slots);
          RunRefines(o.blocks, ops[1..], slots);
        }
      case Free(p) =>
        KfreeResult(bs, p);
        KfreeShrinks(bs, p);
        RunRefines(o.blocks, ops[1..], slots);
    }
  }

  /** While fewer blocks than half of the slots are live, a run cannot ask for a slot in vain. */
  lemma {:induction false} FewLiveLast(bs: Blocks, ops: seq<Op>, slots: nat)
    requires Inv(bs) && |bs| <= slots && Admissible(bs, ops, slots) && FewLive(bs, ops, slots)
    ensures SlotsLast(bs, ops, slots)
    decreases |ops|
  {
    hide Inv, Live, Kmalloc, Kfree, Fits, OutOfSlots;
    if ops != [] {
      var o := Step(bs, ops[0], slots);
      match ops[0]
      case Malloc(n) =>
        FaultExactly(bs, n, slots);
        KmallocRefines(bs, n, slots);
        FewLiveLast(o.blocks, ops[1..], slots);
      case Free(p) =>
        KfreeResult(bs, p);
        KfreeShrinks(bs, p);
        FewLiveLast(o.blocks, ops[1..], slots);
    }
  }

  /** From boot: every admissible run keeps the heap a map of disjoint live blocks, up to a request without a slot. */
  lemma HeapSafety(ops: seq<Op>, slots: nat)
    requires Admissible([], ops, slots)
    ensures var o := Run([], ops, slots);
            && (o.Returned? <==> SlotsLast([], ops, slots))
            && (FewLive([], ops, slots) ==> o.Returned?)
            && (o.Returned? ==> Inv(o.blocks) && MapRun(map[], ops, Ptrs([], ops, slots), Live(o.blocks)))
  {
    RunRefines([], ops, slots);
    if FewLive([], ops, slots) {
      FewLiveLast([], ops, slots);
    }
  }

  /** From boot: two requests of 4 MB fill the heap from 0xC100_0000 on, and a third one gets NULL. */
  lemma TwoFill()
    ensures var ops := [Malloc(0x40_0000), Malloc(0x40_0000), Malloc(0x40_0000)];
            Admissible([], ops, 2048) && Ptrs([], ops, 2048) == [0xC100_0000, 0xC140_0000, 0]
  {
    hide Kmalloc, Fits;
    var one, two := [FirstHalf], [FirstHalf, SecondHalf];
    var ops := [Malloc(0x40_0000), Malloc(0x40_0000), Malloc(0x40_0000)];
    HalfByHalf();
    assert ops[1..] == [Malloc(0x40_0000), Malloc(0x40_0000)] && ops[1..][1..] == [Malloc(0x40_0000)];
    assert Ptrs(two, [Malloc(0x40_0000)], 2048) == [0];
    assert Ptrs(one, ops[1..], 2048) == [0xC140_0000, 0];
    assert Admissible(two, [Malloc(0x40_0000)], 2048);
    assert Admissible(one, ops[1..], 2048);
  }

  const FirstHalf: Block := Block(0xC100_0000, 0x40_0000, true)
  const SecondHalf: Block := Block(0xC140_0000, 0x40_0000, true)

  lemma HalfByHalf()
    ensures var one, two := [FirstHalf], [FirstHalf, SecondHalf];
            && Kmalloc([], 0x40_0000, 2048) == Returned(one, 0xC100_0000) && Fits([], 0x40_0000)
            && Kmalloc(one, 0x40_0000, 2048) == Returned(two, 0xC140_0000) && Fits(one, 0x40_0000)
            && Kmalloc(two, 0x40_0000, 2048) == Returned(two, 0) && Fits(two, 0x40_0000)
  {
    var one, two := [FirstHalf], [FirstHalf, SecondHalf];
    assert KmallocFrom(one, 0x40_0000, 2048, 1) == Append(one, 0x40_0000, 2048) == Returned(two, 0xC140_0000);
    assert KmallocFrom(two, 0x40_0000, 2048, 2) == Append(two, 0x40_0000, 2048) == Returned(two, 0);
    assert KmallocFrom(two, 0x40_0000, 2048, 1) == Returned(two, 0);
    assert one[1..] == [] && two[1..] == [SecondHalf] && two[1..][1..] == [];
    assert Total(two[1..]) == 0x40_0000 && Total(one) == 0x40_0000 && Total(two) == 0x80_0000;
    assert FirstFit(one, 0x40_0000) == 1 && FirstFit(two[1..], 0x40_0000) == 1;
  }

  // ---- runs from boot that break the promises ------------------------------------------

  /** kmalloc(0) hands out an address that the next kmalloc hands out again. */
  lemma ZeroSizeShares()
    ensures var first := Kmalloc([], 0, 2048);
            && first.Returned? && first.ptr == HEAP_START
            && var second := Kmalloc(first.blocks, 4, 2048);
               second.Returned? && second.ptr == first.ptr
  {
    var bs := [Block(HEAP_START, 0, true)];
    assert Kmalloc([], 0, 2048) == Returned(bs, HEAP_START);
    assert KmallocFrom(bs, 4, 2048, 1) == Append(bs, 4, 2048);
  }

  /** The append path checks only where the block starts: the very first request can leave the heap. */
  lemma FirstRequestEscapes()
    ensures var o := Kmalloc([], 0xC000_0000, 2048);
            o.Returned? && o.ptr == HEAP_START && Top(o.blocks) > HEAP_END
  {
    assert Total([Block(HEAP_START, 0xC000_0000, true)]) == 0xC000_0000;
  }

  /** A heap with one large live block and a free block at its end, and how it comes about. */
  const FullButTail: Blocks := [Block(HEAP_START, 0x7F_F000, true), Block(0xC17F_F000, 0x1000, false)]

  lemma FullButTailReached()
    ensures Run([], [Malloc(0x7F_F000), Malloc(0x1000), Free(0xC17F_F000)], 2048) == Returned(FullButTail, 0)
  {
    var a, b := Block(HEAP_START, 0x7F_F000, true), Block(0xC17F_F000, 0x1000, true);
    assert Kmalloc([], 0x7F_F000, 2048) == Returned([a], HEAP_START);
    assert KmallocFrom([a], 0x1000, 2048, 1) == Append([a], 0x1000, 2048) == Returned([a, b], 0xC17F_F000);
    assert KfreeFrom([a, b], 0xC17F_F000, 1) == Release([a, b], 1) == FullButTail;
    var ops := [Malloc(0x7F_F000), Malloc(0x1000), Free(0xC17F_F000)];
    assert ops[1..] == [Malloc(0x1000), Free(0xC17F_F000)] && ops[1..][1..] == [Free(0xC17F_F000)];
    assert Run([a, b], ops[1..][1..], 2048) == Returned(FullButTail, 0);
  }

  /** There a huge request passes the wrapped end test of the grow path, and leaves the heap too. */
  lemma HugeRequestEscapes()
    ensures var o := Kmalloc(FullButTail, 0xC000_0000, 2048);
            && Run([], [Malloc(0x7F_F000), Malloc(0x1000), Free(0xC17F_F000)], 2048) == Returned(FullButTail, 0)
            && Inv(FullButTail) && o.Returned? && o.ptr == 0xC17F_F000 && Top(o.blocks) > HEAP_END
  {
    FullButTailReached();
    var bs := FullButTail;
    Two(bs[0], bs[1]);
    assert FirstFit(bs[1..], 0xC000_0000) == 1;
    AllocateGrow(bs, 0xC000_0000);
    DeadBranches(bs, 0xC000_0000, 2048, 0);
  }

  /** Blocks of one byte, one after the other. */
  function Crumbs(k: nat): (bs: Blocks)
    requires k <= 0x80_0000
    ensures |bs| == k
  {
    seq(k, i requires 0 <= i < k => Block(HEAP_START + i, 1, true))
  }

  lemma {:induction false} CrumbsScan(k: nat, slots: nat, i: nat)
    requires i <= k < 0x80_0000 && k <= slots
    ensures KmallocFrom(Crumbs(k), 1, slots, i)
         == if k == slots then Fault(Crumbs(k)) else Returned(Crumbs(k + 1), HEAP_START + k)
    decreases k - i
  {
    if i < k {
      CrumbsScan(k, slots, i + 1);
    } else {
      assert Crumbs(k) + [Block(HEAP_START + k, 1, true)] == Crumbs(k + 1);
    }
  }

  lemma {:induction false} CrumbsTop(k: nat)
    requires k <= 0x80_0000
    ensures Top(Crumbs(k)) == HEAP_START + k
  {
    if k > 0 {
      CrumbsTop(k - 1);
      var last := [Block(HEAP_START + k - 1, 1, true)];
      assert Crumbs(k) == Crumbs(k - 1) + last;
      TotalConcat(Crumbs(k - 1), last);
    }
  }

  lemma {:induction false} CrumbsRun(k: nat, slots: nat)
    requires k <= slots < 0x80_0000
    ensures var ops := seq(slots + 1 - k, _ => Malloc(1));
            Admissible(Crumbs(k), ops, slots) && Run(Crumbs(k), ops, slots).Fault?
    decreases slots - k
  {
    hide Crumbs, KmallocFrom;
    var ops := seq(slots + 1 - k, _ => Malloc(1));
    CrumbsScan(k, slots, 0);
    CrumbsTop(k);
    if k < slots {
      assert ops[1..] == seq(slots + 1 - (k + 1), _ => Malloc(1));
      CrumbsRun(k + 1, slots);
    }
  }

  /** As many requests of one byte as there are slots, and one more: the last one dereferences NULL. */
  lemma SlotsRunOut(slots: nat)
    requires slots < 0x80_0000
    ensures var ops := seq(slots + 1, _ => Malloc(1));
            Admissible([], ops, slots) && Run([], ops, slots).Fault?
  {
    assert Crumbs(0) == [];
    CrumbsRun(0, slots);
  }
}
