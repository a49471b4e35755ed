/**
 Aligned allocation on top of kmalloc (kernel/src/kernel/memory/heap.c:137-151):
 the raw pointer is kept in the word below the aligned one.
 */
module HeapAligned {
  import opened Machine
  import opened HeapBlocks
  import opened HeapInvariant
  import opened HeapRuns
  import opened Heap

  lemma ModBound(x: int, m: int)
    requires m > 0 && x >= 0
    ensures 0 <= x % m < m && x % m <= x
  {
    if x < m {
      assert x % m == x by {
        SmallMod(x, m);
      }
    }
  }

  lemma SmallMod(x: int, m: int)
    requires 0 <= x < m
    ensures x % m == x
  {
  }

  lemma MulGrows(k: int, m: int)
    requires k >= 1 && m > 0
    ensures k * m >= m
  {
  }

  lemma MulMod(q: int, m: int)
    requires m > 0
    ensures (q * m) % m == 0
  {
    var k, r := q * m / m, q * m % m;
    assert (q - k) * m == r;
    if q > k {
      MulGrows(q - k, m);
    } else if q < k {
      assert (q - k) * m == -((k - q) * m);
      MulGrows(k - q, m);
    }
  }

  /** addr - addr % align: the largest multiple of align that is not above addr. */
  function AlignDown(addr: u32, align: u32): (ptr: u32)
    requires align > 0
    ensures addr - align < ptr <= addr
    ensures ptr % align == 0
  {
    ModBound(addr, align);
    assert addr - addr % align == addr / align * align;
    MulMod(addr / align, align);
    addr - addr % align
  }

  /** The aligned pointer made from a raw one. */
  function AlignUp(p: u32, align: u32): u32
    requires align > 0
  {
    AlignDown(Wrap(p + align + 4), align)
  }

  /** Where the raw pointer is kept: the word below the aligned pointer. */
  function HiddenWord(ptr: u32): u32 {
    Wrap(ptr - 4)
  }

  /** The hidden word and the n usable bytes lie in [p, p + size) without overlapping. */
  predicate InsideRaw(p: int, size: int, ptr: int, n: int) {
    p <= ptr - 4 && ptr + n <= p + size
  }

  /** The result is aligned, and stays inside its raw block exactly when the padded size does not wrap. */
  lemma AlignedFits(p: u32, n: u32, align: u32)
    requires align > 0
    requires p + Wrap(n + align + 4) <= HEAP_END
    ensures AlignUp(p, align) % align == 0
    ensures InsideRaw(p, Wrap(n + align + 4), AlignUp(p, align), n) <==> n + align + 4 < TWO32
  {
    hide AlignDown;
    if n + align + 4 >= TWO32 {
      assert Wrap(n + align + 4) == n + align + 4 - TWO32 || Wrap(n + align + 4) == n + align + 4 - 2 * TWO32;
    }
  }

  /** The pointer is the largest multiple of align that leaves room for the hidden word and align bytes of padding. */
  lemma AlignedLies(p: u32, align: u32)
    requires align > 0 && p + align + 4 < TWO32
    ensures var ptr := AlignUp(p, align);
            ptr % align == 0 && p + 4 < ptr <= p + align + 4
  {
    hide AlignDown;
  }

  /** kmalloc_a crashes exactly when kmalloc does, or hands out a block to be aligned to multiples of 0. */
  lemma CrashesExactly(bs: Blocks, mem: Memory, n: u32, align: u32, slots: nat)
    requires Inv(bs) && |bs| <= slots
    ensures var size := Wrap(n + align + 4);
            && (AlignedMalloc(bs, mem, n, align, slots).result.Crashed?
                <==> OutOfSlots(bs, size, slots) || (align == 0 && !Full(bs, size)))
            && (Full(bs, size) && !OutOfSlots(bs, size, slots) ==>
                  AlignedMalloc(bs, mem, n, align, slots) == AlignedOutcome(bs, mem, Pointer(0)))
  {
    hide Inv, Kmalloc, OutOfSlots, Full, AlignDown, Store32, Allocated;
    KmallocResult(bs, Wrap(n + align + 4), slots);
  }

  /** A request whose padded size wraps to four bytes: its pointer lies behind the block it was made from. */
  lemma PaddingWraps()
    ensures var o := AlignedMalloc([], map[], 0xFFFF_FFF8, 8, 2048);
            && o.result == Pointer(HEAP_START + 8) && Live(o.blocks) == map[HEAP_START := 4]
            && !InsideRaw(HEAP_START, 4, HEAP_START + 8, 0xFFFF_FFF8)
  {
    var bs := [Block(HEAP_START, 4, true)];
    assert Wrap(0xFFFF_FFF8 + 8 + 4) == 4;
    assert Kmalloc([], 4, 2048) == Returned(bs, HEAP_START);
    assert Live(bs) == map[HEAP_START := 4];
    assert AlignUp(HEAP_START, 8) == HEAP_START + 8;
  }

  /** The kernel heap together with the memory its blocks lie in. */
  class AlignedHeap {
    const heap: KernelHeap
    var mem: Memory

    ghost predicate Valid()
      reads this, heap, heap.list, heap.list.slots
    {
      heap.Valid()
    }

    constructor (slots: nat)
      requires slots > 0
      ensures Valid() && heap.Blocks() == [] && mem == map[]
    {
      heap := new KernelHeap(slots);
      mem := map[];
    }

    /** kmalloc_a; a division by zero or a NULL dereference ends in Crashed. */
    method KmallocA(count: u32, align: u32) returns (r: Result)
      requires Valid()
      modifies this, heap.list, heap.list.slots
      ensures Valid()
      ensures var o := AlignedMalloc(old(heap.Blocks()), old(mem), count, align, heap.list.slots.Length);
              heap.Blocks() == o.blocks && mem == o.mem && r == o.result
    {
      hide HeapBlocks.Kmalloc, Store32, AlignDown;
      r := heap.Kmalloc(Wrap(count + align + 4));
      if r == Crashed || r.ptr == 0 {
        return;
      }
      if align == 0 {
        return Crashed;
      }
      var p := r.ptr;
      var addr := Wrap(p + align + 4);
      var ptr := AlignDown(addr, align);
      mem := Store32(mem, HiddenWord(ptr), p);
      r := Pointer(ptr);
    }

    /** kfree_a. */
    method KfreeA(ptr: u32)
      requires Valid()
      modifies heap.list, heap.list.slots
      ensures Valid()
      ensures heap.Blocks() == Kfree(old(heap.Blocks()), Load32(mem, HiddenWord(ptr)))
    {
      var p := Load32(mem, HiddenWord(ptr));
      heap.Kfree(p);
    }
  }

  datatype AlignedOutcome = AlignedOutcome(blocks: Blocks, mem: Memory, result: Result)

  function AlignedMalloc(bs: Blocks, mem: Memory, n: u32, align: u32, slots: nat): AlignedOutcome {
    var o := Kmalloc(bs, Wrap(n + align + 4), slots);
    if o.Fault? then AlignedOutcome(o.blocks, mem, Crashed)
    else if o.ptr == 0 then AlignedOutcome(o.blocks, mem, Pointer(0))
    else if align == 0 then AlignedOutcome(o.blocks, mem, Crashed)
    else
      var ptr := AlignUp(o.ptr, align);
      AlignedOutcome(o.blocks, Store32(mem, HiddenWord(ptr), o.ptr), Pointer(ptr))
  }

  // ---- runs in which every owner writes only inside its own range ------------------

  /** What the owner of an aligned block was given: the raw block behind it and the usable size. */
  datatype Loan = Loan(raw: u32, n: u32)

  /** The heap, the memory, and the aligned blocks that are out, by the pointer their owners hold. */
  datatype World = World(heap: Blocks, mem: Memory, loans: map<u32, Loan>)

  datatype Act =
    | Take(n: u32)
    | Give(p: u32)
    | TakeAligned(n: u32, align: u32)
    | GiveAligned(ptr: u32)
    | Write(addr: u32, b: byte)

  ghost predicate IsRaw(w: World, p: u32) {
    exists q :: q in w.loans && w.loans[q].raw == p
  }

  /** The byte belongs to the usable part of an aligned block, or to a plain block. */
  ghost predicate Owned(w: World, x: u32) {
    || (exists q :: q in w.loans && q <= x < q + w.loans[q].n)
    || (exists p :: p in Live(w.heap) && !IsRaw(w, p) && p <= x < p + Live(w.heap)[p])
  }

  function Do(w: World, a: Act, slots: nat): World {
    match a
    case Take(n) => w.(heap := Kmalloc(w.heap, n, slots).blocks)
    case Give(p) => w.(heap := Kfree(w.heap, p))
    case TakeAligned(n, align) =>
      var o := AlignedMalloc(w.heap, w.mem, n, align, slots);
      if o.result.Crashed? || o.result.ptr == 0 then w.(heap := o.blocks)
      else World(o.blocks, o.mem, w.loans[o.result.ptr := Loan(Kmalloc(w.heap, Wrap(n + align + 4), slots).ptr, n)])
    case GiveAligned(ptr) =>
      World(Kfree(w.heap, Load32(w.mem, HiddenWord(ptr))), w.mem, w.loans - {ptr})
    case Write(x, b) => w.(mem := w.mem[x := b])
  }

  /** Requests are positive, unwrapped, fit and find a slot; owners free what they got and write to what they own. */
  ghost predicate Fair(w: World, a: Act, slots: nat) {
    match a
    case Take(n) => n > 0 && Fits(w.heap, n) && !OutOfSlots(w.heap, n, slots)
    case Give(p) => !IsRaw(w, p)
    case TakeAligned(n, align) =>
      && align > 0 && n + align + 4 < TWO32
      && Fits(w.heap, n + align + 4) && !OutOfSlots(w.heap, n + align + 4, slots)
    case GiveAligned(ptr) => ptr in w.loans
    case Write(x, _) => Owned(w, x)
  }

  /** A loan's raw block is live, holds the usable range and the hidden word, and that word names it. */
  ghost predicate Backed(w: World, q: u32)
    requires q in w.loans
  {
    var l := w.loans[q];
    && l.raw in Live(w.heap)
    && InsideRaw(l.raw, Live(w.heap)[l.raw], q, l.n)
    && Load32(w.mem, HiddenWord(q)) == l.raw
  }

  ghost predicate Sound(w: World) {
    && Inv(w.heap)
    && (forall q :: q in w.loans ==> Backed(w, q))
    && (forall q, r :: q in w.loans && r in w.loans && q != r ==> w.loans[q].raw != w.loans[r].raw)
  }

  /** Every fair act keeps every outstanding aligned block backed. */
  lemma DoKeepsSound(w: World, a: Act, slots: nat)
    requires Sound(w) && |w.heap| <= slots && Fair(w, a, slots)
    ensures Sound(Do(w, a, slots)) && |Do(w, a, slots).heap| <= slots
  {
    hide Inv, Live, Kmalloc, Kfree, Fits, OutOfSlots, Load32, AlignedMalloc, InsideRaw;
    match a
    case Take(n) =>
      KmallocRefines(w.heap, n, slots);
    case Give(p) =>
      KfreeResult(w.heap, p);
      KfreeShrinks(w.heap, p);
    case TakeAligned(n, align) =>
      TakeKeepsSound(w, n, align, slots);
    case GiveAligned(ptr) =>
      KfreeResult(w.heap, w.loans[ptr].raw);
      KfreeShrinks(w.heap, w.loans[ptr].raw);
      assert Backed(w, ptr);
    case Write(x, b) =>
      forall q | q in w.loans ensures Backed(w.(mem := w.mem[x := b]), q) {
        assert Backed(w, q);
        if r :| r in w.loans && r <= x < r + w.loans[r].n {
          LoanMisses(w, x, q, r);
        } else {
          var p :| p in Live(w.heap) && !IsRaw(w, p) && p <= x < p + Live(w.heap)[p];
          PlainMisses(w, x, q, p);
        }
        LoadElsewhere(w.mem, w.mem[x := b], HiddenWord(q));
      }
  }

  /** A write into the usable part of a loan never meets the hidden word of a loan. */
  lemma LoanMisses(w: World, x: u32, q: u32, r: u32)
    requires Sound(w) && q in w.loans && r in w.loans && r <= x < r + w.loans[r].n
    ensures !(HiddenWord(q) <= x < HiddenWord(q) + 4)
  {
    hide Inv, Live, Load32;
    assert Backed(w, q) && Backed(w, r);
    if q != r {
      LiveApart(w.heap, w.loans[r].raw, w.loans[q].raw);
    }
  }

  /** Neither does a write into a plain block. */
  lemma PlainMisses(w: World, x: u32, q: u32, p: u32)
    requires Sound(w) && q in w.loans && p in Live(w.heap) && !IsRaw(w, p) && p <= x < p + Live(w.heap)[p]
    ensures !(HiddenWord(q) <= x < HiddenWord(q) + 4)
  {
    hide Inv, Live, Load32;
    assert Backed(w, q);
    LiveApart(w.heap, p, w.loans[q].raw);
  }

  lemma LiveApart(bs: Blocks, a: u32, b: u32)
    requires Inv(bs) && a in Live(bs) && b in Live(bs) && a != b
    ensures a + Live(bs)[a] <= b || b + Live(bs)[b] <= a
  {
    if a < b {
      LiveDisjoint(bs, HEAP_START, a, b);
    } else {
      LiveDisjoint(bs, HEAP_START, b, a);
    }
  }

  /** Writing the hidden word of a new block leaves the hidden words of the others. */
  lemma StoreMisses(w: World, q: u32, p: u32, size: u32, ptr: u32, n: u32)
    requires q in w.loans && Backed(w, q)
    requires Clear(Live(w.heap), p, size) && InsideRaw(p, size, ptr, n)
    ensures Load32(Store32(w.mem, HiddenWord(ptr), p), HiddenWord(q)) == w.loans[q].raw
    ensures q != ptr
  {
    hide Load32, Store32, Live;
    LoadElsewhere(w.mem, Store32(w.mem, HiddenWord(ptr), p), HiddenWord(q));
  }

  /** What a fair aligned allocation does to the world: nothing, or one more loan on one more live block. */
  lemma TakeResult(w: World, n: u32, align: u32, slots: nat)
    requires Inv(w.heap) && |w.heap| <= slots && Fair(w, TakeAligned(n, align), slots)
    ensures var o := Kmalloc(w.heap, n + align + 4, slots);
            && o.Returned? && Inv(o.blocks) && |o.blocks| <= slots
            && (o.ptr == 0 ==> Do(w, TakeAligned(n, align), slots) == w.(heap := o.blocks) && o.blocks == w.heap)
            && (o.ptr != 0 ==>
                  && o.ptr !in Live(w.heap) && Live(o.blocks) == Live(w.heap)[o.ptr := n + align + 4]
                  && Clear(Live(w.heap), o.ptr, n + align + 4)
                  && var ptr := AlignUp(o.ptr, align);
                     && InsideRaw(o.ptr, n + align + 4, ptr, n)
                     && Do(w, TakeAligned(n, align), slots)
                        == World(o.blocks, Store32(w.mem, HiddenWord(ptr), o.ptr), w.loans[ptr := Loan(o.ptr, n)]))
  {
    hide Inv, Live, Kmalloc, Fits, OutOfSlots, AlignDown, Store32, Clear;
    KmallocRefines(w.heap, n + align + 4, slots);
    var o := Kmalloc(w.heap, n + align + 4, slots);
    if o.ptr != 0 {
      ClearInside(Live(w.heap), o.ptr, n + align + 4);
      AlignedFits(o.ptr, n, align);
    }
  }

  lemma ClearInside(live: map<u32, u32>, p: u32, n: u32)
    requires Clear(live, p, n)
    ensures HEAP_START <= p && p + n <= HEAP_END
  {
  }

  lemma TakeKeepsSound(w: World, n: u32, align: u32, slots: nat)
    requires Sound(w) && |w.heap| <= slots && Fair(w, TakeAligned(n, align), slots)
    ensures Sound(Do(w, TakeAligned(n, align), slots)) && |Do(w, TakeAligned(n, align), slots).heap| <= slots
  {
    hide Inv, Live, Kmalloc, Fits, OutOfSlots, Do, AlignUp, Load32, Store32;
    TakeResult(w, n, align, slots);
    var o := Kmalloc(w.heap, n + align + 4, slots);
    if o.ptr != 0 {
      var p, ptr, w' := o.ptr, AlignUp(o.ptr, align), Do(w, TakeAligned(n, align), slots);
      LoadStored(w.mem, HiddenWord(ptr), p);
      forall q | q in w.loans ensures q != ptr && Backed(w', q) && w.loans[q].raw != p {
        assert Backed(w, q);
        StoreMisses(w, q, p, n + align + 4, ptr, n);
      }
    }
  }

  /** At any point of such runs, kfree_a frees exactly the raw block that kmalloc_a took. */
  lemma FreeAlignedExactly(w: World, ptr: u32)
    requires Sound(w) && ptr in w.loans
    ensures Load32(w.mem, HiddenWord(ptr)) == w.loans[ptr].raw
    ensures var after := Kfree(w.heap, Load32(w.mem, HiddenWord(ptr)));
            Inv(after) && Live(after) == Live(w.heap) - {w.loans[ptr].raw} && w.loans[ptr].raw in Live(w.heap)
  {
    assert Backed(w, ptr);
    KfreeResult(w.heap, w.loans[ptr].raw);
  }

  function DoAll(w: World, acts: seq<Act>, slots: nat): World
    decreases |acts|
  {
    if acts == [] then w else DoAll(Do(w, acts[0], slots), acts[1..], slots)
  }

  ghost predicate AllFair(w: World, acts: seq<Act>, slots: nat)
    decreases |acts|
  {
    acts != [] ==> Fair(w, acts[0], slots) && AllFair(Do(w, acts[0], slots), acts[1..], slots)
  }

  lemma {:induction false} RunsKeepSound(w: World, acts: seq<Act>, slots: nat)
    requires Sound(w) && |w.heap| <= slots && AllFair(w, acts, slots)
    ensures Sound(DoAll(w, acts, slots))
    decreases |acts|
  {
    hide Sound, Do, Fair;
    if acts != [] {
      DoKeepsSound(w, acts[0], slots);
      RunsKeepSound(Do(w, acts[0], slots), acts[1..], slots);
    }
  }

  /**
   The aligned round trip over whole runs: after any fair acts from boot, every aligned
   pointer still out frees exactly the raw block it was made from.
   */
  lemma AlignedRoundTrip(acts: seq<Act>, slots: nat, ptr: u32)
    requires AllFair(World([], map[], map[]), acts, slots)
    requires ptr in DoAll(World([], map[], map[]), acts, slots).loans
    ensures var w := DoAll(World([], map[], map[]), acts, slots);
            var raw := w.loans[ptr].raw;
            && raw in Live(w.heap)
            && InsideRaw(raw, Live(w.heap)[raw], ptr, w.loans[ptr].n)
            && Live(Do(w, GiveAligned(ptr), slots).heap) == Live(w.heap) - {raw}
  {
    var start := World([], map[], map[]);
    RunsKeepSound(start, acts, slots);
    var w := DoAll(start, acts, slots);
    assert Backed(w, ptr);
    FreeAlignedExactly(w, ptr);
  }
}
