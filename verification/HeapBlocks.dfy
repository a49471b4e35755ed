/**
 What one call of kmalloc and kfree (kernel/src/kernel/memory/heap.c) makes of the
 list of blocks, on values: the blocks are given in list order. Every branch of
 the two functions is here, with unsigned 32-bit arithmetic; which of them can be
 taken at all is proved in HeapInvariant.
 */
module HeapBlocks {
  import opened Machine
  import opened Slist

  const HEAP_START: u32 := 0xC100_0000  // VIRT(TABLE_SIZE * KERNEL_LOWER_TABLES)
  const HEAP_END: u32 := 0xC180_0000    // kheap_start_addr + kheap_size

  datatype Block = Block(addr: u32, size: u32, busy: bool)

  type Blocks = seq<Block>

  /** A call returns a pointer (0 is NULL), or dereferences the NULL of a failed insertion. */
  datatype Outcome =
    | Returned(blocks: Blocks, ptr: u32)
    | Fault(blocks: Blocks)

  /** The first address after a block, as the code computes it. */
  function End(b: Block): u32 {
    Wrap(b.addr + b.size)
  }

  /** Takes what block i lacks from its left neighbour, which is dropped when that empties it. */
  function Steal(bs: Blocks, i: nat, n: u32): Outcome
    requires 0 < i < |bs| && bs[i].size < n
  {
    var diff := n - bs[i].size;
    var prev := bs[i - 1].(size := Wrap(bs[i - 1].size - diff));
    var cur := Block(Wrap(bs[i].addr - diff), n, false);
    var moved := bs[i - 1 := prev][i := cur];
    if prev.size == 0
    then Returned(RemoveAt(moved, i - 1)[i - 1 := cur.(busy := true)], cur.addr)
    else Returned(moved[i := cur.(busy := true)], cur.addr)
  }

  /** Uses block i, handing what is left over to the right neighbour or to a new free block. */
  function Split(bs: Blocks, i: nat, n: u32, slots: nat): Outcome
    requires i < |bs| && n <= bs[i].size
  {
    var diff := bs[i].size - n;
    var cur := Block(bs[i].addr, n, true);
    if i + 1 < |bs| && !bs[i + 1].busy then
      var next := Block(Wrap(bs[i + 1].addr - diff), Wrap(bs[i + 1].size + diff), false);
      Returned(bs[i := cur][i + 1 := next], cur.addr)
    else if |bs| == slots then
      Fault(bs[i := bs[i].(busy := true)])
    else
      Returned(InsertAt(bs[i := cur], i + 1, Block(End(cur), diff, false)), cur.addr)
  }

  /** Adds a block behind the last one. */
  function Append(bs: Blocks, n: u32, slots: nat): Outcome {
    var addr := if bs == [] then HEAP_START else End(bs[|bs| - 1]);
    if addr >= HEAP_END then Returned(bs, 0)
    else if |bs| == slots then Fault(bs)
    else Returned(bs + [Block(addr, n, true)], addr)
  }

  /** kmalloc from the i-th block of its scan on. */
  function KmallocFrom(bs: Blocks, n: u32, slots: nat, i: nat): Outcome
    requires i <= |bs|
    decreases |bs| - i
  {
    if i == |bs| then Append(bs, n, slots)
    else if bs[i].busy then KmallocFrom(bs, n, slots, i + 1)
    else if n <= bs[i].size then Split(bs, i, n, slots)
    else if i > 0 && !bs[i - 1].busy then Steal(bs, i, n)
    else if i == |bs| - 1 && Wrap(End(bs[i]) + (n - bs[i].size)) < HEAP_END then
      Returned(bs[i := Block(bs[i].addr, n, true)], bs[i].addr)
    else KmallocFrom(bs, n, slots, i + 1)
  }

  function Kmalloc(bs: Blocks, n: u32, slots: nat): Outcome {
    KmallocFrom(bs, n, slots, 0)
  }

  /** Block k takes over its right neighbour. */
  function Absorb(bs: Blocks, k: nat): Blocks
    requires k + 1 < |bs|
  {
    RemoveAt(bs[k := bs[k].(size := Wrap(bs[k].size + bs[k + 1].size))], k + 1)
  }

  /** Where block i is after it has joined a free left neighbour. */
  function MergedAt(bs: Blocks, i: nat): (k: nat)
    requires i < |bs|
  {
    if i > 0 && !bs[i - 1].busy then i - 1 else i
  }

  /** Frees block i and merges it into a free left neighbour. */
  function MergeLeft(bs: Blocks, i: nat): Blocks
    requires i < |bs|
  {
    var freed := bs[i := bs[i].(busy := false)];
    if MergedAt(bs, i) < i then Absorb(freed, i - 1) else freed
  }

  /** Frees block i, merging it into a free left neighbour and absorbing a free right one. */
  function Release(bs: Blocks, i: nat): Blocks
    requires i < |bs|
  {
    if i + 1 < |bs| && !bs[i + 1].busy
    then Absorb(MergeLeft(bs, i), MergedAt(bs, i))
    else MergeLeft(bs, i)
  }

  /** kfree from the i-th block of its scan on. */
  function KfreeFrom(bs: Blocks, p: u32, i: nat): Blocks
    requires i <= |bs|
    decreases |bs| - i
  {
    if i == |bs| then bs
    else if bs[i].busy && bs[i].addr == p then Release(bs, i)
    else KfreeFrom(bs, p, i + 1)
  }

  function Kfree(bs: Blocks, p: u32): Blocks {
    KfreeFrom(bs, p, 0)
  }
}
