/**
 What every reachable heap keeps: the blocks tile memory from the heap start, no
 two neighbours are free, and busy blocks are not empty. From it follow that two
 branches of kmalloc are dead, that kmalloc and kfree implement a map of live
 blocks, and a bound on the list's length.
 */
module HeapInvariant {
  import opened Machine
  import opened Slist
  import opened HeapBlocks

  function Total(bs: Blocks): nat {
    if bs == [] then 0 else bs[0].size + Total(bs[1..])
  }

  /** The blocks cover memory from `from` on, each starting where the one before it ends. */
  predicate Tiles(bs: Blocks, from: int) {
    bs != [] ==> bs[0].addr == from && Tiles(bs[1..], from + bs[0].size)
  }

  ghost predicate NoFreePair(bs: Blocks) {
    forall i, j :: 0 <= i < |bs| && j == i + 1 && j < |bs| ==> bs[i].busy || bs[j].busy
  }

  ghost predicate BusyPositive(bs: Blocks) {
    forall i :: 0 <= i < |bs| && bs[i].busy ==> bs[i].size > 0
  }

  /** The first address behind the last block. */
  function Top(bs: Blocks): int {
    HEAP_START + Total(bs)
  }

  ghost predicate Inv(bs: Blocks) {
    Tiles(bs, HEAP_START) && Top(bs) <= HEAP_END && NoFreePair(bs) && BusyPositive(bs)
  }

  /** The live blocks: address to size. */
  function Live(bs: Blocks): map<u32, u32> {
    if bs == [] then map[]
    else if bs[0].busy then Live(bs[1..])[bs[0].addr := bs[0].size]
    else Live(bs[1..])
  }

  // ---- concatenation --------------------------------------------------------

  lemma {:induction false} TotalConcat(a: Blocks, b: Blocks)
    ensures Total(a + b) == Total(a) + Total(b)
  {
    if a == [] {
      assert a + b == b;
    } else {
      assert (a + b)[1..] == a[1..] + b;
      TotalConcat(a[1..], b);
    }
  }

  lemma {:induction false} TilesConcat(a: Blocks, b: Blocks, from: int)
    ensures Tiles(a + b, from) <==> Tiles(a, from) && Tiles(b, from + Total(a))
  {
    if a == [] {
      assert a + b == b;
    } else {
      assert (a + b)[1..] == a[1..] + b;
      TilesConcat(a[1..], b, from + a[0].size);
    }
  }

  lemma {:induction false} LiveConcat(a: Blocks, b: Blocks)
    ensures Live(a + b) == Live(b) + Live(a)
  {
    if a == [] {
      assert a + b == b;
    } else {
      assert (a + b)[1..] == a[1..] + b;
      LiveConcat(a[1..], b);
    }
  }

  /** Block i of a tiling starts behind everything on its left. */
  lemma TilesAt(bs: Blocks, i: nat, from: int)
    requires Tiles(bs, from) && i < |bs|
    ensures bs == bs[..i] + [bs[i]] + bs[i + 1..]
    ensures bs[i].addr == from + Total(bs[..i])
    ensures Tiles(bs[..i], from) && Tiles(bs[i + 1..], bs[i].addr + bs[i].size)
    ensures Total(bs) == Total(bs[..i]) + bs[i].size + Total(bs[i + 1..])
    ensures Live(bs) == Live(bs[i + 1..]) + Live([bs[i]]) + Live(bs[..i])
  {
    var l, r := bs[..i], [bs[i]] + bs[i + 1..];
    assert bs == l + r == l + [bs[i]] + bs[i + 1..];
    TilesConcat(l, r, from);
    TotalConcat(l, r);
    LiveConcat(l, r);
    assert r[1..] == bs[i + 1..];
    LiveConcat([bs[i]], bs[i + 1..]);
  }

  // ---- live blocks ------------------------------------------------------------

  /** A live block is a nonempty stretch of the memory the list tiles. */
  lemma {:induction false} LiveRange(bs: Blocks, from: int, a: u32)
    requires Tiles(bs, from) && BusyPositive(bs)
    requires a in Live(bs)
    ensures from <= a < a + Live(bs)[a] <= from + Total(bs)
  {
    if bs[0].busy && a == bs[0].addr {
    } else {
      LiveRange(bs[1..], from + bs[0].size, a);
    }
  }

  lemma {:induction false} LiveMember(bs: Blocks, a: u32)
    ensures a in Live(bs) <==> exists i :: 0 <= i < |bs| && bs[i].busy && bs[i].addr == a
  {
    if bs != [] {
      LiveMember(bs[1..], a);
      if a in Live(bs[1..]) {
        var j :| 0 <= j < |bs[1..]| && bs[1..][j].busy && bs[1..][j].addr == a;
        assert bs[j + 1].busy && bs[j + 1].addr == a;
      }
      if i :| 0 <= i < |bs| && bs[i].busy && bs[i].addr == a {
        if i > 0 {
          assert bs[1..][i - 1] == bs[i];
        }
      }
    }
  }

  /** In a tiling, the live map names the block at a busy index exactly. */
  lemma LiveAt(bs: Blocks, i: nat, from: int)
    requires Tiles(bs, from) && BusyPositive(bs)
    requires i < |bs| && bs[i].busy
    ensures bs[i].addr in Live(bs) && Live(bs)[bs[i].addr] == bs[i].size
    ensures Live(bs) - {bs[i].addr} == Live(bs[i + 1..]) + Live(bs[..i])
  {
    TilesAt(bs, i, from);
    Apart(bs[..i], bs[i + 1..], from, bs[i].addr, bs[i].size);
    assert Live([bs[i]]) == map[bs[i].addr := bs[i].size];
  }

  /** The live blocks of a left and a right part keep clear of what lies between the two. */
  lemma Apart(l: Blocks, r: Blocks, from: int, addr: int, size: int)
    requires Tiles(l, from) && BusyPositive(l) && addr == from + Total(l)
    requires Tiles(r, addr + size) && BusyPositive(r) && size >= 0
    ensures forall a :: a in Live(l) ==> a + Live(l)[a] <= addr && a != addr
    ensures forall a :: a in Live(r) ==> addr + size <= a
    ensures size > 0 ==> addr !in Live(r)
  {
    forall a | a in Live(l) ensures a + Live(l)[a] <= addr && a != addr {
      LiveRange(l, from, a);
    }
    forall a | a in Live(r) ensures addr + size <= a {
      LiveRange(r, addr + size, a);
    }
  }

  // ---- kmalloc ---------------------------------------------------------------

  predicate Usable(b: Block, n: u32) {
    !b.busy && n <= b.size
  }

  /** The first block that can serve a request of n bytes, |bs| if there is none. */
  function FirstFit(bs: Blocks, n: u32): (i: nat)
    ensures i <= |bs|
    ensures i < |bs| ==> Usable(bs[i], n)
    ensures forall j :: 0 <= j < i ==> !Usable(bs[j], n)
  {
    if bs == [] || Usable(bs[0], n) then 0 else 1 + FirstFit(bs[1..], n)
  }

  /** The last block is free and can be enlarged to n bytes in place. */
  predicate Growable(bs: Blocks, n: u32) {
    && bs != []
    && var b := bs[|bs| - 1];
       !b.busy && b.size < n && Wrap(End(b) + (n - b.size)) < HEAP_END
  }

  /** kmalloc without the branches that touch a free neighbour: nothing is ever subtracted from a size. */
  function FirstFitMalloc(bs: Blocks, n: u32, slots: nat): Outcome {
    var i := FirstFit(bs, n);
    if i < |bs| then
      if |bs| == slots then Fault(bs[i := bs[i].(busy := true)])
      else
        var cur := Block(bs[i].addr, n, true);
        Returned(InsertAt(bs[i := cur], i + 1, Block(End(cur), bs[i].size - n, false)), cur.addr)
    else if Growable(bs, n) then
      var b := bs[|bs| - 1];
      Returned(bs[|bs| - 1 := Block(b.addr, n, true)], b.addr)
    else
      Append(bs, n, slots)
  }

  /** With no two free neighbours, steal-from-left and give-to-right are never taken. */
  lemma {:induction false} DeadBranches(bs: Blocks, n: u32, slots: nat, i: nat)
    requires NoFreePair(bs)
    requires i <= FirstFit(bs, n) && (i == |bs| ==> !Growable(bs, n))
    ensures KmallocFrom(bs, n, slots, i) == FirstFitMalloc(bs, n, slots)
    decreases |bs| - i
  {
    hide InsertAt, RemoveAt, Append, End, Wrap, Steal, FirstFit;
    var fit := FirstFit(bs, n);
    if i == fit < |bs| {
      assert i + 1 < |bs| ==> bs[i].busy || bs[i + 1].busy;
    } else if i < fit {
      assert !Usable(bs[i], n);
      assert i > 0 ==> bs[i].busy || bs[i - 1].busy;
      assert i == |bs| - 1 ==> fit == |bs|;
      if bs[i].busy || i < |bs| - 1 || !Growable(bs, n) {
        DeadBranches(bs, n, slots, i + 1);
      }
    }
  }

  // ---- the two branches on other heaps ---------------------------------------------------

  /**
   On a tiled heap with two free neighbours that together are large enough, stealing from the left
   would be sound: the right part of the two becomes the block, and the tiling stays.
   */
  lemma StealKeeps(bs: Blocks, i: nat, n: u32)
    requires Tiles(bs, HEAP_START) && Top(bs) <= HEAP_END
    requires 0 < i < |bs| && !bs[i - 1].busy && !bs[i].busy && bs[i].size < n <= bs[i - 1].size + bs[i].size
    ensures var o := Steal(bs, i, n);
            && o.Returned? && Tiles(o.blocks, HEAP_START) && Top(o.blocks) == Top(bs)
            && o.ptr + n == bs[i].addr + bs[i].size
            && |o.blocks| == |bs| - (if n == bs[i - 1].size + bs[i].size then 1 else 0)
            && var k := if n == bs[i - 1].size + bs[i].size then i - 1 else i;
               o.blocks[k] == Block(o.ptr, n, true)
  {
    hide Tiles, Total, Live, Steal;
    var p, c, l, r := bs[i - 1], bs[i], bs[..i - 1], bs[i + 1..];
    TilesAt(bs, i - 1, HEAP_START);
    TilesAt(bs, i, HEAP_START);
    PairTiles(bs, i - 1);
    var diff := n - c.size;
    var p', c' := Block(p.addr, p.size - diff, false), Block(c.addr - diff, n, true);
    StealParts(bs, i, n, p', c');
    if p'.size == 0 {
      PairJoined(l, p, c, c', r);
    } else {
      PairMoved(l, p, c, p', c', r);
      PairAt(bs, i - 1, p', c');
    }
  }

  /** One block in place of two, or two that meet elsewhere, tile the same part. */
  lemma PairJoined(l: Blocks, p: Block, c: Block, c': Block, r: Blocks)
    requires Tiles(l + [p, c] + r, HEAP_START) && p.addr == HEAP_START + Total(l)
    requires c'.addr == p.addr && c'.size == p.size + c.size && !p.busy && !c.busy
    ensures Tiles(l + [c'] + r, HEAP_START) && Total(l + [c'] + r) == Total(l + [p, c] + r)
  {
    hide Tiles, Total, Live;
    TwoAny(p, c, p.addr);
    One(c');
    Splice(l, [p, c], [c'], r, HEAP_START);
  }

  lemma PairMoved(l: Blocks, p: Block, c: Block, p': Block, c': Block, r: Blocks)
    requires Tiles(l + [p, c] + r, HEAP_START) && p.addr == HEAP_START + Total(l)
    requires p'.addr == p.addr && c'.addr == p.addr + p'.size && p'.size + c'.size == p.size + c.size
    ensures Tiles(l + [p', c'] + r, HEAP_START) && Total(l + [p', c'] + r) == Total(l + [p, c] + r)
  {
    hide Tiles, Total, Live;
    TwoAny(p, c, p.addr);
    TwoAny(p', c', p.addr);
    Splice(l, [p, c], [p', c'], r, HEAP_START);
  }

  lemma StealParts(bs: Blocks, i: nat, n: u32, p: Block, c: Block)
    requires 0 < i < |bs| && !bs[i - 1].busy && bs[i].size < n <= bs[i - 1].size + bs[i].size
    requires n - bs[i].size <= bs[i].addr
    requires p == Block(bs[i - 1].addr, bs[i - 1].size - (n - bs[i].size), false)
    requires c == Block(bs[i].addr - (n - bs[i].size), n, true)
    ensures Steal(bs, i, n)
         == Returned(bs[..i - 1] + (if p.size == 0 then [c] else [p, c]) + bs[i + 1..], c.addr)
  {
  }

  /** When the two are not large enough together the left size wraps around: two free blocks of 4 bytes, 10 wanted. */
  lemma StealUnderflows()
    ensures var bs := [Block(HEAP_START, 4, false), Block(HEAP_START + 4, 4, false)];
            Kmalloc(bs, 10, 2048)
            == Returned([Block(HEAP_START, 0xFFFF_FFFE, false), Block(HEAP_START - 2, 10, true)], HEAP_START - 2)
  {
    var bs := [Block(HEAP_START, 4, false), Block(HEAP_START + 4, 4, false)];
    assert Wrap(4 - 6) == 0xFFFF_FFFE;
    assert KmallocFrom(bs, 10, 2048, 1) == Steal(bs, 1, 10);
  }

  /** On a tiled heap giving what is left over to a free right neighbour would be sound too. */
  lemma GiveKeeps(bs: Blocks, i: nat, n: u32, slots: nat)
    requires Tiles(bs, HEAP_START) && Top(bs) <= HEAP_END
    requires i + 1 < |bs| && !bs[i + 1].busy && n <= bs[i].size
    ensures var o, rest := Split(bs, i, n, slots), bs[i].size - n;
            && o.Returned? && Tiles(o.blocks, HEAP_START) && Top(o.blocks) == Top(bs)
            && |o.blocks| == |bs| && o.ptr == bs[i].addr && o.blocks[i] == Block(o.ptr, n, true)
            && o.blocks[i + 1].addr == o.ptr + n && o.blocks[i + 1].size == bs[i + 1].size + rest
  {
    hide Tiles, Total, Live, Split;
    var c, q, l, r := bs[i], bs[i + 1], bs[..i], bs[i + 2..];
    TilesAt(bs, i, HEAP_START);
    TilesAt(bs, i + 1, HEAP_START);
    var rest := c.size - n;
    PairTiles(bs, i);
    var c', q' := Block(c.addr, n, true), Block(q.addr - rest, q.size + rest, false);
    GiveParts(bs, i, n, slots, c', q');
    PairAt(bs, i, c', q');
    PairMoved(l, c, q, c', q', r);
  }

  /** Two neighbours of a tiled heap tile their part of it. */
  lemma PairTiles(bs: Blocks, i: nat)
    requires Tiles(bs, HEAP_START) && i + 1 < |bs|
    ensures bs == bs[..i] + [bs[i], bs[i + 1]] + bs[i + 2..]
    ensures bs[i].addr == HEAP_START + Total(bs[..i]) && bs[i + 1].addr == bs[i].addr + bs[i].size
    ensures Tiles(bs[..i] + [bs[i], bs[i + 1]] + bs[i + 2..], HEAP_START)
  {
    hide Tiles, Total, Live;
    var mid := [bs[i], bs[i + 1]];
    assert bs == bs[..i] + mid + bs[i + 2..];
    Splice(bs[..i], mid, mid, bs[i + 2..], HEAP_START);
    TwoAny(bs[i], bs[i + 1], HEAP_START + Total(bs[..i]));
  }

  lemma PairAt(bs: Blocks, i: nat, c: Block, q: Block)
    requires i + 1 < |bs|
    ensures var s := bs[..i] + [c, q] + bs[i + 2..];
            |s| == |bs| && s[i] == c && s[i + 1] == q
  {
  }

  lemma GiveParts(bs: Blocks, i: nat, n: u32, slots: nat, c: Block, q: Block)
    requires i + 1 < |bs| && !bs[i + 1].busy && n <= bs[i].size
    requires c == Block(bs[i].addr, n, true) && !q.busy
    requires q.addr == bs[i + 1].addr - (bs[i].size - n) && q.size == bs[i + 1].size + (bs[i].size - n)
    ensures Split(bs, i, n, slots) == Returned(bs[..i] + [c, q] + bs[i + 2..], c.addr)
  {
  }

  lemma TwoAny(x: Block, y: Block, from: int)
    ensures Total([x, y]) == x.size + y.size
    ensures Tiles([x, y], from) <==> x.addr == from && y.addr == from + x.size
  {
    assert [x, y][1..] == [y];
    One(x);
    One(y);
  }

  lemma Empty(bs: Blocks)
    requires bs == []
    ensures Total(bs) == 0 && Live(bs) == map[] && forall from :: Tiles(bs, from)
  {
  }

  lemma One(x: Block)
    ensures Total([x]) == x.size && Tiles([x], x.addr)
    ensures Live([x]) == if x.busy then map[x.addr := x.size] else map[]
  {
  }

  lemma Head(bs: Blocks, from: int)
    requires Tiles(bs, from) && bs != []
    ensures bs[0].addr == from
  {
  }

  lemma Two(x: Block, y: Block)
    requires !y.busy
    ensures Total([x, y]) == x.size + y.size
    ensures Tiles([x, y], x.addr) <==> y.addr == x.addr + x.size
    ensures Live([x, y]) == if x.busy then map[x.addr := x.size] else map[]
  {
    assert [x, y][1..] == [y];
    One(y);
  }

  /** Replacing block i by a tiling of its own bytes keeps the tiling. */
  lemma Replace(bs: Blocks, i: nat, mid: Blocks, from: int)
    requires Tiles(bs, from) && i < |bs|
    requires Tiles(mid, bs[i].addr)
    requires Total(mid) == bs[i].size || i == |bs| - 1
    ensures var bs' := bs[..i] + mid + bs[i + 1..];
            && Tiles(bs', from)
            && Total(bs') == Total(bs) - bs[i].size + Total(mid)
            && Live(bs') == Live(bs[i + 1..]) + Live(mid) + Live(bs[..i])
  {
    hide Tiles, Total, Live;
    TilesAt(bs, i, from);
    var l, r := bs[..i], bs[i + 1..];
    One(bs[i]);
    if i == |bs| - 1 {
      Empty(r);
    }
    TilesConcat(l, mid, from);
    TotalConcat(l, mid);
    LiveConcat(l, mid);
    TilesConcat(l + mid, r, from);
    TotalConcat(l + mid, r);
    LiveConcat(l + mid, r);
  }

  /** Two different live blocks do not overlap. */
  lemma {:induction false} LiveDisjoint(bs: Blocks, from: int, a: u32, b: u32)
    requires Tiles(bs, from) && BusyPositive(bs)
    requires a in Live(bs) && b in Live(bs) && a < b
    ensures a + Live(bs)[a] <= b
  {
    var rest := bs[1..];
    if bs[0].busy && a == bs[0].addr {
      LiveRange(rest, from + bs[0].size, b);
    } else {
      if bs[0].busy && b == bs[0].addr {
        LiveRange(rest, from + bs[0].size, a);
      }
      LiveDisjoint(rest, from + bs[0].size, a, b);
    }
  }

  /** The part of Inv that every successful kmalloc keeps, whatever the request. */
  ghost predicate Shape(bs: Blocks) {
    Tiles(bs, HEAP_START) && NoFreePair(bs)
  }

  /** What a kmalloc that hands out ptr does: one new block of n bytes, all others as they were. */
  ghost predicate Allocated(bs: Blocks, n: u32, bs': Blocks, ptr: u32) {
    && Shape(bs') && ptr >= HEAP_START
    && (BusyPositive(bs') <==> n > 0)
    && (n > 0 ==> ptr !in Live(bs) && Live(bs') == Live(bs)[ptr := n])
  }

  lemma AllocateFit(bs: Blocks, n: u32)
    requires Inv(bs) && FirstFit(bs, n) < |bs|
    ensures var i := FirstFit(bs, n);
            var bs' := InsertAt(bs[i := Block(bs[i].addr, n, true)], i + 1,
                                Block(Wrap(bs[i].addr + n), bs[i].size - n, false));
            Allocated(bs, n, bs', bs[i].addr) && Top(bs') == Top(bs)
  {
    hide Tiles, Total, Live, InsertAt, FirstFit, NoFreePair;
    var i := FirstFit(bs, n);
    TilesAt(bs, i, HEAP_START);
    One(bs[i]);
    var cur, free := Block(bs[i].addr, n, true), Block(Wrap(bs[i].addr + n), bs[i].size - n, false);
    var bs' := InsertAt(bs[i := cur], i + 1, free);
    InsertParts(bs, i, cur, free);
    Two(cur, free);
    Replace(bs, i, [cur, free], HEAP_START);
    KeepsPairs(bs, i, cur, free);
    if n > 0 {
      Apart(bs[..i], bs[i + 1..], HEAP_START, bs[i].addr, bs[i].size);
    } else {
      assert bs'[i].busy && bs'[i].size == 0;
    }
  }

  /** Splitting a free block in two makes no free pair and no empty busy block. */
  lemma KeepsPairs(bs: Blocks, i: nat, cur: Block, free: Block)
    requires NoFreePair(bs) && BusyPositive(bs) && i < |bs| && !bs[i].busy && cur.busy
    ensures NoFreePair(InsertAt(bs[i := cur], i + 1, free))
    ensures cur.size > 0 && !free.busy ==> BusyPositive(InsertAt(bs[i := cur], i + 1, free))
  {
    hide InsertAt;
    var bs' := InsertAt(bs[i := cur], i + 1, free);
    forall j, k | 0 <= j < |bs'| && k == j + 1 && k < |bs'|
      ensures bs'[j].busy || bs'[k].busy
    {
      if k < i {
        assert bs[j].busy || bs[k].busy;
      } else if j > i + 1 {
        assert bs[j - 1].busy || bs[k - 1].busy;
      } else if j == i + 1 {
        assert bs[i].busy || bs[i + 1].busy;
      }
    }
  }

  lemma AllocateGrow(bs: Blocks, n: u32)
    requires Inv(bs) && bs != []
    requires var b := bs[|bs| - 1]; !b.busy && b.size < n
    ensures var b := bs[|bs| - 1];
            var bs' := bs[|bs| - 1 := Block(b.addr, n, true)];
            Allocated(bs, n, bs', b.addr) && Top(bs') == b.addr + n
  {
    hide Tiles, Total, Live;
    var i := |bs| - 1;
    var cur := Block(bs[i].addr, n, true);
    One(bs[i]);
    One(cur);
    Empty(bs[i + 1..]);
    TilesAt(bs, i, HEAP_START);
    assert bs[i := cur] == bs[..i] + [cur] + bs[i + 1..];
    Replace(bs, i, [cur], HEAP_START);
    Apart(bs[..i], bs[i + 1..], HEAP_START, bs[i].addr, bs[i].size);
    var bs' := bs[i := cur];
    forall j, k | 0 <= j < |bs'| && k == j + 1 && k < |bs'|
      ensures bs'[j].busy || bs'[k].busy
    {
      assert bs[j].busy || bs[k].busy;
    }
  }

  lemma AllocateAppend(bs: Blocks, n: u32)
    requires Inv(bs)
    ensures Top(bs) == if bs == [] then HEAP_START else End(bs[|bs| - 1])
    ensures Top(bs) < HEAP_END ==>
              var bs' := bs + [Block(Top(bs), n, true)];
              Allocated(bs, n, bs', Top(bs)) && Top(bs') == Top(bs) + n
  {
    var i := |bs| - 1;
    if bs != [] {
      TilesAt(bs, i, HEAP_START);
      assert bs[i + 1..] == [];
    }
    if Top(bs) < HEAP_END {
      var added := [Block(Top(bs), n, true)];
      TilesConcat(bs, added, HEAP_START);
      TotalConcat(bs, added);
      LiveConcat(bs, added);
      Apart(bs, [], HEAP_START, Top(bs), 0);
      var bs' := bs + added;
      assert Live(added) == map[Top(bs) := n];
      assert bs'[|bs|] == added[0];
      forall j, k | 0 <= j < |bs'| && k == j + 1 && k < |bs'|
        ensures bs'[j].busy || bs'[k].busy
      {
        if k < |bs| {
          assert bs[j].busy || bs[k].busy;
        }
      }
    }
  }

  /** The request can be met inside the heap, or is refused because nothing is left. */
  ghost predicate Fits(bs: Blocks, n: u32) {
    || FirstFit(bs, n) < |bs|
    || Full(bs, n)
    || Top(bs) + n <= HEAP_END
    || (bs != [] && !bs[|bs| - 1].busy && bs[|bs| - 1].addr + n < HEAP_END)
  }

  /** No free block is large enough, the last one cannot be enlarged, and the list reaches the heap's end. */
  ghost predicate Full(bs: Blocks, n: u32) {
    FirstFit(bs, n) == |bs| && !Growable(bs, n) && Top(bs) == HEAP_END
  }

  /** Every slot is in use, and the request needs one more: for what a split leaves over, or for a new block. */
  predicate OutOfSlots(bs: Blocks, n: u32, slots: nat) {
    |bs| == slots && (FirstFit(bs, n) < |bs| || (!Growable(bs, n) && Top(bs) < HEAP_END))
  }

  /** kmalloc on a reachable heap, for every request: the NULL dereference, NULL when full, else one new block. */
  lemma KmallocResult(bs: Blocks, n: u32, slots: nat)
    requires Inv(bs) && |bs| <= slots
    ensures var o := Kmalloc(bs, n, slots);
            && (o.Fault? <==> OutOfSlots(bs, n, slots))
            && (o.Returned? ==>
                  && |o.blocks| <= slots
                  && (o.ptr == 0 <==> Full(bs, n))
                  && (o.ptr == 0 ==> o.blocks == bs)
                  && (o.ptr != 0 ==> Allocated(bs, n, o.blocks, o.ptr))
                  && (o.ptr != 0 ==> (Top(o.blocks) <= HEAP_END <==> Fits(bs, n))))
  {
    hide InsertAt, Live, Total, Tiles, KmallocFrom, FirstFit, NoFreePair, BusyPositive;
    DeadBranches(bs, n, slots, 0);
    AllocateAppend(bs, n);
    if FirstFit(bs, n) < |bs| {
      AllocateFit(bs, n);
    } else if bs != [] && !bs[|bs| - 1].busy {
      assert !Usable(bs[|bs| - 1], n);
      AllocateGrow(bs, n);
    }
  }

  // ---- kfree -----------------------------------------------------------------

  /** kfree acts on the first live block at p, and on nothing when there is none. */
  lemma {:induction false} KfreeFinds(bs: Blocks, p: u32, i: nat) returns (k: nat)
    requires i <= |bs|
    requires forall j :: 0 <= j < i ==> !(bs[j].busy && bs[j].addr == p)
    ensures k <= |bs| && (k < |bs| <==> p in Live(bs))
    ensures k < |bs| ==> bs[k].busy && bs[k].addr == p && KfreeFrom(bs, p, i) == Release(bs, k)
    ensures k == |bs| ==> KfreeFrom(bs, p, i) == bs
    decreases |bs| - i
  {
    LiveMember(bs, p);
    if i == |bs| || (bs[i].busy && bs[i].addr == p) {
      k := i;
    } else {
      k := KfreeFinds(bs, p, i + 1);
    }
  }

  /** Replacing a middle part by another tiling of the same bytes. */
  lemma Splice(l: Blocks, mid: Blocks, mid': Blocks, r: Blocks, from: int)
    requires Tiles(l + mid + r, from)
    requires Total(mid') == Total(mid)
    ensures Tiles(mid, from + Total(l))
    ensures Tiles(mid', from + Total(l)) ==> Tiles(l + mid' + r, from)
    ensures Total(l + mid' + r) == Total(l + mid + r) == Total(l) + Total(mid) + Total(r)
    ensures Live(mid') == Live(mid) ==> Live(l + mid' + r) == Live(l + mid + r)
  {
    hide Tiles, Total, Live;
    TilesConcat(l + mid, r, from);
    TilesConcat(l, mid, from);
    TotalConcat(l, mid);
    TotalConcat(l + mid, r);
    LiveConcat(l, mid);
    LiveConcat(l + mid, r);
    TilesConcat(l + mid', r, from);
    TilesConcat(l, mid', from);
    TotalConcat(l, mid');
    TotalConcat(l + mid', r);
    LiveConcat(l, mid');
    LiveConcat(l + mid', r);
  }

  lemma AbsorbParts(bs: Blocks, k: nat)
    requires k + 1 < |bs|
    ensures bs == bs[..k] + [bs[k], bs[k + 1]] + bs[k + 2..]
    ensures Absorb(bs, k) == bs[..k] + [bs[k].(size := Wrap(bs[k].size + bs[k + 1].size))] + bs[k + 2..]
  {
  }

  lemma InsertParts(bs: Blocks, i: nat, x: Block, y: Block)
    requires i < |bs|
    ensures InsertAt(bs[i := x], i + 1, y) == bs[..i] + [x, y] + bs[i + 1..]
  {
  }

  /** Merging two free neighbours keeps the tiling and every live block. */
  lemma AbsorbKeeps(bs: Blocks, k: nat)
    requires Tiles(bs, HEAP_START) && Top(bs) <= HEAP_END
    requires k + 1 < |bs| && !bs[k].busy && !bs[k + 1].busy
    ensures var bs' := Absorb(bs, k);
            Tiles(bs', HEAP_START) && Top(bs') == Top(bs) && Live(bs') == Live(bs)
    ensures Absorb(bs, k)[k].addr == bs[k].addr && !Absorb(bs, k)[k].busy
  {
    hide Tiles, Total, Live, RemoveAt;
    var x, y := bs[k], bs[k + 1];
    var l, r := bs[..k], bs[k + 2..];
    var m := Block(x.addr, Wrap(x.size + y.size), false);
    AbsorbParts(bs, k);
    Two(x, y);
    One(m);
    Splice(l, [x, y], [x, y], r, HEAP_START);
    Head([x, y], HEAP_START + Total(l));
    Splice(l, [x, y], [m], r, HEAP_START);
  }

  /** Freeing block i removes exactly that block and leaves a heap that is as good as before. */
  lemma ReleaseKeeps(bs: Blocks, i: nat)
    requires Inv(bs) && i < |bs| && bs[i].busy
    ensures Inv(Release(bs, i)) && Top(Release(bs, i)) == Top(bs)
    ensures Live(Release(bs, i)) == Live(bs) - {bs[i].addr}
  {
    hide Tiles, Total, Live, Absorb;
    var cur := bs[i].(busy := false);
    var freed := bs[i := cur];
    LiveAt(bs, i, HEAP_START);
    TilesAt(bs, i, HEAP_START);
    One(bs[i]);
    One(cur);
    assert freed == bs[..i] + [cur] + bs[i + 1..];
    Replace(bs, i, [cur], HEAP_START);
    assert Live(freed) == Live(bs) - {bs[i].addr};
    var k := MergedAt(bs, i);
    if k < i {
      AbsorbKeeps(freed, k);
    }
    MergeLeftAt(bs, i);
    if i + 1 < |bs| && !bs[i + 1].busy {
      AbsorbKeeps(MergeLeft(bs, i), k);
    }
    ReleasePairs(bs, i);
  }

  lemma AbsorbAt(bs: Blocks, k: nat)
    requires k + 1 < |bs|
    ensures var bs' := Absorb(bs, k);
            && |bs'| == |bs| - 1
            && bs'[k].busy == bs[k].busy
            && (forall j {:trigger bs'[j]} :: 0 <= j < k ==> bs'[j] == bs[j])
            && (forall j {:trigger bs'[j]} :: k < j < |bs'| ==> bs'[j] == bs[j + 1])
  {
    hide RemoveAt;
  }

  lemma MergeLeftAt(bs: Blocks, i: nat)
    requires i < |bs|
    ensures var k, bs' := MergedAt(bs, i), MergeLeft(bs, i);
            && |bs'| == |bs| - i + k
            && !bs'[k].busy
            && (forall j {:trigger bs'[j]} :: 0 <= j < k ==> bs'[j] == bs[j])
            && (forall j {:trigger bs'[j]} :: k < j < |bs'| ==> bs'[j] == bs[j + i - k])
  {
    hide Absorb, RemoveAt;
    var freed, bs', k := bs[i := bs[i].(busy := false)], MergeLeft(bs, i), MergedAt(bs, i);
    if k < i {
      AbsorbAt(freed, k);
      forall j | k < j < |bs'| ensures bs'[j] == bs[j + i - k] {
        assert bs'[j] == freed[j + 1];
      }
    }
  }

  /** After a release no free block has a free neighbour. */
  lemma ReleasePairs(bs: Blocks, i: nat)
    requires NoFreePair(bs) && BusyPositive(bs) && i < |bs| && bs[i].busy
    ensures NoFreePair(Release(bs, i)) && BusyPositive(Release(bs, i))
  {
    hide Absorb, MergeLeft;
    MergeLeftAt(bs, i);
    var k, left, bs' := MergedAt(bs, i), MergeLeft(bs, i), Release(bs, i);
    if i + 1 < |bs| && !bs[i + 1].busy {
      AbsorbAt(left, k);
    }
    var d := |bs| - |bs'|;
    assert k > 0 ==> bs[k - 1].busy;
    assert k + 1 < |bs'| ==> bs[k + 1 + d].busy;
    forall j, m | 0 <= j < |bs'| && m == j + 1 && m < |bs'|
      ensures bs'[j].busy || bs'[m].busy
    {
      if m < k {
        assert bs[j].busy || bs[m].busy;
      } else if j > k {
        assert bs[j + d].busy || bs[m + d].busy;
      }
    }
  }

  /** kfree on a reachable heap, for every pointer. */
  lemma KfreeResult(bs: Blocks, p: u32)
    requires Inv(bs)
    ensures Inv(Kfree(bs, p)) && Top(Kfree(bs, p)) == Top(bs)
    ensures Live(Kfree(bs, p)) == Live(bs) - {p}
    ensures p !in Live(bs) ==> Kfree(bs, p) == bs
  {
    var k := KfreeFinds(bs, p, 0);
    if k < |bs| {
      ReleaseKeeps(bs, k);
    }
  }

  lemma {:induction false} ScanShrinks(bs: Blocks, p: u32, i: nat)
    requires i <= |bs|
    ensures |KfreeFrom(bs, p, i)| <= |bs|
    decreases |bs| - i
  {
    hide Absorb;
    if i < |bs| && bs[i].busy && bs[i].addr == p {
      MergeLeftAt(bs, i);
      if i + 1 < |bs| && !bs[i + 1].busy {
        AbsorbAt(MergeLeft(bs, i), MergedAt(bs, i));
      }
    } else if i < |bs| {
      ScanShrinks(bs, p, i + 1);
    }
  }

  /** kfree never makes the list longer. */
  lemma KfreeShrinks(bs: Blocks, p: u32)
    ensures |Kfree(bs, p)| <= |bs|
  {
    ScanShrinks(bs, p, 0);
  }

  // ---- how many entries the list needs ------------------------------------------

  /** A reachable list has at most one free entry more than it has live ones. */
  lemma {:induction false} SlotBound(bs: Blocks, from: int)
    requires Tiles(bs, from) && NoFreePair(bs) && BusyPositive(bs)
    ensures |bs| <= 2 * |Live(bs)| + (if bs != [] && bs[0].busy then 0 else 1)
    decreases |bs|
  {
    if bs != [] {
      var rest := bs[1..];
      assert NoFreePair(rest) by {
        forall i, j | 0 <= i < |rest| && j == i + 1 && j < |rest| ensures rest[i].busy || rest[j].busy {
          assert bs[i + 1].busy || bs[j + 1].busy;
        }
      }
      SlotBound(rest, from + bs[0].size);
      if bs[0].busy {
        if bs[0].addr in Live(rest) {
          LiveRange(rest, from + bs[0].size, bs[0].addr);
        }
      } else if rest != [] {
        assert bs[0].busy || bs[1].busy;
      }
    }
  }
}
