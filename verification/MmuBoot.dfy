/** init_memory_manager (kernel/src/kernel/memory/mmu.c:43-68): the kernel's own mappings at boot. */
module MmuBoot {
  import opened Machine
  import opened PageBits
  import opened Paging
  import opened Mmu
  import HeapBlocks
  import HeapInvariant

  const HEAP_LINEAR := 0xC100_0000  // VIRT_BASE + KERNEL_LOWER_TABLES * TABLE_SIZE
  const FIRST_HEAP_PAGE := 4096     // KERNEL_LOWER_TABLES * PAGES_PER_TABLE
  const LAST_PAGE := 8192           // pages of the lower and higher kernel tables

  // ---- the mask of the boot loop -----------------------------------------------------

  /** a & b on unsigned numbers, binary digit by binary digit. */
  function BitAnd(a: nat, b: nat): nat {
    if a == 0 || b == 0 then 0 else a % 2 * (b % 2) + 2 * BitAnd(a / 2, b / 2)
  }

  /** x << n. */
  function Shl(x: nat, n: nat): nat {
    if n == 0 then x else 2 * Shl(x, n - 1)
  }

  /** x >> n. */
  function Shr(x: nat, n: nat): nat {
    if n == 0 then x else Shr(x / 2, n - 1)
  }

  /** The number of n ones. */
  function Ones(n: nat): nat {
    if n == 0 then 0 else 2 * Ones(n - 1) + 1
  }

  /** Masking with n zeros at the end clears the last n digits. */
  lemma {:induction false} AndShl(a: nat, m: nat, n: nat)
    ensures BitAnd(a, Shl(m, n)) == Shl(BitAnd(Shr(a, n), m), n)
    decreases n
  {
    hide BitAnd;
    if n > 0 {
      AndTwice(a, Shl(m, n - 1));
      AndShl(a / 2, m, n - 1);
    }
  }

  lemma AndTwice(a: nat, b: nat)
    ensures BitAnd(a, 2 * b) == 2 * BitAnd(a / 2, b)
  {
  }

  lemma {:induction false} AndOnes(a: nat, n: nat)
    requires a <= Ones(n)
    ensures BitAnd(a, Ones(n)) == a
  {
    if n > 0 {
      AndOnes(a / 2, n - 1);
    }
  }

  lemma TenLeft(x: nat)
    ensures Shl(x, 10) == 1024 * x
  {
    assert Shl(x, 1) == 2 * x;
    assert Shl(x, 3) == 2 * Shl(x, 2) == 8 * x;
    assert Shl(x, 5) == 2 * Shl(x, 4) == 32 * x;
    assert Shl(x, 7) == 2 * Shl(x, 6) == 128 * x;
    assert Shl(x, 9) == 2 * Shl(x, 8) == 512 * x;
  }

  lemma FiveRight(x: nat, n: nat)
    ensures Shr(x, n + 5) == Shr(x / 32, n)
  {
    var a, b, c, d := x / 2, x / 4, x / 8, x / 16;
    assert Shr(x, n + 5) == Shr(a, n + 4);
    assert a / 2 == b && Shr(a, n + 4) == Shr(b, n + 3);
    assert b / 2 == c && Shr(b, n + 3) == Shr(c, n + 2);
    assert c / 2 == d && Shr(c, n + 2) == Shr(d, n + 1);
    assert d / 2 == x / 32 && Shr(d, n + 1) == Shr(x / 32, n);
  }

  lemma TenRight(x: nat)
    ensures Shr(x, 10) == x / 1024
  {
    FiveRight(x, 5);
    FiveRight(x / 32, 0);
  }

  /** k & (TABLE_BIT_FIELD >> 2): where the boot loop takes the table of flat entry k to start. */
  function MaskedIndex(k: nat): nat {
    BitAnd(k, Shr(0x3F_F000, 2))
  }

  /** For every index the tables could have, the masked index is the start of entry k's table. */
  lemma MaskIsTableStart(k: nat)
    requires k < 0x10_0000
    ensures MaskedIndex(k) == k - k % 1024
  {
    hide BitAnd;
    TenRight(k);
    TenLeft(1023);
    TenLeft(k / 1024);
    AndShl(k, 1023, 10);
    assert Ones(10) == 1023;
    AndOnes(k / 1024, 10);
    assert Shr(0x3F_F000, 2) == 0xF_FC00;
  }

  /** Frame k of the kernel is mapped by flat entry k. */
  ghost predicate MappedUpTo(kpt: Table, k: int) {
    |kpt| == LAST_PAGE && forall j {:trigger kpt[j]} :: FIRST_HEAP_PAGE <= j < k && j < LAST_PAGE ==>
                            kpt[j] == Entry(true, true, false, j)
  }

  /** The directory entries of the heap tables whose first frame is below k. */
  ghost predicate LinkedUpTo(kpd: Table, base: u32, k: int)
    requires base >= VIRT_BASE
  {
    |kpd| == 1024 && forall n: nat {:trigger kpd[772 + n]} :: 0 <= n < 4 && FIRST_HEAP_PAGE + 1024 * n < k ==>
      kpd[772 + n] == Entry(true, true, false, (base - VIRT_BASE) / 4096 + 4 + n)
  }

  /** The bitmap: pages below k are marked, pages of the task zone are as they were. */
  ghost predicate MarkedUpTo(bm: Bitmap, was: Bitmap, k: int) {
    && |bm| == |was| == BITMAP_WORDS
    && (forall page :: 0 <= page < k && page < LAST_PAGE ==> Marked(bm, page))
    && (forall page :: LAST_PAGE <= page < 32 * BITMAP_WORDS ==> Marked(bm, page) == Marked(was, page))
  }

  /** The entries of the lower 16 MB are as they were. */
  ghost predicate LowerKept(kpt: Table, was: Table) {
    |kpt| == |was| == LAST_PAGE && forall j {:trigger kpt[j]} :: 0 <= j < FIRST_HEAP_PAGE ==> kpt[j] == was[j]
  }

  /** The directory entries of all but the four heap tables are as they were. */
  ghost predicate OthersKept(kpd: Table, was: Table) {
    |kpd| == |was| == 1024 && forall n {:trigger kpd[n]} :: 0 <= n < 1024 && !(772 <= n < 776) ==> kpd[n] == was[n]
  }

  /** Where the flat kernel table may lie: page-aligned in the kernel's linear memory. */
  predicate TableBase(base: u32) {
    VIRT_BASE <= base && base % 4096 == 0 && base + 4 * LAST_PAGE < TWO32
  }

  /** memset over the bitmap: the byte count is used where a word count was meant, so 128 of 512 words are cleared. */
  method ClearStart(mmu: Mmu)
    requires mmu.Valid()
    modifies mmu.pagesBitmap
    ensures forall w :: 0 <= w < 128 ==> mmu.pagesBitmap[w] == 0
    ensures forall w :: 128 <= w < BITMAP_WORDS ==> mmu.pagesBitmap[w] == old(mmu.pagesBitmap[w])
  {
    for w := 0 to 128
      invariant forall v :: 0 <= v < w ==> mmu.pagesBitmap[v] == 0
      invariant forall v :: 128 <= v < BITMAP_WORDS ==> mmu.pagesBitmap[v] == old(mmu.pagesBitmap[v])
    {
      mmu.pagesBitmap[w] := 0;
    }
  }

  /** The first 16 MB, word by word. */
  method MarkLower(mmu: Mmu)
    requires mmu.Valid()
    modifies mmu.pagesBitmap
    ensures forall w :: 0 <= w < 128 ==> mmu.pagesBitmap[w] == 0xFFFF_FFFF
    ensures forall w :: 128 <= w < BITMAP_WORDS ==> mmu.pagesBitmap[w] == old(mmu.pagesBitmap[w])
  {
    for i := 0 to 4
      invariant forall w :: 0 <= w < 32 * i ==> mmu.pagesBitmap[w] == 0xFFFF_FFFF
      invariant forall w :: 128 <= w < BITMAP_WORDS ==> mmu.pagesBitmap[w] == old(mmu.pagesBitmap[w])
    {
      for j := 0 to 32
        invariant forall w :: 0 <= w < 32 * i + j ==> mmu.pagesBitmap[w] == 0xFFFF_FFFF
        invariant forall w :: 128 <= w < BITMAP_WORDS ==> mmu.pagesBitmap[w] == old(mmu.pagesBitmap[w])
      {
        mmu.pagesBitmap[i * 32 + j] := 0xFFFF_FFFF;
      }
    }
  }

  lemma LowerMarked(bm: Bitmap, was: Bitmap)
    requires |bm| == |was| == BITMAP_WORDS
    requires forall w :: 0 <= w < 128 ==> bm[w] == 0xFFFF_FFFF
    requires forall w :: 128 <= w < BITMAP_WORDS ==> bm[w] == was[w]
    ensures MarkedUpTo(bm, was, FIRST_HEAP_PAGE)
  {
    hide BitAt;
    forall page: nat | page < FIRST_HEAP_PAGE ensures Marked(bm, page) {
      FullWord((page % 32) as bv5);
    }
  }

  lemma MarkedOneMore(bm: Bitmap, was: Bitmap, k: nat)
    requires MarkedUpTo(bm, was, k) && k < LAST_PAGE
    ensures MarkedUpTo(Mark(bm, k, true), was, k + 1)
  {
    hide Marked, Mark;
    forall page: nat | page < 32 * BITMAP_WORDS
      ensures Marked(Mark(bm, k, true), page) == (page == k || Marked(bm, page))
    {
      MarkExactly(bm, k, true, page);
    }
  }

  /**
   init_memory_manager: afterwards every kernel heap frame is mapped by its flat entry, the four
   heap tables are in the directory, and exactly the first 32 MB are marked besides what was
   marked of the task zone before.
   */
  method InitMemoryManager(mmu: Mmu, kpd: array<Entry>, kpt: array<Entry>, base: u32)
    requires mmu.Valid() && mmu.Separate(kpt) && mmu.Separate(kpd) && kpd != kpt
    requires kpd.Length == 1024 && kpt.Length == LAST_PAGE && TableBase(base)
    modifies mmu`kernelPagesOperations, mmu.pagesBitmap, kpd, kpt
    ensures MappedUpTo(kpt[..], LAST_PAGE)
    ensures LinkedUpTo(kpd[..], base, LAST_PAGE)
    ensures MarkedUpTo(mmu.pagesBitmap[..], old(mmu.pagesBitmap[..]), LAST_PAGE)
    ensures LowerKept(kpt[..], old(kpt[..])) && OthersKept(kpd[..], old(kpd[..]))
    ensures !mmu.kernelPagesOperations
  {
    hide Marked, Mark, MappedUpTo, LinkedUpTo, MarkedUpTo, LowerKept, OthersKept, Bind, BindTable, MaskedIndex;
    ghost var was := mmu.pagesBitmap[..];
    ClearStart(mmu);
    MarkLower(mmu);
    LowerMarked(mmu.pagesBitmap[..], was);
    NothingMapped(kpt[..], kpd[..], base);
    ghost var kpt0, kpd0 := kpt[..], kpd[..];
    var k := FIRST_HEAP_PAGE;
    mmu.kernelPagesOperations := true;
    var i: u32 := HEAP_LINEAR;
    while i < KERNEL_PAGES_END
      invariant FIRST_HEAP_PAGE <= k <= LAST_PAGE && i == HEAP_LINEAR + (k - FIRST_HEAP_PAGE) * 4096
      invariant mmu.kernelPagesOperations
      invariant MappedUpTo(kpt[..], k)
      invariant LinkedUpTo(kpd[..], base, k)
      invariant MarkedUpTo(mmu.pagesBitmap[..], was, k)
      invariant LowerKept(kpt[..], kpt0) && OthersKept(kpd[..], kpd0)
      decreases KERNEL_PAGES_END - i
    {
      ghost var bm, dir, flat := mmu.pagesBitmap[..], kpd[..], kpt[..];
      if i % TABLE_SIZE == 0 {
        TableStart(k, i, base);
        mmu.BindTableAt(kpd, base + 4 * k, i);
      }
      LinkedOneMore(dir, kpd[..], base, k, i);
      MaskIsTableStart(k);
      HeapPageBound(Space(bm, flat), k, i);
      mmu.BindPage(kpt, MaskedIndex(k), i, i - VIRT_BASE);
      MarkedOneMore(bm, was, k);
      MappedOneMore(flat, k);
      KeptOneMore(flat, kpt0, k, dir, kpd0, base, i);
      i := i + 4096;
      k := k + 1;
    }
    mmu.kernelPagesOperations := false;
  }

  /** A table starts at the pages whose number is a multiple of 1024, and gets the directory entry of its address. */
  lemma TableStart(k: nat, i: u32, base: u32)
    requires FIRST_HEAP_PAGE <= k < LAST_PAGE && i == HEAP_LINEAR + (k - FIRST_HEAP_PAGE) * 4096
    requires TableBase(base) && i % TABLE_SIZE == 0
    ensures k % 1024 == 0 && Pde(i) == 768 + k / 1024
    ensures Wrap(base + 4 * k - VIRT_BASE) / 4096 == (base - VIRT_BASE) / 4096 + k / 1024
  {
  }

  /** What bind_page does for the k-th frame of the kernel in the flat table. */
  lemma HeapPageBound(s: Space, k: nat, i: u32)
    requires |s.bm| == BITMAP_WORDS && |s.table| == LAST_PAGE
    requires FIRST_HEAP_PAGE <= k < LAST_PAGE && i == HEAP_LINEAR + (k - FIRST_HEAP_PAGE) * 4096
    ensures k - k % 1024 + Pte(i) == k
    ensures Bind(s, k - k % 1024, i, i - VIRT_BASE, true)
         == Space(Mark(s.bm, k, true), s.table[k := Entry(true, true, false, k)])
  {
    hide Mark, Pte;
    HeapPte(k, i);
  }

  lemma HeapPte(k: nat, i: u32)
    requires FIRST_HEAP_PAGE <= k < LAST_PAGE && i == HEAP_LINEAR + (k - FIRST_HEAP_PAGE) * 4096
    ensures Pte(i) == k % 1024 && (i - VIRT_BASE) / 4096 == k
  {
  }

  lemma NothingMapped(kpt: Table, kpd: Table, base: u32)
    requires |kpt| == LAST_PAGE && |kpd| == 1024 && TableBase(base)
    ensures MappedUpTo(kpt, FIRST_HEAP_PAGE) && LinkedUpTo(kpd, base, FIRST_HEAP_PAGE)
    ensures LowerKept(kpt, kpt) && OthersKept(kpd, kpd)
  {
  }

  /** Neither write of an iteration meets an entry below the heap or another table's directory entry. */
  lemma KeptOneMore(flat: Table, kpt0: Table, k: nat, dir: Table, kpd0: Table, base: u32, i: u32)
    requires LowerKept(flat, kpt0) && OthersKept(dir, kpd0)
    requires FIRST_HEAP_PAGE <= k < LAST_PAGE && i == HEAP_LINEAR + (k - FIRST_HEAP_PAGE) * 4096
    requires TableBase(base)
    ensures LowerKept(flat[k := Entry(true, true, false, k)], kpt0)
    ensures i % TABLE_SIZE == 0 ==> OthersKept(BindTable(dir, base + 4 * k, i, true), kpd0)
  {
    assert 772 <= Pde(i) < 776;
  }

  lemma MappedOneMore(kpt: Table, k: nat)
    requires FIRST_HEAP_PAGE <= k < LAST_PAGE && MappedUpTo(kpt, k)
    ensures MappedUpTo(kpt[k := Entry(true, true, false, k)], k + 1)
  {
  }

  lemma LinkedOneMore(dir: Table, dir': Table, base: u32, k: nat, i: u32)
    requires FIRST_HEAP_PAGE <= k < LAST_PAGE && i == HEAP_LINEAR + (k - FIRST_HEAP_PAGE) * 4096
    requires TableBase(base) && LinkedUpTo(dir, base, k)
    requires dir' == if i % TABLE_SIZE == 0 then BindTable(dir, base + 4 * k, i, true) else dir
    ensures LinkedUpTo(dir', base, k + 1)
  {
    if i % TABLE_SIZE == 0 {
      TableStart(k, i, base);
    }
  }

  /** The frames of the eight kernel tables. */
  function TableFrames(p0: nat): set<nat> {
    {p0, p0 + 1, p0 + 2, p0 + 3, p0 + 4, p0 + 5, p0 + 6, p0 + 7}
  }

  /** The kernel tables as the processor finds them: 1024 flat entries to each page from base on. */
  ghost function KernelTables(kpt: Table, base: u32): Tables
    requires |kpt| == LAST_PAGE && TableBase(base)
  {
    var p0 := (base - VIRT_BASE) / 4096;
    map p: nat | p in TableFrames(p0) ::
      kpt[1024 * (p - p0)..1024 * (p - p0 + 1)]
  }

  /** After boot every kernel-heap linear address translates through directory and table to itself minus VIRT_BASE. */
  lemma HeapIsMapped(kpt: Table, kpd: Table, base: u32, lin: u32)
    requires TableBase(base) && MappedUpTo(kpt, LAST_PAGE) && LinkedUpTo(kpd, base, LAST_PAGE)
    requires HEAP_LINEAR <= lin < KERNEL_PAGES_END
    ensures Translate(kpd, KernelTables(kpt, base), lin) == Some(lin - VIRT_BASE)
  {
    var n := lin / TABLE_SIZE - 772;
    var p0 := (base - VIRT_BASE) / 4096;
    assert 0 <= n < 4 && Pde(lin) == 772 + n;
    assert kpd[772 + n] == Entry(true, true, false, p0 + 4 + n);
    var t := KernelTables(kpt, base)[p0 + 4 + n];
    assert t[Pte(lin)] == kpt[1024 * (4 + n) + Pte(lin)];
    assert 1024 * (4 + n) + Pte(lin) == lin / 4096 - VIRT_BASE / 4096;
  }

  /** The frames of the four heap tables. */
  function HeapFrames(base: u32): set<nat>
    requires TableBase(base)
  {
    var p0 := (base - VIRT_BASE) / 4096;
    {p0 + 4, p0 + 5, p0 + 6, p0 + 7}
  }

  /** Boot changes the translation of no address outside the heap tables' directory entries and frames. */
  lemma TranslationKept(kpt: Table, was: Table, kpd: Table, kpd0: Table, base: u32, lin: u32)
    requires TableBase(base) && LowerKept(kpt, was) && OthersKept(kpd, kpd0)
    requires !(772 <= Pde(lin) < 776) && kpd0[Pde(lin)].page !in HeapFrames(base)
    ensures Translate(kpd, KernelTables(kpt, base), lin) == Translate(kpd0, KernelTables(was, base), lin)
  {
    hide KernelTables, TableFrames, Pte;
    var p0, page := (base - VIRT_BASE) / 4096, kpd0[Pde(lin)].page;
    KernelFrames(kpt, base, page);
    KernelFrames(was, base, page);
    PteBound(lin);
    if p0 <= page < p0 + 4 {
      KernelEntry(kpt, base, page - p0, Pte(lin));
      KernelEntry(was, base, page - p0, Pte(lin));
    }
  }

  lemma PteBound(lin: u32)
    ensures Pte(lin) < 1024
  {
  }

  /** The kernel tables lie in eight frames. */
  lemma KernelFrames(kpt: Table, base: u32, page: nat)
    requires |kpt| == LAST_PAGE && TableBase(base)
    ensures page in KernelTables(kpt, base) <==> (base - VIRT_BASE) / 4096 <= page < (base - VIRT_BASE) / 4096 + 8
  {
  }

  /** Entry e of kernel table n is the flat entry 1024 * n + e. */
  lemma KernelEntry(kpt: Table, base: u32, n: nat, e: nat)
    requires |kpt| == LAST_PAGE && TableBase(base) && n < 8 && e < 1024
    ensures var p0 := (base - VIRT_BASE) / 4096;
            && p0 + n in KernelTables(kpt, base)
            && |KernelTables(kpt, base)[p0 + n]| == 1024
            && KernelTables(kpt, base)[p0 + n][e] == kpt[1024 * n + e]
  {
    assert kpt[1024 * n..1024 * (n + 1)][e] == kpt[1024 * n + e];
  }

  /** What start.asm leaves: the first 16 MB mapped at VIRT_BASE through the first four tables. */
  ghost predicate LowerMapped(kpt: Table, kpd: Table, base: u32)
    requires TableBase(base)
  {
    && |kpt| == LAST_PAGE && |kpd| == 1024
    && (forall j {:trigger kpt[j]} :: 0 <= j < FIRST_HEAP_PAGE ==> kpt[j].present && kpt[j].page == j)
    && (forall n: nat {:trigger kpd[768 + n]} :: n < 4 ==>
          kpd[768 + n].present && kpd[768 + n].page == (base - VIRT_BASE) / 4096 + n)
  }

  /** After boot the kernel's own first 16 MB still translate to themselves minus VIRT_BASE. */
  lemma LowerStaysMapped(kpt: Table, was: Table, kpd: Table, kpd0: Table, base: u32, lin: u32)
    requires TableBase(base) && LowerKept(kpt, was) && OthersKept(kpd, kpd0) && LowerMapped(was, kpd0, base)
    requires VIRT_BASE <= lin < 0xC100_0000
    ensures Translate(kpd, KernelTables(kpt, base), lin) == Some(lin - VIRT_BASE)
  {
    hide KernelTables, TableFrames, HeapFrames, Pte, Pde;
    var n, p0 := lin / TABLE_SIZE - 768, (base - VIRT_BASE) / 4096;
    LowerParts(lin);
    PteBound(lin);
    KernelEntry(was, base, n, Pte(lin));
    assert kpd0[768 + n].present && kpd0[768 + n].page == p0 + n;
    assert was[1024 * n + Pte(lin)].present && was[1024 * n + Pte(lin)].page == 1024 * n + Pte(lin);
    LowerNotHeap(base, n);
    TranslationKept(kpt, was, kpd, kpd0, base, lin);
  }

  lemma LowerNotHeap(base: u32, n: nat)
    requires TableBase(base) && n < 4
    ensures (base - VIRT_BASE) / 4096 + n !in HeapFrames(base)
  {
  }

  lemma LowerParts(lin: u32)
    requires VIRT_BASE <= lin < 0xC100_0000
    ensures var n := lin / TABLE_SIZE - 768;
            && 0 <= n < 4 && Pde(lin) == 768 + n
            && (1024 * n + Pte(lin)) * 4096 + lin % 4096 == lin - VIRT_BASE
  {
    var page := lin / 4096;
    assert page / 1024 == lin / TABLE_SIZE && page == 1024 * (page / 1024) + page % 1024;
  }

  /** Every byte of every live heap block is mapped after boot. */
  lemma LiveBytesMapped(bs: HeapBlocks.Blocks, a: u32, x: u32, kpt: Table, kpd: Table, base: u32)
    requires HeapInvariant.Inv(bs) && a in HeapInvariant.Live(bs) && a <= x < a + HeapInvariant.Live(bs)[a]
    requires TableBase(base) && MappedUpTo(kpt, LAST_PAGE) && LinkedUpTo(kpd, base, LAST_PAGE)
    ensures Translate(kpd, KernelTables(kpt, base), x) == Some(x - VIRT_BASE)
  {
    hide Translate, KernelTables;
    HeapInvariant.LiveRange(bs, HEAP_LINEAR, a);
    HeapIsMapped(kpt, kpd, base, x);
  }

  /** With a bitmap that was all clear, boot leaves exactly the first 32 MB marked; a set task page stays lost. */
  lemma BootBitmap(bm: Bitmap, was: Bitmap)
    requires MarkedUpTo(bm, was, LAST_PAGE)
    ensures (forall page :: 0 <= page < 32 * BITMAP_WORDS ==> (Marked(bm, page) <==> page < LAST_PAGE))
       <==> (forall page :: LAST_PAGE <= page < 32 * BITMAP_WORDS ==> !Marked(was, page))
  {
    hide Marked;
  }
}
