/**
 The segment loop of elf_exec (kernel/src/kernel/vfs/elf.c:34-73) on values: which
 pages are mapped, and which physical bytes are written through the new directory.
 */
module ElfImage {
  import opened Machine
  import opened Paging

  const TASK_PAGES := 32  // entries of the new page table, and of task_mem.pages

  /** The used fields of a program header. */
  datatype Segment = Segment(offset: nat, vaddr: u32, filesz: u32, memsz: u32)

  /** The bitmap and the task's table, physical memory, and task_mem.pages. */
  datatype Image = Image(space: Space, phys: Memory, pages: seq<u32>)

  function PageCount(g: Segment): nat { g.memsz / 4096 + 1 }

  function FirstPage(g: Segment): nat { g.vaddr / 4096 }

  /** Translation below 4 MB, where the new directory points to the task's own table. */
  function Locate(table: Table, lin: nat): Option<nat> {
    if lin / 4096 < |table| && table[lin / 4096].present
    then Some(table[lin / 4096].page * 4096 + lin % 4096)
    else None
  }

  /** bind_table for address 0 makes the walk read the task's table, whatever the kernel's directory holds. */
  lemma LocateIsTranslate(kernelDir: Table, tables: Tables, pt: u32, table: Table, lin: u32)
    requires |kernelDir| == 1024 && |table| <= 1024 && lin < TABLE_SIZE
    ensures var dir := BindTable(kernelDir, pt, 0, false);
            Translate(dir, tables[Wrap(pt - VIRT_BASE) / 4096 := table], lin) == Locate(table, lin)
  {
    assert Pde(lin) == 0 && Pte(lin) == lin / 4096;
  }

  /** alloc_page for pages i .. n-1 of a segment. */
  function MapRange(s: Space, vaddr: u32, i: nat, n: nat): (r: Space)
    requires |s.bm| == BITMAP_WORDS && |s.table| == TASK_PAGES
    requires i <= n && vaddr / 4096 + n <= TASK_PAGES
    ensures |r.bm| == BITMAP_WORDS && |r.table| == TASK_PAGES
    decreases n - i
  {
    if i == n then s else MapRange(Alloc(s, vaddr + i * 4096, false).0, vaddr, i + 1, n)
  }

  function PageAddresses(vaddr: u32, i: nat, n: nat): (r: seq<u32>)
    requires i <= n && vaddr / 4096 + n <= TASK_PAGES
    ensures |r| == n - i
    ensures forall j :: 0 <= j < |r| ==> r[j] == vaddr + (i + j) * 4096
    decreases n - i
  {
    if i == n then [] else [vaddr + i * 4096] + PageAddresses(vaddr, i + 1, n)
  }

  /** Bytes copied to linear addresses from lin on; None is a page fault. */
  function CopyIn(phys: Memory, table: Table, lin: nat, bytes: seq<byte>): Option<Memory>
    decreases |bytes|
  {
    if bytes == [] then Some(phys)
    else
      match Locate(table, lin)
      case None => None
      case Some(p) => CopyIn(phys[p := bytes[0]], table, lin + 1, bytes[1..])
  }

  function Zeros(n: nat): (r: seq<byte>)
    ensures |r| == n && forall i :: 0 <= i < n ==> r[i] == 0
  {
    seq(n, _ => 0)
  }

  /** What the loop body writes: the file's bytes, or zeros when there are none. */
  function Contents(file: seq<byte>, g: Segment): seq<byte>
    requires g.offset + g.filesz <= |file|
  {
    if g.filesz == 0 then Zeros(g.memsz) else file[g.offset..g.offset + g.filesz]
  }

  /** One turn of the loop; None when it runs out of the table, of task_mem.pages or into a page fault. */
  function LoadSegment(im: Image, file: seq<byte>, g: Segment): (r: Option<Image>)
    requires |im.space.bm| == BITMAP_WORDS && |im.space.table| == TASK_PAGES
    requires g.offset + g.filesz <= |file|
    ensures r.Some? ==> |r.value.space.bm| == BITMAP_WORDS && |r.value.space.table| == TASK_PAGES
  {
    var n := PageCount(g);
    if g.memsz == 0 then Some(im)
    else if FirstPage(g) + n > TASK_PAGES || |im.pages| + n > TASK_PAGES then None
    else
      var s := MapRange(im.space, g.vaddr, 0, n);
      match CopyIn(im.phys, s.table, g.vaddr, Contents(file, g))
      case None => None
      case Some(phys) => Some(Image(s, phys, im.pages + PageAddresses(g.vaddr, 0, n)))
  }

  function Load(im: Image, file: seq<byte>, gs: seq<Segment>): Option<Image>
    requires |im.space.bm| == BITMAP_WORDS && |im.space.table| == TASK_PAGES
    requires forall g :: g in gs ==> g.offset + g.filesz <= |file|
    decreases |gs|
  {
    if gs == [] then Some(im)
    else
      match LoadSegment(im, file, gs[0])
      case None => None
      case Some(next) => Load(next, file, gs[1..])
  }

  /** The loop of task_delete: unbind_page for every recorded address. */
  function Unload(s: Space, pages: seq<u32>): (r: Space)
    requires |s.bm| == BITMAP_WORDS && |s.table| == TASK_PAGES
    requires forall i :: 0 <= i < |pages| ==> pages[i] / 4096 < TASK_PAGES
    ensures |r.bm| == BITMAP_WORDS && |r.table| == TASK_PAGES
    decreases |pages|
  {
    if pages == [] then s else Unload(Unbind(s, pages[0], false), pages[1..])
  }
}
