/** The segment loop of elf_exec in place, on the page table array, the pages array and physical memory. */
module Elf {
  import opened Machine
  import opened Paging
  import opened Mmu
  import opened ElfImage

  class Loader {
    const mmu: Mmu
    const pageTable: array<Entry>
    const pages: array<u32>
    var pagesCount: nat
    var phys: Memory

    ghost predicate Valid()
      reads this, mmu, pages
    {
      && mmu.Valid() && mmu.Separate(pageTable) && !mmu.kernelPagesOperations
      && pageTable.Length == TASK_PAGES && pages.Length == TASK_PAGES
      && pages as object != mmu.pagesBitmap as object && pages as object != pageTable as object
      && pagesCount <= TASK_PAGES
    }

    ghost function View(): Image
      requires Valid()
      reads this, mmu, mmu.pagesBitmap, pageTable, pages
    {
      Image(Space(mmu.pagesBitmap[..], pageTable[..]), phys, pages[..pagesCount])
    }

    constructor (mmu: Mmu, phys: Memory)
      requires mmu.Valid() && !mmu.kernelPagesOperations
      ensures Valid() && this.mmu == mmu && fresh(pageTable) && fresh(pages)
      ensures View() == Image(Space(mmu.pagesBitmap[..], seq(TASK_PAGES, _ => ZeroEntry)), phys, [])
    {
      this.mmu := mmu;
      pageTable := new Entry[TASK_PAGES](_ => ZeroEntry);
      pages := new u32[TASK_PAGES](_ => 0);
      pagesCount := 0;
      this.phys := phys;
    }

    /** The inner loop: one page of the pages array and one alloc_page per page of the segment. */
    method MapPages(vaddr: u32, n: nat)
      requires Valid() && vaddr / 4096 + n <= TASK_PAGES && pagesCount + n <= TASK_PAGES
      modifies this`pagesCount, pageTable, pages, mmu.pagesBitmap
      ensures Valid()
      ensures View() == Image(MapRange(old(View().space), vaddr, 0, n), phys,
                              old(View().pages) + PageAddresses(vaddr, 0, n))
    {
      hide Alloc;
      ghost var s0, was := View().space, View().pages;
      ghost var addrs := PageAddresses(vaddr, 0, n);
      var i := 0;
      while i < n
        invariant 0 <= i <= n && Valid() && pagesCount == |was| + i
        invariant pages[..pagesCount] == was + addrs[..i]
        invariant MapRange(s0, vaddr, 0, n) == MapRange(View().space, vaddr, i, n)
      {
        pages[pagesCount] := vaddr + i * 4096;
        assert pages[..pagesCount] == was + addrs[..i];
        var frame := mmu.AllocPage(pageTable, vaddr + i * 4096);
        pagesCount := pagesCount + 1;
        assert addrs[..i + 1] == addrs[..i] + [addrs[i]];
        i := i + 1;
      }
      assert addrs[..n] == addrs;
    }

    /** The copy under the new directory; false is a page fault. */
    method Copy(lin: u32, bytes: seq<byte>) returns (ok: bool)
      requires Valid()
      modifies `phys
      ensures Valid()
      ensures ok <==> CopyIn(old(phys), pageTable[..], lin, bytes).Some?
      ensures ok ==> phys == CopyIn(old(phys), pageTable[..], lin, bytes).value
    {
      var i := 0;
      ghost var table := pageTable[..];
      assert bytes[0..] == bytes;
      while i < |bytes|
        invariant 0 <= i <= |bytes| && Valid()
        invariant CopyIn(old(phys), table, lin, bytes) == CopyIn(phys, table, lin + i, bytes[i..])
      {
        assert bytes[i..][1..] == bytes[i + 1..];
        var a: nat := lin + i;
        if a / 4096 >= TASK_PAGES || !pageTable[a / 4096].present {
          return false;
        }
        phys := phys[pageTable[a / 4096].page * 4096 + a % 4096 := bytes[i]];
        i := i + 1;
      }
      ok := true;
    }

    /** One turn of the segment loop. */
    method Segment(file: seq<byte>, g: Segment) returns (ok: bool)
      requires Valid() && g.offset + g.filesz <= |file|
      modifies this, pageTable, pages, mmu.pagesBitmap
      ensures Valid()
      ensures ok <==> LoadSegment(old(View()), file, g).Some?
      ensures ok ==> View() == LoadSegment(old(View()), file, g).value
    {
      hide MapRange, CopyIn;
      if g.memsz == 0 {
        return true;
      }
      var n := g.memsz / 4096 + 1;
      if g.vaddr / 4096 + n > TASK_PAGES || pagesCount + n > TASK_PAGES {
        return false;
      }
      MapPages(g.vaddr, n);
      if g.filesz == 0 {
        ok := Copy(g.vaddr, Zeros(g.memsz));
      } else {
        ok := Copy(g.vaddr, file[g.offset..g.offset + g.filesz]);
      }
    }

    /** The loop over the program headers. */
    method Exec(file: seq<byte>, gs: seq<Segment>) returns (ok: bool)
      requires Valid() && forall g :: g in gs ==> g.offset + g.filesz <= |file|
      modifies this, pageTable, pages, mmu.pagesBitmap
      ensures Valid()
      ensures ok <==> Load(old(View()), file, gs).Some?
      ensures ok ==> View() == Load(old(View()), file, gs).value
    {
      hide LoadSegment;
      assert gs[0..] == gs;
      for i := 0 to |gs|
        invariant Valid()
        invariant Load(old(View()), file, gs) == Load(View(), file, gs[i..])
      {
        assert gs[i..][0] == gs[i] && gs[i..][1..] == gs[i + 1..];
        ok := this.Segment(file, gs[i]);
        if !ok {
          return;
        }
      }
      ok := true;
    }

    /** The loop of task_delete over task_mem.pages. */
    method Release()
      requires Valid() && forall i :: 0 <= i < pagesCount ==> pages[i] / 4096 < TASK_PAGES
      modifies pageTable, mmu.pagesBitmap
      ensures Valid()
      ensures View().space == Unload(old(View().space), old(View().pages)) && View().pages == old(View().pages)
    {
      hide Unbind;
      ghost var was, list := View().space, View().pages;
      assert list[0..] == list;
      for i := 0 to pagesCount
        invariant Valid() && View().pages == list
        invariant Unload(was, list) == Unload(View().space, list[i..])
      {
        assert list[i..][0] == pages[i] && list[i..][1..] == list[i + 1..];
        mmu.UnbindPage(pageTable, pages[i]);
      }
    }
  }
}
