/** kernel/src/kernel/memory/mmu.c in place: the bitmap array and page tables are written entry by entry. */
module Mmu {
  import opened Machine
  import opened PageBits
  import opened Paging

  class Mmu {
    const pagesBitmap: array<bv32>
    var kernelPagesOperations: bool

    ghost predicate Valid()
      reads this
    {
      pagesBitmap.Length == BITMAP_WORDS
    }

    constructor (bitmap: array<bv32>)
      requires bitmap.Length == BITMAP_WORDS
      ensures Valid() && pagesBitmap == bitmap && !kernelPagesOperations
    {
      pagesBitmap := bitmap;
      kernelPagesOperations := false;
    }

    /** The table is not the bitmap: true of any two arrays of these types, but the verifier has to be told. */
    ghost predicate Separate(pt: array<Entry>) {
      pt as object != pagesBitmap as object
    }

    /** get_page_from_bitmap. */
    method GetPage(addr: u32) returns (b: bool)
      requires Valid() && addr / 131072 < BITMAP_WORDS
      ensures b == Marked(pagesBitmap[..], addr / 4096)
    {
      b := Bit(pagesBitmap[addr / 131072], addr / 4096 % 32);
    }

    /** set_page_to_bitmap; its bitmap argument is ignored by the code. */
    method SetPage(addr: u32, value: bool)
      requires Valid() && addr / 131072 < BITMAP_WORDS
      modifies pagesBitmap
      ensures pagesBitmap[..] == Mark(old(pagesBitmap[..]), addr / 4096, value)
    {
      hide SetAt, ClearAt;
      var w, x := addr / 131072, (addr / 4096 % 32) as bv5;
      if !value {
        pagesBitmap[w] := ClearAt(pagesBitmap[w], x);
      } else {
        pagesBitmap[w] := SetAt(pagesBitmap[w], x);
      }
    }

    /** simple_page_bitmap_callback. */
    method Callback(phys: u32, value: bool)
      requires Valid()
      modifies pagesBitmap
      ensures pagesBitmap[..] == Track(old(pagesBitmap[..]), phys, value)
    {
      if phys / 131072 < BITMAP_WORDS {
        SetPage(phys, value);
      }
    }

    /** bind_page on the table that starts at entry off of pt. */
    method BindPage(pt: array<Entry>, off: nat, lin: u32, phys: u32)
      requires Valid() && Separate(pt) && off + Pte(lin) < pt.Length
      modifies pt, pagesBitmap
      ensures Space(pagesBitmap[..], pt[..])
           == Bind(Space(old(pagesBitmap[..]), old(pt[..])), off, lin, phys, kernelPagesOperations)
    {
      if (VIRT_BASE < lin < KERNEL_PAGES_END && !kernelPagesOperations)
         || (phys < TASKS_START && !kernelPagesOperations) {
        return;
      }
      var pte := off + Pte(lin);
      pt[pte] := pt[pte].(present := true);
      pt[pte] := pt[pte].(writable := true);
      pt[pte] := pt[pte].(user := false);
      pt[pte] := pt[pte].(page := phys / 4096);
      assert pt[..] == old(pt[..])[pte := Entry(true, true, false, phys / 4096)];
      Callback(phys, true);
    }

    /** unbind_page. */
    method UnbindPage(pt: array<Entry>, lin: u32)
      requires Valid() && Separate(pt) && Pte(lin) < pt.Length
      modifies pt, pagesBitmap
      ensures Space(pagesBitmap[..], pt[..])
           == Unbind(Space(old(pagesBitmap[..]), old(pt[..])), lin, kernelPagesOperations)
    {
      if VIRT_BASE < lin < KERNEL_PAGES_END && !kernelPagesOperations {
        return;
      }
      var pte := Pte(lin);
      Callback(Wrap(pt[pte].page * 4096), false);
      pt[pte] := pt[pte].(present := false);
      pt[pte] := pt[pte].(page := 0);
      assert pt[..] == old(pt[..])[pte := old(pt[pte]).(present := false, page := 0)];
    }

    /** alloc_page: scans the task zone for a page whose bit is clear. */
    method AllocPage(pt: array<Entry>, lin: u32) returns (phys: u32)
      requires Valid() && Separate(pt) && Pte(lin) < pt.Length
      modifies pt, pagesBitmap
      ensures (Space(pagesBitmap[..], pt[..]), phys)
           == Alloc(Space(old(pagesBitmap[..]), old(pt[..])), lin, kernelPagesOperations)
    {
      hide Marked, Bind;
      phys := TASKS_START;
      while phys < TASKS_END
        invariant TASKS_START <= phys <= TASKS_END && phys % 4096 == 0
        invariant pagesBitmap[..] == old(pagesBitmap[..]) && pt[..] == old(pt[..])
        invariant FirstFree(pagesBitmap[..], TASKS_START / 4096) == FirstFree(pagesBitmap[..], phys / 4096)
        decreases TASKS_END - phys
      {
        var x := GetPage(phys);
        if !x {
          BindPage(pt, 0, lin, phys);
          return;
        }
        phys := phys + 4096;
      }
      phys := 0;
    }

    /** bind_table. */
    method BindTableAt(pd: array<Entry>, pt: u32, lin: u32)
      requires pd.Length == 1024
      modifies pd
      ensures pd[..] == BindTable(old(pd[..]), pt, lin, kernelPagesOperations)
    {
      if VIRT_BASE < lin < KERNEL_PAGES_END && !kernelPagesOperations {
        return;
      }
      var pde := Pde(lin);
      pd[pde] := pd[pde].(present := true);
      pd[pde] := pd[pde].(writable := true);
      pd[pde] := pd[pde].(user := false);
      pd[pde] := pd[pde].(page := Wrap(pt - VIRT_BASE) / 4096);
    }
  }
}
