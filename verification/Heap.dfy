/**
 kernel/src/kernel/memory/heap.c: the kernel heap as a list of block entries held
 in the slot array of Slist and updated in place.
 */
module Heap {
  import opened Machine
  import opened Slist
  import opened HeapBlocks

  /** What kmalloc returns to its caller: a pointer (0 is NULL), or nothing after a NULL dereference. */
  datatype Result = Pointer(ptr: u32) | Crashed

  ghost function ResultOf(o: Outcome): Result {
    if o.Returned? then Pointer(o.ptr) else Crashed
  }

  /** Filling in block i and the new entry behind it, in place, is one insertion into the list. */
  lemma InsertedThenWritten(bs: Blocks, i: nat, b: Block, b': Block, n: Block, n': Block)
    requires i < |bs|
    ensures InsertAt(bs[i := b], i + 1, n)[i := b'][i + 1 := n'] == InsertAt(bs[i := b'], i + 1, n')
  {
  }

  class KernelHeap {
    const list: StaticList<Block>

    ghost predicate Valid()
      reads this, list, list.slots
    {
      list.Valid()
    }

    ghost function Blocks(): Blocks
      reads this, list
    {
      list.contents
    }

    constructor (slots: nat)
      requires slots > 0
      ensures Valid() && fresh(list) && fresh(list.slots)
      ensures list.slots.Length == slots && Blocks() == []
    {
      list := new StaticList<Block>(slots, Block(0, 0, false));
    }

    /** The branch that takes the missing bytes from a free left neighbour. */
    method StealLeft(sl: int, ghost i: nat, size: u32) returns (r: Result)
      requires Valid()
      requires 0 < i < |list.order| && sl == list.order[i]
      requires !Blocks()[i].busy && !Blocks()[i - 1].busy && Blocks()[i].size < size
      modifies list, list.slots
      ensures Valid()
      ensures var o := Steal(old(Blocks()), i, size); Blocks() == o.blocks && r == ResultOf(o)
    {
      hide StaticList.Valid, InsertAt, RemoveAt;
      var e := list.Get(sl, i);
      var prev := list.Get(e.prev, i - 1);
      var diff := size - e.body.size;
      list.Put(e.prev, i - 1, prev.body.(size := Wrap(prev.body.size - diff)));
      list.Put(sl, i, Block(Wrap(e.body.addr - diff), e.body.size + diff, e.body.busy));
      ghost var j := i;
      if Wrap(prev.body.size - diff) == 0 {
        list.Delete(e.prev, i - 1);
        j := i - 1;
      }
      list.Put(sl, j, Block(Wrap(e.body.addr - diff), size, true));
      r := Pointer(Wrap(e.body.addr - diff));
    }

    /** The branch that uses a free block of at least the requested size. */
    method UseBlock(sl: int, ghost i: nat, size: u32) returns (r: Result)
      requires Valid()
      requires i < |list.order| && sl == list.order[i]
      requires !Blocks()[i].busy && size <= Blocks()[i].size
      modifies list, list.slots
      ensures Valid()
      ensures var o := Split(old(Blocks()), i, size, list.slots.Length); Blocks() == o.blocks && r == ResultOf(o)
    {
      hide StaticList.Valid, InsertAt, RemoveAt;
      var e := list.Get(sl, i);
      var diff := e.body.size - size;
      list.Put(sl, i, e.body.(busy := true));
      var nextBusy := false;
      if e.next != NULL {
        var next := list.Get(e.next, i + 1);
        nextBusy := next.body.busy;
        if !nextBusy {
          list.Put(sl, i, Block(e.body.addr, size, true));
          list.Put(e.next, i + 1, Block(Wrap(next.body.addr - diff), Wrap(next.body.size + diff), false));
        }
      }
      if e.next == NULL || nextBusy {
        ghost var busy := Blocks();
        var next := list.InsertAfter(sl, i);
        if next == NULL {
          return Crashed;
        }
        list.Put(sl, i, Block(e.body.addr, size, true));
        list.Put(next, i + 1, Block(Wrap(e.body.addr + size), diff, false));
        InsertedThenWritten(old(Blocks()), i, busy[i], Block(e.body.addr, size, true),
                            list.zero, Block(Wrap(e.body.addr + size), diff, false));
      }
      r := Pointer(e.body.addr);
    }

    /** The code behind the scan, reached when no block could be used. */
    method AppendBlock(size: u32) returns (r: Result)
      requires Valid()
      modifies list, list.slots
      ensures Valid()
      ensures var o := Append(old(Blocks()), size, list.slots.Length); Blocks() == o.blocks && r == ResultOf(o)
    {
      hide StaticList.Valid, InsertAt, RemoveAt;
      var addr := HEAP_START;
      if list.tail != NULL {
        var last := list.Get(list.tail, |list.order| - 1);
        addr := End(last.body);
      }
      if addr >= HEAP_END {
        return Pointer(0);
      }
      ghost var k := |list.order|;
      var sl := list.InsertAfter(list.tail, k - 1);
      if sl == NULL {
        return Crashed;
      }
      list.Put(sl, k, Block(addr, size, true));
      r := Pointer(addr);
    }

    /** kmalloc. */
    method Kmalloc(size: u32) returns (r: Result)
      requires Valid()
      modifies list, list.slots
      ensures Valid()
      ensures var o := HeapBlocks.Kmalloc(old(Blocks()), size, list.slots.Length);
              Blocks() == o.blocks && r == ResultOf(o)
    {
      hide StaticList.Valid, InsertAt, RemoveAt;
      var sl := list.head;
      ghost var i := 0;
      while sl != NULL
        invariant Valid() && Blocks() == old(Blocks())
        invariant 0 <= i <= |list.order| && sl == At(list.order, i)
        invariant HeapBlocks.Kmalloc(Blocks(), size, list.slots.Length)
               == KmallocFrom(Blocks(), size, list.slots.Length, i)
        decreases |list.order| - i
      {
        var e := list.Get(sl, i);
        if !e.body.busy {
          if e.body.size < size {
            if e.prev != NULL {
              var prev := list.Get(e.prev, i - 1);
              if !prev.body.busy {
                r := StealLeft(sl, i, size);
                return;
              }
            }
            if e.next == NULL {
              if Wrap(End(e.body) + (size - e.body.size)) < HEAP_END {
                list.Put(sl, i, Block(e.body.addr, size, true));
                return Pointer(e.body.addr);
              }
            }
          } else {
            r := UseBlock(sl, i, size);
            return;
          }
        }
        sl := e.next;
        i := i + 1;
      }
      r := AppendBlock(size);
    }

    /** kfree. */
    method Kfree(p: u32)
      requires Valid()
      modifies list, list.slots
      ensures Valid()
      ensures Blocks() == HeapBlocks.Kfree(old(Blocks()), p)
    {
      hide StaticList.Valid, InsertAt, RemoveAt;
      var sl := list.head;
      ghost var i := 0;
      while sl != NULL
        invariant Valid() && Blocks() == old(Blocks())
        invariant 0 <= i <= |list.order| && sl == At(list.order, i)
        invariant HeapBlocks.Kfree(Blocks(), p) == KfreeFrom(Blocks(), p, i)
        decreases |list.order| - i
      {
        var e := list.Get(sl, i);
        if e.body.busy && e.body.addr == p {
          FreeBlock(sl, i);
          return;
        }
        sl := e.next;
        i := i + 1;
      }
    }

    /** Adds the size of the right neighbour and deletes its entry, as kfree does on either side. */
    method AbsorbRight(sl: int, ghost k: nat, right: int)
      requires Valid()
      requires k + 1 < |list.order| && sl == list.order[k] && right == list.order[k + 1]
      modifies list, list.slots
      ensures Valid()
      ensures Blocks() == Absorb(old(Blocks()), k)
      ensures list.order == RemoveAt(old(list.order), k + 1)
    {
      hide StaticList.Valid, InsertAt, RemoveAt;
      var e := list.Get(sl, k);
      var next := list.Get(right, k + 1);
      list.Put(sl, k, e.body.(size := Wrap(e.body.size + next.body.size)));
      list.Delete(right, k + 1);
    }

    /** The body of kfree for the block it found. */
    method FreeBlock(sl: int, ghost i: nat)
      requires Valid()
      requires i < |list.order| && sl == list.order[i]
      modifies list, list.slots
      ensures Valid()
      ensures Blocks() == Release(old(Blocks()), i)
    {
      hide StaticList.Valid, InsertAt, RemoveAt;
      var e := list.Get(sl, i);
      var cur := sl;
      ghost var k := i;
      list.Put(sl, i, e.body.(busy := false));
      if e.prev != NULL {
        var prev := list.Get(e.prev, i - 1);
        if !prev.body.busy {
          AbsorbRight(e.prev, i - 1, sl);
          cur, k := e.prev, i - 1;
        }
      }
      if e.next != NULL {
        var next := list.Get(e.next, k + 1);
        if !next.body.busy {
          AbsorbRight(cur, k, e.next);
        }
      }
    }
  }
}
