/**
 The save and restore of a task's context: the memory operations of
 kernel/src/kernel/scheduler/schedule.c:30-36 and 56-68, the interrupt entry of
 kernel/src/kernel/DT/int_handle.asm:88-102 and switch_kcontext
 (kernel/src/kernel/asm_lib.asm:20-29).
 */
module Context {
  import opened Machine

  type u16 = x: int | 0 <= x < 65536

  /** The processor state of the running task; everything runs in one privilege level. */
  datatype Cpu = Cpu(eip: u32, cs: u16, eflags: u32, esp: u32,
                     eax: u32, ecx: u32, edx: u32, ebx: u32, ebp: u32, esi: u32, edi: u32)

  /** gp_registers_t, in memory order from the lowest address. */
  datatype GpRegs = GpRegs(edi: u32, esi: u32, ebp: u32, esp: u32, ebx: u32, edx: u32, ecx: u32, eax: u32)

  /** The saved part of task_t: gp_registers, flags, and eip, cs and u_esp of op_registers. */
  datatype Saved = Saved(gp: GpRegs, eip: u32, cs: u16, flags: u32, u_esp: u32)

  const FRAME := 44  // eflags, cs, eip and the eight words of pushad

  // ---- the stack -----------------------------------------------------------------

  /** Memory after pushing the words of ws, the first at top - 4. */
  function Push(m: Memory, top: int, ws: seq<u32>): Memory
    decreases |ws|
  {
    if ws == [] then m
    else Store32(Push(m, top, ws[..|ws| - 1]), top - 4 * |ws|, ws[|ws| - 1])
  }

  /** The word v lies at address a. */
  predicate HasWord(m: Memory, a: int, v: u32) {
    var b := Bytes4(v);
    Peek(m, a) == b[0] && Peek(m, a + 1) == b[1] && Peek(m, a + 2) == b[2] && Peek(m, a + 3) == b[3]
  }

  lemma HasWordLoads(m: Memory, a: int, v: u32)
    requires HasWord(m, a, v)
    ensures Load32(m, a) == v
  {
    hide Bytes4;
    WordOfBytes(v);
  }

  lemma StoredWord(m: Memory, a: int, v: u32)
    ensures HasWord(Store32(m, a, v), a, v)
  {
    hide Bytes4;
  }

  /** Every pushed word is found where it was put, and no other byte changes. */
  lemma {:induction false} Pushed(m: Memory, top: int, ws: seq<u32>)
    ensures forall i {:trigger ws[i]} :: 0 <= i < |ws| ==> HasWord(Push(m, top, ws), top - 4 * (i + 1), ws[i])
    ensures forall a {:trigger Peek(Push(m, top, ws), a)} :: !(top - 4 * |ws| <= a < top) ==>
              Peek(Push(m, top, ws), a) == Peek(m, a)
    decreases |ws|
  {
    hide Bytes4, Store32;
    if ws != [] {
      var init, n := ws[..|ws| - 1], |ws| - 1;
      Pushed(m, top, init);
      StoredWord(Push(m, top, init), top - 4 * |ws|, ws[n]);
      forall i | 0 <= i < |ws| ensures HasWord(Push(m, top, ws), top - 4 * (i + 1), ws[i]) {
        if i < n {
          assert init[i] == ws[i];
        }
      }
    }
  }

  /** The eleven words of a frame, read back by their address. */
  lemma Frame(m: Memory, top: int, ws: seq<u32>)
    requires |ws| == 11
    ensures var m' := Push(m, top, ws);
            && Load32(m', top - 4) == ws[0] && Load32(m', top - 8) == ws[1] && Load32(m', top - 12) == ws[2]
            && Load32(m', top - 16) == ws[3] && Load32(m', top - 20) == ws[4] && Load32(m', top - 24) == ws[5]
            && Load32(m', top - 28) == ws[6] && Load32(m', top - 32) == ws[7] && Load32(m', top - 36) == ws[8]
            && Load32(m', top - 40) == ws[9] && Load32(m', top - 44) == ws[10]
  {
    hide Push, Load32, HasWord;
    Pushed(m, top, ws);
    var m' := Push(m, top, ws);
    HasWordLoads(m', top - 4, ws[0]);
    HasWordLoads(m', top - 8, ws[1]);
    HasWordLoads(m', top - 12, ws[2]);
    HasWordLoads(m', top - 16, ws[3]);
    HasWordLoads(m', top - 20, ws[4]);
    HasWordLoads(m', top - 24, ws[5]);
    HasWordLoads(m', top - 28, ws[6]);
    HasWordLoads(m', top - 32, ws[7]);
    HasWordLoads(m', top - 36, ws[8]);
    HasWordLoads(m', top - 40, ws[9]);
    HasWordLoads(m', top - 44, ws[10]);
  }

  // ---- interrupt, save, restore -----------------------------------------------------

  /** What the processor and pushad put on the interrupted stack. */
  function InterruptWords(c: Cpu): seq<u32>
    requires c.esp >= FRAME
  {
    [c.eflags, c.cs, c.eip, c.eax, c.ecx, c.edx, c.ebx, c.esp - 12, c.ebp, c.esi, c.edi]
  }

  /** x | 0x200: the interrupt flag is bit 9. */
  function WithInterrupts(x: u32): (r: u32)
    ensures x < 65536 ==> r < 65536
  {
    if x / 512 % 2 == 1 then x else Wrap(x + 512)
  }

  /** The context as sched_schedule saves it, from the addresses its assembly caller passes. */
  function SaveFrom(m: Memory, retAddr: int, regAddr: int): Saved {
    Saved(GpRegs(Load32(m, regAddr), Load32(m, regAddr + 4), Load32(m, regAddr + 8), Load32(m, regAddr + 12),
                 Load32(m, regAddr + 16), Load32(m, regAddr + 20), Load32(m, regAddr + 24), Load32(m, regAddr + 28)),
          Load32(m, retAddr), Peek(m, retAddr + 4) + 256 * Peek(m, retAddr + 5),
          WithInterrupts(Load32(m, retAddr + 6)), Wrap(retAddr + 12))
  }

  /** The frame sched_schedule builds below the resume stack pointer of the next task. */
  function ResumeWords(t: Saved): seq<u32>
    requires t.u_esp >= FRAME
  {
    [WithInterrupts(t.flags % 65536), t.cs, t.eip,
     t.gp.eax, t.gp.ecx, t.gp.edx, t.gp.ebx, t.u_esp - 12, t.gp.ebp, t.gp.esi, t.gp.edi]
  }

  /** What popad and iret of switch_kcontext make of the words from esp on. */
  function PopFrame(m: Memory, esp: int): Cpu {
    Cpu(Load32(m, esp + 32), Load32(m, esp + 36) % 65536, Load32(m, esp + 40), Wrap(esp + 44),
        Load32(m, esp + 28), Load32(m, esp + 24), Load32(m, esp + 20), Load32(m, esp + 16),
        Load32(m, esp + 8), Load32(m, esp + 4), Load32(m, esp))
  }

  /** The same instruction, stack and general registers; flags are not compared. */
  predicate SameContext(c: Cpu, d: Cpu) {
    c.(eflags := 0) == d.(eflags := 0)
  }

  /** The context of a task that was interrupted in state c. */
  function SavedOf(c: Cpu): Saved
    requires c.esp >= FRAME
  {
    Saved(GpRegs(c.edi, c.esi, c.ebp, c.esp - 12, c.ebx, c.edx, c.ecx, c.eax),
          c.eip, c.cs, WithInterrupts(c.eflags % 65536 * 65536), c.esp)
  }

  lemma SaveReads(m: Memory, c: Cpu)
    requires c.esp >= FRAME
    ensures SaveFrom(Push(m, c.esp, InterruptWords(c)), c.esp - 12, c.esp - FRAME) == SavedOf(c)
  {
    hide Push, Load32, HasWord, WithInterrupts;
    var ws := InterruptWords(c);
    Frame(m, c.esp, ws);
    Pushed(m, c.esp, ws);
    assert HasWord(Push(m, c.esp, ws), c.esp - 4, ws[0]) && HasWord(Push(m, c.esp, ws), c.esp - 8, ws[1]);
    Halves(Push(m, c.esp, ws), c);
  }

  /** cs is read as the low half of its word, flags across the border of the cs and eflags words. */
  lemma Halves(m: Memory, c: Cpu)
    requires HasWord(m, c.esp - 4, c.eflags) && HasWord(m, c.esp - 8, c.cs)
    ensures Peek(m, c.esp - 8) + 256 * Peek(m, c.esp - 7) == c.cs
    ensures Load32(m, c.esp - 6) == c.eflags % 65536 * 65536
  {
    var f: u32, e: int := c.eflags, c.esp;
    WordSum(Peek(m, e - 6), Peek(m, e - 5), Peek(m, e - 4), Peek(m, e - 3));
    SmallHalves(c.cs);
    LowHalf(f);
    assert Peek(m, e - 6) == 0 && Peek(m, e - 5) == 0;
    assert Peek(m, e - 4) == f % 256 && Peek(m, e - 3) == f / 256 % 256;
  }

  lemma SmallHalves(x: u16)
    ensures x / 65536 % 256 == 0 && x / 16777216 == 0
    ensures x % 256 + 256 * (x / 256 % 256) == x
  {
  }

  lemma LowHalf(f: u32)
    ensures f % 65536 == f % 256 + 256 * (f / 256 % 256)
  {
    var q := f / 256;
    assert f == 256 * q + f % 256 && q == 256 * (q / 256) + q % 256;
  }

  lemma ResumeReads(m: Memory, t: Saved)
    requires t.u_esp >= FRAME
    ensures var c := PopFrame(Push(m, t.u_esp, ResumeWords(t)), t.u_esp - FRAME);
            && c.eip == t.eip && c.cs == t.cs && c.esp == t.u_esp
            && c.eax == t.gp.eax && c.ecx == t.gp.ecx && c.edx == t.gp.edx && c.ebx == t.gp.ebx
            && c.ebp == t.gp.ebp && c.esi == t.gp.esi && c.edi == t.gp.edi
            && c.eflags == WithInterrupts(t.flags % 65536)
  {
    hide Push, Load32, WithInterrupts;
    Frame(m, t.u_esp, ResumeWords(t));
  }

  /** A task interrupted in state c and resumed from what was saved then continues in c, but for its flags. */
  lemma SwitchTransparent(c: Cpu, m: Memory)
    requires c.esp >= FRAME
    ensures var t := SavedOf(c);
            var d := PopFrame(Push(m, c.esp, ResumeWords(t)), Resumed(t).u_esp);
            SameContext(c, d) && d.eflags == 0x200
  {
    hide Push, PopFrame, WithInterrupts, ResumeWords;
    ResumeReads(m, SavedOf(c));
    FlagsLost(c.eflags);
  }

  /** The flags saved at offset 6 hold the upper half of cs below: what is resumed is 0x200 whatever the flags were. */
  lemma FlagsLost(f: u32)
    ensures WithInterrupts(WithInterrupts(f % 65536 * 65536) % 65536) == 0x200
  {
    hide WithInterrupts;
    var h: u16 := f % 65536;
    HighHalf(h);
    LowBit();
  }

  /** Or with 0x200 on a number whose lower half is 0. */
  lemma HighHalf(h: u16)
    ensures WithInterrupts(h * 65536) == h * 65536 + 512 && (h * 65536 + 512) % 65536 == 512
  {
    assert h * 65536 == 512 * (2 * (64 * h));
  }

  lemma LowBit()
    ensures WithInterrupts(512) == 512
  {
  }

  // ---- in place ------------------------------------------------------------------------

  lemma PushOneMore(m: Memory, top: int, ws: seq<u32>, w: u32)
    ensures Push(m, top, ws + [w]) == Store32(Push(m, top, ws), top - 4 * (|ws| + 1), w)
  {
    assert (ws + [w])[..|ws|] == ws;
  }

  /** A task's saved context and the memory its stack lies in, as sched_schedule works on them. */
  class Switcher {
    var mem: Memory
    var gp: GpRegs
    var eip: u32
    var cs: u16
    var flags: u32
    var u_esp: u32

    ghost function Context(): Saved
      reads this
    {
      Saved(gp, eip, cs, flags, u_esp)
    }

    constructor (mem: Memory, t: Saved)
      ensures this.mem == mem && Context() == t
    {
      this.mem, gp, eip, cs, flags, u_esp := mem, t.gp, t.eip, t.cs, t.flags, t.u_esp;
    }

    /**
     The interrupted task's registers, from its stack into its task_t. When c was interrupted and
     int_timer passes the two addresses into its frame, what is kept is the context of c.
     */
    method Save(retAddr: int, regAddr: int, ghost c: Cpu, ghost was: Memory)
      requires c.esp >= FRAME && mem == Push(was, c.esp, InterruptWords(c))
      requires retAddr == c.esp - 12 && regAddr == c.esp - FRAME
      modifies this
      ensures mem == old(mem) && Context() == SavedOf(c)
    {
      hide Load32, Peek, WithInterrupts, Push, InterruptWords, SavedOf;
      eip := Load32(mem, retAddr);
      cs := Peek(mem, retAddr + 4) + 256 * Peek(mem, retAddr + 5);
      flags := WithInterrupts(Load32(mem, retAddr + 6));
      u_esp := Wrap(retAddr + 12);
      gp := GpRegs(Load32(mem, regAddr), Load32(mem, regAddr + 4), Load32(mem, regAddr + 8),
                   Load32(mem, regAddr + 12), Load32(mem, regAddr + 16), Load32(mem, regAddr + 20),
                   Load32(mem, regAddr + 24), Load32(mem, regAddr + 28));
      SaveReads(was, c);
    }

    /** One word below the n words already pushed at top. */
    method StoreBelow(ghost was: Memory, ghost top: int, ghost ws: seq<u32>, at: int, w: u32)
      requires mem == Push(was, top, ws) && at == top - 4 * (|ws| + 1)
      modifies `mem
      ensures mem == Push(was, top, ws + [w])
    {
      PushOneMore(was, top, ws, w);
      mem := Store32(mem, at, w);
    }

    /** The frame for the next task, from its task_t onto its stack, ready for popad and iret. */
    method BuildFrame()
      requires u_esp >= FRAME
      modifies this
      ensures mem == Push(old(mem), old(u_esp), ResumeWords(old(Context())))
      ensures Context() == Resumed(old(Context()))
    {
      hide Push, Store32, WithInterrupts;
      ghost var was, top, ws := mem, u_esp, ResumeWords(Context());
      PushNothing(mem, top);
      u_esp := u_esp - 4;
      StoreBelow(was, top, [], u_esp, WithInterrupts(flags % 65536));
      assert [] + [ws[0]] == ws[..1];
      u_esp := u_esp - 4;
      StoreBelow(was, top, ws[..1], u_esp, cs);
      assert ws[..1] + [ws[1]] == ws[..2];
      u_esp := u_esp - 4;
      StoreBelow(was, top, ws[..2], u_esp, eip);
      assert ws[..2] + [ws[2]] == ws[..3];
      gp := gp.(esp := u_esp);
      u_esp := u_esp - 32;
      CopyRegisters(was, top, ws);
    }

    /**
     The end of sched_schedule: the frame, and switch_kcontext from the stack pointer that is left in
     task_t. The processor then runs in the context that was in task_t, on its stack as it was.
     */
    method Dispatch() returns (cpu: Cpu)
      requires u_esp >= FRAME
      modifies this
      ensures cpu == PopFrame(mem, u_esp)
      ensures cpu.eip == old(eip) && cpu.cs == old(cs) && cpu.esp == old(u_esp) == u_esp + 44
      ensures cpu.eax == old(gp.eax) && cpu.ecx == old(gp.ecx) && cpu.edx == old(gp.edx) && cpu.ebx == old(gp.ebx)
      ensures cpu.ebp == old(gp.ebp) && cpu.esi == old(gp.esi) && cpu.edi == old(gp.edi)
      ensures cpu.eflags == WithInterrupts(old(flags) % 65536)
      ensures forall c: Cpu :: c.esp >= FRAME && SavedOf(c) == old(Context()) ==>
                                 SameContext(cpu, c) && cpu.eflags == 0x200
      ensures forall a :: !(old(u_esp) - 44 <= a < old(u_esp)) ==> Peek(mem, a) == Peek(old(mem), a)
    {
      hide Push, PopFrame, ResumeWords, Peek, WithInterrupts;
      ghost var was, t := mem, Context();
      BuildFrame();
      ResumeReads(was, t);
      Pushed(was, t.u_esp, ResumeWords(t));
      FrameWords(t);
      forall c: Cpu | c.esp >= FRAME && SavedOf(c) == t ensures WithInterrupts(t.flags % 65536) == 0x200 {
        FlagsLost(c.eflags);
      }
      cpu := PopFrame(mem, u_esp);
    }

    /** The copy of gp_registers to the top of the stack. */
    method CopyRegisters(ghost was: Memory, ghost top: int, ghost ws: seq<u32>)
      requires |ws| == 11 && ws[3..] == [gp.eax, gp.ecx, gp.edx, gp.ebx, gp.esp, gp.ebp, gp.esi, gp.edi]
      requires u_esp == top - 44 && mem == Push(was, top, ws[..3])
      modifies `mem
      ensures mem == Push(was, top, ws)
    {
      hide Push, Store32;
      assert forall i {:trigger ws[i]} :: 3 <= i < 11 ==> ws[i] == ws[3..][i - 3];
      StoreBelow(was, top, ws[..3], u_esp + 28, gp.eax);
      assert ws[..3] + [ws[3]] == ws[..4];
      StoreBelow(was, top, ws[..4], u_esp + 24, gp.ecx);
      assert ws[..4] + [ws[4]] == ws[..5];
      StoreBelow(was, top, ws[..5], u_esp + 20, gp.edx);
      assert ws[..5] + [ws[5]] == ws[..6];
      StoreBelow(was, top, ws[..6], u_esp + 16, gp.ebx);
      assert ws[..6] + [ws[6]] == ws[..7];
      StoreBelow(was, top, ws[..7], u_esp + 12, gp.esp);
      assert ws[..7] + [ws[7]] == ws[..8];
      StoreBelow(was, top, ws[..8], u_esp + 8, gp.ebp);
      assert ws[..8] + [ws[8]] == ws[..9];
      StoreBelow(was, top, ws[..9], u_esp + 4, gp.esi);
      assert ws[..9] + [ws[9]] == ws[..10];
      StoreBelow(was, top, ws[..10], u_esp, gp.edi);
      assert ws[..10] + [ws[10]] == ws;
    }
  }

  lemma FrameWords(t: Saved)
    requires t.u_esp >= FRAME
    ensures |ResumeWords(t)| == 11
  {
  }

  lemma PushNothing(m: Memory, top: int)
    ensures Push(m, top, []) == m
  {
  }

  /** What is left in task_t while the task runs. */
  function Resumed(t: Saved): Saved
    requires t.u_esp >= FRAME
  {
    t.(gp := t.gp.(esp := t.u_esp - 12), u_esp := t.u_esp - FRAME)
  }
}
