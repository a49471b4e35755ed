/** Many tasks, each on its own stack, preempted and resumed in any order. */
module ContextRuns {
  import opened Machine
  import opened Context

  datatype Stack = Stack(lo: int, hi: int)

  /** All contexts by task, the running task, and the processor. */
  datatype System = System(mem: Memory, saved: map<nat, Saved>, cur: nat, cpu: Cpu)

  /**
   The running task executes for a while, or the timer switches to a task; scratch is the memory
   when the handler is about to save, after its own calls have written below the interrupt frame.
   */
  datatype Move = Execute(cpu: Cpu, mem: Memory) | Preempt(next: nat, scratch: Memory)

  predicate OnStack(s: Stack, esp: int) {
    s.lo + FRAME <= esp <= s.hi
  }

  ghost predicate Disjoint(stacks: map<nat, Stack>) {
    && (forall t :: t in stacks ==> 0 <= stacks[t].lo)
    && forall t, u :: t in stacks && u in stacks && t != u ==>
                        stacks[t].hi <= stacks[u].lo || stacks[u].hi <= stacks[t].lo
  }

  ghost predicate Inv(s: System, stacks: map<nat, Stack>) {
    && Disjoint(stacks)
    && s.cur in stacks && s.cur in s.saved
    && OnStack(stacks[s.cur], s.cpu.esp)
    && forall t :: t in s.saved ==> t in stacks && (t != s.cur ==> OnStack(stacks[t], s.saved[t].u_esp))
  }

  /** A task leaves the stacks of the others alone and keeps room for one frame on its own; so does the handler. */
  ghost predicate Allowed(s: System, a: Move, stacks: map<nat, Stack>) {
    match a
    case Execute(c, m) =>
      && s.cur in stacks && OnStack(stacks[s.cur], c.esp)
      && forall t, x :: t in stacks && t != s.cur && stacks[t].lo <= x < stacks[t].hi ==> Peek(m, x) == Peek(s.mem, x)
    case Preempt(next, scratch) =>
      && s.cur in stacks && next in s.saved && s.cpu.esp >= FRAME
      && forall x :: !(stacks[s.cur].lo <= x < s.cpu.esp - FRAME) ==> Peek(scratch, x) == Peek(Interrupted(s), x)
  }

  /** The memory after the interrupted task's frame was pushed. */
  function Interrupted(s: System): Memory
    requires s.cpu.esp >= FRAME
  {
    Push(s.mem, s.cpu.esp, InterruptWords(s.cpu))
  }

  /** The contexts after the interrupted task was saved. */
  function SavedAll(s: System, scratch: Memory): map<nat, Saved>
    requires s.cpu.esp >= FRAME
  {
    s.saved[s.cur := SaveFrom(scratch, s.cpu.esp - 12, s.cpu.esp - FRAME)]
  }

  /** What is saved depends on nothing but the interrupt frame. */
  lemma SaveSame(m: Memory, m': Memory, esp: int)
    requires forall x :: esp - FRAME <= x < esp ==> Peek(m', x) == Peek(m, x)
    ensures SaveFrom(m', esp - 12, esp - FRAME) == SaveFrom(m, esp - 12, esp - FRAME)
  {
    hide WithInterrupts, Peek, Word4;
  }

  /** Whatever the handler wrote below the frame, the interrupted context is saved. */
  lemma SavedIs(s: System, a: Move, stacks: map<nat, Stack>)
    requires Inv(s, stacks) && Allowed(s, a, stacks) && a.Preempt?
    ensures SavedAll(s, a.scratch) == s.saved[s.cur := SavedOf(s.cpu)]
    ensures SavedAll(s, a.scratch)[a.next].u_esp >= FRAME
  {
    hide SaveFrom, Push, Peek;
    SaveSame(Interrupted(s), a.scratch, s.cpu.esp);
    SaveReads(s.mem, s.cpu);
  }

  function Do(s: System, a: Move, stacks: map<nat, Stack>): System
    requires Inv(s, stacks) && Allowed(s, a, stacks)
  {
    match a
    case Execute(c, m) => s.(cpu := c, mem := m)
    case Preempt(next, scratch) =>
      SavedIs(s, a, stacks);
      var t := SavedAll(s, scratch)[next];
      var m := Push(scratch, t.u_esp, ResumeWords(t));
      System(m, SavedAll(s, scratch)[next := Resumed(t)], next, PopFrame(m, Resumed(t).u_esp))
  }

  lemma PreemptResult(s: System, a: Move, stacks: map<nat, Stack>)
    requires Inv(s, stacks) && Allowed(s, a, stacks) && a.Preempt?
    ensures SavedAll(s, a.scratch) == s.saved[s.cur := SavedOf(s.cpu)]
    ensures var t, r := SavedAll(s, a.scratch)[a.next], Do(s, a, stacks);
            && r.cpu.eip == t.eip && r.cpu.cs == t.cs && r.cpu.esp == t.u_esp
            && r.cpu.eax == t.gp.eax && r.cpu.ecx == t.gp.ecx && r.cpu.edx == t.gp.edx && r.cpu.ebx == t.gp.ebx
            && r.cpu.ebp == t.gp.ebp && r.cpu.esi == t.gp.esi && r.cpu.edi == t.gp.edi
            && r.cur == a.next && r.saved == SavedAll(s, a.scratch)[a.next := Resumed(t)]
  {
    hide Push, SaveFrom, PopFrame, InterruptWords, ResumeWords, Peek;
    SavedIs(s, a, stacks);
    ResumeReads(a.scratch, SavedAll(s, a.scratch)[a.next]);
  }

  /**
   A switch writes nothing but the interrupted task's stack below its stack pointer, and the 44
   bytes below the stack pointer of the task that is resumed.
   */
  lemma SwitchFootprint(s: System, a: Move, stacks: map<nat, Stack>, x: int)
    requires Inv(s, stacks) && Allowed(s, a, stacks) && a.Preempt?
    requires !(stacks[s.cur].lo <= x < s.cpu.esp)
    requires a.next != s.cur ==> !(s.saved[a.next].u_esp - FRAME <= x < s.saved[a.next].u_esp)
    ensures Peek(Do(s, a, stacks).mem, x) == Peek(s.mem, x)
  {
    hide Push, SaveFrom, PopFrame, Peek;
    SavedIs(s, a, stacks);
    var t := SavedAll(s, a.scratch)[a.next];
    Pushed(s.mem, s.cpu.esp, InterruptWords(s.cpu));
    Pushed(a.scratch, t.u_esp, ResumeWords(t));
  }

  lemma DoKeepsInv(s: System, a: Move, stacks: map<nat, Stack>)
    requires Inv(s, stacks) && Allowed(s, a, stacks)
    ensures Inv(Do(s, a, stacks), stacks)
  {
    hide SavedAll, Push, PopFrame;
    if a.Preempt? {
      PreemptResult(s, a, stacks);
    }
  }

  predicate Dispatches(a: Move, t: nat) {
    a.Preempt? && a.next == t
  }

  /** A move that does not dispatch task t leaves its saved context and its live stack alone. */
  lemma MoveSpares(s: System, a: Move, stacks: map<nat, Stack>, t: nat)
    requires Inv(s, stacks) && Allowed(s, a, stacks)
    requires t in s.saved && t != s.cur && !Dispatches(a, t)
    ensures var r := Do(s, a, stacks);
            && t in r.saved && t != r.cur && r.saved[t] == s.saved[t]
            && forall x :: stacks[t].lo <= x < stacks[t].hi ==> Peek(r.mem, x) == Peek(s.mem, x)
  {
    hide SavedAll, Push, PopFrame, Peek;
    if a.Preempt? {
      PreemptResult(s, a, stacks);
      forall x | stacks[t].lo <= x < stacks[t].hi ensures Peek(Do(s, a, stacks).mem, x) == Peek(s.mem, x) {
        SwitchFootprint(s, a, stacks, x);
      }
    }
  }

  // ---- runs ------------------------------------------------------------------------------

  ghost predicate AllAllowed(s: System, moves: seq<Move>, stacks: map<nat, Stack>)
    requires Inv(s, stacks)
    decreases |moves|
  {
    moves != [] ==>
      && Allowed(s, moves[0], stacks)
      && (DoKeepsInv(s, moves[0], stacks); AllAllowed(Do(s, moves[0], stacks), moves[1..], stacks))
  }

  ghost function Run(s: System, moves: seq<Move>, stacks: map<nat, Stack>): (r: System)
    requires Inv(s, stacks) && AllAllowed(s, moves, stacks)
    ensures Inv(r, stacks)
    decreases |moves|
  {
    if moves == [] then s
    else
      DoKeepsInv(s, moves[0], stacks);
      Run(Do(s, moves[0], stacks), moves[1..], stacks)
  }

  lemma {:induction false} RunSpares(s: System, moves: seq<Move>, stacks: map<nat, Stack>, t: nat)
    requires Inv(s, stacks) && AllAllowed(s, moves, stacks)
    requires t in s.saved && t != s.cur && forall a :: a in moves ==> !Dispatches(a, t)
    ensures var r := Run(s, moves, stacks);
            && t in r.saved && t != r.cur && r.saved[t] == s.saved[t]
            && forall x :: stacks[t].lo <= x < stacks[t].hi ==> Peek(r.mem, x) == Peek(s.mem, x)
    decreases |moves|
  {
    hide Do, Inv, Allowed, Peek;
    if moves != [] {
      DoKeepsInv(s, moves[0], stacks);
      MoveSpares(s, moves[0], stacks, t);
      RunSpares(Do(s, moves[0], stacks), moves[1..], stacks, t);
    }
  }

  /**
   Context switches are transparent: a task preempted in state c continues in c, flags
   aside, and finds its stack from esp up as it left it, whatever ran in between.
   */
  lemma Transparent(s: System, away: Move, moves: seq<Move>, back: Move, stacks: map<nat, Stack>)
    requires Inv(s, stacks) && Allowed(s, away, stacks) && away.Preempt? && away.next != s.cur
    requires (DoKeepsInv(s, away, stacks); AllAllowed(Do(s, away, stacks), moves, stacks))
    requires forall a :: a in moves ==> !Dispatches(a, s.cur)
    requires Dispatches(back, s.cur)
    requires (DoKeepsInv(s, away, stacks); Allowed(Run(Do(s, away, stacks), moves, stacks), back, stacks))
    ensures (DoKeepsInv(s, away, stacks);
             var r := Do(Run(Do(s, away, stacks), moves, stacks), back, stacks);
             && r.cur == s.cur && SameContext(r.cpu, s.cpu)
             && forall x :: s.cpu.esp <= x < stacks[s.cur].hi ==> Peek(r.mem, x) == Peek(s.mem, x))
  {
    hide Do, SavedAll, Peek, Push, PopFrame, SaveFrom;
    var t := s.cur;
    DoKeepsInv(s, away, stacks);
    PreemptResult(s, away, stacks);
    var gone := Do(s, away, stacks);
    RunSpares(gone, moves, stacks, t);
    var mid := Run(gone, moves, stacks);
    PreemptResult(mid, back, stacks);
    var r := Do(mid, back, stacks);
    assert SavedAll(mid, back.scratch)[t] == SavedOf(s.cpu);
    forall x | s.cpu.esp <= x < stacks[t].hi ensures Peek(r.mem, x) == Peek(s.mem, x) {
      SwitchFootprint(s, away, stacks, x);
      SwitchFootprint(mid, back, stacks, x);
    }
  }
}
