/** How long a task stays current: its first turn, and every later one. */
module SchedTurns {
  import opened Machine
  import opened Slist
  import opened Clist
  import opened Sched
  import opened SchedInvariant
  import opened SchedFair

  /** Unless it is gone, the task x has a whole quota left. */
  ghost predicate Rested(s: State, x: nat) {
    forall i :: 0 <= i < |s.ring| && s.ring[i].id == x ==> Left(s.ring[i]) == 3
  }

  // ---- what a switch leaves behind ---------------------------------------------------------

  /** A switch makes no new records. */
  lemma SwitchSubset(m: State)
    requires Mid(m)
    ensures forall i :: 0 <= i < |Switch(m).ring| ==> Switch(m).ring[i] in m.ring
  {
    hide Switch, Next, RemoveAt, Settled, Ordered;
    SwitchSpec(m);
    if Next(m) >= 0 && Dying(m) {
      forall i | 0 <= i < |Switch(m).ring| ensures Switch(m).ring[i] in m.ring {
        assert RemoveAt(m.ring, m.cur)[i] == m.ring[if i < m.cur then i else i + 1];
      }
    }
  }

  lemma PutRests(s: State, t: Task)
    requires Inv(s) && s.cur >= 0 && t.id == s.ring[s.cur].id && t.time == 0 && !t.reschedule
    requires Mid(Put(s, t))
    ensures Rested(Switch(Put(s, t)), t.id)
  {
    hide Switch, Settled;
    SwitchSubset(Put(s, t));
    forall i | 0 <= i < |s.ring| && Put(s, t).ring[i].id == t.id ensures Put(s, t).ring[i] == t {
      assert Ordered(s.ring, s.created);
    }
  }

  lemma YieldRests(s: State, t: Task)
    requires Inv(s) && s.cur >= 0 && t.id == s.ring[s.cur].id
    requires s.cur == 0 ==> IsIdle(t)
    requires Settled(t) || (s.cur > 0 && t.status == Killing)
    ensures Rested(YieldNow(Put(s, t)), t.id)
  {
    hide Switch, YieldNow, Mid;
    YieldSwitches(s, t);
    PutMid(s, t.(time := 0, reschedule := false));
    PutRests(s, t.(time := 0, reschedule := false));
  }

  /** Whatever takes the processor from a task, it has a whole quota left then. */
  lemma LeavingRests(s: State, a: Action, x: nat)
    requires Inv(s) && Enabled(s, a) && Current(s, x) && !Current(Do(s, a), x)
    ensures Rested(Do(s, a), x)
  {
    hide Switch, YieldNow, Rested, Recipient, Ordered;
    var t := s.ring[s.cur];
    match a
    case Timer =>
      var u := t.(time := Wrap(t.time + 1));
      if u.time >= TASK_QUOTA || u.reschedule {
        PutMid(s, u.(time := 0, reschedule := false));
        PutRests(s, u.(time := 0, reschedule := false));
      }
    case Yield =>
      YieldRests(s, t);
      assert Put(s, t) == s;
    case Exit => YieldRests(s, t.(status := Killing));
    case Receive =>
      if t.inbox == [] {
        YieldRests(s, t.(status := Interruptable, receiving := true));
      }
    case _ =>
  }

  // ---- while it is away ----------------------------------------------------------------------

  lemma OthersPut(s: State, t: Task, x: nat)
    requires Inv(s) && s.cur >= 0 && t.id == s.ring[s.cur].id != x && Rested(s, x)
    ensures Rested(Put(s, t), x)
    ensures Mid(Put(s, t)) ==> Rested(Switch(Put(s, t)), x)
  {
    hide Switch, Settled, Ordered;
    if Mid(Put(s, t)) {
      SwitchSubset(Put(s, t));
    }
  }

  lemma OthersYield(s: State, t: Task, x: nat)
    requires Inv(s) && s.cur >= 0 && t.id == s.ring[s.cur].id != x && Rested(s, x)
    requires s.cur == 0 ==> IsIdle(t)
    requires Settled(t) || (s.cur > 0 && t.status == Killing)
    ensures Rested(YieldNow(Put(s, t)), x)
  {
    hide Switch, YieldNow, Mid, Rested;
    YieldSwitches(s, t);
    PutMid(s, t.(time := 0, reschedule := false));
    OthersPut(s, t.(time := 0, reschedule := false), x);
  }

  /** No step of another task takes anything of that quota. */
  lemma StepRests(s: State, a: Action, x: nat)
    requires Inv(s) && Enabled(s, a) && !Current(s, x) && x < s.created && Rested(s, x)
    ensures Rested(Do(s, a), x) && x < Do(s, a).created
  {
    hide Switch, YieldNow, Recipient, Ordered, Schedule;
    CreatedStays(s, a);
    match a
    case Timer => TimerRests(s, x);
    case Yield =>
      if s.cur >= 0 {
        OthersYield(s, s.ring[s.cur], x);
        assert Put(s, s.ring[s.cur]) == s;
      } else {
        FirstYield(s);
        TimerRests(s, x);
      }
    case Exit => OthersYield(s, s.ring[s.cur].(status := Killing), x);
    case Receive =>
      var t := s.ring[s.cur];
      if t.inbox == [] {
        OthersYield(s, t.(status := Interruptable, receiving := true), x);
      } else {
        OthersPut(s, t.(inbox := t.inbox[..|t.inbox| - 1], receiving := false), x);
      }
    case Finish =>
      var t := s.ring[s.cur];
      if t.inbox != [] {
        OthersPut(s, t.(inbox := t.inbox[..|t.inbox| - 1], receiving := false), x);
      }
    case _ =>
  }

  lemma TimerRests(s: State, x: nat)
    requires Inv(s) && !Current(s, x) && Rested(s, x)
    ensures Rested(Schedule(s), x)
  {
    hide Switch, Rested, Mid, Ordered;
    if s.cur < 0 {
      SwitchSubsetAtBoot(s, x);
    } else {
      var t := s.ring[s.cur].(time := Wrap(s.ring[s.cur].time + 1));
      OthersPut(s, t, x);
      PutMid(s, t.(time := 0, reschedule := false));
      OthersPut(s, t.(time := 0, reschedule := false), x);
    }
  }

  lemma SwitchSubsetAtBoot(s: State, x: nat)
    requires Inv(s) && s.cur < 0 && Rested(s, x)
    ensures Rested(Switch(s), x)
  {
    hide Switch;
    SwitchSubset(s);
  }

  lemma CreatedStays(s: State, a: Action)
    requires Enabled(s, a)
    ensures Do(s, a).created >= s.created
  {
    hide Search, FindTid, DeleteAt;
  }

  /** The task x is not current in any state of the run but possibly the last. */
  ghost predicate Away(s: State, acts: seq<Action>, x: nat)
    requires AllEnabled(s, acts)
    decreases |acts|
  {
    acts != [] ==> !Current(s, x) && Away(Do(s, acts[0]), acts[1..], x)
  }

  lemma {:induction false} RunRests(s: State, acts: seq<Action>, x: nat)
    requires Inv(s) && AllEnabled(s, acts) && Away(s, acts, x) && x < s.created && Rested(s, x)
    ensures Rested(Run(s, acts), x)
    decreases |acts|
  {
    hide Inv, Do, Enabled, Rested, Current;
    if acts != [] {
      DoKeepsInv(s, acts[0]);
      StepRests(s, acts[0], x);
      RunRests(Do(s, acts[0]), acts[1..], x);
    }
  }

  // ---- a turn ----------------------------------------------------------------------------------

  /** Steps with which a task does not give the processor away: ticks, messages, creations. */
  predicate Quiet(acts: seq<Action>) {
    forall i :: 0 <= i < |acts| ==> acts[i].Timer? || acts[i].Send? || acts[i].Create?
  }

  lemma QuietStep(s: State, a: Action)
    requires Inv(s) && s.cur >= 0 && Enabled(s, a) && (a.Timer? || a.Send? || a.Create?)
    requires a.Timer? ==> Left(s.ring[s.cur]) > 1
    ensures var r := Do(s, a);
            && r.cur == s.cur < |r.ring| && r.ring[r.cur].id == s.ring[s.cur].id
            && Left(r.ring[r.cur]) == Left(s.ring[s.cur]) - (if a.Timer? then 1 else 0)
  {
    hide Switch, Recipient;
    WrapIsRemainder(s.ring[s.cur].time + 1);
  }

  /** A task keeps the processor for as many ticks as it has left; each takes one. */
  lemma {:induction false} TurnLasts(s: State, acts: seq<Action>)
    requires Inv(s) && s.cur >= 0 && AllEnabled(s, acts) && Quiet(acts)
    requires Ticks(acts) < Left(s.ring[s.cur])
    ensures var r := Run(s, acts);
            && Inv(r) && r.cur == s.cur && r.ring[r.cur].id == s.ring[s.cur].id
            && Left(r.ring[r.cur]) == Left(s.ring[s.cur]) - Ticks(acts)
    decreases |acts|
  {
    hide Do, Enabled, Left, Ordered, Settled;
    if acts != [] {
      DoKeepsInv(s, acts[0]);
      QuietStep(s, acts[0]);
      assert Quiet(acts[1..]);
      TurnLasts(Do(s, acts[0]), acts[1..]);
    }
  }

  /** With the last tick it is gone, exactly when another task can run. */
  lemma TurnEnds(s: State)
    requires Inv(s) && s.cur >= 0 && Left(s.ring[s.cur]) == 1
    ensures Current(Schedule(s), s.ring[s.cur].id)
       <==> forall i :: 0 <= i < |s.ring| && i != s.cur ==> s.ring[i].status != Running
  {
    hide Switch, Ordered, Settled, Next;
    WrapIsRemainder(s.ring[s.cur].time + 1);
    var t := s.ring[s.cur].(time := 0, reschedule := false);
    var m := Put(s, t);
    assert Schedule(s) == Switch(m) by {
      var u := s.ring[s.cur].(time := Wrap(s.ring[s.cur].time + 1));
      assert u.(time := 0, reschedule := false) == t;
    }
    RestedSettled(s);
    PutMid(s, t);
    SwitchSpec(m);
    NextAlone(m);
    DifferentIds(s);
    assert forall i {:trigger m.ring[i]} {:trigger s.ring[i]} :: 0 <= i < |s.ring| && i != s.cur ==>
             m.ring[i] == s.ring[i];
    assert Next(m) >= 0 && Next(m) != m.cur ==> Schedule(s).ring[Schedule(s).cur].id != s.ring[s.cur].id;
  }

  lemma RestedSettled(s: State)
    requires Inv(s) && s.cur >= 0
    ensures Settled(s.ring[s.cur].(time := 0, reschedule := false)) && s.ring[s.cur].status == Running
  {
  }

  lemma DifferentIds(s: State)
    requires Inv(s) && s.cur >= 0
    ensures forall i :: 0 <= i < |s.ring| && i != s.cur ==> s.ring[i].id != s.ring[s.cur].id
  {
  }

  /** The search comes back empty-handed, or to its start, exactly when nothing else runs. */
  lemma NextAlone(m: State)
    requires Alive(m) && m.cur >= 0
    ensures Next(m) == -1 || Next(m) == m.cur
       <==> forall i :: 0 <= i < |m.ring| && i != m.cur ==> m.ring[i].status != Running
  {
    var n := |m.ring|;
    if j :| 0 <= j < n && j != m.cur && m.ring[j].status == Running {
      SearchNearest(m.ring, m.cur, Succ(m.cur, n), Running, j);
      SearchAvoidsStart(m.ring, m.cur, Succ(m.cur, n), Running);
    }
  }

  /**
   Every later turn is a whole one: a task that was switched away, for whatever reason, and is
   dispatched again stays current for two ticks if it does not give the processor away itself,
   and with the third it is switched away exactly when another task can run.
   */
  lemma LaterTurn(s: State, leave: Action, acts: seq<Action>, turn: seq<Action>, x: nat)
    requires Inv(s) && Enabled(s, leave) && Current(s, x) && !Current(Do(s, leave), x)
    requires AllEnabled(Do(s, leave), acts) && Away(Do(s, leave), acts, x)
    requires Current(Run(Do(s, leave), acts), x)
    requires AllEnabled(Run(Do(s, leave), acts), turn) && Quiet(turn)
    ensures var r := Run(Run(Do(s, leave), acts), turn);
            && (Ticks(turn) < 3 ==> Current(r, x))
            && (Ticks(turn) == 2 ==>
                  (Current(Schedule(r), x)
                   <==> forall i :: 0 <= i < |r.ring| && i != r.cur ==> r.ring[i].status != Running))
  {
    hide Do, Enabled, Schedule, Left;
    LeavingRests(s, leave, x);
    DoKeepsInv(s, leave);
    CreatedStays(s, leave);
    assert x < s.created;
    RunRests(Do(s, leave), acts, x);
    RunKeepsInv(Do(s, leave), acts);
    var back := Run(Do(s, leave), acts);
    if Ticks(turn) < 3 {
      TurnLasts(back, turn);
      if Ticks(turn) == 2 {
        TurnEnds(Run(back, turn));
      }
    }
  }

  /** From boot: a task created with the reschedule flag set loses the processor with its first tick. */
  lemma FlaggedTurn()
    ensures var idle, t := Task(0, Running, 0, false, [], false), Task(1, Running, 0, true, [], false);
            var s := State([idle, t], 1, 2, false);
            && AllEnabled(Boot(), [Create(0, true), Yield])
            && Run(Boot(), [Create(0, true), Yield]) == s
            && Schedule(s) == State([idle, t.(reschedule := false)], 0, 2, false)
  {
    var idle, t := Task(0, Running, 0, false, [], false), Task(1, Running, 0, true, [], false);
    var s := State([idle, t], 1, 2, false);
    var acts := [Create(0, true), Yield];
    assert acts[1..] == [Yield];
    assert Do(Boot(), acts[0]).ring == s.ring;
    assert Search(s.ring, 0, 1, Running) == 1 && Search(s.ring, 0, 1, Killing) == -1;
    assert Run(s.(cur := -1), [Yield]) == s;
    var m := Put(s, t.(reschedule := false));
    assert m.ring == [idle, t.(reschedule := false)];
    assert Search(m.ring, 1, 0, Running) == 0 && Search(m.ring, 0, 1, Killing) == -1;
  }
}
