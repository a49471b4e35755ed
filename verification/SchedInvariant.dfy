/** What every step of the scheduler keeps, and what follows for single steps. */
module SchedInvariant {
  import opened Machine
  import opened Slist
  import opened Clist
  import opened Sched

  /**
   One task between steps: it is running or waits in krecive for a first message; a
   task that was resumed inside krecive has a message; buffers hold at most eight.
   */
  predicate Settled(t: Task) {
    && (t.status == Running || (t.status == Interruptable && t.receiving && t.inbox == []))
    && (t.receiving && t.status == Running ==> t.inbox != [])
    && |t.inbox| <= TASK_MSG_BUFF_SIZE
  }

  predicate IsIdle(t: Task) {
    t.id == 0 && t.status == Running && !t.receiving
  }

  /** Serial numbers grow along the ring, because tasks enter at its tail. */
  ghost predicate Ordered(ring: seq<Task>, created: nat) {
    && (forall i, j :: 0 <= i < j < |ring| ==> ring[i].id < ring[j].id)
    && (forall i :: 0 <= i < |ring| ==> ring[i].id < created)
  }

  ghost predicate Inv(s: State) {
    && Alive(s)
    && !s.crashed
    && IsIdle(s.ring[0])
    && Ordered(s.ring, s.created)
    && (forall i :: 0 <= i < |s.ring| ==> Settled(s.ring[i]))
    && (s.cur >= 0 ==> s.ring[s.cur].status == Running)
  }

  // ---- the searches -------------------------------------------------------------

  /** The search visits the ring in order: it stops at the nearest match. */
  lemma {:induction false} SearchNearest(ring: seq<Task>, start: nat, p: nat, st: Status, j: nat)
    requires start < |ring| && p < |ring| && j < |ring|
    requires ring[j].status == st
    requires j != start || p == start
    requires Dist(p, start, |ring|) >= Dist(j, start, |ring|)
    ensures var r := Search(ring, start, p, st);
            r >= 0 && Dist(p, start, |ring|) >= Dist(r, start, |ring|) >= Dist(j, start, |ring|)
    decreases Dist(p, start, |ring|)
  {
    if ring[p].status != st {
      var q := Succ(p, |ring|);
      SearchNearest(ring, start, q, st, j);
    }
  }

  /** Without a match among the tasks it visits, the search fails. */
  lemma {:induction false} SearchNone(ring: seq<Task>, start: nat, p: nat, st: Status)
    requires start < |ring| && p < |ring|
    requires forall j :: 0 <= j < |ring| ==> ring[j].status != st
    ensures Search(ring, start, p, st) == -1
    decreases Dist(p, start, |ring|)
  {
    if Succ(p, |ring|) != start {
      SearchNone(ring, start, Succ(p, |ring|), st);
    }
  }

  /** Within a ring, the search never comes to its start again unless the ring is that one task. */
  lemma {:induction false} SearchAvoidsStart(ring: seq<Task>, start: nat, p: nat, st: Status)
    requires start < |ring| && p < |ring| && (p == start ==> ring[start].status != st && |ring| == 1)
    ensures Search(ring, start, p, st) != start
    decreases Dist(p, start, |ring|)
  {
    if ring[p].status != st && Succ(p, |ring|) != start {
      SearchAvoidsStart(ring, start, Succ(p, |ring|), st);
    }
  }

  // ---- one switch ------------------------------------------------------------------

  /** A state inside a handler, in front of the switch: the current task may be on its way out. */
  ghost predicate Mid(m: State) {
    && Alive(m)
    && !m.crashed
    && IsIdle(m.ring[0])
    && Ordered(m.ring, m.created)
    && (forall i :: 0 <= i < |m.ring| && i != m.cur ==> Settled(m.ring[i]))
    && (m.cur >= 0 ==> Settled(m.ring[m.cur]) || Dying(m))
  }

  predicate Dying(m: State)
    requires Alive(m)
  {
    m.cur > 0 && m.ring[m.cur].status == Killing
  }

  /** The position sched_schedule chooses, -1 when it stays with the current task. */
  function Next(m: State): (r: int)
    requires Alive(m)
    ensures r == -1 || (0 <= r < |m.ring| && m.ring[r].status == Running)
  {
    FindFrom(m.ring, if m.cur >= 0 then m.cur else 0, Running)
  }

  /**
   The task chosen is running and never the one that is deleted; the only task that
   is ever deleted is the current one, when it is dying; nothing else changes.
   */
  lemma SwitchSpec(m: State)
    requires Mid(m)
    ensures Next(m) == -1 ==> Switch(m) == m && m.cur <= 0
    ensures Next(m) >= 0 && m.cur >= 0 ==> Next(m) != m.cur || |m.ring| == 1
    ensures Next(m) >= 0 ==>
              Switch(m) == if Dying(m)
                           then m.(ring := RemoveAt(m.ring, m.cur),
                                   cur := if Next(m) < m.cur then Next(m) else Next(m) - 1)
                           else m.(cur := Next(m))
  {
    var n := |m.ring|;
    var start := if m.cur >= 0 then m.cur else 0;
    if m.cur > 0 {
      SearchNearest(m.ring, start, Succ(start, n), Running, 0);
    }
    if Next(m) >= 0 && m.cur >= 0 && n > 1 {
      SearchAvoidsStart(m.ring, start, Succ(start, n), Running);
    }
    if !Dying(m) {
      SearchNone(m.ring, 0, Succ(0, n), Killing);
    }
  }

  /** A ring without its task at k: the numbers keep their order, the other tasks stay as they are. */
  lemma Removed(ring: seq<Task>, created: nat, k: nat)
    requires Ordered(ring, created) && k < |ring|
    ensures var after := RemoveAt(ring, k);
            && |after| == |ring| - 1
            && Ordered(after, created)
            && forall i :: 0 <= i < |after| ==> after[i] == ring[if i < k then i else i + 1]
  {
    hide RemoveAt;
    var after := RemoveAt(ring, k);
    forall i, j | 0 <= i < j < |after| ensures after[i].id < after[j].id {
      assert ring[if i < k then i else i + 1].id < ring[if j < k then j else j + 1].id;
    }
    forall i | 0 <= i < |after| ensures after[i].id < created {
      assert after[i] == ring[if i < k then i else i + 1];
    }
  }

  lemma SwitchKeepsInv(m: State)
    requires Mid(m)
    requires m.cur == 0 ==> m.ring[0].status == Running
    ensures Inv(Switch(m))
  {
    hide Switch, Next, RemoveAt, Ordered, Settled;
    SwitchSpec(m);
    if Next(m) >= 0 && Dying(m) {
      Removed(m.ring, m.created, m.cur);
    }
  }

  /** The state in which the switch of a yielding task starts. */
  function Yielding(s: State, t: Task): State
    requires 0 <= s.cur < |s.ring|
  {
    Put(s, t.(time := 0, reschedule := false))
  }

  /** A yield reaches the switch whatever the task's quota says. */
  lemma YieldSwitches(s: State, t: Task)
    requires Alive(s) && s.cur >= 0
    ensures YieldNow(Put(s, t)) == Switch(Yielding(s, t))
  {
    var u := t.(reschedule := true);
    assert s.ring[s.cur := t][s.cur := u] == s.ring[s.cur := u];
    assert s.ring[s.cur := u][s.cur := u.(time := 0, reschedule := false)]
        == s.ring[s.cur := t.(time := 0, reschedule := false)];
  }

  /** Rewriting the current task without touching its number keeps the order of numbers. */
  lemma PutMid(s: State, t: Task)
    requires Inv(s) && s.cur >= 0 && t.id == s.ring[s.cur].id
    requires s.cur == 0 ==> IsIdle(t)
    requires Settled(t) || (s.cur > 0 && t.status == Killing)
    ensures Mid(Put(s, t))
  {
  }

  // ---- every step ------------------------------------------------------------------

  lemma ScheduleKeepsInv(s: State)
    requires Inv(s)
    ensures Inv(Schedule(s))
  {
    hide Switch;
    if s.cur < 0 {
      SwitchKeepsInv(s);
    } else {
      var t := s.ring[s.cur].(time := Wrap(s.ring[s.cur].time + 1));
      PutMid(s, t.(time := 0, reschedule := false));
      SwitchKeepsInv(Put(s, t.(time := 0, reschedule := false)));
    }
  }

  lemma LeaveKeepsInv(s: State, t: Task)
    requires Inv(s) && s.cur >= 0 && t.id == s.ring[s.cur].id
    requires s.cur == 0 ==> IsIdle(t)
    requires Settled(t) || (s.cur > 0 && t.status == Killing)
    ensures Inv(YieldNow(Put(s, t)))
  {
    hide Switch, YieldNow;
    YieldSwitches(s, t);
    PutMid(s, t.(time := 0, reschedule := false));
    SwitchKeepsInv(Yielding(s, t));
  }

  lemma PopKeepsInv(s: State)
    requires Inv(s) && s.cur > 0 && s.ring[s.cur].inbox != []
    ensures Inv(Pop(s)) && !Pop(s).crashed
  {
  }

  lemma DeliverKeepsInv(s: State, tid: nat, m: Message)
    requires Inv(s)
    ensures Inv(Deliver(s, tid, m))
  {
    hide FindTid;
  }

  /** Every enabled step keeps the invariant; in particular no assertion of krecive ever fails. */
  lemma DoKeepsInv(s: State, a: Action)
    requires Inv(s) && Enabled(s, a)
    ensures Inv(Do(s, a))
  {
    hide Schedule, YieldNow, Deliver;
    match a
    case Timer => ScheduleKeepsInv(s);
    case Yield =>
      if s.cur >= 0 {
        LeaveKeepsInv(s, s.ring[s.cur]);
        assert Put(s, s.ring[s.cur]) == s;
      } else {
        FirstYield(s);
        ScheduleKeepsInv(s);
      }
    case Exit => LeaveKeepsInv(s, s.ring[s.cur].(status := Killing));
    case Create(_, _) =>
    case Send(tid, m) => DeliverKeepsInv(s, tid, m);
    case Receive =>
      var t := s.ring[s.cur];
      if t.inbox == [] {
        LeaveKeepsInv(s, t.(status := Interruptable, receiving := true));
      } else {
        PopKeepsInv(s);
      }
    case Finish => PopKeepsInv(s);
  }

  lemma FirstYield(s: State)
    requires Alive(s) && s.cur < 0
    ensures YieldNow(s) == Schedule(s)
  {
  }

  /** The first switch after boot goes to the idle task when it is alone, else past it to the next one. */
  lemma FirstDispatch(s: State)
    requires Inv(s) && s.cur < 0
    ensures |s.ring| == 1 ==> Schedule(s) == s.(cur := 0)
    ensures |s.ring| > 1 && s.ring[1].status == Running ==> Schedule(s) == s.(cur := 1)
  {
    hide Switch;
    SwitchSpec(s);
  }

  /** A task that waits to be reaped and is not current goes with the next switch, though no run comes to that. */
  lemma StrayReaped()
    ensures var idle, x, y := Task(0, Running, 0, false, [], false), Task(1, Killing, 0, false, [], false),
                              Task(2, Running, 0, false, [], false);
            Switch(State([idle, x, y], 0, 3, false)) == State([idle, y], 1, 3, false)
  {
    var idle, x, y := Task(0, Running, 0, false, [], false), Task(1, Killing, 0, false, [], false),
                      Task(2, Running, 0, false, [], false);
    var ring := [idle, x, y];
    assert Search(ring, 0, 2, Running) == 2 && Search(ring, 0, 1, Running) == 2;
    assert Search(ring, 0, 1, Killing) == 1;
    assert RemoveAt(ring, 1) == [idle, y];
  }

  /** An exiting task is reaped in its own exit step: it alone leaves the ring. */
  lemma ExitReaps(s: State)
    requires Inv(s) && Enabled(s, Exit)
    ensures Do(s, Exit).ring == RemoveAt(s.ring, s.cur)
    ensures Do(s, Exit).cur >= 0 && Do(s, Exit).ring[Do(s, Exit).cur].status == Running
  {
    hide Switch, YieldNow;
    var t := s.ring[s.cur].(status := Killing);
    YieldSwitches(s, t);
    PutMid(s, t.(time := 0, reschedule := false));
    var m := Yielding(s, t);
    SwitchSpec(m);
    DoKeepsInv(s, Exit);
    assert RemoveAt(m.ring, m.cur) == RemoveAt(s.ring, s.cur);
  }

  // ---- whole runs --------------------------------------------------------------------

  function Run(s: State, acts: seq<Action>): State
    requires AllEnabled(s, acts)
    decreases |acts|
  {
    if acts == [] then s else Run(Do(s, acts[0]), acts[1..])
  }

  predicate AllEnabled(s: State, acts: seq<Action>)
    decreases |acts|
  {
    acts != [] ==> Enabled(s, acts[0]) && AllEnabled(Do(s, acts[0]), acts[1..])
  }

  lemma {:induction false} RunKeepsInv(s: State, acts: seq<Action>)
    requires Inv(s) && AllEnabled(s, acts)
    ensures Inv(Run(s, acts))
    decreases |acts|
  {
    hide Inv, Do, Enabled;
    if acts != [] {
      DoKeepsInv(s, acts[0]);
      RunKeepsInv(Do(s, acts[0]), acts[1..]);
    }
  }

  /**
   No lost wake-up, from boot and over every run: krecive's assertions hold, a task that
   waits has no message, and a task that was resumed inside krecive has at least one.
   */
  lemma NoLostWakeup(acts: seq<Action>)
    requires AllEnabled(Boot(), acts)
    ensures var s := Run(Boot(), acts);
            && !s.crashed && Alive(s)
            && (s.cur >= 0 ==> s.ring[s.cur].status == Running)
            && (forall i :: 0 <= i < |s.ring| ==>
                  && s.ring[i].status != Killing
                  && (s.ring[i].status == Interruptable ==> s.ring[i].inbox == [])
                  && (s.ring[i].receiving && s.ring[i].status == Running ==> s.ring[i].inbox != []))
  {
    RunKeepsInv(Boot(), acts);
    var s := Run(Boot(), acts);
    forall i | 0 <= i < |s.ring| ensures Settled(s.ring[i]) {
    }
  }
}
