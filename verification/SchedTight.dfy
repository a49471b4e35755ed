/** The tick bound of SchedFair is the worst case, and when it is as short as one quota per task. */
module SchedTight {
  import opened Machine
  import opened Clist
  import opened Sched
  import opened SchedInvariant
  import opened SchedFair

  /** Every run without creation and with this many ticks dispatches x. */
  ghost predicate DispatchedWithin(s: State, x: nat, ticks: nat) {
    forall acts :: AllEnabled(s, acts) && NoCreation(acts) && Ticks(acts) >= ticks ==> !NeverDispatched(s, acts, x)
  }

  /** The tasks between the current one and x that wait for a message are the first with their number. */
  ghost predicate Addressable(s: State, x: nat)
    requires Waiting(s, x)
  {
    forall i :: 0 <= i < |s.ring| && OnWay(i, s.cur, Where(s.ring, x), |s.ring|) ==>
                  s.ring[i].status == Interruptable ==> FindTid(s.ring, Tid(s.ring[i]), 0) == i
  }

  /** The tasks between the current one and x all run, those at k and behind it possibly not yet. */
  ghost predicate Awake(s: State, x: nat, k: nat)
    requires Waiting(s, x)
  {
    forall i :: 0 <= i < |s.ring| && i < k && OnWay(i, s.cur, Where(s.ring, x), |s.ring|) ==>
                  s.ring[i].status == Running
  }

  /** While all tasks in between run, a tick takes exactly one off the bound. */
  lemma TickExactly(s: State, x: nat)
    requires Inv(s) && Waiting(s, x) && Awake(s, x, |s.ring|) && Wait(s, x) > 1
    ensures var r := Schedule(s);
            && Inv(r) && Waiting(r, x) && Awake(r, x, |r.ring|)
            && Wait(r, x) == Wait(s, x) - 1
  {
    hide Where, LeftUpTo, Awake, Ordered, Settled, Switch;
    ScheduleKeepsInv(s);
    var t := s.ring[s.cur].(time := Wrap(s.ring[s.cur].time + 1));
    if t.time < TASK_QUOTA && !t.reschedule {
      TickStays(s, t, x);
    } else {
      TickSwitches(s, t.(time := 0, reschedule := false), x);
    }
  }

  lemma TickStays(s: State, t: Task, x: nat)
    requires Inv(s) && Waiting(s, x) && Awake(s, x, |s.ring|)
    requires t == s.ring[s.cur].(time := Wrap(s.ring[s.cur].time + 1)) && t.time < TASK_QUOTA && !t.reschedule
    ensures var r := Put(s, t);
            Waiting(r, x) && Awake(r, x, |r.ring|) && Wait(r, x) == Wait(s, x) - 1
  {
    hide Where, LeftUpTo, Ordered, Settled;
    var r, n, k, p := Put(s, t), |s.ring|, s.cur, Where(s.ring, x);
    WrapIsRemainder(s.ring[k].time + 1);
    PutWaiting(s, t, x);
    LeftStep(s.ring, k, p);
    LeftStep(r.ring, k, p);
    SameWay(s.ring, r.ring, Succ(k, n), p);
  }

  lemma TickSwitches(s: State, t: Task, x: nat)
    requires Inv(s) && Waiting(s, x) && Awake(s, x, |s.ring|) && Wait(s, x) > 1
    requires t == s.ring[s.cur].(time := 0, reschedule := false)
    requires Wrap(s.ring[s.cur].time + 1) >= TASK_QUOTA || s.ring[s.cur].reschedule
    ensures var r := Switch(Put(s, t));
            Waiting(r, x) && Awake(r, x, |r.ring|) && Wait(r, x) == Wait(s, x) - 1
  {
    hide Where, LeftUpTo, Ordered, Settled, Switch;
    var m, n, k, p := Put(s, t), |s.ring|, s.cur, Where(s.ring, x);
    WrapIsRemainder(s.ring[k].time + 1);
    PutWaiting(s, t, x);
    RunningIsSettled(s);
    PutMid(s, t);
    LeftStep(s.ring, k, p);
    if Succ(k, n) == p {
      NothingLeft(s.ring, p);
    }
    assert OnWay(Succ(k, n), k, p, n);
    AwakeNext(m);
    SameWay(s.ring, m.ring, Succ(k, n), p);
  }

  lemma RunningIsSettled(s: State)
    requires Inv(s) && s.cur >= 0
    ensures Settled(s.ring[s.cur].(time := 0, reschedule := false))
  {
  }

  lemma NothingLeft(ring: seq<Task>, p: nat)
    requires p < |ring|
    ensures LeftUpTo(ring, p, p) == 0
  {
  }

  lemma SameWay(a: seq<Task>, b: seq<Task>, p: nat, q: nat)
    requires |a| == |b| && p < |a| && q < |a|
    requires forall i {:trigger b[i]} :: 0 <= i < |a| && OnWay(i, p, q, |a|) ==> Left(b[i]) == Left(a[i])
    ensures LeftUpTo(b, p, q) == LeftUpTo(a, p, q)
  {
    LeftMonotone(a, b, p, q);
    LeftMonotone(b, a, p, q);
  }

  /** When the next task in the ring runs, the switch goes there. */
  lemma AwakeNext(m: State)
    requires Mid(m) && m.cur >= 0 && m.ring[m.cur].status == Running
    requires m.ring[Succ(m.cur, |m.ring|)].status == Running
    ensures Switch(m) == m.(cur := Succ(m.cur, |m.ring|))
  {
    hide Switch;
    SwitchSpec(m);
  }

  lemma {:induction false} TicksInVain(s: State, x: nat, ticks: nat)
    requires Inv(s) && Waiting(s, x) && Awake(s, x, |s.ring|) && ticks < Wait(s, x)
    ensures var acts := seq(ticks, _ => Timer);
            AllEnabled(s, acts) && Ticks(acts) == ticks && NeverDispatched(s, acts, x)
    decreases ticks
  {
    hide Inv, Where, LeftUpTo, Schedule;
    NotCurrent(s, x);
    if ticks > 0 {
      TickExactly(s, x);
      var acts := seq(ticks, _ => Timer);
      assert acts[1..] == seq(ticks - 1, _ => Timer);
      TicksInVain(Schedule(s), x, ticks - 1);
    }
  }

  lemma NotCurrent(s: State, x: nat)
    requires Inv(s) && Waiting(s, x)
    ensures !Current(s, x)
  {
    hide Where;
    assert Ordered(s.ring, s.created);
  }

  /** A message for a task in between wakes it, and leaves the bound as it is. */
  lemma WakeOne(s: State, x: nat, k: nat, m: Message)
    requires Inv(s) && Waiting(s, x) && Addressable(s, x) && Awake(s, x, k) && k < |s.ring|
    requires OnWay(k, s.cur, Where(s.ring, x), |s.ring|) && s.ring[k].status == Interruptable
    ensures var r := Deliver(s, Tid(s.ring[k]), m);
            && Waiting(r, x) && Addressable(r, x) && Awake(r, x, k + 1)
            && Wait(r, x) == Wait(s, x) && |r.ring| == |s.ring|
  {
    hide Where, LeftUpTo, FindTid, Ordered;
    assert Settled(s.ring[k]);
    var r := Deliver(s, Tid(s.ring[k]), m);
    assert r.ring == s.ring[k := s.ring[k].(inbox := [] + [m], status := Running)];
    DeliverKeepsInv(s, Tid(s.ring[k]), m);
    WhereIs(r.ring, s.created, x, Where(s.ring, x));
    SameWay(s.ring, r.ring, s.cur, Where(s.ring, x));
    forall i | 0 <= i < |r.ring| && r.ring[i].status == Interruptable
      ensures FindTid(r.ring, Tid(r.ring[i]), 0) == FindTid(s.ring, Tid(s.ring[i]), 0)
    {
      SameTids(s.ring, r.ring, Tid(s.ring[i]));
    }
  }

  lemma SameTids(a: seq<Task>, b: seq<Task>, tid: nat)
    requires |a| == |b| && forall i :: 0 <= i < |a| ==> a[i].id == b[i].id
    ensures FindTid(a, tid, 0) == FindTid(b, tid, 0)
  {
    hide FindTid;
    var i, j := FindTid(a, tid, 0), FindTid(b, tid, 0);
    assert forall k :: 0 <= k < |a| ==> Tid(a[k]) == Tid(b[k]);
  }

  /** A run that keeps x waiting for any number of ticks below the bound: wake all tasks in between, then only tick. */
  lemma {:induction false} Delay(s: State, x: nat, k: nat, ticks: nat) returns (acts: seq<Action>)
    requires Inv(s) && Waiting(s, x) && Addressable(s, x) && Awake(s, x, k) && k <= |s.ring|
    requires ticks < Wait(s, x)
    ensures AllEnabled(s, acts) && NoCreation(acts) && Ticks(acts) == ticks && NeverDispatched(s, acts, x)
    decreases |s.ring| - k
  {
    hide Inv, Where, LeftUpTo, Deliver, OnWay, Settled, AllEnabled, NeverDispatched;
    if k == |s.ring| {
      TicksInVain(s, x, ticks);
      acts := seq(ticks, _ => Timer);
    } else if OnWay(k, s.cur, Where(s.ring, x), |s.ring|) && s.ring[k].status != Running {
      var m := Message(0, 0, 0);
      StatusWaits(s, k);
      WakeOne(s, x, k, m);
      DeliverKeepsInv(s, Tid(s.ring[k]), m);
      var rest := Delay(Deliver(s, Tid(s.ring[k]), m), x, k + 1, ticks);
      NotCurrent(s, x);
      SendFirst(s, Tid(s.ring[k]), m, rest, x);
      acts := [Send(Tid(s.ring[k]), m)] + rest;
    } else {
      acts := Delay(s, x, k + 1, ticks);
    }
  }

  /** A message in front of a run. */
  lemma SendFirst(s: State, tid: nat, m: Message, rest: seq<Action>, x: nat)
    requires Alive(s) && !Current(s, x)
    requires AllEnabled(Deliver(s, tid, m), rest) && NoCreation(rest) && NeverDispatched(Deliver(s, tid, m), rest, x)
    ensures var acts := [Send(tid, m)] + rest;
            AllEnabled(s, acts) && NoCreation(acts) && Ticks(acts) == Ticks(rest) && NeverDispatched(s, acts, x)
  {
    hide Deliver;
    var acts := [Send(tid, m)] + rest;
    assert acts[1..] == rest;
    assert Do(s, acts[0]) == Deliver(s, tid, m);
  }

  lemma StatusWaits(s: State, k: nat)
    requires Inv(s) && k < |s.ring| && s.ring[k].status != Running
    ensures s.ring[k].status == Interruptable
  {
    assert Settled(s.ring[k]);
  }

  /**
   The bound is exact: a number of ticks is enough for x in every run exactly when it is at
   least Wait, if messages can reach the tasks in between; it is enough in any case.
   */
  lemma WaitIsExact(s: State, x: nat, ticks: nat)
    requires Inv(s) && Waiting(s, x)
    ensures Wait(s, x) <= ticks ==> DispatchedWithin(s, x, ticks)
    ensures Addressable(s, x) && DispatchedWithin(s, x, ticks) ==> Wait(s, x) <= ticks
  {
    hide Inv, Where, LeftUpTo, Addressable;
    if Wait(s, x) <= ticks {
      forall acts | AllEnabled(s, acts) && NoCreation(acts) && Ticks(acts) >= ticks
        ensures !NeverDispatched(s, acts, x)
      {
        RoundRobin(s, acts, x);
      }
    } else if Addressable(s, x) {
      var acts := Delay(s, x, 0, ticks);
    }
  }

  /** Below 65536 creations every number finds its owner, so the bound is exact in every such state. */
  lemma EarlyAddressable(s: State, x: nat)
    requires Inv(s) && Waiting(s, x) && s.created <= 65536
    ensures Addressable(s, x)
  {
    hide Where, FindTid;
    forall i: nat | i < |s.ring| ensures FindTid(s.ring, Tid(s.ring[i]), 0) == i {
      assert s.ring[i].id < 65536;
      assert forall j :: 0 <= j < i ==> Tid(s.ring[j]) != Tid(s.ring[i]);
    }
  }

  // ---- one quota per task ------------------------------------------------------------------

  /**
   (n - 1) quotas are enough in every run exactly when the ticks left in front of x add up to
   no more; they do when no task up to x has the wrapping value.
   */
  lemma QuotasExactly(s: State, x: nat)
    requires Inv(s) && Waiting(s, x) && Addressable(s, x)
    ensures DispatchedWithin(s, x, (|s.ring| - 1) * TASK_QUOTA) <==> Wait(s, x) <= (|s.ring| - 1) * TASK_QUOTA
    ensures NoWrapBefore(s, x) ==> DispatchedWithin(s, x, (|s.ring| - 1) * TASK_QUOTA)
  {
    hide Where, Inv, DispatchedWithin;
    WaitIsExact(s, x, (|s.ring| - 1) * TASK_QUOTA);
    WaitInQuotas(s, x);
  }

  /** The idle task waits behind a task that was created with the wrapping value and dispatched. */
  const BehindWrapping: State :=
    State([Task(0, Running, 0, false, [], false), Task(1, Running, WRAPPING, false, [], false)], 1, 2, false)

  lemma BehindWrappingReached()
    ensures var acts := [Create(WRAPPING, false), Yield];
            AllEnabled(Boot(), acts) && Run(Boot(), acts) == BehindWrapping
  {
    var s := BehindWrapping.(cur := -1);
    var acts := [Create(WRAPPING, false), Yield];
    assert acts[1..] == [Yield];
    assert Do(Boot(), acts[0]).ring == s.ring;
    assert Search(s.ring, 0, 1, Running) == 1;
    assert Search(s.ring, 0, 1, Killing) == -1;
    assert Do(s, Yield) == BehindWrapping;
    assert Run(s, [Yield]) == BehindWrapping;
  }

  lemma BehindWrappingWaits()
    ensures Inv(BehindWrapping) && Waiting(BehindWrapping, 0) && Awake(BehindWrapping, 0, 2)
    ensures Wait(BehindWrapping, 0) == TASK_QUOTA + 1
  {
    hide Where;
    var s := BehindWrapping;
    WhereIs(s.ring, 2, 0, 0);
    NothingLeft(s.ring, 0);
    LeftStep(s.ring, 1, 0);
  }

  /** From boot: one quota does not bring the idle task back there. */
  lemma WrappingDelays()
    ensures var acts, ticks := [Create(WRAPPING, false), Yield], [Timer, Timer, Timer];
            && AllEnabled(Boot(), acts)
            && var s := Run(Boot(), acts);
               && |s.ring| == 2 && Waiting(s, 0) && Wait(s, 0) == TASK_QUOTA + 1
               && AllEnabled(s, ticks) && NeverDispatched(s, ticks, 0)
  {
    hide Where, Wait, Do, Inv, Enabled;
    BehindWrappingReached();
    BehindWrappingWaits();
    TicksInVain(BehindWrapping, 0, 3);
    assert seq(3, _ => Timer) == [Timer, Timer, Timer];
  }

  // ---- where the wrapping value comes from ---------------------------------------------------

  ghost predicate NoWrap(s: State) {
    forall i :: 0 <= i < |s.ring| ==> s.ring[i].time != WRAPPING
  }

  lemma SwitchKeepsNoWrap(m: State)
    requires Alive(m) && NoWrap(m)
    ensures NoWrap(Switch(m))
  {
    hide DeleteAt, Search;
  }

  lemma ScheduleKeepsNoWrap(s: State)
    requires Alive(s) && NoWrap(s)
    ensures NoWrap(Schedule(s))
  {
    hide Switch;
    if s.cur < 0 {
      SwitchKeepsNoWrap(s);
    } else {
      var t := s.ring[s.cur].(time := Wrap(s.ring[s.cur].time + 1));
      SwitchKeepsNoWrap(Put(s, t.(time := 0, reschedule := false)));
    }
  }

  /** NoWrap is kept by every step, except exactly the creation of a task with the wrapping value. */
  lemma NoWrapKept(s: State, a: Action)
    requires NoWrap(s) && Enabled(s, a)
    ensures NoWrap(Do(s, a)) <==> !(a.Create? && a.time == WRAPPING)
  {
    hide FindTid, Schedule;
    match a
    case Create(time, _) => assert Do(s, a).ring[|s.ring|].time == time;
    case Timer => ScheduleKeepsNoWrap(s);
    case Yield =>
      ScheduleKeepsNoWrap(if s.cur >= 0 then Put(s, s.ring[s.cur].(reschedule := true)) else s);
    case Exit =>
      var t := s.ring[s.cur].(status := Killing);
      ScheduleKeepsNoWrap(Put(Put(s, t), t.(reschedule := true)));
    case Receive =>
      var t := s.ring[s.cur].(status := Interruptable, receiving := true);
      ScheduleKeepsNoWrap(Put(Put(s, t), t.(reschedule := true)));
    case _ =>
  }

  lemma {:induction false} NoWrapRun(s: State, acts: seq<Action>)
    requires NoWrap(s) && AllEnabled(s, acts)
    requires forall i :: 0 <= i < |acts| && acts[i].Create? ==> acts[i].time != WRAPPING
    ensures NoWrap(Run(s, acts))
    decreases |acts|
  {
    hide NoWrap, Do, Enabled;
    if acts != [] {
      NoWrapKept(s, acts[0]);
      NoWrapRun(Do(s, acts[0]), acts[1..]);
    }
  }

  /** From boot: as long as no task is created with the wrapping value, (n - 1) quotas dispatch every waiting task. */
  lemma QuotasFromBoot(before: seq<Action>, x: nat)
    requires AllEnabled(Boot(), before)
    requires forall i :: 0 <= i < |before| && before[i].Create? ==> before[i].time != WRAPPING
    requires Waiting(Run(Boot(), before), x)
    ensures var s := Run(Boot(), before); DispatchedWithin(s, x, (|s.ring| - 1) * TASK_QUOTA)
  {
    hide Where, Inv, DispatchedWithin;
    var s := Run(Boot(), before);
    BootInv();
    RunKeepsInv(Boot(), before);
    NoWrapRun(Boot(), before);
    WaitInQuotas(s, x);
    WaitIsExact(s, x, (|s.ring| - 1) * TASK_QUOTA);
  }

  lemma BootInv()
    ensures Inv(Boot())
  {
  }
}
