/** Round-robin fairness: a runnable task is dispatched within a bounded number of switches and ticks. */
module SchedFair {
  import opened Machine
  import opened Slist
  import opened Clist
  import opened Sched
  import opened SchedInvariant

  /** The position of the task with serial number x, -1 when it is not in the ring. */
  function Where(ring: seq<Task>, x: nat): (p: int)
    ensures p == -1 || (0 <= p < |ring| && ring[p].id == x)
    ensures p == -1 ==> forall i :: 0 <= i < |ring| ==> ring[i].id != x
  {
    if ring == [] then -1
    else if ring[|ring| - 1].id == x then |ring| - 1
    else Where(ring[..|ring| - 1], x)
  }

  lemma WhereIs(ring: seq<Task>, created: nat, x: nat, p: nat)
    requires Ordered(ring, created) && p < |ring| && ring[p].id == x
    ensures Where(ring, x) == p
  {
  }

  /** Task x can run but is not the current one. */
  ghost predicate Waiting(s: State, x: nat) {
    && Alive(s) && s.cur >= 0
    && var p := Where(s.ring, x);
       p >= 0 && p != s.cur && s.ring[p].status == Running
  }

  /** How far the current task is in front of x, in ring steps. */
  function Ahead(s: State, x: nat): int {
    Dist(s.cur, Where(s.ring, x), |s.ring|)
  }

  /** Where the other tasks are after the task at k has been deleted. */
  lemma DeletedWhere(ring: seq<Task>, created: nat, k: nat, p: nat)
    requires Ordered(ring, created) && k < |ring| && p < |ring| && p != k
    ensures Ordered(RemoveAt(ring, k), created)
    ensures Where(RemoveAt(ring, k), ring[p].id) == if p < k then p else p - 1
  {
    hide RemoveAt, Where;
    Removed(ring, created, k);
    var after := RemoveAt(ring, k);
    var p' := if p < k then p else p - 1;
    assert after[p'] == ring[p];
    WhereIs(after, created, ring[p].id, p');
  }

  /** Moving on from c to q on the way to p shortens the way, also when c is taken out of the ring. */
  lemma Closer(c: nat, q: nat, p: nat, n: nat)
    requires c < n && q < n && p < n && c != q && q != p && p != c
    requires Dist(q, c, n) >= Dist(p, c, n)
    ensures Dist(q, p, n) < Dist(c, p, n)
    ensures var q', p' := if q < c then q else q - 1, if p < c then p else p - 1;
            Dist(q', p', n - 1) < Dist(c, p, n)
  {
  }

  /** Every switch brings a waiting task strictly closer, also when it deletes a task, or dispatches it. */
  lemma SwitchCloser(m: State, x: nat)
    requires Mid(m) && Waiting(m, x)
    ensures Next(m) >= 0
    ensures var r := Switch(m);
            && Alive(r) && r.cur >= 0
            && (r.ring[r.cur].id == x || (Waiting(r, x) && Ahead(r, x) < Ahead(m, x)))
  {
    hide Switch, RemoveAt, Where, Next, Settled, Ordered, Dist;
    var n, p := |m.ring|, Where(m.ring, x);
    SwitchSpec(m);
    NextNotBehind(m, p);
    var q := Next(m);
    if q != p {
      Closer(m.cur, q, p, n);
    }
    if Dying(m) {
      DeletedWhere(m.ring, m.created, m.cur, p);
      DeletedWhere(m.ring, m.created, m.cur, q);
    }
  }

  /** The task chosen is not behind any other running task. */
  lemma NextNotBehind(m: State, p: nat)
    requires Alive(m) && m.cur >= 0 && p < |m.ring| && p != m.cur && m.ring[p].status == Running
    ensures Next(m) >= 0
    ensures Dist(Next(m), m.cur, |m.ring|) >= Dist(p, m.cur, |m.ring|)
  {
    SearchNearest(m.ring, m.cur, Succ(m.cur, |m.ring|), Running, p);
  }

  // ---- the ticks in front of a task ------------------------------------------------

  /** The one time value whose increment wraps to 0, so that a quota starts once more. */
  const WRAPPING: u32 := 0xFFFF_FFFF

  /** The ticks until a task that is current is switched away. */
  function Left(t: Task): (r: nat)
    ensures 1 <= r <= TASK_QUOTA + 1
    ensures r == TASK_QUOTA + 1 <==> t.time == WRAPPING && !t.reschedule
  {
    if t.reschedule then 1
    else if t.time == WRAPPING then TASK_QUOTA + 1
    else if t.time < TASK_QUOTA then TASK_QUOTA - t.time
    else 1
  }

  /** The ticks that the tasks from position p up to but not including position q have left. */
  function LeftUpTo(ring: seq<Task>, p: nat, q: nat): nat
    requires p < |ring| && q < |ring|
    decreases if p == q then 0 else Dist(p, q, |ring|)
  {
    if p == q then 0 else Left(ring[p]) + LeftUpTo(ring, Succ(p, |ring|), q)
  }

  /** The bound on the timer ticks before x is dispatched: what the current task and all tasks in between have left. */
  function Wait(s: State, x: nat): nat
    requires Waiting(s, x)
  {
    LeftUpTo(s.ring, s.cur, Where(s.ring, x))
  }

  /** Along the way from p to q: the positions at which the ticks are counted. */
  predicate OnWay(i: int, p: int, q: int, n: int) {
    if p <= q then p <= i < q else p <= i < n || 0 <= i < q
  }

  /** The sum depends only on the tasks on the way. */
  lemma {:induction false} LeftMonotone(a: seq<Task>, b: seq<Task>, p: nat, q: nat)
    requires |a| == |b| && p < |a| && q < |a|
    requires forall i {:trigger b[i]} :: 0 <= i < |a| && OnWay(i, p, q, |a|) ==> Left(b[i]) <= Left(a[i])
    ensures LeftUpTo(b, p, q) <= LeftUpTo(a, p, q)
    decreases if p == q then 0 else Dist(p, q, |a|)
  {
    hide Left;
    if p != q {
      assert Left(b[p]) <= Left(a[p]);
      LeftMonotone(a, b, Succ(p, |a|), q);
    }
  }

  /** Starting later on the way leaves less. */
  lemma {:induction false} LeftLater(ring: seq<Task>, p: nat, r: nat, q: nat)
    requires p < |ring| && r < |ring| && q < |ring|
    requires r == q || OnWay(r, p, q, |ring|)
    ensures LeftUpTo(ring, r, q) <= LeftUpTo(ring, p, q)
    decreases if p == q then 0 else Dist(p, q, |ring|)
  {
    hide Left;
    if p != q && p != r {
      LeftLater(ring, Succ(p, |ring|), r, q);
    }
  }

  /** Deleting a task that is not on the way changes nothing. */
  lemma {:induction false} LeftDeleted(ring: seq<Task>, k: nat, p: nat, q: nat)
    requires k < |ring| && p < |ring| && q < |ring| && p != k && q != k && !OnWay(k, p, q, |ring|)
    ensures LeftUpTo(RemoveAt(ring, k), if p < k then p else p - 1, if q < k then q else q - 1)
         == LeftUpTo(ring, p, q)
    decreases if p == q then 0 else Dist(p, q, |ring|)
  {
    hide Left, RemoveAt;
    if p != q {
      assert RemoveAt(ring, k)[if p < k then p else p - 1] == ring[p];
      LeftDeleted(ring, k, Succ(p, |ring|), q);
    }
  }

  /** Without a wrapping value on the way every task on it has at most one quota left. */
  lemma {:induction false} LeftBound(ring: seq<Task>, p: nat, q: nat)
    requires p < |ring| && q < |ring|
    ensures LeftUpTo(ring, p, q) <= (if p == q then 0 else Dist(p, q, |ring|)) * (TASK_QUOTA + 1)
    ensures (forall i :: 0 <= i < |ring| && OnWay(i, p, q, |ring|) ==> ring[i].time != WRAPPING) ==>
              LeftUpTo(ring, p, q) <= (if p == q then 0 else Dist(p, q, |ring|)) * TASK_QUOTA
    decreases if p == q then 0 else Dist(p, q, |ring|)
  {
    hide Left;
    if p != q {
      LeftBound(ring, Succ(p, |ring|), q);
    }
  }

  // ---- every step makes progress ---------------------------------------------------------

  predicate Current(s: State, x: nat) {
    Alive(s) && s.cur >= 0 && s.ring[s.cur].id == x
  }

  /** What a step makes of a waiting task: dispatched, or still waiting and no farther away. */
  ghost predicate Progress(s: State, a: Action, r: State, x: nat)
    requires Waiting(s, x)
  {
    && Alive(r) && r.cur >= 0
    && (Current(r, x) ||
        (&& Waiting(r, x)
         && Wait(r, x) + (if a == Timer then 1 else 0) <= Wait(s, x)
         && Ahead(r, x) + (if r.ring[r.cur].id != s.ring[s.cur].id then 1 else 0) <= Ahead(s, x)))
  }

  lemma PutWaiting(s: State, t: Task, x: nat)
    requires Inv(s) && Waiting(s, x) && t.id == s.ring[s.cur].id
    ensures Waiting(Put(s, t), x) && Where(Put(s, t).ring, x) == Where(s.ring, x)
  {
    hide Where;
    WhereIs(Put(s, t).ring, s.created, x, Where(s.ring, x));
  }

  /** A switch leaves at most what the tasks behind the current one have left. */
  lemma SwitchWait(m: State, x: nat)
    requires Mid(m) && Waiting(m, x)
    ensures var r := Switch(m);
            Current(r, x) || (Waiting(r, x) && Wait(r, x) + Left(m.ring[m.cur]) <= Wait(m, x))
  {
    hide Switch, RemoveAt, Where, Next, Settled, Ordered, Left, LeftUpTo;
    var n, k, p := |m.ring|, m.cur, Where(m.ring, x);
    SwitchSpec(m);
    SwitchCloser(m, x);
    NextNotBehind(m, p);
    var q := Next(m);
    if q != p {
      assert LeftUpTo(m.ring, k, p) == Left(m.ring[k]) + LeftUpTo(m.ring, Succ(k, n), p) by {
        LeftStep(m.ring, k, p);
      }
      LeftLater(m.ring, Succ(k, n), q, p);
      if Dying(m) {
        DeletedWhere(m.ring, m.created, k, p);
        LeftDeleted(m.ring, k, q, p);
      }
    } else if Dying(m) {
      DeletedWhere(m.ring, m.created, k, p);
    }
  }

  lemma LeftStep(ring: seq<Task>, p: nat, q: nat)
    requires p < |ring| && q < |ring| && p != q
    ensures LeftUpTo(ring, p, q) == Left(ring[p]) + LeftUpTo(ring, Succ(p, |ring|), q)
  {
  }

  /** A switch from a state whose current task was rewritten with its quota reset. */
  lemma SwitchProgress(s: State, t: Task, a: Action, x: nat)
    requires Inv(s) && Waiting(s, x)
    requires t.id == s.ring[s.cur].id
    requires Mid(Put(s, t))
    ensures Progress(s, a, Switch(Put(s, t)), x)
  {
    hide Switch, Where, Settled, Ordered, Mid, Left, LeftUpTo;
    var m, n, p := Put(s, t), |s.ring|, Where(s.ring, x);
    PutWaiting(s, t, x);
    SwitchCloser(m, x);
    SwitchWait(m, x);
    LeftStep(s.ring, s.cur, p);
    LeftStep(m.ring, s.cur, p);
    LeftMonotone(s.ring, m.ring, Succ(s.cur, n), p);
  }

  lemma LeaveProgress(s: State, t: Task, a: Action, x: nat)
    requires Inv(s) && Waiting(s, x) && t.id == s.ring[s.cur].id
    requires s.cur == 0 ==> IsIdle(t)
    requires Settled(t) || (s.cur > 0 && t.status == Killing)
    ensures Progress(s, a, YieldNow(Put(s, t)), x)
  {
    hide Switch, YieldNow, Where, Mid, Progress;
    YieldSwitches(s, t);
    PutMid(s, t.(time := 0, reschedule := false));
    SwitchProgress(s, t.(time := 0, reschedule := false), a, x);
  }

  /** A tick takes one off what the current task has left, or switches it away. */
  lemma TimerProgress(s: State, x: nat)
    requires Inv(s) && Waiting(s, x)
    ensures Progress(s, Timer, Schedule(s), x)
  {
    hide Switch, Where, LeftUpTo, Mid, Ordered;
    var t := s.ring[s.cur].(time := Wrap(s.ring[s.cur].time + 1));
    if t.time < TASK_QUOTA && !t.reschedule {
      var r, n, p := Put(s, t), |s.ring|, Where(s.ring, x);
      PutWaiting(s, t, x);
      WrapIsRemainder(s.ring[s.cur].time + 1);
      assert Left(t) + 1 == Left(s.ring[s.cur]);
      LeftStep(s.ring, s.cur, p);
      LeftStep(r.ring, s.cur, p);
      LeftMonotone(s.ring, r.ring, Succ(s.cur, n), p);
    } else {
      PutMid(s, t.(time := 0, reschedule := false));
      SwitchProgress(s, t.(time := 0, reschedule := false), Timer, x);
    }
  }

  /** Steps that leave the current task in place and touch no time leave every bound as it is. */
  lemma StayProgress(s: State, a: Action, r: State, x: nat)
    requires Inv(s) && Waiting(s, x) && a != Timer
    requires r.cur == s.cur && |r.ring| == |s.ring|
    requires forall i :: 0 <= i < |s.ring| ==>
               && r.ring[i].id == s.ring[i].id && r.ring[i].time == s.ring[i].time
               && r.ring[i].reschedule == s.ring[i].reschedule
               && (s.ring[i].status == Running ==> r.ring[i].status == Running)
    ensures Progress(s, a, r, x)
  {
    hide Where;
    assert Ordered(r.ring, s.created);
    WhereIs(r.ring, s.created, x, Where(s.ring, x));
    LeftMonotone(s.ring, r.ring, s.cur, Where(s.ring, x));
  }

  /** Every step but a creation makes progress for every waiting task. */
  lemma StepProgress(s: State, a: Action, x: nat)
    requires Inv(s) && Waiting(s, x) && Enabled(s, a) && !a.Create?
    ensures Progress(s, a, Do(s, a), x)
  {
    hide Schedule, YieldNow, Where, Progress;
    match a
    case Timer => TimerProgress(s, x);
    case Yield =>
      LeaveProgress(s, s.ring[s.cur], a, x);
      assert Put(s, s.ring[s.cur]) == s;
    case Exit => LeaveProgress(s, s.ring[s.cur].(status := Killing), a, x);
    case Send(tid, m) => StayProgress(s, a, Do(s, a), x);
    case Receive =>
      var t := s.ring[s.cur];
      if t.inbox == [] {
        LeaveProgress(s, t.(status := Interruptable, receiving := true), a, x);
      } else {
        StayProgress(s, a, Do(s, a), x);
      }
    case Finish => StayProgress(s, a, Do(s, a), x);
  }

  // ---- over runs ------------------------------------------------------------------------

  function Ticks(acts: seq<Action>): nat {
    if acts == [] then 0 else (if acts[0] == Timer then 1 else 0) + Ticks(acts[1..])
  }

  /** How often the current task changes during a run. */
  function Switches(s: State, acts: seq<Action>): nat
    requires AllEnabled(s, acts)
    decreases |acts|
  {
    if acts == [] then 0
    else
      var r := Do(s, acts[0]);
      var changed := Alive(r) && s.cur >= 0 && r.cur >= 0 && r.ring[r.cur].id != s.ring[s.cur].id;
      (if changed then 1 else 0) + Switches(r, acts[1..])
  }

  ghost predicate NeverDispatched(s: State, acts: seq<Action>, x: nat)
    requires AllEnabled(s, acts)
    decreases |acts|
  {
    !Current(s, x) && (acts != [] ==> NeverDispatched(Do(s, acts[0]), acts[1..], x))
  }

  predicate NoCreation(acts: seq<Action>) {
    forall i :: 0 <= i < |acts| ==> !acts[i].Create?
  }

  /**
   Fairness: as long as a waiting task is not dispatched, fewer than Wait ticks and fewer
   than Ahead switches have happened, whatever the other tasks do.
   */
  lemma {:induction false} Fair(s: State, acts: seq<Action>, x: nat)
    requires Inv(s) && Waiting(s, x)
    requires AllEnabled(s, acts) && NoCreation(acts) && NeverDispatched(s, acts, x)
    ensures Ticks(acts) < Wait(s, x)
    ensures Switches(s, acts) < Ahead(s, x)
    decreases |acts|
  {
    hide Inv, Do, Enabled, Where, LeftUpTo;
    if acts == [] {
      WaitPositive(s, x);
    } else {
      var r := Do(s, acts[0]);
      DoKeepsInv(s, acts[0]);
      StepProgress(s, acts[0], x);
      assert NoCreation(acts[1..]);
      Fair(r, acts[1..], x);
    }
  }

  lemma WaitPositive(s: State, x: nat)
    requires Waiting(s, x)
    ensures Wait(s, x) > 0
  {
  }

  /** A run with Wait ticks or Ahead switches, and no creation, dispatches every waiting task. */
  lemma RoundRobin(s: State, acts: seq<Action>, x: nat)
    requires Inv(s) && Waiting(s, x)
    requires AllEnabled(s, acts) && NoCreation(acts)
    requires Ticks(acts) >= Wait(s, x) || Switches(s, acts) >= Ahead(s, x)
    ensures !NeverDispatched(s, acts, x)
  {
    if NeverDispatched(s, acts, x) {
      Fair(s, acts, x);
    }
  }

  /** The tick bound in whole quotas: one per ring step, one tick more where a quota starts once more. */
  lemma WaitInQuotas(s: State, x: nat)
    requires Waiting(s, x)
    ensures Ahead(s, x) <= |s.ring| - 1
    ensures Wait(s, x) <= Ahead(s, x) * (TASK_QUOTA + 1)
    ensures NoWrapBefore(s, x) ==> Wait(s, x) <= Ahead(s, x) * TASK_QUOTA <= (|s.ring| - 1) * TASK_QUOTA
  {
    LeftBound(s.ring, s.cur, Where(s.ring, x));
  }

  /** No task from the current one up to x has the wrapping value. */
  ghost predicate NoWrapBefore(s: State, x: nat)
    requires Waiting(s, x)
  {
    forall i :: 0 <= i < |s.ring| && OnWay(i, s.cur, Where(s.ring, x), |s.ring|) ==> s.ring[i].time != WRAPPING
  }
}
