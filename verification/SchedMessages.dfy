/** Conservation of messages over runs, and whom a task number addresses. */
module SchedMessages {
  import opened Machine
  import opened Slist
  import opened Clist
  import opened Sched
  import opened SchedInvariant
  import opened SchedFair

  /** The buffer of the task with serial number x, empty when there is no such task. */
  function Inbox(s: State, x: nat): seq<Message> {
    var p := Where(s.ring, x);
    if p < 0 then [] else s.ring[p].inbox
  }

  /** The messages a step puts into the buffer of x. */
  function Accepted(s: State, a: Action, x: nat): multiset<Message>
    requires Enabled(s, a)
  {
    if a.Send? then
      var i := Recipient(s, a.tid);
      if i >= 0 && s.ring[i].id == x then multiset{a.m} else multiset{}
    else multiset{}
  }

  /** The messages x takes out in a step: it is current and finishes a krecive. */
  function Received(s: State, a: Action, x: nat): multiset<Message>
    requires Inv(s) && Enabled(s, a)
  {
    if (a == Finish || a == Receive) && s.ring[s.cur].id == x && s.ring[s.cur].inbox != []
    then multiset{s.ring[s.cur].inbox[|s.ring[s.cur].inbox| - 1]}
    else multiset{}
  }

  /** A task that stays in the ring keeps its buffer in every switch. */
  lemma SwitchKeepsInbox(s: State, t: Task, x: nat)
    requires Inv(s) && s.cur >= 0 && t.id == s.ring[s.cur].id && t.inbox == s.ring[s.cur].inbox
    requires Mid(Put(s, t))
    ensures Where(Switch(Put(s, t)).ring, x) >= 0 ==> Inbox(Switch(Put(s, t)), x) == Inbox(s, x)
    ensures Where(s.ring, x) < 0 ==> Where(Switch(Put(s, t)).ring, x) < 0
  {
    hide Switch, Next, RemoveAt, Where, Settled, Ordered;
    var m := Put(s, t);
    SwitchSpec(m);
    SameNumbers(s.ring, m.ring, x);
    if Dying(m) {
      AfterDeletion(m.ring, m.created, m.cur, x);
    }
  }

  lemma {:induction false} SameNumbers(a: seq<Task>, b: seq<Task>, x: nat)
    requires |a| == |b| && forall i :: 0 <= i < |a| ==> a[i].id == b[i].id
    ensures Where(a, x) == Where(b, x)
  {
    if a != [] {
      SameNumbers(a[..|a| - 1], b[..|b| - 1], x);
    }
  }

  /** Where x is when the task at k is gone. */
  lemma AfterDeletion(ring: seq<Task>, created: nat, k: nat, x: nat)
    requires Ordered(ring, created) && k < |ring|
    ensures var p, after := Where(ring, x), RemoveAt(ring, k);
            Where(after, x) == if p < 0 || p == k then -1 else if p < k then p else p - 1
  {
    hide RemoveAt, Where;
    var p, after := Where(ring, x), RemoveAt(ring, k);
    if 0 <= p && p != k {
      DeletedWhere(ring, created, k, p);
    } else {
      var q := Where(after, x);
      var o := if q < k then q else q + 1;
      assert q >= 0 ==> after[q] == ring[o] && o != k;
      assert q >= 0 && p == k ==> ring[k].id != ring[o].id;
    }
  }

  lemma YieldKeepsInbox(s: State, t: Task, x: nat)
    requires Inv(s) && s.cur >= 0 && t.id == s.ring[s.cur].id && t.inbox == s.ring[s.cur].inbox
    requires s.cur == 0 ==> IsIdle(t)
    requires Settled(t) || (s.cur > 0 && t.status == Killing)
    ensures var r := YieldNow(Put(s, t));
            && (Where(r.ring, x) >= 0 ==> Inbox(r, x) == Inbox(s, x))
            && (Where(s.ring, x) < 0 ==> Where(r.ring, x) < 0)
  {
    hide Switch, YieldNow, Where, Mid;
    YieldSwitches(s, t);
    PutMid(s, t.(time := 0, reschedule := false));
    SwitchKeepsInbox(s, t.(time := 0, reschedule := false), x);
  }

  lemma TimerKeepsInbox(s: State, x: nat)
    requires Inv(s)
    ensures var r := Schedule(s);
            && (Where(r.ring, x) >= 0 ==> Inbox(r, x) == Inbox(s, x))
            && (Where(s.ring, x) < 0 ==> Where(r.ring, x) < 0)
  {
    hide Switch, Where, Mid;
    if s.cur < 0 {
      SwitchSpecAtBoot(s);
    } else {
      var t := s.ring[s.cur].(time := Wrap(s.ring[s.cur].time + 1));
      PutInbox(s, t, x);
      PutMid(s, t.(time := 0, reschedule := false));
      SwitchKeepsInbox(s, t.(time := 0, reschedule := false), x);
    }
  }

  lemma SwitchSpecAtBoot(s: State)
    requires Inv(s) && s.cur < 0
    ensures Switch(s).ring == s.ring
  {
    SwitchSpec(s);
  }

  /** Rewriting the current task changes nobody else's buffer. */
  lemma PutInbox(s: State, t: Task, x: nat)
    requires Inv(s) && s.cur >= 0 && t.id == s.ring[s.cur].id
    ensures Where(Put(s, t).ring, x) == Where(s.ring, x)
    ensures Inbox(Put(s, t), x) == if s.ring[s.cur].id == x then t.inbox else Inbox(s, x)
  {
    hide Where, Settled;
    SameNumbers(s.ring, Put(s, t).ring, x);
    WhereIs(s.ring, s.created, s.ring[s.cur].id, s.cur);
  }

  /** One step conserves messages: what was there and came in is what went out and is there. */
  ghost predicate Balanced(s: State, a: Action, x: nat)
    requires Inv(s) && Enabled(s, a)
  {
    var r := Do(s, a);
    && (Where(r.ring, x) >= 0 ==>
          multiset(Inbox(s, x)) + Accepted(s, a, x) == Received(s, a, x) + multiset(Inbox(r, x)))
    && (Where(s.ring, x) < 0 ==> Accepted(s, a, x) == multiset{} && Received(s, a, x) == multiset{})
    && (Where(s.ring, x) < 0 && x < s.created ==> Where(r.ring, x) < 0)
  }

  lemma SendBalanced(s: State, tid: nat, m: Message, x: nat)
    requires Inv(s)
    ensures Balanced(s, Send(tid, m), x)
  {
    hide Where, FindTid, Settled, Recipient, Ordered;
    var i := Recipient(s, tid);
    if i >= 0 {
      SameNumbers(s.ring, Deliver(s, tid, m).ring, x);
      WhereIs(s.ring, s.created, s.ring[i].id, i);
    }
  }

  lemma PopBalanced(s: State, a: Action, x: nat)
    requires Inv(s) && Enabled(s, a) && (a == Finish || a == Receive)
    requires s.ring[s.cur].inbox != []
    ensures Balanced(s, a, x)
  {
    hide Where, Settled, Ordered, FindTid;
    var t := s.ring[s.cur];
    var last := |t.inbox| - 1;
    LastTaken(t.inbox);
    PutInbox(s, t.(inbox := t.inbox[..last], receiving := false), x);
    WhereIs(s.ring, s.created, t.id, s.cur);
  }

  lemma LastTaken(ms: seq<Message>)
    requires ms != []
    ensures multiset(ms) == multiset{ms[|ms| - 1]} + multiset(ms[..|ms| - 1])
  {
    assert ms == ms[..|ms| - 1] + [ms[|ms| - 1]];
  }

  lemma CreateBalanced(s: State, a: Action, x: nat)
    requires Inv(s) && Enabled(s, a) && a.Create?
    ensures Balanced(s, a, x)
  {
    hide Where, Settled;
    WhereAppended(s.ring, Do(s, a).ring[|s.ring|], x);
    assert Where(s.ring, x) >= 0 ==> s.ring[Where(s.ring, x)].id < s.created;
  }

  lemma WhereAppended(ring: seq<Task>, t: Task, x: nat)
    ensures Where(ring + [t], x) == if t.id == x then |ring| else Where(ring, x)
  {
    assert (ring + [t])[..|ring|] == ring;
  }

  lemma StepBalanced(s: State, a: Action, x: nat)
    requires Inv(s) && Enabled(s, a)
    ensures Balanced(s, a, x)
  {
    hide Schedule, YieldNow, Where, Recipient;
    match a
    case Timer => TimerKeepsInbox(s, x);
    case Yield =>
      if s.cur >= 0 {
        YieldKeepsInbox(s, s.ring[s.cur], x);
        assert Put(s, s.ring[s.cur]) == s;
      } else {
        FirstYield(s);
        TimerKeepsInbox(s, x);
      }
    case Exit => YieldKeepsInbox(s, s.ring[s.cur].(status := Killing), x);
    case Create(_, _) => CreateBalanced(s, a, x);
    case Send(tid, m) => SendBalanced(s, tid, m, x);
    case Receive =>
      var t := s.ring[s.cur];
      if t.inbox == [] {
        YieldKeepsInbox(s, t.(status := Interruptable, receiving := true), x);
      } else {
        PopBalanced(s, a, x);
      }
    case Finish => PopBalanced(s, a, x);
  }

  // ---- over runs ---------------------------------------------------------------------

  ghost function AcceptedInRun(s: State, acts: seq<Action>, x: nat): multiset<Message>
    requires AllEnabled(s, acts)
    decreases |acts|
  {
    if acts == [] then multiset{}
    else Accepted(s, acts[0], x) + AcceptedInRun(Do(s, acts[0]), acts[1..], x)
  }

  ghost function ReceivedInRun(s: State, acts: seq<Action>, x: nat): multiset<Message>
    requires Inv(s) && AllEnabled(s, acts)
    decreases |acts|
  {
    if acts == [] then multiset{}
    else
      DoKeepsInv(s, acts[0]);
      Received(s, acts[0], x) + ReceivedInRun(Do(s, acts[0]), acts[1..], x)
  }

  lemma {:induction false} GoneStaysGone(s: State, acts: seq<Action>, x: nat)
    requires Inv(s) && AllEnabled(s, acts) && Where(s.ring, x) < 0 && x < s.created
    ensures Where(Run(s, acts).ring, x) < 0
    decreases |acts|
  {
    hide Inv, Do, Enabled, Where, Accepted, Received, Inbox;
    if acts != [] {
      DoKeepsInv(s, acts[0]);
      StepBalanced(s, acts[0], x);
      CreatedGrows(s, acts[0]);
      GoneStaysGone(Do(s, acts[0]), acts[1..], x);
    }
  }

  lemma CreatedGrows(s: State, a: Action)
    requires Enabled(s, a)
    ensures Do(s, a).created >= s.created
    ensures a.Create? || Do(s, a).created == s.created
  {
    hide Search, FindTid, DeleteAt;
  }

  /**
   Conservation: for a task in the ring at the end of a run, the messages buffered at the
   start and accepted since are, as a multiset, those it received and those still buffered.
   */
  lemma {:induction false} Conservation(s: State, acts: seq<Action>, x: nat)
    requires Inv(s) && AllEnabled(s, acts)
    requires Where(Run(s, acts).ring, x) >= 0
    ensures multiset(Inbox(s, x)) + AcceptedInRun(s, acts, x)
         == ReceivedInRun(s, acts, x) + multiset(Inbox(Run(s, acts), x))
    decreases |acts|
  {
    hide Inv, Do, Enabled, Where, Accepted, Received;
    if acts != [] {
      var r := Do(s, acts[0]);
      DoKeepsInv(s, acts[0]);
      StepBalanced(s, acts[0], x);
      Conservation(r, acts[1..], x);
      if Where(r.ring, x) < 0 {
        NotYet(s, acts, x);
      }
      Sums(multiset(Inbox(s, x)), Accepted(s, acts[0], x), Received(s, acts[0], x), multiset(Inbox(r, x)),
           AcceptedInRun(r, acts[1..], x), ReceivedInRun(r, acts[1..], x), multiset(Inbox(Run(s, acts), x)));
    }
  }

  lemma Sums(a: multiset<Message>, b: multiset<Message>, c: multiset<Message>, d: multiset<Message>,
             e: multiset<Message>, f: multiset<Message>, g: multiset<Message>)
    requires a + b == c + d && d + e == f + g
    ensures a + (b + e) == (c + f) + g
  {
    assert a + (b + e) == (a + b) + e == (c + d) + e == c + (d + e) == c + (f + g);
  }

  /** A task that is absent after the first step and present in the end had nothing to do with that step. */
  lemma NotYet(s: State, acts: seq<Action>, x: nat)
    requires Inv(s) && AllEnabled(s, acts) && acts != []
    requires Where(Do(s, acts[0]).ring, x) < 0 && Where(Run(s, acts).ring, x) >= 0
    ensures Where(s.ring, x) < 0
  {
    hide Do, Enabled, Where;
    DoKeepsInv(s, acts[0]);
    CreatedGrows(s, acts[0]);
    if x < Do(s, acts[0]).created {
      GoneStaysGone(Do(s, acts[0]), acts[1..], x);
    } else if Where(s.ring, x) >= 0 {
      assert s.ring[Where(s.ring, x)].id < s.created;
    }
  }

  // ---- addressing -----------------------------------------------------------------------

  /** A number addresses the task that owns it exactly when no older task in the ring has the same 16 bits. */
  lemma AddressedExactly(s: State, p: nat)
    requires Inv(s) && p < |s.ring|
    ensures FindTid(s.ring, Tid(s.ring[p]), 0) == p <==> forall j :: 0 <= j < p ==> Tid(s.ring[j]) != Tid(s.ring[p])
    ensures s.created <= 65536 ==> FindTid(s.ring, Tid(s.ring[p]), 0) == p
  {
    if s.created <= 65536 {
      forall j | 0 <= j < p ensures Tid(s.ring[j]) != Tid(s.ring[p]) {
        assert s.ring[j].id < s.ring[p].id < 65536;
      }
    }
  }

  /** The 65537th task has the idle task's number, so a message for it ends up with the idle task. */
  lemma NumbersRepeat(m: Message)
    ensures var idle, late := Task(0, Running, 0, false, [], false), Task(65536, Interruptable, 0, false, [], true);
            var s := State([idle, late], 0, 65537, false);
            && Inv(s) && Tid(late) == Tid(idle)
            && Deliver(s, Tid(late), m).ring == [idle.(inbox := [m]), late]
  {
    var idle, late := Task(0, Running, 0, false, [], false), Task(65536, Interruptable, 0, false, [], true);
    var s := State([idle, late], 0, 65537, false);
    assert Tid(idle) == 0 && Tid(late) == 0;
    assert FindTid(s.ring, 0, 0) == 0;
    assert [] + [m] == [m];
    assert s.ring[0 := idle.(inbox := [m])] == [idle.(inbox := [m]), late];
  }

  /** A message is refused exactly when no task has the number, or the first that has it is full. */
  lemma RefusedExactly(s: State, tid: nat, m: Message)
    requires Inv(s)
    ensures Deliver(s, tid, m) == s <==>
              ((forall i :: 0 <= i < |s.ring| ==> Tid(s.ring[i]) != tid) ||
               (FindTid(s.ring, tid, 0) >= 0 && |s.ring[FindTid(s.ring, tid, 0)].inbox| == TASK_MSG_BUFF_SIZE))
  {
    var i := Recipient(s, tid);
    if i >= 0 {
      assert Deliver(s, tid, m).ring[i].inbox != s.ring[i].inbox by {
        assert |Deliver(s, tid, m).ring[i].inbox| == |s.ring[i].inbox| + 1;
      }
    }
  }

  /** A message to a waiting task makes it runnable at once; SchedFair.RoundRobin bounds its wait from then on. */
  lemma SendWakes(s: State, p: nat, m: Message)
    requires Inv(s) && s.cur >= 0 && p < |s.ring| && s.ring[p].status == Interruptable
    requires FindTid(s.ring, Tid(s.ring[p]), 0) == p
    ensures var r := Deliver(s, Tid(s.ring[p]), m);
            r.ring[p].inbox == [m] && Waiting(r, s.ring[p].id) && Ahead(r, s.ring[p].id) == Dist(s.cur, p, |s.ring|)
  {
    hide Where, FindTid;
    assert Settled(s.ring[p]);
    var r := Deliver(s, Tid(s.ring[p]), m);
    SameNumbers(s.ring, r.ring, s.ring[p].id);
    WhereIs(s.ring, s.created, s.ring[p].id, p);
  }
}
