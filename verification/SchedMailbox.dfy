/** A mailbox is a stack: what krecive hands out is what ksend accepted last and was not yet handed out. */
module SchedMailbox {
  import opened Sched
  import opened SchedInvariant
  import opened SchedFair
  import opened SchedMessages

  /** What happens to a mailbox: ksend accepts a message for it, or krecive hands one out to its owner. */
  datatype Event = Pushed(m: Message) | Popped(m: Message)

  /** The reference: a stack of at most eight messages. */
  ghost predicate StackRun(stack: seq<Message>, events: seq<Event>, end: seq<Message>)
    decreases |events|
  {
    if events == [] then end == stack
    else
      match events[0]
      case Pushed(m) => |stack| < 8 && StackRun(stack + [m], events[1..], end)
      case Popped(m) =>
        && stack != [] && m == stack[|stack| - 1]
        && StackRun(stack[..|stack| - 1], events[1..], end)
  }

  /** What a step does to the mailbox of x. */
  function StepEvents(s: State, a: Action, x: nat): seq<Event>
    requires Inv(s) && Enabled(s, a)
  {
    if a.Send? then
      var i := Recipient(s, a.tid);
      if i >= 0 && s.ring[i].id == x then [Pushed(a.m)] else []
    else if (a == Finish || a == Receive) && s.ring[s.cur].id == x && s.ring[s.cur].inbox != [] then [Popped(Handed(s))]
    else []
  }

  ghost predicate Stacked(s: State, a: Action, x: nat)
    requires Inv(s) && Enabled(s, a)
  {
    Where(Do(s, a).ring, x) >= 0 ==> StackRun(Inbox(s, x), StepEvents(s, a, x), Inbox(Do(s, a), x))
  }

  lemma OneEvent(stack: seq<Message>, m: Message)
    ensures StackRun(stack, [], stack)
    ensures |stack| < 8 ==> StackRun(stack, [Pushed(m)], stack + [m])
    ensures stack != [] ==> StackRun(stack, [Popped(stack[|stack| - 1])], stack[..|stack| - 1])
  {
    assert [Pushed(m)][1..] == [];
  }

  lemma SendStacked(s: State, tid: nat, m: Message, x: nat)
    requires Inv(s)
    ensures Stacked(s, Send(tid, m), x)
  {
    hide Where, FindTid, Recipient, Ordered;
    var i := Recipient(s, tid);
    OneEvent(Inbox(s, x), m);
    if i >= 0 {
      assert Settled(s.ring[i]);
      SameNumbers(s.ring, Deliver(s, tid, m).ring, x);
      WhereIs(s.ring, s.created, s.ring[i].id, i);
    }
  }

  lemma PopStacked(s: State, a: Action, x: nat)
    requires Inv(s) && Enabled(s, a) && (a == Finish || a == Receive)
    requires s.ring[s.cur].inbox != []
    ensures Stacked(s, a, x)
  {
    hide Where, Settled, Ordered;
    var t := s.ring[s.cur];
    OneEvent(t.inbox, Handed(s));
    OneEvent(Inbox(s, x), Handed(s));
    PutInbox(s, t.(inbox := t.inbox[..|t.inbox| - 1], receiving := false), x);
    WhereIs(s.ring, s.created, t.id, s.cur);
  }

  lemma StepStacked(s: State, a: Action, x: nat)
    requires Inv(s) && Enabled(s, a)
    ensures Stacked(s, a, x)
  {
    hide Schedule, YieldNow, Where, Recipient;
    match a
    case Timer => TimerKeepsInbox(s, x);
    case Yield =>
      if s.cur >= 0 {
        YieldKeepsInbox(s, s.ring[s.cur], x);
        assert Put(s, s.ring[s.cur]) == s;
      } else {
        FirstYield(s);
        TimerKeepsInbox(s, x);
      }
    case Exit => YieldKeepsInbox(s, s.ring[s.cur].(status := Killing), x);
    case Create(_, _) => WhereAppended(s.ring, Do(s, a).ring[|s.ring|], x);
    case Send(tid, m) => SendStacked(s, tid, m, x);
    case Receive =>
      var t := s.ring[s.cur];
      if t.inbox == [] {
        YieldKeepsInbox(s, t.(status := Interruptable, receiving := true), x);
      } else {
        PopStacked(s, a, x);
      }
    case Finish => PopStacked(s, a, x);
  }

  // ---- over runs ---------------------------------------------------------------------

  ghost function RunEvents(s: State, acts: seq<Action>, x: nat): seq<Event>
    requires Inv(s) && AllEnabled(s, acts)
    decreases |acts|
  {
    if acts == [] then []
    else
      DoKeepsInv(s, acts[0]);
      StepEvents(s, acts[0], x) + RunEvents(Do(s, acts[0]), acts[1..], x)
  }

  lemma {:induction false} StackJoins(a: seq<Message>, e: seq<Event>, b: seq<Message>, f: seq<Event>, c: seq<Message>)
    requires StackRun(a, e, b) && StackRun(b, f, c)
    ensures StackRun(a, e + f, c)
    decreases |e|
  {
    if e == [] {
      assert e + f == f;
    } else {
      assert (e + f)[1..] == e[1..] + f;
      match e[0]
      case Pushed(m) => StackJoins(a + [m], e[1..], b, f, c);
      case Popped(m) => StackJoins(a[..|a| - 1], e[1..], b, f, c);
    }
  }

  /** Over every run the mailbox of a task that is there in the end was a stack. */
  lemma {:induction false} MailboxIsStack(s: State, acts: seq<Action>, x: nat)
    requires Inv(s) && AllEnabled(s, acts)
    requires Where(Run(s, acts).ring, x) >= 0
    ensures StackRun(Inbox(s, x), RunEvents(s, acts, x), Inbox(Run(s, acts), x))
    decreases |acts|
  {
    hide Inv, Do, Enabled, Where, StepEvents;
    if acts != [] {
      var r := Do(s, acts[0]);
      DoKeepsInv(s, acts[0]);
      StepStacked(s, acts[0], x);
      MailboxIsStack(r, acts[1..], x);
      if Where(r.ring, x) < 0 {
        NotYet(s, acts, x);
        NothingYet(s, acts[0], x);
      }
      StackJoins(Inbox(s, x), StepEvents(s, acts[0], x), Inbox(r, x),
                 RunEvents(r, acts[1..], x), Inbox(Run(s, acts), x));
    }
  }

  lemma NothingYet(s: State, a: Action, x: nat)
    requires Inv(s) && Enabled(s, a) && Where(s.ring, x) < 0
    ensures StepEvents(s, a, x) == []
  {
    hide Where;
  }

  // ---- last in, first out ---------------------------------------------------------------

  function Pushes(ms: seq<Message>): (e: seq<Event>)
    ensures |e| == |ms|
  {
    seq(|ms|, i requires 0 <= i < |ms| => Pushed(ms[i]))
  }

  function Pops(ms: seq<Message>): (e: seq<Event>)
    ensures |e| == |ms|
  {
    seq(|ms|, i requires 0 <= i < |ms| => Popped(ms[i]))
  }

  lemma {:induction false} AllPushed(stack: seq<Message>, ms: seq<Message>, rest: seq<Event>, end: seq<Message>)
    requires StackRun(stack, Pushes(ms) + rest, end)
    ensures StackRun(stack + ms, rest, end)
    decreases |ms|
  {
    if ms == [] {
      assert Pushes(ms) + rest == rest && stack + ms == stack;
    } else {
      assert (Pushes(ms) + rest)[1..] == Pushes(ms[1..]) + rest;
      assert stack + [ms[0]] + ms[1..] == stack + ms;
      AllPushed(stack + [ms[0]], ms[1..], rest, end);
    }
  }

  lemma {:induction false} AllPopped(stack: seq<Message>, ns: seq<Message>, end: seq<Message>)
    requires StackRun(stack, Pops(ns), end)
    ensures |ns| <= |stack| && end == stack[..|stack| - |ns|]
    ensures forall i :: 0 <= i < |ns| ==> ns[i] == stack[|stack| - 1 - i]
    decreases |ns|
  {
    if ns != [] {
      assert Pops(ns)[1..] == Pops(ns[1..]);
      AllPopped(stack[..|stack| - 1], ns[1..], end);
      assert forall i :: 1 <= i < |ns| ==> ns[i] == ns[1..][i - 1];
    }
  }

  /**
   Messages that are accepted one after the other and then received come out in reverse
   order, and the mailbox is as it was; for one message: the next receive takes exactly that one.
   */
  lemma ReverseOrder(s: State, acts: seq<Action>, x: nat, ms: seq<Message>, ns: seq<Message>)
    requires Inv(s) && AllEnabled(s, acts)
    requires Where(Run(s, acts).ring, x) >= 0
    requires RunEvents(s, acts, x) == Pushes(ms) + Pops(ns) && |ns| == |ms|
    ensures forall i :: 0 <= i < |ms| ==> ns[i] == ms[|ms| - 1 - i]
    ensures Inbox(Run(s, acts), x) == Inbox(s, x)
  {
    hide Inv, Where, Run, RunEvents, Pushes, Pops;
    MailboxIsStack(s, acts, x);
    AllPushed(Inbox(s, x), ms, Pops(ns), Inbox(Run(s, acts), x));
    AllPopped(Inbox(s, x) + ms, ns, Inbox(Run(s, acts), x));
  }

  /** From boot: eight messages for the idle task lie in its mailbox in order, and a ninth is refused. */
  lemma {:induction false} EightFit(ms: seq<Message>, ninth: Message)
    requires |ms| <= 8
    ensures var sends := seq(|ms|, i requires 0 <= i < |ms| => Send(0, ms[i]));
            && AllEnabled(Boot(), sends)
            && Run(Boot(), sends) == WithMail(ms)
            && (|ms| == 8 ==> Do(WithMail(ms), Send(0, ninth)) == WithMail(ms))
  {
    Filling([], ms);
    assert [] + ms == ms && Boot() == WithMail([]);
    assert FindTid(WithMail(ms).ring, 0, 0) == 0;
  }

  /** The idle task alone, with these messages. */
  function WithMail(ms: seq<Message>): State {
    State([Task(0, Running, 0, false, ms, false)], -1, 1, false)
  }

  lemma {:induction false} Filling(done: seq<Message>, ms: seq<Message>)
    requires |done| + |ms| <= 8
    ensures var sends := seq(|ms|, i requires 0 <= i < |ms| => Send(0, ms[i]));
            AllEnabled(WithMail(done), sends) && Run(WithMail(done), sends) == WithMail(done + ms)
    decreases |ms|
  {
    var sends := seq(|ms|, i requires 0 <= i < |ms| => Send(0, ms[i]));
    if ms == [] {
      assert done + ms == done;
    } else {
      assert FindTid(WithMail(done).ring, 0, 0) == 0;
      assert Do(WithMail(done), Send(0, ms[0])) == WithMail(done + [ms[0]]);
      assert sends[1..] == seq(|ms[1..]|, i requires 0 <= i < |ms[1..]| => Send(0, ms[1..][i]));
      Filling(done + [ms[0]], ms[1..]);
      assert done + [ms[0]] + ms[1..] == done + ms;
    }
  }
}
