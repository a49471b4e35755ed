/**
 The scheduler, the task ring and message passing as a transition system on
 values: kernel/src/kernel/scheduler/schedule.c and task.c. Tasks are listed in
 ring order from the list's head; `cur` is the position of current_task, -1 for NULL.
 */
module Sched {
  import opened Machine
  import opened Clist

  const TASK_QUOTA := 3
  const TASK_MSG_BUFF_SIZE := 8

  datatype Status = Uninterruptable | Running | Killing | Interruptable

  datatype Message = Message(kind: byte, len: u32, data: u32)

  /**
   A task: `id` is its serial number of creation, `inbox` the used part of msg_buff,
   and `receiving` says that it is inside krecive, behind the call of sched_yield.
   */
  datatype Task = Task(id: nat, status: Status, time: u32, reschedule: bool, inbox: seq<Message>, receiving: bool)

  /** `crashed` records that an assertion of krecive failed or an empty msg_buff was read. */
  datatype State = State(ring: seq<Task>, cur: int, created: nat, crashed: bool)

  /** tid_counter is truncated to 16 bits when it is stored in the task. */
  function Tid(t: Task): nat {
    t.id % 65536
  }

  // ---- searches ---------------------------------------------------------------

  /** The number of steps forward from a to b in a ring of n, between 1 and n. */
  function Dist(a: int, b: int, n: int): int {
    if a < b then b - a else b + n - a
  }

  /** task_find_by_status_from with its pointer at p: the position found, or -1. */
  function Search(ring: seq<Task>, start: nat, p: nat, st: Status): (r: int)
    requires start < |ring| && p < |ring|
    ensures r == -1 || (0 <= r < |ring| && ring[r].status == st)
    decreases Dist(p, start, |ring|)
  {
    if ring[p].status == st then p
    else
      var q := Succ(p, |ring|);
      if q == start then -1 else Search(ring, start, q, st)
  }

  function FindFrom(ring: seq<Task>, start: nat, st: Status): int
    requires start < |ring|
  {
    Search(ring, start, Succ(start, |ring|), st)
  }

  /** task_find_by_id from position i on. */
  function FindTid(ring: seq<Task>, tid: nat, i: nat): (r: int)
    requires i <= |ring|
    ensures r == -1 || (i <= r < |ring| && Tid(ring[r]) == tid)
    ensures r == -1 ==> forall j :: i <= j < |ring| ==> Tid(ring[j]) != tid
    ensures r >= 0 ==> forall j :: i <= j < r ==> Tid(ring[j]) != tid
    decreases |ring| - i
  {
    if i == |ring| then -1
    else if Tid(ring[i]) == tid then i
    else FindTid(ring, tid, i + 1)
  }

  // ---- sched_schedule -----------------------------------------------------------

  /** The position that follows next when the task at k is deleted. */
  function Shift(next: nat, k: nat, n: nat): nat
    requires next < n && k < n && next != k
  {
    if k == 0 then (if next == n - 1 then 0 else next) else if next < k then next else next - 1
  }

  /** The part of sched_schedule behind the quota test: pick, reap at most one task, switch. */
  function Switch(s: State): State
    requires -1 <= s.cur < |s.ring| && s.ring != []
  {
    var next := FindFrom(s.ring, if s.cur >= 0 then s.cur else 0, Running);
    if next < 0 then s
    else
      var victim := if s.cur >= 0 && s.ring[s.cur].status == Killing then s.cur else FindFrom(s.ring, 0, Killing);
      if victim < 0 then s.(cur := next)
      else s.(ring := DeleteAt(s.ring, victim), cur := Shift(next, victim, |s.ring|))
  }

  function Put(s: State, t: Task): State
    requires 0 <= s.cur < |s.ring|
  {
    s.(ring := s.ring[s.cur := t])
  }

  /** sched_schedule, called by the timer interrupt. */
  function Schedule(s: State): State
    requires -1 <= s.cur < |s.ring| && s.ring != []
  {
    if s.cur < 0 then Switch(s)
    else
      var t := s.ring[s.cur].(time := Wrap(s.ring[s.cur].time + 1));
      if t.time < TASK_QUOTA && !t.reschedule then Put(s, t)
      else Switch(Put(s, t.(time := 0, reschedule := false)))
  }

  /** sched_yield. */
  function YieldNow(s: State): State
    requires -1 <= s.cur < |s.ring| && s.ring != []
  {
    Schedule(if s.cur >= 0 then Put(s, s.ring[s.cur].(reschedule := true)) else s)
  }

  // ---- the other handlers ---------------------------------------------------------

  /** The message that krecive copies out: the one on top of the current task's buffer. */
  function Handed(s: State): Message
    requires 0 <= s.cur < |s.ring| && s.ring[s.cur].inbox != []
  {
    var inbox := s.ring[s.cur].inbox;
    inbox[|inbox| - 1]
  }

  /** The end of krecive: the message on top of the current task's buffer is taken off. */
  function Pop(s: State): State
    requires 0 <= s.cur < |s.ring|
  {
    var t := s.ring[s.cur];
    if t.status != Running || t.inbox == [] then s.(crashed := true)
    else Put(s, t.(inbox := t.inbox[..|t.inbox| - 1], receiving := false))
  }

  /** krecive up to its call of sched_yield, and to its end when a message is already there. */
  function BeginReceive(s: State): State
    requires 0 <= s.cur < |s.ring|
  {
    var t := s.ring[s.cur];
    if t.status != Running then s.(crashed := true)
    else if t.inbox != [] then Pop(s)
    else YieldNow(Put(s, t.(status := Interruptable, receiving := true)))
  }

  /** The position that takes a message sent to tid, or -1 when it is refused. */
  function Recipient(s: State, tid: nat): (i: int)
    ensures -1 <= i < |s.ring|
    ensures i >= 0 ==> i == FindTid(s.ring, tid, 0) && |s.ring[i].inbox| != TASK_MSG_BUFF_SIZE
    ensures i == -1 ==> var j := FindTid(s.ring, tid, 0); j == -1 || |s.ring[j].inbox| == TASK_MSG_BUFF_SIZE
  {
    var i := FindTid(s.ring, tid, 0);
    if i < 0 || |s.ring[i].inbox| == TASK_MSG_BUFF_SIZE then -1 else i
  }

  /** ksend. */
  function Deliver(s: State, tid: nat, m: Message): State {
    var i := Recipient(s, tid);
    if i < 0 then s
    else
      var t := s.ring[i];
      s.(ring := s.ring[i := t.(inbox := t.inbox + [m],
                                status := if t.status == Interruptable then Running else t.status)])
  }

  /** The steps: interrupts, system calls of the current task, and its return into krecive. */
  datatype Action =
    | Timer
    | Yield
    | Exit
    | Create(time: u32, reschedule: bool)  // two fields task_create leaves as it finds them
    | Send(tid: nat, m: Message)
    | Receive
    | Finish

  predicate Alive(s: State) {
    s.ring != [] && -1 <= s.cur < |s.ring|
  }

  /**
   When a step can happen. The idle task neither exits nor receives; a task inside
   krecive makes no other system call; messages also come from interrupt handlers.
   */
  predicate Enabled(s: State, a: Action) {
    && Alive(s)
    && match a
       case Timer => true
       case Send(_, _) => true
       case Create(_, _) => s.cur >= 0 ==> !s.ring[s.cur].receiving
       case Yield => s.cur >= 0 ==> !s.ring[s.cur].receiving
       case Exit => s.cur > 0 && !s.ring[s.cur].receiving
       case Receive => s.cur > 0 && !s.ring[s.cur].receiving
       case Finish => s.cur >= 0 && s.ring[s.cur].receiving
  }

  function Do(s: State, a: Action): State
    requires Enabled(s, a)
  {
    match a
    case Timer => Schedule(s)
    case Yield => YieldNow(s)
    case Exit => YieldNow(Put(s, s.ring[s.cur].(status := Killing)))
    case Create(time, reschedule) =>
      s.(ring := s.ring + [Task(s.created, Running, time, reschedule, [], false)], created := s.created + 1)
    case Send(tid, m) => Deliver(s, tid, m)
    case Receive => BeginReceive(s)
    case Finish => Pop(s)
  }

  /** After create_kernel_tasks has made the idle task, before the first dispatch. */
  function Boot(): State {
    State([Task(0, Running, 0, false, [], false)], -1, 1, false)
  }
}
