/**
 The handlers of kernel/src/kernel/scheduler/schedule.c and task.c on the task list
 itself: nodes of the circular list, the current_task pointer and records updated in
 place. `view` is the state of Sched they stand for.
 */
module Scheduler {
  import opened Machine
  import opened Slist
  import opened Clist
  import opened Sched

  class Scheduler {
    const tasks: Clist<Task>
    var current: Node?<Task>
    var tidCounter: nat
    var crashed: bool
    ghost var view: State

    ghost predicate Valid()
      reads this, tasks, tasks.ring
    {
      && tasks.Valid()
      && Alive(view)
      && |view.ring| == |tasks.ring|
      && (forall k {:trigger tasks.ring[k].body} :: 0 <= k < |tasks.ring| ==> tasks.ring[k].body == view.ring[k])
      && current == (if view.cur < 0 then null else tasks.ring[view.cur])
      && tidCounter == view.created
      && crashed == view.crashed
    }

    /** The state of Boot: the idle task is made, nothing was dispatched. */
    constructor ()
      ensures Valid() && view == Boot()
      ensures fresh(tasks) && fresh(tasks.ring)
    {
      tasks := new Clist<Task>();
      current, tidCounter, crashed := null, 1, false;
      view := Boot();
      new;
      var n := tasks.InsertAfter(tasks.tail, 0, Task(0, Running, 0, false, [], false));
    }

    /** task_find_by_status_from: a do-while loop around the ring. */
    method FindByStatusFrom(start: Node<Task>, ghost k: nat, st: Status) returns (r: Node?<Task>, ghost j: int)
      requires Valid()
      requires k < |tasks.ring| && start == tasks.ring[k]
      ensures j == FindFrom(view.ring, k, st)
      ensures r == if FindFrom(view.ring, k, st) < 0 then null else tasks.ring[FindFrom(view.ring, k, st)]
    {
      var work: Node<Task> := start.next;
      ghost var n := |tasks.ring|;
      ghost var p := Succ(k, n);
      while true
        invariant 0 <= p < n && work == tasks.ring[p]
        invariant FindFrom(view.ring, k, st) == Search(view.ring, k, p, st)
        decreases Dist(p, k, n)
      {
        if work.body.status == st {
          return work, p;
        }
        work := work.next;
        if work == start {
          return null, -1;
        }
        p := Succ(p, n);
      }
    }

    /** task_find_by_id. */
    method FindById(tid: nat) returns (r: Node?<Task>, ghost j: int)
      requires Valid()
      ensures j == FindTid(view.ring, tid, 0)
      ensures r == if FindTid(view.ring, tid, 0) < 0 then null else tasks.ring[FindTid(view.ring, tid, 0)]
    {
      var start: Node<Task> := tasks.head;
      ghost var p := 0;
      while true
        invariant 0 <= p < |tasks.ring| && start == tasks.ring[p]
        invariant FindTid(view.ring, tid, 0) == FindTid(view.ring, tid, p)
        decreases |tasks.ring| - p
      {
        if Tid(start.body) == tid {
          return start, p;
        }
        start := start.next;
        p := p + 1;
        if start == tasks.head {
          return null, -1;
        }
      }
    }

    /** Overwrites the record of the current task. */
    method Write(t: Task)
      requires Valid() && view.cur >= 0
      modifies this`view, current
      ensures Valid() && view == Put(old(view), t)
      ensures current == old(current)
    {
      current.body := t;
      view := Put(view, t);
    }

    /** The part of sched_schedule behind the quota test. */
    method PickAndReap()
      requires Valid() && view.ring[0].status != Killing
      modifies this`view, this`current, tasks, tasks.ring
      ensures Valid() && view == Switch(old(view))
    {
      hide DeleteAt, Search, AllDifferent;
      var next: Node?<Task>;
      ghost var j: int;
      if current != null {
        next, j := FindByStatusFrom(current, view.cur, Running);
      } else {
        next, j := FindByStatusFrom(tasks.head, 0, Running);
      }
      if next == null {
        return;
      }
      var victim: Node?<Task>;
      ghost var k: int;
      if current != null && current.body.status == Killing {
        victim, k := current, view.cur;
      } else {
        victim, k := FindByStatusFrom(tasks.head, 0, Killing);
      }
      if victim != null {
        Reap(victim, k, next, j);
      } else {
        current := next;
        view := view.(cur := j);
      }
    }

    /** task_delete of a task other than the head, and the change of current_task to the one chosen. */
    method Reap(victim: Node<Task>, ghost k: nat, next: Node<Task>, ghost j: nat)
      requires Valid() && 0 < k < |tasks.ring| && victim == tasks.ring[k]
      requires j < |tasks.ring| && next == tasks.ring[j] && j != k
      modifies this`view, this`current, tasks, tasks.ring
      ensures Valid()
      ensures view == old(view).(ring := DeleteAt(old(view.ring), k), cur := Shift(j, k, |old(view.ring)|))
    {
      hide DeleteAt, RemoveAt;
      ghost var was := tasks.ring;
      tasks.Delete(victim, k);
      current := next;
      view := view.(ring := DeleteAt(view.ring, k), cur := Shift(j, k, |view.ring|));
      assert tasks.ring[view.cur] == was[j];
    }

    /** sched_schedule, as the timer interrupt calls it. */
    method Schedule()
      requires Valid() && view.ring[0].status != Killing
      modifies this`view, this`current, tasks, tasks.ring
      ensures Valid() && view == Sched.Schedule(old(view))
    {
      if current != null {
        var t := current.body.(time := Wrap(current.body.time + 1));
        if t.time < TASK_QUOTA && !t.reschedule {
          Write(t);
          return;
        }
        Write(t.(time := 0, reschedule := false));
      }
      PickAndReap();
    }

    /** sched_yield. */
    method Yield()
      requires Valid() && view.ring[0].status != Killing
      modifies this`view, this`current, tasks, tasks.ring
      ensures Valid() && view == YieldNow(old(view))
    {
      if current != null {
        Write(current.body.(reschedule := true));
      }
      Schedule();
    }

    /** The exit system call of a task that is not the idle one. */
    method Exit()
      requires Valid() && Enabled(view, Action.Exit) && view.ring[0].status != Killing
      modifies this`view, this`current, tasks, tasks.ring
      ensures Valid() && view == Do(old(view), Action.Exit)
    {
      Write(current.body.(status := Killing));
      Yield();
    }

    /** task_create and the assignment of TASK_RUNNING by its callers. */
    method Create(time: u32, reschedule: bool)
      requires Valid() && Enabled(view, Action.Create(time, reschedule))
      modifies this, tasks, tasks.ring
      ensures Valid() && view == Do(old(view), Action.Create(time, reschedule))
    {
      hide InsertAt;
      ghost var n := |tasks.ring|;
      var task := tasks.InsertAfter(tasks.tail, n - 1, Task(tidCounter, Uninterruptable, time, reschedule, [], false));
      tidCounter := tidCounter + 1;
      task.body := task.body.(status := Running);
      view := Do(view, Action.Create(time, reschedule));
    }

    /** ksend. */
    method Send(tid: nat, m: Message)
      requires Valid()
      modifies this`view, tasks.ring
      ensures Valid() && view == Deliver(old(view), tid, m)
    {
      var task, i := FindById(tid);
      if task == null || |task.body.inbox| == TASK_MSG_BUFF_SIZE {
        return;
      }
      var t := task.body.(inbox := task.body.inbox + [m]);
      if t.status == Interruptable {
        t := t.(status := Running);
      }
      task.body := t;
      view := Deliver(view, tid, m);
    }

    /** The end of krecive: hands out the last message of the buffer, after the two assertions. */
    method TakeMessage() returns (m: Message)
      requires Valid() && view.cur >= 0
      modifies this, current
      ensures Valid() && view == Pop(old(view))
      ensures !view.crashed ==> old(view.ring[view.cur].inbox) == view.ring[view.cur].inbox + [m]
      ensures !view.crashed && !old(view.crashed) ==> m == Handed(old(view))
    {
      var t := current.body;
      m := Message(0, 0, 0);
      if t.status != Running || t.inbox == [] {
        crashed := true;
        view := view.(crashed := true);
        return;
      }
      m := t.inbox[|t.inbox| - 1];
      Write(t.(inbox := t.inbox[..|t.inbox| - 1], receiving := false));
    }

    /** krecive up to the point where it gives the processor away, or to its end. */
    method Receive()
      requires Valid() && Enabled(view, Action.Receive) && view.ring[0].status != Killing
      modifies this, tasks, tasks.ring
      ensures Valid() && view == BeginReceive(old(view))
    {
      var t := current.body;
      if t.status != Running {
        crashed := true;
        view := view.(crashed := true);
      } else if t.inbox == [] {
        Write(t.(status := Interruptable, receiving := true));
        Yield();
      } else {
        var m := TakeMessage();
      }
    }
  }
}
