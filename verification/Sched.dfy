/** The intrusive run queue of scheduler.c. */
module Sched {
  import opened Bits
  import opened SchedSpec

  /** struct thread, as far as the queue uses it. */
  class Thread {
    var state: TaskState
    var next: Thread?

    /** The zeroed thread of process_create, in state TASK_RUNNING. */
    constructor ()
      ensures state == Running && next == null
    {
      state, next := Running, null;
    }
  }

  /** Element `i` points to its successor, and the last one to nothing. */
  ghost predicate Linked(list: seq<Thread>, i: nat)
    requires i < |list|
    reads list
  {
    list[i].next == if i + 1 < |list| then list[i + 1] else null
  }

  class RunQueue {
    var head: Thread?
    var tail: Thread?
    var nrRunning: nat
    ghost var list: seq<Thread>

    /** An acyclic chain from head to tail, without repetition, of length nr_running. */
    ghost predicate Valid()
      reads this, list
    {
      && Distinct(list)
      && nrRunning == |list|
      && head == (if list == [] then null else list[0])
      && tail == (if list == [] then null else list[|list| - 1])
      && forall i :: 0 <= i < |list| ==> Linked(list, i)
    }

    /** scheduler_init, for one queue. */
    constructor ()
      ensures Valid() && list == []
    {
      head, tail, nrRunning, list := null, null, 0, [];
    }

    method Enqueue(t: Thread)
      requires Valid() && t !in list
      modifies this, t, list`next
      ensures Valid() && list == old(list) + [t]
      ensures t.state == Running
    {
      t.state := Running;
      ghost var before := list;
      if head == null {
        head, tail := t, t;
        t.next := null;
      } else {
        tail.next := t;
        tail := t;
        t.next := null;
      }
      nrRunning := nrRunning + 1;
      list := list + [t];
      forall i | 0 <= i < |list| ensures Linked(list, i) {
        if i + 1 < |before| { assert old(Linked(list, i)); }
      }
    }

    method Dequeue() returns (t: Thread?)
      requires Valid()
      modifies this, list`next
      ensures Valid()
      ensures old(list) == [] ==> t == null && list == []
      ensures old(list) != [] ==> t == old(list)[0] && list == old(list)[1..] && t.next == null
    {
      if head == null {
        return null;
      }
      t := head;
      assert Linked(list, 0);
      head := t.next;
      if head == null {
        tail := null;
      }
      nrRunning := nrRunning - 1;
      t.next := null;
      ghost var before := list;
      list := list[1..];
      forall i | 0 <= i < |list| ensures Linked(list, i) {
        assert old(Linked(list, i + 1));
        assert list[i] == before[i + 1];
      }
    }
  }

  /** The queue of one CPU and the thread that it runs. */
  class Cpu {
    const rq: RunQueue
    var current: Thread?

    constructor (idle: Thread?)
      ensures fresh(rq) && current == idle && rq.Valid() && rq.list == []
    {
      rq := new RunQueue();
      current := idle;
    }

    /** The current thread is never queued between calls. */
    ghost predicate Valid()
      reads this, rq, rq.list
    {
      rq.Valid() && (current != null ==> current !in rq.list)
    }

    ghost function Current(): Option<Thread>
      reads this
    {
      if current == null then None else Some(current)
    }

    /** schedule(), up to the switch of stacks. */
    method Schedule()
      requires Valid()
      modifies this, rq, rq.list`next, (if current == null then {} else {current})
      ensures Valid()
      ensures (rq.list, Current()) == Pick(old(rq.list), old(Current()), old(current != null && current.state == Running))
      ensures old(current != null) ==> old(current).state == old(current.state)
    {
      var prev := current;
      ghost var running := prev != null && prev.state == Running;
      if prev != null && prev.state == Running {
        rq.Enqueue(prev);
      }
      ghost var ready := rq.list;
      var next := rq.Dequeue();
      if next == null {
        return;
      }
      assert next == ready[0] && next !in rq.list;
      current := next;
    }

    /** process_create, as far as the queue is concerned: a fresh thread goes to the tail. */
    method Create() returns (t: Thread)
      requires Valid()
      modifies rq, rq.list`next
      ensures Valid() && fresh(t) && t.state == Running
      ensures rq.list == Queued(old(rq.list), t) && Current() == old(Current())
    {
      t := new Thread();
      rq.Enqueue(t);
    }
  }
}
