/** The run queue of one CPU on values: round robin, whatever the file's title says about fairness. */
module SchedSpec {
  import opened Bits

  datatype TaskState = Running | Sleeping | Blocked

  /**
   * schedule() on a queue, the current thread, and whether that thread is still in state TASK_RUNNING:
   * a running thread goes to the tail; the head, if there is one, becomes current.
   */
  function Pick<T>(queue: seq<T>, current: Option<T>, running: bool): (r: (seq<T>, Option<T>)) {
    var ready := if current.Some? && running then queue + [current.value] else queue;
    if ready == [] then (ready, current) else (ready[1..], Some(ready[0]))
  }

  /** process_create: the new thread goes behind all that are queued. */
  function Queued<T>(queue: seq<T>, t: T): seq<T> {
    queue + [t]
  }

  // ---- one CPU over time ----

  type Tid = nat

  /** `states` has an entry for every thread that exists. */
  datatype Cpu = Cpu(queue: seq<Tid>, current: Option<Tid>, states: map<Tid, TaskState>)

  /**
   * A call of schedule(); a process created on this CPU; and any change of a thread's state made
   * elsewhere, which is how threads block: the scheduler has no call for it, and none to wake one up.
   */
  datatype Event = Schedule | Create(t: Tid) | SetState(t: Tid, to: TaskState)

  /** No thread is queued twice, the current one is not queued, and all of them exist. */
  predicate Inv(c: Cpu) {
    && Distinct(c.queue)
    && (forall t <- c.queue :: t in c.states)
    && (c.current.Some? ==> c.current.value in c.states && c.current.value !in c.queue)
  }

  predicate IsRunning(c: Cpu) {
    c.current.Some? && c.current.value in c.states && c.states[c.current.value] == Running
  }

  /** A new thread is a new object; a state change is one of an existing thread. */
  predicate Possible(c: Cpu, e: Event) {
    match e
    case Schedule => true
    case Create(t) => t !in c.states
    case SetState(t, _) => t in c.states
  }

  function Step(c: Cpu, e: Event): Cpu {
    match e
    case Schedule =>
      var picked := Pick(c.queue, c.current, IsRunning(c));
      Cpu(picked.0, picked.1, c.states)
    case Create(t) =>
      Cpu(Queued(c.queue, t), c.current, c.states[t := Running])
    case SetState(t, to) =>
      Cpu(c.queue, c.current, c.states[t := to])
  }

  predicate PossibleRun(c: Cpu, events: seq<Event>)
    decreases |events|
  {
    events == [] || (Possible(c, events[0]) && PossibleRun(Step(c, events[0]), events[1..]))
  }

  function Run(c: Cpu, events: seq<Event>): Cpu
    decreases |events|
  {
    if events == [] then c else Run(Step(c, events[0]), events[1..])
  }

  function Schedules(events: seq<Event>): nat {
    if events == [] then 0 else (if events[0] == Schedule then 1 else 0) + Schedules(events[1..])
  }

  lemma StepKeepsInv(c: Cpu, e: Event)
    requires Inv(c) && Possible(c, e)
    ensures Inv(Step(c, e))
  {
    if e.Schedule? && IsRunning(c) {
      var ready := c.queue + [c.current.value];
      assert forall t <- ready :: t in c.states;
      assert forall t <- ready[1..] :: t in ready;
    }
  }

  /** Between any two calls, the queue has no duplicates and the current thread is not on it. */
  lemma {:induction false} RunKeepsInv(c: Cpu, events: seq<Event>)
    requires Inv(c) && PossibleRun(c, events)
    ensures Inv(Run(c, events))
    decreases |events|
  {
    if events != [] {
      StepKeepsInv(c, events[0]);
      RunKeepsInv(Step(c, events[0]), events[1..]);
    }
  }

  // ---- round robin ----

  /** One event moves a queued thread forward by one at a schedule() and not at all otherwise. */
  lemma StepMoves(c: Cpu, e: Event, k: nat)
    requires k < |c.queue|
    ensures e != Schedule ==> k < |Step(c, e).queue| && Step(c, e).queue[k] == c.queue[k] && Step(c, e).current == c.current
    ensures e == Schedule && k > 0 ==> k - 1 < |Step(c, e).queue| && Step(c, e).queue[k - 1] == c.queue[k]
    ensures e == Schedule && k == 0 ==> Step(c, e).current == Some(c.queue[0])
  {
  }

  /** Until its turn a thread stays queued, `k` minus the number of schedule() calls from the head. */
  lemma {:induction false} WaitsItsTurn(c: Cpu, events: seq<Event>, k: nat)
    requires k < |c.queue| && Schedules(events) <= k
    ensures var n := k - Schedules(events); n < |Run(c, events).queue| && Run(c, events).queue[n] == c.queue[k]
    decreases |events|
  {
    if events != [] {
      var e := events[0];
      StepMoves(c, e, k);
      WaitsItsTurn(Step(c, e), events[1..], if e == Schedule then k - 1 else k);
    }
  }

  /**
   * The thread at position k becomes current at exactly the (k+1)-th call of schedule(), whatever
   * threads block, wake or are created in between, itself included; and not before.
   */
  lemma TurnComes(c: Cpu, events: seq<Event>, k: nat)
    requires Inv(c) && PossibleRun(c, events + [Schedule]) && k < |c.queue|
    requires Schedules(events) <= k
    ensures Run(c, events).current != Some(c.queue[k])
    ensures Run(c, events + [Schedule]).current == Some(c.queue[k]) <==> Schedules(events) == k
  {
    WaitsItsTurn(c, events, k);
    RunAppend(c, events, [Schedule]);
    PossibleAppend(c, events, [Schedule]);
    var now := Run(c, events);
    RunKeepsInv(c, events);
    assert Run(now, [Schedule]) == Step(now, Schedule) by { assert [Schedule][1..] == []; }
    HeadIsPicked(now, k - Schedules(events));
  }

  lemma HeadIsPicked(c: Cpu, n: nat)
    requires Inv(c) && n < |c.queue|
    ensures Step(c, Schedule).current == Some(c.queue[n]) <==> n == 0
  {
    StepMoves(c, Schedule, n);
    StepKeepsInv(c, Schedule);
    if n > 0 {
      assert Step(c, Schedule).queue[n - 1] == c.queue[n];
    }
  }

  /** A thread that is preempted while it runs gets the CPU back after one call for every thread queued at that time. */
  lemma PreemptedReturns(c: Cpu, events: seq<Event>)
    requires Inv(c) && IsRunning(c) && c.queue != []
    requires PossibleRun(c, [Schedule] + events + [Schedule]) && Schedules(events) == |c.queue| - 1
    ensures Run(c, [Schedule] + events + [Schedule]).current == c.current
  {
    var c1 := Step(c, Schedule);
    var rest := events + [Schedule];
    assert [Schedule] + events + [Schedule] == [Schedule] + rest;
    assert ([Schedule] + rest)[1..] == rest;
    StepKeepsInv(c, Schedule);
    assert c1.queue[|c.queue| - 1] == c.current.value;
    TurnComes(c1, events, |c.queue| - 1);
  }

  /**
   * A created thread is running and gets the CPU at exactly the first call after one for every thread then queued,
   * whatever happens in between; nobody who was queued loses a place, and the current thread stays.
   */
  lemma NewcomerWaits(c: Cpu, t: Tid, events: seq<Event>)
    requires Inv(c) && PossibleRun(c, [Create(t)] + events + [Schedule]) && Schedules(events) <= |c.queue|
    ensures Step(c, Create(t)).states == c.states[t := Running] && Step(c, Create(t)).current == c.current
    ensures forall k :: 0 <= k < |c.queue| ==> k < |Step(c, Create(t)).queue| && Step(c, Create(t)).queue[k] == c.queue[k]
    ensures Run(c, [Create(t)] + events + [Schedule]).current == Some(t) <==> Schedules(events) == |c.queue|
  {
    var c1, rest := Step(c, Create(t)), events + [Schedule];
    assert [Create(t)] + events + [Schedule] == [Create(t)] + rest;
    assert ([Create(t)] + rest)[1..] == rest;
    StepKeepsInv(c, Create(t));
    assert c1.queue[|c.queue|] == t;
    TurnComes(c1, events, |c.queue|);
  }

  lemma {:induction false} RunAppend(c: Cpu, a: seq<Event>, b: seq<Event>)
    ensures Run(c, a + b) == Run(Run(c, a), b)
    decreases |a|
  {
    if a == [] {
      assert a + b == b;
    } else {
      assert (a + b)[1..] == a[1..] + b;
      RunAppend(Step(c, a[0]), a[1..], b);
    }
  }

  lemma {:induction false} PossibleAppend(c: Cpu, a: seq<Event>, b: seq<Event>)
    requires PossibleRun(c, a + b)
    ensures PossibleRun(c, a) && PossibleRun(Run(c, a), b)
    decreases |a|
  {
    if a == [] {
      assert a + b == b;
    } else {
      assert (a + b)[1..] == a[1..] + b;
      PossibleAppend(Step(c, a[0]), a[1..], b);
    }
  }

  // ---- conservation ----

  /** The threads that the scheduler can still run: those queued, and the current one while it runs. */
  function Ready(c: Cpu): (r: multiset<Tid>) {
    multiset(c.queue) + if IsRunning(c) then multiset{c.current.value} else multiset{}
  }

  /**
   * schedule() loses no ready thread and invents none, unless the thread that it picks was blocked
   * while queued: that one is run all the same, and is the only difference.
   */
  lemma ScheduleConserves(c: Cpu)
    requires Inv(c)
    ensures var c' := Step(c, Schedule);
      Ready(c) == Ready(c') + if Ready(c) != multiset{} && !IsRunning(c') then multiset{c'.current.value} else multiset{}
  {
    var c' := Step(c, Schedule);
    var ready := if IsRunning(c) then c.queue + [c.current.value] else c.queue;
    assert multiset(ready) == Ready(c);
    if ready == [] {
      assert Ready(c) == multiset{};
    } else {
      assert ready == [ready[0]] + ready[1..];
      assert ready[0] in multiset(ready);
    }
  }

  /** A blocked thread with nobody queued behind it stays current; with somebody queued it is dropped for good. */
  lemma BlockedIsForgotten(c: Cpu, events: seq<Event>)
    requires Inv(c) && c.current.Some? && !IsRunning(c) && PossibleRun(c, [Schedule] + events)
    ensures c.queue == [] ==> Step(c, Schedule) == c
    ensures c.queue != [] ==>
      Run(c, [Schedule] + events).current != c.current && c.current.value !in Run(c, [Schedule] + events).queue
  {
    if c.queue != [] {
      assert ([Schedule] + events)[1..] == events;
      StepKeepsInv(c, Schedule);
      Absent(Step(c, Schedule), events, c.current.value);
    }
  }

  lemma {:induction false} Absent(c: Cpu, events: seq<Event>, t: Tid)
    requires PossibleRun(c, events) && t in c.states && t !in c.queue && c.current != Some(t)
    ensures t !in Run(c, events).queue && Run(c, events).current != Some(t)
    decreases |events|
  {
    if events != [] {
      Absent(Step(c, events[0]), events[1..], t);
    }
  }
}
