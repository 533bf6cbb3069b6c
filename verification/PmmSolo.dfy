/** The two models of the page allocator agree: a call that no other CPU interrupts is one step of PmmSpec. */
module PmmSolo {
  import opened Bits
  import opened PmmSpec
  import opened PmmSmp
  import Sequential = Pmm

  /** What a request of `count` pages from zones below `n` will do to shared memory, and what it will return. */
  function Plan(zs: seq<SharedZone>, n: nat, count: nat): (seq<SharedZone>, Event)
    requires n <= |zs|
    decreases n, 0
  {
    if n == 0 then (zs, Null(count))
    else if zs[n - 1].free < count then Plan(zs, n - 1, count)
    else PlanIn(zs, n - 1, count, 0)
  }

  /** The same once zone `z` is being scanned and starts below `from` have been ruled out. */
  function PlanIn(zs: seq<SharedZone>, z: nat, count: nat, from: nat): (seq<SharedZone>, Event)
    requires z < |zs|
    decreases z, 1
  {
    match FirstRun(zs[z].used, count, from, 1)
    case None => Plan(zs, z, count)
    case Some(i) => (zs[z := Taken(zs[z], i, count)], Got(z, i, count))
  }

  function Taken(zone: SharedZone, start: nat, count: nat): SharedZone {
    SharedZone(zone.free - count, SetRange(zone.used, start, count))
  }

  /** What a call will come to, from wherever its CPU is. */
  function Outlook(s: State, c: nat): (seq<SharedZone>, Event)
    requires Alone(s, c)
  {
    var count := s.cpus[c].count;
    match s.cpus[c].pc
    case Idle => (s.zones, Null(count))
    case Check(z) => Plan(s.zones, z + 1, count)
    case Acquire(z) => PlanIn(s.zones, z, count, 0)
    case Scan(z, i, k) => PlanIn(s.zones, z, count, if k <= i then i - k else 0)
    case Mark(z, start, j) => (s.zones[z := Taken(s.zones[z], start, count)], Got(z, start, count))
    case Release(z, block) => if block.None? then Plan(s.zones, z, count) else (s.zones, Got(z, block.value, count))
  }

  /** No lock is held but by `c` itself, and `c` is where its own steps can have brought it. */
  predicate Alone(s: State, c: nat) {
    && WellSized(s) && c < |s.cpus| && InZones(s.cpus[c].pc) && s.cpus[c].count > 0
    && (forall z :: 0 <= z < ZONE_COUNT ==> (s.locks[z] <==> PmmSmp.Holds(s.cpus[c].pc, z)))
    && match s.cpus[c].pc
       case Acquire(z) => s.zones[z].free >= s.cpus[c].count
       case Scan(z, i, k) =>
         k <= i <= |s.zones[z].used| && k < s.cpus[c].count && ClearRun(s.zones[z].used, i - k, k)
       case Mark(z, start, j) =>
         && j <= s.cpus[c].count && start + s.cpus[c].count <= |s.zones[z].used|
         && forall b :: start <= b < start + j ==> s.zones[z].used[b]
       case _ => true
  }

  // ---- progress ----

  function Phase(pc: Pc): nat {
    match pc
    case Check(_) => 5
    case Acquire(_) => 4
    case Scan(_, _, _) => 3
    case Mark(_, _, _) => 2
    case Release(_, _) => 1
    case Idle => 0
  }

  function ZonesLeft(pc: Pc): nat {
    if pc.Idle? then 0 else pc.z + 1
  }

  function StepsLeft(s: State, c: nat): nat
    requires Alone(s, c)
  {
    match s.cpus[c].pc
    case Scan(z, i, _) => |s.zones[z].used| - i
    case Mark(_, _, j) => s.cpus[c].count - j
    case _ => 0
  }

  predicate Closer(s: State, s': State, c: nat)
    requires Alone(s, c) && Alone(s', c)
  {
    var pc, pc' := s.cpus[c].pc, s'.cpus[c].pc;
    || ZonesLeft(pc') < ZonesLeft(pc)
    || (ZonesLeft(pc') == ZonesLeft(pc) && Phase(pc') < Phase(pc))
    || (ZonesLeft(pc') == ZonesLeft(pc) && Phase(pc') == Phase(pc) && StepsLeft(s', c) < StepsLeft(s, c))
  }

  /** A step towards the same end: the outlook stands, or has just come true. */
  predicate Advances(s: State, s': State, c: nat)
    requires Alone(s, c)
  {
    && Alone(s', c) && Closer(s, s', c)
    && |s'.cpus| == |s.cpus| && s'.cpus == s.cpus[c := s'.cpus[c]] && s'.cpus[c].count == s.cpus[c].count
    && if s'.cpus[c].pc.Idle? then s'.zones == Outlook(s, c).0 && s'.history == s.history + [Outlook(s, c).1]
       else Outlook(s', c) == Outlook(s, c) && s'.history == s.history
  }

  lemma ScanAdvances(s: State, c: nat, z: nat, i: nat, k: nat)
    requires Alone(s, c) && s.cpus[c].pc == Scan(z, i, k)
    ensures Advances(s, Step(s, c, 0), c)
  {
    var used, count := s.zones[z].used, s.cpus[c].count;
    if i < |used| && used[i] {
      Sequential.SkipBlockedStarts(used, count, i - k, i);
    } else if i < |used| && k + 1 >= count {
      Sequential.FirstRunHere(used, count, i - k);
    }
  }

  lemma MarkAdvances(s: State, c: nat, z: nat, start: nat, j: nat)
    requires Alone(s, c) && s.cpus[c].pc == Mark(z, start, j)
    ensures Advances(s, Step(s, c, 0), c)
  {
    var used, count := s.zones[z].used, s.cpus[c].count;
    if j < count {
      assert SetRange(used[start + j := true], start, count) == SetRange(used, start, count);
      var s' := Step(s, c, 0);
      assert s'.zones[z := Taken(s'.zones[z], start, count)] == s.zones[z := Taken(s.zones[z], start, count)];
    } else {
      assert SetRange(used, start, count) == used;
      assert Taken(s.zones[z], start, count) == s.zones[z].(free := s.zones[z].free - count);
    }
  }

  lemma StepAdvances(s: State, c: nat)
    requires Alone(s, c) && !s.cpus[c].pc.Idle?
    ensures Advances(s, Step(s, c, 0), c)
  {
    match s.cpus[c].pc
    case Scan(z, i, k) => ScanAdvances(s, c, z, i, k);
    case Mark(z, start, j) => MarkAdvances(s, c, z, start, j);
    case Check(z) =>
      var count := s.cpus[c].count;
      assert s.zones[z].free < count ==> Plan(s.zones, z + 1, count) == Plan(s.zones, z, count);
    case _ =>
  }

  // ---- a whole call ----

  /** `n` steps of CPU `c` alone; an idle CPU asks for nothing more. */
  function Solo(s: State, c: nat, n: nat): State
    decreases n
  {
    if n == 0 || !(WellSized(s) && c < |s.cpus| && InZones(s.cpus[c].pc)) then s else Solo(Step(s, c, 0), c, n - 1)
  }

  lemma {:induction false} Completes(s: State, c: nat) returns (n: nat)
    requires Alone(s, c) && !s.cpus[c].pc.Idle?
    ensures var t := Solo(s, c, n);
      && Alone(t, c) && t.cpus == s.cpus[c := Cpu(Idle, s.cpus[c].count)]
      && t.zones == Outlook(s, c).0 && t.history == s.history + [Outlook(s, c).1]
    decreases ZonesLeft(s.cpus[c].pc), Phase(s.cpus[c].pc), StepsLeft(s, c)
  {
    var s' := Step(s, c, 0);
    StepAdvances(s, c);
    n := 0;
    if !s'.cpus[c].pc.Idle? {
      n := Completes(s', c);
    }
    n := n + 1;
  }

  /** Zones that differ only in what the concurrent model leaves out. */
  predicate Same(zs: Zones, shared: seq<SharedZone>) {
    |shared| == ZONE_COUNT && forall z :: 0 <= z < ZONE_COUNT ==> zs[z].free == shared[z].free && zs[z].used == shared[z].used
  }

  /** The result of a call and what it puts on record. */
  predicate Reports(zs: Zones, r: Option<nat>, e: Event, count: nat) {
    match e
    case Null(n) => r == None && n == count
    case Got(z, start, n) => z < ZONE_COUNT && r == Some(zs[z].base + start) && n == count
  }

  lemma {:induction false} PlanIsAllocFrom(zs: Zones, shared: seq<SharedZone>, n: nat, count: nat)
    requires Same(zs, shared) && n <= ZONE_COUNT
    ensures Same(AllocFrom(zs, n, count, 1).0, Plan(shared, n, count).0)
    ensures Reports(zs, AllocFrom(zs, n, count, 1).1, Plan(shared, n, count).1, count)
  {
    if n > 0 {
      PlanIsAllocFrom(zs, shared, n - 1, count);
    }
  }

  /**
   * With every lock free and no other CPU stepping, a call of `request` pages ends, and does to bitmaps
   * and counters, and returns, exactly what the sequential first fit does.
   */
  lemma LoneCallIsFirstFit(s: State, c: nat, request: nat, zs: Zones) returns (n: nat)
    requires WellSized(s) && c < |s.cpus| && s.cpus[c].pc.Idle? && request > 0 && Same(zs, s.zones)
    requires forall z :: 0 <= z < ZONE_COUNT ==> !s.locks[z]
    ensures var t := Solo(Step(s, c, request), c, n); var (zs', r) := AllocPages(zs, request);
      && t.cpus == s.cpus[c := Cpu(Idle, request)] && t.locks == s.locks
      && Same(zs', t.zones)
      && |t.history| == |s.history| + 1 && t.history[..|s.history|] == s.history
      && Reports(zs, r, t.history[|s.history|], request)
  {
    var s1 := Step(s, c, request);
    n := Completes(s1, c);
    assert Solo(s1, c, n).locks == s.locks;
    PlanIsAllocFrom(zs, s.zones, ZONE_COUNT, request);
  }
}
