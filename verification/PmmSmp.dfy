/**
 * pmm_alloc_page and pmm_alloc_pages on several CPUs. Each memory access is one step, the CPUs
 * interleave freely, and the spinlock is a test-and-set word per zone. Nothing is ever freed.
 */
module PmmSmp {
  import opened Bits
  import opened PmmSpec

  /** Shared state of one zone. The counter is a 64-bit word in the source; here it could go negative. */
  datatype SharedZone = SharedZone(free: int, used: seq<bool>)

  /** Where a CPU is: `z` is the zone it looks at, the last four are inside the lock of `z`. */
  datatype Pc =
    | Idle
    | Check(z: nat)
    | Acquire(z: nat)
    | Scan(z: nat, i: nat, k: nat)
    | Mark(z: nat, start: nat, j: nat)
    | Release(z: nat, block: Option<nat>)

  /** `count` is the size of the request being served. */
  datatype Cpu = Cpu(pc: Pc, count: nat)

  /** What a finished call returned to its caller. */
  datatype Event = Got(z: nat, start: nat, count: nat) | Null(count: nat)

  datatype State = State(zones: seq<SharedZone>, locks: seq<bool>, cpus: seq<Cpu>, history: seq<Event>)

  predicate WellSized(s: State) {
    |s.zones| == ZONE_COUNT && |s.locks| == ZONE_COUNT
  }

  predicate InZones(pc: Pc) {
    pc.Idle? || pc.z < ZONE_COUNT
  }

  function NextZone(s: State, c: nat, z: nat): State
    requires c < |s.cpus|
  {
    var cpu := s.cpus[c];
    if z == 0 then s.(cpus := s.cpus[c := Cpu(Idle, cpu.count)], history := s.history + [Null(cpu.count)])
    else s.(cpus := s.cpus[c := Cpu(Check(z - 1), cpu.count)])
  }

  function Goto(s: State, c: nat, pc: Pc): State
    requires c < |s.cpus|
  {
    s.(cpus := s.cpus[c := Cpu(pc, s.cpus[c].count)])
  }

  /** One step of CPU `c`. An idle CPU starts a call for `request` pages. */
  function Step(s: State, c: nat, request: nat): State
    requires WellSized(s) && c < |s.cpus| && InZones(s.cpus[c].pc)
  {
    var cpu := s.cpus[c];
    match cpu.pc
    case Idle =>
      if request == 0 then s else s.(cpus := s.cpus[c := Cpu(Check(ZONE_NORMAL), request)])
    case Check(z) =>
      // free_pages is read here without the lock
      if s.zones[z].free < cpu.count then NextZone(s, c, z) else Goto(s, c, Acquire(z))
    case Acquire(z) =>
      // __sync_lock_test_and_set: the old value decides who got in
      if s.locks[z] then s else Goto(s, c, Scan(z, 0, 0)).(locks := s.locks[z := true])
    case Scan(z, i, k) =>
      var used := s.zones[z].used;
      if i >= |used| then Goto(s, c, Release(z, None))
      else if used[i] then Goto(s, c, Scan(z, i + 1, 0))
      else if k + 1 >= cpu.count then Goto(s, c, Mark(z, if k <= i then i - k else i, 0))
      else Goto(s, c, Scan(z, i + 1, k + 1))
    case Mark(z, start, j) =>
      var zone := s.zones[z];
      if j < cpu.count then
        if start + j < |zone.used| then
          Goto(s, c, Mark(z, start, j + 1)).(zones := s.zones[z := zone.(used := zone.used[start + j := true])])
        else s
      else
        Goto(s, c, Release(z, Some(start))).(zones := s.zones[z := zone.(free := zone.free - cpu.count)])
    case Release(z, block) =>
      var s1 := s.(locks := s.locks[z := false]);
      match block
      case None => NextZone(s1, c, z)
      case Some(start) => Goto(s1, c, Idle).(history := s.history + [Got(z, start, cpu.count)])
  }

  // ---- the invariant ----

  predicate Holds(pc: Pc, z: nat) {
    (pc.Scan? || pc.Mark? || pc.Release?) && pc.z == z
  }

  ghost predicate NoRun(used: seq<bool>, count: nat) {
    forall st: nat :: !ClearRun(used, st, count)
  }

  /** Every zone above `z` was without a suitable run when it was tried, and so it is still. */
  ghost predicate TriedAbove(s: State, z: nat, count: nat)
    requires WellSized(s)
  {
    forall y :: z < y < ZONE_COUNT ==> NoRun(s.zones[y].used, count)
  }

  predicate AllUsed(used: seq<bool>, start: nat, end: nat) {
    end <= |used| && forall t :: start <= t < end ==> used[t]
  }

  /** The scan has seen `k` clear bits since the last used one, and no complete run before that. */
  ghost predicate ScanOk(used: seq<bool>, count: nat, i: nat, k: nat) {
    && k <= i <= |used| && k < count
    && ClearRun(used, i - k, k)
    && (k < i ==> used[i - k - 1])
    && forall st: nat :: st + count <= i ==> !ClearRun(used, st, count)
  }

  ghost predicate CpuOk(s: State, cpu: Cpu)
    requires WellSized(s)
  {
    !cpu.pc.Idle? ==>
      && cpu.pc.z < ZONE_COUNT && cpu.count > 0
      && TriedAbove(s, cpu.pc.z, cpu.count)
      && var zone := s.zones[cpu.pc.z];
        match cpu.pc
        case Scan(_, i, k) => ScanOk(zone.used, cpu.count, i, k)
        case Mark(_, start, j) =>
          j <= cpu.count && AllUsed(zone.used, start, start + j) && ClearRun(zone.used, start + j, cpu.count - j)
        case Release(_, Some(start)) => AllUsed(zone.used, start, start + cpu.count)
        case Release(_, None) => NoRun(zone.used, cpu.count)
        case _ => true
  }

  /** The frames a CPU has taken but not yet returned: `[start, end)` of the zone whose lock it holds. */
  function TakenEnd(cpu: Cpu): nat {
    match cpu.pc
    case Mark(_, start, j) => start + j
    case Release(_, Some(start)) => start + cpu.count
    case _ => 0
  }

  function TakenStart(cpu: Cpu): nat {
    match cpu.pc
    case Mark(_, start, _) => start
    case Release(_, Some(start)) => start
    case _ => 0
  }

  /** The block of a finished call does not meet frames `start .. end - 1` of zone `z`. */
  predicate Apart(e: Event, z: nat, start: nat, end: nat) {
    e.Got? && e.z == z ==> e.count == 0 || end <= start || e.start + e.count <= start || end <= e.start
  }

  /** Bits set so far by a CPU that has not yet lowered the counter. */
  function Pending(cpu: Cpu, z: nat): nat {
    if cpu.pc.Mark? && cpu.pc.z == z then cpu.pc.j else 0
  }

  ghost predicate OnlyHolder(s: State, z: nat, c: nat) {
    c < |s.cpus| && Holds(s.cpus[c].pc, z) && forall d :: 0 <= d < |s.cpus| && d != c ==> !Holds(s.cpus[d].pc, z)
  }

  ghost predicate NoHolder(s: State, z: nat) {
    forall d :: 0 <= d < |s.cpus| ==> !Holds(s.cpus[d].pc, z)
  }

  /**
   * The lock word is set exactly while one CPU is inside, never two; and the counter is the
   * number of clear bits plus what that CPU has marked without counting it yet.
   */
  ghost predicate ZoneInv(s: State, z: nat)
    requires WellSized(s) && z < ZONE_COUNT
  {
    var zone := s.zones[z];
    || (NoHolder(s, z) && !s.locks[z] && zone.free == CountClear(zone.used))
    || exists c: nat :: OnlyHolder(s, z, c) && s.locks[z] && zone.free == CountClear(zone.used) + Pending(s.cpus[c], z)
  }

  ghost predicate EventOk(s: State, e: Event)
    requires WellSized(s)
  {
    match e
    case Got(z, start, count) => z < ZONE_COUNT && AllUsed(s.zones[z].used, start, start + count)
    case Null(count) => forall z :: 0 <= z < ZONE_COUNT ==> NoRun(s.zones[z].used, count)
  }

  /** No finished block meets what this CPU has taken. */
  ghost predicate ApartFromAll(history: seq<Event>, cpu: Cpu) {
    !cpu.pc.Idle? ==> forall e :: e in history ==> Apart(e, cpu.pc.z, TakenStart(cpu), TakenEnd(cpu))
  }

  ghost predicate BlocksApart(history: seq<Event>) {
    forall i, j :: 0 <= i < j < |history| && history[j].Got? ==>
      Apart(history[i], history[j].z, history[j].start, history[j].start + history[j].count)
  }

  ghost predicate Inv(s: State) {
    && WellSized(s)
    && (forall c :: 0 <= c < |s.cpus| ==> CpuOk(s, s.cpus[c]) && ApartFromAll(s.history, s.cpus[c]))
    && (forall z :: 0 <= z < ZONE_COUNT ==> ZoneInv(s, z))
    && (forall e :: e in s.history ==> EventOk(s, e))
    && BlocksApart(s.history)
  }

  // ---- what one step may change ----

  predicate Grows(used: seq<bool>, used': seq<bool>) {
    |used'| == |used| && forall i :: 0 <= i < |used| && used[i] ==> used'[i]
  }

  lemma GrowsKeepsNoRun(used: seq<bool>, used': seq<bool>, count: nat)
    requires Grows(used, used') && NoRun(used, count)
    ensures NoRun(used', count)
  {
    forall st: nat ensures !ClearRun(used', st, count) {
      assert !ClearRun(used, st, count);
    }
  }

  /** Only CPU `c` and zone `z` change; bits are only set, and only inside the lock. */
  ghost predicate Local(s: State, s': State, c: nat, z: nat) {
    && WellSized(s) && WellSized(s') && z < ZONE_COUNT && c < |s.cpus| == |s'.cpus|
    && (forall d :: 0 <= d < |s.cpus| && d != c ==> s'.cpus[d] == s.cpus[d])
    && (forall y :: 0 <= y < ZONE_COUNT && y != z ==> s'.zones[y] == s.zones[y] && s'.locks[y] == s.locks[y])
    && Grows(s.zones[z].used, s'.zones[z].used)
    && (s'.zones[z].used != s.zones[z].used ==> Holds(s.cpus[c].pc, z))
    && (forall y :: y != z ==> !Holds(s.cpus[c].pc, y) && !Holds(s'.cpus[c].pc, y))
  }

  lemma OthersStayOk(s: State, s': State, c: nat, z: nat, d: nat)
    requires Inv(s) && Local(s, s', c, z) && d < |s.cpus| && d != c
    ensures CpuOk(s', s'.cpus[d])
  {
    var cpu := s.cpus[d];
    if !cpu.pc.Idle? {
      assert CpuOk(s, cpu);
      forall y | cpu.pc.z < y < ZONE_COUNT ensures NoRun(s'.zones[y].used, cpu.count) {
        if y == z { GrowsKeepsNoRun(s.zones[y].used, s'.zones[y].used, cpu.count); }
      }
      if s'.zones[z].used != s.zones[z].used {
        assert ZoneInv(s, z) && Holds(s.cpus[c].pc, z);
        assert !Holds(cpu.pc, z);
      }
    }
  }

  lemma OtherZonesStayOk(s: State, s': State, c: nat, z: nat, y: nat)
    requires Inv(s) && Local(s, s', c, z) && y < ZONE_COUNT && y != z
    ensures ZoneInv(s', y)
  {
    assert ZoneInv(s, y);
    if !NoHolder(s, y) {
      var d: nat :| OnlyHolder(s, y, d) && s.locks[y] && s.zones[y].free == CountClear(s.zones[y].used) + Pending(s.cpus[d], y);
      assert OnlyHolder(s', y, d);
    }
  }

  lemma EventsStayOk(s: State, s': State, c: nat, z: nat, e: Event)
    requires Local(s, s', c, z) && EventOk(s, e)
    ensures EventOk(s', e)
  {
    if e.Null? {
      forall y | 0 <= y < ZONE_COUNT ensures NoRun(s'.zones[y].used, e.count) {
        if y == z { GrowsKeepsNoRun(s.zones[y].used, s'.zones[y].used, e.count); }
      }
    }
  }

  /** A local step that returns nothing keeps the invariant if it does so for its own CPU and zone. */
  lemma QuietStep(s: State, s': State, c: nat, z: nat)
    requires Inv(s) && Local(s, s', c, z) && s'.history == s.history
    requires CpuOk(s', s'.cpus[c]) && ApartFromAll(s.history, s'.cpus[c]) && ZoneInv(s', z)
    ensures Inv(s')
  {
    forall d | 0 <= d < |s'.cpus| ensures CpuOk(s', s'.cpus[d]) && ApartFromAll(s'.history, s'.cpus[d]) {
      if d != c { OthersStayOk(s, s', c, z, d); }
    }
    forall y | 0 <= y < ZONE_COUNT ensures ZoneInv(s', y) {
      if y != z { OtherZonesStayOk(s, s', c, z, y); }
    }
    forall e | e in s'.history ensures EventOk(s', e) { EventsStayOk(s, s', c, z, e); }
  }

  /** A local step that ends a call. */
  lemma ReturnStep(s: State, s': State, c: nat, z: nat, e: Event)
    requires Inv(s) && Local(s, s', c, z) && s'.history == s.history + [e]
    requires s'.cpus[c].pc.Idle? && ZoneInv(s', z) && EventOk(s', e)
    requires e.Got? ==> e.z == z && Holds(s.cpus[c].pc, z) && e.start == TakenStart(s.cpus[c]) && e.start + e.count == TakenEnd(s.cpus[c])
    ensures Inv(s')
  {
    forall d | 0 <= d < |s'.cpus| ensures CpuOk(s', s'.cpus[d]) && ApartFromAll(s'.history, s'.cpus[d]) {
      if d != c {
        OthersStayOk(s, s', c, z, d);
        if e.Got? {
          assert ZoneInv(s, z);
          assert !Holds(s.cpus[d].pc, z);
        }
      }
    }
    forall y | 0 <= y < ZONE_COUNT ensures ZoneInv(s', y) {
      if y != z { OtherZonesStayOk(s, s', c, z, y); }
    }
    forall f | f in s.history ensures EventOk(s', f) { EventsStayOk(s, s', c, z, f); }
    assert ApartFromAll(s.history, s.cpus[c]);
    forall i, j | 0 <= i < j < |s'.history| && s'.history[j].Got?
      ensures Apart(s'.history[i], s'.history[j].z, s'.history[j].start, s'.history[j].start + s'.history[j].count)
    {
      if j == |s.history| { assert s'.history[i] in s.history; }
    }
  }

  // ---- the steps ----

  lemma FewClearMeansNoRun(used: seq<bool>, count: nat)
    requires CountClear(used) < count
    ensures NoRun(used, count)
  {
    forall st: nat ensures !ClearRun(used, st, count) {
      if ClearRun(used, st, count) { ClearRunIsCounted(used, st, count); }
    }
  }

  /** Reading a counter below `count`, even without the lock, means that no run exists. */
  lemma LowCounterMeansNoRun(s: State, z: nat, count: nat)
    requires Inv(s) && z < ZONE_COUNT && s.zones[z].free < count
    ensures NoRun(s.zones[z].used, count)
  {
    assert ZoneInv(s, z);
    FewClearMeansNoRun(s.zones[z].used, count);
  }

  /** A CPU outside the lock of `z` leaves the zone's invariant alone. */
  lemma ZoneInvOutside(s: State, s': State, c: nat, z: nat)
    requires Inv(s) && Local(s, s', c, z) && !Holds(s.cpus[c].pc, z) && !Holds(s'.cpus[c].pc, z)
    requires s'.zones[z] == s.zones[z] && s'.locks[z] == s.locks[z]
    ensures ZoneInv(s', z)
  {
    assert ZoneInv(s, z);
    if !NoHolder(s, z) {
      var d: nat :| OnlyHolder(s, z, d) && s.locks[z] && s.zones[z].free == CountClear(s.zones[z].used) + Pending(s.cpus[d], z);
      assert OnlyHolder(s', z, d);
    }
  }

  /** The CPU inside the lock of `z` stays inside. */
  lemma ZoneInvInside(s: State, s': State, c: nat, z: nat)
    requires Inv(s) && Local(s, s', c, z) && Holds(s.cpus[c].pc, z) && Holds(s'.cpus[c].pc, z)
    requires s'.locks[z] == s.locks[z]
    requires s.zones[z].free == CountClear(s.zones[z].used) + Pending(s.cpus[c], z) ==>
      s'.zones[z].free == CountClear(s'.zones[z].used) + Pending(s'.cpus[c], z)
    ensures ZoneInv(s', z)
  {
    assert ZoneInv(s, z);
    assert OnlyHolder(s', z, c);
  }

  /** Leaving zone `z` empty-handed, from outside its lock. */
  lemma NextZoneKeepsInv(s: State, c: nat, z: nat)
    requires Inv(s) && c < |s.cpus| && s.cpus[c].pc == Check(z) && NoRun(s.zones[z].used, s.cpus[c].count)
    ensures Inv(NextZone(s, c, z))
  {
    var s', cpu := NextZone(s, c, z), s.cpus[c];
    assert CpuOk(s, cpu);
    assert Local(s, s', c, z);
    ZoneInvOutside(s, s', c, z);
    if z == 0 {
      ReturnStep(s, s', c, z, Null(cpu.count));
    } else {
      assert CpuOk(s', s'.cpus[c]);
      QuietStep(s, s', c, z);
    }
  }

  lemma AcquireKeepsInv(s: State, c: nat, z: nat)
    requires Inv(s) && c < |s.cpus| && s.cpus[c].pc == Acquire(z) && !s.locks[z]
    ensures Inv(Goto(s, c, Scan(z, 0, 0)).(locks := s.locks[z := true]))
  {
    var s' := Goto(s, c, Scan(z, 0, 0)).(locks := s.locks[z := true]);
    assert CpuOk(s, s.cpus[c]) && ZoneInv(s, z);
    assert OnlyHolder(s', z, c);
    QuietStep(s, s', c, z);
  }

  /** One bit of the scan. */
  lemma ScanKeepsInv(s: State, c: nat, z: nat, i: nat, k: nat, pc: Pc)
    requires Inv(s) && c < |s.cpus| && s.cpus[c].pc == Scan(z, i, k)
    requires Holds(pc, z) && (pc.Scan? || (pc.Mark? && pc.j == 0) || (pc.Release? && pc.block == None))
    requires CpuOk(s, Cpu(pc, s.cpus[c].count))
    ensures Inv(Goto(s, c, pc))
  {
    var s' := Goto(s, c, pc);
    assert CpuOk(s, s.cpus[c]);
    ZoneInvInside(s, s', c, z);
    QuietStep(s, s', c, z);
  }

  /** What the scan learns from bit `i`. */
  lemma ScanStepOk(used: seq<bool>, count: nat, i: nat, k: nat)
    requires ScanOk(used, count, i, k) && i < |used|
    ensures used[i] ==> ScanOk(used, count, i + 1, 0)
    ensures !used[i] && k + 1 < count ==> ScanOk(used, count, i + 1, k + 1)
    ensures !used[i] && k + 1 >= count ==> ClearRun(used, i - k, count)
  {
    forall st: nat | st + count <= i + 1 && (used[i] || k + 1 < count) ensures !ClearRun(used, st, count) {
      if st + count == i + 1 {
        if !used[i] { assert st <= i - k - 1 < st + count; }
      }
    }
  }

  lemma MarkKeepsInv(s: State, c: nat, z: nat, start: nat, j: nat)
    requires Inv(s) && c < |s.cpus| && s.cpus[c].pc == Mark(z, start, j) && j < s.cpus[c].count
    ensures start + j < |s.zones[z].used|
    ensures Inv(Goto(s, c, Mark(z, start, j + 1)).(zones := s.zones[z := s.zones[z].(used := s.zones[z].used[start + j := true])]))
  {
    var cpu, zone := s.cpus[c], s.zones[z];
    assert CpuOk(s, cpu);
    assert start + j < |zone.used|;
    var s' := Goto(s, c, Mark(z, start, j + 1)).(zones := s.zones[z := zone.(used := zone.used[start + j := true])]);
    CountClearTake(zone.used, start + j, 1);
    assert SetRange(zone.used, start + j, 1) == zone.used[start + j := true];
    ZoneInvInside(s, s', c, z);
    MarkedBitIsNew(s, c, z, start, j);
    assert CpuOk(s', s'.cpus[c]) by {
      forall y | z < y < ZONE_COUNT ensures NoRun(s'.zones[y].used, cpu.count) { assert NoRun(s.zones[y].used, cpu.count); }
    }
    QuietStep(s, s', c, z);
  }

  /** A clear bit belongs to no finished block, so taking it keeps the blocks apart. */
  lemma MarkedBitIsNew(s: State, c: nat, z: nat, start: nat, j: nat)
    requires Inv(s) && c < |s.cpus| && s.cpus[c].pc == Mark(z, start, j) && j < s.cpus[c].count
    ensures ApartFromAll(s.history, Cpu(Mark(z, start, j + 1), s.cpus[c].count))
  {
    assert CpuOk(s, s.cpus[c]) && ApartFromAll(s.history, s.cpus[c]);
    var used := s.zones[z].used;
    assert !used[start + j];
    forall e | e in s.history ensures Apart(e, z, start, start + j + 1) {
      assert EventOk(s, e) && Apart(e, z, start, start + j);
      if e.Got? && e.z == z {
        assert !(e.start <= start + j < e.start + e.count);
      }
    }
  }

  lemma CountKeepsInv(s: State, c: nat, z: nat, start: nat, j: nat)
    requires Inv(s) && c < |s.cpus| && s.cpus[c].pc == Mark(z, start, j) && j >= s.cpus[c].count
    ensures Inv(Goto(s, c, Release(z, Some(start))).(zones := s.zones[z := s.zones[z].(free := s.zones[z].free - s.cpus[c].count)]))
  {
    var cpu, zone := s.cpus[c], s.zones[z];
    var s' := Goto(s, c, Release(z, Some(start))).(zones := s.zones[z := zone.(free := zone.free - cpu.count)]);
    assert CpuOk(s, cpu) && ApartFromAll(s.history, cpu);
    ZoneInvInside(s, s', c, z);
    CountedCpuOk(s, c, z, start, j);
    QuietStep(s, s', c, z);
  }

  lemma CountedCpuOk(s: State, c: nat, z: nat, start: nat, j: nat)
    requires Inv(s) && c < |s.cpus| && s.cpus[c].pc == Mark(z, start, j) && j >= s.cpus[c].count
    ensures var s' := Goto(s, c, Release(z, Some(start))).(zones := s.zones[z := s.zones[z].(free := s.zones[z].free - s.cpus[c].count)]);
      CpuOk(s', s'.cpus[c])
  {
    var cpu, zone := s.cpus[c], s.zones[z];
    var s' := Goto(s, c, Release(z, Some(start))).(zones := s.zones[z := zone.(free := zone.free - cpu.count)]);
    assert CpuOk(s, cpu);
    forall y | z < y < ZONE_COUNT ensures NoRun(s'.zones[y].used, cpu.count) { assert NoRun(s.zones[y].used, cpu.count); }
  }

  /** Unlocking is the last step inside; the call then returns or goes on to the next zone. */
  lemma ReleaseKeepsInv(s: State, c: nat, z: nat, block: Option<nat>)
    requires Inv(s) && c < |s.cpus| && s.cpus[c].pc == Release(z, block)
    ensures Inv(Step(s, c, 0))
  {
    var s', cpu := Step(s, c, 0), s.cpus[c];
    assert CpuOk(s, cpu) && ZoneInv(s, z) && ApartFromAll(s.history, cpu);
    assert NoHolder(s', z) && !s'.locks[z] by {
      forall d | 0 <= d < |s'.cpus| ensures !Holds(s'.cpus[d].pc, z) {
        if d != c { assert !Holds(s.cpus[d].pc, z); }
      }
    }
    assert Local(s, s', c, z);
    match block
    case Some(start) => ReturnStep(s, s', c, z, Got(z, start, cpu.count));
    case None =>
      if z == 0 {
        assert EventOk(s', Null(cpu.count));
        ReturnStep(s, s', c, z, Null(cpu.count));
      } else {
        QuietStep(s, s', c, z);
      }
  }

  lemma StartKeepsInv(s: State, c: nat, request: nat)
    requires Inv(s) && c < |s.cpus| && s.cpus[c].pc.Idle? && request > 0
    ensures Inv(Step(s, c, request))
  {
    var s' := Step(s, c, request);
    ZoneInvOutside(s, s', c, ZONE_NORMAL);
    QuietStep(s, s', c, ZONE_NORMAL);
  }

  lemma CheckKeepsInv(s: State, c: nat, z: nat)
    requires Inv(s) && c < |s.cpus| && s.cpus[c].pc == Check(z)
    ensures z < ZONE_COUNT && Inv(Step(s, c, 0))
  {
    assert CpuOk(s, s.cpus[c]);
    if s.zones[z].free < s.cpus[c].count {
      LowCounterMeansNoRun(s, z, s.cpus[c].count);
      NextZoneKeepsInv(s, c, z);
    } else {
      ZoneInvOutside(s, Goto(s, c, Acquire(z)), c, z);
      QuietStep(s, Goto(s, c, Acquire(z)), c, z);
    }
  }

  lemma ScanBitKeepsInv(s: State, c: nat, z: nat, i: nat, k: nat, pc: Pc)
    requires Inv(s) && c < |s.cpus| && s.cpus[c].pc == Scan(z, i, k) && z < ZONE_COUNT && i < |s.zones[z].used|
    requires var used, count := s.zones[z].used, s.cpus[c].count;
      k <= i && pc == if used[i] then Scan(z, i + 1, 0) else if k + 1 >= count then Mark(z, i - k, 0) else Scan(z, i + 1, k + 1)
    ensures Inv(Goto(s, c, pc))
  {
    assert CpuOk(s, s.cpus[c]);
    ScanStepOk(s.zones[z].used, s.cpus[c].count, i, k);
    ScanKeepsInv(s, c, z, i, k, pc);
  }

  lemma ScanAnyKeepsInv(s: State, c: nat, z: nat, i: nat, k: nat)
    requires Inv(s) && c < |s.cpus| && s.cpus[c].pc == Scan(z, i, k)
    ensures z < ZONE_COUNT && Inv(Step(s, c, 0))
  {
    assert CpuOk(s, s.cpus[c]);
    if i < |s.zones[z].used| {
      ScanBitKeepsInv(s, c, z, i, k, Step(s, c, 0).cpus[c].pc);
    } else {
      ScanKeepsInv(s, c, z, i, k, Release(z, None));
    }
  }

  lemma MarkAnyKeepsInv(s: State, c: nat, z: nat, start: nat, j: nat)
    requires Inv(s) && c < |s.cpus| && s.cpus[c].pc == Mark(z, start, j)
    ensures z < ZONE_COUNT && Inv(Step(s, c, 0))
  {
    assert CpuOk(s, s.cpus[c]);
    MarkSteps(s, c, z, start, j);
    if j < s.cpus[c].count {
      MarkKeepsInv(s, c, z, start, j);
    } else {
      CountKeepsInv(s, c, z, start, j);
    }
  }

  lemma MarkSteps(s: State, c: nat, z: nat, start: nat, j: nat)
    requires WellSized(s) && c < |s.cpus| && s.cpus[c].pc == Mark(z, start, j) && z < ZONE_COUNT
    ensures
      var marked := Goto(s, c, Mark(z, start, j + 1)).(zones := s.zones[z := s.zones[z].(used := if start + j < |s.zones[z].used| then s.zones[z].used[start + j := true] else s.zones[z].used)]);
      j < s.cpus[c].count && start + j < |s.zones[z].used| ==> Step(s, c, 0) == marked
    ensures
      var counted := Goto(s, c, Release(z, Some(start))).(zones := s.zones[z := s.zones[z].(free := s.zones[z].free - s.cpus[c].count)]);
      j >= s.cpus[c].count ==> Step(s, c, 0) == counted
  {
  }

  /** Every step of every CPU keeps the invariant. */
  lemma StepKeepsInv(s: State, c: nat, request: nat)
    requires Inv(s) && c < |s.cpus|
    ensures InZones(s.cpus[c].pc) && Inv(Step(s, c, request))
  {
    assert CpuOk(s, s.cpus[c]);
    match s.cpus[c].pc
    case Idle =>
      if request > 0 { StartKeepsInv(s, c, request); }
    case Check(z) => CheckKeepsInv(s, c, z);
    case Acquire(z) =>
      if !s.locks[z] { AcquireKeepsInv(s, c, z); }
    case Scan(z, i, k) => ScanAnyKeepsInv(s, c, z, i, k);
    case Mark(z, start, j) => MarkAnyKeepsInv(s, c, z, start, j);
    case Release(z, block) => ReleaseKeepsInv(s, c, z, block);
  }

  // ---- every interleaving ----

  /** Which CPU steps next, and how many pages it asks for if it is idle. */
  datatype Turn = Turn(c: nat, request: nat)

  /** Zones as pmm_init leaves them, all locks free, no call under way. */
  ghost predicate Initial(s: State) {
    && WellSized(s)
    && (forall z :: 0 <= z < ZONE_COUNT ==> !s.locks[z] && s.zones[z].free == CountClear(s.zones[z].used))
    && (forall c :: 0 <= c < |s.cpus| ==> s.cpus[c].pc.Idle?)
    && s.history == []
  }

  /** The state after a schedule; a turn of a CPU that does not exist is skipped. */
  function Run(s: State, turns: seq<Turn>): State {
    if turns == [] then s
    else
      var s1, t := Run(s, turns[..|turns| - 1]), turns[|turns| - 1];
      if WellSized(s1) && t.c < |s1.cpus| && InZones(s1.cpus[t.c].pc) then Step(s1, t.c, t.request) else s1
  }

  lemma {:induction false} RunKeepsInv(s: State, turns: seq<Turn>)
    requires Initial(s)
    ensures Inv(Run(s, turns))
  {
    if turns == [] {
      forall z | 0 <= z < ZONE_COUNT ensures ZoneInv(s, z) { assert NoHolder(s, z); }
    } else {
      RunKeepsInv(s, turns[..|turns| - 1]);
      var s1, t := Run(s, turns[..|turns| - 1]), turns[|turns| - 1];
      if t.c < |s1.cpus| { StepKeepsInv(s1, t.c, t.request); }
    }
  }

  /** In every interleaving, no zone lock has two holders. */
  lemma MutualExclusion(s: State, turns: seq<Turn>, c: nat, d: nat, z: nat)
    requires Initial(s) && c < |Run(s, turns).cpus| && d < |Run(s, turns).cpus| && z < ZONE_COUNT
    requires Holds(Run(s, turns).cpus[c].pc, z) && Holds(Run(s, turns).cpus[d].pc, z)
    ensures c == d
  {
    RunKeepsInv(s, turns);
    assert ZoneInv(Run(s, turns), z);
  }

  predicate InBlock(e: Event, z: nat, i: nat) {
    e.Got? && e.z == z && e.start <= i < e.start + e.count
  }

  /** In every interleaving, no frame is handed out twice. */
  lemma NoFrameTwice(s: State, turns: seq<Turn>, i: nat, j: nat, z: nat, f: nat)
    requires Initial(s) && i < |Run(s, turns).history| && j < |Run(s, turns).history|
    requires InBlock(Run(s, turns).history[i], z, f) && InBlock(Run(s, turns).history[j], z, f)
    ensures i == j
  {
    if i < j {
      HistoryIsApart(s, turns, i, j, f);
    } else if j < i {
      HistoryIsApart(s, turns, j, i, f);
    }
  }

  lemma HistoryIsApart(s: State, turns: seq<Turn>, i: nat, j: nat, f: nat)
    requires Initial(s) && i < j < |Run(s, turns).history| && Run(s, turns).history[j].Got?
    requires InBlock(Run(s, turns).history[i], Run(s, turns).history[j].z, f)
    ensures !InBlock(Run(s, turns).history[j], Run(s, turns).history[j].z, f)
  {
    RunKeepsInv(s, turns);
    var h := Run(s, turns).history;
    assert Apart(h[i], h[j].z, h[j].start, h[j].start + h[j].count);
  }

  /** In every interleaving, the counters never underflow, and never claim less than what is free. */
  lemma CounterNeverUnderflows(s: State, turns: seq<Turn>, z: nat)
    requires Initial(s) && z < ZONE_COUNT
    ensures WellSized(Run(s, turns)) && CountClear(Run(s, turns).zones[z].used) <= Run(s, turns).zones[z].free
    ensures (forall c :: 0 <= c < |Run(s, turns).cpus| ==> !Holds(Run(s, turns).cpus[c].pc, z)) ==>
      Run(s, turns).zones[z].free == CountClear(Run(s, turns).zones[z].used)
  {
    RunKeepsInv(s, turns);
    assert ZoneInv(Run(s, turns), z);
  }

  /**
   * A call that has returned NULL did so because no zone had a run of that size; for a single page,
   * because every zone was full. The unlocked counter read never causes a false failure.
   */
  lemma NullMeansExhausted(s: State, turns: seq<Turn>, i: nat, z: nat)
    requires Initial(s) && i < |Run(s, turns).history| && Run(s, turns).history[i].Null? && z < ZONE_COUNT
    ensures WellSized(Run(s, turns)) && NoRun(Run(s, turns).zones[z].used, Run(s, turns).history[i].count)
    ensures Run(s, turns).history[i].count == 1 ==>
      forall f :: 0 <= f < |Run(s, turns).zones[z].used| ==> Run(s, turns).zones[z].used[f]
  {
    RunKeepsInv(s, turns);
    var s', e := Run(s, turns), Run(s, turns).history[i];
    assert EventOk(s', e);
    if e.count == 1 { NoRunOfOne(s'.zones[z].used); }
  }

  lemma NoRunOfOne(used: seq<bool>)
    requires NoRun(used, 1)
    ensures forall f :: 0 <= f < |used| ==> used[f]
  {
    forall f: nat | f < |used| ensures used[f] {
      assert !ClearRun(used, f, 1);
    }
  }
}
