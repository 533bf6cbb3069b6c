/** Who owns which slot, over every run of kmalloc, kfree and client writes. */
module SlabRuns {
  import opened Bits
  import opened SlabSpec

  // ---- one size class ----

  /** Every slot of the class's pages is in exactly one place: once on the free list, or live. */
  ghost predicate Partition(k: nat, pages: set<nat>, free: seq<Addr>, live: set<Addr>)
    requires k < CLASSES
  {
    && Distinct(free)
    && (forall a <- free :: IsSlot(pages, k, a) && a !in live)
    && (forall a <- live :: IsSlot(pages, k, a))
    && (forall a: Addr :: IsSlot(pages, k, a) ==> a in free || a in live)
  }

  predicate Follows(mem: map<Addr, Granule>, free: seq<Addr>, i: nat)
    requires i < |free|
  {
    Read(mem, free[i]).next == if i + 1 < |free| then free[i + 1] else 0
  }

  /** The list in memory is the abstract one, and ends. */
  predicate Chained(mem: map<Addr, Granule>, head: Addr, free: seq<Addr>) {
    && head == (if free == [] then 0 else free[0])
    && forall i :: 0 <= i < |free| ==> Follows(mem, free, i)
  }

  /** The headers of live slots carry what kfree will look for. */
  predicate Marked(mem: map<Addr, Granule>, k: nat, live: set<Addr>)
    requires k < CLASSES
  {
    forall a <- live :: Read(mem, a).magic == MAGIC && Read(mem, a).size == ClassBytes(k)
  }

  ghost predicate ClassOk(mem: map<Addr, Granule>, c: Cache, k: nat, pages: set<nat>, free: seq<Addr>, live: set<Addr>)
    requires k < CLASSES
  {
    Partition(k, pages, free, live) && Chained(mem, c.head, free) && Marked(mem, k, live) && c.allocations == c.frees + |live|
  }

  /** A class depends on memory at its own slots only. */
  lemma ClassFrame(mem: map<Addr, Granule>, mem': map<Addr, Granule>, c: Cache, k: nat, pages: set<nat>, free: seq<Addr>, live: set<Addr>)
    requires k < CLASSES && ClassOk(mem, c, k, pages, free, live)
    requires forall a: Addr :: IsSlot(pages, k, a) ==> Read(mem', a) == Read(mem, a)
    ensures ClassOk(mem', c, k, pages, free, live)
  {
    forall i | 0 <= i < |free| ensures Follows(mem', free, i) {
      assert Follows(mem, free, i) && free[i] in free;
    }
  }

  lemma PopKeeps(mem: map<Addr, Granule>, c: Cache, k: nat, pages: set<nat>, free: seq<Addr>, live: set<Addr>)
    requires k < CLASSES && ClassOk(mem, c, k, pages, free, live) && free != []
    ensures var a := free[0]; var g := Read(mem, a);
      ClassOk(mem[a := Granule(g.next, MAGIC, ClassBytes(k))], Cache(g.next, c.allocations + 1, c.frees), k, pages, free[1..], live + {a})
  {
    var a, rest := free[0], free[1..];
    var g := Read(mem, a);
    var mem' := mem[a := Granule(g.next, MAGIC, ClassBytes(k))];
    assert Follows(mem, free, 0);
    forall i | 0 <= i < |rest| ensures Follows(mem', rest, i) {
      assert Follows(mem, free, i + 1) && rest[i] == free[i + 1] && free[i + 1] != a;
    }
    forall b: Addr | IsSlot(pages, k, b) ensures b in rest || b in live + {a} {
      if b in free && b != a {
        var i :| 0 <= i < |free| && free[i] == b;
        assert rest[i - 1] == b;
      }
    }
    assert forall b <- rest :: b in free;
    assert a !in rest;
  }

  lemma PushKeeps(mem: map<Addr, Granule>, c: Cache, k: nat, pages: set<nat>, free: seq<Addr>, live: set<Addr>, a: Addr)
    requires k < CLASSES && ClassOk(mem, c, k, pages, free, live) && a in live
    ensures ClassOk(mem[a := Read(mem, a).(next := c.head)], Cache(a, c.allocations, c.frees + 1), k, pages, [a] + free, live - {a})
  {
    var mem' := mem[a := Read(mem, a).(next := c.head)];
    var all := [a] + free;
    forall i | 0 <= i < |all| ensures Follows(mem', all, i) {
      if i > 0 { assert Follows(mem, free, i - 1) && free[i - 1] in free && all[i] == free[i - 1]; }
    }
    forall b: Addr | IsSlot(pages, k, b) ensures b in all || b in live - {a} {
      if b in free { assert b in all; }
    }
  }

  // ---- a new page ----

  function SlotSeq(p: nat, k: nat): (r: seq<Addr>)
    requires k < CLASSES
    ensures |r| == SlotsPerPage(k)
  {
    seq(SlotsPerPage(k), i requires 0 <= i < SlotsPerPage(k) => SlotAt(p, k, i))
  }

  /** What the threading loop leaves in memory: headers in the slots done so far, and nothing else changed. */
  lemma {:induction false} ThreadReads(mem: map<Addr, Granule>, p: nat, k: nat, n: nat)
    requires k < CLASSES && n <= SlotsPerPage(k)
    ensures forall i :: 0 <= i < n ==>
      Read(Thread(mem, p, k, n), SlotAt(p, k, i)) == Granule(if i + 1 == SlotsPerPage(k) then 0 else SlotAt(p, k, i + 1), 0, 0)
    ensures forall a: Addr :: a / PAGE != p ==> Read(Thread(mem, p, k, n), a) == Read(mem, a)
  {
    if n > 0 {
      ThreadReads(mem, p, k, n - 1);
      SlotAtIsSlot(p, k, n - 1);
      forall i | 0 <= i < n - 1 ensures SlotAt(p, k, i) != SlotAt(p, k, n - 1) {
        SlotsDiffer(p, k, i, n - 1);
      }
    }
  }

  lemma PageSlots(p: nat, k: nat)
    requires k < CLASSES
    ensures Distinct(SlotSeq(p, k))
    ensures forall a: Addr :: a in SlotSeq(p, k) <==> IsSlot({p}, k, a)
  {
    var s := SlotSeq(p, k);
    forall i, j | 0 <= i < j < |s| ensures s[i] != s[j] {
      SlotsDiffer(p, k, i, j);
    }
    forall a: Addr ensures a in s <==> IsSlot({p}, k, a) {
      if a in s {
        var i :| 0 <= i < |s| && s[i] == a;
        SlotAtIsSlot(p, k, i);
      }
      if IsSlot({p}, k, a) {
        var i := SlotIndex(p, k, a);
        assert s[i] == a;
      }
    }
  }

  lemma SplitKeeps(mem: map<Addr, Granule>, c: Cache, k: nat, pages: set<nat>, live: set<Addr>, p: nat)
    requires k < CLASSES && ClassOk(mem, c, k, pages, [], live) && p !in pages
    ensures ClassOk(Thread(mem, p, k, SlotsPerPage(k)), c.(head := SlotAt(p, k, 0)), k, pages + {p}, SlotSeq(p, k), live)
  {
    var free, n := SlotSeq(p, k), SlotsPerPage(k);
    var mem' := Thread(mem, p, k, n);
    ThreadReads(mem, p, k, n);
    PageSlots(p, k);
    forall i | 0 <= i < |free| ensures Follows(mem', free, i) {
      assert free[i] == SlotAt(p, k, i);
    }
    forall a: Addr | IsSlot(pages + {p}, k, a) ensures a in free || a in live {
      assert IsSlot(if a / PAGE == p then {p} else pages, k, a);
    }
    assert forall a <- live :: IsSlot(pages, k, a) && IsSlot(pages + {p}, k, a);
    assert forall a <- free :: IsSlot({p}, k, a) && IsSlot(pages + {p}, k, a);
  }

  // ---- the whole heap ----

  /** For every class its pages, free list and live slots; and every page that the page allocator has handed out. */
  datatype Own = Own(pages: seq<set<nat>>, free: seq<seq<Addr>>, live: seq<set<Addr>>, taken: set<nat>)

  predicate Shaped(h: Heap, o: Own) {
    |h.caches| == |o.pages| == |o.free| == |o.live| == CLASSES
  }

  ghost predicate Inv(h: Heap, o: Own) {
    && Shaped(h, o)
    && (forall k :: 0 <= k < CLASSES ==> ClassOk(h.mem, h.caches[k], k, o.pages[k], o.free[k], o.live[k]))
    && (forall j, k :: 0 <= j < k < CLASSES ==> o.pages[j] !! o.pages[k])
    && (forall k :: 0 <= k < CLASSES ==> o.pages[k] <= o.taken)
    && 0 !in o.taken
  }

  /** Slots of all classes: no two overlap. */
  lemma SlotsAreDisjoint(h: Heap, o: Own, j: nat, k: nat, s: Addr, t: Addr, x: Addr)
    requires Inv(h, o) && j < CLASSES && k < CLASSES
    requires IsSlot(o.pages[j], j, s) && IsSlot(o.pages[k], k, t)
    requires s <= x < s + Units(j) && t <= x < t + Units(k)
    ensures j == k && s == t
  {
    SlotInPage(j, s, x);
    SlotInPage(k, t, x);
    assert x / PAGE in o.pages[j] && x / PAGE in o.pages[k];
    if j == k {
      if s < t { SlotsApart(k, s, t); } else if t < s { SlotsApart(k, t, s); }
    }
  }

  datatype Event =
    | Alloc(size: nat, page: Option<nat>)
    | Free(k: nat, a: Addr)
    | FreeLarge(p: nat)
    | Write(k: nat, a: Addr, x: Addr, g: Granule)
    | WriteLarge(x: Addr, g: Granule)

  function Range(p: nat, n: nat): (r: set<nat>)
    ensures forall q :: q in r <==> p <= q < p + n
  {
    if n == 0 then {} else Range(p, n - 1) + {p + n - 1}
  }

  /** The pages that a request takes from the page allocator, if it gets them. */
  function Fresh(size: nat, p: nat): set<nat> {
    if size > MAX_SIZE then Range(p, PagesFor(size)) else {p}
  }

  /**
   * What may happen: the page allocator hands out pages that it has not handed out before (NULL apart),
   * clients free live slots, write inside live slots behind the header, and write to large blocks; and
   * a large block is freed only where the memory before it does not look like a slab header.
   */
  predicate Possible(h: Heap, o: Own, e: Event)
    requires Shaped(h, o)
  {
    match e
    case Alloc(size, page) => page.Some? ==> Fresh(size, page.value) !! o.taken + {0}
    case Free(k, a) => k < CLASSES && a in o.live[k]
    case FreeLarge(p) => !LooksLikeSlot(h, PAGE * p)
    case Write(k, a, x, _) => k < CLASSES && a in o.live[k] && a < x < a + Units(k)
    case WriteLarge(x, _) => forall k :: 0 <= k < CLASSES ==> x / PAGE !in o.pages[k]
  }

  function Step(h: Heap, e: Event): (r: Heap)
    requires |h.caches| == CLASSES
    ensures |r.caches| == CLASSES
  {
    match e
    case Alloc(size, page) => KMalloc(h, size, page).0
    case Free(_, a) => KFree(h, a + 1)
    case FreeLarge(p) => KFree(h, PAGE * p)
    case Write(_, _, x, g) => h.(mem := h.mem[x := g])
    case WriteLarge(x, g) => h.(mem := h.mem[x := g])
  }

  /** The bookkeeping of a small allocation of class k. */
  function OwnAlloc(o: Own, k: nat, page: Option<nat>): Own
    requires |o.pages| == |o.free| == |o.live| == CLASSES && k < CLASSES
  {
    if o.free[k] != [] then o.(free := o.free[k := o.free[k][1..]], live := o.live[k := o.live[k] + {o.free[k][0]}])
    else if page.None? then o
    else
      var s := SlotSeq(page.value, k);
      Own(o.pages[k := o.pages[k] + {page.value}], o.free[k := s[1..]], o.live[k := o.live[k] + {s[0]}], o.taken + {page.value})
  }

  function OwnStep(o: Own, e: Event): (r: Own)
    requires |o.pages| == |o.free| == |o.live| == CLASSES
    requires e.Free? ==> e.k < CLASSES
    ensures |r.pages| == |r.free| == |r.live| == CLASSES
  {
    match e
    case Alloc(size, page) =>
      if size == 0 then o
      else if size > MAX_SIZE then if page.None? then o else o.(taken := o.taken + Fresh(size, page.value))
      else OwnAlloc(o, IndexOf(size), page)
    case Free(k, a) => o.(free := o.free[k := [a] + o.free[k]], live := o.live[k := o.live[k] - {a}])
    case _ => o
  }

  // ---- each event keeps the invariant ----

  /** If memory changes only where the other classes have no slots, they are as they were. */
  lemma OthersKept(h: Heap, o: Own, mem': map<Addr, Granule>, k: nat)
    requires Inv(h, o) && k < CLASSES
    requires forall j, a: Addr :: 0 <= j < CLASSES && j != k && IsSlot(o.pages[j], j, a) ==> Read(mem', a) == Read(h.mem, a)
    ensures forall j :: 0 <= j < CLASSES && j != k ==> ClassOk(mem', h.caches[j], j, o.pages[j], o.free[j], o.live[j])
  {
    forall j | 0 <= j < CLASSES && j != k ensures ClassOk(mem', h.caches[j], j, o.pages[j], o.free[j], o.live[j]) {
      ClassFrame(h.mem, mem', h.caches[j], j, o.pages[j], o.free[j], o.live[j]);
    }
  }

  /** A granule of one class's page is no slot of another class. */
  lemma NoSlotElsewhere(h: Heap, o: Own, k: nat, x: Addr, j: nat)
    requires Inv(h, o) && k < CLASSES && j < CLASSES && j != k && x / PAGE in o.pages[k]
    ensures !IsSlot(o.pages[j], j, x)
  {
  }

  /** A null head means an empty list: no slot has address 0. */
  lemma HeadIsNull(h: Heap, o: Own, k: nat)
    requires Inv(h, o) && k < CLASSES
    ensures h.caches[k].head == 0 <==> o.free[k] == []
  {
    if o.free[k] != [] {
      assert IsSlot(o.pages[k], k, o.free[k][0]);
    }
  }

  lemma PopKeepsInv(h: Heap, o: Own, k: nat)
    requires Inv(h, o) && k < CLASSES && o.free[k] != []
    ensures Inv(Pop(h, k).0, o.(free := o.free[k := o.free[k][1..]], live := o.live[k := o.live[k] + {o.free[k][0]}]))
    ensures Pop(h, k).1 == o.free[k][0] + 1
  {
    var a := o.free[k][0];
    assert IsSlot(o.pages[k], k, a);
    PopKeeps(h.mem, h.caches[k], k, o.pages[k], o.free[k], o.live[k]);
    var mem' := Pop(h, k).0.mem;
    forall j, b: Addr | 0 <= j < CLASSES && j != k && IsSlot(o.pages[j], j, b) ensures Read(mem', b) == Read(h.mem, b) {
      NoSlotElsewhere(h, o, k, a, j);
    }
    OthersKept(h, o, mem', k);
  }

  lemma SplitKeepsInv(h: Heap, o: Own, k: nat, p: nat)
    requires Inv(h, o) && k < CLASSES && o.free[k] == [] && p !in o.taken && p > 0
    ensures Inv(Split(h, p, k),
      Own(o.pages[k := o.pages[k] + {p}], o.free[k := SlotSeq(p, k)], o.live, o.taken + {p}))
  {
    SplitKeeps(h.mem, h.caches[k], k, o.pages[k], o.live[k], p);
    var mem' := Split(h, p, k).mem;
    ThreadReads(h.mem, p, k, SlotsPerPage(k));
    OthersKept(h, o, mem', k);
  }

  lemma AllocKeepsInv(h: Heap, o: Own, size: nat, page: Option<nat>)
    requires Inv(h, o) && Possible(h, o, Alloc(size, page))
    ensures Inv(KMalloc(h, size, page).0, OwnStep(o, Alloc(size, page)))
  {
    if 0 < size <= MAX_SIZE {
      var k := IndexOf(size);
      HeadIsNull(h, o, k);
      if o.free[k] != [] {
        PopKeepsInv(h, o, k);
      } else if page.Some? {
        var p := page.value;
        assert p in Fresh(size, p);
        SplitKeepsInv(h, o, k, p);
        var o1 := Own(o.pages[k := o.pages[k] + {p}], o.free[k := SlotSeq(p, k)], o.live, o.taken + {p});
        assert Split(h, p, k).caches[k].head == SlotAt(p, k, 0);
        PopKeepsInv(Split(h, p, k), o1, k);
      }
    } else if size > MAX_SIZE && page.Some? {
      LargeKeepsInv(h, o, page.value, size);
    }
  }

  /** Zeroing fresh pages touches no slot. */
  lemma LargeKeepsInv(h: Heap, o: Own, p: nat, size: nat)
    requires Inv(h, o) && size > MAX_SIZE && Fresh(size, p) !! o.taken + {0}
    ensures Inv(h.(mem := Zeroed(h.mem, p, PagesFor(size))), o.(taken := o.taken + Fresh(size, p)))
  {
    var mem' := Zeroed(h.mem, p, PagesFor(size));
    forall k | 0 <= k < CLASSES ensures ClassOk(mem', h.caches[k], k, o.pages[k], o.free[k], o.live[k]) {
      forall a: Addr | IsSlot(o.pages[k], k, a) ensures Read(mem', a) == Read(h.mem, a) {
        assert a / PAGE !in Fresh(size, p);
      }
      ClassFrame(h.mem, mem', h.caches[k], k, o.pages[k], o.free[k], o.live[k]);
    }
  }

  lemma FreeKeepsInv(h: Heap, o: Own, k: nat, a: Addr)
    requires Inv(h, o) && k < CLASSES && a in o.live[k]
    ensures Inv(KFree(h, a + 1), OwnStep(o, Free(k, a)))
    ensures KFree(h, a + 1) == Push(h, k, a)
  {
    IndexOfClass(k);
    assert ClassOk(h.mem, h.caches[k], k, o.pages[k], o.free[k], o.live[k]) && IsSlot(o.pages[k], k, a);
    PushKeeps(h.mem, h.caches[k], k, o.pages[k], o.free[k], o.live[k], a);
    var mem' := Push(h, k, a).mem;
    forall j, b: Addr | 0 <= j < CLASSES && j != k && IsSlot(o.pages[j], j, b) ensures Read(mem', b) == Read(h.mem, b) {
      NoSlotElsewhere(h, o, k, a, j);
    }
    OthersKept(h, o, mem', k);
  }

  /** No byte behind the header of a slot is a header of any class. */
  lemma WriteKeepsInv(h: Heap, o: Own, k: nat, a: Addr, x: Addr, g: Granule)
    requires Inv(h, o) && k < CLASSES && a in o.live[k] && a < x < a + Units(k)
    ensures Inv(h.(mem := h.mem[x := g]), o)
  {
    assert IsSlot(o.pages[k], k, a);
    SlotInPage(k, a, x);
    if x % Units(k) == 0 { SlotsApart(k, a, x); }
    OutsideKeepsInv(h, o, x, g);
  }

  lemma OutsideKeepsInv(h: Heap, o: Own, x: Addr, g: Granule)
    requires Inv(h, o) && forall k :: 0 <= k < CLASSES ==> !IsSlot(o.pages[k], k, x)
    ensures Inv(h.(mem := h.mem[x := g]), o)
  {
    var mem' := h.mem[x := g];
    forall k | 0 <= k < CLASSES ensures ClassOk(mem', h.caches[k], k, o.pages[k], o.free[k], o.live[k]) {
      ClassFrame(h.mem, mem', h.caches[k], k, o.pages[k], o.free[k], o.live[k]);
    }
  }

  lemma StepKeepsInv(h: Heap, o: Own, e: Event)
    requires Inv(h, o) && Possible(h, o, e)
    ensures Inv(Step(h, e), OwnStep(o, e))
  {
    match e
    case Alloc(size, page) => AllocKeepsInv(h, o, size, page);
    case Free(k, a) => FreeKeepsInv(h, o, k, a);
    case FreeLarge(p) =>
    case Write(k, a, x, g) => WriteKeepsInv(h, o, k, a, x, g);
    case WriteLarge(x, g) => OutsideKeepsInv(h, o, x, g);
  }

  // ---- runs ----

  predicate PossibleRun(h: Heap, o: Own, events: seq<Event>)
    requires Shaped(h, o)
    decreases |events|
  {
    events == [] || (Possible(h, o, events[0]) && PossibleRun(Step(h, events[0]), OwnStep(o, events[0]), events[1..]))
  }

  function Run(h: Heap, o: Own, events: seq<Event>): (Heap, Own)
    requires Shaped(h, o) && PossibleRun(h, o, events)
    decreases |events|
  {
    if events == [] then (h, o) else Run(Step(h, events[0]), OwnStep(o, events[0]), events[1..])
  }

  /** kmalloc_init, whatever is in memory. */
  function Initial(mem: map<Addr, Granule>): (Heap, Own) {
    (Heap(mem, seq(CLASSES, _ => Cache(0, 0, 0))),
     Own(seq(CLASSES, _ => {}), seq(CLASSES, _ => []), seq(CLASSES, _ => {}), {}))
  }

  lemma {:induction false} RunKeepsInv(h: Heap, o: Own, events: seq<Event>)
    requires Inv(h, o) && PossibleRun(h, o, events)
    ensures Inv(Run(h, o, events).0, Run(h, o, events).1)
    decreases |events|
  {
    if events != [] {
      StepKeepsInv(h, o, events[0]);
      RunKeepsInv(Step(h, events[0]), OwnStep(o, events[0]), events[1..]);
    }
  }

  /**
   * After every run from boot: each slot of each slab page is on its class's free list, once, or live,
   * the lists end, the counters differ by the live count, and no slots overlap.
   */
  lemma HeapStaysSound(mem: map<Addr, Granule>, events: seq<Event>)
    requires PossibleRun(Initial(mem).0, Initial(mem).1, events)
    ensures var (h, o) := Run(Initial(mem).0, Initial(mem).1, events); Inv(h, o)
  {
    var (h, o) := Initial(mem);
    forall k | 0 <= k < CLASSES ensures ClassOk(h.mem, h.caches[k], k, o.pages[k], o.free[k], o.live[k]) {}
    RunKeepsInv(h, o, events);
  }
}
