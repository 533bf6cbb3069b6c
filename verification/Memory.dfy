/**
 * The page allocator under both of its clients. Page tables and the kernel heap share the zones and the one
 * physical memory; the frames that the allocator hands out keep them apart.
 */
module Memory {
  import opened Bits
  import opened PmmSpec
  import opened PageTables
  import opened VmmSpec
  import opened VmmFlat
  import opened VmmShare
  import opened VmmPages
  import Spaces = VmmRuns
  import SlabSpec
  import Slabs = SlabRuns
  import Limits = SlabLimits

  /**
   * Both clients' readings of physical memory: frames as page tables, and granules as slab headers. They are
   * readings of the same frames; AliasedStep says what that means.
   */
  datatype System = System(mm: Mm, heap: SlabSpec.Heap)

  /** An operation of vmm.c, a kmalloc that takes its pages from the zones, or another event of the heap. */
  datatype Event = Vm(op: Spaces.Op) | Kmalloc(size: nat) | Heap(e: Slabs.Event)

  predicate WellFormed(s: System) {
    |s.heap.caches| == SlabSpec.CLASSES
  }

  /** The page that kmalloc takes, if it comes to ask for one. */
  function PageFor(s: System, size: nat): (Zones, Option<nat>)
    requires WellFormed(s)
  {
    if size == 0 then (s.mm.pmm, None)
    else if size > SlabSpec.MAX_SIZE then AllocPages(s.mm.pmm, SlabSpec.PagesFor(size))
    else if s.heap.caches[SlabSpec.IndexOf(size)].head != 0 then (s.mm.pmm, None)
    else AllocPage(s.mm.pmm)
  }

  function Step(s: System, k: nat, e: Event): (r: System)
    requires WellFormed(s)
    ensures WellFormed(r)
  {
    match e
    case Vm(op) => s.(mm := Spaces.Apply(s.mm, k, op).0)
    case Kmalloc(size) =>
      var (pmm, page) := PageFor(s, size);
      System(s.mm.(pmm := pmm), SlabSpec.KMalloc(s.heap, size, page).0)
    case Heap(e) => s.(heap := Slabs.Step(s.heap, e))
  }

  /** The heap's side of an event. */
  function HeapEvent(s: System, e: Event): Option<Slabs.Event>
    requires WellFormed(s)
  {
    match e
    case Vm(_) => None
    case Kmalloc(size) => Some(Slabs.Alloc(size, PageFor(s, size).1))
    case Heap(e) => Some(e)
  }

  /** Page tables labelled by `shape` with the kernel's root `k`; heap pages and slots recorded in `own`. */
  ghost predicate Inv(s: System, shape: Shape, k: nat, own: Slabs.Own) {
    && WellFormed(s)
    && Sound(s.mm, shape, k)
    && Slabs.Inv(s.heap, own)
    && (forall f <- own.taken :: !IsFree(s.mm.pmm, f) && f !in shape)
    && !IsFree(s.mm.pmm, 0)
  }

  /**
   * Callers obey the rules of vmm.c and of the heap, and write to large blocks only if they were given them;
   * about fresh pages nothing is required of anyone.
   */
  ghost predicate Possible(s: System, shape: Shape, own: Slabs.Own, e: Event)
    requires WellFormed(s) && Slabs.Shaped(s.heap, own)
  {
    match e
    case Vm(op) => Spaces.Legal(s.mm, shape, op)
    case Kmalloc(_) => true
    case Heap(e) => !e.Alloc? && Slabs.Possible(s.heap, own, e) && (e.WriteLarge? ==> e.x / SlabSpec.PAGE in own.taken)
  }

  ghost function ShapeStep(s: System, shape: Shape, e: Event): Shape {
    match e
    case Vm(op) => Spaces.ShapeAfter(s.mm, shape, op)
    case _ => shape
  }

  ghost function OwnStep(s: System, own: Slabs.Own, e: Event): Slabs.Own
    requires WellFormed(s) && Slabs.Shaped(s.heap, own)
    requires e.Heap? && e.e.Free? ==> e.e.k < SlabSpec.CLASSES
  {
    match HeapEvent(s, e)
    case None => own
    case Some(he) => Slabs.OwnStep(own, he)
  }

  // ---- page-table operations take only free frames ----

  ghost predicate TookOnly(s: Mm, shape: Shape, s': Mm, shape': Shape) {
    && (forall g :: IsFree(s'.pmm, g) ==> IsFree(s.pmm, g))
    && (forall g :: g in shape' && g !in shape ==> IsFree(s.pmm, g))
    && Ok(s'.pmm)
  }

  lemma CreateTakes(s: Mm, shape: Shape, t: nat, i: Index)
    requires Ok(s.pmm)
    ensures TookOnly(s, shape, GetOrCreate(s, t, i).0, ShapeCreate(s, shape, t, i))
  {
    AllocPageIsFresh(s.pmm);
  }

  lemma EnsurePdTakes(s: Mm, shape: Shape, r: nat, p: Path)
    requires Ok(s.pmm)
    ensures TookOnly(s, shape, EnsurePd(s, r, p).0, ShapePd(s, shape, r, p))
  {
    CreateTakes(s, shape, r, p.i4);
    match GetOrCreate(s, r, p.i4)
    case (_, None) =>
    case (s1, Some(pdpt)) => CreateTakes(s1, ShapeCreate(s, shape, r, p.i4), pdpt, p.i3);
  }

  lemma EnsurePtTakes(s: Mm, shape: Shape, r: nat, p: Path)
    requires Ok(s.pmm)
    ensures TookOnly(s, shape, EnsurePt(s, r, p).0, ShapePt(s, shape, r, p))
  {
    EnsurePdTakes(s, shape, r, p);
    match EnsurePd(s, r, p)
    case (_, None) =>
    case (s1, Some(pd)) => CreateTakes(s1, ShapePd(s, shape, r, p), pd, p.i2);
  }

  lemma {:induction false} LoopTakes(s: Mm, shape: Shape, r: nat, paths: seq<Path>, flags: nat)
    requires Ok(s.pmm)
    ensures TookOnly(s, shape, MapLoop(s, r, paths, flags).s, ShapeLoop(s, shape, r, paths, flags))
  {
    if paths != [] {
      var init, p := paths[..|paths| - 1], paths[|paths| - 1];
      var pr := MapLoop(s, r, init, flags);
      LoopTakes(s, shape, r, init, flags);
      if pr.outcome.Mapped? {
        AllocPageIsFresh(pr.s.pmm);
        if AllocPage(pr.s.pmm).1.Some? {
          EnsurePtTakes(Mm(pr.s.ram, AllocPage(pr.s.pmm).0), ShapeLoop(s, shape, r, init, flags), r, p);
        }
      }
    }
  }

  lemma ApplyTakes(s: Mm, shape: Shape, k: nat, op: Spaces.Op)
    requires Ok(s.pmm)
    ensures TookOnly(s, shape, Spaces.Apply(s, k, op).0, Spaces.ShapeAfter(s, shape, op))
  {
    match op
    case MapOp(r, p, _, _) => EnsurePtTakes(s, shape, r, p);
    case HugeOp(r, p, _, _) => EnsurePdTakes(s, shape, r, p);
    case UnmapOp(_, _) =>
    case RangeOp(r, paths, flags) => LoopTakes(s, shape, r, paths, flags);
    case SpaceOp => AllocPageIsFresh(s.pmm);
  }

  // ---- footprints ----

  /** Only frames of `shape` differ. */
  ghost predicate WritesOnly(ram: Ram, ram': Ram, shape: Shape) {
    forall f :: TableAt(ram', f) != TableAt(ram, f) ==> f in shape
  }

  lemma WritesCompose(ram: Ram, ram1: Ram, ram2: Ram, shape1: Shape, shape2: Shape)
    requires WritesOnly(ram, ram1, shape1) && WritesOnly(ram1, ram2, shape2)
    requires forall f :: f in shape1 ==> f in shape2
    ensures WritesOnly(ram, ram2, shape2)
  {
    forall f | TableAt(ram2, f) != TableAt(ram, f) ensures f in shape2 {
      assert TableAt(ram1, f) != TableAt(ram, f) || TableAt(ram2, f) != TableAt(ram1, f);
    }
  }

  lemma CreateWrites(s: Mm, shape: Shape, k: nat, t: nat, i: Index)
    requires Sound(s, shape, k) && TableSlot(s, shape, t, i)
    ensures WritesOnly(s.ram, GetOrCreate(s, t, i).0.ram, ShapeCreate(s, shape, t, i))
  {
    AllocPageIsFresh(s.pmm);
  }

  lemma EnsurePdWrites(s: Mm, shape: Shape, k: nat, r: nat, p: Path)
    requires Sound(s, shape, k) && Target4(shape, r, p)
    ensures WritesOnly(s.ram, EnsurePd(s, r, p).0.ram, ShapePd(s, shape, r, p))
  {
    CreateWrites(s, shape, k, r, p.i4);
    GetOrCreateKeepsSound(s, shape, k, r, p.i4);
    GetOrCreateLinks(s, shape, k, r, p.i4);
    match GetOrCreate(s, r, p.i4)
    case (_, None) =>
    case (s1, Some(pdpt)) =>
      var shape1 := ShapeCreate(s, shape, r, p.i4);
      WalkLabels(s1.ram, shape1, k, r, p);
      CreateWrites(s1, shape1, k, pdpt, p.i3);
      GetOrCreateKeepsSound(s1, shape1, k, pdpt, p.i3);
      WritesCompose(s.ram, s1.ram, EnsurePd(s, r, p).0.ram, shape1, ShapePd(s, shape, r, p));
  }

  lemma EnsurePtWrites(s: Mm, shape: Shape, k: nat, r: nat, p: Path)
    requires Sound(s, shape, k) && Target4(shape, r, p) && !HugeCovered(s.ram, r, p)
    ensures WritesOnly(s.ram, EnsurePt(s, r, p).0.ram, ShapePt(s, shape, r, p))
  {
    EnsurePdWrites(s, shape, k, r, p);
    EnsurePdKeepsSound(s, shape, k, r, p);
    PdSlotIsUsable(s, shape, k, r, p);
    match EnsurePd(s, r, p)
    case (_, None) =>
    case (s1, Some(pd)) =>
      var shape1 := ShapePd(s, shape, r, p);
      CreateWrites(s1, shape1, k, pd, p.i2);
      GetOrCreateKeepsSound(s1, shape1, k, pd, p.i2);
      WritesCompose(s.ram, s1.ram, EnsurePt(s, r, p).0.ram, shape1, ShapePt(s, shape, r, p));
  }

  lemma MapPageWrites(s: Mm, shape: Shape, k: nat, r: nat, p: Path, phys: nat, flags: nat)
    requires Sound(s, shape, k) && Target4(shape, r, p) && !HugeCovered(s.ram, r, p)
    ensures WritesOnly(s.ram, MapPage(s, r, p, phys, flags).0.ram, ShapeMap(s, shape, r, p))
  {
    EnsurePtWrites(s, shape, k, r, p);
    EnsurePtKeepsSound(s, shape, k, r, p);
    if EnsurePt(s, r, p).1.Some? { WalkLabels(EnsurePt(s, r, p).0.ram, ShapeMap(s, shape, r, p), k, r, p); }
  }

  lemma MapHugeWrites(s: Mm, shape: Shape, k: nat, r: nat, p: Path, phys: nat, flags: nat)
    requires Sound(s, shape, k) && Target4(shape, r, p)
    ensures WritesOnly(s.ram, MapHuge(s, r, p, phys, flags).0.ram, ShapeHuge(s, shape, r, p))
  {
    EnsurePdWrites(s, shape, k, r, p);
    EnsurePdKeepsSound(s, shape, k, r, p);
    if EnsurePd(s, r, p).1.Some? { WalkLabels(EnsurePd(s, r, p).0.ram, ShapeHuge(s, shape, r, p), k, r, p); }
  }

  lemma UnmapWrites(ram: Ram, shape: Shape, k: nat, r: nat, p: Path)
    requires TreeOk(ram, shape, k) && Target4(shape, r, p)
    ensures WritesOnly(ram, Unmap(ram, r, p), shape)
  {
    WalkLabels(ram, shape, k, r, p);
  }

  lemma {:induction false} UnmapAllWrites(ram: Ram, shape: Shape, k: nat, r: nat, paths: seq<Path>)
    requires TreeOk(ram, shape, k) && IsRoot(shape, r) && forall p <- paths :: p.i4 != RECURSIVE_INDEX
    ensures WritesOnly(ram, UnmapAll(ram, r, paths), shape) && TreeOk(UnmapAll(ram, r, paths), shape, k)
  {
    if paths != [] {
      var init, p := paths[..|paths| - 1], paths[|paths| - 1];
      assert p in paths && forall q <- init :: q in paths;
      UnmapAllWrites(ram, shape, k, r, init);
      UnmapWrites(UnmapAll(ram, r, init), shape, k, r, p);
      UnmapKeepsTree(UnmapAll(ram, r, init), shape, k, r, p);
      WritesCompose(ram, UnmapAll(ram, r, init), UnmapAll(ram, r, paths), shape, shape);
    }
  }

  lemma {:induction false} LoopWrites(s: Mm, shape: Shape, k: nat, r: nat, paths: seq<Path>, flags: nat)
    requires Sound(s, shape, k) && IsRoot(shape, r) && UsableRange(s.ram, r, paths)
    ensures WritesOnly(s.ram, MapLoop(s, r, paths, flags).s.ram, ShapeLoop(s, shape, r, paths, flags))
  {
    if paths != [] {
      var n := |paths| - 1;
      var pr, shape1 := MapLoop(s, r, paths[..n], flags), ShapeLoop(s, shape, r, paths[..n], flags);
      LoopWrites(s, shape, k, r, paths[..n], flags);
      if pr.outcome.Mapped? && AllocPage(pr.s.pmm).1.Some? {
        var s1, f := Mm(pr.s.ram, AllocPage(pr.s.pmm).0), AllocPage(pr.s.pmm).1.value;
        MapLoopCounts(s, r, paths[..n], flags);
        MapLoopState(s, shape, k, r, r, paths, flags);
        MapLoopState(s, shape, k, r, r, paths[..n], flags);
        AllocPageIsFresh(pr.s.pmm);
        LastIsSmall(s.ram, pr.s.ram, r, paths, pr.frames, flags);
        assert Labelled(shape1, r, Pml4) && paths[n] in paths;
        MapPageWrites(s1, shape1, k, r, paths[n], f * PAGE_SIZE, flags);
        MapPageKeepsSound(s1, shape1, k, r, paths[n], f * PAGE_SIZE, flags);
        WritesCompose(s.ram, s1.ram, MapPage(s1, r, paths[n], f * PAGE_SIZE, flags).0.ram, shape1, ShapeMap(s1, shape1, r, paths[n]));
      }
    }
  }

  /** A page-table operation writes to frames that are page tables afterwards, and to no others. */
  lemma ApplyWrites(s: Mm, shape: Shape, k: nat, op: Spaces.Op)
    requires Sound(s, shape, k) && Spaces.Legal(s, shape, op)
    ensures WritesOnly(s.ram, Spaces.Apply(s, k, op).0.ram, Spaces.ShapeAfter(s, shape, op))
  {
    match op
    case MapOp(r, p, phys, flags) => MapPageWrites(s, shape, k, r, p, phys, flags);
    case HugeOp(r, p, phys, flags) => MapHugeWrites(s, shape, k, r, p, phys, flags);
    case UnmapOp(r, p) => UnmapWrites(s.ram, shape, k, r, p);
    case RangeOp(r, paths, flags) => RangeWrites(s, shape, k, r, paths, flags);
    case SpaceOp => AllocPageIsFresh(s.pmm);
  }

  lemma RangeWrites(s: Mm, shape: Shape, k: nat, r: nat, paths: seq<Path>, flags: nat)
    requires Sound(s, shape, k) && IsRoot(shape, r) && UsableRange(s.ram, r, paths)
    ensures WritesOnly(s.ram, MapPages(s, r, paths, flags).s.ram, ShapeLoop(s, shape, r, paths, flags))
  {
    var pr, shape' := MapLoop(s, r, paths, flags), ShapeLoop(s, shape, r, paths, flags);
    MapLoopCounts(s, r, paths, flags);
    LoopWrites(s, shape, k, r, paths, flags);
    MapLoopState(s, shape, k, r, r, paths, flags);
    if pr.outcome.NoDataPage? {
      var done := paths[..|pr.frames|];
      assert Labelled(shape', r, Pml4);
      assert forall p <- done :: p in paths;
      UnmapAllWrites(pr.s.ram, shape', k, r, done);
      WritesCompose(s.ram, pr.s.ram, UnmapAll(pr.s.ram, r, done), shape', shape');
    }
  }

  /** Some granule of page `f` differs. */
  ghost predicate PageWritten(mem: map<SlabSpec.Addr, SlabSpec.Granule>, mem': map<SlabSpec.Addr, SlabSpec.Granule>, f: nat) {
    exists x: SlabSpec.Addr :: x / SlabSpec.PAGE == f && SlabSpec.Read(mem', x) != SlabSpec.Read(mem, x)
  }

  /** An event of the heap writes to pages that the heap owns afterwards, and to no others. */
  lemma HeapWrites(h: SlabSpec.Heap, o: Slabs.Own, e: Slabs.Event, x: SlabSpec.Addr)
    requires Slabs.Inv(h, o) && Slabs.Possible(h, o, e) && (e.WriteLarge? ==> e.x / SlabSpec.PAGE in o.taken)
    requires SlabSpec.Read(Slabs.Step(h, e).mem, x) != SlabSpec.Read(h.mem, x)
    ensures x / SlabSpec.PAGE in Slabs.OwnStep(o, e).taken
  {
    match e
    case Alloc(size, page) => AllocWrites(h, o, size, page, x);
    case Free(k, a) =>
      Slabs.FreeKeepsInv(h, o, k, a);
      SlotIsTaken(h, o, k, a);
    case Write(k, a, y, _) =>
      SlotIsTaken(h, o, k, a);
      assert SlabSpec.IsSlot(o.pages[k], k, a);
      SlabSpec.SlotInPage(k, a, y);
    case _ =>
  }

  lemma SlotIsTaken(h: SlabSpec.Heap, o: Slabs.Own, k: nat, a: SlabSpec.Addr)
    requires Slabs.Inv(h, o) && k < SlabSpec.CLASSES && (a in o.live[k] || a in o.free[k])
    ensures SlabSpec.IsSlot(o.pages[k], k, a) && a / SlabSpec.PAGE in o.taken
  {
    assert Slabs.ClassOk(h.mem, h.caches[k], k, o.pages[k], o.free[k], o.live[k]);
  }

  lemma AllocWrites(h: SlabSpec.Heap, o: Slabs.Own, size: nat, page: Option<nat>, x: SlabSpec.Addr)
    requires Slabs.Inv(h, o) && Slabs.Possible(h, o, Slabs.Alloc(size, page))
    requires SlabSpec.Read(SlabSpec.KMalloc(h, size, page).0.mem, x) != SlabSpec.Read(h.mem, x)
    ensures x / SlabSpec.PAGE in Slabs.OwnStep(o, Slabs.Alloc(size, page)).taken
  {
    if 0 < size <= SlabSpec.MAX_SIZE {
      var k := SlabSpec.IndexOf(size);
      Slabs.HeadIsNull(h, o, k);
      if o.free[k] != [] {
        SlotIsTaken(h, o, k, o.free[k][0]);
      } else if page.Some? {
        Slabs.ThreadReads(h.mem, page.value, k, SlabSpec.SlotsPerPage(k));
        SlabSpec.SlotAtIsSlot(page.value, k, 0);
      }
    }
  }

  // ---- kmalloc takes only free frames ----

  /** The zones satisfy what the heap needs of its page source. */
  lemma PageIsFresh(s: System, shape: Shape, k: nat, own: Slabs.Own, size: nat)
    requires Inv(s, shape, k, own)
    ensures var (pmm, page) := PageFor(s, size);
      && Ok(pmm)
      && Slabs.Possible(s.heap, own, Slabs.Alloc(size, page))
      && (forall g :: IsFree(pmm, g) ==> IsFree(s.mm.pmm, g))
      && (page.Some? ==> forall g <- Slabs.Fresh(size, page.value) :: IsFree(s.mm.pmm, g) && !IsFree(pmm, g))
  {
    AllocPageIsFresh(s.mm.pmm);
    if size > SlabSpec.MAX_SIZE {
      AllocFromHands(s.mm.pmm, SlabSpec.PagesFor(size), 1);
    }
  }

  /**
   * What a request above 2048 bytes asks of the zones: the least number of pages that holds it. All of them were
   * free before and none is afterwards, or no zone has a run of that many.
   */
  lemma LargeRequest(s: System, shape: Shape, k: nat, own: Slabs.Own, size: nat) returns (n: nat)
    requires Inv(s, shape, k, own) && size > 2048
    ensures (n - 1) * 4096 < size <= n * 4096
    ensures match PageFor(s, size).1
      case None => forall i, start: nat :: 0 <= i < 3 ==> !ClearRun(s.mm.pmm[i].used, start, n)
      case Some(p) => forall f: nat :: p <= f < p + n ==> IsFree(s.mm.pmm, f) && !IsFree(PageFor(s, size).0, f)
  {
    n := SlabSpec.PagesFor(size);
    Limits.PagesAreEnough(size);
    ServeIsFirstFit(s.mm.pmm, ManyPages(n));
    ServeHands(s.mm.pmm, ManyPages(n));
    assert PageFor(s, size) == Serve(s.mm.pmm, ManyPages(n));
    if PageFor(s, size).1.None? {
      forall i, start: nat | 0 <= i < 3 ensures !ClearRun(s.mm.pmm[i].used, start, n) {
        assert !Suits(s.mm.pmm[i], ManyPages(n), start);
      }
    }
  }

  /** A small request asks for one page, and only when the free list of its class is empty; an empty one for nothing. */
  lemma SmallRequest(s: System, shape: Shape, k: nat, own: Slabs.Own, size: nat)
    requires Inv(s, shape, k, own) && size <= 2048
    ensures PageFor(s, size) ==
      if size > 0 && own.free[SlabSpec.IndexOf(size)] == [] then AllocPage(s.mm.pmm) else (s.mm.pmm, None)
  {
    if size > 0 { Slabs.HeadIsNull(s.heap, own, SlabSpec.IndexOf(size)); }
  }

  lemma KmallocKeepsInv(s: System, shape: Shape, k: nat, own: Slabs.Own, size: nat)
    requires Inv(s, shape, k, own)
    ensures Inv(Step(s, k, Kmalloc(size)), shape, k, OwnStep(s, own, Kmalloc(size)))
  {
    var (pmm, page) := PageFor(s, size);
    PageIsFresh(s, shape, k, own, size);
    Slabs.StepKeepsInv(s.heap, own, Slabs.Alloc(size, page));
    var own' := Slabs.OwnStep(own, Slabs.Alloc(size, page));
    forall f <- own'.taken ensures !IsFree(pmm, f) && f !in shape {
      if f !in own.taken { assert f in Slabs.Fresh(size, page.value); }
    }
  }

  /** What each client does to its own reading keeps both structures sound and their frames disjoint. */
  lemma StepKeepsInv(s: System, shape: Shape, k: nat, own: Slabs.Own, e: Event)
    requires Inv(s, shape, k, own) && Possible(s, shape, own, e)
    ensures Inv(Step(s, k, e), ShapeStep(s, shape, e), k, OwnStep(s, own, e))
  {
    match e
    case Vm(op) =>
      Spaces.ApplyKeepsSound(s.mm, shape, k, op);
      ApplyTakes(s.mm, shape, k, op);
    case Kmalloc(size) => KmallocKeepsInv(s, shape, k, own, size);
    case Heap(he) => Slabs.StepKeepsInv(s.heap, own, he);
  }

  // ---- one memory ----

  /**
   * A step on one physical memory. Each client's reading becomes what its own code makes of it, except in
   * the frames that the other client has written: what is read there now is anything at all.
   */
  ghost predicate AliasedStep(s: System, k: nat, e: Event, s': System)
    requires WellFormed(s)
  {
    var t := Step(s, k, e);
    && s'.mm.pmm == t.mm.pmm && s'.heap.caches == t.heap.caches
    && (forall f :: TableAt(s'.mm.ram, f) != TableAt(t.mm.ram, f) ==> PageWritten(s.heap.mem, t.heap.mem, f))
    && (forall x: SlabSpec.Addr :: SlabSpec.Read(s'.heap.mem, x) != SlabSpec.Read(t.heap.mem, x) ==>
          TableAt(t.mm.ram, x / SlabSpec.PAGE) != TableAt(s.mm.ram, x / SlabSpec.PAGE))
  }

  /** The tree is read from its own frames only, and so is every translation. */
  lemma TreeFrame(ram: Ram, ram': Ram, shape: Shape, k: nat)
    requires TreeOk(ram, shape, k) && forall f :: f in shape ==> TableAt(ram', f) == TableAt(ram, f)
    ensures TreeOk(ram', shape, k)
    ensures forall q, w: Path :: Target4(shape, q, w) ==> Walk(ram', q, w) == Walk(ram, q, w)
  {
    forall f, i: Index | f in shape ensures EntryOk(ram', shape, k, f, i) {
      assert EntryOk(ram, shape, k, f, i);
    }
    forall q, w: Path | Target4(shape, q, w) ensures Walk(ram', q, w) == Walk(ram, q, w) {
      WalkLabels(ram, shape, k, q, w);
    }
  }

  /** The heap is read from the pages it owns only. */
  lemma HeapFrame(h: SlabSpec.Heap, h': SlabSpec.Heap, o: Slabs.Own)
    requires Slabs.Inv(h, o) && h'.caches == h.caches
    requires forall x: SlabSpec.Addr :: x / SlabSpec.PAGE in o.taken ==> SlabSpec.Read(h'.mem, x) == SlabSpec.Read(h.mem, x)
    ensures Slabs.Inv(h', o)
  {
    forall k | 0 <= k < SlabSpec.CLASSES
      ensures Slabs.ClassOk(h'.mem, h'.caches[k], k, o.pages[k], o.free[k], o.live[k])
    {
      Slabs.ClassFrame(h.mem, h'.mem, h.caches[k], k, o.pages[k], o.free[k], o.live[k]);
    }
  }

  /** The heap's footprint lies in its own pages, whichever event it is. */
  lemma HeapSideWrites(s: System, shape: Shape, k: nat, own: Slabs.Own, e: Event, f: nat)
    requires Inv(s, shape, k, own) && Possible(s, shape, own, e)
    requires PageWritten(s.heap.mem, Step(s, k, e).heap.mem, f)
    ensures !e.Vm? && f in OwnStep(s, own, e).taken
  {
    var x: SlabSpec.Addr :| x / SlabSpec.PAGE == f && SlabSpec.Read(Step(s, k, e).heap.mem, x) != SlabSpec.Read(s.heap.mem, x);
    match e
    case Vm(_) =>
    case Kmalloc(size) =>
      PageIsFresh(s, shape, k, own, size);
      HeapWrites(s.heap, own, Slabs.Alloc(size, PageFor(s, size).1), x);
    case Heap(he) => HeapWrites(s.heap, own, he, x);
  }

  /** On one memory page tables and heap stay sound and disjoint, whatever the two do in turn. */
  lemma AliasedStepKeepsInv(s: System, shape: Shape, k: nat, own: Slabs.Own, e: Event, s': System)
    requires Inv(s, shape, k, own) && Possible(s, shape, own, e) && AliasedStep(s, k, e, s')
    ensures Inv(s', ShapeStep(s, shape, e), k, OwnStep(s, own, e))
  {
    var t, shape', own' := Step(s, k, e), ShapeStep(s, shape, e), OwnStep(s, own, e);
    StepKeepsInv(s, shape, k, own, e);
    forall f | f in shape' ensures TableAt(s'.mm.ram, f) == TableAt(t.mm.ram, f) {
      if PageWritten(s.heap.mem, t.heap.mem, f) { HeapSideWrites(s, shape, k, own, e, f); }
    }
    TreeFrame(t.mm.ram, s'.mm.ram, shape', k);
    forall x: SlabSpec.Addr | x / SlabSpec.PAGE in own'.taken
      ensures SlabSpec.Read(s'.heap.mem, x) == SlabSpec.Read(t.heap.mem, x)
    {
      if e.Vm? { ApplyWrites(s.mm, shape, k, e.op); }
    }
    HeapFrame(t.heap, s'.heap, own');
  }

  /** Nothing the heap or its clients do changes a translation of any space. */
  lemma HeapKeepsTranslations(s: System, shape: Shape, k: nat, own: Slabs.Own, e: Event, s': System, q: nat, w: Path)
    requires Inv(s, shape, k, own) && Possible(s, shape, own, e) && AliasedStep(s, k, e, s')
    requires !e.Vm? && Target4(shape, q, w)
    ensures Walk(s'.mm.ram, q, w) == Walk(s.mm.ram, q, w)
  {
    StepKeepsInv(s, shape, k, own, e);
    forall f | f in shape ensures TableAt(s'.mm.ram, f) == TableAt(s.mm.ram, f) {
      if PageWritten(s.heap.mem, Step(s, k, e).heap.mem, f) { HeapSideWrites(s, shape, k, own, e, f); }
    }
    TreeFrame(s.mm.ram, s'.mm.ram, shape, k);
  }

  // ---- runs ----

  /** `states` is a run of the events on one memory, each of them possible where it happens. */
  ghost predicate AliasedRun(states: seq<System>, shape: Shape, k: nat, own: Slabs.Own, events: seq<Event>)
    decreases |events|
  {
    && |states| == |events| + 1
    && WellFormed(states[0]) && Slabs.Shaped(states[0].heap, own)
    && (events == [] || (
          && Possible(states[0], shape, own, events[0])
          && AliasedStep(states[0], k, events[0], states[1])
          && AliasedRun(states[1..], ShapeStep(states[0], shape, events[0]), k, OwnStep(states[0], own, events[0]), events[1..])))
  }

  /** What the frames are used for at the end of the run. */
  ghost function Uses(states: seq<System>, shape: Shape, k: nat, own: Slabs.Own, events: seq<Event>): (Shape, Slabs.Own)
    requires AliasedRun(states, shape, k, own, events)
    decreases |events|
  {
    if events == [] then (shape, own)
    else Uses(states[1..], ShapeStep(states[0], shape, events[0]), k, OwnStep(states[0], own, events[0]), events[1..])
  }

  /**
   * Over every run that mixes page-table operations with kmalloc, kfree and client writes on one memory and
   * one page allocator, the tables stay a tree, the heap stays sound, and no heap page is ever a page-table
   * frame: the condition that SlabRuns puts on its page source is met by the zones, not assumed.
   */
  lemma {:induction false} RunKeepsInv(states: seq<System>, shape: Shape, k: nat, own: Slabs.Own, events: seq<Event>)
    requires AliasedRun(states, shape, k, own, events) && Inv(states[0], shape, k, own)
    ensures var (shape', own') := Uses(states, shape, k, own, events);
      Inv(states[|events|], shape', k, own') && own'.taken !! shape'.Keys
    decreases |events|
  {
    if events != [] {
      AliasedStepKeepsInv(states[0], shape, k, own, events[0], states[1]);
      RunKeepsInv(states[1..], ShapeStep(states[0], shape, events[0]), k, OwnStep(states[0], own, events[0]), events[1..]);
    }
  }
}
