/** Address spaces, and what holds over every run of page table operations. */
module VmmRuns {
  import opened Bits
  import opened PmmSpec
  import opened PageTables
  import opened VmmSpec
  import opened VmmFlat
  import opened VmmShare
  import opened VmmPages

  // ---- vmm_create_address_space ----

  /** The new top level: the kernel's present upper entries, and itself in the recursive slot. */
  function SpaceEntry(ram: Ram, k: nat, f: nat, i: Index): nat {
    if i == RECURSIVE_INDEX then TableWord(f)
    else if i >= KERNEL_HALF && Present(Entry(ram, k, i)) then Entry(ram, k, i)
    else 0
  }

  function SpaceTable(ram: Ram, k: nat, f: nat): Table {
    seq(ENTRIES, i requires 0 <= i < ENTRIES => SpaceEntry(ram, k, f, i))
  }

  function CreateSpace(s: Mm, k: nat): (Mm, Option<nat>) {
    match AllocPage(s.pmm)
    case (pmm, None) => (Mm(s.ram, pmm), None)
    case (pmm, Some(f)) => (Mm(s.ram[f := SpaceTable(s.ram, k, f)], pmm), Some(f))
  }

  ghost function ShapeSpace(s: Mm, shape: Shape): Shape {
    match AllocPage(s.pmm).1
    case None => shape
    case Some(f) => shape[f := Pml4]
  }

  lemma CreateSpaceKeepsSound(s: Mm, shape: Shape, k: nat)
    requires Sound(s, shape, k)
    ensures Sound(CreateSpace(s, k).0, ShapeSpace(s, shape), k)
    ensures forall f :: f in shape ==> Labelled(ShapeSpace(s, shape), f, shape[f])
    ensures forall f, i: Index :: f in shape ==> Entry(CreateSpace(s, k).0.ram, f, i) == Entry(s.ram, f, i)
  {
    AllocPageIsFresh(s.pmm);
    match AllocPage(s.pmm).1
    case None =>
    case Some(f) =>
      var ram', shape' := CreateSpace(s, k).0.ram, ShapeSpace(s, shape);
      ZeroIsAbsent();
      forall g, i: Index | g in shape' ensures EntryOk(ram', shape', k, g, i) {
        if g == f {
          assert EntryOk(s.ram, shape, k, k, i);
          assert Entry(ram', f, i) == SpaceEntry(s.ram, k, f, i);
        } else {
          assert EntryOk(s.ram, shape, k, g, i);
          EntryStaysOk(s.ram, shape, ram', shape', k, g, i);
        }
      }
  }

  /**
   * A new space translates its upper half as the kernel does and has nothing in its lower half;
   * no older space is affected.
   */
  lemma CreateSpaceEffect(s: Mm, shape: Shape, k: nat, w: Path)
    requires Sound(s, shape, k) && CreateSpace(s, k).1.Some? && w.i4 != RECURSIVE_INDEX
    ensures var (s', f) := CreateSpace(s, k);
      && Walk(s'.ram, f.value, w) == (if w.i4 >= KERNEL_HALF then Walk(s.ram, k, w) else None)
      && (SharesSlot(s'.ram, k, f.value, w.i4) <==> w.i4 >= KERNEL_HALF && Next(s.ram, k, w.i4).Some?)
      && forall q :: IsRoot(shape, q) ==> Walk(s'.ram, q, w) == Walk(s.ram, q, w)
  {
    AllocPageIsFresh(s.pmm);
    ZeroIsAbsent();
    var (s', f) := CreateSpace(s, k);
    assert Entry(s'.ram, f.value, w.i4) == SpaceEntry(s.ram, k, f.value, w.i4);
    WalkLabels(s.ram, shape, k, k, w);
    forall q | IsRoot(shape, q) ensures Walk(s'.ram, q, w) == Walk(s.ram, q, w) {
      WalkAvoids(s.ram, shape, k, q, w, f.value, SpaceTable(s.ram, k, f.value));
    }
  }

  // ---- runs ----

  datatype Op =
    | MapOp(root: nat, p: Path, phys: nat, flags: nat)
    | HugeOp(root: nat, p: Path, phys: nat, flags: nat)
    | UnmapOp(root: nat, p: Path)
    | RangeOp(root: nat, paths: seq<Path>, flags: nat)
    | SpaceOp

  function Apply(s: Mm, k: nat, op: Op): (Mm, bool) {
    match op
    case MapOp(r, p, phys, flags) => MapPage(s, r, p, phys, flags)
    case HugeOp(r, p, phys, flags) => MapHuge(s, r, p, phys, flags)
    case UnmapOp(r, p) => (s.(ram := Unmap(s.ram, r, p)), true)
    case RangeOp(r, paths, flags) =>
      var pr := MapPages(s, r, paths, flags);
      (pr.s, pr.outcome.Mapped?)
    case SpaceOp => (CreateSpace(s, k).0, CreateSpace(s, k).1.Some?)
  }

  ghost function ShapeAfter(s: Mm, shape: Shape, op: Op): Shape {
    match op
    case MapOp(r, p, _, _) => ShapeMap(s, shape, r, p)
    case HugeOp(r, p, _, _) => ShapeHuge(s, shape, r, p)
    case UnmapOp(_, _) => shape
    case RangeOp(r, paths, flags) => ShapeLoop(s, shape, r, paths, flags)
    case SpaceOp => ShapeSpace(s, shape)
  }

  /** Callers name an existing space, stay out of slot 510, and do not map a page under a huge one. */
  ghost predicate Legal(s: Mm, shape: Shape, op: Op) {
    match op
    case MapOp(r, p, _, _) => Target4(shape, r, p) && !HugeCovered(s.ram, r, p)
    case HugeOp(r, p, _, _) => Target4(shape, r, p)
    case UnmapOp(r, p) => Target4(shape, r, p)
    case RangeOp(r, paths, _) => IsRoot(shape, r) && UsableRange(s.ram, r, paths)
    case SpaceOp => true
  }

  function RunOps(s: Mm, k: nat, ops: seq<Op>): Mm {
    if ops == [] then s else Apply(RunOps(s, k, ops[..|ops| - 1]), k, ops[|ops| - 1]).0
  }

  ghost function ShapeRun(s: Mm, shape: Shape, k: nat, ops: seq<Op>): Shape {
    if ops == [] then shape
    else ShapeAfter(RunOps(s, k, ops[..|ops| - 1]), ShapeRun(s, shape, k, ops[..|ops| - 1]), ops[|ops| - 1])
  }

  ghost predicate LegalRun(s: Mm, shape: Shape, k: nat, ops: seq<Op>) {
    ops == [] || (
      && LegalRun(s, shape, k, ops[..|ops| - 1])
      && Legal(RunOps(s, k, ops[..|ops| - 1]), ShapeRun(s, shape, k, ops[..|ops| - 1]), ops[|ops| - 1]))
  }

  lemma ApplyKeepsSound(s: Mm, shape: Shape, k: nat, op: Op)
    requires Sound(s, shape, k) && Legal(s, shape, op)
    ensures Sound(Apply(s, k, op).0, ShapeAfter(s, shape, op), k)
    ensures forall f :: f in shape ==> Labelled(ShapeAfter(s, shape, op), f, shape[f])
  {
    match op
    case MapOp(r, p, phys, flags) => MapPageKeepsSound(s, shape, k, r, p, phys, flags);
    case HugeOp(r, p, phys, flags) => MapHugeKeepsSound(s, shape, k, r, p, phys, flags);
    case UnmapOp(r, p) => UnmapKeepsTree(s.ram, shape, k, r, p);
    case RangeOp(r, paths, flags) =>
      MapPagesEffect(s, shape, k, r, paths, flags, r);
      MapLoopState(s, shape, k, r, r, paths, flags);
    case SpaceOp => CreateSpaceKeepsSound(s, shape, k);
  }

  /** The tree invariant and every label survive any legal run. */
  lemma {:induction false} RunKeepsSound(s: Mm, shape: Shape, k: nat, ops: seq<Op>)
    requires Sound(s, shape, k) && LegalRun(s, shape, k, ops)
    ensures Sound(RunOps(s, k, ops), ShapeRun(s, shape, k, ops), k)
    ensures forall f :: f in shape ==> Labelled(ShapeRun(s, shape, k, ops), f, shape[f])
  {
    if ops != [] {
      RunKeepsSound(s, shape, k, ops[..|ops| - 1]);
      ApplyKeepsSound(RunOps(s, k, ops[..|ops| - 1]), ShapeRun(s, shape, k, ops[..|ops| - 1]), k, ops[|ops| - 1]);
    }
  }

  // ---- which spaces share what ----

  /** No operation changes a top-level entry that is present, and only the space it names gains new ones. */
  lemma ApplyKeepsRoots(s: Mm, shape: Shape, k: nat, op: Op) returns (r: nat)
    requires Sound(s, shape, k) && Legal(s, shape, op)
    ensures RootsKept(s.ram, Apply(s, k, op).0.ram, shape, r)
  {
    r := if op.SpaceOp? then k else op.root;
    match op
    case MapOp(_, p, phys, flags) => MapPageKeepsRoots(s, shape, k, r, p, phys, flags);
    case HugeOp(_, p, phys, flags) => MapHugeKeepsRoots(s, shape, k, r, p, phys, flags);
    case UnmapOp(_, p) => UnmapKeepsRoots(s.ram, shape, k, r, p);
    case RangeOp(_, paths, flags) => MapPagesEffect(s, shape, k, r, paths, flags, r);
    case SpaceOp => CreateSpaceKeepsSound(s, shape, k);
  }

  /** Over any legal run two existing spaces share exactly the top-level slots that they shared at the start. */
  lemma {:induction false} SharingNeverChanges(s: Mm, shape: Shape, k: nat, ops: seq<Op>, a: nat, b: nat, i: Index)
    requires Sound(s, shape, k) && LegalRun(s, shape, k, ops)
    requires IsRoot(shape, a) && IsRoot(shape, b) && i != RECURSIVE_INDEX
    ensures Sees(RunOps(s, k, ops).ram, a, b, i) <==> Sees(s.ram, a, b, i)
  {
    if ops != [] {
      var init := ops[..|ops| - 1];
      var s1, shape1 := RunOps(s, k, init), ShapeRun(s, shape, k, init);
      SharingNeverChanges(s, shape, k, init, a, b, i);
      RunKeepsSound(s, shape, k, init);
      var r := ApplyKeepsRoots(s1, shape1, k, ops[|ops| - 1]);
      assert Labelled(shape1, a, Pml4) && Labelled(shape1, b, Pml4);
      SharingIsStatic(s1.ram, RunOps(s, k, ops).ram, shape1, k, r, a, b, i);
    }
  }

  /**
   * Two spaces that share a top-level slot share it for ever: after any run of operations on any
   * spaces, a page under it translates alike in both.
   */
  lemma SharedSlotsStayShared(s: Mm, shape: Shape, k: nat, ops: seq<Op>, r: nat, q: nat, w: Path)
    requires Sound(s, shape, k) && LegalRun(s, shape, k, ops)
    requires Target4(shape, r, w) && Target4(shape, q, w) && SharesSlot(s.ram, r, q, w.i4)
    ensures r != q ==> SharesSlot(RunOps(s, k, ops).ram, r, q, w.i4)
    ensures Walk(RunOps(s, k, ops).ram, r, w) == Walk(RunOps(s, k, ops).ram, q, w)
  {
    SharingNeverChanges(s, shape, k, ops, r, q, w.i4);
  }

  lemma LowerHalfIsPrivate(ram: Ram, shape: Shape, k: nat, r: nat, q: nat, i: Index)
    requires TreeOk(ram, shape, k) && IsRoot(shape, r) && IsRoot(shape, q) && i < KERNEL_HALF
    ensures Sees(ram, r, q, i) <==> r == q
  {
    assert EntryOk(ram, shape, k, r, i) && EntryOk(ram, shape, k, q, i);
  }

  // ---- every space is a flat map ----

  /** What a call came to: whether it succeeded and, for a range, its frames and whether they were unmapped again. */
  datatype Result = Result(ok: bool, frames: seq<nat>, undone: bool)

  function ResultOf(s: Mm, k: nat, op: Op): Result {
    match op
    case RangeOp(r, paths, flags) =>
      var pr := MapPages(s, r, paths, flags);
      Result(pr.outcome.Mapped?, pr.frames, pr.outcome.NoDataPage?)
    case _ => Result(Apply(s, k, op).1, [], false)
  }

  /** The frame that a range gave to page `w`, if it came to it. */
  function FrameOf(paths: seq<Path>, frames: seq<nat>, w: Path): Option<nat>
    decreases |frames|
  {
    var n := |frames|;
    if n == 0 || n > |paths| then None
    else if paths[n - 1] == w then Some(frames[n - 1])
    else FrameOf(paths, frames[..n - 1], w)
  }

  /** The effect of an operation on the leaf of page `w`, with no memory in sight. */
  function FlatStep(op: Op, res: Result, w: Path, leaf: Option<Leaf>): Option<Leaf> {
    match op
    case MapOp(_, p, phys, flags) =>
      if res.ok && w == p then SmallLeaf(SmallEntry(phys, flags)) else leaf
    case HugeOp(_, p, phys, flags) =>
      if res.ok && SameRegion(p, w) then HugeLeaf(HugeEntry(phys, flags)) else leaf
    case UnmapOp(_, p) =>
      if w == p || (SameRegion(p, w) && leaf.Some? && leaf.value.Huge?) then None else leaf
    case RangeOp(_, paths, flags) =>
      var f := FrameOf(paths, res.frames, w);
      if f.None? then leaf else if res.undone then None else SmallLeaf(SmallEntry(f.value * PAGE_SIZE, flags))
    case SpaceOp => leaf
  }

  /** The operations of a run that space `q` sees under slot `i`, with what they came to. */
  ghost function Log(s: Mm, k: nat, ops: seq<Op>, q: nat, i: Index): seq<(Op, Result)> {
    if ops == [] then []
    else
      var init, op := ops[..|ops| - 1], ops[|ops| - 1];
      var s1 := RunOps(s, k, init);
      Log(s, k, init, q, i)
        + if !op.SpaceOp? && Sees(s1.ram, op.root, q, i) then [(op, ResultOf(s1, k, op))] else []
  }

  function FlatRun(log: seq<(Op, Result)>, w: Path, leaf: Option<Leaf>): Option<Leaf> {
    if log == [] then leaf
    else
      var (op, res) := log[|log| - 1];
      FlatStep(op, res, w, FlatRun(log[..|log| - 1], w, leaf))
  }

  lemma {:induction false} FrameOfAt(paths: seq<Path>, frames: seq<nat>, w: Path)
    requires Distinct(paths) && |frames| <= |paths|
    ensures FrameOf(paths, frames, w).None? <==> w !in paths[..|frames|]
    ensures forall i :: 0 <= i < |frames| && paths[i] == w ==> FrameOf(paths, frames, w) == Some(frames[i])
    decreases |frames|
  {
    var n := |frames|;
    if n > 0 {
      FrameOfAt(paths, frames[..n - 1], w);
      assert paths[..n] == paths[..n - 1] + [paths[n - 1]];
    }
  }

  lemma RangeIsFlat(s: Mm, shape: Shape, k: nat, r: nat, paths: seq<Path>, flags: nat, q: nat, w: Path)
    requires Spaces(s, shape, k, r, q) && UsableRange(s.ram, r, paths) && w.i4 != RECURSIVE_INDEX
    ensures var pr, op := MapPages(s, r, paths, flags), RangeOp(r, paths, flags);
      Walk(pr.s.ram, q, w) ==
        if Sees(s.ram, r, q, w.i4)
        then FlatStep(op, Result(pr.outcome.Mapped?, pr.frames, pr.outcome.NoDataPage?), w, Walk(s.ram, q, w))
        else Walk(s.ram, q, w)
  {
    var pr := MapPages(s, r, paths, flags);
    MapPagesEffect(s, shape, k, r, paths, flags, q);
    LeafInRange(s.ram, pr, r, paths, flags, q, w);
  }

  /** The leaf of one page after the call, out of what the call does to all. */
  lemma LeafInRange(ram: Ram, pr: Progress, r: nat, paths: seq<Path>, flags: nat, q: nat, w: Path)
    requires Distinct(paths) && |pr.frames| <= |paths| && w.i4 != RECURSIVE_INDEX
    requires w !in paths[..|pr.frames|] || !Sees(ram, r, q, w.i4) ==> Walk(pr.s.ram, q, w) == Walk(ram, q, w)
    requires forall i :: 0 <= i < |pr.frames| && Sees(ram, r, q, paths[i].i4) ==>
      Walk(pr.s.ram, q, paths[i]) == if pr.outcome.NoDataPage? then None else SmallLeaf(SmallEntry(pr.frames[i] * PAGE_SIZE, flags))
    ensures Walk(pr.s.ram, q, w) ==
      if Sees(ram, r, q, w.i4)
      then FlatStep(RangeOp(r, paths, flags), Result(pr.outcome.Mapped?, pr.frames, pr.outcome.NoDataPage?), w, Walk(ram, q, w))
      else Walk(ram, q, w)
  {
    FrameOfAt(paths, pr.frames, w);
    if w in paths[..|pr.frames|] {
      var i := PlaceOf(paths[..|pr.frames|], w);
      assert paths[i] == w;
    }
  }

  lemma PlaceOf<T>(s: seq<T>, x: T) returns (i: nat)
    requires x in s
    ensures i < |s| && s[i] == x
  {
    i :| 0 <= i < |s| && s[i] == x;
  }

  lemma ApplyIsFlat(s: Mm, shape: Shape, k: nat, op: Op, q: nat, w: Path)
    requires Sound(s, shape, k) && Legal(s, shape, op) && Target4(shape, q, w)
    ensures Walk(Apply(s, k, op).0.ram, q, w) ==
      if !op.SpaceOp? && Sees(s.ram, op.root, q, w.i4) then FlatStep(op, ResultOf(s, k, op), w, Walk(s.ram, q, w))
      else Walk(s.ram, q, w)
  {
    match op
    case MapOp(r, p, phys, flags) => MapPageSeen(s, shape, k, r, p, phys, flags, q, w);
    case HugeOp(r, p, phys, flags) => MapHugeSeen(s, shape, k, r, p, phys, flags, q, w);
    case UnmapOp(r, p) =>
      UnmapSeen(s.ram, shape, k, r, p, q, w);
      HugeCoveredIsHugeLeaf(s.ram, q, w);
    case RangeOp(r, paths, flags) => RangeIsFlat(s, shape, k, r, paths, flags, q, w);
    case SpaceOp =>
      AllocPageIsFresh(s.pmm);
      if CreateSpace(s, k).1.Some? { CreateSpaceEffect(s, shape, k, w); }
  }

  /**
   * Over any legal run of operations on any spaces, with allocations failing anywhere, every space
   * translates every page as a flat map updated by the operations that it sees there.
   */
  lemma {:induction false} RunIsFlat(s: Mm, shape: Shape, k: nat, ops: seq<Op>, q: nat, w: Path)
    requires Sound(s, shape, k) && LegalRun(s, shape, k, ops) && Target4(shape, q, w)
    ensures Walk(RunOps(s, k, ops).ram, q, w) == FlatRun(Log(s, k, ops, q, w.i4), w, Walk(s.ram, q, w))
  {
    if ops != [] {
      var init, op := ops[..|ops| - 1], ops[|ops| - 1];
      var s1, shape1 := RunOps(s, k, init), ShapeRun(s, shape, k, init);
      RunIsFlat(s, shape, k, init, q, w);
      RunKeepsSound(s, shape, k, init);
      assert Labelled(shape1, q, Pml4);
      ApplyIsFlat(s1, shape1, k, op, q, w);
      if !op.SpaceOp? && Sees(s1.ram, op.root, q, w.i4) {
        var log := Log(s, k, init, q, w.i4);
        assert (log + [(op, ResultOf(s1, k, op))])[..|log|] == log;
      } else {
        assert Log(s, k, ops, q, w.i4) == Log(s, k, init, q, w.i4);
      }
    }
  }

  /** The operations of a run on space `q` itself. */
  function OwnLog(s: Mm, k: nat, ops: seq<Op>, q: nat): seq<(Op, Result)> {
    if ops == [] then []
    else
      var init, op := ops[..|ops| - 1], ops[|ops| - 1];
      OwnLog(s, k, init, q) + if !op.SpaceOp? && op.root == q then [(op, ResultOf(RunOps(s, k, init), k, op))] else []
  }

  lemma {:induction false} LowerLogIsOwn(s: Mm, shape: Shape, k: nat, ops: seq<Op>, q: nat, i: Index)
    requires Sound(s, shape, k) && LegalRun(s, shape, k, ops) && IsRoot(shape, q) && i < KERNEL_HALF
    ensures Log(s, k, ops, q, i) == OwnLog(s, k, ops, q)
  {
    if ops != [] {
      var init, op := ops[..|ops| - 1], ops[|ops| - 1];
      LowerLogIsOwn(s, shape, k, init, q, i);
      RunKeepsSound(s, shape, k, init);
      assert Labelled(ShapeRun(s, shape, k, init), q, Pml4);
      if !op.SpaceOp? {
        LowerHalfIsPrivate(RunOps(s, k, init).ram, ShapeRun(s, shape, k, init), k, op.root, q, i);
      }
    }
  }

  /** In its lower half a space is the flat map of its own operations, whatever the other spaces do in between. */
  lemma LowerHalvesAreIsolated(s: Mm, shape: Shape, k: nat, ops: seq<Op>, q: nat, w: Path)
    requires Sound(s, shape, k) && LegalRun(s, shape, k, ops) && Target4(shape, q, w) && w.i4 < KERNEL_HALF
    ensures Walk(RunOps(s, k, ops).ram, q, w) == FlatRun(OwnLog(s, k, ops, q), w, Walk(s.ram, q, w))
  {
    RunIsFlat(s, shape, k, ops, q, w);
    LowerLogIsOwn(s, shape, k, ops, q, w.i4);
  }

  /** Every operation is on a space that existed at the start. */
  ghost predicate OnSpaces(ops: seq<Op>, shape: Shape) {
    forall op <- ops :: !op.SpaceOp? ==> IsRoot(shape, op.root)
  }

  /** The operations of a run on spaces that shared slot `i` with `q` when the run began. */
  ghost function SharersLog(s: Mm, k: nat, ops: seq<Op>, q: nat, i: Index): seq<(Op, Result)> {
    if ops == [] then []
    else
      var init, op := ops[..|ops| - 1], ops[|ops| - 1];
      SharersLog(s, k, init, q, i)
        + if !op.SpaceOp? && Sees(s.ram, op.root, q, i) then [(op, ResultOf(RunOps(s, k, init), k, op))] else []
  }

  lemma {:induction false} LogIsSharers(s: Mm, shape: Shape, k: nat, ops: seq<Op>, q: nat, i: Index)
    requires Sound(s, shape, k) && LegalRun(s, shape, k, ops) && OnSpaces(ops, shape) && IsRoot(shape, q) && i != RECURSIVE_INDEX
    ensures Log(s, k, ops, q, i) == SharersLog(s, k, ops, q, i)
  {
    if ops != [] {
      var init, op := ops[..|ops| - 1], ops[|ops| - 1];
      assert op in ops && forall o <- init :: o in ops;
      LogIsSharers(s, shape, k, init, q, i);
      if !op.SpaceOp? {
        SharingNeverChanges(s, shape, k, init, op.root, q, i);
      }
    }
  }

  /** In any slot a space is the flat map of the operations on the spaces that share the slot with it, from start to end. */
  lemma SharersActAlike(s: Mm, shape: Shape, k: nat, ops: seq<Op>, q: nat, w: Path)
    requires Sound(s, shape, k) && LegalRun(s, shape, k, ops) && OnSpaces(ops, shape) && Target4(shape, q, w)
    ensures Walk(RunOps(s, k, ops).ram, q, w) == FlatRun(SharersLog(s, k, ops, q, w.i4), w, Walk(s.ram, q, w))
  {
    RunIsFlat(s, shape, k, ops, q, w);
    LogIsSharers(s, shape, k, ops, q, w.i4);
  }

  /** A space sees every operation on itself. */
  lemma OwnStep(s: Mm, k: nat, ops: seq<Op>, q: nat, w: Path, leaf: Option<Leaf>)
    requires ops != [] && !ops[|ops| - 1].SpaceOp? && ops[|ops| - 1].root == q
    ensures var init, op := ops[..|ops| - 1], ops[|ops| - 1];
      FlatRun(Log(s, k, ops, q, w.i4), w, leaf) ==
        FlatStep(op, ResultOf(RunOps(s, k, init), k, op), w, FlatRun(Log(s, k, init, q, w.i4), w, leaf))
  {
    var init, op := ops[..|ops| - 1], ops[|ops| - 1];
    var log := Log(s, k, init, q, w.i4);
    assert (log + [(op, ResultOf(RunOps(s, k, init), k, op))])[..|log|] == log;
  }
}
