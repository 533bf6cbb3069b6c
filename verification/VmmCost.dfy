/** What mapping costs: the tables that are absent decide, before the call, how it will end. */
module VmmCost {
  import opened Bits
  import opened PmmSpec
  import opened PageTables
  import opened VmmSpec
  import opened VmmFlat
  import opened VmmShare
  import opened VmmPages

  // ---- the tables of a path ----

  predicate HasPdpt(ram: Ram, r: nat, p: Path) {
    Next(ram, r, p.i4).Some?
  }

  predicate HasPd(ram: Ram, r: nat, p: Path) {
    PdOf(ram, r, p).Some?
  }

  predicate HasPt(ram: Ram, r: nat, p: Path) {
    HasPd(ram, r, p) && Present(Entry(ram, PdOf(ram, r, p).value, p.i2))
  }

  /** The tables of the upper two levels that are absent on the path, each named by what it is for. */
  function UpperNeeds(ram: Ram, r: nat, p: Path): set<Node> {
    (if HasPdpt(ram, r, p) then {} else {Pdpt(r, p.i4)}) + (if HasPd(ram, r, p) then {} else {Pd(r, p.i4, p.i3)})
  }

  /** All absent tables on the path. */
  function Needs(ram: Ram, r: nat, p: Path): set<Node> {
    UpperNeeds(ram, r, p) + (if HasPt(ram, r, p) then {} else {Pt(r, p.i4, p.i3, p.i2)})
  }

  lemma NeedsCount(ram: Ram, r: nat, p: Path)
    ensures |Needs(ram, r, p)| == Missing(ram, r, p)
    ensures |UpperNeeds(ram, r, p)| == if HasPd(ram, r, p) then 0 else if HasPdpt(ram, r, p) then 1 else 2
  {
    LevelsCount(Pdpt(r, p.i4), Pd(r, p.i4, p.i3), Pt(r, p.i4, p.i3, p.i2), HasPdpt(ram, r, p), HasPd(ram, r, p), HasPt(ram, r, p));
  }

  /** A table is absent below an absent one. */
  lemma LevelsCount(a: Node, b: Node, c: Node, hasA: bool, hasB: bool, hasC: bool)
    requires a != b && b != c && a != c && (hasB ==> hasA) && (hasC ==> hasB)
    ensures var upper := (if hasA then {} else {a}) + (if hasB then {} else {b});
      && |upper| == (if hasB then 0 else if hasA then 1 else 2)
      && |upper + (if hasC then {} else {c})| == (if hasC then 0 else if hasB then 1 else if hasA then 2 else 3)
  {
    var upper := (if hasA then {} else {a}) + (if hasB then {} else {b});
    assert upper == if hasB then {} else if hasA then {b} else {a, b};
    if !hasC { assert upper + {c} == if hasB then {c} else if hasA then {b, c} else {a, b, c}; }
  }

  // ---- what one map leaves to be created ----

  /** Which tables exist after tables were created on the path of `p`, down to the level given. */
  ghost predicate Created(ram: Ram, ram': Ram, r: nat, p: Path, pdpt: bool, pd: bool, pt: bool) {
    forall w: Path :: w.i4 != RECURSIVE_INDEX ==>
      && (HasPdpt(ram', r, w) <==> HasPdpt(ram, r, w) || (pdpt && w.i4 == p.i4))
      && (HasPd(ram', r, w) <==> HasPd(ram, r, w) || (pd && w.i4 == p.i4 && w.i3 == p.i3))
      && (HasPt(ram', r, w) <==> HasPt(ram, r, w) || (pt && SameRegion(p, w)))
  }

  lemma CreatePdpt(s: Mm, shape: Shape, k: nat, r: nat, p: Path)
    requires Sound(s, shape, k) && Target4(shape, r, p) && GetOrCreate(s, r, p.i4).1.Some?
    ensures Created(s.ram, GetOrCreate(s, r, p.i4).0.ram, r, p, true, false, false)
  {
    var ram' := GetOrCreate(s, r, p.i4).0.ram;
    AllocPageIsFresh(s.pmm);
    GetOrCreateLinks(s, shape, k, r, p.i4);
    ZeroIsAbsent();
    forall w: Path | w.i4 != RECURSIVE_INDEX
      ensures HasPdpt(ram', r, w) <==> HasPdpt(s.ram, r, w) || w.i4 == p.i4
      ensures HasPd(ram', r, w) <==> HasPd(s.ram, r, w)
      ensures HasPt(ram', r, w) <==> HasPt(s.ram, r, w)
    {
      WalkLabels(s.ram, shape, k, r, w);
    }
  }

  /** An empty page directory hung into the table of `p` below the root. */
  lemma HangPd(ram: Ram, shape: Shape, k: nat, r: nat, p: Path, f: nat, w: Path)
    requires TreeOk(ram, shape, k) && Target4(shape, r, p) && Target4(shape, r, w) && f !in shape
    requires HasPdpt(ram, r, p) && !HasPd(ram, r, p)
    ensures var ram' := Put(ram[f := Zeros(ENTRIES)], Next(ram, r, p.i4).value, p.i3, TableWord(f));
      && (HasPdpt(ram', r, w) <==> HasPdpt(ram, r, w))
      && (HasPd(ram', r, w) <==> HasPd(ram, r, w) || (w.i4 == p.i4 && w.i3 == p.i3))
      && (HasPt(ram', r, w) <==> HasPt(ram, r, w))
  {
    TableWordFields(f);
    ZeroIsAbsent();
    WalkLabels(ram, shape, k, r, p);
    WalkLabels(ram, shape, k, r, w);
    var ram' := Put(ram[f := Zeros(ENTRIES)], Next(ram, r, p.i4).value, p.i3, TableWord(f));
    assert Next(ram', r, w.i4) == Next(ram, r, w.i4);
  }

  lemma CreatePd(s: Mm, shape: Shape, k: nat, r: nat, p: Path)
    requires Sound(s, shape, k) && Target4(shape, r, p) && HasPdpt(s.ram, r, p)
    requires GetOrCreate(s, Next(s.ram, r, p.i4).value, p.i3).1.Some?
    ensures Created(s.ram, GetOrCreate(s, Next(s.ram, r, p.i4).value, p.i3).0.ram, r, p, false, true, false)
  {
    if HasPd(s.ram, r, p) {
      forall w: Path | w.i4 == p.i4 && w.i3 == p.i3 ensures HasPd(s.ram, r, w) {}
    } else {
      AllocPageIsFresh(s.pmm);
      forall w: Path | w.i4 != RECURSIVE_INDEX {
        HangPd(s.ram, shape, k, r, p, AllocPage(s.pmm).1.value, w);
      }
    }
  }

  /** An empty page table hung into the directory of `p`. */
  lemma HangPt(ram: Ram, shape: Shape, k: nat, r: nat, p: Path, f: nat, w: Path)
    requires TreeOk(ram, shape, k) && Target4(shape, r, p) && Target4(shape, r, w) && HasPd(ram, r, p) && f !in shape
    ensures var ram' := Put(ram[f := Zeros(ENTRIES)], PdOf(ram, r, p).value, p.i2, TableWord(f));
      && (HasPdpt(ram', r, w) <==> HasPdpt(ram, r, w))
      && (HasPd(ram', r, w) <==> HasPd(ram, r, w))
      && (HasPt(ram', r, w) <==> HasPt(ram, r, w) || SameRegion(p, w))
  {
    TableWordFields(f);
    WalkLabels(ram, shape, k, r, p);
    WalkLabels(ram, shape, k, r, w);
    var pd := PdOf(ram, r, p).value;
    var ram' := Put(ram[f := Zeros(ENTRIES)], pd, p.i2, TableWord(f));
    assert Next(ram', r, w.i4) == Next(ram, r, w.i4);
    assert PdOf(ram', r, w) == PdOf(ram, r, w);
  }

  lemma CreatePt(s: Mm, shape: Shape, k: nat, r: nat, p: Path)
    requires Sound(s, shape, k) && Target4(shape, r, p) && HasPd(s.ram, r, p)
    requires GetOrCreate(s, PdOf(s.ram, r, p).value, p.i2).1.Some?
    ensures Created(s.ram, GetOrCreate(s, PdOf(s.ram, r, p).value, p.i2).0.ram, r, p, false, false, true)
  {
    if HasPt(s.ram, r, p) {
      forall w: Path | w.i4 != RECURSIVE_INDEX && SameRegion(p, w) ensures HasPt(s.ram, r, w) {}
    } else {
      AllocPageIsFresh(s.pmm);
      forall w: Path | w.i4 != RECURSIVE_INDEX {
        HangPt(s.ram, shape, k, r, p, AllocPage(s.pmm).1.value, w);
      }
    }
  }

  lemma EnsurePdCreates(s: Mm, shape: Shape, k: nat, r: nat, p: Path)
    requires Sound(s, shape, k) && Target4(shape, r, p) && EnsurePd(s, r, p).1.Some?
    ensures Created(s.ram, EnsurePd(s, r, p).0.ram, r, p, true, true, false)
  {
    CreatePdpt(s, shape, k, r, p);
    GetOrCreateKeepsSound(s, shape, k, r, p.i4);
    GetOrCreateLinks(s, shape, k, r, p.i4);
    CreatePd(GetOrCreate(s, r, p.i4).0, ShapeCreate(s, shape, r, p.i4), k, r, p);
  }

  lemma MapPageCreates(s: Mm, shape: Shape, k: nat, r: nat, p: Path, phys: nat, flags: nat)
    requires Sound(s, shape, k) && Target4(shape, r, p) && !HugeCovered(s.ram, r, p) && MapPage(s, r, p, phys, flags).1
    ensures Created(s.ram, MapPage(s, r, p, phys, flags).0.ram, r, p, true, true, true)
  {
    EnsurePdCreates(s, shape, k, r, p);
    EnsurePdKeepsSound(s, shape, k, r, p);
    PdSlotIsUsable(s, shape, k, r, p);
    EnsurePtKeepsSound(s, shape, k, r, p);
    var (s1, _) := EnsurePd(s, r, p);
    var (s2, pt) := EnsurePt(s, r, p);
    CreatePt(s1, ShapePd(s, shape, r, p), k, r, p);
    LeafKeepsTables(s2.ram, ShapeMap(s, shape, r, p), k, r, p, SmallEntry(phys, flags));
  }

  lemma LeafKeepsTables(ram: Ram, shape: Shape, k: nat, r: nat, p: Path, e: nat)
    requires TreeOk(ram, shape, k) && Target4(shape, r, p) && PtOf(ram, r, p).Some?
    ensures Created(ram, Put(ram, PtOf(ram, r, p).value, p.i1, e), r, p, false, false, false)
  {
    var pt := PtOf(ram, r, p).value;
    WalkLabels(ram, shape, k, r, p);
    forall w: Path | w.i4 != RECURSIVE_INDEX
      ensures HasPdpt(Put(ram, pt, p.i1, e), r, w) <==> HasPdpt(ram, r, w)
      ensures HasPd(Put(ram, pt, p.i1, e), r, w) <==> HasPd(ram, r, w)
      ensures HasPt(Put(ram, pt, p.i1, e), r, w) <==> HasPt(ram, r, w)
    {
      WalkLabels(ram, shape, k, r, w);
      LeafWriteKeepsPd(ram, shape, k, pt, p.i1, e, r, w);
    }
  }

  /** After a map only the tables that it did not create are still needed. */
  lemma NeedsAfter(ram: Ram, ram': Ram, r: nat, p: Path, w: Path)
    requires Created(ram, ram', r, p, true, true, true) && w.i4 != RECURSIVE_INDEX
    ensures Needs(ram', r, w) == Needs(ram, r, w) - Needs(ram, r, p)
  {
    assert Pdpt(r, w.i4) == Pdpt(r, p.i4) <==> w.i4 == p.i4;
  }

  // ---- a range ----

  /** The absent tables along the first paths of a range. */
  function Absent(ram: Ram, r: nat, paths: seq<Path>): set<Node> {
    if paths == [] then {} else Absent(ram, r, paths[..|paths| - 1]) + Needs(ram, r, paths[|paths| - 1])
  }

  /** Frames that mapping all of `paths` takes: one for each page and one for each absent table. */
  function Cost(ram: Ram, r: nat, paths: seq<Path>): nat {
    |paths| + |Absent(ram, r, paths)|
  }

  lemma CardinalitySum<T>(a: set<T>, b: set<T>)
    ensures |a + b| == |a| + |b - a|
  {
    assert a + b == a + (b - a);
  }

  lemma CostLast(ram: Ram, r: nat, paths: seq<Path>)
    requires paths != []
    ensures var init, p := paths[..|paths| - 1], paths[|paths| - 1];
      Cost(ram, r, paths) == Cost(ram, r, init) + 1 + |Needs(ram, r, p) - Absent(ram, r, init)|
  {
    CardinalitySum(Absent(ram, r, paths[..|paths| - 1]), Needs(ram, r, paths[|paths| - 1]));
  }

  lemma CostNext(ram: Ram, r: nat, paths: seq<Path>, j: nat)
    requires j < |paths|
    ensures Cost(ram, r, paths[..j]) < Cost(ram, r, paths[..j + 1])
  {
    CostLast(ram, r, paths[..j + 1]);
    assert paths[..j + 1][..j] == paths[..j];
  }

  lemma {:induction false} CostGrows(ram: Ram, r: nat, paths: seq<Path>, i: nat, j: nat)
    requires i <= j <= |paths|
    ensures Cost(ram, r, paths[..i]) + (j - i) <= Cost(ram, r, paths[..j])
  {
    if i < j {
      CostGrows(ram, r, paths, i, j - 1);
      CostNext(ram, r, paths, j - 1);
    }
  }

  /** While the loop succeeds it has spent exactly the cost, and needs exactly what was absent and is not yet created. */
  ghost predicate Spent(s: Mm, r: nat, done: seq<Path>, s': Mm) {
    && FreeCount(s'.pmm) + Cost(s.ram, r, done) == FreeCount(s.pmm)
    && forall w: Path :: w.i4 != RECURSIVE_INDEX ==> Needs(s'.ram, r, w) == Needs(s.ram, r, w) - Absent(s.ram, r, done)
  }

  /** How far the money goes. */
  ghost predicate Decided(s: Mm, r: nat, paths: seq<Path>, pr: Progress) {
    var free, j := FreeCount(s.pmm), |pr.frames|;
    && j <= |paths|
    && (pr.outcome.Mapped? ==> j == |paths| && Spent(s, r, paths, pr.s))
    && (pr.outcome.NoDataPage? ==> j < |paths| && Cost(s.ram, r, paths[..j]) == free)
    && (pr.outcome.NoTable? ==> j < |paths| && Cost(s.ram, r, paths[..j]) < free < Cost(s.ram, r, paths[..j + 1]))
  }

  lemma {:induction false} LoopIsDecided(s: Mm, shape: Shape, k: nat, r: nat, paths: seq<Path>, flags: nat)
    requires Sound(s, shape, k) && IsRoot(shape, r) && UsableRange(s.ram, r, paths)
    ensures Decided(s, r, paths, MapLoop(s, r, paths, flags))
  {
    if paths != [] {
      var n := |paths| - 1;
      var pr := MapLoop(s, r, paths[..n], flags);
      MapLoopCounts(s, r, paths[..n], flags);
      LoopIsDecided(s, shape, k, r, paths[..n], flags);
      if pr.outcome.Mapped? {
        MapLoopState(s, shape, k, r, r, paths[..n], flags);
        LastIsSmall(s.ram, pr.s.ram, r, paths, pr.frames, flags);
        assert Labelled(ShapeLoop(s, shape, r, paths[..n], flags), r, Pml4) && paths[n] in paths;
        StepIsDecided(s, k, r, paths, flags, pr, ShapeLoop(s, shape, r, paths[..n], flags));
      } else {
        StaysDecided(s, r, paths, pr);
      }
    }
  }

  lemma StaysDecided(s: Mm, r: nat, paths: seq<Path>, pr: Progress)
    requires paths != [] && Decided(s, r, paths[..|paths| - 1], pr) && !pr.outcome.Mapped?
    ensures Decided(s, r, paths, pr)
  {
    var init := paths[..|paths| - 1];
    assert init[..|pr.frames|] == paths[..|pr.frames|];
    assert init[..|pr.frames| + 1] == paths[..|pr.frames| + 1];
  }

  lemma StepIsDecided(s: Mm, k: nat, r: nat, paths: seq<Path>, flags: nat, pr: Progress, shape': Shape)
    requires paths != [] && pr.outcome.Mapped? && |pr.frames| == |paths| - 1 && Spent(s, r, paths[..|paths| - 1], pr.s)
    requires Sound(pr.s, shape', k) && Target4(shape', r, paths[|paths| - 1]) && !HugeCovered(pr.s.ram, r, paths[|paths| - 1])
    ensures Decided(s, r, paths, MapNext(pr, r, paths[|paths| - 1], flags))
  {
    var p := paths[|paths| - 1];
    var pr' := MapNext(pr, r, p, flags);
    CostLast(s.ram, r, paths);
    MapNextCosts(shape', k, r, p, flags, pr);
    if pr'.outcome.Mapped? {
      SpentOn(s.ram, pr.s.ram, pr'.s.ram, r, paths);
    }
    NextIsDecided(s, r, paths, pr, pr', |Needs(pr.s.ram, r, p)|);
  }

  lemma NextIsDecided(s: Mm, r: nat, paths: seq<Path>, pr: Progress, pr': Progress, need: nat)
    requires paths != [] && |pr.frames| == |paths| - 1
    requires var free, before := FreeCount(pr.s.pmm), Cost(s.ram, r, paths[..|paths| - 1]);
      && free + before == FreeCount(s.pmm) && Cost(s.ram, r, paths) == before + 1 + need
      && |pr'.frames| == |pr.frames| + (if pr'.outcome.Mapped? then 1 else 0)
      && (pr'.outcome.NoDataPage? ==> free == 0)
      && (pr'.outcome.NoTable? ==> 0 < free < 1 + need)
    requires pr'.outcome.Mapped? ==> Spent(s, r, paths, pr'.s)
    ensures Decided(s, r, paths, pr')
  {
    Prefixes(paths);
  }

  /** One iteration: a data frame, and the frames of the tables that its page needs. */
  lemma MapNextCosts(shape: Shape, k: nat, r: nat, p: Path, flags: nat, pr: Progress)
    requires Sound(pr.s, shape, k) && Target4(shape, r, p) && !HugeCovered(pr.s.ram, r, p)
    ensures var pr', free, need := MapNext(pr, r, p, flags), FreeCount(pr.s.pmm), |Needs(pr.s.ram, r, p)|;
      && |pr'.frames| == |pr.frames| + (if pr'.outcome.Mapped? then 1 else 0)
      && (pr'.outcome.NoDataPage? ==> free == 0)
      && (pr'.outcome.NoTable? ==> 0 < free < 1 + need)
      && (pr'.outcome.Mapped? ==> FreeCount(pr'.s.pmm) + 1 + need == free && Created(pr.s.ram, pr'.s.ram, r, p, true, true, true))
  {
    AllocPageIsFresh(pr.s.pmm);
    AllocPageCounts(pr.s.pmm);
    match AllocPage(pr.s.pmm)
    case (_, None) =>
    case (pmm, Some(f)) => MapIsDecided(Mm(pr.s.ram, pmm), shape, k, r, p, f * PAGE_SIZE, flags);
  }

  lemma Prefixes<T>(s: seq<T>)
    requires s != []
    ensures s[..|s| - 1][..|s| - 1] == s[..|s| - 1] && s[..|s|] == s
  {
  }

  /** One map: it takes the frames of the tables it needs, or fails for want of one. */
  lemma MapIsDecided(s: Mm, shape: Shape, k: nat, r: nat, p: Path, phys: nat, flags: nat)
    requires Sound(s, shape, k) && Target4(shape, r, p) && !HugeCovered(s.ram, r, p)
    ensures var (s', ok) := MapPage(s, r, p, phys, flags);
      && (ok <==> |Needs(s.ram, r, p)| <= FreeCount(s.pmm))
      && (ok ==> FreeCount(s'.pmm) + |Needs(s.ram, r, p)| == FreeCount(s.pmm) && Created(s.ram, s'.ram, r, p, true, true, true))
  {
    NeedsCount(s.ram, r, p);
    MapPageSucceeds(s, shape, k, r, p, phys, flags);
    if MapPage(s, r, p, phys, flags).1 {
      MapPageCreates(s, shape, k, r, p, phys, flags);
    }
  }

  /** The needs that are left after one more map. */
  lemma SpentOn(ram0: Ram, ram: Ram, ram': Ram, r: nat, paths: seq<Path>)
    requires paths != [] && paths[|paths| - 1].i4 != RECURSIVE_INDEX
    requires Created(ram, ram', r, paths[|paths| - 1], true, true, true)
    requires forall w: Path :: w.i4 != RECURSIVE_INDEX ==> Needs(ram, r, w) == Needs(ram0, r, w) - Absent(ram0, r, paths[..|paths| - 1])
    ensures forall w: Path :: w.i4 != RECURSIVE_INDEX ==> Needs(ram', r, w) == Needs(ram0, r, w) - Absent(ram0, r, paths)
  {
    forall w: Path | w.i4 != RECURSIVE_INDEX ensures Needs(ram', r, w) == Needs(ram0, r, w) - Absent(ram0, r, paths) {
      NeedsAfter(ram, ram', r, paths[|paths| - 1], w);
    }
  }

  /** Where prefixes of different lengths stand. */
  lemma CostOrder(ram: Ram, r: nat, paths: seq<Path>, i: nat, j: nat)
    requires i < j <= |paths|
    ensures Cost(ram, r, paths[..i]) < Cost(ram, r, paths[..i + 1]) <= Cost(ram, r, paths[..j]) <= Cost(ram, r, paths)
  {
    CostNext(ram, r, paths, i);
    CostGrows(ram, r, paths, i + 1, j);
    CostGrows(ram, r, paths, j, |paths|);
    assert paths[..|paths|] == paths;
  }

  /** The allocator runs dry at a table of page `j`: its data frame can be had, not all of its tables. */
  ghost predicate TableMissingAt(s: Mm, r: nat, paths: seq<Path>, j: nat) {
    j < |paths| && Cost(s.ram, r, paths[..j]) < FreeCount(s.pmm) < Cost(s.ram, r, paths[..j + 1])
  }

  /** Costs grow from prefix to prefix, so only one place fits the outcome. */
  lemma OutcomeAt(s: Mm, r: nat, paths: seq<Path>, pr: Progress, j: nat)
    requires Decided(s, r, paths, pr) && (pr.outcome.Mapped? ==> Cost(s.ram, r, paths) <= FreeCount(s.pmm)) && j < |paths|
    ensures pr.outcome.Mapped? <==> Cost(s.ram, r, paths) <= FreeCount(s.pmm)
    ensures pr.outcome.NoDataPage? && |pr.frames| == j <==> Cost(s.ram, r, paths[..j]) == FreeCount(s.pmm)
    ensures pr.outcome.NoTable? && |pr.frames| == j <==> TableMissingAt(s, r, paths, j)
  {
    var n := |pr.frames|;
    CostOrder(s.ram, r, paths, j, |paths|);
    if n < |paths| { CostOrder(s.ram, r, paths, n, |paths|); }
    if n < j { CostOrder(s.ram, r, paths, n, j); } else if j < n { CostOrder(s.ram, r, paths, j, n); }
  }

  /**
   * Before the call the free frames and the absent tables decide how vmm_map_pages ends, and after how
   * many pages: it succeeds, misses a data page, or misses a table.
   */
  lemma MapPagesIsDecided(s: Mm, shape: Shape, k: nat, r: nat, paths: seq<Path>, flags: nat, j: nat)
    requires Sound(s, shape, k) && IsRoot(shape, r) && UsableRange(s.ram, r, paths) && j < |paths|
    ensures var pr, free := MapPages(s, r, paths, flags), FreeCount(s.pmm);
      && (pr.outcome.Mapped? <==> Cost(s.ram, r, paths) <= free)
      && (pr.outcome.NoDataPage? && |pr.frames| == j <==> Cost(s.ram, r, paths[..j]) == free)
      && (pr.outcome.NoTable? && |pr.frames| == j <==> TableMissingAt(s, r, paths, j))
  {
    LoopIsDecided(s, shape, k, r, paths, flags);
    OutcomeAt(s, r, paths, MapLoop(s, r, paths, flags), j);
  }

  /**
   * A call that must fail leaves a page mapped that was not mapped before exactly when the frames run out
   * at a table of some later page.
   */
  lemma FailureLeavesPages(s: Mm, shape: Shape, k: nat, r: nat, paths: seq<Path>, flags: nat, i: nat)
    requires Sound(s, shape, k) && IsRoot(shape, r) && UsableRange(s.ram, r, paths) && Present(flags)
    requires FreeCount(s.pmm) < Cost(s.ram, r, paths) && i < |paths| && Walk(s.ram, r, paths[i]).None?
    ensures Walk(MapPages(s, r, paths, flags).s.ram, r, paths[i]).Some? <==> exists j :: i < j && TableMissingAt(s, r, paths, j)
  {
    var pr := MapPages(s, r, paths, flags);
    var n := |pr.frames|;
    MapPagesEffect(s, shape, k, r, paths, flags, r);
    MapPagesIsDecided(s, shape, k, r, paths, flags, i);
    forall j | i < j && TableMissingAt(s, r, paths, j) ensures pr.outcome.NoTable? && n == j {
      MapPagesIsDecided(s, shape, k, r, paths, flags, j);
    }
    assert paths[i] in paths;
    if i < n {
      MapPagesIsDecided(s, shape, k, r, paths, flags, n);
      BitOr(Target(pr.frames[i] * PAGE_SIZE) * PAGE_SIZE, flags, 0);
    } else {
      assert paths[i] !in paths[..n];
    }
  }

  // ---- such a call ----

  /** Five free frames, and one empty top-level table in frame 1. */
  function FiveFrames(): Mm {
    Mm(map[], [Zone(1, 7, 6, 5, [true, false, false, false, false, false]), EmptyZone, EmptyZone])
  }

  lemma FiveFramesIsSound()
    ensures Sound(FiveFrames(), map[1 := Pml4], 1) && FreeCount(FiveFrames().pmm) == 5
    ensures forall w: Path :: Needs(FiveFrames().ram, 1, w) == {Pdpt(1, w.i4), Pd(1, w.i4, w.i3), Pt(1, w.i4, w.i3, w.i2)}
    ensures forall w: Path :: Walk(FiveFrames().ram, 1, w) == None
  {
    ZeroIsAbsent();
    var s, shape := FiveFrames(), map[1 := Pml4];
    FiveClear();
    forall f, i: Index | f in shape ensures EntryOk(s.ram, shape, 1, f, i) {
      assert Entry(s.ram, 1, i) == 0;
    }
  }

  lemma CountOneMore(used: seq<bool>, b: bool)
    ensures CountClear(used + [b]) == CountClear(used) + if b then 0 else 1
  {
    assert (used + [b])[..|used|] == used;
  }

  lemma FiveClear()
    ensures CountClear([true, false, false, false, false, false]) == 5
  {
    var one: seq<bool> := [true];
    var two, three := one + [false], one + [false] + [false];
    var four, five := three + [false], three + [false] + [false];
    CountOneMore([], true);
    assert [] + [true] == one;
    CountOneMore(one, false);
    CountOneMore(two, false);
    CountOneMore(three, false);
    CountOneMore(four, false);
    CountOneMore(five, false);
    assert five + [false] == [true, false, false, false, false, false];
  }

  /**
   * Mapping the two pages at 0x1FF000 with five free frames: the first takes four, the second gets a data
   * frame but no page table. The call reports failure, and the first page stays mapped.
   */
  lemma FailedCallLeavesAPage(flags: nat)
    requires Present(flags)
    ensures var s, paths := FiveFrames(), PagePaths(0x1F_F000, 2); var pr := MapPages(s, 1, paths, flags);
      && Sound(s, map[1 := Pml4], 1) && UsableRange(s.ram, 1, paths)
      && pr.outcome.NoTable? && |pr.frames| == 1
      && Walk(s.ram, 1, paths[0]).None? && Walk(pr.s.ram, 1, paths[0]).Some?
  {
    var s, paths := FiveFrames(), PagePaths(0x1F_F000, 2);
    var p, w := Path(0, 0, 0, 511), Path(0, 0, 1, 0);
    FiveFramesIsSound();
    TwoPages();
    HugeCoveredIsHugeLeaf(s.ram, 1, p);
    HugeCoveredIsHugeLeaf(s.ram, 1, w);
    CostOfTwo(p, w);
    assert paths[..1] == [p] && paths[..2] == [p, w];
    MapPagesIsDecided(s, map[1 := Pml4], 1, 1, paths, flags, 1);
    FailureLeavesPages(s, map[1 := Pml4], 1, 1, paths, flags, 0);
  }

  lemma TwoPages()
    ensures PagePaths(0x1F_F000, 2) == [Path(0, 0, 0, 511), Path(0, 0, 1, 0)]
  {
    assert PageAddr(0x1F_F000, 0) == 0x1F_F000 && PageAddr(0x1F_F000, 1) == 0x20_0000;
  }

  lemma CostOfTwo(p: Path, w: Path)
    requires p.i4 == w.i4 && p.i3 == w.i3 && p.i2 != w.i2
    ensures Cost(FiveFrames().ram, 1, [p]) == 4 && Cost(FiveFrames().ram, 1, [p, w]) == 6
  {
    var ram := FiveFrames().ram;
    FiveFramesIsSound();
    CostLast(ram, 1, [p]);
    CostLast(ram, 1, [p, w]);
    assert [p][..0] == [] && [p, w][..1] == [p];
    assert Absent(ram, 1, [p]) == Needs(ram, 1, p);
    assert Needs(ram, 1, w) - Needs(ram, 1, p) == {Pt(1, w.i4, w.i3, w.i2)};
    NeedsCount(ram, 1, p);
    assert Missing(ram, 1, p) == 3 by { ZeroIsAbsent(); }
  }
}
