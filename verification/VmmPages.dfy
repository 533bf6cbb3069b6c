/** vmm_map_pages: a range of fresh frames, with its two different failure paths. */
module VmmPages {
  import opened Bits
  import opened PmmSpec
  import opened PageTables
  import opened VmmSpec
  import opened VmmFlat
  import opened VmmShare

  // ---- addresses ----

  /** The pages of the 48-bit address space. */
  const PAGES := 0x10_0000_0000

  /** `v + i * PAGE_SIZE` in 64-bit arithmetic. */
  function PageAddr(v: nat, i: nat): nat {
    (v + i * PAGE_SIZE) % TWO64
  }

  /** The pages of `count` consecutive addresses. */
  function PagePaths(v: nat, count: nat): seq<Path> {
    seq(count, i requires 0 <= i < count => PathOf(PageAddr(v, i)))
  }

  /** Four indices name a page: bits 12 to 47 of the address, and no more. */
  lemma PathsNamePages(a: nat, b: nat)
    ensures PathOf(a) == PathOf(b) <==> a / PAGE_SIZE % PAGES == b / PAGE_SIZE % PAGES
  {
    PathDigits(a);
    PathDigits(b);
    if Digits(PathOf(a)) == Digits(PathOf(b)) {
      DigitsAreUnique(PathOf(a), PathOf(b));
    }
  }

  function Digits(p: Path): nat {
    ((p.i4 * ENTRIES + p.i3) * ENTRIES + p.i2) * ENTRIES + p.i1
  }

  lemma DigitsAreUnique(p: Path, w: Path)
    requires Digits(p) == Digits(w)
    ensures p == w
  {
    DigitsSplit((p.i4 * ENTRIES + p.i3) * ENTRIES + p.i2, p.i1, (w.i4 * ENTRIES + w.i3) * ENTRIES + w.i2, w.i1);
    DigitsSplit(p.i4 * ENTRIES + p.i3, p.i2, w.i4 * ENTRIES + w.i3, w.i2);
    DigitsSplit(p.i4, p.i3, w.i4, w.i3);
  }

  lemma DigitsSplit(a: nat, i: Index, b: nat, j: Index)
    requires a * ENTRIES + i == b * ENTRIES + j
    ensures a == b && i == j
  {
  }

  lemma PathDigits(a: nat)
    ensures a / PAGE_SIZE % PAGES == Digits(PathOf(a))
  {
    SplitDigits(a, PAGE_SIZE, ENTRIES);
    SplitDigits(a, PAGE_SIZE, ENTRIES * ENTRIES);
    SplitDigits(a, PAGE_SIZE, ENTRIES * ENTRIES * ENTRIES);
    DigitsOfPage(a / PAGE_SIZE);
  }

  lemma DigitsOfPage(n: nat)
    ensures n % PAGES ==
      ((n / (ENTRIES * ENTRIES * ENTRIES) % ENTRIES * ENTRIES + n / (ENTRIES * ENTRIES) % ENTRIES) * ENTRIES
        + n / ENTRIES % ENTRIES) * ENTRIES + n % ENTRIES
  {
    SplitDigits(n, ENTRIES, ENTRIES * ENTRIES * ENTRIES);
    SplitDigits(n / ENTRIES, ENTRIES, ENTRIES * ENTRIES);
    SplitDigits(n / ENTRIES / ENTRIES, ENTRIES, ENTRIES);
    SplitDigits(n, ENTRIES, ENTRIES);
    SplitDigits(n, ENTRIES * ENTRIES, ENTRIES);
  }

  /** At most 2^36 consecutive pages are all different. */
  lemma PagesAreDistinct(v: nat, count: nat)
    requires count <= PAGES
    ensures Distinct(PagePaths(v, count))
  {
    forall i, j | 0 <= i < j < count ensures PagePaths(v, count)[i] != PagePaths(v, count)[j] {
      PathsNamePages(PageAddr(v, i), PageAddr(v, j));
      PageNumber(v, i);
      PageNumber(v, j);
      CloseResidues(v / PAGE_SIZE + i, v / PAGE_SIZE + j);
    }
  }

  lemma CloseResidues(a: nat, b: nat)
    requires a < b < a + PAGES
    ensures a % PAGES != b % PAGES
  {
  }

  lemma PageNumber(v: nat, i: nat)
    ensures PageAddr(v, i) / PAGE_SIZE % PAGES == (v / PAGE_SIZE + i) % PAGES
  {
    var a := v + i * PAGE_SIZE;
    DivModUnique(a, PAGE_SIZE, v / PAGE_SIZE + i, v % PAGE_SIZE);
    SplitDigits(a, PAGE_SIZE, 0x10_0000_0000_0000);
    SplitDigits(a / PAGE_SIZE, PAGES, 0x1_0000);
  }

  // ---- the loop ----

  /** How the mapping loop ended: all mapped, or the allocator ran dry at a data page or at a table. */
  datatype Outcome = Mapped | NoDataPage | NoTable

  /** The loop so far; `frames` are the data frames of the pages it has mapped, in order. */
  datatype Progress = Progress(s: Mm, frames: seq<nat>, outcome: Outcome)

  function MapNext(pr: Progress, r: nat, p: Path, flags: nat): Progress {
    match AllocPage(pr.s.pmm)
    case (pmm, None) => Progress(Mm(pr.s.ram, pmm), pr.frames, NoDataPage)
    case (pmm, Some(f)) =>
      match MapPage(Mm(pr.s.ram, pmm), r, p, f * PAGE_SIZE, flags)
      case (s1, false) => Progress(s1, pr.frames, NoTable)
      case (s1, true) => Progress(s1, pr.frames + [f], Mapped)
  }

  function MapLoop(s: Mm, r: nat, paths: seq<Path>, flags: nat): Progress {
    if paths == [] then Progress(s, [], Mapped)
    else
      var pr := MapLoop(s, r, paths[..|paths| - 1], flags);
      if pr.outcome.Mapped? then MapNext(pr, r, paths[|paths| - 1], flags) else pr
  }

  /** The rollback loop. */
  function UnmapAll(ram: Ram, r: nat, paths: seq<Path>): Ram {
    if paths == [] then ram else Unmap(UnmapAll(ram, r, paths[..|paths| - 1]), r, paths[|paths| - 1])
  }

  lemma {:induction false} MapLoopCounts(s: Mm, r: nat, paths: seq<Path>, flags: nat)
    ensures |MapLoop(s, r, paths, flags).frames| <= |paths|
    ensures MapLoop(s, r, paths, flags).outcome.Mapped? <==> |MapLoop(s, r, paths, flags).frames| == |paths|
  {
    if paths != [] { MapLoopCounts(s, r, paths[..|paths| - 1], flags); }
  }

  /** vmm_map_pages rolls back when a data page is missing, but not when a table is. */
  function MapPages(s: Mm, r: nat, paths: seq<Path>, flags: nat): (pr: Progress)
    ensures |pr.frames| <= |paths|
  {
    MapLoopCounts(s, r, paths, flags);
    var pr := MapLoop(s, r, paths, flags);
    if pr.outcome.NoDataPage? then pr.(s := pr.s.(ram := UnmapAll(pr.s.ram, r, paths[..|pr.frames|]))) else pr
  }

  /** Every page of the range avoids the recursive slot and is not under a huge page. */
  ghost predicate UsableRange(ram: Ram, r: nat, paths: seq<Path>) {
    && Distinct(paths)
    && forall p :: p in paths ==> p.i4 != RECURSIVE_INDEX && !HugeCovered(ram, r, p)
  }

  /** The data frames are distinct, came from the allocator, and are not page tables. */
  ghost predicate FreshFrames(s: Mm, s': Mm, shape': Shape, frames: seq<nat>) {
    && (forall f :: f in frames ==> IsFree(s.pmm, f) && !IsFree(s'.pmm, f) && f !in shape')
    && Distinct(frames)
  }

  ghost predicate OnlyTaken(s: Mm, s': Mm) {
    forall f: nat :: IsFree(s'.pmm, f) ==> IsFree(s.pmm, f)
  }

  ghost function ShapeNext(pr: Progress, shape: Shape, r: nat, p: Path): Shape {
    match AllocPage(pr.s.pmm)
    case (_, None) => shape
    case (pmm, Some(f)) => ShapeMap(Mm(pr.s.ram, pmm), shape, r, p)
  }

  ghost function ShapeLoop(s: Mm, shape: Shape, r: nat, paths: seq<Path>, flags: nat): Shape {
    if paths == [] then shape
    else
      var pr := MapLoop(s, r, paths[..|paths| - 1], flags);
      var shape' := ShapeLoop(s, shape, r, paths[..|paths| - 1], flags);
      if pr.outcome.Mapped? then ShapeNext(pr, shape', r, paths[|paths| - 1]) else shape'
  }

  lemma CreateOnlyTakes(s: Mm, shape: Shape, k: nat, t: nat, i: Index)
    requires Sound(s, shape, k)
    ensures OnlyTaken(s, GetOrCreate(s, t, i).0)
    ensures forall f :: f in ShapeCreate(s, shape, t, i) ==> f in shape || IsFree(s.pmm, f)
  {
    AllocPageIsFresh(s.pmm);
  }

  /** Table creation only takes free frames, and only those become tables. */
  lemma MapOnlyTakes(s: Mm, shape: Shape, k: nat, r: nat, p: Path, phys: nat, flags: nat)
    requires Sound(s, shape, k) && Target4(shape, r, p) && !HugeCovered(s.ram, r, p)
    ensures OnlyTaken(s, MapPage(s, r, p, phys, flags).0)
    ensures forall f :: f in ShapeMap(s, shape, r, p) ==> f in shape || IsFree(s.pmm, f)
  {
    GetOrCreateKeepsSound(s, shape, k, r, p.i4);
    CreateOnlyTakes(s, shape, k, r, p.i4);
    EnsurePdKeepsSound(s, shape, k, r, p);
    match GetOrCreate(s, r, p.i4)
    case (_, None) =>
    case (s1, Some(pdpt)) =>
      CreateOnlyTakes(s1, ShapeCreate(s, shape, r, p.i4), k, pdpt, p.i3);
      match EnsurePd(s, r, p)
      case (_, None) =>
      case (s2, Some(pd)) => CreateOnlyTakes(s2, ShapePd(s, shape, r, p), k, pd, p.i2);
  }

  /** In the spaces that see them the mapped pages have their leaves; every other page has its original one. */
  ghost predicate LoopWalks(ram0: Ram, ram: Ram, r: nat, q: nat, paths: seq<Path>, frames: seq<nat>, flags: nat) {
    && |frames| <= |paths|
    && (forall w: Path :: w.i4 != RECURSIVE_INDEX && (w !in paths[..|frames|] || !Sees(ram0, r, q, w.i4)) ==>
          Walk(ram, q, w) == Walk(ram0, q, w))
    && (forall i :: 0 <= i < |frames| && Sees(ram0, r, q, paths[i].i4) ==>
          Walk(ram, q, paths[i]) == SmallLeaf(SmallEntry(frames[i] * PAGE_SIZE, flags)))
  }

  /** What the loop has established after some pages, observed from space `q`. */
  ghost predicate LoopState(s: Mm, shape: Shape, k: nat, r: nat, q: nat, paths: seq<Path>, flags: nat, pr: Progress, shape': Shape) {
    && Sound(pr.s, shape', k)
    && (forall f :: f in shape ==> Labelled(shape', f, shape[f]))
    && RootsKept(s.ram, pr.s.ram, shape, r)
    && OnlyTaken(s, pr.s)
    && FreshFrames(s, pr.s, shape', pr.frames)
    && LoopWalks(s.ram, pr.s.ram, r, r, paths, pr.frames, flags)
    && LoopWalks(s.ram, pr.s.ram, r, q, paths, pr.frames, flags)
  }

  ghost predicate Spaces(s: Mm, shape: Shape, k: nat, r: nat, q: nat) {
    Sound(s, shape, k) && IsRoot(shape, r) && IsRoot(shape, q)
  }

  lemma MapNextStep(s: Mm, shape: Shape, k: nat, r: nat, q: nat, paths: seq<Path>, flags: nat, pr: Progress, shape': Shape)
    requires Spaces(s, shape, k, r, q) && LoopState(s, shape, k, r, q, paths, flags, pr, shape')
    requires UsableRange(s.ram, r, paths) && |pr.frames| < |paths|
    ensures LoopState(s, shape, k, r, q, paths, flags,
                      MapNext(pr, r, paths[|pr.frames|], flags), ShapeNext(pr, shape', r, paths[|pr.frames|]))
  {
    var p := paths[|pr.frames|];
    AllocPageIsFresh(pr.s.pmm);
    match AllocPage(pr.s.pmm)
    case (_, None) =>
    case (pmm, Some(f)) =>
      var s1 := Mm(pr.s.ram, pmm);
      NotYetHuge(s.ram, s1.ram, r, paths, pr.frames, flags);
      MapPageKeepsSound(s1, shape', k, r, p, f * PAGE_SIZE, flags);
      MapOnlyTakes(s1, shape', k, r, p, f * PAGE_SIZE, flags);
      MapPageKeepsRoots(s1, shape', k, r, p, f * PAGE_SIZE, flags);
      RootsKeptOn(s.ram, s1.ram, MapPage(s1, r, p, f * PAGE_SIZE, flags).0.ram, shape, shape', r);
      WalksAfterNext(s, shape, k, r, r, paths, flags, pr, shape', f);
      WalksAfterNext(s, shape, k, r, q, paths, flags, pr, shape', f);
      FramesAfterNext(s, pr, shape', MapNext(pr, r, p, flags), ShapeNext(pr, shape', r, p), f);
  }

  lemma NotYetHuge(ram0: Ram, ram: Ram, r: nat, paths: seq<Path>, frames: seq<nat>, flags: nat)
    requires UsableRange(ram0, r, paths) && LoopWalks(ram0, ram, r, r, paths, frames, flags) && |frames| < |paths|
    ensures !HugeCovered(ram, r, paths[|frames|])
  {
    HugeCoveredIsHugeLeaf(ram0, r, paths[|frames|]);
    HugeCoveredIsHugeLeaf(ram, r, paths[|frames|]);
  }

  lemma RootsKeptOn(ram: Ram, ram1: Ram, ram2: Ram, shape: Shape, shape1: Shape, r: nat)
    requires RootsKept(ram, ram1, shape, r) && RootsKept(ram1, ram2, shape1, r)
    requires forall f :: f in shape ==> Labelled(shape1, f, shape[f])
    ensures RootsKept(ram, ram2, shape, r)
  {
    forall a, i: Index | IsRoot(shape, a) && i != RECURSIVE_INDEX
      ensures Entry(ram2, a, i) == Entry(ram, a, i)
           || (a == r && !Present(Entry(ram, a, i)) && Target(Entry(ram2, a, i)) !in shape)
    {
      assert Labelled(shape1, a, Pml4);
    }
  }

  lemma FramesAfterNext(s: Mm, pr: Progress, shape': Shape, pr': Progress, shape'': Shape, f: nat)
    requires FreshFrames(s, pr.s, shape', pr.frames) && OnlyTaken(s, pr.s) && OnlyTaken(pr.s, pr'.s)
    requires IsFree(pr.s.pmm, f) && !IsFree(pr'.s.pmm, f) && f !in shape''
    requires forall g :: g in shape'' ==> g in shape' || IsFree(pr.s.pmm, g)
    requires pr'.frames == pr.frames + (if pr'.outcome.Mapped? then [f] else [])
    ensures FreshFrames(s, pr'.s, shape'', pr'.frames)
  {
  }

  /** One map of the loop, through the walks of space `q`. */
  lemma WalksAfterNext(s: Mm, shape: Shape, k: nat, r: nat, q: nat, paths: seq<Path>, flags: nat, pr: Progress, shape': Shape, f: nat)
    requires Spaces(s, shape, k, r, q) && LoopState(s, shape, k, r, q, paths, flags, pr, shape')
    requires UsableRange(s.ram, r, paths) && |pr.frames| < |paths| && AllocPage(pr.s.pmm).1 == Some(f)
    ensures var pr' := MapNext(pr, r, paths[|pr.frames|], flags);
      LoopWalks(s.ram, pr'.s.ram, r, q, paths, pr'.frames, flags)
  {
    var n := |pr.frames|;
    var p, s1, pr' := paths[n], Mm(pr.s.ram, AllocPage(pr.s.pmm).0), MapNext(pr, r, paths[n], flags);
    AllocPageIsFresh(pr.s.pmm);
    NotYetHuge(s.ram, s1.ram, r, paths, pr.frames, flags);
    assert Labelled(shape', r, Pml4) && Labelled(shape', q, Pml4);
    forall w: Path | w.i4 != RECURSIVE_INDEX
      ensures Walk(pr'.s.ram, q, w) ==
        if pr'.outcome.Mapped? && w == p && Sees(s.ram, r, q, w.i4) then SmallLeaf(SmallEntry(f * PAGE_SIZE, flags))
        else Walk(pr.s.ram, q, w)
    {
      MapPageSeen(s1, shape', k, r, p, f * PAGE_SIZE, flags, q, w);
      SharingIsStatic(s.ram, s1.ram, shape, k, r, r, q, w.i4);
    }
    LeavesAfterNext(s.ram, r, q, paths, flags, pr, pr', f);
  }

  lemma LeavesAfterNext(ram0: Ram, r: nat, q: nat, paths: seq<Path>, flags: nat, pr: Progress, pr': Progress, f: nat)
    requires LoopWalks(ram0, pr.s.ram, r, q, paths, pr.frames, flags) && |pr.frames| < |paths| && Distinct(paths)
    requires forall p :: p in paths ==> p.i4 != RECURSIVE_INDEX
    requires pr'.frames == pr.frames + (if pr'.outcome.Mapped? then [f] else [])
    requires forall w: Path :: w.i4 != RECURSIVE_INDEX ==>
      Walk(pr'.s.ram, q, w) ==
        if pr'.outcome.Mapped? && w == paths[|pr.frames|] && Sees(ram0, r, q, w.i4) then SmallLeaf(SmallEntry(f * PAGE_SIZE, flags))
        else Walk(pr.s.ram, q, w)
    ensures LoopWalks(ram0, pr'.s.ram, r, q, paths, pr'.frames, flags)
  {
    var n := |pr.frames|;
    if pr'.outcome.Mapped? {
      assert paths[..n + 1] == paths[..n] + [paths[n]];
    }
    forall i | 0 <= i < |pr'.frames| && Sees(ram0, r, q, paths[i].i4)
      ensures Walk(pr'.s.ram, q, paths[i]) == SmallLeaf(SmallEntry(pr'.frames[i] * PAGE_SIZE, flags))
    {
      assert paths[i] in paths;
    }
  }

  lemma {:induction false} MapLoopState(s: Mm, shape: Shape, k: nat, r: nat, q: nat, paths: seq<Path>, flags: nat)
    requires Spaces(s, shape, k, r, q) && UsableRange(s.ram, r, paths)
    ensures LoopState(s, shape, k, r, q, paths, flags, MapLoop(s, r, paths, flags), ShapeLoop(s, shape, r, paths, flags))
  {
    if paths != [] {
      var init := paths[..|paths| - 1];
      var pr, shape' := MapLoop(s, r, init, flags), ShapeLoop(s, shape, r, init, flags);
      MapLoopCounts(s, r, init, flags);
      MapLoopState(s, shape, k, r, q, init, flags);
      assert init[..|pr.frames|] == paths[..|pr.frames|];
      if pr.outcome.Mapped? {
        MapNextStep(s, shape, k, r, q, paths, flags, pr, shape');
      }
    }
  }

  lemma LastIsSmall(ram0: Ram, ram: Ram, r: nat, paths: seq<Path>, frames: seq<nat>, flags: nat)
    requires UsableRange(ram0, r, paths) && |paths| == |frames| + 1
    requires LoopWalks(ram0, ram, r, r, paths[..|frames|], frames, flags)
    ensures !HugeCovered(ram, r, paths[|frames|])
  {
    var init, p := paths[..|frames|], paths[|frames|];
    assert init[..|frames|] == init && p !in init;
    HugeCoveredIsHugeLeaf(ram0, r, p);
    HugeCoveredIsHugeLeaf(ram, r, p);
  }

  // ---- rollback ----

  /** The rollback loop unmaps exactly its pages, in every space that sees them. */
  lemma {:induction false} UnmapAllEffect(ram: Ram, shape: Shape, k: nat, r: nat, paths: seq<Path>, q: nat)
    requires TreeOk(ram, shape, k) && IsRoot(shape, r) && IsRoot(shape, q) && UsableRange(ram, r, paths)
    ensures TreeOk(UnmapAll(ram, r, paths), shape, k) && RootsSame(ram, UnmapAll(ram, r, paths), shape)
    ensures forall w: Path :: w.i4 != RECURSIVE_INDEX ==>
      Walk(UnmapAll(ram, r, paths), q, w) == if w in paths && Sees(ram, r, q, w.i4) then None else Walk(ram, q, w)
  {
    if paths != [] {
      var init, p := paths[..|paths| - 1], paths[|paths| - 1];
      var ram1 := UnmapAll(ram, r, init);
      assert paths == init + [p];
      UnmapAllEffect(ram, shape, k, r, init, q);
      UnmapKeepsTree(ram1, shape, k, r, p);
      UnmapKeepsRoots(ram1, shape, k, r, p);
      forall w: Path | w.i4 != RECURSIVE_INDEX
        ensures Walk(UnmapAll(ram, r, paths), q, w) == if w in paths && Sees(ram, r, q, w.i4) then None else Walk(ram, q, w)
      {
        UnmapSeen(ram1, shape, k, r, p, q, w);
        SmallRegion(ram, shape, k, r, p, q, w);
        HugeCoveredIsHugeLeaf(ram1, q, w);
        HugeCoveredIsHugeLeaf(ram, q, w);
      }
    }
  }

  /** A region that is not a huge page in one space is none in the spaces that see it. */
  lemma SmallRegion(ram: Ram, shape: Shape, k: nat, r: nat, p: Path, q: nat, w: Path)
    requires TreeOk(ram, shape, k) && Target4(shape, r, p) && Target4(shape, q, w) && !HugeCovered(ram, r, p)
    ensures SameRegion(p, w) && Sees(ram, r, q, w.i4) ==> !HugeCovered(ram, q, w)
  {
  }

  /**
   * vmm_map_pages maps every page to its own fresh frame, or maps none of the range after running
   * out of data pages, or, after running out of table frames, leaves the pages it had mapped. Every space
   * sees the range as far as it shares it, and in every case the rest of every space is as it was.
   */
  lemma MapPagesEffect(s: Mm, shape: Shape, k: nat, r: nat, paths: seq<Path>, flags: nat, q: nat)
    requires Spaces(s, shape, k, r, q) && UsableRange(s.ram, r, paths)
    ensures var pr := MapPages(s, r, paths, flags);
      && Sound(pr.s, ShapeLoop(s, shape, r, paths, flags), k)
      && FreshFrames(s, pr.s, ShapeLoop(s, shape, r, paths, flags), pr.frames)
      && RootsKept(s.ram, pr.s.ram, shape, r)
      && (pr.outcome.Mapped? <==> |pr.frames| == |paths|)
      && (forall w: Path :: w.i4 != RECURSIVE_INDEX && (w !in paths[..|pr.frames|] || !Sees(s.ram, r, q, w.i4)) ==>
            Walk(pr.s.ram, q, w) == Walk(s.ram, q, w))
      && (forall i :: 0 <= i < |pr.frames| && Sees(s.ram, r, q, paths[i].i4) ==>
            Walk(pr.s.ram, q, paths[i]) ==
              if pr.outcome.NoDataPage? then None else SmallLeaf(SmallEntry(pr.frames[i] * PAGE_SIZE, flags)))
  {
    MapLoopCounts(s, r, paths, flags);
    MapLoopState(s, shape, k, r, q, paths, flags);
    var pr, shape' := MapLoop(s, r, paths, flags), ShapeLoop(s, shape, r, paths, flags);
    if pr.outcome.NoDataPage? {
      RollBack(s, shape, k, r, q, paths, flags, pr, shape');
    }
  }

  lemma RollBack(s: Mm, shape: Shape, k: nat, r: nat, q: nat, paths: seq<Path>, flags: nat, pr: Progress, shape': Shape)
    requires Spaces(s, shape, k, r, q) && LoopState(s, shape, k, r, q, paths, flags, pr, shape') && UsableRange(s.ram, r, paths)
    ensures var ram' := UnmapAll(pr.s.ram, r, paths[..|pr.frames|]);
      && TreeOk(ram', shape', k) && RootsKept(s.ram, ram', shape, r)
      && forall w: Path :: w.i4 != RECURSIVE_INDEX ==>
           Walk(ram', q, w) == if w in paths[..|pr.frames|] && Sees(s.ram, r, q, w.i4) then None else Walk(s.ram, q, w)
  {
    var done := paths[..|pr.frames|];
    forall p | p in done ensures p.i4 != RECURSIVE_INDEX && !HugeCovered(pr.s.ram, r, p) {
      var i :| 0 <= i < |pr.frames| && p == paths[i];
      assert paths[i] in paths;
      HugeCoveredIsHugeLeaf(pr.s.ram, r, p);
    }
    assert Labelled(shape', r, Pml4) && Labelled(shape', q, Pml4);
    UnmapAllEffect(pr.s.ram, shape', k, r, done, q);
    RootsStay(s.ram, pr.s.ram, UnmapAll(pr.s.ram, r, done), shape, shape', r);
    forall i: Index | i != RECURSIVE_INDEX ensures Sees(pr.s.ram, r, q, i) <==> Sees(s.ram, r, q, i) {
      SharingIsStatic(s.ram, pr.s.ram, shape, k, r, r, q, i);
    }
  }
}
