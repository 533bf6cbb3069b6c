/** Which spaces an operation on one space is seen in, and that this never changes between two existing spaces. */
module VmmShare {
  import opened Bits
  import opened PmmSpec
  import opened PageTables
  import opened VmmSpec
  import opened VmmFlat

  /** Space `q` sees what is done on space `r` under top-level slot `i`. */
  ghost predicate Sees(ram: Ram, r: nat, q: nat, i: Index) {
    q == r || SharesSlot(ram, r, q, i)
  }

  /**
   * Top-level entries that are present stay, and only space `r` gains new ones, each leading to a frame
   * that was no table before.
   */
  ghost predicate RootsKept(ram: Ram, ram': Ram, shape: Shape, r: nat) {
    forall a, i: Index :: IsRoot(shape, a) && i != RECURSIVE_INDEX ==>
      || Entry(ram', a, i) == Entry(ram, a, i)
      || (a == r && !Present(Entry(ram, a, i)) && Target(Entry(ram', a, i)) !in shape)
  }

  ghost predicate RootsSame(ram: Ram, ram': Ram, shape: Shape) {
    forall a, i: Index :: IsRoot(shape, a) ==> Entry(ram', a, i) == Entry(ram, a, i)
  }

  /** Between two spaces sharing neither begins nor ends. */
  lemma SharingIsStatic(ram: Ram, ram': Ram, shape: Shape, k: nat, r: nat, a: nat, b: nat, i: Index)
    requires TreeOk(ram, shape, k) && RootsKept(ram, ram', shape, r)
    requires IsRoot(shape, a) && IsRoot(shape, b) && i != RECURSIVE_INDEX
    ensures Sees(ram', a, b, i) <==> Sees(ram, a, b, i)
  {
    assert EntryOk(ram, shape, k, a, i) && EntryOk(ram, shape, k, b, i);
  }

  lemma CreateAtRoot(s: Mm, shape: Shape, k: nat, r: nat, i: Index)
    requires Sound(s, shape, k) && IsRoot(shape, r) && i != RECURSIVE_INDEX
    ensures RootsKept(s.ram, GetOrCreate(s, r, i).0.ram, shape, r)
  {
    AllocPageIsFresh(s.pmm);
    if AllocPage(s.pmm).1.Some? {
      TableWordFields(AllocPage(s.pmm).1.value);
    }
  }

  lemma CreateBelowRoot(s: Mm, shape: Shape, k: nat, t: nat, i: Index)
    requires Sound(s, shape, k) && t in shape && !shape[t].Pml4?
    ensures RootsSame(s.ram, GetOrCreate(s, t, i).0.ram, shape)
  {
    AllocPageIsFresh(s.pmm);
  }

  lemma EnsurePdKeepsRoots(s: Mm, shape: Shape, k: nat, r: nat, p: Path)
    requires Sound(s, shape, k) && Target4(shape, r, p)
    ensures RootsKept(s.ram, EnsurePd(s, r, p).0.ram, shape, r)
  {
    CreateAtRoot(s, shape, k, r, p.i4);
    GetOrCreateKeepsSound(s, shape, k, r, p.i4);
    GetOrCreateLinks(s, shape, k, r, p.i4);
    match GetOrCreate(s, r, p.i4)
    case (_, None) =>
    case (s1, Some(pdpt)) =>
      WalkLabels(s1.ram, ShapeCreate(s, shape, r, p.i4), k, r, p);
      CreateBelowRoot(s1, ShapeCreate(s, shape, r, p.i4), k, pdpt, p.i3);
      RootsStay(s.ram, s1.ram, EnsurePd(s, r, p).0.ram, shape, ShapeCreate(s, shape, r, p.i4), r);
  }

  lemma RootsStay(ram: Ram, ram1: Ram, ram2: Ram, shape: Shape, shape1: Shape, r: nat)
    requires RootsKept(ram, ram1, shape, r) && RootsSame(ram1, ram2, shape1)
    requires forall f :: f in shape ==> Labelled(shape1, f, shape[f])
    ensures RootsKept(ram, ram2, shape, r)
  {
    forall a, i: Index | IsRoot(shape, a) && i != RECURSIVE_INDEX ensures Entry(ram2, a, i) == Entry(ram1, a, i) {
      assert Labelled(shape1, a, Pml4);
    }
  }

  lemma EnsurePtKeepsRoots(s: Mm, shape: Shape, k: nat, r: nat, p: Path)
    requires Sound(s, shape, k) && Target4(shape, r, p) && !HugeCovered(s.ram, r, p)
    ensures RootsKept(s.ram, EnsurePt(s, r, p).0.ram, shape, r)
  {
    EnsurePdKeepsRoots(s, shape, k, r, p);
    EnsurePdKeepsSound(s, shape, k, r, p);
    PdSlotIsUsable(s, shape, k, r, p);
    match EnsurePd(s, r, p)
    case (_, None) =>
    case (s1, Some(pd)) =>
      WalkLabels(s1.ram, ShapePd(s, shape, r, p), k, r, p);
      CreateBelowRoot(s1, ShapePd(s, shape, r, p), k, pd, p.i2);
      RootsStay(s.ram, s1.ram, EnsurePt(s, r, p).0.ram, shape, ShapePd(s, shape, r, p), r);
  }

  lemma PutBelowRoot(ram: Ram, shape: Shape, t: nat, j: Index, e: nat)
    requires t in shape && !shape[t].Pml4?
    ensures RootsSame(ram, Put(ram, t, j, e), shape)
  {
  }

  lemma MapPageKeepsRoots(s: Mm, shape: Shape, k: nat, r: nat, p: Path, phys: nat, flags: nat)
    requires Sound(s, shape, k) && Target4(shape, r, p) && !HugeCovered(s.ram, r, p)
    ensures RootsKept(s.ram, MapPage(s, r, p, phys, flags).0.ram, shape, r)
  {
    EnsurePtKeepsRoots(s, shape, k, r, p);
    EnsurePtKeepsSound(s, shape, k, r, p);
    match EnsurePt(s, r, p)
    case (_, None) =>
    case (s1, Some(pt)) =>
      var shape1 := ShapeMap(s, shape, r, p);
      WalkLabels(s1.ram, shape1, k, r, p);
      PutBelowRoot(s1.ram, shape1, pt, p.i1, SmallEntry(phys, flags));
      RootsStay(s.ram, s1.ram, MapPage(s, r, p, phys, flags).0.ram, shape, shape1, r);
  }

  lemma MapHugeKeepsRoots(s: Mm, shape: Shape, k: nat, r: nat, p: Path, phys: nat, flags: nat)
    requires Sound(s, shape, k) && Target4(shape, r, p)
    ensures RootsKept(s.ram, MapHuge(s, r, p, phys, flags).0.ram, shape, r)
  {
    EnsurePdKeepsRoots(s, shape, k, r, p);
    EnsurePdKeepsSound(s, shape, k, r, p);
    match EnsurePd(s, r, p)
    case (_, None) =>
    case (s1, Some(pd)) =>
      var shape1 := ShapeHuge(s, shape, r, p);
      WalkLabels(s1.ram, shape1, k, r, p);
      PutBelowRoot(s1.ram, shape1, pd, p.i2, HugeEntry(phys, flags));
      RootsStay(s.ram, s1.ram, MapHuge(s, r, p, phys, flags).0.ram, shape, shape1, r);
  }

  lemma UnmapKeepsRoots(ram: Ram, shape: Shape, k: nat, r: nat, p: Path)
    requires TreeOk(ram, shape, k) && Target4(shape, r, p)
    ensures RootsSame(ram, Unmap(ram, r, p), shape)
  {
    WalkLabels(ram, shape, k, r, p);
  }

  // ---- the three operations, seen from any space ----

  /** vmm_map_page changes the named page in its own space and those that share the slot, and no other page anywhere. */
  lemma MapPageSeen(s: Mm, shape: Shape, k: nat, r: nat, p: Path, phys: nat, flags: nat, q: nat, w: Path)
    requires Sound(s, shape, k) && Target4(shape, r, p) && !HugeCovered(s.ram, r, p) && Target4(shape, q, w)
    ensures var (s', ok) := MapPage(s, r, p, phys, flags);
      Walk(s'.ram, q, w) ==
        if ok && w == p && Sees(s.ram, r, q, w.i4) then SmallLeaf(SmallEntry(phys, flags)) else Walk(s.ram, q, w)
  {
    MapPageEffect(s, shape, k, r, p, phys, flags, q, w);
    MapPageKeepsRoots(s, shape, k, r, p, phys, flags);
    SharingIsStatic(s.ram, MapPage(s, r, p, phys, flags).0.ram, shape, k, r, r, q, w.i4);
    if q == r && MapPage(s, r, p, phys, flags).1 { MapPageLinks(s, shape, k, r, p, phys, flags); }
  }

  lemma MapHugeSeen(s: Mm, shape: Shape, k: nat, r: nat, p: Path, phys: nat, flags: nat, q: nat, w: Path)
    requires Sound(s, shape, k) && Target4(shape, r, p) && Target4(shape, q, w)
    ensures var (s', ok) := MapHuge(s, r, p, phys, flags);
      Walk(s'.ram, q, w) ==
        if ok && SameRegion(p, w) && Sees(s.ram, r, q, w.i4) then HugeLeaf(HugeEntry(phys, flags)) else Walk(s.ram, q, w)
  {
    MapHugeEffect(s, shape, k, r, p, phys, flags, q, w);
    MapHugeKeepsRoots(s, shape, k, r, p, phys, flags);
    SharingIsStatic(s.ram, MapHuge(s, r, p, phys, flags).0.ram, shape, k, r, r, q, w.i4);
    if q == r && MapHuge(s, r, p, phys, flags).1 { MapHugeLinks(s, shape, k, r, p, phys, flags); }
  }

  /** The removal as the observing space sees it: its own leaf says whether the page was part of a huge one. */
  lemma UnmapSeen(ram: Ram, shape: Shape, k: nat, r: nat, p: Path, q: nat, w: Path)
    requires TreeOk(ram, shape, k) && Target4(shape, r, p) && Target4(shape, q, w)
    ensures Walk(Unmap(ram, r, p), q, w) ==
      if Sees(ram, r, q, w.i4) && (w == p || (SameRegion(p, w) && HugeCovered(ram, q, w))) then None else Walk(ram, q, w)
  {
    UnmapEffect(ram, shape, k, r, p, q, w);
  }
}
