/** Every operation of vmm.c acts on translations as a flat map would, in every address space. */
module VmmFlat {
  import opened Bits
  import opened PmmSpec
  import opened PageTables
  import opened VmmSpec

  // ---- vmm_map_page ----

  ghost function ShapeMap(s: Mm, shape: Shape, r: nat, p: Path): Shape {
    ShapePt(s, shape, r, p)
  }

  /** A caller's duty: a root, and an address outside the recursive slot. */
  ghost predicate Target4(shape: Shape, r: nat, p: Path) {
    IsRoot(shape, r) && p.i4 != RECURSIVE_INDEX
  }

  lemma MapPageKeepsSound(s: Mm, shape: Shape, k: nat, r: nat, p: Path, phys: nat, flags: nat)
    requires Sound(s, shape, k) && Target4(shape, r, p) && !HugeCovered(s.ram, r, p)
    ensures Sound(MapPage(s, r, p, phys, flags).0, ShapeMap(s, shape, r, p), k)
    ensures forall f :: f in shape ==> Labelled(ShapeMap(s, shape, r, p), f, shape[f])
  {
    EnsurePtKeepsSound(s, shape, k, r, p);
    match EnsurePt(s, r, p)
    case (_, None) =>
    case (s1, Some(pt)) =>
      var shape1 := ShapeMap(s, shape, r, p);
      WalkLabels(s1.ram, shape1, k, r, p);
      LeafWriteKeepsTree(s1.ram, shape1, k, pt, p.i1, SmallEntry(phys, flags));
  }

  /**
   * A successful map changes the one page it names, in every space that shares the top-level slot,
   * and no other page of any space. A failed map changes no translation at all.
   */
  lemma MapPageEffect(s: Mm, shape: Shape, k: nat, r: nat, p: Path, phys: nat, flags: nat, q: nat, w: Path)
    requires Sound(s, shape, k) && Target4(shape, r, p) && !HugeCovered(s.ram, r, p)
    requires Target4(shape, q, w)
    ensures var (s', ok) := MapPage(s, r, p, phys, flags);
      Walk(s'.ram, q, w) ==
        if ok && w == p && SharesSlot(s'.ram, r, q, w.i4) then SmallLeaf(SmallEntry(phys, flags))
        else Walk(s.ram, q, w)
  {
    EnsurePtKeepsSound(s, shape, k, r, p);
    EnsurePtKeepsWalk(s, shape, k, r, p, q, w);
    match EnsurePt(s, r, p)
    case (_, None) =>
    case (s1, Some(pt)) =>
      var shape1 := ShapeMap(s, shape, r, p);
      var e := SmallEntry(phys, flags);
      WalkLabels(s1.ram, shape1, k, r, p);
      PutLeaf(s1.ram, shape1, k, pt, p.i1, e, q, w);
      WalksMeetInPt(s1.ram, shape1, k, r, p, q, w);
      LeafWriteKeepsPd(s1.ram, shape1, k, pt, p.i1, e, r, p);
      LeafWriteKeepsPd(s1.ram, shape1, k, pt, p.i1, e, q, w);
  }

  /** Tables that a map of this path has to create. */
  function Missing(ram: Ram, r: nat, p: Path): nat {
    match PdOf(ram, r, p)
    case None => if Next(ram, r, p.i4).None? then 3 else 2
    case Some(pd) => if Present(Entry(ram, pd, p.i2)) then 0 else 1
  }

  /** A map fails exactly when the allocator cannot supply the missing tables. */
  lemma MapPageSucceeds(s: Mm, shape: Shape, k: nat, r: nat, p: Path, phys: nat, flags: nat)
    requires Sound(s, shape, k) && Target4(shape, r, p) && !HugeCovered(s.ram, r, p)
    ensures MapPage(s, r, p, phys, flags).1 <==> Missing(s.ram, r, p) <= FreeCount(s.pmm)
    ensures MapPage(s, r, p, phys, flags).1 ==>
      FreeCount(MapPage(s, r, p, phys, flags).0.pmm) == FreeCount(s.pmm) - Missing(s.ram, r, p)
  {
    EnsurePdCounts(s, shape, k, r, p);
    EnsurePdKeepsSound(s, shape, k, r, p);
    match EnsurePd(s, r, p)
    case (_, None) =>
    case (s1, Some(pd)) =>
      AllocPageCounts(s1.pmm);
      EnsurePdFillsEmpty(s, shape, k, r, p);
  }

  /** The upper two levels cost one frame for each table that is absent. */
  lemma EnsurePdCounts(s: Mm, shape: Shape, k: nat, r: nat, p: Path)
    requires Sound(s, shape, k) && Target4(shape, r, p)
    ensures var need := if PdOf(s.ram, r, p).Some? then 0 else if Next(s.ram, r, p.i4).Some? then 1 else 2;
      && (EnsurePd(s, r, p).1.Some? <==> need <= FreeCount(s.pmm))
      && (EnsurePd(s, r, p).1.Some? ==> FreeCount(EnsurePd(s, r, p).0.pmm) == FreeCount(s.pmm) - need)
  {
    AllocPageCounts(s.pmm);
    AllocPageIsFresh(s.pmm);
    GetOrCreateKeepsSound(s, shape, k, r, p.i4);
    match GetOrCreate(s, r, p.i4)
    case (_, None) =>
    case (s1, Some(pdpt)) =>
      AllocPageCounts(s1.pmm);
      if Next(s.ram, r, p.i4).None? {
        ZeroIsAbsent();
        assert Entry(s1.ram, pdpt, p.i3) == 0;
      }
  }

  /** A page directory that had to be created has no entries yet; an old one keeps its own. */
  lemma EnsurePdFillsEmpty(s: Mm, shape: Shape, k: nat, r: nat, p: Path)
    requires Sound(s, shape, k) && Target4(shape, r, p) && EnsurePd(s, r, p).1.Some?
    ensures var (s1, pd) := EnsurePd(s, r, p);
      Present(Entry(s1.ram, pd.value, p.i2)) <==>
        PdOf(s.ram, r, p).Some? && Present(Entry(s.ram, PdOf(s.ram, r, p).value, p.i2))
  {
    ZeroIsAbsent();
    AllocPageIsFresh(s.pmm);
    GetOrCreateKeepsSound(s, shape, k, r, p.i4);
    WalkLabels(s.ram, shape, k, r, p);
    var (s1, pdpt) := GetOrCreate(s, r, p.i4);
    GetOrCreateLinks(s, shape, k, r, p.i4);
    WalkLabels(s1.ram, ShapeCreate(s, shape, r, p.i4), k, r, p);
    AllocPageIsFresh(s1.pmm);
  }

  // ---- vmm_map_huge_page ----

  ghost function ShapeHuge(s: Mm, shape: Shape, r: nat, p: Path): Shape {
    ShapePd(s, shape, r, p)
  }

  lemma HugeEntryIsHuge(phys: nat, flags: nat)
    ensures IsHuge(HugeEntry(phys, flags))
  {
    BitOr(Or(phys / HUGE_SIZE * HUGE_SIZE, flags), PT_HUGE, 7);
    BitPow2(7, 7);
    assert Pow2(7) == PT_HUGE;
  }

  lemma MapHugeKeepsSound(s: Mm, shape: Shape, k: nat, r: nat, p: Path, phys: nat, flags: nat)
    requires Sound(s, shape, k) && Target4(shape, r, p)
    ensures Sound(MapHuge(s, r, p, phys, flags).0, ShapeHuge(s, shape, r, p), k)
    ensures forall f :: f in shape ==> Labelled(ShapeHuge(s, shape, r, p), f, shape[f])
  {
    EnsurePdKeepsSound(s, shape, k, r, p);
    match EnsurePd(s, r, p)
    case (_, None) =>
    case (s1, Some(pd)) =>
      var shape1 := ShapeHuge(s, shape, r, p);
      WalkLabels(s1.ram, shape1, k, r, p);
      HugeEntryIsHuge(phys, flags);
      LeafWriteKeepsTree(s1.ram, shape1, k, pd, p.i2, HugeEntry(phys, flags));
  }

  /** The same 2 MB region. */
  predicate SameRegion(p: Path, w: Path) {
    p.i4 == w.i4 && p.i3 == w.i3 && p.i2 == w.i2
  }

  /** A huge map changes exactly the 512 pages of its region, whatever was mapped there before. */
  lemma MapHugeEffect(s: Mm, shape: Shape, k: nat, r: nat, p: Path, phys: nat, flags: nat, q: nat, w: Path)
    requires Sound(s, shape, k) && Target4(shape, r, p) && Target4(shape, q, w)
    ensures var (s', ok) := MapHuge(s, r, p, phys, flags);
      Walk(s'.ram, q, w) ==
        if ok && SameRegion(p, w) && SharesSlot(s'.ram, r, q, w.i4) then HugeLeaf(HugeEntry(phys, flags))
        else Walk(s.ram, q, w)
  {
    EnsurePdKeepsSound(s, shape, k, r, p);
    EnsurePdKeepsWalk(s, shape, k, r, p, q, w);
    match EnsurePd(s, r, p)
    case (_, None) =>
    case (s1, Some(pd)) =>
      var shape1 := ShapeHuge(s, shape, r, p);
      var e := HugeEntry(phys, flags);
      HugeEntryIsHuge(phys, flags);
      WalkLabels(s1.ram, shape1, k, r, p);
      PutHuge(s1.ram, shape1, k, pd, p.i2, e, q, w);
      WalksMeetInPd(s1.ram, shape1, k, r, p, q, w);
      LeafWriteKeepsPd(s1.ram, shape1, k, pd, p.i2, e, r, p);
      LeafWriteKeepsPd(s1.ram, shape1, k, pd, p.i2, e, q, w);
  }

  // ---- vmm_unmap_page ----

  lemma UnmapKeepsTree(ram: Ram, shape: Shape, k: nat, r: nat, p: Path)
    requires TreeOk(ram, shape, k) && Target4(shape, r, p)
    ensures TreeOk(Unmap(ram, r, p), shape, k)
  {
    ZeroIsAbsent();
    WalkLabels(ram, shape, k, r, p);
    match PdOf(ram, r, p)
    case None =>
    case Some(pd) =>
      if Present(Entry(ram, pd, p.i2)) {
        if IsHuge(Entry(ram, pd, p.i2)) {
          LeafWriteKeepsTree(ram, shape, k, pd, p.i2, 0);
        } else {
          LeafWriteKeepsTree(ram, shape, k, PtOf(ram, r, p).value, p.i1, 0);
        }
      }
  }

  /** Unmapping removes the named page, or the whole huge page that covers it, and nothing else. */
  lemma UnmapEffect(ram: Ram, shape: Shape, k: nat, r: nat, p: Path, q: nat, w: Path)
    requires TreeOk(ram, shape, k) && Target4(shape, r, p) && Target4(shape, q, w)
    ensures Walk(Unmap(ram, r, p), q, w) ==
      if SharesSlot(ram, r, q, p.i4)
        && (w == p || (SameRegion(p, w) && HugeCovered(ram, r, p))) then None
      else Walk(ram, q, w)
  {
    ZeroIsAbsent();
    WalkLabels(ram, shape, k, r, p);
    match PdOf(ram, r, p)
    case None =>
    case Some(pd) =>
      WalksMeetInPd(ram, shape, k, r, p, q, w);
      if Present(Entry(ram, pd, p.i2)) {
        if IsHuge(Entry(ram, pd, p.i2)) {
          PutHuge(ram, shape, k, pd, p.i2, 0, q, w);
        } else {
          WalksMeetInPt(ram, shape, k, r, p, q, w);
          PutLeaf(ram, shape, k, PtOf(ram, r, p).value, p.i1, 0, q, w);
        }
      }
  }

  // ---- what a mapped address translates to ----

  lemma ShiftOr(a: nat, b: nat)
    ensures Or(a, b) / PAGE_SIZE == Or(a / PAGE_SIZE, b / PAGE_SIZE)
    ensures Or(a, b) / HUGE_SIZE == Or(a / HUGE_SIZE, b / HUGE_SIZE)
  {
    PageBits();
    OrShr(a, b, 12);
    OrShr(a, b, 21);
    ShrDivides(a, 12);
    ShrDivides(b, 12);
    ShrDivides(Or(a, b), 12);
    ShrDivides(a, 21);
    ShrDivides(b, 21);
    ShrDivides(Or(a, b), 21);
  }

  lemma LowBitsOfFrame(f: nat)
    ensures !Present(f * PAGE_SIZE) && !Present(f * HUGE_SIZE)
    ensures forall d: nat :: d < PAGE_SIZE ==> Or(f * PAGE_SIZE, d) == f * PAGE_SIZE + d
    ensures forall d: nat :: d < HUGE_SIZE ==> Or(f * HUGE_SIZE, d) == f * HUGE_SIZE + d
  {
    PageBits();
    forall d: nat | d < PAGE_SIZE ensures Or(f * PAGE_SIZE, d) == f * PAGE_SIZE + d {
      OrDisjoint(f * PAGE_SIZE, d, 12);
    }
    forall d: nat | d < HUGE_SIZE ensures Or(f * HUGE_SIZE, d) == f * HUGE_SIZE + d {
      OrDisjoint(f * HUGE_SIZE, d, 21);
    }
  }

  /**
   * The entry written by vmm_map_page translates `v` to the frame of `phys` exactly when the
   * flags carry PRESENT and their bits from 12 up, PT_NX among them, are bits of `phys` already.
   */
  lemma SmallEntryTranslates(phys: nat, flags: nat, v: nat)
    ensures PhysAt(SmallLeaf(SmallEntry(phys, flags)), v) == Some(Target(phys) * PAGE_SIZE + v % PAGE_SIZE) <==>
      Present(flags) && Or(Target(phys), Target(flags)) == Target(phys)
  {
    var e := SmallEntry(phys, flags);
    LowBitsOfFrame(Target(phys));
    LowBitsOfFrame(Target(e));
    BitOr(Target(phys) * PAGE_SIZE, flags, 0);
    ShiftOr(Target(phys) * PAGE_SIZE, flags);
  }

  lemma OrZero(a: nat)
    ensures Or(a, 0) == a
  {
  }

  lemma OrHugeBit(low: nat)
    ensures Present(Or(low, PT_HUGE)) <==> Present(low)
    ensures Or(low, PT_HUGE) / HUGE_SIZE == low / HUGE_SIZE
  {
    BitOr(low, PT_HUGE, 0);
    ShiftOr(low, PT_HUGE);
    OrZero(low / HUGE_SIZE);
  }

  lemma OrHugeBase(h: nat, flags: nat)
    ensures Present(Or(h * HUGE_SIZE, flags)) <==> Present(flags)
    ensures Or(h * HUGE_SIZE, flags) / HUGE_SIZE == Or(h, flags / HUGE_SIZE)
  {
    LowBitsOfFrame(h);
    BitOr(h * HUGE_SIZE, flags, 0);
    ShiftOr(h * HUGE_SIZE, flags);
  }

  lemma HugeEntryFields(phys: nat, flags: nat)
    ensures Present(HugeEntry(phys, flags)) <==> Present(flags)
    ensures HugeEntry(phys, flags) / HUGE_SIZE == Or(phys / HUGE_SIZE, flags / HUGE_SIZE)
  {
    OrHugeBase(phys / HUGE_SIZE, flags);
    OrHugeBit(Or(phys / HUGE_SIZE * HUGE_SIZE, flags));
  }

  lemma HugeEntryTranslates(phys: nat, flags: nat, v: nat)
    ensures PhysAt(HugeLeaf(HugeEntry(phys, flags)), v) == Some(phys / HUGE_SIZE * HUGE_SIZE + v % HUGE_SIZE) <==>
      Present(flags) && Or(phys / HUGE_SIZE, flags / HUGE_SIZE) == phys / HUGE_SIZE
  {
    HugeEntryFields(phys, flags);
    LowBitsOfFrame(HugeEntry(phys, flags) / HUGE_SIZE);
  }

  /** PT_NX in the flags spoils the translation of every physical address below 2^63. */
  lemma NoExecuteLeaks(phys: nat, flags: nat, v: nat)
    requires phys < Pow2(63) && Bit(flags, 63)
    ensures PhysAt(SmallLeaf(SmallEntry(phys, flags)), v) != Some(Target(phys) * PAGE_SIZE + v % PAGE_SIZE)
  {
    SmallEntryTranslates(phys, flags, v);
    TargetLosesBit(phys);
    assert Bit(Target(flags), 51) by {
      ShrBit(flags, 12, 51);
      PageBits();
      ShrDivides(flags, 12);
    }
    BitOr(Target(phys), Target(flags), 51);
  }

  lemma TargetLosesBit(phys: nat)
    requires phys < Pow2(63)
    ensures !Bit(Target(phys), 51)
  {
    PageBits();
    Pow2Splits(12, 51);
    assert Target(phys) < Pow2(51);
    BitBeyond(Target(phys), 51);
  }

  lemma {:induction false} ShrBit(a: nat, n: nat, k: nat)
    ensures Bit(Shr(a, n), k) <==> Bit(a, k + n)
  {
    if n > 0 { ShrBit(a / 2, n - 1, k); }
  }

  lemma {:induction false} Pow2Splits(m: nat, n: nat)
    ensures Pow2(m + n) == Pow2(m) * Pow2(n)
  {
    if m > 0 {
      Pow2Splits(m - 1, n);
      assert Pow2(m + n) == 2 * (Pow2(m - 1) * Pow2(n));
      MulAssociates(Pow2(m - 1), Pow2(n));
    }
  }

  lemma {:induction false} BitBeyond(a: nat, k: nat)
    requires a < Pow2(k)
    ensures !Bit(a, k)
  {
    if k > 0 { BitBeyond(a / 2, k - 1); }
  }

  // ---- a 4 KB map under a huge page ----

  /**
   * vmm_map_page does not test for a huge page: under one it reports success and writes its word into the
   * first frame of the mapped memory, whatever that frame holds.
   */
  lemma MapUnderHugeWrites(s: Mm, shape: Shape, k: nat, r: nat, p: Path, phys: nat, flags: nat)
    requires Sound(s, shape, k) && Target4(shape, r, p) && HugeCovered(s.ram, r, p)
    ensures MapPage(s, r, p, phys, flags) ==
      (s.(ram := Put(s.ram, Target(Walk(s.ram, r, p).value.entry), p.i1, SmallEntry(phys, flags))), true)
  {
    WalkLabels(s.ram, shape, k, r, p);
  }

  /** If that frame is no page table, every translation of every space stays as it was: the map is lost. */
  lemma MapUnderHugeIsLost(s: Mm, shape: Shape, k: nat, r: nat, p: Path, phys: nat, flags: nat, q: nat, w: Path)
    requires Sound(s, shape, k) && Target4(shape, r, p) && HugeCovered(s.ram, r, p)
    requires Target(Walk(s.ram, r, p).value.entry) !in shape && Target4(shape, q, w)
    ensures MapPage(s, r, p, phys, flags).1
    ensures Walk(MapPage(s, r, p, phys, flags).0.ram, q, w) == Walk(s.ram, q, w)
  {
    var f := Target(Walk(s.ram, r, p).value.entry);
    MapUnderHugeWrites(s, shape, k, r, p, phys, flags);
    WalkAvoids(s.ram, shape, k, q, w, f, TableAt(s.ram, f)[p.i1 := SmallEntry(phys, flags)]);
  }

  /** If it is a page table of the last level, another page is remapped instead: the one with that table and the same last index. */
  lemma MapUnderHugeRemapsAnother(s: Mm, shape: Shape, k: nat, r: nat, p: Path, phys: nat, flags: nat, q: nat, w: Path)
    requires Sound(s, shape, k) && Target4(shape, r, p) && HugeCovered(s.ram, r, p) && Target4(shape, q, w)
    requires var t := Target(Walk(s.ram, r, p).value.entry); t in shape && shape[t].Pt?
    ensures Walk(MapPage(s, r, p, phys, flags).0.ram, q, w) ==
      if PtOf(s.ram, q, w) == Some(Target(Walk(s.ram, r, p).value.entry)) && w.i1 == p.i1 then SmallLeaf(SmallEntry(phys, flags))
      else Walk(s.ram, q, w)
  {
    MapUnderHugeWrites(s, shape, k, r, p, phys, flags);
    PutLeaf(s.ram, shape, k, Target(Walk(s.ram, r, p).value.entry), p.i1, SmallEntry(phys, flags), q, w);
  }

  /** If it is a table of an upper level, the data frame takes the place of a table: the tree is no tree any more. */
  lemma MapUnderHugeBreaksTree(s: Mm, shape: Shape, k: nat, r: nat, p: Path, phys: nat, flags: nat)
    requires Sound(s, shape, k) && Target4(shape, r, p) && HugeCovered(s.ram, r, p)
    requires var t := Target(Walk(s.ram, r, p).value.entry); t in shape && !shape[t].Pt? && (shape[t].Pml4? ==> p.i1 != RECURSIVE_INDEX)
    requires var e := SmallEntry(phys, flags); Present(e) && !IsHuge(e) && Target(e) !in shape
    ensures !TreeOk(MapPage(s, r, p, phys, flags).0.ram, shape, k)
  {
    MapUnderHugeWrites(s, shape, k, r, p, phys, flags);
    assert !EntryOk(MapPage(s, r, p, phys, flags).0.ram, shape, k, Target(Walk(s.ram, r, p).value.entry), p.i1);
  }

  /** A frame outside the tree can be rewritten without any walk noticing. */
  lemma WalkAvoids(ram: Ram, shape: Shape, k: nat, q: nat, w: Path, f: nat, t: Table)
    requires TreeOk(ram, shape, k) && Target4(shape, q, w) && f !in shape
    ensures Walk(ram[f := t], q, w) == Walk(ram, q, w)
  {
    WalkLabels(ram, shape, k, q, w);
  }

  /** `f` is none of the tables on the path of `p`. */
  predicate OffPath(ram: Ram, r: nat, p: Path, f: nat) {
    f != r && Next(ram, r, p.i4) != Some(f) && PdOf(ram, r, p) != Some(f)
  }

  /**
   * A map of a present page takes effect exactly when no huge page covers the address, unless that huge page
   * begins with a table of the address's own path.
   */
  lemma MapTakesEffectUnlessHuge(s: Mm, shape: Shape, k: nat, r: nat, p: Path, phys: nat, flags: nat)
    requires Sound(s, shape, k) && Target4(shape, r, p) && Present(SmallEntry(phys, flags))
    requires HugeCovered(s.ram, r, p) ==> OffPath(s.ram, r, p, Target(Walk(s.ram, r, p).value.entry))
    requires MapPage(s, r, p, phys, flags).1
    ensures Walk(MapPage(s, r, p, phys, flags).0.ram, r, p) == Some(Small(SmallEntry(phys, flags))) <==>
      !HugeCovered(s.ram, r, p)
  {
    if HugeCovered(s.ram, r, p) {
      MapUnderHugeWrites(s, shape, k, r, p, phys, flags);
    } else {
      MapPageEffect(s, shape, k, r, p, phys, flags, r, p);
      MapPageLinks(s, shape, k, r, p, phys, flags);
    }
  }

  lemma MapPageLinks(s: Mm, shape: Shape, k: nat, r: nat, p: Path, phys: nat, flags: nat)
    requires Sound(s, shape, k) && Target4(shape, r, p) && !HugeCovered(s.ram, r, p)
    requires MapPage(s, r, p, phys, flags).1
    ensures SharesSlot(MapPage(s, r, p, phys, flags).0.ram, r, r, p.i4)
  {
    EnsurePtKeepsSound(s, shape, k, r, p);
    var (s1, pt) := EnsurePt(s, r, p);
    WalkLabels(s1.ram, ShapeMap(s, shape, r, p), k, r, p);
    LeafWriteKeepsPd(s1.ram, ShapeMap(s, shape, r, p), k, pt.value, p.i1, SmallEntry(phys, flags), r, p);
  }

  lemma MapHugeLinks(s: Mm, shape: Shape, k: nat, r: nat, p: Path, phys: nat, flags: nat)
    requires Sound(s, shape, k) && Target4(shape, r, p) && MapHuge(s, r, p, phys, flags).1
    ensures SharesSlot(MapHuge(s, r, p, phys, flags).0.ram, r, r, p.i4)
  {
    EnsurePdKeepsSound(s, shape, k, r, p);
    var (s1, pd) := EnsurePd(s, r, p);
    HugeEntryIsHuge(phys, flags);
    WalkLabels(s1.ram, ShapeHuge(s, shape, r, p), k, r, p);
    LeafWriteKeepsPd(s1.ram, ShapeHuge(s, shape, r, p), k, pd.value, p.i2, HugeEntry(phys, flags), r, p);
  }
}
