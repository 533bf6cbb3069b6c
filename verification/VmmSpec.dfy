/** The operations of vmm.c on values, and the flat map that they implement. */
module VmmSpec {
  import opened Bits
  import opened PmmSpec
  import opened PageTables

  /** Physical memory and the allocator that supplies table frames. */
  datatype Mm = Mm(ram: Ram, pmm: Zones)

  /** get_or_create_table: a new table is cleared before its parent points to it. */
  function GetOrCreate(s: Mm, parent: nat, i: Index): (Mm, Option<nat>) {
    if Present(Entry(s.ram, parent, i)) then (s, Some(Target(Entry(s.ram, parent, i))))
    else match AllocPage(s.pmm)
      case (pmm, None) => (Mm(s.ram, pmm), None)
      case (pmm, Some(f)) => (Mm(Put(s.ram[f := Zeros(ENTRIES)], parent, i, TableWord(f)), pmm), Some(f))
  }

  /** The page directory for a path, creating the two levels above it. */
  function EnsurePd(s: Mm, r: nat, p: Path): (Mm, Option<nat>) {
    match GetOrCreate(s, r, p.i4)
    case (s1, None) => (s1, None)
    case (s1, Some(pdpt)) => GetOrCreate(s1, pdpt, p.i3)
  }

  function EnsurePt(s: Mm, r: nat, p: Path): (Mm, Option<nat>) {
    match EnsurePd(s, r, p)
    case (s1, None) => (s1, None)
    case (s1, Some(pd)) => GetOrCreate(s1, pd, p.i2)
  }

  function SmallEntry(phys: nat, flags: nat): nat {
    Or(Target(phys) * PAGE_SIZE, flags)
  }

  function HugeEntry(phys: nat, flags: nat): nat {
    Or(Or(phys / HUGE_SIZE * HUGE_SIZE, flags), PT_HUGE)
  }

  /** vmm_map_page at the page whose indices are `p`. */
  function MapPage(s: Mm, r: nat, p: Path, phys: nat, flags: nat): (Mm, bool) {
    match EnsurePt(s, r, p)
    case (s1, None) => (s1, false)
    case (s1, Some(pt)) => (s1.(ram := Put(s1.ram, pt, p.i1, SmallEntry(phys, flags))), true)
  }

  /** vmm_map_huge_page */
  function MapHuge(s: Mm, r: nat, p: Path, phys: nat, flags: nat): (Mm, bool) {
    match EnsurePd(s, r, p)
    case (s1, None) => (s1, false)
    case (s1, Some(pd)) => (s1.(ram := Put(s1.ram, pd, p.i2, HugeEntry(phys, flags))), true)
  }

  /** vmm_unmap_page */
  function Unmap(ram: Ram, r: nat, p: Path): Ram {
    match PdOf(ram, r, p)
    case None => ram
    case Some(pd) =>
      if !Present(Entry(ram, pd, p.i2)) then ram
      else if IsHuge(Entry(ram, pd, p.i2)) then Put(ram, pd, p.i2, 0)
      else Put(ram, Target(Entry(ram, pd, p.i2)), p.i1, 0)
  }

  // ---- the invariant ----

  /** The tables form a tree with root `k` for the kernel, made of frames the allocator gave away. */
  ghost predicate Sound(s: Mm, shape: Shape, k: nat) {
    && Ok(s.pmm)
    && TreeOk(s.ram, shape, k)
    && forall f :: f in shape ==> !IsFree(s.pmm, f)
  }

  /** The label of a table created at slot `i` of a frame labelled `n`. */
  ghost function Child(parent: nat, n: Node, i: Index): Node {
    match n
    case Pml4 => Pdpt(parent, i)
    case Pdpt(o, a) => Pd(o, a, i)
    case Pd(o, a, b) => Pt(o, a, b, i)
    case Pt(_, _, _, _) => n
  }

  ghost function ShapeCreate(s: Mm, shape: Shape, parent: nat, i: Index): Shape {
    match AllocPage(s.pmm).1
    case Some(f) =>
      if parent in shape && !Present(Entry(s.ram, parent, i)) then shape[f := Child(parent, shape[parent], i)] else shape
    case None => shape
  }

  /** A slot in which get_or_create_table may be used: not the recursive one, not a huge page. */
  ghost predicate TableSlot(s: Mm, shape: Shape, t: nat, i: Index) {
    && t in shape && !shape[t].Pt?
    && (shape[t].Pml4? ==> i != RECURSIVE_INDEX)
    && (shape[t].Pd? ==> !(Present(Entry(s.ram, t, i)) && IsHuge(Entry(s.ram, t, i))))
  }

  /** What one step of table creation leaves alone. */
  ghost predicate Grown(s: Mm, shape: Shape, s': Mm, shape': Shape) {
    && (forall f :: f in shape ==> f in shape' && shape'[f] == shape[f])
    && (forall f, i: Index :: f in shape && Present(Entry(s.ram, f, i)) ==> Entry(s'.ram, f, i) == Entry(s.ram, f, i))
  }

  /** Hanging a zeroed frame into an empty slot keeps the tree. */
  lemma NewTableKeepsTree(ram: Ram, shape: Shape, k: nat, t: nat, i: Index, f: nat)
    requires TreeOk(ram, shape, k) && f !in shape
    requires t in shape && !shape[t].Pt? && !Present(Entry(ram, t, i))
    ensures TreeOk(Put(ram[f := Zeros(ENTRIES)], t, i, TableWord(f)), shape[f := Child(t, shape[t], i)], k)
  {
    var ram', shape' := Put(ram[f := Zeros(ENTRIES)], t, i, TableWord(f)), shape[f := Child(t, shape[t], i)];
    TableWordFields(f);
    ZeroIsAbsent();
    forall g, j: Index | g in shape' ensures EntryOk(ram', shape', k, g, j) {
      if g == f {
        assert Entry(ram', g, j) == 0;
      } else if g == t && j == i {
        assert Labelled(shape', f, Child(t, shape[t], i));
      } else {
        assert EntryOk(ram, shape, k, g, j);
        EntryStaysOk(ram, shape, ram', shape', k, g, j);
      }
    }
  }

  lemma EntryStaysOk(ram: Ram, shape: Shape, ram': Ram, shape': Shape, k: nat, g: nat, j: Index)
    requires g in shape && EntryOk(ram, shape, k, g, j)
    requires forall h :: h in shape ==> h in shape' && shape'[h] == shape[h]
    requires Entry(ram', g, j) == Entry(ram, g, j)
    requires Present(Entry(ram, k, j)) ==> Entry(ram', k, j) == Entry(ram, k, j)
    ensures EntryOk(ram', shape', k, g, j)
  {
  }

  lemma GetOrCreateKeepsSound(s: Mm, shape: Shape, k: nat, t: nat, i: Index)
    requires Sound(s, shape, k) && TableSlot(s, shape, t, i)
    ensures Sound(GetOrCreate(s, t, i).0, ShapeCreate(s, shape, t, i), k)
    ensures Grown(s, shape, GetOrCreate(s, t, i).0, ShapeCreate(s, shape, t, i))
  {
    AllocPageIsFresh(s.pmm);
    if !Present(Entry(s.ram, t, i)) && AllocPage(s.pmm).1.Some? {
      NewTableKeepsTree(s.ram, shape, k, t, i, AllocPage(s.pmm).1.value);
    }
  }

  lemma ZeroIsAbsent()
    ensures !Present(0) && SmallLeaf(0) == None && HugeLeaf(0) == None
  {
  }

  /** Creating an empty table changes no translation. */
  lemma NewTableKeepsWalk(ram: Ram, shape: Shape, k: nat, t: nat, i: Index, f: nat, q: nat, w: Path)
    requires TreeOk(ram, shape, k) && f !in shape
    requires t in shape && !shape[t].Pt? && !Present(Entry(ram, t, i))
    requires IsRoot(shape, q) && w.i4 != RECURSIVE_INDEX
    ensures Walk(Put(ram[f := Zeros(ENTRIES)], t, i, TableWord(f)), q, w) == Walk(ram, q, w)
  {
    var ram' := Put(ram[f := Zeros(ENTRIES)], t, i, TableWord(f));
    TableWordFields(f);
    ZeroIsAbsent();
    WalkLabels(ram, shape, k, q, w);
    if Next(ram, q, w.i4) == None {
    } else if PdOf(ram, q, w) == None {
      assert Next(ram', q, w.i4) == Next(ram, q, w.i4);
    } else {
      assert PdOf(ram', q, w) == PdOf(ram, q, w);
    }
  }

  lemma GetOrCreateKeepsWalk(s: Mm, shape: Shape, k: nat, t: nat, i: Index, q: nat, w: Path)
    requires Sound(s, shape, k) && TableSlot(s, shape, t, i)
    requires IsRoot(shape, q) && w.i4 != RECURSIVE_INDEX
    ensures Walk(GetOrCreate(s, t, i).0.ram, q, w) == Walk(s.ram, q, w)
  {
    AllocPageIsFresh(s.pmm);
    if !Present(Entry(s.ram, t, i)) && AllocPage(s.pmm).1.Some? {
      NewTableKeepsWalk(s.ram, shape, k, t, i, AllocPage(s.pmm).1.value, q, w);
    }
  }

  // ---- creating the tables of a path ----

  ghost function ShapePd(s: Mm, shape: Shape, r: nat, p: Path): Shape {
    var shape1 := ShapeCreate(s, shape, r, p.i4);
    match GetOrCreate(s, r, p.i4)
    case (s1, None) => shape1
    case (s1, Some(pdpt)) => ShapeCreate(s1, shape1, pdpt, p.i3)
  }

  ghost function ShapePt(s: Mm, shape: Shape, r: nat, p: Path): Shape {
    match EnsurePd(s, r, p)
    case (_, None) => ShapePd(s, shape, r, p)
    case (s1, Some(pd)) => ShapeCreate(s1, ShapePd(s, shape, r, p), pd, p.i2)
  }

  lemma GetOrCreateLinks(s: Mm, shape: Shape, k: nat, t: nat, i: Index)
    requires Sound(s, shape, k) && TableSlot(s, shape, t, i)
    ensures match GetOrCreate(s, t, i)
      case (s', None) => s' == s && FreeCount(s.pmm) == 0 && !Present(Entry(s.ram, t, i))
      case (s', Some(c)) => Next(s'.ram, t, i) == Some(c)
  {
    AllocPageIsFresh(s.pmm);
    AllocPageCounts(s.pmm);
    if AllocPage(s.pmm).1.Some? {
      TableWordFields(AllocPage(s.pmm).1.value);
    }
  }

  lemma EnsurePdKeepsSound(s: Mm, shape: Shape, k: nat, r: nat, p: Path)
    requires Sound(s, shape, k) && IsRoot(shape, r) && p.i4 != RECURSIVE_INDEX
    ensures Sound(EnsurePd(s, r, p).0, ShapePd(s, shape, r, p), k)
    ensures Grown(s, shape, EnsurePd(s, r, p).0, ShapePd(s, shape, r, p))
    ensures EnsurePd(s, r, p).1.Some? ==> PdOf(EnsurePd(s, r, p).0.ram, r, p) == EnsurePd(s, r, p).1
  {
    GetOrCreateKeepsSound(s, shape, k, r, p.i4);
    GetOrCreateLinks(s, shape, k, r, p.i4);
    match GetOrCreate(s, r, p.i4)
    case (_, None) =>
    case (s1, Some(pdpt)) =>
      var shape1 := ShapeCreate(s, shape, r, p.i4);
      WalkLabels(s1.ram, shape1, k, r, p);
      GetOrCreateKeepsSound(s1, shape1, k, pdpt, p.i3);
      GetOrCreateLinks(s1, shape1, k, pdpt, p.i3);
  }

  lemma EnsurePdKeepsWalk(s: Mm, shape: Shape, k: nat, r: nat, p: Path, q: nat, w: Path)
    requires Sound(s, shape, k) && IsRoot(shape, r) && p.i4 != RECURSIVE_INDEX
    requires IsRoot(shape, q) && w.i4 != RECURSIVE_INDEX
    ensures Walk(EnsurePd(s, r, p).0.ram, q, w) == Walk(s.ram, q, w)
  {
    GetOrCreateKeepsSound(s, shape, k, r, p.i4);
    GetOrCreateLinks(s, shape, k, r, p.i4);
    GetOrCreateKeepsWalk(s, shape, k, r, p.i4, q, w);
    match GetOrCreate(s, r, p.i4)
    case (_, None) =>
    case (s1, Some(pdpt)) =>
      var shape1 := ShapeCreate(s, shape, r, p.i4);
      WalkLabels(s1.ram, shape1, k, r, p);
      GetOrCreateKeepsWalk(s1, shape1, k, pdpt, p.i3, q, w);
  }

  lemma HugeCoveredIsHugeLeaf(ram: Ram, r: nat, p: Path)
    ensures HugeCovered(ram, r, p) <==> Walk(ram, r, p).Some? && Walk(ram, r, p).value.Huge?
  {
  }

  /** The page directory slot is usable for a table when no huge page covers the path. */
  lemma PdSlotIsUsable(s: Mm, shape: Shape, k: nat, r: nat, p: Path)
    requires Sound(s, shape, k) && IsRoot(shape, r) && p.i4 != RECURSIVE_INDEX && !HugeCovered(s.ram, r, p)
    ensures EnsurePd(s, r, p).1.Some? ==>
      TableSlot(EnsurePd(s, r, p).0, ShapePd(s, shape, r, p), EnsurePd(s, r, p).1.value, p.i2)
  {
    var s1, shape1 := EnsurePd(s, r, p).0, ShapePd(s, shape, r, p);
    EnsurePdKeepsSound(s, shape, k, r, p);
    EnsurePdKeepsWalk(s, shape, k, r, p, r, p);
    HugeCoveredIsHugeLeaf(s.ram, r, p);
    HugeCoveredIsHugeLeaf(s1.ram, r, p);
    WalkLabels(s1.ram, shape1, k, r, p);
  }

  lemma EnsurePtKeepsSound(s: Mm, shape: Shape, k: nat, r: nat, p: Path)
    requires Sound(s, shape, k) && IsRoot(shape, r) && p.i4 != RECURSIVE_INDEX && !HugeCovered(s.ram, r, p)
    ensures Sound(EnsurePt(s, r, p).0, ShapePt(s, shape, r, p), k)
    ensures Grown(s, shape, EnsurePt(s, r, p).0, ShapePt(s, shape, r, p))
    ensures EnsurePt(s, r, p).1.Some? ==> PtOf(EnsurePt(s, r, p).0.ram, r, p) == EnsurePt(s, r, p).1
  {
    EnsurePdKeepsSound(s, shape, k, r, p);
    PdSlotIsUsable(s, shape, k, r, p);
    match EnsurePd(s, r, p)
    case (_, None) =>
    case (s1, Some(pd)) =>
      var shape1 := ShapePd(s, shape, r, p);
      GetOrCreateKeepsSound(s1, shape1, k, pd, p.i2);
      PtIsLinked(s1, shape1, k, r, p);
  }

  lemma PtIsLinked(s: Mm, shape: Shape, k: nat, r: nat, p: Path)
    requires Sound(s, shape, k) && IsRoot(shape, r) && p.i4 != RECURSIVE_INDEX
    requires PdOf(s.ram, r, p).Some? && TableSlot(s, shape, PdOf(s.ram, r, p).value, p.i2)
    ensures GetOrCreate(s, PdOf(s.ram, r, p).value, p.i2).1.Some? ==>
      PtOf(GetOrCreate(s, PdOf(s.ram, r, p).value, p.i2).0.ram, r, p) == GetOrCreate(s, PdOf(s.ram, r, p).value, p.i2).1
  {
    var pd := PdOf(s.ram, r, p).value;
    var (s', c) := GetOrCreate(s, pd, p.i2);
    GetOrCreateKeepsSound(s, shape, k, pd, p.i2);
    GetOrCreateLinks(s, shape, k, pd, p.i2);
    WalkLabels(s.ram, shape, k, r, p);
    if c.Some? {
      assert Next(s'.ram, r, p.i4) == Next(s.ram, r, p.i4);
      assert PdOf(s'.ram, r, p) == Some(pd);
      GetOrCreateKeepsWalk(s, shape, k, pd, p.i2, r, p);
      HugeCoveredIsHugeLeaf(s.ram, r, p);
      HugeCoveredIsHugeLeaf(s'.ram, r, p);
    }
  }

  lemma EnsurePtKeepsWalk(s: Mm, shape: Shape, k: nat, r: nat, p: Path, q: nat, w: Path)
    requires Sound(s, shape, k) && IsRoot(shape, r) && p.i4 != RECURSIVE_INDEX && !HugeCovered(s.ram, r, p)
    requires IsRoot(shape, q) && w.i4 != RECURSIVE_INDEX
    ensures Walk(EnsurePt(s, r, p).0.ram, q, w) == Walk(s.ram, q, w)
  {
    EnsurePdKeepsSound(s, shape, k, r, p);
    EnsurePdKeepsWalk(s, shape, k, r, p, q, w);
    PdSlotIsUsable(s, shape, k, r, p);
    match EnsurePd(s, r, p)
    case (_, None) =>
    case (s1, Some(pd)) => GetOrCreateKeepsWalk(s1, ShapePd(s, shape, r, p), k, pd, p.i2, q, w);
  }
}
