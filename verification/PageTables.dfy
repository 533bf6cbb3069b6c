/**
 * The 4-level page tables of vmm.c as words in physical memory, and the invariant that makes
 * them a tree with shared kernel subtrees. Tables are addressed by physical frame number.
 */
module PageTables {
  import opened Bits
  import opened PmmSpec

  const ENTRIES := 512
  const HUGE_SIZE := 0x20_0000
  const RECURSIVE_INDEX := 510
  const KERNEL_HALF := 256

  const PT_PRESENT := 0x001
  const PT_WRITABLE := 0x002
  const PT_HUGE := 0x080
  const PT_GLOBAL := 0x100

  type Index = i: nat | i < ENTRIES

  function Zeros(n: nat): (s: seq<nat>)
    ensures |s| == n && forall i :: 0 <= i < n ==> s[i] == 0
  {
    seq(n, _ => 0)
  }

  type Table = t: seq<nat> | |t| == ENTRIES witness Zeros(ENTRIES)

  /** Physical memory by frame; a frame that was never written reads as zero. */
  type Ram = map<nat, Table>

  function TableAt(ram: Ram, f: nat): Table {
    if f in ram then ram[f] else Zeros(ENTRIES)
  }

  function Entry(ram: Ram, f: nat, i: Index): nat {
    TableAt(ram, f)[i]
  }

  function Put(ram: Ram, f: nat, i: Index, e: nat): Ram {
    ram[f := TableAt(ram, f)[i := e]]
  }

  // ---- entries ----

  predicate Present(e: nat) {
    Bit(e, 0)
  }

  predicate IsHuge(e: nat) {
    Bit(e, 7)
  }

  /** The frame of `e & PAGE_MASK`. The mask keeps every bit from 12 up, bit 63 included. */
  function Target(e: nat): nat {
    e / PAGE_SIZE
  }

  /** The word stored in a parent for a new table: its address with PRESENT and WRITABLE. */
  function TableWord(f: nat): nat {
    Or(f * PAGE_SIZE, PT_PRESENT + PT_WRITABLE)
  }

  lemma PageBits()
    ensures Pow2(12) == PAGE_SIZE && Pow2(21) == HUGE_SIZE
  {
    assert Pow2(8) == 0x100 && Pow2(16) == 0x1_0000;
  }

  lemma {:induction false} BitAbove(a: nat, k: nat)
    requires a % Pow2(k) == 0
    ensures forall j: nat :: j < k ==> !Bit(a, j)
  {
    if k > 0 {
      HalfMultiple(a, k);
      BitAbove(a / 2, k - 1);
      forall j: nat | j < k ensures !Bit(a, j) {
        if j > 0 { assert !Bit(a / 2, j - 1); }
      }
    }
  }

  /** An entry made of a page-aligned address and flags in the low 12 bits keeps both apart. */
  lemma EntryFields(f: nat, flags: nat)
    requires flags < PAGE_SIZE
    ensures Or(f * PAGE_SIZE, flags) == f * PAGE_SIZE + flags
    ensures Target(Or(f * PAGE_SIZE, flags)) == f
    ensures Present(Or(f * PAGE_SIZE, flags)) <==> Present(flags)
    ensures IsHuge(Or(f * PAGE_SIZE, flags)) <==> IsHuge(flags)
  {
    PageBits();
    assert f * PAGE_SIZE % PAGE_SIZE == 0;
    OrDisjoint(f * PAGE_SIZE, flags, 12);
    BitOr(f * PAGE_SIZE, flags, 0);
    BitOr(f * PAGE_SIZE, flags, 7);
    BitAbove(f * PAGE_SIZE, 12);
  }

  lemma TableWordFields(f: nat)
    ensures Target(TableWord(f)) == f && Present(TableWord(f)) && !IsHuge(TableWord(f))
  {
    EntryFields(f, 3);
    assert !Bit(3, 7);
  }

  // ---- walking ----

  datatype Path = Path(i4: Index, i3: Index, i2: Index, i1: Index)

  /** PML4_INDEX, PDPT_INDEX, PD_INDEX and PT_INDEX of a virtual address. */
  function PathOf(v: nat): Path {
    Path(v / 0x80_0000_0000 % ENTRIES, v / 0x4000_0000 % ENTRIES, v / 0x20_0000 % ENTRIES, v / 0x1000 % ENTRIES)
  }

  datatype Leaf = Small(entry: nat) | Huge(entry: nat)

  function Next(ram: Ram, table: nat, i: Index): Option<nat> {
    if Present(Entry(ram, table, i)) then Some(Target(Entry(ram, table, i))) else None
  }

  /** The page directory on the path from `root`. */
  function PdOf(ram: Ram, root: nat, p: Path): Option<nat> {
    match Next(ram, root, p.i4)
    case None => None
    case Some(pdpt) => Next(ram, pdpt, p.i3)
  }

  predicate HugeCovered(ram: Ram, root: nat, p: Path) {
    match PdOf(ram, root, p)
    case None => false
    case Some(pd) => Present(Entry(ram, pd, p.i2)) && IsHuge(Entry(ram, pd, p.i2))
  }

  /** The page table on the path, when the page directory entry is one. */
  function PtOf(ram: Ram, root: nat, p: Path): Option<nat> {
    match PdOf(ram, root, p)
    case None => None
    case Some(pd) => if HugeCovered(ram, root, p) then None else Next(ram, pd, p.i2)
  }

  function SmallLeaf(e: nat): Option<Leaf> {
    if Present(e) then Some(Small(e)) else None
  }

  function HugeLeaf(e: nat): Option<Leaf> {
    if Present(e) then Some(Huge(e)) else None
  }

  /** The leaf entry that a translation of this path ends at. */
  function Walk(ram: Ram, root: nat, p: Path): Option<Leaf> {
    match PdOf(ram, root, p)
    case None => None
    case Some(pd) =>
      var e := Entry(ram, pd, p.i2);
      if !Present(e) then None
      else if IsHuge(e) then Some(Huge(e))
      else SmallLeaf(Entry(ram, Target(e), p.i1))
  }

  /** The physical address that a leaf gives to `v`. */
  function PhysAt(leaf: Option<Leaf>, v: nat): Option<nat> {
    match leaf
    case None => None
    case Some(Huge(e)) => Some(Or(e / HUGE_SIZE * HUGE_SIZE, v % HUGE_SIZE))
    case Some(Small(e)) => Some(Or(Target(e) * PAGE_SIZE, v % PAGE_SIZE))
  }

  /** vmm_get_phys. An option, because physical address zero is a legal result. */
  function GetPhys(ram: Ram, root: nat, v: nat): Option<nat> {
    PhysAt(Walk(ram, root, PathOf(v)), v)
  }

  // ---- the shape of the tables ----

  /** What a frame is used for: which table of which address space, by the path that leads to it. */
  datatype Node =
    | Pml4
    | Pdpt(owner: nat, i4: nat)
    | Pd(owner: nat, i4: nat, i3: nat)
    | Pt(owner: nat, i4: nat, i3: nat, i2: nat)

  type Shape = map<nat, Node>

  ghost predicate IsRoot(shape: Shape, r: nat) {
    r in shape && shape[r] == Pml4
  }

  ghost predicate Labelled(shape: Shape, f: nat, n: Node) {
    f in shape && shape[f] == n
  }

  /** A top-level entry leads to a table of its own space or is a copy of the kernel's entry. */
  ghost predicate RootEntryOk(ram: Ram, shape: Shape, k: nat, r: nat, i: Index) {
    var e := Entry(ram, r, i);
    i != RECURSIVE_INDEX && Present(e) ==>
      || Labelled(shape, Target(e), Pdpt(r, i))
      || (i >= KERNEL_HALF && Entry(ram, k, i) == e && Labelled(shape, Target(e), Pdpt(k, i)))
  }

  ghost predicate EntryOk(ram: Ram, shape: Shape, k: nat, f: nat, i: Index)
    requires f in shape
  {
    var e := Entry(ram, f, i);
    match shape[f]
    case Pml4 => RootEntryOk(ram, shape, k, f, i)
    case Pdpt(o, a) => Present(e) ==> Labelled(shape, Target(e), Pd(o, a, i))
    case Pd(o, a, b) => Present(e) && !IsHuge(e) ==> Labelled(shape, Target(e), Pt(o, a, b, i))
    case Pt(_, _, _, _) => true
  }

  ghost predicate TreeOk(ram: Ram, shape: Shape, k: nat) {
    IsRoot(shape, k) && forall f, i: Index :: f in shape ==> EntryOk(ram, shape, k, f, i)
  }

  /** Both roots reach the same subtree through top-level slot `i`. */
  ghost predicate SharesSlot(ram: Ram, r: nat, q: nat, i: Index) {
    Next(ram, r, i).Some? && Next(ram, r, i) == Next(ram, q, i)
  }

  /** Tables met on a walk carry the labels of the path. */
  lemma WalkLabels(ram: Ram, shape: Shape, k: nat, r: nat, p: Path)
    requires TreeOk(ram, shape, k) && IsRoot(shape, r) && p.i4 != RECURSIVE_INDEX
    ensures match Next(ram, r, p.i4)
      case None => true
      case Some(pdpt) =>
        pdpt in shape && shape[pdpt].Pdpt? && shape[pdpt].i4 == p.i4
        && (shape[pdpt].owner == r || (p.i4 >= KERNEL_HALF && shape[pdpt].owner == k && Next(ram, k, p.i4) == Some(pdpt)))
    ensures match PdOf(ram, r, p)
      case None => true
      case Some(pd) => Labelled(shape, pd, Pd(shape[Next(ram, r, p.i4).value].owner, p.i4, p.i3))
    ensures match PtOf(ram, r, p)
      case None => true
      case Some(pt) => Labelled(shape, pt, Pt(shape[Next(ram, r, p.i4).value].owner, p.i4, p.i3, p.i2))
  {
    assert EntryOk(ram, shape, k, r, p.i4);
    match Next(ram, r, p.i4)
    case None =>
    case Some(pdpt) =>
      assert EntryOk(ram, shape, k, pdpt, p.i3);
      match Next(ram, pdpt, p.i3)
      case None =>
      case Some(pd) => assert EntryOk(ram, shape, k, pd, p.i2);
  }

  /** Two walks meet in a page directory exactly when they share the slot and the path to it. */
  lemma WalksMeetInPd(ram: Ram, shape: Shape, k: nat, r: nat, p: Path, q: nat, w: Path)
    requires TreeOk(ram, shape, k) && IsRoot(shape, r) && IsRoot(shape, q)
    requires p.i4 != RECURSIVE_INDEX && w.i4 != RECURSIVE_INDEX
    requires PdOf(ram, r, p).Some?
    ensures PdOf(ram, q, w) == PdOf(ram, r, p) <==> p.i4 == w.i4 && p.i3 == w.i3 && SharesSlot(ram, r, q, p.i4)
  {
    WalkLabels(ram, shape, k, r, p);
    WalkLabels(ram, shape, k, q, w);
  }

  lemma WalksMeetInPt(ram: Ram, shape: Shape, k: nat, r: nat, p: Path, q: nat, w: Path)
    requires TreeOk(ram, shape, k) && IsRoot(shape, r) && IsRoot(shape, q)
    requires p.i4 != RECURSIVE_INDEX && w.i4 != RECURSIVE_INDEX
    requires PtOf(ram, r, p).Some?
    ensures PtOf(ram, q, w) == PtOf(ram, r, p) <==>
      p.i4 == w.i4 && p.i3 == w.i3 && p.i2 == w.i2 && SharesSlot(ram, r, q, p.i4)
  {
    WalkLabels(ram, shape, k, r, p);
    WalkLabels(ram, shape, k, q, w);
  }

  // ---- writes ----

  /** A leaf entry, a huge entry or an empty entry may be written without disturbing the tree. */
  ghost predicate LeafWrite(shape: Shape, t: nat, e: nat) {
    t in shape && (shape[t].Pt? || (shape[t].Pd? && (Present(e) ==> IsHuge(e))))
  }

  lemma LeafWriteKeepsTree(ram: Ram, shape: Shape, k: nat, t: nat, j: Index, e: nat)
    requires TreeOk(ram, shape, k) && LeafWrite(shape, t, e)
    ensures TreeOk(Put(ram, t, j, e), shape, k)
  {
    forall f, i: Index | f in shape ensures EntryOk(Put(ram, t, j, e), shape, k, f, i) {
      assert EntryOk(ram, shape, k, f, i);
    }
  }

  lemma LeafWriteKeepsPd(ram: Ram, shape: Shape, k: nat, t: nat, j: Index, e: nat, q: nat, w: Path)
    requires TreeOk(ram, shape, k) && LeafWrite(shape, t, e)
    requires IsRoot(shape, q) && w.i4 != RECURSIVE_INDEX
    ensures PdOf(Put(ram, t, j, e), q, w) == PdOf(ram, q, w)
    ensures Next(Put(ram, t, j, e), q, w.i4) == Next(ram, q, w.i4)
  {
    WalkLabels(ram, shape, k, q, w);
  }

  /** Writing a page table entry changes exactly the walks that end at it. */
  lemma PutLeaf(ram: Ram, shape: Shape, k: nat, t: nat, j: Index, e: nat, q: nat, w: Path)
    requires TreeOk(ram, shape, k) && t in shape && shape[t].Pt?
    requires IsRoot(shape, q) && w.i4 != RECURSIVE_INDEX
    ensures Walk(Put(ram, t, j, e), q, w) ==
      if PtOf(ram, q, w) == Some(t) && w.i1 == j then SmallLeaf(e) else Walk(ram, q, w)
  {
    LeafWriteKeepsPd(ram, shape, k, t, j, e, q, w);
    WalkLabels(ram, shape, k, q, w);
  }

  /** Writing a huge or an empty page directory entry likewise. */
  lemma PutHuge(ram: Ram, shape: Shape, k: nat, t: nat, j: Index, e: nat, q: nat, w: Path)
    requires TreeOk(ram, shape, k) && t in shape && shape[t].Pd? && (Present(e) ==> IsHuge(e))
    requires IsRoot(shape, q) && w.i4 != RECURSIVE_INDEX
    ensures Walk(Put(ram, t, j, e), q, w) ==
      if PdOf(ram, q, w) == Some(t) && w.i2 == j then HugeLeaf(e) else Walk(ram, q, w)
  {
    LeafWriteKeepsPd(ram, shape, k, t, j, e, q, w);
    WalkLabels(ram, shape, k, q, w);
  }
}
