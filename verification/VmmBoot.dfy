/** vmm_init: identity map, kernel image and VGA page, three phases that do not disturb one another. */
module VmmBoot {
  import opened Bits
  import opened PmmSpec
  import opened PageTables
  import opened VmmSpec
  import opened VmmFlat
  import opened VmmRuns
  import opened VmmPages

  const HUGE_PAGES := 512
  const KERNEL_LOAD := 0x10_0000
  const VGA_VIRT := 0xFFFF_FFFF_800B_8000
  const VGA_PHYS := 0xB_8000
  const HUGE_FLAGS := 0x083
  const KERNEL_FLAGS := 0x103

  /** Page tables for slots 256 to 509: all that fits below the recursive slot. */
  const MAX_KERNEL_PAGES := 254 * 512 * 512 * 512

  function IdentityOp(k: nat, addr: nat): Op {
    HugeOp(k, PathOf(addr), addr, HUGE_FLAGS)
  }

  function HugeOps(k: nat, n: nat): seq<Op>
    requires n <= HUGE_PAGES
  {
    seq(n, i requires 0 <= i < n => IdentityOp(k, i * HUGE_SIZE))
  }

  /** The page of the kernel image at offset `i * PAGE_SIZE`. */
  function KernelPath(i: nat): Path {
    PathOf(PageAddr(KERNEL_HIGHER_HALF, i))
  }

  function KernelOp(k: nat, i: nat): Op {
    MapOp(k, KernelPath(i), KERNEL_LOAD + i * PAGE_SIZE, KERNEL_FLAGS)
  }

  function KernelOps(k: nat, m: nat): seq<Op> {
    seq(m, i requires 0 <= i < m => KernelOp(k, i))
  }

  /** The indices of VGA_VIRT. */
  const VgaPath := Path(511, 510, 0, 0xB8)

  function VgaOp(k: nat): Op {
    MapOp(k, VgaPath, VGA_PHYS, KERNEL_FLAGS)
  }

  /** Iterations of the kernel loop: `off < kernel_size`, stepping by a page. */
  function KernelPages(kernelEnd: nat): nat
    requires KERNEL_LOAD <= kernelEnd
  {
    (kernelEnd - KERNEL_LOAD + PAGE_SIZE - 1) / PAGE_SIZE
  }

  function BootOps(k: nat, m: nat): seq<Op> {
    HugeOps(k, HUGE_PAGES) + KernelOps(k, m) + [VgaOp(k)]
  }

  /** The cleared top-level table that vmm_init starts from; no table is the kernel's panic. */
  function BootStart(s: Mm): (Mm, Option<nat>) {
    match AllocPage(s.pmm)
    case (pmm, None) => (Mm(s.ram, pmm), None)
    case (pmm, Some(k)) => (Mm(s.ram[k := Zeros(ENTRIES)], pmm), Some(k))
  }

  /** vmm_init. The result of each map call is ignored, as the source ignores it. */
  function Boot(s: Mm, kernelEnd: nat): (Mm, Option<nat>)
    requires KERNEL_LOAD <= kernelEnd
  {
    match BootStart(s)
    case (s1, None) => (s1, None)
    case (s1, Some(k)) =>
      var s2 := RunOps(s1, k, BootOps(k, KernelPages(kernelEnd)));
      (s2.(ram := Put(s2.ram, k, RECURSIVE_INDEX, TableWord(k))), Some(k))
  }

  // ---- where the three phases live ----

  lemma HugePathIndices(i: nat)
    requires i < HUGE_PAGES
    ensures PathOf(i * HUGE_SIZE) == Path(0, 0, i, 0)
  {
  }

  lemma KernelPathSlot(i: nat)
    requires i < MAX_KERNEL_PAGES
    ensures KERNEL_HALF <= KernelPath(i).i4 < RECURSIVE_INDEX
  {
    assert PageAddr(KERNEL_HIGHER_HALF, i) == KERNEL_HIGHER_HALF + i * PAGE_SIZE;
  }

  lemma VgaPathIndices(d: nat)
    requires d < PAGE_SIZE
    ensures PathOf(VGA_VIRT + d) == VgaPath && (VGA_VIRT + d) % PAGE_SIZE == d
  {
    var v := VGA_VIRT + d;
    DivModUnique(v, PAGE_SIZE, VGA_VIRT / PAGE_SIZE, d);
    DivModUnique(v, 0x20_0000, VGA_VIRT / 0x20_0000, VGA_VIRT % 0x20_0000 + d);
    DivModUnique(v, 0x4000_0000, VGA_VIRT / 0x4000_0000, VGA_VIRT % 0x4000_0000 + d);
    DivModUnique(v, 0x80_0000_0000, VGA_VIRT / 0x80_0000_0000, VGA_VIRT % 0x80_0000_0000 + d);
  }

  lemma KernelPathsDiffer(i: nat, j: nat)
    requires i < j < MAX_KERNEL_PAGES
    ensures KernelPath(i) != KernelPath(j)
  {
    PagesAreDistinct(KERNEL_HIGHER_HALF, MAX_KERNEL_PAGES);
    var paths := PagePaths(KERNEL_HIGHER_HALF, MAX_KERNEL_PAGES);
    assert paths[i] == KernelPath(i) && paths[j] == KernelPath(j);
  }

  // ---- the run is legal ----

  predicate BootOp(op: Op, k: nat) {
    match op
    case MapOp(r, p, _, _) => r == k && p.i4 != RECURSIVE_INDEX && p.i4 != 0
    case HugeOp(r, p, _, _) => r == k && p.i4 == 0
    case _ => false
  }

  lemma BootOpsAreBootOps(k: nat, m: nat)
    requires m <= MAX_KERNEL_PAGES
    ensures forall op :: op in BootOps(k, m) ==> BootOp(op, k)
  {
    forall i | 0 <= i < HUGE_PAGES ensures BootOp(HugeOps(k, HUGE_PAGES)[i], k) { HugePathIndices(i); }
    forall i | 0 <= i < m ensures BootOp(KernelOps(k, m)[i], k) { KernelPathSlot(i); }
  }

  /** Huge leaves stay in slot 0, whatever succeeds or fails. */
  lemma {:induction false} NoHugeLeafAbove(s: Mm, k: nat, ops: seq<Op>, w: Path)
    requires (forall op :: op in ops ==> BootOp(op, k)) && w.i4 != 0
    ensures var leaf := FlatRun(Log(s, k, ops, k, w.i4), w, None); leaf.Some? ==> leaf.value.Small?
  {
    if ops != [] {
      assert ops[|ops| - 1] in ops;
      NoHugeLeafAbove(s, k, ops[..|ops| - 1], w);
      OwnStep(s, k, ops, k, w, None);
    }
  }

  lemma {:induction false} BootRunIsLegal(s: Mm, shape: Shape, k: nat, ops: seq<Op>)
    requires Sound(s, shape, k) && (forall op :: op in ops ==> BootOp(op, k))
    requires forall w: Path :: w.i4 != RECURSIVE_INDEX ==> Walk(s.ram, k, w) == None
    ensures LegalRun(s, shape, k, ops)
  {
    if ops != [] {
      var init, op := ops[..|ops| - 1], ops[|ops| - 1];
      assert op in ops;
      BootRunIsLegal(s, shape, k, init);
      RunKeepsSound(s, shape, k, init);
      assert Labelled(ShapeRun(s, shape, k, init), k, Pml4);
      if op.MapOp? {
        RunIsFlat(s, shape, k, init, k, op.p);
        NoHugeLeafAbove(s, k, init, op.p);
        HugeCoveredIsHugeLeaf(RunOps(s, k, init).ram, k, op.p);
      }
    }
  }

  // ---- what the run maps when every allocation succeeds ----

  /** No call of the run fails. */
  predicate AllSucceed(s: Mm, k: nat, ops: seq<Op>) {
    ops == [] || (AllSucceed(s, k, ops[..|ops| - 1]) && Apply(RunOps(s, k, ops[..|ops| - 1]), k, ops[|ops| - 1]).1)
  }

  /** The identity map of the first gigabyte. */
  function IdentityLeaf(n: nat, w: Path): Option<Leaf> {
    if w.i4 == 0 && w.i3 == 0 && w.i2 < n then HugeLeaf(HugeEntry(w.i2 * HUGE_SIZE, HUGE_FLAGS)) else None
  }

  lemma {:induction false} IdentityRun(s: Mm, k: nat, n: nat, w: Path)
    requires n <= HUGE_PAGES && AllSucceed(s, k, HugeOps(k, n))
    ensures FlatRun(Log(s, k, HugeOps(k, n), k, w.i4), w, None) == IdentityLeaf(n, w)
  {
    if n > 0 {
      HugeOpsLast(k, n);
      IdentityRun(s, k, n - 1, w);
      HugePathIndices(n - 1);
      OwnStep(s, k, HugeOps(k, n), k, w, None);
    }
  }

  ghost predicate IsKernelPage(m: nat, w: Path) {
    exists i :: 0 <= i < m && w == KernelPath(i)
  }

  lemma HugeOpsLast(k: nat, n: nat)
    requires 0 < n <= HUGE_PAGES
    ensures HugeOps(k, n)[..n - 1] == HugeOps(k, n - 1)
  {
  }

  lemma BootOpsLast(k: nat, m: nat)
    ensures var ops := BootOps(k, m); ops[..|ops| - 1] == HugeOps(k, HUGE_PAGES) + KernelOps(k, m)
  {
  }

  lemma KernelOpsLast(k: nat, m: nat)
    requires m > 0
    ensures var ops := HugeOps(k, HUGE_PAGES) + KernelOps(k, m);
      ops[..|ops| - 1] == HugeOps(k, HUGE_PAGES) + KernelOps(k, m - 1)
      && ops[|ops| - 1] == KernelOp(k, m - 1)
  {
    assert KernelOps(k, m)[..m - 1] == KernelOps(k, m - 1);
  }

  lemma KernelRunGrows(s: Mm, k: nat, m: nat)
    ensures RunOps(s, k, HugeOps(k, HUGE_PAGES) + KernelOps(k, m + 1)) ==
      Apply(RunOps(s, k, HugeOps(k, HUGE_PAGES) + KernelOps(k, m)), k, KernelOp(k, m)).0
  {
    KernelOpsLast(k, m + 1);
  }

  lemma HugeRunGrows(s: Mm, k: nat, n: nat)
    requires n < HUGE_PAGES
    ensures RunOps(s, k, HugeOps(k, n + 1)) == Apply(RunOps(s, k, HugeOps(k, n)), k, IdentityOp(k, n * HUGE_SIZE)).0
  {
    HugeOpsLast(k, n + 1);
  }

  lemma BootRunEnds(s: Mm, k: nat, m: nat)
    ensures RunOps(s, k, BootOps(k, m)) ==
      Apply(RunOps(s, k, HugeOps(k, HUGE_PAGES) + KernelOps(k, m)), k, VgaOp(k)).0
  {
    BootOpsLast(k, m);
  }

  lemma KernelPageCount(kernelEnd: nat, n: nat)
    requires KERNEL_LOAD <= kernelEnd
    ensures n * PAGE_SIZE < kernelEnd - KERNEL_LOAD <==> n < KernelPages(kernelEnd)
  {
  }

  function KernelPageLeaf(i: nat): Option<Leaf> {
    SmallLeaf(SmallEntry(KERNEL_LOAD + i * PAGE_SIZE, KERNEL_FLAGS))
  }

  /** The leaf of `w` when the first `m` kernel pages have been mapped. */
  ghost function KernelLeaf(s: Mm, k: nat, m: nat, w: Path): Option<Leaf> {
    FlatRun(Log(s, k, HugeOps(k, HUGE_PAGES) + KernelOps(k, m), k, w.i4), w, None)
  }

  lemma KernelStep(s: Mm, k: nat, m: nat, w: Path)
    requires m > 0 && AllSucceed(s, k, HugeOps(k, HUGE_PAGES) + KernelOps(k, m))
    ensures AllSucceed(s, k, HugeOps(k, HUGE_PAGES) + KernelOps(k, m - 1))
    ensures KernelLeaf(s, k, m, w) ==
      if w == KernelPath(m - 1) then KernelPageLeaf(m - 1)
      else KernelLeaf(s, k, m - 1, w)
  {
    KernelOpsLast(k, m);
    OwnStep(s, k, HugeOps(k, HUGE_PAGES) + KernelOps(k, m), k, w, None);
  }

  lemma KernelSkips(s: Mm, k: nat, m: nat, w: Path)
    requires m > 0 && AllSucceed(s, k, HugeOps(k, HUGE_PAGES) + KernelOps(k, m)) && w != KernelPath(m - 1)
    ensures AllSucceed(s, k, HugeOps(k, HUGE_PAGES) + KernelOps(k, m - 1))
    ensures KernelLeaf(s, k, m, w) == KernelLeaf(s, k, m - 1, w)
  {
    KernelStep(s, k, m, w);
  }

  /** Once mapped, a kernel page keeps its leaf while later pages are mapped. */
  lemma {:induction false} KernelRunKeeps(s: Mm, k: nat, n: nat, m: nat, w: Path)
    requires n <= m && AllSucceed(s, k, HugeOps(k, HUGE_PAGES) + KernelOps(k, m))
    requires forall j :: n <= j < m ==> w != KernelPath(j)
    ensures AllSucceed(s, k, HugeOps(k, HUGE_PAGES) + KernelOps(k, n))
    ensures KernelLeaf(s, k, m, w) == KernelLeaf(s, k, n, w)
  {
    if n < m {
      KernelSkips(s, k, m, w);
      KernelRunKeeps(s, k, n, m - 1, w);
    }
  }

  lemma KernelRunHits(s: Mm, k: nat, m: nat, i: nat, w: Path)
    requires i < m <= MAX_KERNEL_PAGES && AllSucceed(s, k, HugeOps(k, HUGE_PAGES) + KernelOps(k, m)) && w == KernelPath(i)
    ensures KernelLeaf(s, k, m, w) == KernelPageLeaf(i)
  {
    forall j | i + 1 <= j < m ensures w != KernelPath(j) { KernelPathsDiffer(i, j); }
    KernelRunKeeps(s, k, i + 1, m, w);
    KernelStep(s, k, i + 1, w);
  }

  lemma {:induction false} KernelRunMisses(s: Mm, k: nat, m: nat, w: Path)
    requires m <= MAX_KERNEL_PAGES && AllSucceed(s, k, HugeOps(k, HUGE_PAGES) + KernelOps(k, m)) && !IsKernelPage(m, w)
    ensures KernelLeaf(s, k, m, w) == IdentityLeaf(HUGE_PAGES, w)
  {
    if m == 0 {
      assert HugeOps(k, HUGE_PAGES) + KernelOps(k, 0) == HugeOps(k, HUGE_PAGES);
      IdentityRun(s, k, HUGE_PAGES, w);
    } else {
      KernelStep(s, k, m, w);
      FewerKernelPages(m, w);
      KernelRunMisses(s, k, m - 1, w);
    }
  }

  lemma FewerKernelPages(m: nat, w: Path)
    requires m > 0 && !IsKernelPage(m, w)
    ensures w != KernelPath(m - 1) && !IsKernelPage(m - 1, w)
  {
  }

  /** The leaf of `w` after all three phases. */
  ghost function BootLeaf(s: Mm, k: nat, m: nat, w: Path): Option<Leaf> {
    FlatRun(Log(s, k, BootOps(k, m), k, w.i4), w, None)
  }

  lemma VgaStep(s: Mm, k: nat, m: nat, w: Path)
    requires AllSucceed(s, k, BootOps(k, m))
    ensures AllSucceed(s, k, HugeOps(k, HUGE_PAGES) + KernelOps(k, m))
    ensures BootLeaf(s, k, m, w) == if w == VgaPath then SmallLeaf(SmallEntry(VGA_PHYS, KERNEL_FLAGS)) else KernelLeaf(s, k, m, w)
  {
    BootOpsLast(k, m);
    OwnStep(s, k, BootOps(k, m), k, w, None);
  }

  lemma BootRun(s: Mm, k: nat, m: nat, w: Path)
    requires m <= MAX_KERNEL_PAGES && AllSucceed(s, k, BootOps(k, m))
    ensures w == VgaPath ==> BootLeaf(s, k, m, w) == SmallLeaf(SmallEntry(VGA_PHYS, KERNEL_FLAGS))
    ensures forall i :: 0 <= i < m && w == KernelPath(i) ==>
      BootLeaf(s, k, m, w) == KernelPageLeaf(i)
    ensures w != VgaPath && !IsKernelPage(m, w) ==> BootLeaf(s, k, m, w) == IdentityLeaf(HUGE_PAGES, w)
  {
    VgaStep(s, k, m, w);
    forall i | 0 <= i < m && w == KernelPath(i)
      ensures BootLeaf(s, k, m, w) == KernelPageLeaf(i)
    {
      KernelPathSlot(i);
      KernelRunHits(s, k, m, i, w);
    }
    if !IsKernelPage(m, w) {
      KernelRunMisses(s, k, m, w);
    }
  }

  // ---- the result of vmm_init ----

  ghost function BootShape(k: nat): Shape {
    map[k := Pml4]
  }

  lemma BootStartIsSound(s: Mm)
    requires Ok(s.pmm) && BootStart(s).1.Some?
    ensures Sound(BootStart(s).0, BootShape(BootStart(s).1.value), BootStart(s).1.value)
    ensures forall w: Path :: Walk(BootStart(s).0.ram, BootStart(s).1.value, w) == None
  {
    AllocPageIsFresh(s.pmm);
    ZeroIsAbsent();
    var (s1, k) := BootStart(s);
    forall f, i: Index | f in BootShape(k.value) ensures EntryOk(s1.ram, BootShape(k.value), k.value, f, i) {
      assert Entry(s1.ram, k.value, i) == 0;
    }
  }

  /** The recursive entry is written outside every walk. */
  lemma RecursiveEntryIsUnseen(ram: Ram, shape: Shape, k: nat, w: Path)
    requires TreeOk(ram, shape, k) && Target4(shape, k, w)
    ensures TreeOk(Put(ram, k, RECURSIVE_INDEX, TableWord(k)), shape, k)
    ensures Walk(Put(ram, k, RECURSIVE_INDEX, TableWord(k)), k, w) == Walk(ram, k, w)
  {
    var ram' := Put(ram, k, RECURSIVE_INDEX, TableWord(k));
    forall f, i: Index | f in shape ensures EntryOk(ram', shape, k, f, i) {
      assert EntryOk(ram, shape, k, f, i);
    }
    WalkLabels(ram, shape, k, k, w);
  }

  /** After vmm_init the kernel space is well formed, even if some of its maps failed. */
  lemma BootIsSound(s: Mm, kernelEnd: nat)
    requires Ok(s.pmm) && BootStart(s).1.Some? && KERNEL_LOAD <= kernelEnd
    requires KernelPages(kernelEnd) <= MAX_KERNEL_PAGES
    ensures var (s1, k) := BootStart(s);
      LegalRun(s1, BootShape(k.value), k.value, BootOps(k.value, KernelPages(kernelEnd)))
      && Sound(Boot(s, kernelEnd).0, ShapeRun(s1, BootShape(k.value), k.value, BootOps(k.value, KernelPages(kernelEnd))), k.value)
  {
    var (s1, k) := BootStart(s);
    var ops := BootOps(k.value, KernelPages(kernelEnd));
    BootStartIsSound(s);
    BootOpsAreBootOps(k.value, KernelPages(kernelEnd));
    BootRunIsLegal(s1, BootShape(k.value), k.value, ops);
    RunKeepsSound(s1, BootShape(k.value), k.value, ops);
    RecursiveEntryIsUnseen(RunOps(s1, k.value, ops).ram, ShapeRun(s1, BootShape(k.value), k.value, ops), k.value, Path(0, 0, 0, 0));
  }

  lemma BootWalk(s: Mm, kernelEnd: nat, w: Path)
    requires Ok(s.pmm) && BootStart(s).1.Some? && KERNEL_LOAD <= kernelEnd
    requires KernelPages(kernelEnd) <= MAX_KERNEL_PAGES && w.i4 != RECURSIVE_INDEX
    ensures var (s1, k) := BootStart(s);
      Walk(Boot(s, kernelEnd).0.ram, k.value, w) ==
        FlatRun(Log(s1, k.value, BootOps(k.value, KernelPages(kernelEnd)), k.value, w.i4), w, None)
  {
    var (s1, k) := BootStart(s);
    var ops := BootOps(k.value, KernelPages(kernelEnd));
    BootStartIsSound(s);
    BootIsSound(s, kernelEnd);
    BootOpsAreBootOps(k.value, KernelPages(kernelEnd));
    RunIsFlat(s1, BootShape(k.value), k.value, ops, k.value, w);
    RunKeepsSound(s1, BootShape(k.value), k.value, ops);
    RecursiveEntryIsUnseen(RunOps(s1, k.value, ops).ram, ShapeRun(s1, BootShape(k.value), k.value, ops), k.value, w);
  }

  ghost predicate AllMapsSucceed(s: Mm, kernelEnd: nat)
    requires BootStart(s).1.Some? && KERNEL_LOAD <= kernelEnd
  {
    var (s1, k) := BootStart(s);
    AllSucceed(s1, k.value, BootOps(k.value, KernelPages(kernelEnd)))
  }

  /** The leaves of the kernel space when every map call succeeded. */
  lemma BootLeaves(s: Mm, kernelEnd: nat, w: Path)
    requires Ok(s.pmm) && BootStart(s).1.Some? && KERNEL_LOAD <= kernelEnd
    requires KernelPages(kernelEnd) <= MAX_KERNEL_PAGES && AllMapsSucceed(s, kernelEnd) && w.i4 != RECURSIVE_INDEX
    ensures var leaf := Walk(Boot(s, kernelEnd).0.ram, BootStart(s).1.value, w);
      && (w == VgaPath ==> leaf == SmallLeaf(SmallEntry(VGA_PHYS, KERNEL_FLAGS)))
      && (forall i :: 0 <= i < KernelPages(kernelEnd) && w == KernelPath(i) ==>
            leaf == KernelPageLeaf(i))
      && (w != VgaPath && !IsKernelPage(KernelPages(kernelEnd), w) ==> leaf == IdentityLeaf(HUGE_PAGES, w))
  {
    var (s1, k) := BootStart(s);
    var m := KernelPages(kernelEnd);
    BootWalk(s, kernelEnd, w);
    BootRun(s1, k.value, m, w);
  }

  lemma LowIsNoKernelPage(m: nat, w: Path)
    requires m <= MAX_KERNEL_PAGES && w.i4 == 0
    ensures w != VgaPath && !IsKernelPage(m, w)
  {
    forall i | 0 <= i < m ensures w != KernelPath(i) { KernelPathSlot(i); }
  }

  lemma BootLeafOfKernelPage(s: Mm, kernelEnd: nat, i: nat)
    requires Ok(s.pmm) && BootStart(s).1.Some? && KERNEL_LOAD <= kernelEnd
    requires KernelPages(kernelEnd) <= MAX_KERNEL_PAGES && AllMapsSucceed(s, kernelEnd) && i < KernelPages(kernelEnd)
    ensures Walk(Boot(s, kernelEnd).0.ram, BootStart(s).1.value, KernelPath(i)) ==
      KernelPageLeaf(i)
  {
    KernelPathSlot(i);
    BootLeaves(s, kernelEnd, KernelPath(i));
  }

  lemma HugeFlagsTranslate(i: nat, v: nat)
    ensures PhysAt(HugeLeaf(HugeEntry(i * HUGE_SIZE, HUGE_FLAGS)), v) == Some(i * HUGE_SIZE + v % HUGE_SIZE)
  {
    HugeEntryTranslates(i * HUGE_SIZE, HUGE_FLAGS, v);
    OrZero(i);
    assert HUGE_FLAGS / HUGE_SIZE == 0 && i * HUGE_SIZE / HUGE_SIZE == i;
  }

  lemma KernelFlagsTranslate(i: nat, v: nat)
    ensures PhysAt(SmallLeaf(SmallEntry(i * PAGE_SIZE, KERNEL_FLAGS)), v) == Some(i * PAGE_SIZE + v % PAGE_SIZE)
  {
    SmallEntryTranslates(i * PAGE_SIZE, KERNEL_FLAGS, v);
    OrZero(i);
    assert Target(KERNEL_FLAGS) == 0 && Target(i * PAGE_SIZE) == i;
  }

  lemma SamePage(a: nat, b: nat)
    requires a / PAGE_SIZE == b / PAGE_SIZE
    ensures PathOf(a) == PathOf(b)
  {
    PathsNamePages(a, b);
  }

  lemma LowPath(v: nat)
    requires v < 0x4000_0000
    ensures PathOf(v).i4 == 0 && PathOf(v).i3 == 0 && PathOf(v).i2 == v / HUGE_SIZE
  {
  }

  lemma KernelOffsetPath(off: nat)
    requires off / PAGE_SIZE < MAX_KERNEL_PAGES
    ensures PathOf(KERNEL_HIGHER_HALF + off) == KernelPath(off / PAGE_SIZE)
  {
    assert PageAddr(KERNEL_HIGHER_HALF, off / PAGE_SIZE) == KERNEL_HIGHER_HALF + off / PAGE_SIZE * PAGE_SIZE;
    SamePage(KERNEL_HIGHER_HALF + off, PageAddr(KERNEL_HIGHER_HALF, off / PAGE_SIZE));
  }

  lemma IdentityTranslates(ram: Ram, k: nat, v: nat)
    requires v < 0x4000_0000 && Walk(ram, k, PathOf(v)) == IdentityLeaf(HUGE_PAGES, PathOf(v))
    ensures GetPhys(ram, k, v) == Some(v)
  {
    LowPath(v);
    HugeFlagsTranslate(v / HUGE_SIZE, v);
  }

  lemma SmallTranslates(ram: Ram, k: nat, v: nat, f: nat)
    requires Walk(ram, k, PathOf(v)) == SmallLeaf(SmallEntry(f * PAGE_SIZE, KERNEL_FLAGS))
    ensures GetPhys(ram, k, v) == Some(f * PAGE_SIZE + v % PAGE_SIZE)
  {
    KernelFlagsTranslate(f, v);
  }

  lemma KernelTranslates(ram: Ram, k: nat, off: nat, i: nat)
    requires i == off / PAGE_SIZE < MAX_KERNEL_PAGES
    requires Walk(ram, k, KernelPath(i)) == KernelPageLeaf(i)
    ensures GetPhys(ram, k, KERNEL_HIGHER_HALF + off) == Some(KERNEL_LOAD + off)
  {
    KernelOffsetPath(off);
    assert (0x100 + i) * PAGE_SIZE == KERNEL_LOAD + i * PAGE_SIZE;
    SmallTranslates(ram, k, KERNEL_HIGHER_HALF + off, 0x100 + i);
    OffsetInPage(KERNEL_HIGHER_HALF / PAGE_SIZE, off);
  }

  lemma OffsetInPage(n: nat, d: nat)
    ensures (n * PAGE_SIZE + d) % PAGE_SIZE == d % PAGE_SIZE
  {
  }

  lemma VgaTranslates(ram: Ram, k: nat, d: nat)
    requires d < PAGE_SIZE && Walk(ram, k, VgaPath) == SmallLeaf(SmallEntry(VGA_PHYS, KERNEL_FLAGS))
    ensures GetPhys(ram, k, VGA_VIRT + d) == Some(VGA_PHYS + d)
  {
    VgaPathIndices(d);
    VgaPageTranslates(ram, k, VGA_VIRT + d, d);
  }

  lemma VgaPageTranslates(ram: Ram, k: nat, v: nat, d: nat)
    requires PathOf(v) == VgaPath && v % PAGE_SIZE == d
    requires Walk(ram, k, VgaPath) == SmallLeaf(SmallEntry(VGA_PHYS, KERNEL_FLAGS))
    ensures GetPhys(ram, k, v) == Some(VGA_PHYS + d)
  {
    assert 0xB8 * PAGE_SIZE == VGA_PHYS;
    SmallTranslates(ram, k, v, 0xB8);
  }

  /** After vmm_init the first gigabyte translates to itself. */
  lemma BootMapsIdentity(s: Mm, kernelEnd: nat, v: nat)
    requires Ok(s.pmm) && BootStart(s).1.Some? && KERNEL_LOAD <= kernelEnd
    requires KernelPages(kernelEnd) <= MAX_KERNEL_PAGES && AllMapsSucceed(s, kernelEnd) && v < 0x4000_0000
    ensures GetPhys(Boot(s, kernelEnd).0.ram, BootStart(s).1.value, v) == Some(v)
  {
    LowPath(v);
    LowIsNoKernelPage(KernelPages(kernelEnd), PathOf(v));
    BootLeaves(s, kernelEnd, PathOf(v));
    IdentityTranslates(Boot(s, kernelEnd).0.ram, BootStart(s).1.value, v);
  }

  /** Offset `off` of the kernel half translates to `off` above the load address. */
  lemma BootMapsKernel(s: Mm, kernelEnd: nat, off: nat)
    requires Ok(s.pmm) && BootStart(s).1.Some? && KERNEL_LOAD <= kernelEnd
    requires KernelPages(kernelEnd) <= MAX_KERNEL_PAGES && AllMapsSucceed(s, kernelEnd) && off < kernelEnd - KERNEL_LOAD
    ensures GetPhys(Boot(s, kernelEnd).0.ram, BootStart(s).1.value, KERNEL_HIGHER_HALF + off) == Some(KERNEL_LOAD + off)
  {
    BootLeafOfKernelPage(s, kernelEnd, off / PAGE_SIZE);
    KernelTranslates(Boot(s, kernelEnd).0.ram, BootStart(s).1.value, off, off / PAGE_SIZE);
  }

  /** The VGA page translates to the frame buffer. */
  lemma BootMapsVga(s: Mm, kernelEnd: nat, d: nat)
    requires Ok(s.pmm) && BootStart(s).1.Some? && KERNEL_LOAD <= kernelEnd
    requires KernelPages(kernelEnd) <= MAX_KERNEL_PAGES && AllMapsSucceed(s, kernelEnd) && d < PAGE_SIZE
    ensures GetPhys(Boot(s, kernelEnd).0.ram, BootStart(s).1.value, VGA_VIRT + d) == Some(VGA_PHYS + d)
  {
    BootLeaves(s, kernelEnd, VgaPath);
    VgaTranslates(Boot(s, kernelEnd).0.ram, BootStart(s).1.value, d);
  }

  // ---- page tables under the identity map ----

  lemma HugeTarget(i: nat)
    ensures Target(HugeEntry(i * HUGE_SIZE, HUGE_FLAGS)) == i * 512
  {
    EntryFields(i * 512, HUGE_FLAGS);
    ShiftOr(Or(i * HUGE_SIZE, HUGE_FLAGS), PT_HUGE);
    OrZero(i * 512);
    assert i * HUGE_SIZE == i * 512 * PAGE_SIZE && i * HUGE_SIZE / HUGE_SIZE == i;
  }

  lemma RegionPath(n: nat, i: Index)
    requires n < HUGE_PAGES
    ensures PathOf(n * HUGE_SIZE + i * PAGE_SIZE) == Path(0, 0, n, i)
  {
    var v := n * HUGE_SIZE + i * PAGE_SIZE;
    DivModUnique(v, PAGE_SIZE, n * 512 + i, 0);
    DivModUnique(v, HUGE_SIZE, n, i * PAGE_SIZE);
    DivModUnique(n * 512 + i, 512, n, i);
  }

  /**
   * The identity map covers the frames of the page tables themselves. If a table lies at the start of a
   * 2 MB region, a vmm_map_page of page `i` of that region is a write to entry `i` of the table.
   */
  lemma MapOverwritesTable(s: Mm, kernelEnd: nat, n: nat, i: Index, phys: nat, flags: nat)
    requires Ok(s.pmm) && BootStart(s).1.Some? && KERNEL_LOAD <= kernelEnd
    requires KernelPages(kernelEnd) <= MAX_KERNEL_PAGES && AllMapsSucceed(s, kernelEnd) && n < HUGE_PAGES
    ensures var (s', k) := Boot(s, kernelEnd);
      PathOf(n * HUGE_SIZE + i * PAGE_SIZE) == Path(0, 0, n, i) &&
      MapPage(s', k.value, Path(0, 0, n, i), phys, flags) == (s'.(ram := Put(s'.ram, n * 512, i, SmallEntry(phys, flags))), true)
  {
    var (s', k) := Boot(s, kernelEnd);
    var (s1, _) := BootStart(s);
    var p := Path(0, 0, n, i);
    var shape := ShapeRun(s1, BootShape(k.value), k.value, BootOps(k.value, KernelPages(kernelEnd)));
    RegionPath(n, i);
    BootIsSound(s, kernelEnd);
    BootStartIsSound(s);
    RunKeepsSound(s1, BootShape(k.value), k.value, BootOps(k.value, KernelPages(kernelEnd)));
    assert Labelled(shape, k.value, Pml4);
    LowIsNoKernelPage(KernelPages(kernelEnd), p);
    BootLeaves(s, kernelEnd, p);
    HugeEntryFields(n * HUGE_SIZE, HUGE_FLAGS);
    HugeTarget(n);
    HugeCoveredIsHugeLeaf(s'.ram, k.value, p);
    MapUnderHugeWrites(s', shape, k.value, k.value, p, phys, flags);
  }
}
