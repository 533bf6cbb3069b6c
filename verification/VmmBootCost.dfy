/** How much memory vmm_init needs: the bound on free frames under which none of its ignored results is a failure. */
module VmmBootCost {
  import opened Bits
  import opened PmmSpec
  import opened PageTables
  import opened VmmSpec
  import opened VmmFlat
  import opened VmmShare
  import opened VmmRuns
  import opened VmmPages
  import opened VmmCost
  import opened VmmBoot

  // ---- one operation ----

  /** The absent tables that an operation of vmm_init has to create. */
  function OpNeeds(ram: Ram, k: nat, op: Op): set<Node> {
    match op
    case MapOp(_, p, _, _) => Needs(ram, k, p)
    case HugeOp(_, p, _, _) => UpperNeeds(ram, k, p)
    case _ => {}
  }

  lemma MapHugeCreates(s: Mm, shape: Shape, k: nat, r: nat, p: Path, phys: nat, flags: nat, w: Path)
    requires Sound(s, shape, k) && Target4(shape, r, p) && MapHuge(s, r, p, phys, flags).1 && w.i4 != RECURSIVE_INDEX
    ensures var ram' := MapHuge(s, r, p, phys, flags).0.ram;
      && (HasPdpt(ram', r, w) <==> HasPdpt(s.ram, r, w) || w.i4 == p.i4)
      && (HasPd(ram', r, w) <==> HasPd(s.ram, r, w) || (w.i4 == p.i4 && w.i3 == p.i3))
      && (w.i4 != p.i4 ==> (HasPt(ram', r, w) <==> HasPt(s.ram, r, w)))
  {
    EnsurePdCreates(s, shape, k, r, p);
    EnsurePdKeepsSound(s, shape, k, r, p);
    var (s1, pd) := EnsurePd(s, r, p);
    WalkLabels(s1.ram, ShapeHuge(s, shape, r, p), k, r, p);
    WalkLabels(s1.ram, ShapeHuge(s, shape, r, p), k, r, w);
    HugeEntryIsHuge(phys, flags);
    LeafWriteKeepsPd(s1.ram, ShapeHuge(s, shape, r, p), k, pd.value, p.i2, HugeEntry(phys, flags), r, w);
  }

  /** An operation takes the frames of the tables it needs, or fails for want of one. */
  lemma OpCosts(s: Mm, shape: Shape, k: nat, op: Op)
    requires Sound(s, shape, k) && BootOp(op, k) && Legal(s, shape, op)
    ensures var (s', ok) := Apply(s, k, op);
      && (ok <==> |OpNeeds(s.ram, k, op)| <= FreeCount(s.pmm))
      && (ok ==> FreeCount(s'.pmm) + |OpNeeds(s.ram, k, op)| == FreeCount(s.pmm))
  {
    match op
    case MapOp(_, p, phys, flags) => MapIsDecided(s, shape, k, k, p, phys, flags);
    case HugeOp(_, p, phys, flags) =>
      NeedsCount(s.ram, k, p);
      EnsurePdCounts(s, shape, k, k, p);
  }

  /** What any other operation still needs afterwards. */
  lemma OpLeaves(s: Mm, shape: Shape, k: nat, op: Op, next: Op)
    requires Sound(s, shape, k) && BootOp(op, k) && Legal(s, shape, op) && Apply(s, k, op).1 && BootOp(next, k)
    ensures OpNeeds(Apply(s, k, op).0.ram, k, next) == OpNeeds(s.ram, k, next) - OpNeeds(s.ram, k, op)
  {
    match op
    case MapOp(_, p, phys, flags) =>
      MapPageCreates(s, shape, k, k, p, phys, flags);
      NeedsAfter(s.ram, MapPage(s, k, p, phys, flags).0.ram, k, p, next.p);
    case HugeOp(_, p, phys, flags) =>
      MapHugeCreates(s, shape, k, k, p, phys, flags, next.p);
  }

  // ---- a run ----

  function AbsentFor(ram: Ram, k: nat, ops: seq<Op>): set<Node> {
    if ops == [] then {} else AbsentFor(ram, k, ops[..|ops| - 1]) + OpNeeds(ram, k, ops[|ops| - 1])
  }

  ghost predicate BootSpent(s: Mm, k: nat, done: seq<Op>, s': Mm) {
    && FreeCount(s'.pmm) + |AbsentFor(s.ram, k, done)| == FreeCount(s.pmm)
    && forall op :: BootOp(op, k) ==> OpNeeds(s'.ram, k, op) == OpNeeds(s.ram, k, op) - AbsentFor(s.ram, k, done)
  }

  lemma SpentOnward(s: Mm, shape: Shape, k: nat, ops: seq<Op>, s1: Mm, shape1: Shape)
    requires ops != [] && BootOp(ops[|ops| - 1], k) && BootSpent(s, k, ops[..|ops| - 1], s1)
    requires Sound(s1, shape1, k) && Legal(s1, shape1, ops[|ops| - 1])
    ensures var (s2, ok) := Apply(s1, k, ops[|ops| - 1]);
      && (ok <==> |AbsentFor(s.ram, k, ops)| <= FreeCount(s.pmm))
      && (ok ==> BootSpent(s, k, ops, s2))
  {
    var init, op := ops[..|ops| - 1], ops[|ops| - 1];
    CardinalitySum(AbsentFor(s.ram, k, init), OpNeeds(s.ram, k, op));
    OpCosts(s1, shape1, k, op);
    if Apply(s1, k, op).1 {
      forall next | BootOp(next, k)
        ensures OpNeeds(Apply(s1, k, op).0.ram, k, next) == OpNeeds(s.ram, k, next) - AbsentFor(s.ram, k, ops)
      {
        OpLeaves(s1, shape1, k, op, next);
      }
    }
  }

  /** A run of vmm_init's operations succeeds throughout exactly when the absent tables fit into the free frames. */
  lemma {:induction false} RunIsDecided(s: Mm, shape: Shape, k: nat, ops: seq<Op>)
    requires Sound(s, shape, k) && LegalRun(s, shape, k, ops) && forall op <- ops :: BootOp(op, k)
    ensures AllSucceed(s, k, ops) <==> |AbsentFor(s.ram, k, ops)| <= FreeCount(s.pmm)
    ensures AllSucceed(s, k, ops) ==> BootSpent(s, k, ops, RunOps(s, k, ops))
  {
    if ops != [] {
      var init := ops[..|ops| - 1];
      assert ops[|ops| - 1] in ops && forall o <- init :: o in ops;
      RunIsDecided(s, shape, k, init);
      RunKeepsSound(s, shape, k, init);
      if AllSucceed(s, k, init) {
        SpentOnward(s, shape, k, ops, RunOps(s, k, init), ShapeRun(s, shape, k, init));
      } else {
        CardinalitySum(AbsentFor(s.ram, k, init), OpNeeds(s.ram, k, ops[|ops| - 1]));
      }
    }
  }

  // ---- counting the tables ----

  /** Tables for `m` kernel pages, each count rounded up: page tables, page directories, and tables below the root. */
  function KernelTables(m: nat): nat {
    (m + 0x1FF) / 0x200 + (m + 0x3_FFFF) / 0x4_0000 + (m + 0x7FF_FFFF) / 0x800_0000
  }

  /** The identity map takes two tables and the VGA page three. */
  function BootTables(m: nat): nat {
    2 + KernelTables(m) + 3
  }

  lemma RoundedUp(m: nat, d: nat)
    requires d > 0
    ensures (m + d) / d == (m + (d - 1)) / d + if m % d == 0 then 1 else 0
  {
    var q, r := m / d, m % d;
    if r == 0 {
      DivModUnique(m + (d - 1), d, q, d - 1);
      DivModUnique(m + d, d, q + 1, 0);
    } else {
      DivModUnique(m + (d - 1), d, q + 1, r - 1);
      DivModUnique(m + d, d, q + 1, r);
    }
  }

  lemma TablesStep(m: nat)
    ensures KernelTables(m + 1) - KernelTables(m) ==
      (if m % 0x200 == 0 then 1 else 0) + (if m % 0x4_0000 == 0 then 1 else 0) + (if m % 0x800_0000 == 0 then 1 else 0)
  {
    RoundedUp(m, 0x200);
    RoundedUp(m, 0x4_0000);
    RoundedUp(m, 0x800_0000);
  }
  /** The address of a page `i` pages above a multiple of `u` pages lies `i / u` such blocks above it. */
  lemma BlockOf(v: nat, i: nat, u: nat, q: nat)
    requires u > 0 && v == PAGE_SIZE * u * q + i * PAGE_SIZE
    ensures v / (PAGE_SIZE * u) == q + i / u
  {
    assert i == u * (i / u) + i % u;
    calc {
      v;
      PAGE_SIZE * u * q + (u * (i / u) + i % u) * PAGE_SIZE;
      PAGE_SIZE * u * q + PAGE_SIZE * u * (i / u) + i % u * PAGE_SIZE;
      PAGE_SIZE * u * (q + i / u) + i % u * PAGE_SIZE;
    }
    DivModUnique(v, PAGE_SIZE * u, q + i / u, i % u * PAGE_SIZE);
  }

  lemma ModShift(a: nat, x: nat)
    ensures (0x200 * a + x) % 0x200 == x % 0x200
  {
  }

  lemma AddressIndices(v: nat, i: nat)
    requires v == KERNEL_HIGHER_HALF + i * PAGE_SIZE && i < MAX_KERNEL_PAGES
    ensures PathOf(v).i4 == 256 + i / 0x800_0000
    ensures PathOf(v).i3 == i / 0x4_0000 % 0x200
    ensures PathOf(v).i2 == i / 0x200 % 0x200
  {
    BlockOf(v, i, 0x800_0000, 0x1FF_FF00);
    BlockOf(v, i, 0x4_0000, 0x3_FFFE_0000);
    BlockOf(v, i, 0x200, 0x7FF_FC00_0000);
    ModShift(0xFFFF, 256 + i / 0x800_0000);
    ModShift(0x1FF_FF00, i / 0x4_0000);
    ModShift(0x3_FFFE_0000, i / 0x200);
  }

  lemma KernelIndices(i: nat)
    requires i < MAX_KERNEL_PAGES
    ensures KernelPath(i).i4 == 256 + i / 0x800_0000
    ensures KernelPath(i).i3 == i / 0x4_0000 % 0x200
    ensures KernelPath(i).i2 == i / 0x200 % 0x200
  {
    AddressIndices(PageAddr(KERNEL_HIGHER_HALF, i), i);
  }

  lemma BlocksOfKernel(i: nat, m: nat)
    requires i < MAX_KERNEL_PAGES && m < MAX_KERNEL_PAGES
    ensures KernelPath(i).i4 == KernelPath(m).i4 <==> i / 0x800_0000 == m / 0x800_0000
    ensures KernelPath(i).i4 == KernelPath(m).i4 && KernelPath(i).i3 == KernelPath(m).i3 <==> i / 0x4_0000 == m / 0x4_0000
    ensures SameRegion(KernelPath(i), KernelPath(m)) <==> i / 0x200 == m / 0x200
  {
    KernelIndices(i);
    KernelIndices(m);
    BlockDigits(i, m);
  }

  lemma BlockDigits(i: nat, m: nat)
    ensures i / 0x4_0000 == m / 0x4_0000 <==> i / 0x800_0000 == m / 0x800_0000 && i / 0x4_0000 % 0x200 == m / 0x4_0000 % 0x200
    ensures i / 0x200 == m / 0x200 <==> i / 0x4_0000 == m / 0x4_0000 && i / 0x200 % 0x200 == m / 0x200 % 0x200
  {
    SplitDigits(i, 0x4_0000, 0x200);
    SplitDigits(m, 0x4_0000, 0x200);
    SplitDigits(i, 0x200, 0x200);
    SplitDigits(m, 0x200, 0x200);
  }

  /** The three tables below the root on a path. */
  function Triple(k: nat, p: Path): set<Node> {
    {Pdpt(k, p.i4), Pd(k, p.i4, p.i3), Pt(k, p.i4, p.i3, p.i2)}
  }

  ghost predicate EmptyRoot(ram: Ram, k: nat) {
    forall i: Index :: Entry(ram, k, i) == 0
  }

  lemma AllAbsent(ram: Ram, k: nat, p: Path)
    requires EmptyRoot(ram, k)
    ensures Needs(ram, k, p) == Triple(k, p) && UpperNeeds(ram, k, p) == {Pdpt(k, p.i4), Pd(k, p.i4, p.i3)}
  {
    ZeroIsAbsent();
    assert Entry(ram, k, p.i4) == 0;
  }

  lemma {:induction false} HugeTables(ram: Ram, k: nat, n: nat)
    requires EmptyRoot(ram, k) && 0 < n <= HUGE_PAGES
    ensures AbsentFor(ram, k, HugeOps(k, n)) == {Pdpt(k, 0), Pd(k, 0, 0)}
  {
    HugeOpsLast(k, n);
    HugePathIndices(n - 1);
    AllAbsent(ram, k, PathOf((n - 1) * HUGE_SIZE));
    if n > 1 {
      HugeTables(ram, k, n - 1);
    }
  }

  /** The tables of the first `m` kernel pages. */
  lemma {:induction false} KernelMember(ram: Ram, k: nat, m: nat, t: Node)
    requires EmptyRoot(ram, k)
    ensures t in AbsentFor(ram, k, KernelOps(k, m)) <==> exists i :: 0 <= i < m && t in Triple(k, KernelPath(i))
  {
    if m > 0 {
      assert KernelOps(k, m)[..m - 1] == KernelOps(k, m - 1);
      AllAbsent(ram, k, KernelPath(m - 1));
      KernelMember(ram, k, m - 1, t);
      if t in Triple(k, KernelPath(m - 1)) {
        assert 0 <= m - 1 < m && t in Triple(k, KernelPath(m - 1));
      }
    }
  }

  /** Page `m` needs a new table of a level exactly when its number is a multiple of what the table covers. */
  lemma NewKernelTables(ram: Ram, k: nat, m: nat)
    requires EmptyRoot(ram, k) && m < MAX_KERNEL_PAGES
    ensures var known, p := AbsentFor(ram, k, KernelOps(k, m)), KernelPath(m);
      && (Pdpt(k, p.i4) in known <==> m % 0x800_0000 != 0)
      && (Pd(k, p.i4, p.i3) in known <==> m % 0x4_0000 != 0)
      && (Pt(k, p.i4, p.i3, p.i2) in known <==> m % 0x200 != 0)
  {
    var p := KernelPath(m);
    KernelMember(ram, k, m, Pdpt(k, p.i4));
    KernelMember(ram, k, m, Pd(k, p.i4, p.i3));
    KernelMember(ram, k, m, Pt(k, p.i4, p.i3, p.i2));
    forall i | 0 <= i < m
      ensures Pdpt(k, p.i4) in Triple(k, KernelPath(i)) <==> i / 0x800_0000 == m / 0x800_0000
      ensures Pd(k, p.i4, p.i3) in Triple(k, KernelPath(i)) <==> i / 0x4_0000 == m / 0x4_0000
      ensures Pt(k, p.i4, p.i3, p.i2) in Triple(k, KernelPath(i)) <==> i / 0x200 == m / 0x200
    {
      BlocksOfKernel(i, m);
    }
    if m > 0 {
      assert m - 1 < m;
      assert Pdpt(k, p.i4) in Triple(k, KernelPath(m - 1)) <==> (m - 1) / 0x800_0000 == m / 0x800_0000;
      assert Pd(k, p.i4, p.i3) in Triple(k, KernelPath(m - 1)) <==> (m - 1) / 0x4_0000 == m / 0x4_0000;
      assert Pt(k, p.i4, p.i3, p.i2) in Triple(k, KernelPath(m - 1)) <==> (m - 1) / 0x200 == m / 0x200;
    }
  }

  lemma OneMore<T>(x: T, rest: set<T>, known: set<T>)
    requires x !in rest
    ensures |{x} + rest - known| == |rest - known| + if x in known then 0 else 1
  {
    if x in known {
      assert {x} + rest - known == rest - known;
    } else {
      assert {x} + rest - known == {x} + (rest - known);
    }
  }

  lemma ThreeMore<T>(a: T, b: T, c: T, known: set<T>)
    requires a != b && a != c && b != c
    ensures |{a, b, c} - known| == (if a in known then 0 else 1) + (if b in known then 0 else 1) + (if c in known then 0 else 1)
  {
    var one := {c} + {};
    var two := {b} + one;
    OneMore(c, {}, known);
    OneMore(b, one, known);
    OneMore(a, two, known);
    assert {} - known == {};
    assert {a, b, c} == {a} + two;
  }

  /** How many tables of a path are new. */
  lemma TripleLess(k: nat, p: Path, known: set<Node>)
    ensures |Triple(k, p) - known| ==
      (if Pdpt(k, p.i4) in known then 0 else 1) + (if Pd(k, p.i4, p.i3) in known then 0 else 1)
      + (if Pt(k, p.i4, p.i3, p.i2) in known then 0 else 1)
  {
    ThreeMore(Pdpt(k, p.i4), Pd(k, p.i4, p.i3), Pt(k, p.i4, p.i3, p.i2), known);
  }

  lemma KernelTablesGrow(ram: Ram, k: nat, m: nat)
    requires EmptyRoot(ram, k) && m < MAX_KERNEL_PAGES
    requires |AbsentFor(ram, k, KernelOps(k, m))| == KernelTables(m)
    ensures |AbsentFor(ram, k, KernelOps(k, m + 1))| == KernelTables(m + 1)
  {
    var known, p := AbsentFor(ram, k, KernelOps(k, m)), KernelPath(m);
    assert KernelOps(k, m + 1)[..m] == KernelOps(k, m);
    AllAbsent(ram, k, p);
    CardinalitySum(known, Triple(k, p));
    NewKernelTables(ram, k, m);
    TablesStep(m);
    TripleLess(k, p, known);
  }

  lemma NoKernelTables(ram: Ram, k: nat)
    ensures AbsentFor(ram, k, KernelOps(k, 0)) == {} && KernelTables(0) == 0
  {
    assert KernelOps(k, 0) == [];
  }

  lemma {:induction false} KernelTablesCount(ram: Ram, k: nat, m: nat)
    requires EmptyRoot(ram, k) && m <= MAX_KERNEL_PAGES
    ensures |AbsentFor(ram, k, KernelOps(k, m))| == KernelTables(m)
  {
    if m == 0 {
      NoKernelTables(ram, k);
    } else {
      KernelTablesCount(ram, k, m - 1);
      KernelTablesGrow(ram, k, m - 1);
    }
  }

  lemma KernelTablesSlot(ram: Ram, k: nat, m: nat, t: Node)
    requires EmptyRoot(ram, k) && m <= MAX_KERNEL_PAGES && t in AbsentFor(ram, k, KernelOps(k, m))
    ensures !t.Pml4? && KERNEL_HALF <= t.i4 < RECURSIVE_INDEX
  {
    KernelMember(ram, k, m, t);
    var i :| 0 <= i < m && t in Triple(k, KernelPath(i));
    KernelPathSlot(i);
  }

  lemma {:induction false} AbsentForConcat(ram: Ram, k: nat, a: seq<Op>, b: seq<Op>)
    ensures AbsentFor(ram, k, a + b) == AbsentFor(ram, k, a) + AbsentFor(ram, k, b)
  {
    if b == [] {
      assert a + b == a;
    } else {
      assert (a + b)[..|a + b| - 1] == a + b[..|b| - 1];
      AbsentForConcat(ram, k, a, b[..|b| - 1]);
    }
  }

  lemma DisjointSum<T>(a: set<T>, b: set<T>, c: set<T>)
    requires a !! b && a !! c && b !! c
    ensures |a + b + c| == |a| + |b| + |c|
  {
    CardinalitySum(a, b);
    CardinalitySum(a + b, c);
    assert b - a == b && c - (a + b) == c;
  }

  lemma BootTablesAre(ram: Ram, k: nat, m: nat)
    requires EmptyRoot(ram, k)
    ensures AbsentFor(ram, k, BootOps(k, m)) == {Pdpt(k, 0), Pd(k, 0, 0)} + AbsentFor(ram, k, KernelOps(k, m)) + Triple(k, VgaPath)
  {
    HugeTables(ram, k, HUGE_PAGES);
    AllAbsent(ram, k, VgaPath);
    AbsentForConcat(ram, k, HugeOps(k, HUGE_PAGES), KernelOps(k, m));
    BootOpsLast(k, m);
  }

  lemma AroundKernel(k: nat, kernel: set<Node>)
    requires forall t | t in kernel :: !t.Pml4? && KERNEL_HALF <= t.i4 < RECURSIVE_INDEX
    ensures |{Pdpt(k, 0), Pd(k, 0, 0)} + kernel + Triple(k, VgaPath)| == 2 + |kernel| + 3
  {
    var huge, vga := {Pdpt(k, 0), Pd(k, 0, 0)}, Triple(k, VgaPath);
    DisjointSum(huge, kernel, vga);
  }

  /** The three phases need disjoint sets of tables. */
  lemma BootTablesCount(ram: Ram, k: nat, m: nat)
    requires EmptyRoot(ram, k) && m <= MAX_KERNEL_PAGES
    ensures |AbsentFor(ram, k, BootOps(k, m))| == BootTables(m)
  {
    var kernel := AbsentFor(ram, k, KernelOps(k, m));
    BootTablesAre(ram, k, m);
    KernelTablesCount(ram, k, m);
    forall t | t in kernel ensures !t.Pml4? && KERNEL_HALF <= t.i4 < RECURSIVE_INDEX { KernelTablesSlot(ram, k, m, t); }
    AroundKernel(k, kernel);
  }

  // ---- the bound ----

  /**
   * vmm_init, which ignores the result of every map call, succeeds in all of them exactly when the free
   * frames cover its top-level table and the tables that the three phases need.
   */
  lemma BootSucceeds(s: Mm, kernelEnd: nat)
    requires Ok(s.pmm) && KERNEL_LOAD <= kernelEnd && KernelPages(kernelEnd) <= MAX_KERNEL_PAGES
    ensures BootStart(s).1.Some? && AllMapsSucceed(s, kernelEnd) <==> 1 + BootTables(KernelPages(kernelEnd)) <= FreeCount(s.pmm)
  {
    AllocPageCounts(s.pmm);
    if BootStart(s).1.Some? {
      var (s1, k) := BootStart(s);
      var m := KernelPages(kernelEnd);
      BootStartIsSound(s);
      BootIsSound(s, kernelEnd);
      BootOpsAreBootOps(k.value, m);
      RunIsDecided(s1, BootShape(k.value), k.value, BootOps(k.value, m));
      assert EmptyRoot(s1.ram, k.value);
      BootTablesCount(s1.ram, k.value, m);
    }
  }

  /** With that much memory all three phases are in place after vmm_init, and none has disturbed another. */
  lemma BootMapsAll(s: Mm, kernelEnd: nat, v: nat)
    requires Ok(s.pmm) && KERNEL_LOAD <= kernelEnd && KernelPages(kernelEnd) <= MAX_KERNEL_PAGES
    requires 1 + BootTables(KernelPages(kernelEnd)) <= FreeCount(s.pmm)
    ensures BootStart(s).1.Some?
    ensures var ram, k := Boot(s, kernelEnd).0.ram, BootStart(s).1.value;
      && (v < 0x4000_0000 ==> GetPhys(ram, k, v) == Some(v))
      && (v < kernelEnd - KERNEL_LOAD ==> GetPhys(ram, k, KERNEL_HIGHER_HALF + v) == Some(KERNEL_LOAD + v))
      && (v < PAGE_SIZE ==> GetPhys(ram, k, VGA_VIRT + v) == Some(VGA_PHYS + v))
  {
    BootSucceeds(s, kernelEnd);
    if v < 0x4000_0000 { BootMapsIdentity(s, kernelEnd, v); }
    if v < kernelEnd - KERNEL_LOAD { BootMapsKernel(s, kernelEnd, v); }
    if v < PAGE_SIZE { BootMapsVga(s, kernelEnd, v); }
  }
}
