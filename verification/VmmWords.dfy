/** The words that vmm.c reads and stores, bit by bit and as numbers. */
module VmmWords {
  import opened Bits
  import opened PmmSpec
  import opened PageTables
  import opened VmmSpec
  import opened VmmFlat
  import opened VmmShare
  import opened VmmPages
  import opened VmmRuns
  import opened VmmBoot

  // ---- bits of shifted and masked words ----

  lemma BitDouble(a: nat, j: nat)
    ensures Bit(2 * a, j) <==> j > 0 && Bit(a, j - 1)
  {
    assert 2 * a / 2 == a;
  }

  /** `(a >> n) << n` */
  lemma {:induction false} BitCleared(a: nat, n: nat, j: nat)
    ensures Bit(Shr(a, n) * Pow2(n), j) <==> j >= n && Bit(a, j)
  {
    if n > 0 {
      var q := Shr(a, n);
      MulAssociates(Pow2(n - 1), q);
      assert q * Pow2(n) == 2 * (q * Pow2(n - 1));
      BitDouble(q * Pow2(n - 1), j);
      if j > 0 { BitCleared(a / 2, n - 1, j - 1); }
    }
  }

  lemma PageAndRegion(a: nat)
    ensures Shr(a, 12) == a / 4096 && Shr(a, 21) == a / 0x20_0000
  {
    PlaceValues();
    ShrDivides(a, 12);
    ShrDivides(a, 21);
  }

  /** `a & (2^n - 1)` */
  lemma {:induction false} BitKept(a: nat, n: nat, j: nat)
    ensures Bit(a % Pow2(n), j) <==> j < n && Bit(a, j)
  {
    if n == 0 {
      BitZero(j);
    } else {
      HalfRemainder(a, n);
      if j > 0 { BitKept(a / 2, n - 1, j - 1); }
    }
  }

  lemma HalfRemainder(a: nat, n: nat)
    requires n > 0
    ensures a % Pow2(n) % 2 == a % 2 && a % Pow2(n) / 2 == a / 2 % Pow2(n - 1)
  {
    var p, d := Pow2(n - 1), a / 2;
    MulAssociates(p, d / p);
    assert d == p * (d / p) + d % p;
    DivModUnique(a, 2 * p, d / p, 2 * (d % p) + a % 2);
  }

  lemma PlaceValues()
    ensures Pow2(9) == 512 && Pow2(12) == 4096 && Pow2(21) == 0x20_0000 && Pow2(30) == 0x4000_0000 && Pow2(39) == 0x80_0000_0000
  {
    assert Pow2(8) == 0x100 && Pow2(16) == 0x1_0000 && Pow2(24) == 0x100_0000 && Pow2(32) == TWO32;
  }

  /** The four indices are the 9-bit fields of the address at bits 39, 30, 21 and 12. */
  lemma PathBits(v: nat, j: nat)
    requires j < 9
    ensures Bit(PathOf(v).i4, j) <==> Bit(v, 39 + j)
    ensures Bit(PathOf(v).i3, j) <==> Bit(v, 30 + j)
    ensures Bit(PathOf(v).i2, j) <==> Bit(v, 21 + j)
    ensures Bit(PathOf(v).i1, j) <==> Bit(v, 12 + j)
  {
    PlaceValues();
    ShrDivides(v, 39);
    ShrDivides(v, 30);
    PageAndRegion(v);
    FieldBit(v, 39, j);
    FieldBit(v, 30, j);
    FieldBit(v, 21, j);
    FieldBit(v, 12, j);
  }

  lemma FieldBit(v: nat, n: nat, j: nat)
    requires j < 9
    ensures Bit(Shr(v, n) % 512, j) <==> Bit(v, n + j)
  {
    PlaceValues();
    ShrBit(v, n, j);
    BitKept(Shr(v, n), 9, j);
  }

  // ---- stored words ----

  /** vmm_map_page stores every bit of the flags and the bits of the address from 12 up, and no other. */
  lemma SmallWordBits(phys: nat, flags: nat, j: nat)
    ensures Bit(SmallEntry(phys, flags), j) <==> Bit(flags, j) || (j >= 12 && Bit(phys, j))
  {
    PlaceValues();
    BitOr(Target(phys) * PAGE_SIZE, flags, j);
    PageAndRegion(phys);
    BitCleared(phys, 12, j);
  }

  /** vmm_map_huge_page the flags, bit 7, and the bits of the address from 21 up. */
  lemma HugeWordBits(phys: nat, flags: nat, j: nat)
    ensures Bit(HugeEntry(phys, flags), j) <==> Bit(flags, j) || j == 7 || (j >= 21 && Bit(phys, j))
  {
    PlaceValues();
    BitOr(Or(phys / HUGE_SIZE * HUGE_SIZE, flags), PT_HUGE, j);
    BitOr(phys / HUGE_SIZE * HUGE_SIZE, flags, j);
    PageAndRegion(phys);
    BitCleared(phys, 21, j);
    BitPow2(7, j);
    assert Pow2(7) == PT_HUGE;
  }

  /** A new table's word is its address with PRESENT and WRITABLE. */
  lemma TableWordIs(f: nat)
    ensures TableWord(f) == f * 4096 + 3
  {
    EntryFields(f, 3);
  }

  /** With ordinary flags the leaf is the page's address plus the flags. */
  lemma SmallLeafIs(phys: nat, flags: nat)
    requires flags < 4096 && Bit(flags, 0)
    ensures SmallLeaf(SmallEntry(phys, flags)) == Some(Small(phys / 4096 * 4096 + flags))
  {
    EntryFields(phys / 4096, flags);
  }

  lemma FrameLeafIs(f: nat, flags: nat)
    requires flags < 4096 && Bit(flags, 0)
    ensures SmallLeaf(SmallEntry(f * PAGE_SIZE, flags)) == Some(Small(f * 4096 + flags))
  {
    SmallLeafIs(f * PAGE_SIZE, flags);
  }

  lemma HugeLeafIs(phys: nat, flags: nat)
    requires flags < 4096 && Bit(flags, 0)
    ensures HugeLeaf(HugeEntry(phys, flags)) == Some(Huge(phys / 0x20_0000 * 0x20_0000 + flags + if Bit(flags, 7) then 0 else 128))
  {
    HugeEntryFields(phys, flags);
    HugeWordIs(phys, flags);
  }

  lemma HugeWordIs(phys: nat, flags: nat)
    requires flags < 4096
    ensures HugeEntry(phys, flags) == phys / 0x20_0000 * 0x20_0000 + flags + if Bit(flags, 7) then 0 else 128
  {
    var h := phys / HUGE_SIZE;
    var f := h * 512;
    assert h * HUGE_SIZE == f * PAGE_SIZE;
    EntryFields(f, flags);
    EntryFields(f, FlagsWithHuge(flags));
    OrThree(f * PAGE_SIZE, flags);
  }

  /** `flags | PT_HUGE` */
  function FlagsWithHuge(flags: nat): (r: nat)
    requires flags < 4096
    ensures r == flags + (if Bit(flags, 7) then 0 else 128) && r < 4096
  {
    SetBit7(flags);
    OrBoundAt12(flags);
    Or(flags, PT_HUGE)
  }

  lemma OrBoundAt12(flags: nat)
    requires flags < 4096
    ensures Or(flags, PT_HUGE) < 4096
  {
    PlaceValues();
    OrBound(flags, PT_HUGE, 12);
  }

  /** Setting a bit adds its place value, unless it is set already. */
  lemma {:induction false} SetBit(a: nat, n: nat)
    ensures Or(a, Pow2(n)) == a + if Bit(a, n) then 0 else Pow2(n)
  {
    if a == 0 {
      BitZero(n);
    } else if n == 0 {
      assert Or(a / 2, 0) == a / 2;
    } else {
      assert Pow2(n) / 2 == Pow2(n - 1) && Pow2(n) % 2 == 0;
      SetBit(a / 2, n - 1);
    }
  }

  lemma SetBit7(flags: nat)
    ensures Or(flags, PT_HUGE) == flags + if Bit(flags, 7) then 0 else 128
  {
    assert Pow2(7) == PT_HUGE;
    SetBit(flags, 7);
  }

  lemma OrThree(a: nat, flags: nat)
    requires flags < 4096
    ensures Or(Or(a, flags), PT_HUGE) == Or(a, FlagsWithHuge(flags))
  {
    forall j: nat ensures Bit(Or(Or(a, flags), PT_HUGE), j) <==> Bit(Or(a, FlagsWithHuge(flags)), j) {
      BitOr(Or(a, flags), PT_HUGE, j);
      BitOr(a, flags, j);
      BitOr(a, Or(flags, PT_HUGE), j);
      BitOr(flags, PT_HUGE, j);
    }
    BitsDetermine(Or(Or(a, flags), PT_HUGE), Or(a, FlagsWithHuge(flags)));
  }

  // ---- translations ----

  /** The low bits of a translated address come from the virtual address, the others from the leaf. */
  lemma TranslationBits(e: nat, v: nat, j: nat)
    ensures Bit(PhysAt(Some(Small(e)), v).value, j) <==> if j < 12 then Bit(v, j) else Bit(e, j)
    ensures Bit(PhysAt(Some(Huge(e)), v).value, j) <==> if j < 21 then Bit(v, j) else Bit(e, j)
  {
    PlaceValues();
    BitOr(Target(e) * PAGE_SIZE, v % PAGE_SIZE, j);
    BitOr(e / HUGE_SIZE * HUGE_SIZE, v % HUGE_SIZE, j);
    PageAndRegion(e);
    BitCleared(e, 12, j);
    BitCleared(e, 21, j);
    BitKept(v, 12, j);
    BitKept(v, 21, j);
  }

  // ---- what the calls leave in memory ----

  /** Every word but one is as before. */
  ghost predicate OnlyWord(ram: Ram, ram': Ram, t: nat, i: Index) {
    forall g, j: Index :: g != t || j != i ==> Entry(ram', g, j) == Entry(ram, g, j)
  }

  /** get_or_create_table clears the new frame and stores its address with PRESENT and WRITABLE, and nothing else. */
  lemma NewTableWord(s: Mm, parent: nat, i: Index)
    requires !Present(Entry(s.ram, parent, i)) && GetOrCreate(s, parent, i).1.Some? && GetOrCreate(s, parent, i).1.value != parent
    ensures var (s', f) := GetOrCreate(s, parent, i);
      && Entry(s'.ram, parent, i) == f.value * 4096 + 3
      && (forall j: Index :: Entry(s'.ram, f.value, j) == 0)
      && forall g, j: Index :: g != f.value && (g != parent || j != i) ==> Entry(s'.ram, g, j) == Entry(s.ram, g, j)
  {
    TableWordIs(GetOrCreate(s, parent, i).1.value);
  }

  /** A successful vmm_map_page with ordinary flags, in numbers, for every space that sees it. */
  lemma MappedPageIs(s: Mm, shape: Shape, k: nat, r: nat, p: Path, phys: nat, flags: nat, q: nat)
    requires Sound(s, shape, k) && Target4(shape, r, p) && !HugeCovered(s.ram, r, p) && MapPage(s, r, p, phys, flags).1
    requires flags < 4096 && Bit(flags, 0) && IsRoot(shape, q) && Sees(s.ram, r, q, p.i4)
    ensures Walk(MapPage(s, r, p, phys, flags).0.ram, q, p) == Some(Small(phys / 4096 * 4096 + flags))
  {
    MapPageSeen(s, shape, k, r, p, phys, flags, q, p);
    SmallLeafIs(phys, flags);
  }

  lemma MappedRegionIs(s: Mm, shape: Shape, k: nat, r: nat, p: Path, phys: nat, flags: nat, q: nat, w: Path)
    requires Sound(s, shape, k) && Target4(shape, r, p) && MapHuge(s, r, p, phys, flags).1
    requires flags < 4096 && Bit(flags, 0) && IsRoot(shape, q) && Sees(s.ram, r, q, p.i4) && SameRegion(p, w)
    ensures Walk(MapHuge(s, r, p, phys, flags).0.ram, q, w) ==
      Some(Huge(phys / 0x20_0000 * 0x20_0000 + flags + if Bit(flags, 7) then 0 else 128))
  {
    MapHugeSeen(s, shape, k, r, p, phys, flags, q, w);
    HugeLeafIs(phys, flags);
  }

  lemma RangeLeaf(s: Mm, shape: Shape, k: nat, r: nat, paths: seq<Path>, flags: nat, q: nat, i: nat, pr: Progress)
    requires Spaces(s, shape, k, r, q) && UsableRange(s.ram, r, paths)
    requires pr == MapPages(s, r, paths, flags) && i < |pr.frames| && !pr.outcome.NoDataPage? && Sees(s.ram, r, q, paths[i].i4)
    ensures Walk(pr.s.ram, q, paths[i]) == SmallLeaf(SmallEntry(pr.frames[i] * PAGE_SIZE, flags))
  {
    MapPagesEffect(s, shape, k, r, paths, flags, q);
  }

  /** The same for each page that vmm_map_pages has mapped and kept: its own frame and the flags. */
  lemma MappedRangeIs(s: Mm, shape: Shape, k: nat, r: nat, paths: seq<Path>, flags: nat, q: nat, i: nat, f: nat)
    requires Spaces(s, shape, k, r, q) && UsableRange(s.ram, r, paths) && flags < 4096 && Bit(flags, 0)
    requires var pr := MapPages(s, r, paths, flags); i < |pr.frames| && pr.frames[i] == f && !pr.outcome.NoDataPage?
    requires Sees(s.ram, r, q, paths[i].i4)
    ensures Walk(MapPages(s, r, paths, flags).s.ram, q, paths[i]) == Some(Small(f * 4096 + flags))
  {
    RangeLeaf(s, shape, k, r, paths, flags, q, i, MapPages(s, r, paths, flags));
    FrameLeafIs(f, flags);
  }

  /** Page `i` of a range that starts at `v` is the page of every address `i` pages further on. */
  lemma RangePath(v: nat, count: nat, i: nat, a: nat)
    requires i < count && v + count * 4096 <= TWO64 && a / 4096 == v / 4096 + i
    ensures |PagePaths(v, count)| == count && PathOf(a) == PagePaths(v, count)[i]
  {
    assert PageAddr(v, i) == v + i * 4096;
    assert (v + i * 4096) / 4096 == v / 4096 + i;
    SamePage(a, v + i * 4096);
  }

  /** So each address of a range that vmm_map_pages has mapped translates to its offset in the frame of its page. */
  lemma MappedRangeTranslates(s: Mm, shape: Shape, k: nat, r: nat, v: nat, count: nat, flags: nat, q: nat, i: nat, f: nat, a: nat)
    requires Spaces(s, shape, k, r, q) && UsableRange(s.ram, r, PagePaths(v, count)) && flags < 4096 && Bit(flags, 0)
    requires i < count && v + count * 4096 <= TWO64 && a / 4096 == v / 4096 + i
    requires var pr := MapPages(s, r, PagePaths(v, count), flags); i < |pr.frames| && pr.frames[i] == f && !pr.outcome.NoDataPage?
    requires Sees(s.ram, r, q, PathOf(a).i4)
    ensures GetPhys(MapPages(s, r, PagePaths(v, count), flags).s.ram, q, a) == Some(f * 4096 + a % 4096)
  {
    RangePath(v, count, i, a);
    MappedRangeIs(s, shape, k, r, PagePaths(v, count), flags, q, i, f);
    OffsetInFrame(MapPages(s, r, PagePaths(v, count), flags).s.ram, q, a, f, flags);
  }

  lemma OffsetInFrame(ram: Ram, q: nat, a: nat, f: nat, flags: nat)
    requires flags < 4096 && Walk(ram, q, PathOf(a)) == Some(Small(f * 4096 + flags))
    ensures GetPhys(ram, q, a) == Some(f * 4096 + a % 4096)
  {
    LowBitsOfFrame(f);
    assert Target(f * 4096 + flags) == f;
  }

  /** vmm_unmap_page clears one word, of the last table or of the directory, or nothing if the walk ends before. */
  lemma UnmapClearsWord(ram: Ram, r: nat, p: Path)
    ensures match PdOf(ram, r, p)
      case None => Unmap(ram, r, p) == ram
      case Some(pd) =>
        if HugeCovered(ram, r, p) then Entry(Unmap(ram, r, p), pd, p.i2) == 0 && OnlyWord(ram, Unmap(ram, r, p), pd, p.i2)
        else match PtOf(ram, r, p)
          case None => Unmap(ram, r, p) == ram
          case Some(pt) => Entry(Unmap(ram, r, p), pt, p.i1) == 0 && OnlyWord(ram, Unmap(ram, r, p), pt, p.i1)
  {
  }

  /** A new space's top table: itself at 510, the kernel's present words from 256 up, and zero elsewhere. */
  lemma NewSpaceWords(s: Mm, k: nat, i: Index)
    requires CreateSpace(s, k).1.Some?
    ensures var (s', f) := CreateSpace(s, k);
      Entry(s'.ram, f.value, i) ==
        if i == 510 then f.value * 4096 + 3 else if 256 <= i && Bit(Entry(s.ram, k, i), 0) then Entry(s.ram, k, i) else 0
  {
    var (s', f) := CreateSpace(s, k);
    TableWordIs(f.value);
    assert Entry(s'.ram, f.value, i) == SpaceEntry(s.ram, k, f.value, i);
  }

  // ---- after vmm_init ----

  /** All of vmm_init's calls succeed. */
  ghost predicate Booted(s: Mm, kernelEnd: nat) {
    && Ok(s.pmm) && BootStart(s).1.Some? && 0x10_0000 <= kernelEnd
    && KernelPages(kernelEnd) <= MAX_KERNEL_PAGES && AllMapsSucceed(s, kernelEnd)
  }

  lemma KernelLeafIs(i: nat)
    ensures KernelPageLeaf(i) == Some(Small(0x10_0000 + i * 4096 + 0x103))
  {
    SmallLeafIs(KERNEL_LOAD + i * PAGE_SIZE, KERNEL_FLAGS);
  }

  lemma KernelPathIs(i: nat)
    requires i < MAX_KERNEL_PAGES
    ensures PathOf(0xFFFF_8000_0000_0000 + i * 4096) == KernelPath(i)
  {
    assert PageAddr(KERNEL_HIGHER_HALF, i) == 0xFFFF_8000_0000_0000 + i * 4096;
  }

  /** The kernel image is mapped page by page, present, writable and global. */
  lemma BootKernelWords(s: Mm, kernelEnd: nat, i: nat)
    requires Booted(s, kernelEnd) && i * 4096 < kernelEnd - 0x10_0000
    ensures Walk(Boot(s, kernelEnd).0.ram, BootStart(s).1.value, PathOf(0xFFFF_8000_0000_0000 + i * 4096)) ==
      Some(Small(0x10_0000 + i * 4096 + 0x103))
  {
    KernelPageCount(kernelEnd, i);
    KernelPathIs(i);
    KernelLeafIs(i);
    BootLeafOfKernelPage(s, kernelEnd, i);
  }

  lemma VgaPathIs()
    ensures PathOf(0xFFFF_FFFF_800B_8000) == VgaPath
  {
    VgaPathIndices(0);
  }

  /** So is the VGA page. */
  lemma BootVgaWord(s: Mm, kernelEnd: nat)
    requires Booted(s, kernelEnd)
    ensures Walk(Boot(s, kernelEnd).0.ram, BootStart(s).1.value, PathOf(0xFFFF_FFFF_800B_8000)) == Some(Small(0xB_8103))
  {
    VgaPathIs();
    SmallLeafIs(VGA_PHYS, KERNEL_FLAGS);
    BootLeaves(s, kernelEnd, VgaPath);
  }

  lemma IdentityWord(h: nat)
    ensures HugeLeaf(HugeEntry(h * HUGE_SIZE, HUGE_FLAGS)) == Some(Huge(h * 0x20_0000 + 0x83))
  {
    HugeLeafIs(h * HUGE_SIZE, HUGE_FLAGS);
    assert Bit(0x83, 7) by { assert Bit(0x41, 6) && Bit(0x20, 5) && Bit(0x10, 4); }
  }

  /** The first gigabyte is mapped by 512 huge pages, present and writable. */
  lemma BootIdentityWords(s: Mm, kernelEnd: nat, v: nat, n: nat)
    requires Booted(s, kernelEnd) && v < 0x4000_0000 && n == v / 0x20_0000
    ensures Walk(Boot(s, kernelEnd).0.ram, BootStart(s).1.value, PathOf(v)) == Some(Huge(n * 0x20_0000 + 0x83))
  {
    LowPath(v);
    LowIsNoKernelPage(KernelPages(kernelEnd), PathOf(v));
    BootLeaves(s, kernelEnd, PathOf(v));
    IdentityWord(n);
  }

  /** Outside the three phases nothing is mapped. */
  lemma BootMapsNothingElse(s: Mm, kernelEnd: nat, w: Path)
    requires Booted(s, kernelEnd) && w.i4 != RECURSIVE_INDEX
    requires w != PathOf(0xFFFF_FFFF_800B_8000) && !(w.i4 == 0 && w.i3 == 0)
    requires forall i: nat :: i * 4096 < kernelEnd - 0x10_0000 ==> w != KernelPath(i)
    ensures Walk(Boot(s, kernelEnd).0.ram, BootStart(s).1.value, w) == None
  {
    VgaPathIs();
    forall i | 0 <= i < KernelPages(kernelEnd) ensures w != KernelPath(i) { KernelPageCount(kernelEnd, i); }
    BootLeaves(s, kernelEnd, w);
  }

  /** The recursive slot leads back to the root. */
  lemma BootRecursiveWord(s: Mm, kernelEnd: nat)
    requires 0x10_0000 <= kernelEnd && BootStart(s).1.Some?
    ensures Entry(Boot(s, kernelEnd).0.ram, BootStart(s).1.value, 510) == BootStart(s).1.value * 4096 + 3
  {
    TableWordIs(BootStart(s).1.value);
  }
}
