/** vmm.c as it runs: table words written in place, frames taken from the physical allocator. */
module Vmm {
  import opened Bits
  import opened PageTables
  import Pages = VmmPages
  import Runs = VmmRuns
  import Boot = VmmBoot
  import Phys = Pmm
  import PS = PmmSpec
  import VmmSpec

  class VirtualMemory {
    var ram: Ram
    const pmm: Phys.PhysicalMemory
    var kernelPml4: Option<nat>

    ghost predicate Valid()
      reads pmm.dma, pmm.dma32, pmm.normal
    {
      pmm.Valid()
    }

    ghost function View(): VmmSpec.Mm
      requires Valid()
      reads this`ram, pmm.dma, pmm.dma32, pmm.normal, pmm.dma.bitmap, pmm.dma32.bitmap, pmm.normal.bitmap
    {
      VmmSpec.Mm(ram, pmm.View())
    }

    constructor (pmm: Phys.PhysicalMemory, ram: Ram)
      requires pmm.Valid()
      ensures this.pmm == pmm && this.ram == ram && kernelPml4 == None && Valid()
    {
      this.pmm, this.ram, kernelPml4 := pmm, ram, None;
    }

    /** `table[i] = e` */
    method Store(table: nat, i: Index, e: nat)
      modifies this`ram
      ensures ram == Put(old(ram), table, i, e)
    {
      ram := ram[table := TableAt(ram, table)[i := e]];
    }

    /** memset(table, 0, PAGE_SIZE) */
    method Clear(table: nat)
      modifies this`ram
      ensures ram == old(ram)[table := Zeros(ENTRIES)]
    {
      ram := ram[table := Zeros(ENTRIES)];
    }

    /** get_or_create_table */
    method GetOrCreateTable(parent: nat, i: Index) returns (table: Option<nat>)
      requires Valid()
      modifies this`ram, pmm.dma`freePages, pmm.dma32`freePages, pmm.normal`freePages,
        pmm.dma.bitmap, pmm.dma32.bitmap, pmm.normal.bitmap
      ensures Valid()
      ensures (View(), table) == VmmSpec.GetOrCreate(old(View()), parent, i)
    {
      if Present(Entry(ram, parent, i)) {
        return Some(Target(Entry(ram, parent, i)));
      }
      table := pmm.AllocPage();
      if table == None {
        return;
      }
      Clear(table.value);
      Store(parent, i, TableWord(table.value));
    }

    /** vmm_map_page */
    method MapPage(root: nat, virt: nat, phys: nat, flags: nat) returns (ok: bool)
      requires Valid()
      modifies this`ram, pmm.dma`freePages, pmm.dma32`freePages, pmm.normal`freePages,
        pmm.dma.bitmap, pmm.dma32.bitmap, pmm.normal.bitmap
      ensures Valid()
      ensures (View(), ok) == VmmSpec.MapPage(old(View()), root, PathOf(virt), phys, flags)
    {
      var p := PathOf(virt);
      var pdpt := GetOrCreateTable(root, p.i4);
      if pdpt == None { return false; }
      var pd := GetOrCreateTable(pdpt.value, p.i3);
      if pd == None { return false; }
      var pt := GetOrCreateTable(pd.value, p.i2);
      if pt == None { return false; }
      PutTwice(ram, pt.value, p.i1, VmmSpec.SmallEntry(phys, flags));
      if Present(Entry(ram, pt.value, p.i1)) {
        Store(pt.value, p.i1, 0);
      }
      Store(pt.value, p.i1, Or(Target(phys) * PS.PAGE_SIZE, flags));
      return true;
    }

    /** vmm_map_huge_page */
    method MapHugePage(root: nat, virt: nat, phys: nat, flags: nat) returns (ok: bool)
      requires Valid()
      modifies this`ram, pmm.dma`freePages, pmm.dma32`freePages, pmm.normal`freePages,
        pmm.dma.bitmap, pmm.dma32.bitmap, pmm.normal.bitmap
      ensures Valid()
      ensures (View(), ok) == VmmSpec.MapHuge(old(View()), root, PathOf(virt), phys, flags)
    {
      var p := PathOf(virt);
      var pdpt := GetOrCreateTable(root, p.i4);
      if pdpt == None { return false; }
      var pd := GetOrCreateTable(pdpt.value, p.i3);
      if pd == None { return false; }
      PutTwice(ram, pd.value, p.i2, VmmSpec.HugeEntry(phys, flags));
      if Present(Entry(ram, pd.value, p.i2)) {
        Store(pd.value, p.i2, 0);
      }
      Store(pd.value, p.i2, Or(Or(phys / HUGE_SIZE * HUGE_SIZE, flags), PT_HUGE));
      return true;
    }

    /** vmm_unmap_page */
    method UnmapPage(root: nat, virt: nat)
      modifies this`ram
      ensures ram == VmmSpec.Unmap(old(ram), root, PathOf(virt))
    {
      var p := PathOf(virt);
      if !Present(Entry(ram, root, p.i4)) { return; }
      var pdpt := Target(Entry(ram, root, p.i4));
      if !Present(Entry(ram, pdpt, p.i3)) { return; }
      var pd := Target(Entry(ram, pdpt, p.i3));
      if !Present(Entry(ram, pd, p.i2)) { return; }
      if IsHuge(Entry(ram, pd, p.i2)) {
        Store(pd, p.i2, 0);
        return;
      }
      Store(Target(Entry(ram, pd, p.i2)), p.i1, 0);
    }

    /** vmm_get_phys, whose null result is None: physical address zero is a translation. */
    method GetPhys(root: nat, virt: nat) returns (r: Option<nat>)
      ensures r == PageTables.GetPhys(ram, root, virt)
    {
      var p := PathOf(virt);
      if !Present(Entry(ram, root, p.i4)) { return None; }
      var pdpt := Target(Entry(ram, root, p.i4));
      if !Present(Entry(ram, pdpt, p.i3)) { return None; }
      var pd := Target(Entry(ram, pdpt, p.i3));
      var e := Entry(ram, pd, p.i2);
      if !Present(e) { return None; }
      if IsHuge(e) {
        return Some(Or(e / HUGE_SIZE * HUGE_SIZE, virt % HUGE_SIZE));
      }
      var leaf := Entry(ram, Target(e), p.i1);
      if !Present(leaf) { return None; }
      return Some(Or(Target(leaf) * PS.PAGE_SIZE, virt % PS.PAGE_SIZE));
    }

    /** One iteration of vmm_map_pages: a data page, then its mapping. */
    method MapFreshPage(root: nat, virt: nat, flags: nat, ghost before: seq<nat>)
      returns (outcome: Pages.Outcome, ghost frames: seq<nat>)
      requires Valid()
      modifies this`ram, pmm.dma`freePages, pmm.dma32`freePages, pmm.normal`freePages,
        pmm.dma.bitmap, pmm.dma32.bitmap, pmm.normal.bitmap
      ensures Valid()
      ensures Pages.Progress(View(), frames, outcome) ==
        Pages.MapNext(Pages.Progress(old(View()), before, Pages.Mapped), root, PathOf(virt), flags)
    {
      var page := pmm.AllocPage();
      if page == None {
        return Pages.NoDataPage, before;
      }
      var mapped := MapPage(root, virt, page.value * PS.PAGE_SIZE, flags);
      if !mapped {
        return Pages.NoTable, before;
      }
      return Pages.Mapped, before + [page.value];
    }

    /** vmm_map_pages; `frames` are the data pages that were mapped. */
    method MapPages(root: nat, virt: nat, count: nat, flags: nat) returns (ok: bool, ghost frames: seq<nat>)
      requires Valid()
      modifies this`ram, pmm.dma`freePages, pmm.dma32`freePages, pmm.normal`freePages,
        pmm.dma.bitmap, pmm.dma32.bitmap, pmm.normal.bitmap
      ensures Valid()
      ensures var pr := Pages.MapPages(old(View()), root, Pages.PagePaths(virt, count), flags);
        View() == pr.s && ok == pr.outcome.Mapped? && frames == pr.frames
    {
      ghost var s, paths := View(), Pages.PagePaths(virt, count);
      frames := [];
      for i := 0 to count
        invariant Valid() && |frames| == i
        invariant Pages.MapLoop(s, root, paths[..i], flags) == Pages.Progress(View(), frames, Pages.Mapped)
      {
        var outcome;
        MapLoopStep(s, root, paths, i, flags);
        outcome, frames := MapFreshPage(root, Pages.PageAddr(virt, i), flags, frames);
        if !outcome.Mapped? {
          StoppedEarly(s, root, paths, i + 1, flags);
          if outcome.NoDataPage? {
            RollBack(root, virt, count, i);
          }
          return false, frames;
        }
      }
      assert paths[..count] == paths;
      return true, frames;
    }

    /** The rollback loop of vmm_map_pages. */
    method RollBack(root: nat, virt: nat, ghost count: nat, n: nat)
      requires n <= count
      modifies this`ram
      ensures ram == Pages.UnmapAll(old(ram), root, Pages.PagePaths(virt, count)[..n])
    {
      ghost var paths := Pages.PagePaths(virt, count);
      for j := 0 to n
        invariant ram == Pages.UnmapAll(old(ram), root, paths[..j])
      {
        assert paths[..j + 1][..j] == paths[..j];
        UnmapPage(root, Pages.PageAddr(virt, j));
      }
    }

    /** vmm_create_address_space, once the kernel's own table has been allocated. */
    method CreateAddressSpace() returns (root: Option<nat>)
      requires Valid() && kernelPml4.Some?
      requires PS.Ok(pmm.View()) && !PS.IsFree(pmm.View(), kernelPml4.value)
      modifies this`ram, pmm.dma`freePages, pmm.dma32`freePages, pmm.normal`freePages,
        pmm.dma.bitmap, pmm.dma32.bitmap, pmm.normal.bitmap
      ensures Valid()
      ensures (View(), root) == Runs.CreateSpace(old(View()), kernelPml4.value)
    {
      PS.AllocPageIsFresh(pmm.View());
      root := pmm.AllocPage();
      if root == None {
        return;
      }
      FillTopLevel(kernelPml4.value, root.value);
    }

    /** Clear the new table, copy the kernel's present upper entries, add the recursive entry. */
    method FillTopLevel(k: nat, f: nat)
      requires f != k
      modifies this`ram
      ensures ram == old(ram)[f := Runs.SpaceTable(old(ram), k, f)]
    {
      ghost var ram0 := ram;
      Clear(f);
      assert Zeros(ENTRIES) == CopiedTable(ram0, k, KERNEL_HALF);
      for i := KERNEL_HALF to ENTRIES
        invariant ram == ram0[f := CopiedTable(ram0, k, i)]
      {
        CopyOneMore(ram0, k, i);
        if Present(Entry(ram, k, i)) {
          Store(f, i, Entry(ram, k, i));
        }
      }
      Store(f, RECURSIVE_INDEX, TableWord(f));
      assert TableAt(ram, f) == Runs.SpaceTable(ram0, k, f);
    }

    /** vmm_init: the results of the map calls are ignored. A missing top-level table is a panic. */
    method Init(kernelEnd: nat)
      requires Valid() && Boot.KERNEL_LOAD <= kernelEnd
      modifies this`ram, this`kernelPml4, pmm.dma`freePages, pmm.dma32`freePages, pmm.normal`freePages,
        pmm.dma.bitmap, pmm.dma32.bitmap, pmm.normal.bitmap
      ensures Valid()
      ensures (View(), kernelPml4) == Boot.Boot(old(View()), kernelEnd)
    {
      kernelPml4 := pmm.AllocPage();
      if kernelPml4 == None {
        return;
      }
      var k := kernelPml4.value;
      Clear(k);
      MapPhases(k, kernelEnd);
      Store(k, RECURSIVE_INDEX, TableWord(k));
    }

    /** The three mapping phases. */
    method MapPhases(k: nat, kernelEnd: nat)
      requires Valid() && Boot.KERNEL_LOAD <= kernelEnd
      modifies this`ram, pmm.dma`freePages, pmm.dma32`freePages, pmm.normal`freePages,
        pmm.dma.bitmap, pmm.dma32.bitmap, pmm.normal.bitmap
      ensures Valid()
      ensures View() == Runs.RunOps(old(View()), k, Boot.BootOps(k, Boot.KernelPages(kernelEnd)))
    {
      ghost var s := View();
      MapIdentity(k);
      MapKernel(k, kernelEnd, s);
      MapVga(k);
      Boot.BootRunEnds(s, k, Boot.KernelPages(kernelEnd));
    }

    /** First phase: the first gigabyte in huge pages. */
    method MapIdentity(k: nat)
      requires Valid()
      modifies this`ram, pmm.dma`freePages, pmm.dma32`freePages, pmm.normal`freePages,
        pmm.dma.bitmap, pmm.dma32.bitmap, pmm.normal.bitmap
      ensures Valid()
      ensures View() == Runs.RunOps(old(View()), k, Boot.HugeOps(k, Boot.HUGE_PAGES))
    {
      ghost var s := View();
      var addr, n := 0, 0;
      while addr < 0x4000_0000
        invariant Valid() && addr == n * HUGE_SIZE && n <= Boot.HUGE_PAGES
        invariant View() == Runs.RunOps(s, k, Boot.HugeOps(k, n))
      {
        Boot.HugeRunGrows(s, k, n);
        MapIdentityPage(k, addr);
        addr, n := addr + HUGE_SIZE, n + 1;
      }
    }

    method MapIdentityPage(k: nat, addr: nat)
      requires Valid()
      modifies this`ram, pmm.dma`freePages, pmm.dma32`freePages, pmm.normal`freePages,
        pmm.dma.bitmap, pmm.dma32.bitmap, pmm.normal.bitmap
      ensures Valid()
      ensures View() == Runs.Apply(old(View()), k, Boot.IdentityOp(k, addr)).0
    {
      var _ := MapHugePage(k, addr, addr, PT_PRESENT + PT_WRITABLE + PT_HUGE);
    }

    /** Second phase: the kernel image, page by page. */
    method MapKernel(k: nat, kernelEnd: nat, ghost s: VmmSpec.Mm)
      requires Valid() && Boot.KERNEL_LOAD <= kernelEnd
      requires View() == Runs.RunOps(s, k, Boot.HugeOps(k, Boot.HUGE_PAGES))
      modifies this`ram, pmm.dma`freePages, pmm.dma32`freePages, pmm.normal`freePages,
        pmm.dma.bitmap, pmm.dma32.bitmap, pmm.normal.bitmap
      ensures Valid()
      ensures View() == Runs.RunOps(s, k, Boot.HugeOps(k, Boot.HUGE_PAGES) + Boot.KernelOps(k, Boot.KernelPages(kernelEnd)))
    {
      var kernelSize := kernelEnd - Boot.KERNEL_LOAD;
      var off, n := 0, 0;
      assert Boot.HugeOps(k, Boot.HUGE_PAGES) + Boot.KernelOps(k, 0) == Boot.HugeOps(k, Boot.HUGE_PAGES);
      while off < kernelSize
        invariant Valid() && off == n * PS.PAGE_SIZE && n <= Boot.KernelPages(kernelEnd)
        invariant View() == Runs.RunOps(s, k, Boot.HugeOps(k, Boot.HUGE_PAGES) + Boot.KernelOps(k, n))
      {
        Boot.KernelPageCount(kernelEnd, n);
        Boot.KernelRunGrows(s, k, n);
        MapKernelPage(k, n);
        off, n := off + PS.PAGE_SIZE, n + 1;
      }
      Boot.KernelPageCount(kernelEnd, n);
    }

    method MapKernelPage(k: nat, n: nat)
      requires Valid()
      modifies this`ram, pmm.dma`freePages, pmm.dma32`freePages, pmm.normal`freePages,
        pmm.dma.bitmap, pmm.dma32.bitmap, pmm.normal.bitmap
      ensures Valid()
      ensures View() == Runs.Apply(old(View()), k, Boot.KernelOp(k, n)).0
    {
      var virt := Pages.PageAddr(PS.KERNEL_HIGHER_HALF, n);
      var _ := MapPage(k, virt, Boot.KERNEL_LOAD + n * PS.PAGE_SIZE, PT_PRESENT + PT_WRITABLE + PT_GLOBAL);
    }

    /** Third phase: the VGA page. */
    method MapVga(k: nat)
      requires Valid()
      modifies this`ram, pmm.dma`freePages, pmm.dma32`freePages, pmm.normal`freePages,
        pmm.dma.bitmap, pmm.dma32.bitmap, pmm.normal.bitmap
      ensures Valid()
      ensures View() == Runs.Apply(old(View()), k, Boot.VgaOp(k)).0
    {
      Boot.VgaPathIndices(0);
      var _ := MapPage(k, Boot.VGA_VIRT, Boot.VGA_PHYS, PT_PRESENT + PT_WRITABLE + PT_GLOBAL);
    }
  }

  /** Clearing an entry before rewriting it makes no difference to memory. */
  lemma PutTwice(ram: Ram, t: nat, i: Index, e: nat)
    ensures Put(Put(ram, t, i, 0), t, i, e) == Put(ram, t, i, e)
  {
    assert TableAt(ram, t)[i := 0][i := e] == TableAt(ram, t)[i := e];
  }

  /** The new top-level table after the copy loop has passed entries below `n`. */
  function CopiedTable(ram: Ram, k: nat, n: nat): Table {
    seq(ENTRIES, i requires 0 <= i < ENTRIES =>
      if KERNEL_HALF <= i < n && Present(Entry(ram, k, i)) then Entry(ram, k, i) else 0)
  }

  lemma CopyOneMore(ram: Ram, k: nat, i: Index)
    requires KERNEL_HALF <= i
    ensures CopiedTable(ram, k, i + 1) ==
      if Present(Entry(ram, k, i)) then CopiedTable(ram, k, i)[i := Entry(ram, k, i)] else CopiedTable(ram, k, i)
  {
  }

  lemma MapLoopStep(s: VmmSpec.Mm, r: nat, paths: seq<Path>, i: nat, flags: nat)
    requires i < |paths| && Pages.MapLoop(s, r, paths[..i], flags).outcome.Mapped?
    ensures Pages.MapLoop(s, r, paths[..i + 1], flags) ==
      Pages.MapNext(Pages.MapLoop(s, r, paths[..i], flags), r, paths[i], flags)
  {
    assert paths[..i + 1][..i] == paths[..i];
  }

  /** Once the loop has stopped, the remaining pages add nothing. */
  lemma {:induction false} StoppedEarly(s: VmmSpec.Mm, r: nat, paths: seq<Path>, n: nat, flags: nat)
    requires n <= |paths| && !Pages.MapLoop(s, r, paths[..n], flags).outcome.Mapped?
    ensures Pages.MapLoop(s, r, paths, flags) == Pages.MapLoop(s, r, paths[..n], flags)
  {
    if n == |paths| {
      assert paths[..n] == paths;
    } else {
      var init := paths[..|paths| - 1];
      assert init[..n] == paths[..n];
      StoppedEarly(s, r, init, n, flags);
    }
  }
}
