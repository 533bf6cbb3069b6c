/** pmm_init, vmm_init and kmalloc_init in turn: the state they leave is one from which every run is sound. */
module PowerOn {
  import opened PmmSpec
  import opened PageTables
  import opened VmmSpec
  import opened VmmBoot
  import Init = PmmInitSpec
  import Runs = VmmRuns
  import SlabSpec
  import Slabs = SlabRuns
  import opened Memory

  /** Operations only take frames, over any run and legal or not. */
  lemma {:induction false} RunTakes(s: Mm, shape: Shape, k: nat, ops: seq<Runs.Op>)
    requires Ok(s.pmm)
    ensures TookOnly(s, shape, Runs.RunOps(s, k, ops), Runs.ShapeRun(s, shape, k, ops))
  {
    if ops != [] {
      var init, op := ops[..|ops| - 1], ops[|ops| - 1];
      RunTakes(s, shape, k, init);
      ApplyTakes(Runs.RunOps(s, k, init), Runs.ShapeRun(s, shape, k, init), k, op);
    }
  }

  /** The frames below 1 MB, frame 0 among them, are never free. */
  lemma LowFramesAreUsed(entries: seq<Init.Entry>, f: nat)
    requires Init.SaneMap(entries) && f < Init.LOW_FRAMES
    ensures !IsFree(Init.InitZones(entries), f)
  {
    Init.InitFreeFrame(entries, f);
  }

  /** The page-table side when pmm_init has run: whatever is in memory, zones made from the memory map. */
  function Machine(entries: seq<Init.Entry>, ram: Ram): Mm {
    Mm(ram, Init.InitZones(entries))
  }

  /** The kernel's root, if there is a frame for it, and what the frames are used for after vmm_init. */
  predicate Starts(entries: seq<Init.Entry>, ram: Ram, kernelEnd: nat) {
    && KERNEL_LOAD <= kernelEnd && KernelPages(kernelEnd) <= MAX_KERNEL_PAGES
    && BootStart(Machine(entries, ram)).1.Some?
  }

  ghost function ShapeAtStart(entries: seq<Init.Entry>, ram: Ram, kernelEnd: nat): Shape
    requires Starts(entries, ram, kernelEnd)
  {
    var (s1, k) := BootStart(Machine(entries, ram));
    Runs.ShapeRun(s1, BootShape(k.value), k.value, BootOps(k.value, KernelPages(kernelEnd)))
  }

  function AtStart(entries: seq<Init.Entry>, ram: Ram, mem: map<SlabSpec.Addr, SlabSpec.Granule>, kernelEnd: nat): System
    requires KERNEL_LOAD <= kernelEnd
  {
    System(Boot(Machine(entries, ram), kernelEnd).0, Slabs.Initial(mem).0)
  }

  lemma HeapStart(mem: map<SlabSpec.Addr, SlabSpec.Granule>)
    ensures Slabs.Inv(Slabs.Initial(mem).0, Slabs.Initial(mem).1) && Slabs.Initial(mem).1.taken == {}
  {
    Slabs.HeapStaysSound(mem, []);
  }

  lemma TablesStart(entries: seq<Init.Entry>, ram: Ram, kernelEnd: nat)
    requires Init.SaneMap(entries) && Starts(entries, ram, kernelEnd)
    ensures var mm := Boot(Machine(entries, ram), kernelEnd).0;
      Sound(mm, ShapeAtStart(entries, ram, kernelEnd), BootStart(Machine(entries, ram)).1.value) && !IsFree(mm.pmm, 0)
  {
    var s := Machine(entries, ram);
    var (s1, k) := BootStart(s);
    Init.InitIsExact(entries);
    LowFramesAreUsed(entries, 0);
    AllocPageIsFresh(s.pmm);
    BootIsSound(s, kernelEnd);
    RunTakes(s1, BootShape(k.value), k.value, BootOps(k.value, KernelPages(kernelEnd)));
  }

  /** With any sane memory map and any contents of memory, the three initialisations establish the common invariant. */
  lemma StartIsSound(entries: seq<Init.Entry>, ram: Ram, mem: map<SlabSpec.Addr, SlabSpec.Granule>, kernelEnd: nat)
    requires Init.SaneMap(entries) && Starts(entries, ram, kernelEnd)
    ensures Inv(AtStart(entries, ram, mem, kernelEnd), ShapeAtStart(entries, ram, kernelEnd),
                BootStart(Machine(entries, ram)).1.value, Slabs.Initial(mem).1)
  {
    TablesStart(entries, ram, kernelEnd);
    HeapStart(mem);
  }

  /**
   * From power-on, over every run of page-table operations, kmalloc, kfree and client writes on one physical
   * memory: the tables stay a tree, the heap stays sound, and the two never meet.
   */
  lemma SystemStaysSound(entries: seq<Init.Entry>, ram: Ram, mem: map<SlabSpec.Addr, SlabSpec.Granule>, kernelEnd: nat,
      states: seq<System>, events: seq<Event>)
    requires Init.SaneMap(entries) && Starts(entries, ram, kernelEnd)
    requires states != [] && states[0] == AtStart(entries, ram, mem, kernelEnd)
    requires AliasedRun(states, ShapeAtStart(entries, ram, kernelEnd), BootStart(Machine(entries, ram)).1.value, Slabs.Initial(mem).1, events)
    ensures var k := BootStart(Machine(entries, ram)).1.value;
      var (shape, own) := Uses(states, ShapeAtStart(entries, ram, kernelEnd), k, Slabs.Initial(mem).1, events);
      Inv(states[|events|], shape, k, own) && own.taken !! shape.Keys
  {
    StartIsSound(entries, ram, mem, kernelEnd);
    RunKeepsInv(states, ShapeAtStart(entries, ram, kernelEnd), BootStart(Machine(entries, ram)).1.value, Slabs.Initial(mem).1, events);
  }
}
