/** kmalloc.c as it updates its caches and the memory in place. */
module Slab {
  import opened Bits
  import opened Spec = SlabSpec
  import Runs = SlabRuns

  class SlabHeap {
    var mem: map<Addr, Granule>
    const caches: array<Cache>

    ghost predicate Valid()
      reads this
    {
      caches.Length == CLASSES
    }

    ghost function View(): (h: Heap)
      requires Valid()
      reads this, caches
      ensures |h.caches| == CLASSES
    {
      Heap(mem, caches[..])
    }

    /** kmalloc_init */
    constructor (mem: map<Addr, Granule>)
      ensures Valid() && fresh(caches) && View() == Runs.Initial(mem).0
    {
      this.mem := mem;
      caches := new Cache[CLASSES](_ => Cache(0, 0, 0));
    }

    /** size_to_index */
    method SizeToIndex(size: nat) returns (index: Option<nat>)
      ensures index == IndexFrom(size, 0)
      ensures size <= MAX_SIZE ==> index == Some(IndexOf(size))
    {
      var i := 0;
      while i < CLASSES
        invariant 0 <= i <= CLASSES && IndexFrom(size, 0) == IndexFrom(size, i)
      {
        if size <= ClassBytes(i) {
          return Some(i);
        }
        i := i + 1;
      }
      return None;
    }

    /** `memset(addr, 0, pages * PAGE_SIZE)` */
    method ZeroPages(p: nat, n: nat)
      requires Valid()
      modifies this`mem
      ensures mem == Zeroed(old(mem), p, n)
    {
      mem := map a | a in mem && !(PAGE * p <= a < PAGE * (p + n)) :: mem[a];
    }

    /** The page-splitting loop, and the last slot on its own. */
    method SplitPage(p: nat, k: nat)
      requires Valid() && k < CLASSES
      modifies this`mem, caches
      ensures View() == Spec.Split(old(View()), p, k)
    {
      ghost var before := mem;
      var n := PAGE / Units(k);
      var i := 0;
      while i < n - 1
        invariant 0 <= i <= n - 1
        invariant mem == Thread(before, p, k, i) && caches[..] == old(caches[..])
      {
        mem := mem[SlotAt(p, k, i) := Granule(SlotAt(p, k, i + 1), 0, 0)];
        i := i + 1;
      }
      mem := mem[SlotAt(p, k, n - 1) := Granule(0, 0, 0)];
      assert mem == Thread(before, p, k, SlotsPerPage(k));
      caches[k] := caches[k].(head := SlotAt(p, k, 0));
    }

    method PopHead(k: nat) returns (ptr: Addr)
      requires Valid() && k < CLASSES
      modifies this`mem, caches
      ensures (View(), ptr) == Spec.Pop(old(View()), k)
    {
      var c := caches[k];
      var obj := c.head;
      var next := Read(mem, obj).next;
      caches[k] := Cache(next, c.allocations + 1, c.frees);
      mem := mem[obj := Granule(next, MAGIC, ClassBytes(k))];
      ptr := obj + 1;
    }

    /** kmalloc; `page` is the answer of pmm_alloc_page or pmm_alloc_pages. */
    method KMalloc(size: nat, page: Option<nat>) returns (ptr: Addr)
      requires Valid()
      modifies this`mem, caches
      ensures (View(), ptr) == Spec.KMalloc(old(View()), size, page)
    {
      if size == 0 {
        return 0;
      }
      if size > MAX_SIZE {
        if page.None? {
          return 0;
        }
        ZeroPages(page.value, (size + PAGE_BYTES - 1) / PAGE_BYTES);
        return PAGE * page.value;
      }
      var index := SizeToIndex(size);
      var k := index.value;
      if caches[k].head == 0 {
        if page.None? {
          return 0;
        }
        SplitPage(page.value, k);
      }
      ptr := PopHead(k);
    }

    /** kfree; blocks recorded as large go to pmm_free_pages, which reclaims nothing. */
    method KFree(ptr: Addr)
      requires Valid()
      modifies this`mem, caches
      ensures View() == Spec.KFree(old(View()), ptr)
    {
      if ptr == 0 {
        return;
      }
      var obj := ptr - 1;
      var g := Read(mem, obj);
      if g.magic != MAGIC || g.size > MAX_SIZE {
        return;
      }
      var index := SizeToIndex(g.size);
      var k := index.value;
      var c := caches[k];
      mem := mem[obj := Read(mem, obj).(next := c.head)];
      caches[k] := Cache(obj, c.allocations, c.frees + 1);
    }

    /** kmalloc on a sound heap, with what it means for ownership. */
    method Allocate(size: nat, page: Option<nat>, ghost o: Runs.Own) returns (ptr: Addr, ghost o': Runs.Own)
      requires Valid() && Runs.Inv(View(), o) && Runs.Possible(View(), o, Runs.Alloc(size, page))
      modifies this`mem, caches
      ensures Valid() && Runs.Inv(View(), o') && o' == Runs.OwnStep(o, Runs.Alloc(size, page))
    {
      Runs.AllocKeepsInv(View(), o, size, page);
      ptr := KMalloc(size, page);
      o' := Runs.OwnStep(o, Runs.Alloc(size, page));
    }
  }
}
