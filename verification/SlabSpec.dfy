/**
 * The kernel heap of kmalloc.c on values: intrusive free lists threaded through memory.
 * Memory is counted in granules of 16 bytes, the size of a slab header; a pointer is a granule number.
 */
module SlabSpec {
  import opened Bits

  const CLASSES := 8
  const MAX_SIZE := 2048
  const PAGE_BYTES := 4096
  const GRANULE := 16

  /** Granules in a page. */
  const PAGE := 256

  const MAGIC := 0xDEAD_BEEF

  type Addr = nat

  /** Sixteen bytes, read as struct slab_header. */
  datatype Granule = Granule(next: Addr, magic: nat, size: nat)

  /** struct slab_cache without its constant size. */
  datatype Cache = Cache(head: Addr, allocations: nat, frees: nat)

  /** Granules that are not in the map are zero. */
  datatype Heap = Heap(mem: map<Addr, Granule>, caches: seq<Cache>)

  function Read(mem: map<Addr, Granule>, a: Addr): Granule {
    if a in mem then mem[a] else Granule(0, 0, 0)
  }

  // ---- size classes ----

  /** Slot size of class k, in granules. */
  function Units(k: nat): (u: nat)
    requires k < CLASSES
    ensures 0 < u <= 128
  {
    if k == 0 then 1 else if k == 1 then 2 else if k == 2 then 4 else if k == 3 then 8
    else if k == 4 then 16 else if k == 5 then 32 else if k == 6 then 64 else 128
  }

  function ClassBytes(k: nat): nat
    requires k < CLASSES
  {
    GRANULE * Units(k)
  }

  /** The loop of size_to_index, from class `i`. */
  function IndexFrom(size: nat, i: nat): (r: Option<nat>)
    requires i <= CLASSES
    ensures r.Some? ==> i <= r.value < CLASSES && size <= ClassBytes(r.value) && forall j :: i <= j < r.value ==> size > ClassBytes(j)
    ensures r.None? ==> forall j :: i <= j < CLASSES ==> size > ClassBytes(j)
    decreases CLASSES - i
  {
    if i == CLASSES then None else if size <= ClassBytes(i) then Some(i) else IndexFrom(size, i + 1)
  }

  /** The class that serves a request of at most 2048 bytes: the smallest slot that is as large as the request. */
  function IndexOf(size: nat): (k: nat)
    requires size <= MAX_SIZE
    ensures k < CLASSES && size <= ClassBytes(k) && forall j :: 0 <= j < k ==> size > ClassBytes(j)
  {
    assert size <= ClassBytes(7);
    IndexFrom(size, 0).value
  }

  /** A slot size finds its own class again. */
  lemma IndexOfClass(k: nat)
    requires k < CLASSES
    ensures ClassBytes(k) <= MAX_SIZE && IndexOf(ClassBytes(k)) == k
  {
    forall j | 0 <= j < k ensures ClassBytes(j) < ClassBytes(k) {}
  }

  // ---- slots ----

  function SlotsPerPage(k: nat): (n: nat)
    requires k < CLASSES
    ensures n * Units(k) == PAGE && n >= 2
  {
    PAGE / Units(k)
  }

  function SlotAt(p: nat, k: nat, i: nat): Addr
    requires k < CLASSES
  {
    PAGE * p + i * Units(k)
  }

  /** `a` is the start of a slot of class k in one of these pages. */
  predicate IsSlot(pages: set<nat>, k: nat, a: Addr)
    requires k < CLASSES
  {
    a % Units(k) == 0 && a / PAGE in pages
  }

  /** Slots of one class do not overlap. */
  lemma SlotsApart(k: nat, a: Addr, b: Addr)
    requires k < CLASSES && a % Units(k) == 0 && b % Units(k) == 0 && a < b
    ensures a + Units(k) <= b
  {
    MulGap(Units(k), a / Units(k), b / Units(k));
  }

  lemma Associates(a: nat, b: nat, c: nat)
    ensures a * (b * c) == a * b * c
  {
  }

  lemma MulMonotone(u: nat, m: int, n: int)
    requires m <= n
    ensures u * m <= u * n
  {
    assert u * n == u * m + u * (n - m);
  }

  lemma Cancel(u: nat, m: int, n: int)
    requires u * m < u * n
    ensures m < n
  {
    if n <= m { MulMonotone(u, n, m); }
  }

  /** Slots start at multiples of the slot size within the page as well, so none crosses the page's end. */
  lemma SlotOffset(k: nat, s: Addr)
    requires k < CLASSES && s % Units(k) == 0
    ensures s % PAGE % Units(k) == 0 && s % PAGE + Units(k) <= PAGE
  {
    var u, n, q, r, m := Units(k), SlotsPerPage(k), s / PAGE, s % PAGE, s / Units(k);
    assert u * n == PAGE && s == u * m && s == PAGE * q + r;
    Associates(u, n, q);
    var i := m - n * q;
    assert r == u * i;
    Cancel(u, -1, i);
    Cancel(u, i, n);
    MulGap(u, i, n);
    DivModUnique(r, u, i, 0);
  }

  lemma SlotInPage(k: nat, s: Addr, x: Addr)
    requires k < CLASSES && s % Units(k) == 0 && s <= x < s + Units(k)
    ensures x / PAGE == s / PAGE
  {
    SlotOffset(k, s);
    DivModUnique(x, PAGE, s / PAGE, s % PAGE + (x - s));
  }

  /** Slot i of a page. */
  lemma SlotAtIsSlot(p: nat, k: nat, i: nat)
    requires k < CLASSES && i < SlotsPerPage(k)
    ensures SlotAt(p, k, i) % Units(k) == 0 && SlotAt(p, k, i) / PAGE == p && SlotAt(p, k, i) % PAGE == i * Units(k)
  {
    var u, n := Units(k), SlotsPerPage(k);
    MulGap(u, i, n);
    DivModUnique(SlotAt(p, k, i), PAGE, p, i * u);
    Associates(u, n, p);
    assert SlotAt(p, k, i) == u * (n * p + i);
    DivModUnique(SlotAt(p, k, i), u, n * p + i, 0);
  }

  lemma SlotsDiffer(p: nat, k: nat, i: nat, j: nat)
    requires k < CLASSES && i < j
    ensures SlotAt(p, k, i) < SlotAt(p, k, j)
  {
    MulGap(Units(k), i, j);
  }

  /** And every slot of a page is one of them: the page splits without remainder. */
  lemma SlotIndex(p: nat, k: nat, a: Addr) returns (i: nat)
    requires k < CLASSES && IsSlot({p}, k, a)
    ensures i < SlotsPerPage(k) && a == SlotAt(p, k, i)
  {
    SlotOffset(k, a);
    i := a % PAGE / Units(k);
    Cancel(Units(k), i, SlotsPerPage(k));
  }

  /** Every granule of a slab page belongs to exactly one slot of its class. */
  lemma PageSplitsExactly(k: nat, x: Addr) returns (s: Addr)
    requires k < CLASSES
    ensures IsSlot({x / PAGE}, k, s) && s <= x < s + Units(k)
    ensures forall t: Addr :: IsSlot({x / PAGE}, k, t) && t <= x < t + Units(k) ==> t == s
  {
    var u := Units(k);
    s := x / u * u;
    DivModUnique(s, u, x / u, 0);
    SlotInPage(k, s, x);
    forall t: Addr | IsSlot({x / PAGE}, k, t) && t <= x < t + u ensures t == s {
      if t < s { SlotsApart(k, t, s); } else if s < t { SlotsApart(k, s, t); }
    }
  }

  // ---- kmalloc ----

  /** The first `n` iterations of the loop that threads a new page into a list. */
  function Thread(mem: map<Addr, Granule>, p: nat, k: nat, n: nat): map<Addr, Granule>
    requires k < CLASSES && n <= SlotsPerPage(k)
  {
    if n == 0 then mem else
      var next := if n == SlotsPerPage(k) then 0 else SlotAt(p, k, n);
      Thread(mem, p, k, n - 1)[SlotAt(p, k, n - 1) := Granule(next, 0, 0)]
  }

  /** A page cut into slots, all of them on the free list of its class. */
  function Split(h: Heap, p: nat, k: nat): Heap
    requires k < CLASSES && |h.caches| == CLASSES
  {
    Heap(Thread(h.mem, p, k, SlotsPerPage(k)), h.caches[k := h.caches[k].(head := SlotAt(p, k, 0))])
  }

  /** Take the head of the free list, and mark its header. */
  function Pop(h: Heap, k: nat): (r: (Heap, Addr))
    requires k < CLASSES && |h.caches| == CLASSES
    ensures |r.0.caches| == CLASSES
  {
    var c := h.caches[k];
    var g := Read(h.mem, c.head);
    (Heap(h.mem[c.head := Granule(g.next, MAGIC, ClassBytes(k))], h.caches[k := Cache(g.next, c.allocations + 1, c.frees)]),
     c.head + 1)
  }

  /** The bytes of `n` pages set to zero. */
  function Zeroed(mem: map<Addr, Granule>, p: nat, n: nat): map<Addr, Granule> {
    map a | a in mem && !(PAGE * p <= a < PAGE * (p + n)) :: mem[a]
  }

  function PagesFor(size: nat): nat {
    (size + PAGE_BYTES - 1) / PAGE_BYTES
  }

  /** kmalloc; `page` is what the page allocator answers if it is asked. The null pointer is 0. */
  function KMalloc(h: Heap, size: nat, page: Option<nat>): (r: (Heap, Addr))
    requires |h.caches| == CLASSES
    ensures |r.0.caches| == CLASSES
  {
    if size == 0 then (h, 0)
    else if size > MAX_SIZE then
      if page.None? then (h, 0) else (h.(mem := Zeroed(h.mem, page.value, PagesFor(size))), PAGE * page.value)
    else
      var k := IndexOf(size);
      if h.caches[k].head != 0 then Pop(h, k)
      else if page.None? then (h, 0)
      else Pop(Split(h, page.value, k), k)
  }

  // ---- kfree ----

  function Push(h: Heap, k: nat, a: Addr): (r: Heap)
    requires k < CLASSES && |h.caches| == CLASSES
    ensures |r.caches| == CLASSES
  {
    var c := h.caches[k];
    Heap(h.mem[a := Read(h.mem, a).(next := c.head)], h.caches[k := Cache(a, c.allocations, c.frees + 1)])
  }

  /** The header before `ptr` decides: without the magic number, or with a large size, nothing is reclaimed. */
  predicate LooksLikeSlot(h: Heap, ptr: Addr) {
    ptr > 0 && Read(h.mem, ptr - 1).magic == MAGIC && Read(h.mem, ptr - 1).size <= MAX_SIZE
  }

  function KFree(h: Heap, ptr: Addr): (r: Heap)
    requires |h.caches| == CLASSES
    ensures |r.caches| == CLASSES
  {
    if LooksLikeSlot(h, ptr) then Push(h, IndexOf(Read(h.mem, ptr - 1).size), ptr - 1) else h
  }
}
