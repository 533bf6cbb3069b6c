/** What kmalloc hands out, and the uses under which the heap does not stay sound. */
module SlabLimits {
  import opened Bits
  import opened SlabSpec
  import opened SlabRuns

  /** What a small request gets: null, or a slot of its class that was not live and now is. */
  predicate HandsOut(o: Own, k: nat, ptr: Addr, o': Own)
    requires k < CLASSES && |o.live| == |o'.live| == |o'.pages| == CLASSES
  {
    ptr == 0 ||
    (&& (forall j :: 0 <= j < CLASSES ==> ptr - 1 !in o.live[j])
     && o'.live == o.live[k := o.live[k] + {ptr - 1}]
     && IsSlot(o'.pages[k], k, ptr - 1))
  }

  /** The head of a free list belongs to nobody. */
  lemma FreeSlotIsNotLive(h: Heap, o: Own, k: nat)
    requires Inv(h, o) && k < CLASSES && o.free[k] != []
    ensures IsSlot(o.pages[k], k, o.free[k][0])
    ensures forall j :: 0 <= j < CLASSES ==> o.free[k][0] !in o.live[j]
  {
    var a := o.free[k][0];
    assert ClassOk(h.mem, h.caches[k], k, o.pages[k], o.free[k], o.live[k]);
    assert IsSlot(o.pages[k], k, a);
    forall j | 0 <= j < CLASSES ensures a !in o.live[j] {
      if j != k { NoSlotElsewhere(h, o, k, a, j); }
    }
  }

  lemma LiveIsSlot(h: Heap, o: Own, k: nat)
    requires Inv(h, o) && k < CLASSES
    ensures forall a <- o.live[k] :: a / PAGE in o.taken
  {
    assert ClassOk(h.mem, h.caches[k], k, o.pages[k], o.free[k], o.live[k]);
    assert forall a <- o.live[k] :: IsSlot(o.pages[k], k, a);
  }

  /** Nor does the first slot of a new page. */
  lemma NewPageSlot(h: Heap, o: Own, k: nat, p: nat)
    requires Inv(h, o) && k < CLASSES && p !in o.taken
    ensures SlotSeq(p, k)[0] == SlotAt(p, k, 0) && IsSlot(o.pages[k] + {p}, k, SlotAt(p, k, 0))
    ensures forall j :: 0 <= j < CLASSES ==> SlotAt(p, k, 0) !in o.live[j]
  {
    SlotAtIsSlot(p, k, 0);
    forall j | 0 <= j < CLASSES ensures SlotAt(p, k, 0) !in o.live[j] {
      LiveIsSlot(h, o, j);
    }
  }

  lemma PopHandsOut(h: Heap, o: Own, k: nat)
    requires Inv(h, o) && k < CLASSES && o.free[k] != []
    ensures Pop(h, k).1 > 0 && HandsOut(o, k, Pop(h, k).1, OwnAlloc(o, k, None))
    ensures forall page :: OwnAlloc(o, k, page) == OwnAlloc(o, k, None)
  {
    FreeSlotIsNotLive(h, o, k);
    PopKeepsInv(h, o, k);
  }

  lemma SplitHandsOut(h: Heap, o: Own, k: nat, p: nat)
    requires Inv(h, o) && k < CLASSES && o.free[k] == [] && p !in o.taken
    ensures Pop(Split(h, p, k), k).1 > 0 && HandsOut(o, k, Pop(Split(h, p, k), k).1, OwnAlloc(o, k, Some(p)))
  {
    NewPageSlot(h, o, k, p);
  }

  /**
   * A small request is answered with a slot of its class that was not live and now is; it is refused
   * exactly when it is empty, or its class has no free slot and there is no page.
   */
  lemma AllocHandsOutFreeSlot(h: Heap, o: Own, size: nat, page: Option<nat>)
    requires Inv(h, o) && Possible(h, o, Alloc(size, page)) && size <= MAX_SIZE
    ensures HandsOut(o, IndexOf(size), KMalloc(h, size, page).1, OwnStep(o, Alloc(size, page)))
    ensures KMalloc(h, size, page).1 == 0 <==> size == 0 || (o.free[IndexOf(size)] == [] && page.None?)
  {
    if size > 0 {
      var k := IndexOf(size);
      HeadIsNull(h, o, k);
      if o.free[k] != [] {
        PopHandsOut(h, o, k);
      } else if page.Some? {
        assert page.value in Fresh(size, page.value);
        SplitHandsOut(h, o, k, page.value);
      }
    }
  }

  // ---- large requests ----

  /** The pages asked for hold all the bytes, and one page less would not. */
  lemma PagesAreEnough(size: nat)
    requires size > 0
    ensures PagesFor(size) > 0 && (PagesFor(size) - 1) * 4096 < size <= PagesFor(size) * 4096
  {
  }

  /** The granule of byte `b` of a block that starts with page `p`. */
  function GranuleOf(p: nat, b: nat): Addr {
    PAGE * p + b / 16
  }

  lemma BytePage(p: nat, b: nat)
    ensures GranuleOf(p, b) / PAGE == p + b / 4096
  {
    SplitDigits(b, 16, 256);
    DivModUnique(GranuleOf(p, b), PAGE, p + b / 4096, b / 16 % 256);
  }

  /**
   * A request above 2048 bytes is refused exactly when no pages are granted. Otherwise every byte of the
   * block is zero and lies in a page that was nobody's and now is taken, every page taken holds a byte of the
   * block, and the rest of memory and the free lists are as before.
   */
  lemma LargeBlockIsFresh(h: Heap, o: Own, size: nat, page: Option<nat>, b: nat)
    requires Inv(h, o) && Possible(h, o, Alloc(size, page)) && size > 2048 && b < size
    ensures var (h', ptr) := KMalloc(h, size, page); var o' := OwnStep(o, Alloc(size, page));
      && (ptr == 0 <==> page.None?)
      && h'.caches == h.caches && (page.None? ==> h' == h && o' == o)
      && (page.Some? ==>
            && ptr == GranuleOf(page.value, 0)
            && Read(h'.mem, GranuleOf(page.value, b)) == Granule(0, 0, 0)
            && page.value + b / 4096 !in o.taken && page.value + b / 4096 in o'.taken
            && (forall q :: q in o'.taken && q !in o.taken ==> page.value <= q && (q - page.value) * 4096 < size)
            && forall a: Addr :: (a / PAGE in o'.taken ==> a / PAGE in o.taken) ==> Read(h'.mem, a) == Read(h.mem, a))
  {
    PagesAreEnough(size);
    if page.Some? {
      var p := page.value;
      assert p in Fresh(size, p);
      BytePage(p, b);
      assert p + b / 4096 in Fresh(size, p);
      assert forall q :: q in Fresh(size, p) <==> p <= q < p + PagesFor(size);
      forall a: Addr ensures p <= a / PAGE < p + PagesFor(size) <==> PAGE * p <= a < PAGE * (p + PagesFor(size)) {}
    }
  }

  /** A freed slot is the next one to be handed out. */
  lemma FreedSlotComesBack(h: Heap, o: Own, k: nat, a: Addr, size: nat, page: Option<nat>)
    requires Inv(h, o) && k < CLASSES && a in o.live[k] && 0 < size <= MAX_SIZE && IndexOf(size) == k
    ensures KMalloc(KFree(h, a + 1), size, page).1 == a + 1
  {
    FreeKeepsInv(h, o, k, a);
    assert IsSlot(o.pages[k], k, a);
    HeadIsNull(KFree(h, a + 1), OwnStep(o, Free(k, a)), k);
  }

  // ---- the header is not counted ----

  /** The granule that holds the last of `size` bytes behind the header of slot `s`. */
  function LastGranule(s: Addr, size: nat): Addr
    requires size > 0
  {
    s + 1 + (size - 1) / GRANULE
  }

  /**
   * The class is chosen without room for the 16-byte header. A client that uses all the bytes it asked for
   * stays within its slot exactly when 16 more would still fit the class; otherwise its last bytes are
   * the next slot's header.
   */
  lemma FullUseStaysInside(s: Addr, size: nat)
    requires 0 < size <= MAX_SIZE
    ensures var k := IndexOf(size);
      && (LastGranule(s, size) < s + Units(k) <==> size + GRANULE <= ClassBytes(k))
      && (size + GRANULE > ClassBytes(k) ==> LastGranule(s, size) == s + Units(k))
      && (k == 0 ==> LastGranule(s, size) == s + Units(k))
  {
    var k := IndexOf(size);
    var n := (size - 1) / GRANULE;
    assert n < Units(k);
  }

  // ---- freeing twice ----

  /** The magic number survives kfree, so a second free is not noticed: the slot becomes its own successor. */
  lemma DoubleFreeMakesCycle(h: Heap, o: Own, k: nat, a: Addr)
    requires Inv(h, o) && k < CLASSES && a in o.live[k]
    ensures var h1 := KFree(KFree(h, a + 1), a + 1); h1.caches[k].head == a && Read(h1.mem, a).next == a
  {
    IndexOfClass(k);
    assert ClassOk(h.mem, h.caches[k], k, o.pages[k], o.free[k], o.live[k]);
    FreeKeepsInv(h, o, k, a);
    var h0 := Push(h, k, a);
    assert Read(h0.mem, a).magic == MAGIC && Read(h0.mem, a).size == ClassBytes(k);
    assert KFree(h0, a + 1) == Push(h0, k, a);
  }

  /** And the whole class is served from that one slot from then on. */
  lemma DoubleFreeHandsOutTwice(h: Heap, o: Own, k: nat, a: Addr, size: nat, size': nat, page: Option<nat>, page': Option<nat>)
    requires Inv(h, o) && k < CLASSES && a in o.live[k]
    requires 0 < size <= MAX_SIZE && IndexOf(size) == k && 0 < size' <= MAX_SIZE && IndexOf(size') == k
    ensures var h1 := KFree(KFree(h, a + 1), a + 1);
      && KMalloc(h1, size, page).1 == a + 1
      && KMalloc(KMalloc(h1, size, page).0, size', page').1 == a + 1
  {
    DoubleFreeMakesCycle(h, o, k, a);
    assert ClassOk(h.mem, h.caches[k], k, o.pages[k], o.free[k], o.live[k]) && IsSlot(o.pages[k], k, a);
    var h1 := KFree(KFree(h, a + 1), a + 1);
    assert KMalloc(h1, size, page) == Pop(h1, k);
    assert Pop(h1, k).0.caches[k].head == a;
  }

  // ---- when a free is sound ----

  /** The heap is sound for some bookkeeping over the same pages. */
  ghost predicate SoundOn(h: Heap, pages: seq<set<nat>>) {
    exists o: Own :: o.pages == pages && Inv(h, o)
  }

  /**
   * After a slot on the free list has been pushed again, any list that memory holds begins with the slot,
   * goes on as the old list did, and so comes back to the slot.
   */
  lemma {:induction false} ListRepeats(mem: map<Addr, Granule>, free: seq<Addr>, m: nat, free': seq<Addr>, i: nat)
    requires m < |free| && Distinct(free) && (forall b <- free :: b != 0)
    requires Chained(mem, if free == [] then 0 else free[0], free)
    requires var mem' := mem[free[m] := Read(mem, free[m]).(next := free[0])];
      free' != [] && free'[0] == free[m] && Chained(mem', free[m], free')
    requires i <= m
    ensures i + 1 < |free'| && free'[i + 1] == free[i]
  {
    if i == 0 {
      assert Follows(mem[free[m] := Read(mem, free[m]).(next := free[0])], free', 0);
      assert free[0] in free;
    } else {
      ListRepeats(mem, free, m, free', i - 1);
      assert Follows(mem, free, i - 1);
      assert Follows(mem[free[m] := Read(mem, free[m]).(next := free[0])], free', i);
      assert free[i] in free;
    }
  }

  lemma PushedTwiceIsUnsound(h: Heap, o: Own, k: nat, a: Addr, o': Own)
    requires Inv(h, o) && k < CLASSES && a in o.free[k] && o'.pages == o.pages
    ensures !Inv(Push(h, k, a), o')
  {
    var free := o.free[k];
    assert ClassOk(h.mem, h.caches[k], k, o.pages[k], free, o.live[k]);
    var m :| 0 <= m < |free| && free[m] == a;
    forall b <- free ensures b != 0 { assert IsSlot(o.pages[k], k, b); }
    if Inv(Push(h, k, a), o') {
      var free' := o'.free[k];
      assert ClassOk(Push(h, k, a).mem, Push(h, k, a).caches[k], k, o'.pages[k], free', o'.live[k]);
      ListRepeats(h.mem, free, m, free', m);
    }
  }

  lemma PushedElsewhereIsUnsound(h: Heap, o: Own, k: nat, a: Addr, j: nat, o': Own)
    requires Inv(h, o) && k < CLASSES && j < CLASSES && j != k && IsSlot(o.pages[k], k, a) && o'.pages == o.pages
    ensures !Inv(Push(h, j, a), o')
  {
    NoSlotElsewhere(h, o, k, a, j);
    assert a != 0;
    if Inv(Push(h, j, a), o') {
      HeadIsSlot(Push(h, j, a), o', j);
    }
  }

  lemma HeadIsSlot(h: Heap, o: Own, k: nat)
    requires Inv(h, o) && k < CLASSES && h.caches[k].head != 0
    ensures IsSlot(o.pages[k], k, h.caches[k].head)
  {
    assert ClassOk(h.mem, h.caches[k], k, o.pages[k], o.free[k], o.live[k]);
    assert o.free[k][0] in o.free[k];
  }

  /**
   * kfree of a slot of the heap leaves it sound exactly when the slot is live, or its header does not pass
   * for that of a live one and nothing happens. Every other free, however long after the first and wherever on
   * the list the slot has got to, ruins the list.
   */
  lemma FreeIsSound(h: Heap, o: Own, k: nat, a: Addr)
    requires Inv(h, o) && k < CLASSES && IsSlot(o.pages[k], k, a)
    ensures SoundOn(KFree(h, a + 1), o.pages) <==> a in o.live[k] || !LooksLikeSlot(h, a + 1)
  {
    assert ClassOk(h.mem, h.caches[k], k, o.pages[k], o.free[k], o.live[k]);
    if a in o.live[k] {
      FreeKeepsInv(h, o, k, a);
      assert OwnStep(o, Free(k, a)).pages == o.pages;
    } else if LooksLikeSlot(h, a + 1) {
      var j := IndexOf(Read(h.mem, a).size);
      forall o': Own | o'.pages == o.pages ensures !Inv(KFree(h, a + 1), o') {
        if j == k { PushedTwiceIsUnsound(h, o, k, a, o'); } else { PushedElsewhereIsUnsound(h, o, k, a, j, o'); }
      }
    }
  }

  /** A slot that has been freed keeps the header of a live one until it is handed out again: it is ready to be freed twice. */
  lemma FreedSlotStillLooksLive(h: Heap, o: Own, k: nat, a: Addr)
    requires Inv(h, o) && k < CLASSES && a in o.live[k]
    ensures LooksLikeSlot(KFree(h, a + 1), a + 1) && a !in OwnStep(o, Free(k, a)).live[k]
  {
    IndexOfClass(k);
    assert ClassOk(h.mem, h.caches[k], k, o.pages[k], o.free[k], o.live[k]);
    FreeKeepsInv(h, o, k, a);
  }

  // ---- what the headers say ----

  /** A slot that is handed out carries the magic number and its slot size, and the rest of memory is as it was. */
  lemma AllocMarksHeader(h: Heap, o: Own, size: nat)
    requires Inv(h, o) && 0 < size <= 2048 && o.free[IndexOf(size)] != []
    ensures KMalloc(h, size, None).1 > 0
    ensures var (h', ptr) := KMalloc(h, size, None);
      && Read(h'.mem, ptr - 1).magic == 0xDEAD_BEEF && Read(h'.mem, ptr - 1).size == ClassBytes(IndexOf(size))
      && forall a: Addr :: a != ptr - 1 ==> Read(h'.mem, a) == Read(h.mem, a)
  {
    HeadIsNull(h, o, IndexOf(size));
  }

  /** The statistics of a class: one more allocation for each slot handed out of it, and nothing else. */
  lemma AllocIsCounted(h: Heap, size: nat, page: Option<nat>, k: nat)
    requires |h.caches| == CLASSES && k < CLASSES
    ensures var (h', ptr) := KMalloc(h, size, page); var hit := 0 < size <= 2048 && ptr != 0 && IndexOf(size) == k;
      h'.caches[k].allocations == h.caches[k].allocations + (if hit then 1 else 0) && h'.caches[k].frees == h.caches[k].frees
  {
  }

  /** And one more free for each header that passes for one of its slots. */
  lemma FreeIsCounted(h: Heap, ptr: Addr, k: nat)
    requires |h.caches| == CLASSES && k < CLASSES
    ensures var h' := KFree(h, ptr);
      && h'.caches[k].allocations == h.caches[k].allocations
      && h'.caches[k].frees == h.caches[k].frees +
           if ptr > 0 && Read(h.mem, ptr - 1).magic == 0xDEAD_BEEF && Read(h.mem, ptr - 1).size <= 2048
              && IndexOf(Read(h.mem, ptr - 1).size) == k then 1 else 0
  {
  }

  /** kfree looks at the sixteen bytes before the pointer: without the magic number, or with more than 2048 as size, it does nothing. */
  lemma FreeChecksHeader(h: Heap, ptr: Addr)
    requires |h.caches| == CLASSES
    ensures KFree(h, ptr) != h <==> ptr > 0 && Read(h.mem, ptr - 1).magic == 0xDEAD_BEEF && Read(h.mem, ptr - 1).size <= 2048
  {
    if LooksLikeSlot(h, ptr) {
      var k := IndexOf(Read(h.mem, ptr - 1).size);
      assert KFree(h, ptr).caches[k].frees == h.caches[k].frees + 1;
    }
  }

  // ---- freeing large blocks ----

  /** Freeing a large block looks at the memory before it: the heap stays as it was, and sound, exactly when no header is mistaken there. */
  lemma LargeFreeIsHarmless(h: Heap, o: Own, p: nat)
    requires Inv(h, o) && p > 0
    ensures Inv(KFree(h, PAGE * p), o) <==> !LooksLikeSlot(h, PAGE * p)
    ensures !LooksLikeSlot(h, PAGE * p) ==> KFree(h, PAGE * p) == h
  {
    if LooksLikeSlot(h, PAGE * p) {
      var k := IndexOf(Read(h.mem, PAGE * p - 1).size);
      var h' := KFree(h, PAGE * p);
      assert ClassOk(h.mem, h.caches[k], k, o.pages[k], o.free[k], o.live[k]);
      assert h'.caches[k].frees == h.caches[k].frees + 1 && h'.caches[k].allocations == h.caches[k].allocations;
      assert !ClassOk(h'.mem, h'.caches[k], k, o.pages[k], o.free[k], o.live[k]);
    }
  }

  /** It is mistaken when the last 16-byte slot of the page before is live: that slot is then handed out a second time. */
  lemma LargeFreeHijacks(h: Heap, o: Own, p: nat, size: nat, page: Option<nat>)
    requires Inv(h, o) && p > 0 && PAGE * p - 1 in o.live[0] && 0 < size <= 16
    ensures LooksLikeSlot(h, PAGE * p)
    ensures KMalloc(KFree(h, PAGE * p), size, page).1 == PAGE * p
  {
    assert ClassOk(h.mem, h.caches[0], 0, o.pages[0], o.free[0], o.live[0]);
    assert IndexOf(size) == 0;
    IndexOfClass(0);
    FreedSlotComesBack(h, o, 0, PAGE * p - 1, size, page);
  }
}
