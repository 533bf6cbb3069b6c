/** memory.c as it runs: zone objects with word bitmaps, scanned and updated in place. */
module Pmm {
  import opened Bits
  import opened PmmInitSpec
  import opened PmmSpec
  import Bitmap

  /** struct memory_zone */
  class MemoryZone {
    var basePfn: nat
    var endPfn: nat
    var totalPages: nat
    var freePages: nat
    var bitmap: array<Word>

    ghost predicate Valid()
      reads this
    {
      Span(basePfn, endPfn) <= 64 * bitmap.Length
    }

    ghost function View(): Zone
      requires Valid()
      reads this, bitmap
    {
      Zone(basePfn, endPfn, totalPages, freePages, Bitmap.View(bitmap[..], Span(basePfn, endPfn)))
    }

    /** spin_init and the empty range that pmm_init starts from. */
    constructor ()
      ensures Valid() && fresh(bitmap)
      ensures View() == EmptyZone
    {
      basePfn, endPfn, totalPages, freePages := TWO64 - 1, 0, 0, 0;
      bitmap := new Word[0];
    }

    /** The record without its bitmap, as the first pass of pmm_init sees it. */
    ghost function Record(): Zone
      reads this
    {
      Zone(basePfn, endPfn, totalPages, freePages, [])
    }

    method Reset()
      modifies this
      ensures Record() == EmptyZone
    {
      basePfn, endPfn, totalPages, freePages := TWO64 - 1, 0, 0, 0;
    }

    /** First pass: widen the range by one entry. */
    method Widen(lo: nat, hi: nat)
      requires lo <= hi
      modifies this
      ensures Record() == ExtendZone(old(Record()), lo, hi)
    {
      if lo * PAGE_SIZE < basePfn * PAGE_SIZE % TWO64 {
        basePfn := lo;
      }
      if hi * PAGE_SIZE > endPfn * PAGE_SIZE % TWO64 {
        endPfn := hi;
      }
      totalPages := totalPages + (hi - lo);
    }

    /** A bitmap of the zone's size, rounded up to whole words, with every bit set. */
    method NewBitmap()
      requires totalPages == 0 ==> Record() == EmptyZone
      modifies this
      ensures Valid() && fresh(bitmap) && View() == AllUsed(old(Record()))
    {
      if totalPages == 0 {
        bitmap := new Word[0];
      } else {
        bitmap := new Word[(Span(basePfn, endPfn) + 63) / 64];
        Bitmap.Fill(bitmap);
      }
      assert View().used == AllUsed(Record()).used;
    }

    /** Second pass: one available frame. */
    method MarkFree(pfn: nat)
      requires Valid()
      modifies this`freePages, bitmap
      ensures Valid() && View() == MarkFrame(old(View()), pfn)
    {
      if totalPages == 0 || pfn < basePfn || pfn >= endPfn {
        return;
      }
      var idx := pfn - basePfn;
      ghost var before := bitmap[..];
      Bitmap.Clear(bitmap, idx);
      freePages := freePages + 1;
      forall j | 0 <= j < Span(basePfn, endPfn)
        ensures View().used[j] == (j != idx && Bitmap.View(before, Span(basePfn, endPfn))[j])
      {
        assert Bitmap.Test(bitmap[..], j) <==> j != idx && Bitmap.Test(before, j);
      }
      assert View().used == old(View()).used[idx := false];
    }

    method MarkFramesFree(lo: nat, hi: nat)
      requires Valid()
      modifies this`freePages, bitmap
      ensures Valid() && View() == MarkFrames(old(View()), lo, hi)
    {
      var pfn := lo;
      while pfn < hi
        invariant lo <= pfn && (pfn <= hi || pfn == lo)
        invariant Valid() && View() == MarkFrames(old(View()), lo, pfn)
      {
        MarkFree(pfn);
        pfn := pfn + 1;
      }
    }

    /** Reservation: set the bit and lower the counter without looking at the bit. */
    method Reserve(pfn: nat)
      requires Valid() && basePfn <= pfn < endPfn
      modifies this`freePages, bitmap
      ensures Valid() && View() == ReserveFrame(old(View()), pfn)
    {
      MarkUsed(pfn - basePfn);
      if freePages > 0 {
        freePages := freePages - 1;
      }
    }

    /** bitmap_test on the zone's own bitmap. */
    predicate InUse(idx: nat)
      requires Valid() && idx < Span(basePfn, endPfn)
      reads this, bitmap
      ensures InUse(idx) == View().used[idx]
    {
      Bitmap.Test(bitmap[..], idx)
    }

    /** bitmap_set on the zone's own bitmap. */
    method MarkUsed(idx: nat)
      requires Valid() && idx < Span(basePfn, endPfn)
      modifies bitmap
      ensures Valid()
      ensures View() == old(View()).(used := old(View()).used[idx := true])
    {
      ghost var before := bitmap[..];
      Bitmap.Set(bitmap, idx);
      forall j | 0 <= j < Span(basePfn, endPfn)
        ensures View().used[j] == (j == idx || Bitmap.View(before, Span(basePfn, endPfn))[j])
      {
        assert Bitmap.Test(bitmap[..], j) <==> j == idx || Bitmap.Test(before, j);
      }
      assert View().used == old(View()).used[idx := true];
    }

    /** The loop of pmm_alloc_page over one zone. */
    method TakePage() returns (r: Option<nat>)
      requires Valid() && freePages > 0
      modifies this`freePages, bitmap
      ensures Valid()
      ensures match FirstRun(old(View()).used, 1, 0, 1)
        case None => r == None && View() == old(View())
        case Some(i) => r == Some(basePfn + i) && View() == Take(old(View()), i, 1)
    {
      ghost var z := View();
      var pfn := basePfn;
      while pfn < endPfn
        invariant basePfn <= pfn
        invariant Valid() && View() == z
        invariant FirstRun(z.used, 1, 0, 1) == FirstRun(z.used, 1, pfn - basePfn, 1)
      {
        var idx := pfn - basePfn;
        if !InUse(idx) {
          MarkUsed(idx);
          freePages := freePages - 1;
          assert z.used[idx := true] == SetRange(z.used, idx, 1);
          return Some(pfn);
        }
        pfn := pfn + 1;
      }
      return None;
    }

    /** bitmap_set on `count` consecutive bits. */
    method MarkRange(start: nat, count: nat)
      requires Valid() && start + count <= Span(basePfn, endPfn)
      modifies bitmap
      ensures Valid()
      ensures View() == old(View()).(used := SetRange(old(View()).used, start, count))
    {
      ghost var z := View();
      assert z.used == SetRange(z.used, start, 0);
      for j := 0 to count
        invariant Valid() && View() == z.(used := SetRange(z.used, start, j))
      {
        MarkUsed(start + j);
        assert SetRange(z.used, start, j)[start + j := true] == SetRange(z.used, start, j + 1);
      }
    }

    /** The body of pmm_alloc_pages for one zone: scan, set the run's bits, lower the counter. */
    method TakePages(count: nat) returns (r: Option<nat>)
      requires Valid() && 0 < count <= freePages
      modifies this`freePages, bitmap
      ensures Valid()
      ensures match FirstRun(old(View()).used, count, 0, 1)
        case None => r == None && View() == old(View())
        case Some(i) => r == Some(basePfn + i) && View() == Take(old(View()), i, count)
    {
      FirstRunIsClear(View().used, count, 0, 1);
      var start := FindRun(bitmap, Span(basePfn, endPfn), count);
      if start == None {
        return None;
      }
      MarkRange(start.value, count);
      freePages := freePages - count;
      return Some(basePfn + start.value);
    }

    /** The inner loop of pmm_alloc_huge_page: are the 512 bits from `pfn` on clear? */
    method BlockIsFree(pfn: nat) returns (free: bool)
      requires Valid() && basePfn <= pfn && pfn + HUGE_FRAMES <= endPfn
      ensures free == ClearRun(View().used, pfn - basePfn, HUGE_FRAMES)
    {
      for i := 0 to HUGE_FRAMES
        invariant ClearRun(View().used, pfn - basePfn, i)
      {
        var idx := pfn + i - basePfn;
        if idx >= endPfn - basePfn || InUse(idx) {
          return false;
        }
      }
      return true;
    }

    /** The strided scan of pmm_alloc_huge_page over one zone. */
    method FindHuge() returns (r: Option<nat>)
      requires Valid()
      ensures r == match FirstRun(View().used, HUGE_FRAMES, 0, HUGE_FRAMES) case None => None case Some(i) => Some(basePfn + i)
    {
      ghost var used := View().used;
      var pfn := basePfn;
      while pfn + HUGE_FRAMES <= endPfn
        invariant basePfn <= pfn
        invariant FirstRun(used, HUGE_FRAMES, 0, HUGE_FRAMES)
          == FirstRun(used, HUGE_FRAMES, pfn - basePfn, HUGE_FRAMES)
      {
        var free := BlockIsFree(pfn);
        if free {
          return Some(pfn);
        }
        pfn := pfn + HUGE_FRAMES;
      }
      return None;
    }

    /** The body of pmm_alloc_huge_page for one zone. */
    method TakeHuge() returns (r: Option<nat>)
      requires Valid() && HUGE_FRAMES <= freePages
      modifies this`freePages, bitmap
      ensures Valid()
      ensures match FirstRun(old(View()).used, HUGE_FRAMES, 0, HUGE_FRAMES)
        case None => r == None && View() == old(View())
        case Some(i) => r == Some(basePfn + i) && View() == Take(old(View()), i, HUGE_FRAMES)
    {
      FirstRunIsClear(View().used, HUGE_FRAMES, 0, HUGE_FRAMES);
      r := FindHuge();
      if r.Some? {
        MarkRange(r.value - basePfn, HUGE_FRAMES);
        freePages := freePages - HUGE_FRAMES;
      }
    }
  }

  /** The scan of pmm_alloc_pages over the first `n` bits, counting consecutive clear ones. */
  method FindRun(bm: array<Word>, n: nat, count: nat) returns (r: Option<nat>)
    requires n <= 64 * bm.Length && count > 0
    ensures r == FirstRun(Bitmap.View(bm[..], n), count, 0, 1)
  {
    ghost var used := Bitmap.View(bm[..], n);
    ghost var from: nat := 0;
    var consecutive, start := 0, 0;
    for idx := 0 to n
      invariant consecutive < count
      invariant from + consecutive == idx && (consecutive > 0 ==> start == from)
      invariant ClearRun(used, from, consecutive)
      invariant FirstRun(used, count, 0, 1) == FirstRun(used, count, from, 1)
    {
      var inUse := Bitmap.Test(bm[..], idx);
      assert inUse == used[idx];
      if !inUse {
        if consecutive == 0 { start := idx; }
        RunGrows(used, from, consecutive);
        consecutive := consecutive + 1;
        if consecutive >= count {
          FirstRunHere(used, count, from);
          return Some(start);
        }
      } else {
        SkipBlockedStarts(used, count, from, idx);
        from := idx + 1;
        consecutive := 0;
      }
    }
    FirstRunNowhere(used, count, from);
    return None;
  }

  /** The static state of memory.c: three zones, in the order DMA, DMA32, NORMAL. */
  class PhysicalMemory {
    const dma: MemoryZone
    const dma32: MemoryZone
    const normal: MemoryZone

    /** zones[i] */
    function ZoneAt(i: nat): MemoryZone
      requires i < ZONE_COUNT
    {
      if i == ZONE_DMA then dma else if i == ZONE_DMA32 then dma32 else normal
    }

    ghost predicate Valid()
      reads dma, dma32, normal
    {
      && dma.Valid() && dma32.Valid() && normal.Valid()
      && dma != dma32 && dma != normal && dma32 != normal
      && dma.bitmap != dma32.bitmap && dma.bitmap != normal.bitmap && dma32.bitmap != normal.bitmap
    }

    ghost function View(): Zones
      requires Valid()
      reads dma, dma32, normal, dma.bitmap, dma32.bitmap, normal.bitmap
    {
      [dma.View(), dma32.View(), normal.View()]
    }

    /** The zone records before pmm_init has read the memory map. */
    constructor ()
      ensures Valid()
      ensures fresh(dma) && fresh(dma32) && fresh(normal)
      ensures fresh(dma.bitmap) && fresh(dma32.bitmap) && fresh(normal.bitmap)
      ensures View() == seq(ZONE_COUNT, _ => EmptyZone)
    {
      dma := new MemoryZone();
      dma32 := new MemoryZone();
      normal := new MemoryZone();
    }

    /** pmm_init, from the entries of the memory map on. */
    method Init(entries: seq<Entry>)
      requires dma != dma32 && dma != normal && dma32 != normal
      modifies dma, dma32, normal
      ensures Valid()
      ensures fresh(dma.bitmap) && fresh(dma32.bitmap) && fresh(normal.bitmap)
      ensures View() == InitZones(entries)
    {
      FirstPass(entries);
      RangesStartEmpty(entries);
      assert dma.Record() == Ranges(entries)[0] && dma32.Record() == Ranges(entries)[1] && normal.Record() == Ranges(entries)[2];
      dma.NewBitmap();
      dma32.NewBitmap();
      normal.NewBitmap();
      assert View() == WithBitmaps(Ranges(entries));
      SecondPass(entries);
      ReserveKernel();
    }

    method FirstPass(entries: seq<Entry>)
      requires dma != dma32 && dma != normal && dma32 != normal
      modifies dma, dma32, normal
      ensures [dma.Record(), dma32.Record(), normal.Record()] == Ranges(entries)
    {
      dma.Reset();
      dma32.Reset();
      normal.Reset();
      for i := 0 to |entries|
        invariant [dma.Record(), dma32.Record(), normal.Record()] == Ranges(entries[..i])
      {
        var e := entries[i];
        assert entries[..i + 1][..i] == entries[..i];
        if Usable(e) {
          ZoneAt(ZoneIndex(e)).Widen(Lo(e), Hi(e));
        }
      }
      assert entries[..|entries|] == entries;
    }

    method SecondPass(entries: seq<Entry>)
      requires Valid()
      modifies dma`freePages, dma32`freePages, normal`freePages, dma.bitmap, dma32.bitmap, normal.bitmap
      ensures Valid()
      ensures View() == MarkAll(old(View()), entries)
    {
      for i := 0 to |entries|
        invariant Valid()
        invariant View() == MarkAll(old(View()), entries[..i])
      {
        var e := entries[i];
        assert entries[..i + 1][..i] == entries[..i];
        if e.kind == AVAILABLE {
          MarkEntry(e);
        }
      }
      assert entries[..|entries|] == entries;
    }

    method MarkEntry(e: Entry)
      requires Valid() && e.kind == AVAILABLE
      modifies dma`freePages, dma32`freePages, normal`freePages, dma.bitmap, dma32.bitmap, normal.bitmap
      ensures Valid()
      ensures View() == Mark(old(View()), e)
    {
      var zone := ZoneAt(ZoneIndex(e));
      assert View()[ZoneIndex(e)] == zone.View();
      zone.MarkFramesFree(Lo(e), Hi(e));
      assert View() == Mark(old(View()), e);
    }

    method ReserveKernel()
      requires Valid()
      modifies normal`freePages, normal.bitmap
      ensures Valid()
      ensures View() == old(View())[ZONE_NORMAL := ReserveFrames(old(View())[ZONE_NORMAL], KERNEL_FRAMES)]
    {
      ghost var z := normal.View();
      var pfn := 0;
      while pfn < KERNEL_FRAMES && pfn < normal.endPfn
        invariant Valid() && 0 <= pfn <= KERNEL_FRAMES
        invariant normal.View() == ReserveFrames(z, pfn)
      {
        if pfn >= normal.basePfn {
          normal.Reserve(pfn);
        }
        pfn := pfn + 1;
      }
      ReserveBeyondEnd(z, pfn, KERNEL_FRAMES);
    }

    /** One zone's share of a request, once its counter says that it may succeed. */
    method TryZone(i: nat, req: Request) returns (r: Option<nat>)
      requires Valid() && i < ZONE_COUNT && 0 < Size(req) <= ZoneAt(i).freePages
      modifies dma`freePages, dma32`freePages, normal`freePages, dma.bitmap, dma32.bitmap, normal.bitmap
      ensures Valid()
      ensures match FirstRun(old(View())[i].used, Size(req), 0, Stride(req))
        case None => r == None && View() == old(View())
        case Some(at) =>
          r == Some(old(View())[i].base + at) && View() == old(View())[i := Take(old(View())[i], at, Size(req))]
    {
      var zone := ZoneAt(i);
      assert View()[i] == zone.View();
      match req
      case OnePage => r := zone.TakePage();
      case ManyPages(count) => r := zone.TakePages(count);
      case HugePage => r := zone.TakeHuge();
    }

    /** The zone loop shared by the three allocators: NORMAL, DMA32, DMA. */
    method ServeRequest(req: Request) returns (r: Option<nat>)
      requires Valid() && Size(req) > 0
      modifies dma`freePages, dma32`freePages, normal`freePages, dma.bitmap, dma32.bitmap, normal.bitmap
      ensures Valid()
      ensures (View(), r) == AllocFrom(old(View()), ZONE_COUNT, Size(req), Stride(req))
    {
      ghost var zs := View();
      var i := ZONE_COUNT;
      while i > 0
        invariant 0 <= i <= ZONE_COUNT
        invariant Valid() && View() == zs
        invariant AllocFrom(zs, ZONE_COUNT, Size(req), Stride(req)) == AllocFrom(zs, i, Size(req), Stride(req))
      {
        i := i - 1;
        OneZone(zs, i, Size(req), Stride(req));
        assert ZoneAt(i).freePages == zs[i].free;
        if ZoneAt(i).freePages >= Size(req) {
          r := TryZone(i, req);
          if r.Some? {
            return;
          }
        }
      }
      return None;
    }

    /** pmm_get_free, in bytes */
    method GetFree() returns (r: nat)
      requires Valid()
      ensures r == FreeCount(View()) * 4096
    {
      r := 0;
      var i := 0;
      while i < ZONE_COUNT
        invariant 0 <= i <= ZONE_COUNT
        invariant r == CountedBelow(View(), i) * 4096
      {
        assert ZoneAt(i).freePages == View()[i].free;
        r := r + ZoneAt(i).freePages * PAGE_SIZE;
        i := i + 1;
      }
      ghost var zs := View();
      assert CountedBelow(zs, 1) == zs[0].free && CountedBelow(zs, 2) == CountedBelow(zs, 1) + zs[1].free;
      assert CountedBelow(zs, 3) == CountedBelow(zs, 2) + zs[2].free;
    }

    /** pmm_alloc_page */
    method AllocPage() returns (r: Option<nat>)
      requires Valid()
      modifies dma`freePages, dma32`freePages, normal`freePages, dma.bitmap, dma32.bitmap, normal.bitmap
      ensures Valid()
      ensures (View(), r) == Serve(old(View()), OnePage)
    {
      r := ServeRequest(OnePage);
    }

    /** pmm_alloc_pages */
    method AllocPages(count: nat) returns (r: Option<nat>)
      requires Valid()
      modifies dma`freePages, dma32`freePages, normal`freePages, dma.bitmap, dma32.bitmap, normal.bitmap
      ensures Valid()
      ensures (View(), r) == Serve(old(View()), ManyPages(count))
    {
      if count == 0 {
        r := None;
      } else if count == 1 {
        r := AllocPage();
      } else {
        r := ServeRequest(ManyPages(count));
      }
    }

    /** pmm_alloc_huge_page */
    method AllocHugePage() returns (r: Option<nat>)
      requires Valid()
      modifies dma`freePages, dma32`freePages, normal`freePages, dma.bitmap, dma32.bitmap, normal.bitmap
      ensures Valid()
      ensures (View(), r) == Serve(old(View()), HugePage)
    {
      r := ServeRequest(HugePage);
    }
  }

  /** What the allocators do with one zone before they go on to the next. */
  lemma OneZone(zs: Zones, i: nat, count: nat, step: nat)
    requires i < ZONE_COUNT && step > 0
    ensures AllocFrom(zs, i + 1, count, step) ==
      if zs[i].free < count then AllocFrom(zs, i, count, step)
      else match FirstRun(zs[i].used, count, 0, step)
        case None => AllocFrom(zs, i, count, step)
        case Some(at) => (zs[i := Take(zs[i], at, count)], Some(zs[i].base + at))
  {
  }

  /** What the first `i` counters add up to. */
  function CountedBelow(zs: Zones, i: nat): nat
    requires i <= ZONE_COUNT
  {
    if i == 0 then 0 else CountedBelow(zs, i - 1) + zs[i - 1].free
  }

  lemma RunGrows(used: seq<bool>, from: nat, count: nat)
    requires ClearRun(used, from, count) && from + count < |used| && !used[from + count]
    ensures ClearRun(used, from, count + 1)
  {
  }

  lemma FirstRunHere(used: seq<bool>, count: nat, from: nat)
    requires ClearRun(used, from, count)
    ensures FirstRun(used, count, from, 1) == Some(from)
  {
  }

  lemma FirstRunNowhere(used: seq<bool>, count: nat, from: nat)
    requires from + count > |used|
    ensures FirstRun(used, count, from, 1) == None
  {
  }

  lemma {:induction false} FirstRunIsClear(used: seq<bool>, count: nat, from: nat, step: nat)
    requires step > 0
    ensures FirstRun(used, count, from, step).Some? ==>
      ClearRun(used, FirstRun(used, count, from, step).value, count)
  {
    FirstRunIsLeast(used, count, from, step);
  }

  /** No run of `count` bits that covers a used bit is clear, so every start up to it is skipped. */
  lemma {:induction false} SkipBlockedStarts(used: seq<bool>, count: nat, from: nat, at: nat)
    requires from <= at < |used| && at < from + count && used[at]
    ensures FirstRun(used, count, from, 1) == FirstRun(used, count, at + 1, 1)
    decreases at - from
  {
    if from + count > |used| {
    } else if from < at {
      SkipBlockedStarts(used, count, from + 1, at);
    }
  }
}
