/** pmm_init on values: from the boot loader's memory map to zones and bitmaps. */
module PmmInitSpec {
  import opened Bits
  import opened PmmSpec

  const AVAILABLE := 1
  const LOW_FRAMES := 0x100
  const DMA_FRAMES := 0x1000
  const DMA32_FRAMES := 0x10_0000
  const KERNEL_FRAMES := 0x1000

  /** struct multiboot_mmap_entry */
  datatype Entry = Entry(baseAddr: Word, length: Word, kind: nat)

  /** First whole frame of the entry, at or above 1 MB. */
  function Lo(e: Entry): nat {
    var start := (e.baseAddr + PAGE_SIZE - 1) % TWO64 / PAGE_SIZE;
    if start < LOW_FRAMES then LOW_FRAMES else start
  }

  /** One past its last whole frame. */
  function Hi(e: Entry): nat {
    (e.baseAddr + e.length) % TWO64 / PAGE_SIZE
  }

  predicate Usable(e: Entry) {
    e.kind == AVAILABLE && Lo(e) < Hi(e)
  }

  /** The zone is picked by the END of the entry alone. */
  function ZoneIndex(e: Entry): (k: nat)
    ensures k < ZONE_COUNT
  {
    if Hi(e) <= DMA_FRAMES then ZONE_DMA else if Hi(e) <= DMA32_FRAMES then ZONE_DMA32 else ZONE_NORMAL
  }

  // ---- first pass: zone ranges ----

  function ExtendZone(z: Zone, lo: nat, hi: nat): Zone
    requires lo <= hi
  {
    Zone(if lo * PAGE_SIZE < z.base * PAGE_SIZE % TWO64 then lo else z.base,
         if hi * PAGE_SIZE > z.end * PAGE_SIZE % TWO64 then hi else z.end,
         z.total + (hi - lo), z.free, z.used)
  }

  function Extend(zs: Zones, e: Entry): Zones {
    if Usable(e) then zs[ZoneIndex(e) := ExtendZone(zs[ZoneIndex(e)], Lo(e), Hi(e))] else zs
  }

  function Ranges(entries: seq<Entry>): Zones {
    if entries == [] then [EmptyZone, EmptyZone, EmptyZone]
    else Extend(Ranges(entries[..|entries| - 1]), entries[|entries| - 1])
  }

  // ---- bitmaps: everything used ----

  function AllUsed(z: Zone): Zone {
    z.(used := seq(Span(z.base, z.end), _ => true))
  }

  function WithBitmaps(zs: Zones): Zones {
    [AllUsed(zs[0]), AllUsed(zs[1]), AllUsed(zs[2])]
  }

  // ---- second pass: available frames become free ----

  function MarkFrame(z: Zone, f: nat): Zone {
    if z.total == 0 || !InZone(z, f) || |z.used| != Span(z.base, z.end) then z
    else z.(used := z.used[f - z.base := false], free := z.free + 1)
  }

  function MarkFrames(z: Zone, lo: nat, hi: nat): Zone {
    if hi <= lo then z else MarkFrame(MarkFrames(z, lo, hi - 1), hi - 1)
  }

  function Mark(zs: Zones, e: Entry): Zones {
    if e.kind == AVAILABLE then zs[ZoneIndex(e) := MarkFrames(zs[ZoneIndex(e)], Lo(e), Hi(e))] else zs
  }

  function MarkAll(zs: Zones, entries: seq<Entry>): Zones {
    if entries == [] then zs else Mark(MarkAll(zs, entries[..|entries| - 1]), entries[|entries| - 1])
  }

  // ---- reservation: only zone NORMAL, with an unconditional decrement ----

  function ReserveFrame(z: Zone, f: nat): Zone {
    if !InZone(z, f) || |z.used| != Span(z.base, z.end) then z
    else z.(used := z.used[f - z.base := true], free := if z.free > 0 then z.free - 1 else 0)
  }

  function ReserveFrames(z: Zone, n: nat): Zone {
    if n == 0 then z else ReserveFrame(ReserveFrames(z, n - 1), n - 1)
  }

  function InitZones(entries: seq<Entry>): Zones {
    var zs := MarkAll(WithBitmaps(Ranges(entries)), entries);
    zs[ZONE_NORMAL := ReserveFrames(zs[ZONE_NORMAL], KERNEL_FRAMES)]
  }

  // ---- what the memory map means ----

  /** Every entry ends below the top of the address space and available entries do not overlap. */
  ghost predicate SaneMap(entries: seq<Entry>) {
    && (forall e :: e in entries ==> e.baseAddr + e.length + PAGE_SIZE <= TWO64)
    && (forall i, j :: 0 <= i < j < |entries| && entries[i].kind == AVAILABLE && entries[j].kind == AVAILABLE ==>
          DisjointEntries(entries[i], entries[j]))
  }

  predicate DisjointEntries(d: Entry, e: Entry) {
    d.baseAddr + d.length <= e.baseAddr || e.baseAddr + e.length <= d.baseAddr
  }

  /** Frame `f` lies at or above 1 MB and wholly inside an available entry. */
  predicate Covers(e: Entry, f: nat) {
    && e.kind == AVAILABLE
    && LOW_FRAMES <= f
    && e.baseAddr <= f * PAGE_SIZE && (f + 1) * PAGE_SIZE <= e.baseAddr + e.length
  }

  lemma CoversByFrames(e: Entry, f: nat)
    requires e.baseAddr + e.length + PAGE_SIZE <= TWO64
    ensures Covers(e, f) <==> e.kind == AVAILABLE && Lo(e) <= f < Hi(e)
  {
  }

  lemma DisjointFrames(d: Entry, e: Entry)
    requires d.baseAddr + d.length + PAGE_SIZE <= TWO64 && e.baseAddr + e.length + PAGE_SIZE <= TWO64
    requires DisjointEntries(d, e) && Usable(d) && Usable(e)
    ensures Hi(d) <= Lo(e) || Hi(e) <= Lo(d)
  {
    if d.baseAddr + d.length <= e.baseAddr {
      assert Hi(d) <= Lo(e);
    } else {
      assert Hi(e) <= Lo(d);
    }
  }

  // ---- first pass: the ranges are tight ----

  predicate OfZone(e: Entry, k: nat) {
    Usable(e) && ZoneIndex(e) == k
  }

  /** A range record that 64-bit arithmetic handles exactly. */
  predicate SmallRange(z: Zone) {
    if z.total == 0 then z == EmptyZone
    else z.base < TWO64 / PAGE_SIZE && z.end < TWO64 / PAGE_SIZE && z.free == 0 && z.used == []
  }

  ghost predicate Encloses(z: Zone, entries: seq<Entry>, k: nat) {
    forall i :: 0 <= i < |entries| && OfZone(entries[i], k) ==>
      z.total > 0 && z.base <= Lo(entries[i]) && Hi(entries[i]) <= z.end
  }

  ghost predicate StartsAt(entries: seq<Entry>, k: nat, f: nat) {
    exists i :: 0 <= i < |entries| && OfZone(entries[i], k) && Lo(entries[i]) == f
  }

  ghost predicate EndsAt(entries: seq<Entry>, k: nat, f: nat) {
    exists i :: 0 <= i < |entries| && OfZone(entries[i], k) && Hi(entries[i]) == f
  }

  /** The wrapping comparisons compute a plain minimum and maximum. */
  lemma ExtendZoneIsHull(z: Zone, lo: nat, hi: nat)
    requires SmallRange(z) && lo < hi < TWO64 / PAGE_SIZE
    ensures SmallRange(ExtendZone(z, lo, hi)) && ExtendZone(z, lo, hi).total > 0
    ensures ExtendZone(z, lo, hi).base == if z.total == 0 || lo < z.base then lo else z.base
    ensures ExtendZone(z, lo, hi).end == if z.total == 0 || hi > z.end then hi else z.end
  {
  }

  /** Zone `k` spans exactly from the lowest to the highest usable frame of its entries. */
  lemma {:induction false} RangesAreTight(entries: seq<Entry>, k: nat)
    requires forall e :: e in entries ==> e.baseAddr + e.length + PAGE_SIZE <= TWO64
    requires k < ZONE_COUNT
    ensures SmallRange(Ranges(entries)[k])
    ensures Encloses(Ranges(entries)[k], entries, k)
    ensures Ranges(entries)[k].total > 0 ==>
      StartsAt(entries, k, Ranges(entries)[k].base) && EndsAt(entries, k, Ranges(entries)[k].end)
  {
    if entries != [] {
      var n := |entries| - 1;
      var e, z := entries[n], Ranges(entries[..n])[k];
      RangesAreTight(entries[..n], k);
      assert e in entries;
      if OfZone(e, k) {
        ExtendZoneIsHull(z, Lo(e), Hi(e));
      }
      EnclosesOneMore(z, Ranges(entries)[k], entries, n, k);
      WiderSearch(entries, n, k, z.base);
      WiderSearch(entries, n, k, z.end);
    }
  }

  lemma EnclosesOneMore(z: Zone, z': Zone, entries: seq<Entry>, n: nat, k: nat)
    requires |entries| == n + 1 && Encloses(z, entries[..n], k)
    requires z.total > 0 ==> z'.total > 0 && z'.base <= z.base && z.end <= z'.end
    requires OfZone(entries[n], k) ==> z'.total > 0 && z'.base <= Lo(entries[n]) && Hi(entries[n]) <= z'.end
    ensures Encloses(z', entries, k)
  {
    forall i | 0 <= i < n && OfZone(entries[i], k)
      ensures z'.total > 0 && z'.base <= Lo(entries[i]) && Hi(entries[i]) <= z'.end
    {
      assert entries[..n][i] == entries[i];
    }
  }

  lemma WiderSearch(entries: seq<Entry>, n: nat, k: nat, f: nat)
    requires n <= |entries|
    ensures StartsAt(entries[..n], k, f) ==> StartsAt(entries, k, f)
    ensures EndsAt(entries[..n], k, f) ==> EndsAt(entries, k, f)
  {
    assert forall i :: 0 <= i < n ==> entries[..n][i] == entries[i];
  }

  /** Zones end in order: DMA below DMA32 below NORMAL. */
  lemma RangesAreOrdered(entries: seq<Entry>, k: nat, h: nat)
    requires SaneMap(entries) && k < h < ZONE_COUNT
    requires Ranges(entries)[k].total > 0 && Ranges(entries)[h].total > 0
    ensures Ranges(entries)[k].end <= Ranges(entries)[h].base
  {
    RangesAreTight(entries, k);
    RangesAreTight(entries, h);
    EntriesAreOrdered(entries, k, h, Ranges(entries)[k].end, Ranges(entries)[h].base);
  }

  lemma EntriesAreOrdered(entries: seq<Entry>, k: nat, h: nat, end: nat, base: nat)
    requires SaneMap(entries) && k < h < ZONE_COUNT && EndsAt(entries, k, end) && StartsAt(entries, h, base)
    ensures end <= base
  {
    var i :| 0 <= i < |entries| && OfZone(entries[i], k) && Hi(entries[i]) == end;
    var j :| 0 <= j < |entries| && OfZone(entries[j], h) && Lo(entries[j]) == base;
    assert entries[i] in entries && entries[j] in entries;
    if i < j {
      DisjointFrames(entries[i], entries[j]);
    } else {
      DisjointFrames(entries[j], entries[i]);
    }
  }

  lemma {:induction false} RangesStartEmpty(entries: seq<Entry>)
    ensures forall k :: 0 <= k < ZONE_COUNT && Ranges(entries)[k].total == 0 ==> Ranges(entries)[k] == EmptyZone
  {
    if entries != [] { RangesStartEmpty(entries[..|entries| - 1]); }
  }

  // ---- second pass: the bitmaps say exactly what is available ----

  /** Frames `lo .. hi` of the zone are clear where `z` had them used; nothing else moved. */
  ghost predicate Cleared(z: Zone, z': Zone, lo: nat, hi: nat) {
    && ZoneOk(z')
    && z'.base == z.base && z'.end == z.end && z'.total == z.total
    && forall f: nat :: InZone(z, f) ==> (FreeIn(z', f) <==> FreeIn(z, f) || lo <= f < hi)
  }

  lemma {:induction false} MarkFramesClears(z: Zone, lo: nat, hi: nat)
    requires ZoneOk(z) && (lo < hi ==> z.total > 0 && z.base <= lo && hi <= z.end)
    requires forall f: nat :: lo <= f < hi ==> !FreeIn(z, f)
    ensures Cleared(z, MarkFrames(z, lo, hi), lo, hi)
  {
    if lo < hi {
      MarkFramesClears(z, lo, hi - 1);
      MarkFrameCounts(MarkFrames(z, lo, hi - 1), hi - 1);
    }
  }

  lemma MarkFrameCounts(z: Zone, f: nat)
    requires ZoneOk(z) && z.total > 0 && InZone(z, f) && !FreeIn(z, f)
    ensures Cleared(z, MarkFrame(z, f), f, f + 1)
  {
    var i := f - z.base;
    var cleared := z.used[i := false];
    CountClearTake(cleared, i, 1);
    assert SetRange(cleared, i, 1) == z.used;
  }

  /** Zone `k` after the first `n` entries: free are exactly the frames of its entries among them. */
  ghost predicate Marked(z: Zone, entries: seq<Entry>, n: nat, k: nat)
    requires n <= |entries| && k < ZONE_COUNT
  {
    && ZoneOk(z)
    && z.base == Ranges(entries)[k].base && z.end == Ranges(entries)[k].end && z.total == Ranges(entries)[k].total
    && forall f: nat :: InZone(z, f) ==>
      (FreeIn(z, f) <==> exists i :: 0 <= i < n && OfZone(entries[i], k) && Lo(entries[i]) <= f < Hi(entries[i]))
  }

  lemma {:induction false} MarkAllIsExact(entries: seq<Entry>, n: nat, k: nat)
    requires SaneMap(entries) && n <= |entries| && k < ZONE_COUNT
    ensures Marked(MarkAll(WithBitmaps(Ranges(entries)), entries[..n])[k], entries, n, k)
  {
    if n == 0 {
      CountClearBounds(AllUsed(Ranges(entries)[k]).used);
      RangesAreTight(entries, k);
    } else {
      MarkAllIsExact(entries, n - 1, k);
      assert entries[..n][..n - 1] == entries[..n - 1];
      var zs := MarkAll(WithBitmaps(Ranges(entries)), entries[..n - 1]);
      MarkAt(zs, entries[n - 1], k);
      MarkedStep(zs[k], entries, n - 1, k);
    }
  }

  lemma MarkAt(zs: Zones, e: Entry, k: nat)
    requires k < ZONE_COUNT
    ensures Mark(zs, e)[k] == if OfZone(e, k) then MarkFrames(zs[k], Lo(e), Hi(e)) else zs[k]
  {
  }

  lemma MarkedStep(z: Zone, entries: seq<Entry>, n: nat, k: nat)
    requires SaneMap(entries) && n < |entries| && k < ZONE_COUNT && Marked(z, entries, n, k)
    ensures Marked(if OfZone(entries[n], k) then MarkFrames(z, Lo(entries[n]), Hi(entries[n])) else z, entries, n + 1, k)
  {
    var e := entries[n];
    if OfZone(e, k) {
      RangesAreTight(entries, k);
      forall f: nat | Lo(e) <= f < Hi(e) ensures !FreeIn(z, f) {
        NotYetMarked(entries, n, f);
      }
      MarkFramesClears(z, Lo(e), Hi(e));
    }
  }

  lemma NotYetMarked(entries: seq<Entry>, n: nat, f: nat)
    requires SaneMap(entries) && n < |entries|
    requires Usable(entries[n]) && Lo(entries[n]) <= f < Hi(entries[n])
    ensures forall i :: 0 <= i < n && Usable(entries[i]) ==> !(Lo(entries[i]) <= f < Hi(entries[i]))
  {
    assert entries[n] in entries;
    forall i | 0 <= i < n && Usable(entries[i]) ensures !(Lo(entries[i]) <= f < Hi(entries[i])) {
      assert entries[i] in entries;
      DisjointFrames(entries[i], entries[n]);
    }
  }

  // ---- reservation ----

  lemma {:induction false} ReserveFramesTakes(z: Zone, n: nat)
    requires ZoneOk(z) && forall f: nat :: f < n && InZone(z, f) ==> FreeIn(z, f)
    ensures ZoneOk(ReserveFrames(z, n))
    ensures ReserveFrames(z, n).base == z.base && ReserveFrames(z, n).end == z.end
    ensures forall f: nat :: FreeIn(ReserveFrames(z, n), f) <==> FreeIn(z, f) && f >= n
  {
    if n > 0 {
      ReserveFramesTakes(z, n - 1);
      ReserveFrameTakes(ReserveFrames(z, n - 1), n - 1);
    }
  }

  lemma ReserveFrameTakes(z: Zone, f: nat)
    requires ZoneOk(z) && (InZone(z, f) ==> FreeIn(z, f))
    ensures ZoneOk(ReserveFrame(z, f))
    ensures ReserveFrame(z, f).base == z.base && ReserveFrame(z, f).end == z.end
    ensures forall g: nat :: FreeIn(ReserveFrame(z, f), g) <==> FreeIn(z, g) && g != f
  {
    if InZone(z, f) {
      var i := f - z.base;
      CountClearTake(z.used, i, 1);
      assert SetRange(z.used, i, 1) == z.used[i := true];
    }
  }

  /** The loop may stop at the end of the zone. */
  lemma {:induction false} ReserveBeyondEnd(z: Zone, m: nat, n: nat)
    requires m <= n && (m < n ==> z.end <= m)
    ensures ReserveFrames(z, n) == ReserveFrames(z, m)
  {
    if m < n {
      ReserveBeyondEnd(z, m, n - 1);
      ReserveKeepsRange(z, n - 1);
    }
  }

  lemma {:induction false} ReserveKeepsRange(z: Zone, n: nat)
    ensures ReserveFrames(z, n).base == z.base && ReserveFrames(z, n).end == z.end
  {
    if n > 0 { ReserveKeepsRange(z, n - 1); }
  }

  /** Kernel frames inside zone NORMAL are all free before they are reserved. */
  lemma KernelFramesAreFree(z: Zone, entries: seq<Entry>, f: nat)
    requires SaneMap(entries) && Marked(z, entries, |entries|, ZONE_NORMAL)
    requires f < KERNEL_FRAMES && InZone(z, f)
    ensures FreeIn(z, f)
  {
    RangesAreTight(entries, ZONE_NORMAL);
    var i :| 0 <= i < |entries| && OfZone(entries[i], ZONE_NORMAL) && Lo(entries[i]) == z.base;
    assert Lo(entries[i]) <= f < Hi(entries[i]);
  }

  /** Frame `f` is available by entry `e` and not taken by the reservation loop. */
  predicate Grants(e: Entry, f: nat) {
    Covers(e, f) && !(f < KERNEL_FRAMES && ZoneIndex(e) == ZONE_NORMAL)
  }

  ghost predicate Available(entries: seq<Entry>, f: nat) {
    exists i :: 0 <= i < |entries| && Grants(entries[i], f)
  }

  lemma InitZoneIsExact(entries: seq<Entry>, k: nat)
    requires SaneMap(entries) && k < ZONE_COUNT
    ensures ZoneOk(InitZones(entries)[k])
    ensures InitZones(entries)[k].base == Ranges(entries)[k].base
    ensures InitZones(entries)[k].end == Ranges(entries)[k].end
    ensures forall f: nat :: FreeIn(InitZones(entries)[k], f) <==>
      exists i :: 0 <= i < |entries| && ZoneIndex(entries[i]) == k && Grants(entries[i], f)
  {
    var z := MarkAll(WithBitmaps(Ranges(entries)), entries)[k];
    assert entries[..|entries|] == entries;
    MarkAllIsExact(entries, |entries|, k);
    if k == ZONE_NORMAL {
      forall f: nat | f < KERNEL_FRAMES && InZone(z, f) ensures FreeIn(z, f) {
        KernelFramesAreFree(z, entries, f);
      }
      ReserveFramesTakes(z, KERNEL_FRAMES);
    }
    forall f: nat
      ensures FreeIn(z, f) <==> exists i :: 0 <= i < |entries| && ZoneIndex(entries[i]) == k && Covers(entries[i], f)
    {
      MarkedCovers(z, entries, k, f);
    }
  }

  lemma MarkedCovers(z: Zone, entries: seq<Entry>, k: nat, f: nat)
    requires SaneMap(entries) && k < ZONE_COUNT && Marked(z, entries, |entries|, k)
    ensures FreeIn(z, f) <==> exists i :: 0 <= i < |entries| && ZoneIndex(entries[i]) == k && Covers(entries[i], f)
  {
    forall i | 0 <= i < |entries|
      ensures ZoneIndex(entries[i]) == k && Covers(entries[i], f) <==>
        OfZone(entries[i], k) && Lo(entries[i]) <= f < Hi(entries[i])
    {
      assert entries[i] in entries;
      CoversByFrames(entries[i], f);
    }
    RangesAreTight(entries, k);
  }

  /**
   * pmm_init is exact: counters equal clear bits, zones do not overlap, and a frame is free
   * exactly when the memory map makes it available and the reservation does not take it.
   */
  lemma InitIsExact(entries: seq<Entry>)
    requires SaneMap(entries)
    ensures Ok(InitZones(entries))
    ensures forall f: nat :: IsFree(InitZones(entries), f) <==> Available(entries, f)
    ensures forall k, h :: 0 <= k < h < ZONE_COUNT && Ranges(entries)[k].total > 0 && Ranges(entries)[h].total > 0 ==>
      InitZones(entries)[k].end <= InitZones(entries)[h].base
  {
    var zs := InitZones(entries);
    forall k | 0 <= k < ZONE_COUNT
      ensures ZoneOk(zs[k]) && zs[k].base == Ranges(entries)[k].base && zs[k].end == Ranges(entries)[k].end
      ensures Ranges(entries)[k].total == 0 ==> Ranges(entries)[k] == EmptyZone
    {
      InitZoneIsExact(entries, k);
      RangesAreTight(entries, k);
    }
    forall k, h | 0 <= k < h < ZONE_COUNT && Ranges(entries)[k].total > 0 && Ranges(entries)[h].total > 0
      ensures zs[k].end <= zs[h].base
    {
      RangesAreOrdered(entries, k, h);
    }
    forall f: nat ensures IsFree(zs, f) <==> Available(entries, f) {
      InitFreeFrame(entries, f);
    }
  }

  lemma InitFreeFrame(entries: seq<Entry>, f: nat)
    requires SaneMap(entries)
    ensures IsFree(InitZones(entries), f) <==> Available(entries, f)
  {
    var zs := InitZones(entries);
    if IsFree(zs, f) {
      var k :| 0 <= k < ZONE_COUNT && FreeIn(zs[k], f);
      InitZoneIsExact(entries, k);
    }
    if Available(entries, f) {
      var i :| 0 <= i < |entries| && Grants(entries[i], f);
      InitZoneIsExact(entries, ZoneIndex(entries[i]));
      assert FreeIn(zs[ZoneIndex(entries[i])], f);
    }
  }

  /**
   * "Reserve first 16MB": no frame below 16 MB is free after pmm_init exactly when every available
   * entry that begins below 16 MB ends above 4 GB, so that its frames belong to zone NORMAL.
   */
  lemma KernelIsReserved(entries: seq<Entry>)
    requires SaneMap(entries)
    ensures (forall f: nat :: f < KERNEL_FRAMES ==> !IsFree(InitZones(entries), f)) <==>
      (forall e :: e in entries && Usable(e) && Lo(e) < KERNEL_FRAMES ==> ZoneIndex(e) == ZONE_NORMAL)
  {
    forall e | e in entries && Usable(e) && Lo(e) < KERNEL_FRAMES && ZoneIndex(e) != ZONE_NORMAL
      ensures IsFree(InitZones(entries), Lo(e))
    {
      CoversByFrames(e, Lo(e));
      var i :| 0 <= i < |entries| && entries[i] == e;
      assert Grants(entries[i], Lo(e));
      InitFreeFrame(entries, Lo(e));
    }
    forall f: nat | f < KERNEL_FRAMES && IsFree(InitZones(entries), f)
      ensures exists e :: e in entries && Usable(e) && Lo(e) < KERNEL_FRAMES && ZoneIndex(e) != ZONE_NORMAL
    {
      InitFreeFrame(entries, f);
      var i :| 0 <= i < |entries| && Grants(entries[i], f);
      assert entries[i] in entries;
      CoversByFrames(entries[i], f);
    }
  }

  /** So 15 MB of memory from 1 MB on are handed out from the kernel's own first frame. */
  lemma KernelFrameIsFree()
    ensures IsFree(InitZones([Entry(0x10_0000, 0xF0_0000, AVAILABLE)]), 0x100)
  {
    var entries := [Entry(0x10_0000, 0xF0_0000, AVAILABLE)];
    assert SaneMap(entries);
    assert Grants(entries[0], 0x100);
    InitFreeFrame(entries, 0x100);
  }

  // ---- by address ----

  /** The zone of an entry, by the address of its last whole page: up to 16 MB, up to 4 GB, or above. */
  function ZoneByAddress(e: Entry): nat {
    var end := (e.baseAddr + e.length) / 4096 * 4096;
    if end <= 0x100_0000 then 0 else if end <= 0x1_0000_0000 then 1 else 2
  }

  /**
   * After pmm_init a page of zone `k` is free exactly when it lies at or above 1 MB, wholly inside an available
   * entry of that zone, and not below 16 MB if the zone is the third.
   */
  lemma FreeByAddress(entries: seq<Entry>, k: nat, f: nat)
    requires SaneMap(entries) && k < 3
    ensures FreeIn(InitZones(entries)[k], f) <==>
      && 0x10_0000 <= f * 4096 && !(k == 2 && f * 4096 < 0x100_0000)
      && exists e :: e in entries && e.kind == 1 && ZoneByAddress(e) == k
           && e.baseAddr <= f * 4096 && (f + 1) * 4096 <= e.baseAddr + e.length
  {
    InitZoneIsExact(entries, k);
    forall e | e in entries ensures ZoneByAddress(e) == ZoneIndex(e) {}
    if FreeIn(InitZones(entries)[k], f) {
      var i :| 0 <= i < |entries| && ZoneIndex(entries[i]) == k && Grants(entries[i], f);
      assert entries[i] in entries;
    }
    if e :| e in entries && e.kind == 1 && ZoneByAddress(e) == k && e.baseAddr <= f * 4096 && (f + 1) * 4096 <= e.baseAddr + e.length {
      var i :| 0 <= i < |entries| && entries[i] == e;
      assert 0x10_0000 <= f * 4096 && !(k == 2 && f * 4096 < 0x100_0000) ==> Grants(entries[i], f);
    }
  }

  /** Whole pages of the entries of a zone, above 1 MB. */
  function PagesOf(entries: seq<Entry>, k: nat): nat {
    if entries == [] then 0
    else
      var e := entries[|entries| - 1];
      PagesOf(entries[..|entries| - 1], k) + if OfZone(e, k) then Hi(e) - Lo(e) else 0
  }

  lemma {:induction false} RangesTotal(entries: seq<Entry>, k: nat)
    requires k < 3
    ensures Ranges(entries)[k].total == PagesOf(entries, k)
  {
    if entries != [] { RangesTotal(entries[..|entries| - 1], k); }
  }

  lemma {:induction false} MarkFramesCounts(z: Zone, lo: nat, hi: nat)
    requires |z.used| == Span(z.base, z.end) && (lo < hi ==> z.total > 0 && z.base <= lo && hi <= z.end)
    ensures var z' := MarkFrames(z, lo, hi);
      && |z'.used| == |z.used| && z'.base == z.base && z'.end == z.end && z'.total == z.total
      && z'.free == z.free + if lo < hi then hi - lo else 0
  {
    if lo < hi { MarkFramesCounts(z, lo, hi - 1); }
  }

  lemma {:induction false} MarkAllCounts(entries: seq<Entry>, n: nat, k: nat)
    requires SaneMap(entries) && n <= |entries| && k < 3
    ensures var z, r := MarkAll(WithBitmaps(Ranges(entries)), entries[..n])[k], Ranges(entries)[k];
      && |z.used| == Span(z.base, z.end) && z.base == r.base && z.end == r.end && z.total == r.total
      && z.free == PagesOf(entries[..n], k)
  {
    RangesAreTight(entries, k);
    if n > 0 {
      MarkAllCounts(entries, n - 1, k);
      assert entries[..n][..n - 1] == entries[..n - 1];
      var zs := MarkAll(WithBitmaps(Ranges(entries)), entries[..n - 1]);
      MarkAt(zs, entries[n - 1], k);
      if OfZone(entries[n - 1], k) { MarkFramesCounts(zs[k], Lo(entries[n - 1]), Hi(entries[n - 1])); }
    }
  }

  /** Frames of the zone below frame `n`. */
  function Below(z: Zone, n: nat): nat {
    if n <= z.base || z.end <= z.base then 0 else if n < z.end then n - z.base else z.end - z.base
  }

  lemma {:induction false} ReserveCounts(z: Zone, n: nat)
    requires ZoneOk(z) && forall f: nat :: f < n && InZone(z, f) ==> FreeIn(z, f)
    ensures ReserveFrames(z, n).free + Below(z, n) == z.free && ReserveFrames(z, n).total == z.total
  {
    if n > 0 {
      ReserveFramesTakes(z, n - 1);
      ReserveCounts(z, n - 1);
      var z1 := ReserveFrames(z, n - 1);
      if InZone(z, n - 1) {
        assert FreeIn(z1, n - 1);
        CountClearBounds(z1.used);
      }
    }
  }

  /**
   * The counters of a zone: the total is the whole pages of its entries, and what is free is the total, less, in
   * the third zone, its pages below 16 MB.
   */
  lemma TotalsAreExact(entries: seq<Entry>, k: nat)
    requires SaneMap(entries) && k < 3
    ensures var z := InitZones(entries)[k];
      && z.total == PagesOf(entries, k)
      && z.free == z.total - if k == 2 then Below(z, 0x1000) else 0
  {
    assert entries[..|entries|] == entries;
    RangesTotal(entries, k);
    MarkAllCounts(entries, |entries|, k);
    if k == 2 {
      var z := MarkAll(WithBitmaps(Ranges(entries)), entries)[2];
      MarkAllIsExact(entries, |entries|, 2);
      forall f: nat | f < KERNEL_FRAMES && InZone(z, f) ensures FreeIn(z, f) { KernelFramesAreFree(z, entries, f); }
      ReserveCounts(z, KERNEL_FRAMES);
      ReserveKeepsRange(z, KERNEL_FRAMES);
    }
  }

  /**
   * Nothing is lost: from pmm_init on, over any run of requests, the pages of the memory map that are not free are
   * those of the blocks handed out and those reserved below 16 MB.
   */
  lemma UsedIsAccounted(entries: seq<Entry>, reqs: seq<Request>)
    requires SaneMap(entries)
    ensures var (zs, blocks) := ServeAll(InitZones(entries), reqs);
      FreeCount(zs) + TotalSize(blocks) + Below(InitZones(entries)[2], 0x1000) ==
        PagesOf(entries, 0) + PagesOf(entries, 1) + PagesOf(entries, 2)
  {
    InitIsExact(entries);
    BlocksAreDisjoint(InitZones(entries), reqs);
    TotalsAreExact(entries, 0);
    TotalsAreExact(entries, 1);
    TotalsAreExact(entries, 2);
  }
}
