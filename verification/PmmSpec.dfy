/** The physical page allocator of memory.c on values: zones, first fit, free frames. */
module PmmSpec {
  import opened Bits

  const ZONE_DMA := 0
  const ZONE_DMA32 := 1
  const ZONE_NORMAL := 2
  const ZONE_COUNT := 3
  const HUGE_FRAMES := 512

  /** `used[i]` is the bitmap bit of page frame `base + i`. */
  datatype Zone = Zone(base: nat, end: nat, total: nat, free: nat, used: seq<bool>)

  /** A zone that no entry of the memory map has extended. */
  const EmptyZone := Zone(TWO64 - 1, 0, 0, 0, [])

  type Zones = s: seq<Zone> | |s| == ZONE_COUNT
    witness [Zone(0, 0, 0, 0, []), Zone(0, 0, 0, 0, []), Zone(0, 0, 0, 0, [])]

  function Span(base: nat, end: nat): nat {
    if base <= end then end - base else 0
  }

  function CountClear(used: seq<bool>): nat {
    if used == [] then 0 else CountClear(used[..|used| - 1]) + if used[|used| - 1] then 0 else 1
  }

  /** The bitmap covers the zone and the cached counter is its number of clear bits. */
  ghost predicate ZoneOk(z: Zone) {
    && |z.used| == Span(z.base, z.end)
    && z.free == CountClear(z.used)
  }

  predicate InZone(z: Zone, f: nat) {
    z.base <= f < z.end
  }

  ghost predicate Disjoint(zs: Zones) {
    forall i, j, f: nat :: 0 <= i < j < ZONE_COUNT && InZone(zs[i], f) ==> !InZone(zs[j], f)
  }

  ghost predicate Ok(zs: Zones) {
    && (forall i :: 0 <= i < ZONE_COUNT ==> ZoneOk(zs[i]))
    && Disjoint(zs)
  }

  ghost predicate FreeIn(z: Zone, f: nat) {
    InZone(z, f) && f - z.base < |z.used| && !z.used[f - z.base]
  }

  /** Frame `f` is managed and its bitmap bit is clear. */
  ghost predicate IsFree(zs: Zones, f: nat) {
    exists i :: 0 <= i < ZONE_COUNT && FreeIn(zs[i], f)
  }

  predicate ClearRun(used: seq<bool>, start: nat, count: nat) {
    start + count <= |used| && forall j :: start <= j < start + count ==> !used[j]
  }

  /** The lowest `start >= from`, going up in strides of `step`, of a clear run of `count` bits. */
  function FirstRun(used: seq<bool>, count: nat, from: nat, step: nat): Option<nat>
    requires step > 0
    decreases |used| - from
  {
    if from + count > |used| then None
    else if ClearRun(used, from, count) then Some(from)
    else if from == |used| then None
    else FirstRun(used, count, from + step, step)
  }

  function SetRange(used: seq<bool>, start: nat, count: nat): (r: seq<bool>)
    ensures |r| == |used|
  {
    seq(|used|, j requires 0 <= j < |used| => used[j] || start <= j < start + count)
  }

  function Take(z: Zone, start: nat, count: nat): Zone
    requires count <= z.free
  {
    z.(used := SetRange(z.used, start, count), free := z.free - count)
  }

  /** One request served from zones `n - 1` down to 0. A zone whose counter is below `count` is skipped. */
  function AllocFrom(zs: Zones, n: nat, count: nat, step: nat): (Zones, Option<nat>)
    requires n <= ZONE_COUNT && step > 0
  {
    if n == 0 then (zs, None)
    else
      var z := zs[n - 1];
      if z.free < count then AllocFrom(zs, n - 1, count, step)
      else match FirstRun(z.used, count, 0, step)
        case None => AllocFrom(zs, n - 1, count, step)
        case Some(i) => (zs[n - 1 := Take(z, i, count)], Some(z.base + i))
  }

  /** pmm_alloc_page */
  function AllocPage(zs: Zones): (Zones, Option<nat>) {
    AllocFrom(zs, ZONE_COUNT, 1, 1)
  }

  /** pmm_alloc_pages: a count of zero is refused, a count of one is pmm_alloc_page. */
  function AllocPages(zs: Zones, count: nat): (Zones, Option<nat>) {
    if count == 0 then (zs, None) else AllocFrom(zs, ZONE_COUNT, count, 1)
  }

  /** pmm_alloc_huge_page: 512 frames, tried at strides of 512 from the zone's base. */
  function AllocHuge(zs: Zones): (Zones, Option<nat>) {
    AllocFrom(zs, ZONE_COUNT, HUGE_FRAMES, HUGE_FRAMES)
  }

  // ---- counting ----

  lemma {:induction false} CountClearBounds(used: seq<bool>)
    ensures CountClear(used) <= |used|
    ensures CountClear(used) == 0 <==> forall j :: 0 <= j < |used| ==> used[j]
  {
    if used != [] {
      var s := used[..|used| - 1];
      CountClearBounds(s);
      if forall j :: 0 <= j < |s| ==> s[j] {
        assert forall j :: 0 <= j < |s| ==> s[j] == used[j];
      } else {
        var j :| 0 <= j < |s| && !s[j];
        assert !used[j];
      }
    }
  }

  /** Setting a clear run lowers the count by exactly its length. */
  lemma {:induction false} CountClearTake(used: seq<bool>, start: nat, count: nat)
    requires ClearRun(used, start, count)
    ensures CountClear(used) == CountClear(SetRange(used, start, count)) + count
  {
    var n := |used|;
    if n == start + count {
      CountClearTakeLast(used, start, count);
    } else {
      CountClearTake(used[..n - 1], start, count);
      assert SetRange(used[..n - 1], start, count) == SetRange(used, start, count)[..n - 1];
    }
  }

  lemma {:induction false} CountClearTakeLast(used: seq<bool>, start: nat, count: nat)
    requires ClearRun(used, start, count) && |used| == start + count
    ensures CountClear(used) == CountClear(SetRange(used, start, count)) + count
  {
    if count == 0 {
      assert SetRange(used, start, count) == used;
    } else {
      var n := |used|;
      CountClearTakeLast(used[..n - 1], start, count - 1);
      assert SetRange(used[..n - 1], start, count - 1) == SetRange(used, start, count)[..n - 1];
    }
  }

  // ---- first fit ----

  /** `j` is one of `from`, `from + step`, `from + 2 * step`, ... */
  predicate OnGrid(from: nat, step: nat, j: nat)
    requires step > 0
    decreases j - from
  {
    from == j || (from < j && OnGrid(from + step, step, j))
  }

  lemma {:induction false} UnitGrid(from: nat, j: nat)
    ensures OnGrid(from, 1, j) <==> from <= j
    decreases j - from
  {
    if from < j { UnitGrid(from + 1, j); }
  }

  lemma {:induction false} HugeGrid(from: nat, j: nat)
    ensures OnGrid(from, HUGE_FRAMES, j) <==> from <= j && (j - from) % HUGE_FRAMES == 0
    decreases j - from
  {
    if from < j { HugeGrid(from + HUGE_FRAMES, j); }
  }

  /** FirstRun is the least clear run on its grid, and misses none. */
  lemma {:induction false} FirstRunIsLeast(used: seq<bool>, count: nat, from: nat, step: nat)
    requires step > 0
    ensures match FirstRun(used, count, from, step)
      case Some(i) => OnGrid(from, step, i) && ClearRun(used, i, count)
        && forall j: nat :: j < i && OnGrid(from, step, j) ==> !ClearRun(used, j, count)
      case None => forall j: nat :: j < |used| && OnGrid(from, step, j) ==> !ClearRun(used, j, count)
    decreases |used| - from
  {
    if from + count <= |used| && !ClearRun(used, from, count) && from < |used| {
      FirstRunIsLeast(used, count, from + step, step);
      match FirstRun(used, count, from + step, step)
      case None =>
      case Some(i) => GridAbove(from + step, step, i);
    } else {
      forall j: nat | OnGrid(from, step, j) ensures from <= j {}
    }
  }

  lemma GridAbove(from: nat, step: nat, j: nat)
    requires step > 0 && OnGrid(from, step, j)
    ensures from <= j
  {
  }

  // ---- one allocation ----

  ghost predicate RunAt(z: Zone, count: nat, step: nat, i: nat)
    requires step > 0
  {
    OnGrid(0, step, i) && ClearRun(z.used, i, count)
  }

  ghost predicate HasRun(z: Zone, count: nat, step: nat)
    requires step > 0
  {
    exists i: nat :: RunAt(z, count, step, i)
  }

  ghost predicate LeastRun(z: Zone, count: nat, step: nat, i: nat)
    requires step > 0
  {
    RunAt(z, count, step, i) && forall j: nat :: j < i ==> !RunAt(z, count, step, j)
  }

  /** `f` starts the lowest run of zone `k`, no later zone below `n` has a run, and only the run's bits change. */
  ghost predicate Granted(zs: Zones, n: nat, count: nat, step: nat, zs': Zones, f: nat, k: nat)
    requires n <= ZONE_COUNT && step > 0
  {
    && k < n
    && zs[k].base <= f
    && count <= zs[k].free
    && LeastRun(zs[k], count, step, f - zs[k].base)
    && (forall h :: k < h < n ==> !HasRun(zs[h], count, step))
    && zs' == zs[k := Take(zs[k], f - zs[k].base, count)]
  }

  lemma {:induction false} ClearRunIsCounted(used: seq<bool>, start: nat, count: nat)
    requires ClearRun(used, start, count)
    ensures count <= CountClear(used)
  {
    CountClearTake(used, start, count);
  }

  /**
   * First fit is complete in spite of the counter shortcut: a request fails only when no zone
   * holds a suitable run, and otherwise takes the lowest run of the first zone that has one.
   */
  lemma {:induction false} AllocFromIsFirstFit(zs: Zones, n: nat, count: nat, step: nat) returns (k: nat)
    requires n <= ZONE_COUNT && step > 0 && count > 0
    requires forall i :: 0 <= i < ZONE_COUNT ==> ZoneOk(zs[i])
    ensures match AllocFrom(zs, n, count, step)
      case (zs', None) => zs' == zs && forall i :: 0 <= i < n ==> !HasRun(zs[i], count, step)
      case (zs', Some(f)) => Granted(zs, n, count, step, zs', f, k)
  {
    k := 0;
    if n > 0 {
      var z := zs[n - 1];
      LeastRunOfZone(z, count, step);
      if count <= z.free && FirstRun(z.used, count, 0, step).Some? {
        k := n - 1;
      } else {
        k := AllocFromIsFirstFit(zs, n - 1, count, step);
      }
    }
  }

  lemma LeastRunOfZone(z: Zone, count: nat, step: nat)
    requires ZoneOk(z) && count > 0 && step > 0
    ensures match FirstRun(z.used, count, 0, step)
      case None => !HasRun(z, count, step)
      case Some(i) => LeastRun(z, count, step, i)
    ensures HasRun(z, count, step) ==> count <= z.free
  {
    FirstRunIsLeast(z.used, count, 0, step);
    forall i: nat | RunAt(z, count, step, i) ensures count <= z.free {
      ClearRunIsCounted(z.used, i, count);
    }
  }

  lemma TakeKeepsZoneOk(z: Zone, start: nat, count: nat)
    requires ZoneOk(z) && ClearRun(z.used, start, count) && count <= z.free
    ensures ZoneOk(Take(z, start, count))
    ensures forall f: nat :: FreeIn(Take(z, start, count), f) <==>
      FreeIn(z, f) && !(z.base + start <= f < z.base + start + count)
  {
    CountClearTake(z.used, start, count);
  }

  /** A granted block was free, is no longer, and nothing else changes. */
  ghost predicate Handed(zs: Zones, count: nat, zs': Zones, f: nat) {
    && Ok(zs')
    && (forall g: nat :: f <= g < f + count ==> IsFree(zs, g))
    && (forall g: nat :: IsFree(zs', g) <==> IsFree(zs, g) && !(f <= g < f + count))
  }

  lemma AllocFromHands(zs: Zones, count: nat, step: nat)
    requires Ok(zs) && count > 0 && step > 0
    ensures match AllocFrom(zs, ZONE_COUNT, count, step)
      case (zs', None) => zs' == zs
      case (zs', Some(f)) => Handed(zs, count, zs', f)
  {
    var k := AllocFromIsFirstFit(zs, ZONE_COUNT, count, step);
    match AllocFrom(zs, ZONE_COUNT, count, step)
    case (_, None) =>
    case (zs', Some(f)) => GrantHands(zs, count, step, zs', f, k);
  }

  lemma GrantHands(zs: Zones, count: nat, step: nat, zs': Zones, f: nat, k: nat)
    requires Ok(zs) && count > 0 && step > 0
    requires Granted(zs, ZONE_COUNT, count, step, zs', f, k)
    ensures Handed(zs, count, zs', f)
  {
    TakeKeepsZoneOk(zs[k], f - zs[k].base, count);
    forall g: nat | f <= g < f + count ensures IsFree(zs, g) && InZone(zs[k], g) {
      assert FreeIn(zs[k], g);
    }
    forall g: nat ensures IsFree(zs', g) <==> IsFree(zs, g) && !(f <= g < f + count) {
      FreeFrameUpdate(zs, zs', k, f, count, g);
    }
    assert forall i :: 0 <= i < ZONE_COUNT ==> zs'[i].base == zs[i].base && zs'[i].end == zs[i].end;
  }

  lemma FreeFrameUpdate(zs: Zones, zs': Zones, k: nat, f: nat, count: nat, g: nat)
    requires Disjoint(zs) && k < ZONE_COUNT
    requires forall i :: 0 <= i < ZONE_COUNT && i != k ==> zs'[i] == zs[i]
    requires forall h: nat :: f <= h < f + count ==> InZone(zs[k], h)
    requires forall h: nat :: FreeIn(zs'[k], h) <==> FreeIn(zs[k], h) && !(f <= h < f + count)
    ensures IsFree(zs', g) <==> IsFree(zs, g) && !(f <= g < f + count)
  {
    var inChosen := InZone(zs[k], g);
    if IsFree(zs', g) {
      var i :| 0 <= i < ZONE_COUNT && FreeIn(zs'[i], g);
      assert FreeIn(zs[i], g);
    }
    if IsFree(zs, g) && !(f <= g < f + count) {
      var i :| 0 <= i < ZONE_COUNT && FreeIn(zs[i], g);
      assert FreeIn(zs'[i], g);
    }
  }

  /** pmm_alloc_page fails exactly when no frame is free; otherwise the frame is fresh. */
  lemma AllocPageIsFresh(zs: Zones)
    requires Ok(zs)
    ensures AllocPage(zs).1.None? <==> forall g: nat :: !IsFree(zs, g)
    ensures match AllocPage(zs)
      case (zs', None) => zs' == zs
      case (zs', Some(f)) => Handed(zs, 1, zs', f)
  {
    AllocFromHands(zs, 1, 1);
    var k := AllocFromIsFirstFit(zs, ZONE_COUNT, 1, 1);
    match AllocPage(zs)
    case (_, None) =>
      forall g: nat ensures !IsFree(zs, g) {
        if IsFree(zs, g) {
          var i :| 0 <= i < ZONE_COUNT && FreeIn(zs[i], g);
          UnitGrid(0, g - zs[i].base);
          assert RunAt(zs[i], 1, 1, g - zs[i].base);
        }
      }
    case (_, Some(f)) =>
      assert IsFree(zs, f);
  }

  function FreeCount(zs: Zones): nat {
    zs[0].free + zs[1].free + zs[2].free
  }

  /** The cached counters decide whether a page can be had. */
  lemma AllocPageCounts(zs: Zones)
    requires Ok(zs)
    ensures AllocPage(zs).1.None? <==> FreeCount(zs) == 0
    ensures AllocPage(zs).1.Some? ==> FreeCount(AllocPage(zs).0) == FreeCount(zs) - 1
  {
    var k := AllocFromIsFirstFit(zs, ZONE_COUNT, 1, 1);
    if AllocPage(zs).1.None? {
      forall i | 0 <= i < ZONE_COUNT ensures zs[i].free == 0 {
        CountClearBounds(zs[i].used);
        forall j | 0 <= j < |zs[i].used| ensures zs[i].used[j] {
          UnitGrid(0, j);
          assert !RunAt(zs[i], 1, 1, j);
        }
      }
    }
  }

  // ---- runs of requests ----

  datatype Request = OnePage | ManyPages(count: nat) | HugePage

  datatype Block = Block(start: nat, count: nat)

  function Serve(zs: Zones, req: Request): (Zones, Option<nat>) {
    match req
    case OnePage => AllocPage(zs)
    case ManyPages(count) => AllocPages(zs, count)
    case HugePage => AllocHuge(zs)
  }

  function Size(req: Request): nat {
    match req
    case OnePage => 1
    case ManyPages(count) => count
    case HugePage => 512
  }

  /** The distance between the starts that the request tries. */
  function Stride(req: Request): (step: nat)
    ensures step > 0
  {
    if req.HugePage? then HUGE_FRAMES else 1
  }

  /** The zones after a run of requests, and the blocks it handed out. */
  function ServeAll(zs: Zones, reqs: seq<Request>): (Zones, seq<Block>) {
    if reqs == [] then (zs, [])
    else
      var (mid, blocks) := ServeAll(zs, reqs[..|reqs| - 1]);
      var req := reqs[|reqs| - 1];
      match Serve(mid, req)
      case (zs', None) => (zs', blocks)
      case (zs', Some(f)) => (zs', blocks + [Block(f, Size(req))])
  }

  predicate Holds(b: Block, f: nat) {
    b.start <= f < b.start + b.count
  }

  function TotalSize(blocks: seq<Block>): nat {
    if blocks == [] then 0 else TotalSize(blocks[..|blocks| - 1]) + blocks[|blocks| - 1].count
  }

  lemma ServeHands(zs: Zones, req: Request)
    requires Ok(zs)
    ensures match Serve(zs, req)
      case (zs', None) => zs' == zs
      case (zs', Some(f)) => Handed(zs, Size(req), zs', f) && FreeCount(zs') + Size(req) == FreeCount(zs)
  {
    var step := Stride(req);
    if Size(req) > 0 {
      AllocFromHands(zs, Size(req), step);
      var k := AllocFromIsFirstFit(zs, ZONE_COUNT, Size(req), step);
    }
  }

  lemma StrideGrid(req: Request, j: nat)
    ensures OnGrid(0, Stride(req), j) <==> req.HugePage? ==> j % 512 == 0
  {
    if req.HugePage? { HugeGrid(0, j); } else { UnitGrid(0, j); }
  }

  /** `start` begins a clear run of the length and alignment that the request wants. */
  predicate Suits(z: Zone, req: Request, start: nat) {
    match req
    case OnePage => ClearRun(z.used, start, 1)
    case ManyPages(count) => ClearRun(z.used, start, count)
    case HugePage => start % 512 == 0 && ClearRun(z.used, start, 512)
  }

  lemma SuitsIsRun(z: Zone, req: Request, start: nat)
    ensures Suits(z, req, start) <==> RunAt(z, Size(req), Stride(req), start)
  {
    StrideGrid(req, start);
  }

  /**
   * Each allocator is a complete first fit: it fails exactly when the request is empty or no zone has a run
   * for it, and otherwise gives the lowest such run of the first zone, in the order NORMAL, DMA32, DMA, that has one.
   */
  lemma ServeIsFirstFit(zs: Zones, req: Request)
    requires Ok(zs)
    ensures Serve(zs, req).1.None? <==> req == ManyPages(0) || forall i, start: nat :: 0 <= i < 3 ==> !Suits(zs[i], req, start)
    ensures match Serve(zs, req).1
      case None => Serve(zs, req).0 == zs
      case Some(f) => exists k :: 0 <= k < 3 && FirstFit(zs, req, k, f) && TookRun(zs, Serve(zs, req).0, k, f, Size(req))
  {
    if Size(req) > 0 {
      var k := AllocFromIsFirstFit(zs, ZONE_COUNT, Size(req), Stride(req));
      forall i, start: nat | 0 <= i < 3 ensures Suits(zs[i], req, start) <==> RunAt(zs[i], Size(req), Stride(req), start) {
        SuitsIsRun(zs[i], req, start);
      }
      if Serve(zs, req).1.Some? {
        var f := Serve(zs, req).1.value;
        assert Suits(zs[k], req, f - zs[k].base);
        assert FirstFit(zs, req, k, f) && TookRun(zs, Serve(zs, req).0, k, f, Size(req));
      }
    }
  }

  ghost predicate FirstFit(zs: Zones, req: Request, k: nat, f: nat)
    requires k < 3
  {
    && zs[k].base <= f && Suits(zs[k], req, f - zs[k].base)
    && (forall start: nat :: start < f - zs[k].base ==> !Suits(zs[k], req, start))
    && (forall h, start: nat :: k < h < 3 ==> !Suits(zs[h], req, start))
  }

  /** Only zone `k` differs, by `count` bits from frame `f` on and the same number in its counter. */
  ghost predicate TookRun(zs: Zones, zs': Zones, k: nat, f: nat, count: nat)
    requires k < 3
  {
    && (forall h :: 0 <= h < 3 && h != k ==> zs'[h] == zs[h])
    && zs'[k] == zs[k].(used := zs'[k].used, free := zs'[k].free)
    && zs'[k].free + count == zs[k].free && |zs'[k].used| == |zs[k].used|
    && forall j :: 0 <= j < |zs[k].used| ==> zs'[k].used[j] == (zs[k].used[j] || f <= zs[k].base + j < f + count)
  }

  /**
   * Any mixture of the three allocators hands out pairwise disjoint blocks of frames that were
   * free at the start, and the counters account for every frame handed out.
   */
  lemma {:induction false} BlocksAreDisjoint(zs: Zones, reqs: seq<Request>)
    requires Ok(zs)
    ensures Accounted(zs, ServeAll(zs, reqs).0, ServeAll(zs, reqs).1)
  {
    if reqs != [] {
      var (mid, blocks) := ServeAll(zs, reqs[..|reqs| - 1]);
      BlocksAreDisjoint(zs, reqs[..|reqs| - 1]);
      ServeHands(mid, reqs[|reqs| - 1]);
      match Serve(mid, reqs[|reqs| - 1])
      case (_, None) =>
      case (zs', Some(start)) => OneMoreBlock(zs, mid, blocks, zs', Block(start, Size(reqs[|reqs| - 1])));
    }
  }

  /** `blocks` were free in `zs`, are not in `zs'`, do not overlap, and make up the difference of the counters. */
  ghost predicate Accounted(zs: Zones, zs': Zones, blocks: seq<Block>) {
    && Ok(zs')
    && FreeCount(zs') + TotalSize(blocks) == FreeCount(zs)
    && (forall i, f: nat :: 0 <= i < |blocks| && Holds(blocks[i], f) ==> IsFree(zs, f) && !IsFree(zs', f))
    && (forall i, j, f: nat :: 0 <= i < j < |blocks| && Holds(blocks[i], f) ==> !Holds(blocks[j], f))
    && (forall f: nat :: IsFree(zs', f) ==> IsFree(zs, f))
  }

  lemma OneMoreBlock(zs: Zones, mid: Zones, blocks: seq<Block>, zs': Zones, b: Block)
    requires Accounted(zs, mid, blocks)
    requires Handed(mid, b.count, zs', b.start) && FreeCount(zs') + b.count == FreeCount(mid)
    ensures Accounted(zs, zs', blocks + [b])
  {
    var all := blocks + [b];
    assert all[..|all| - 1] == blocks;
    assert forall f: nat :: Holds(b, f) ==> IsFree(mid, f) && !IsFree(zs', f);
    forall i, f: nat | 0 <= i < |all| && Holds(all[i], f) ensures IsFree(zs, f) && !IsFree(zs', f) {
      if i < |blocks| { assert Holds(blocks[i], f); }
    }
    forall i, j, f: nat | 0 <= i < j < |all| && Holds(all[i], f) ensures !Holds(all[j], f) {
      assert Holds(blocks[i], f);
    }
  }

  /** A huge block starts at a stride of 512 frames, so it is 2 MB aligned when its zone is. */
  lemma HugeBlockAligned(zs: Zones)
    requires Ok(zs) && AllocHuge(zs).1.Some?
    ensures exists k ::
      0 <= k < ZONE_COUNT && InZone(zs[k], AllocHuge(zs).1.value)
      && (AllocHuge(zs).1.value - zs[k].base) % HUGE_FRAMES == 0
    ensures (forall k :: 0 <= k < ZONE_COUNT ==> zs[k].base % HUGE_FRAMES == 0) ==>
      AllocHuge(zs).1.value % HUGE_FRAMES == 0
  {
    var f := AllocHuge(zs).1.value;
    var k := AllocFromIsFirstFit(zs, ZONE_COUNT, HUGE_FRAMES, HUGE_FRAMES);
    HugeGrid(0, f - zs[k].base);
    assert InZone(zs[k], f);
  }

  // ---- pmm_free_page, as it is written ----

  const PAGE_SIZE := 4096
  const KERNEL_HIGHER_HALF := 0xFFFF_8000_0000_0000

  /** PHYS_TO_VIRT of the frame's address: what the allocators return to their callers. */
  function PointerTo(f: nat): nat {
    (f * PAGE_SIZE + KERNEL_HIGHER_HALF) % TWO64
  }

  /** The zone loop of pmm_free_page from zone `i` on, for page number `pfn`. */
  function FreeFrom(zs: Zones, i: nat, pfn: nat): Zones
    requires i <= ZONE_COUNT
    decreases ZONE_COUNT - i
  {
    if i == ZONE_COUNT then zs
    else if InZone(zs[i], pfn) && pfn - zs[i].base < |zs[i].used| && !zs[i].used[pfn - zs[i].base] then
      zs[i := zs[i].(used := zs[i].used[pfn - zs[i].base := false], free := zs[i].free + 1)]
    else FreeFrom(zs, i + 1, pfn)
  }

  function FreePage(zs: Zones, addr: nat): Zones {
    if addr == 0 then zs else FreeFrom(zs, 0, addr / PAGE_SIZE)
  }

  /** Either no zone from `i` on has the frame free, or one of them only gains a count it does not deserve. */
  lemma {:induction false} FreeFromInflates(zs: Zones, i: nat, pfn: nat) returns (k: nat)
    requires i <= ZONE_COUNT
    ensures i <= k <= ZONE_COUNT
    ensures k == ZONE_COUNT ==> FreeFrom(zs, i, pfn) == zs && forall h :: i <= h < ZONE_COUNT ==> !FreeIn(zs[h], pfn)
    ensures k < ZONE_COUNT ==> FreeIn(zs[k], pfn) && FreeFrom(zs, i, pfn) == zs[k := zs[k].(free := zs[k].free + 1)]
    decreases ZONE_COUNT - i
  {
    k := i;
    if i < ZONE_COUNT {
      var z := zs[i];
      if FreeIn(z, pfn) {
        assert z.used[pfn - z.base := false] == z.used;
      } else {
        k := FreeFromInflates(zs, i + 1, pfn);
      }
    }
  }

  /**
   * pmm_free_page recycles nothing: no bitmap bit ever becomes clear. It leaves the allocator
   * consistent exactly when the page number it computes is not a free frame.
   */
  lemma FreePageRecyclesNothing(zs: Zones, addr: nat)
    requires Ok(zs)
    ensures forall i :: 0 <= i < ZONE_COUNT ==> FreePage(zs, addr)[i].used == zs[i].used
    ensures Ok(FreePage(zs, addr)) <==> addr == 0 || !IsFree(zs, addr / PAGE_SIZE)
    ensures Ok(FreePage(zs, addr)) ==> FreePage(zs, addr) == zs
  {
    if addr != 0 {
      var k := FreeFromInflates(zs, 0, addr / PAGE_SIZE);
      if k < ZONE_COUNT {
        assert IsFree(zs, addr / PAGE_SIZE);
        assert !ZoneOk(FreePage(zs, addr)[k]);
      } else {
        assert !IsFree(zs, addr / PAGE_SIZE);
      }
    }
  }

  /** Every zone lies in the part of physical memory that PHYS_TO_VIRT maps without wrapping. */
  predicate InDirectMap(zs: Zones) {
    forall i :: 0 <= i < ZONE_COUNT ==> zs[i].end <= (TWO64 - KERNEL_HIGHER_HALF) / PAGE_SIZE
  }

  /** A pointer from the allocator is not even recognised: its page number is beyond every zone. */
  lemma FreeOfAllocatedPageIsIgnored(zs: Zones, f: nat, i: nat)
    requires InDirectMap(zs) && i < ZONE_COUNT && InZone(zs[i], f)
    ensures PointerTo(f) == 0xFFFF_8000_0000_0000 + f * 4096
    ensures FreePage(zs, PointerTo(f)) == zs
  {
    assert PointerTo(f) == f * PAGE_SIZE + KERNEL_HIGHER_HALF;
    var k := FreeFromInflates(zs, 0, PointerTo(f) / PAGE_SIZE);
  }
}
