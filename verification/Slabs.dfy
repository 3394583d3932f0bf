/**
 The slab search of byteslabs2 on values: what one call of allocate_slab, with its chunk
 locked, does to the chunk and to the allocator that calls it.
*/
module Slabs {
  import opened Bytes

  /** Sizes fixed by Make. */
  datatype Config = Config(slabSize: nat, slabCount: nat)

  predicate ValidConfig(cfg: Config) {
    cfg.slabSize > 0
  }

  datatype Stats = Stats(full: nat, fullSmall: nat, tail: nat, oom: nat, routed: nat, routedAlloc: nat)

  const NO_STATS := Stats(0, 0, 0, 0, 0, 0)

  /** A chunk: which slabs are taken, how many the counter says, and its statistics. */
  datatype Chunk = Chunk(used: seq<bool>, usedCount: int, stats: Stats)

  /** The slabs an allocator has taken in its chunk and the free bytes at the end of each. */
  datatype Holder = Holder(slabs: seq<nat>, free: seq<nat>)

  const EMPTY_HOLDER := Holder([], [])

  /** The bytes [start, start + size) of a chunk's memory. */
  datatype Region = Region(start: nat, size: nat)

  // ----- sizes

  /** The first byte of slab i, which is also the size of i slabs. */
  function SlabStart(slabSize: nat, i: nat): nat {
    if i == 0 then 0 else slabSize + SlabStart(slabSize, i - 1)
  }

  lemma {:induction false} SlabStartIsProduct(slabSize: nat, i: nat)
    ensures SlabStart(slabSize, i) == i * slabSize
  {
    if i > 0 { SlabStartIsProduct(slabSize, i - 1); }
  }

  lemma {:induction false} SlabStartSum(slabSize: nat, i: nat, n: nat)
    ensures SlabStart(slabSize, i + n) == SlabStart(slabSize, i) + SlabStart(slabSize, n)
  {
    if n > 0 { SlabStartSum(slabSize, i, n - 1); }
  }

  /** What stays free in the last slab of an allocation. */
  function SlabFree(slabSize: nat, size: nat): nat
    requires slabSize > 0
  {
    (slabSize - size % slabSize) % slabSize
  }

  function SlabsNeeded(slabSize: nat, size: nat): nat
    requires slabSize > 0
  {
    size / slabSize + if SlabFree(slabSize, size) > 0 then 1 else 0
  }

  /** The slabs of an allocation hold exactly it and what stays free. */
  lemma SlabsFit(slabSize: nat, size: nat)
    requires slabSize > 0
    ensures SlabFree(slabSize, size) < slabSize
    ensures SlabStart(slabSize, SlabsNeeded(slabSize, size)) == size + SlabFree(slabSize, size)
    ensures size > 0 ==> SlabsNeeded(slabSize, size) > 0
  {
    var q, r := size / slabSize, size % slabSize;
    SlabStartIsProduct(slabSize, q);
    assert size == q * slabSize + r;
    if r == 0 {
      ModUnique(slabSize, slabSize, 1, 0);
      if q == 0 { assert q * slabSize == 0; }
    } else {
      ModUnique(slabSize - r, slabSize, 0, slabSize - r);
    }
  }

  // ----- searches

  /** The index of the smallest tail that is big enough, the first of several; -1 if there is none. */
  function BestTail(free: seq<nat>, size: nat): (k: int)
    ensures -1 <= k < |free|
    ensures k >= 0 ==> free[k] >= size
    ensures k >= 0 ==> forall j :: 0 <= j < |free| && free[j] >= size ==> free[k] <= free[j]
    ensures k >= 0 ==> forall j :: 0 <= j < k && free[j] >= size ==> free[k] < free[j]
    ensures k == -1 ==> forall j :: 0 <= j < |free| ==> free[j] < size
  {
    if free == [] then -1
    else
      var n := |free| - 1;
      var k := BestTail(free[..n], size);
      if free[n] >= size && (k == -1 || free[n] < free[k]) then n else k
  }

  /** The last free slab, or -1. */
  function LastFree(used: seq<bool>): (k: int)
    ensures -1 <= k < |used|
    ensures k >= 0 ==> !used[k]
    ensures forall j :: k < j < |used| ==> used[j]
  {
    if used == [] then -1
    else if !used[|used| - 1] then |used| - 1
    else LastFree(used[..|used| - 1])
  }

  predicate FreeRun(used: seq<bool>, at: nat, n: nat) {
    at + n <= |used| && forall j :: at <= j < at + n ==> !used[j]
  }

  /** The lowest start, from `from` on, of n free slabs in a row. */
  function FirstRun(used: seq<bool>, n: nat, from: nat): (r: Option<nat>)
    ensures r.Some? ==> from <= r.value && FreeRun(used, r.value, n)
    ensures r.Some? ==> forall s :: from <= s < r.value ==> !FreeRun(used, s, n)
    ensures r.None? ==> forall s :: from <= s ==> !FreeRun(used, s, n)
    decreases |used| - from
  {
    if from + n > |used| then None
    else if FreeRun(used, from, n) then Some(from)
    else FirstRun(used, n, from + 1)
  }

  function CountUsed(used: seq<bool>): (n: nat)
    ensures n <= |used|
  {
    if used == [] then 0 else CountUsed(used[..|used| - 1]) + if used[|used| - 1] then 1 else 0
  }

  // ----- allocate_slab

  function Take(used: seq<bool>, at: nat, n: nat): (r: seq<bool>)
    requires at + n <= |used|
    ensures |r| == |used|
    ensures forall j :: 0 <= j < |used| ==> r[j] == (used[j] || at <= j < at + n)
  {
    seq(|used|, j requires 0 <= j < |used| => used[j] || at <= j < at + n)
  }

  /** n slabs from `at` on are added; only the last keeps free space. */
  function TakeRun(h: Holder, at: nat, n: nat, slabFree: nat): Holder
    decreases n
  {
    if n == 0 then h
    else TakeRun(Holder(h.slabs + [at], h.free + [if n == 1 then slabFree else 0]), at + 1, n - 1, slabFree)
  }

  datatype Outcome = Outcome(chunk: Chunk, holder: Holder, region: Option<Region>)

  function Oom(c: Chunk, h: Holder): Outcome {
    Outcome(c.(stats := c.stats.(oom := c.stats.oom + 1)), h, None)
  }

  /** Statistics that every placement of an additional allocator also counts. */
  function RoutedAlloc(s: Stats, additional: bool): Stats {
    if additional then s.(routedAlloc := s.routedAlloc + 1) else s
  }

  function UseTail(cfg: Config, c: Chunk, h: Holder, additional: bool, size: nat, k: nat): Outcome
    requires k < |h.slabs| == |h.free| && h.free[k] >= size && h.free[k] <= cfg.slabSize
  {
    var start := SlabStart(cfg.slabSize, h.slabs[k]) + (cfg.slabSize - h.free[k]);
    Outcome(c.(stats := RoutedAlloc(c.stats.(tail := c.stats.tail + 1), additional)),
            h.(free := h.free[k := h.free[k] - size]), Some(Region(start, size)))
  }

  function UseRun(cfg: Config, c: Chunk, h: Holder, stats: Stats, size: nat, at: nat): Outcome
    requires ValidConfig(cfg) && at + SlabsNeeded(cfg.slabSize, size) <= |c.used|
  {
    var n := SlabsNeeded(cfg.slabSize, size);
    Outcome(Chunk(Take(c.used, at, n), c.usedCount + n, stats),
            TakeRun(h, at, n, SlabFree(cfg.slabSize, size)),
            Some(Region(SlabStart(cfg.slabSize, at), size)))
  }

  predicate HolderFits(cfg: Config, h: Holder) {
    |h.slabs| == |h.free| && forall k :: 0 <= k < |h.free| ==> h.free[k] < cfg.slabSize
  }

  /** One call of allocate_slab. */
  function AllocateSlab(cfg: Config, c: Chunk, h: Holder, additional: bool, size: nat): Outcome
    requires ValidConfig(cfg) && HolderFits(cfg, h)
  {
    var n := SlabsNeeded(cfg.slabSize, size);
    if n > cfg.slabCount - c.usedCount then Oom(c, h)
    else if n <= 1 && BestTail(h.free, size) >= 0 then UseTail(cfg, c, h, additional, size, BestTail(h.free, size))
    else if n <= 1 && LastFree(c.used) >= 0 then
      UseRun(cfg, c, h, RoutedAlloc(c.stats.(fullSmall := c.stats.fullSmall + 1), additional), size, LastFree(c.used))
    else if n > 1 && FirstRun(c.used, n, 0).Some? then
      UseRun(cfg, c, h, RoutedAlloc(c.stats.(full := c.stats.full + 1), additional), size, FirstRun(c.used, n, 0).value)
    else Oom(c, h)
  }

  // ----- what the search promises

  lemma {:induction false} CountUsedFull(used: seq<bool>)
    ensures CountUsed(used) == |used| <==> forall j :: 0 <= j < |used| ==> used[j]
  {
    if used != [] { CountUsedFull(used[..|used| - 1]); }
  }

  /**
   With an accurate counter a request fails exactly when more slabs are needed than are
   free, or when it needs several and no run of free slabs is that long.
  */
  lemma AllocateSlabFails(cfg: Config, c: Chunk, h: Holder, additional: bool, size: nat)
    requires ValidConfig(cfg) && HolderFits(cfg, h) && size > 0
    requires |c.used| == cfg.slabCount && c.usedCount == CountUsed(c.used)
    ensures var n := SlabsNeeded(cfg.slabSize, size);
            AllocateSlab(cfg, c, h, additional, size).region.None? <==>
            || n > cfg.slabCount - CountUsed(c.used)
            || (n > 1 && forall at :: !FreeRun(c.used, at, n))
  {
    SlabsFit(cfg.slabSize, size);
    CountUsedFull(c.used);
    var n := SlabsNeeded(cfg.slabSize, size);
    var run := FirstRun(c.used, n, 0);
    assert run.Some? ==> FreeRun(c.used, run.value, n);
  }

  /** Tail k is big enough, and no smaller one is. */
  predicate SmallestTail(free: seq<nat>, size: nat, k: nat) {
    k < |free| && free[k] >= size && forall j :: 0 <= j < |free| && free[j] >= size ==> free[k] <= free[j]
  }

  ghost predicate InSmallestTail(slabSize: nat, h: Holder, size: nat, start: nat)
    requires |h.slabs| == |h.free|
  {
    exists k: nat :: SmallestTail(h.free, size, k) && start == SlabStart(slabSize, h.slabs[k]) + slabSize - h.free[k]
  }

  predicate LastFreeSlab(used: seq<bool>, at: nat) {
    at < |used| && !used[at] && forall j :: at < j < |used| ==> used[j]
  }

  predicate LowestRun(used: seq<bool>, n: nat, at: nat) {
    FreeRun(used, at, n) && forall s :: 0 <= s < at ==> !FreeRun(used, s, n)
  }

  /**
   Where a request goes: at most one slab, into the smallest tail that is big enough, or
   else the last free slab; several slabs, the lowest run of free ones.
  */
  lemma AllocateSlabPlacement(cfg: Config, c: Chunk, h: Holder, additional: bool, size: nat)
    requires ValidConfig(cfg) && HolderFits(cfg, h)
    requires AllocateSlab(cfg, c, h, additional, size).region.Some?
    ensures var n, r := SlabsNeeded(cfg.slabSize, size), AllocateSlab(cfg, c, h, additional, size).region.value;
            && r.size == size
            && (n <= 1 && (exists k: nat :: SmallestTail(h.free, size, k)) ==> InSmallestTail(cfg.slabSize, h, size, r.start))
            && (n <= 1 && !(exists k: nat :: SmallestTail(h.free, size, k)) ==>
                  exists at :: LastFreeSlab(c.used, at) && r.start == SlabStart(cfg.slabSize, at))
            && (n > 1 ==> exists at :: LowestRun(c.used, n, at) && r.start == SlabStart(cfg.slabSize, at))
  {
    hide SlabStart, SlabsNeeded, SlabFree, FreeRun, CountUsed, Take, TakeRun;
    var n, k := SlabsNeeded(cfg.slabSize, size), BestTail(h.free, size);
    if n <= 1 && k >= 0 {
      assert SmallestTail(h.free, size, k);
    } else if n <= 1 {
      assert LastFreeSlab(c.used, LastFree(c.used));
    } else {
      assert LowestRun(c.used, n, FirstRun(c.used, n, 0).value);
    }
  }

  /** The slabs needed are the least number of slabs that hold the size. */
  lemma SlabsNeededLeast(slabSize: nat, size: nat, n: nat)
    requires slabSize > 0 && n > 0 && (n - 1) * slabSize < size <= n * slabSize
    ensures SlabsNeeded(slabSize, size) == n
  {
    SlabsFit(slabSize, size);
    var k, free := SlabsNeeded(slabSize, size), SlabFree(slabSize, size);
    SlabStartIsProduct(slabSize, k);
    assert k * slabSize == size + free;
    MulAtLeast(slabSize, k - n);
    MulAtLeast(slabSize, n - k);
    assert (k - n) * slabSize == k * slabSize - n * slabSize;
    assert (n - 1) * slabSize == n * slabSize - slabSize;
  }

  /**
   Which statistic that is: a placement that takes no new slab counts as tail, one of a single
   new slab as full_small and one of several as full.
  */
  lemma AllocateSlabCountsAs(cfg: Config, c: Chunk, h: Holder, additional: bool, size: nat)
    requires ValidConfig(cfg) && HolderFits(cfg, h) && size > 0
    ensures var o := AllocateSlab(cfg, c, h, additional, size);
            var s, t, grown := c.stats, o.chunk.stats, o.chunk.usedCount - c.usedCount;
            if o.region.None? then t == s.(oom := s.oom + 1) && grown == 0
            else
              && grown >= 0
              && t.tail == s.tail + (if grown == 0 then 1 else 0)
              && t.fullSmall == s.fullSmall + (if grown == 1 then 1 else 0)
              && t.full == s.full + (if grown > 1 then 1 else 0)
              && t.oom == s.oom && t.routed == s.routed
  {
    SlabsFit(cfg.slabSize, size);
  }

  /** Every call counts in exactly one statistic, and for oom exactly when it fails. */
  lemma AllocateSlabCounts(cfg: Config, c: Chunk, h: Holder, additional: bool, size: nat)
    requires ValidConfig(cfg) && HolderFits(cfg, h)
    ensures var o := AllocateSlab(cfg, c, h, additional, size);
            var s, t := c.stats, o.chunk.stats;
            && t.full + t.fullSmall + t.tail + t.oom == s.full + s.fullSmall + s.tail + s.oom + 1
            && (o.region.None? <==> t.oom == s.oom + 1) && t.oom <= s.oom + 1
            && t.routed == s.routed
            && t.routedAlloc == s.routedAlloc + (if additional && o.region.Some? then 1 else 0)
  {
  }
}
