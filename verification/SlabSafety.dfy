/**
 Who owns which slab. An arena is all chunks together with every part: an allocator's
 share of one chunk. The invariant is kept by each locked step, and under it no two live
 regions overlap.
*/
module SlabSafety {
  import opened Bytes
  import opened Slabs

  /** One allocator's slabs in one chunk and the regions it has handed out from them. */
  datatype Part = Part(chunk: nat, holder: Holder, live: seq<Region>)

  datatype Arena = Arena(chunks: seq<Chunk>, parts: seq<Part>)

  // ----- the invariant

  predicate Disjoint(r: Region, s: Region) {
    r.start + r.size <= s.start || s.start + s.size <= r.start
  }

  predicate In(r: Region, x: nat) {
    r.start <= x < r.start + r.size
  }

  /** Byte x lies in the taken part of slab number k of the holder. */
  predicate UsesAt(slabSize: nat, h: Holder, k: nat, x: nat)
    requires k < |h.slabs| == |h.free|
  {
    SlabStart(slabSize, h.slabs[k]) <= x && x + h.free[k] < SlabStart(slabSize, h.slabs[k]) + slabSize
  }

  ghost predicate Uses(slabSize: nat, h: Holder, x: nat)
    requires |h.slabs| == |h.free|
  {
    exists k: nat :: k < |h.slabs| && UsesAt(slabSize, h, k, x)
  }

  predicate HolderOk(cfg: Config, used: seq<bool>, h: Holder) {
    && HolderFits(cfg, h)
    && (forall k :: 0 <= k < |h.slabs| ==> h.slabs[k] < |used| && used[h.slabs[k]])
    && (forall j, k :: 0 <= j < k < |h.slabs| ==> h.slabs[j] != h.slabs[k])
  }

  ghost predicate LiveOk(cfg: Config, h: Holder, live: seq<Region>)
    requires |h.slabs| == |h.free|
  {
    && (forall i :: 0 <= i < |live| ==> live[i].size > 0)
    && (forall i, x: nat :: 0 <= i < |live| && In(live[i], x) ==> Uses(cfg.slabSize, h, x))
    && (forall i, j :: 0 <= i < j < |live| ==> Disjoint(live[i], live[j]))
  }

  ghost predicate PartOk(cfg: Config, chunks: seq<Chunk>, p: Part) {
    && p.chunk < |chunks|
    && HolderOk(cfg, chunks[p.chunk].used, p.holder)
    && LiveOk(cfg, p.holder, p.live)
  }

  predicate ChunkOk(cfg: Config, c: Chunk) {
    |c.used| == cfg.slabCount && c.usedCount == CountUsed(c.used)
  }

  /** Part p holds slab s of chunk c. */
  predicate Holds(a: Arena, p: nat, c: nat, s: nat) {
    p < |a.parts| && a.parts[p].chunk == c && s in a.parts[p].holder.slabs
  }

  ghost predicate Inv(cfg: Config, a: Arena) {
    && ValidConfig(cfg)
    && (forall c :: 0 <= c < |a.chunks| ==> ChunkOk(cfg, a.chunks[c]))
    && (forall p :: 0 <= p < |a.parts| ==> PartOk(cfg, a.chunks, a.parts[p]))
    // no slab is held twice
    && (forall p, q, c, s :: Holds(a, p, c, s) && Holds(a, q, c, s) ==> p == q)
    // every used slab is held
    && (forall c, s :: 0 <= c < |a.chunks| && 0 <= s < |a.chunks[c].used| && a.chunks[c].used[s] ==>
          exists p :: Holds(a, p, c, s))
  }

  // ----- the locked steps

  function AllocPart(cfg: Config, a: Arena, p: nat, additional: bool, size: nat): (Arena, Option<Region>)
    requires ValidConfig(cfg) && p < |a.parts| && a.parts[p].chunk < |a.chunks|
    requires HolderFits(cfg, a.parts[p].holder)
  {
    var part := a.parts[p];
    var o := AllocateSlab(cfg, a.chunks[part.chunk], part.holder, additional, size);
    var live := part.live + (match o.region case None => [] case Some(r) => [r]);
    (Arena(a.chunks[part.chunk := o.chunk], a.parts[p := Part(part.chunk, o.holder, live)]), o.region)
  }

  function Clear(used: seq<bool>, slabs: seq<nat>): (r: seq<bool>)
    requires forall k :: 0 <= k < |slabs| ==> slabs[k] < |used|
    ensures |r| == |used|
    ensures forall j :: 0 <= j < |used| ==> r[j] == (used[j] && j !in slabs)
  {
    seq(|used|, j requires 0 <= j < |used| => used[j] && j !in slabs)
  }

  function FreeChunk(c: Chunk, h: Holder): Chunk
    requires forall k :: 0 <= k < |h.slabs| ==> h.slabs[k] < |c.used|
  {
    c.(used := Clear(c.used, h.slabs), usedCount := c.usedCount - |h.slabs|)
  }

  function FreePart(a: Arena, p: nat): Arena
    requires p < |a.parts| && a.parts[p].chunk < |a.chunks|
    requires var part := a.parts[p];
             forall k :: 0 <= k < |part.holder.slabs| ==> part.holder.slabs[k] < |a.chunks[part.chunk].used|
  {
    var part := a.parts[p];
    Arena(a.chunks[part.chunk := FreeChunk(a.chunks[part.chunk], part.holder)],
          a.parts[p := Part(part.chunk, EMPTY_HOLDER, [])])
  }

  function AddPart(a: Arena, chunk: nat): Arena {
    a.(parts := a.parts + [Part(chunk, EMPTY_HOLDER, [])])
  }

  // ----- positions

  lemma {:induction false} SlabStartMonotone(slabSize: nat, i: nat, j: nat)
    requires i < j
    ensures SlabStart(slabSize, i) + slabSize <= SlabStart(slabSize, j)
  {
    if i + 1 < j { SlabStartMonotone(slabSize, i, j - 1); }
  }

  lemma OneSlab(slabSize: nat, i: nat, j: nat, x: nat)
    requires SlabStart(slabSize, i) <= x < SlabStart(slabSize, i) + slabSize
    requires SlabStart(slabSize, j) <= x < SlabStart(slabSize, j) + slabSize
    ensures i == j
  {
    if i < j { SlabStartMonotone(slabSize, i, j); }
    if j < i { SlabStartMonotone(slabSize, j, i); }
  }

  /** A byte of a run of slabs is in one of them, and in the last only before its free end. */
  lemma {:induction false} RunCovers(slabSize: nat, at: nat, n: nat, slabFree: nat, x: nat) returns (i: nat)
    requires SlabStart(slabSize, at) <= x && x + slabFree < SlabStart(slabSize, at + n)
    ensures i < n && SlabStart(slabSize, at + i) <= x < SlabStart(slabSize, at + i) + slabSize
    ensures i == n - 1 ==> x + slabFree < SlabStart(slabSize, at + i) + slabSize
    decreases n
  {
    if n == 0 {
      assert at + n == at;
      i := 0;
    } else if x < SlabStart(slabSize, at) + slabSize {
      i := 0;
    } else {
      i := RunCovers(slabSize, at + 1, n - 1, slabFree, x);
      i := i + 1;
    }
  }

  // ----- counting

  lemma {:induction false} CountUsedSet(used: seq<bool>, k: nat)
    requires k < |used| && !used[k]
    ensures CountUsed(used[k := true]) == CountUsed(used) + 1
  {
    var n := |used| - 1;
    if k < n {
      CountUsedSet(used[..n], k);
      assert used[k := true][..n] == used[..n][k := true];
    } else {
      assert used[k := true][..n] == used[..n];
    }
  }

  lemma {:induction false} CountUsedTake(used: seq<bool>, at: nat, n: nat)
    requires FreeRun(used, at, n)
    ensures CountUsed(Take(used, at, n)) == CountUsed(used) + n
  {
    if n == 0 {
      assert Take(used, at, 0) == used;
    } else {
      CountUsedTake(used, at, n - 1);
      CountUsedSet(Take(used, at, n - 1), at + n - 1);
      assert Take(used, at, n) == Take(used, at, n - 1)[at + n - 1 := true];
    }
  }

  lemma {:induction false} CountUsedClear(used: seq<bool>, slabs: seq<nat>)
    requires forall k :: 0 <= k < |slabs| ==> slabs[k] < |used| && used[slabs[k]]
    requires forall j, k :: 0 <= j < k < |slabs| ==> slabs[j] != slabs[k]
    ensures CountUsed(Clear(used, slabs)) == CountUsed(used) - |slabs|
  {
    if slabs == [] {
      assert Clear(used, []) == used;
    } else {
      var n := |slabs| - 1;
      var rest := Clear(used, slabs[..n]);
      CountUsedClear(used, slabs[..n]);
      var cleared := Clear(used, slabs);
      assert slabs[n] !in slabs[..n];
      assert forall j :: j in slabs <==> j in slabs[..n] || j == slabs[n];
      CountUsedSet(cleared, slabs[n]);
      assert cleared[slabs[n] := true] == rest;
    }
  }

  // ----- one allocation

  lemma {:induction false} TakeRunAt(h: Holder, at: nat, n: nat, slabFree: nat)
    requires |h.slabs| == |h.free|
    ensures var r := TakeRun(h, at, n, slabFree);
            && |r.slabs| == |r.free| == |h.slabs| + n
            && r.slabs[..|h.slabs|] == h.slabs && r.free[..|h.slabs|] == h.free
            && (forall k :: |h.slabs| <= k < |h.slabs| + n ==> r.slabs[k] == at + (k - |h.slabs|))
            && (forall k :: |h.slabs| <= k < |h.slabs| + n ==> r.free[k] == if k == |h.slabs| + n - 1 then slabFree else 0)
    decreases n
  {
    if n > 0 {
      var next := Holder(h.slabs + [at], h.free + [if n == 1 then slabFree else 0]);
      TakeRunAt(next, at + 1, n - 1, slabFree);
      var r := TakeRun(h, at, n, slabFree);
      assert r.slabs[..|next.slabs|] == next.slabs && r.free[..|next.free|] == next.free;
      assert r.slabs[..|h.slabs|] == r.slabs[..|next.slabs|][..|h.slabs|];
      assert r.free[..|h.slabs|] == r.free[..|next.free|][..|h.slabs|];
      assert r.slabs[|h.slabs|] == next.slabs[|h.slabs|] && r.free[|h.slabs|] == next.free[|h.slabs|];
    }
  }

  /** What an allocation does to ownership: it only adds slabs, which were free before. */
  ghost predicate Grows(cfg: Config, c: Chunk, h: Holder, o: Outcome) {
    && |o.chunk.used| == |c.used| && ChunkOk(cfg, o.chunk) && HolderOk(cfg, o.chunk.used, o.holder)
    && |h.slabs| <= |o.holder.slabs| && o.holder.slabs[..|h.slabs|] == h.slabs
    && (forall k :: |h.slabs| <= k < |o.holder.slabs| ==> !c.used[o.holder.slabs[k]])
    && (forall s :: 0 <= s < |c.used| ==> o.chunk.used[s] == (c.used[s] || s in o.holder.slabs))
  }

  /** What an allocation does to bytes: it uses the region's, which were not used before. */
  ghost predicate Serves(cfg: Config, c: Chunk, h: Holder, o: Outcome, size: nat)
    requires |h.slabs| == |h.free| && |o.holder.slabs| == |o.holder.free|
  {
    && (forall x: nat :: Uses(cfg.slabSize, h, x) ==> Uses(cfg.slabSize, o.holder, x))
    && (o.region.Some? ==>
          && o.region.value.size == size
          && forall x: nat :: In(o.region.value, x) ==>
               Uses(cfg.slabSize, o.holder, x) && !Uses(cfg.slabSize, h, x))
  }

  lemma UseTailGrows(cfg: Config, c: Chunk, h: Holder, additional: bool, size: nat, k: nat)
    requires ValidConfig(cfg) && ChunkOk(cfg, c) && HolderOk(cfg, c.used, h) && k < |h.free| && h.free[k] >= size
    ensures Grows(cfg, c, h, UseTail(cfg, c, h, additional, size, k))
    ensures Serves(cfg, c, h, UseTail(cfg, c, h, additional, size, k), size)
  {
    var o := UseTail(cfg, c, h, additional, size, k);
    var S := cfg.slabSize;
    forall x: nat | Uses(S, h, x) ensures Uses(S, o.holder, x) {
      var j: nat :| j < |h.slabs| && UsesAt(S, h, j, x);
      assert UsesAt(S, o.holder, j, x);
    }
    forall x: nat | In(o.region.value, x) ensures Uses(S, o.holder, x) && !Uses(S, h, x) {
      assert UsesAt(S, o.holder, k, x);
      if Uses(S, h, x) {
        var j: nat :| j < |h.slabs| && UsesAt(S, h, j, x);
        OneSlab(S, h.slabs[j], h.slabs[k], x);
        assert false;
      }
    }
  }

  lemma UseRunGrows(cfg: Config, c: Chunk, h: Holder, stats: Stats, size: nat, at: nat)
    requires ValidConfig(cfg) && ChunkOk(cfg, c) && HolderOk(cfg, c.used, h)
    requires FreeRun(c.used, at, SlabsNeeded(cfg.slabSize, size))
    ensures Grows(cfg, c, h, UseRun(cfg, c, h, stats, size, at))
  {
    var n := SlabsNeeded(cfg.slabSize, size);
    var o := UseRun(cfg, c, h, stats, size, at);
    SlabsFit(cfg.slabSize, size);
    TakeRunAt(h, at, n, SlabFree(cfg.slabSize, size));
    CountUsedTake(c.used, at, n);
    var slabs := o.holder.slabs;
    assert forall k :: 0 <= k < |h.slabs| ==> slabs[k] == slabs[..|h.slabs|][k] == h.slabs[k];
    assert forall k :: 0 <= k < |h.slabs| ==> o.holder.free[k] == o.holder.free[..|h.slabs|][k] == h.free[k];
    forall s | at <= s < at + n ensures s in slabs {
      assert slabs[|h.slabs| + (s - at)] == s;
    }
  }

  lemma UseRunServes(cfg: Config, c: Chunk, h: Holder, stats: Stats, size: nat, at: nat)
    requires ValidConfig(cfg) && ChunkOk(cfg, c) && HolderOk(cfg, c.used, h)
    requires FreeRun(c.used, at, SlabsNeeded(cfg.slabSize, size))
    ensures var o := UseRun(cfg, c, h, stats, size, at);
            |o.holder.slabs| == |o.holder.free| && Serves(cfg, c, h, o, size)
  {
    var n, slabFree := SlabsNeeded(cfg.slabSize, size), SlabFree(cfg.slabSize, size);
    var o := UseRun(cfg, c, h, stats, size, at);
    var S := cfg.slabSize;
    SlabsFit(S, size);
    SlabStartSum(S, at, n);
    TakeRunAt(h, at, n, slabFree);
    var r := o.holder;
    forall x: nat | Uses(S, h, x) ensures Uses(S, r, x) {
      var j: nat :| j < |h.slabs| && UsesAt(S, h, j, x);
      assert r.slabs[j] == r.slabs[..|h.slabs|][j] && r.free[j] == r.free[..|h.slabs|][j];
      assert UsesAt(S, r, j, x);
    }
    forall x: nat | In(o.region.value, x) ensures Uses(S, r, x) && !Uses(S, h, x) {
      var i := RunCovers(S, at, n, slabFree, x);
      assert UsesAt(S, r, |h.slabs| + i, x);
      if Uses(S, h, x) {
        var j: nat :| j < |h.slabs| && UsesAt(S, h, j, x);
        OneSlab(S, h.slabs[j], at + i, x);
        assert false;
      }
    }
  }

  lemma AllocateSlabGrows(cfg: Config, c: Chunk, h: Holder, additional: bool, size: nat)
    requires ValidConfig(cfg) && ChunkOk(cfg, c) && HolderOk(cfg, c.used, h) && size > 0
    ensures var o := AllocateSlab(cfg, c, h, additional, size);
            Grows(cfg, c, h, o) && Serves(cfg, c, h, o, size)
  {
    SlabsFit(cfg.slabSize, size);
    var n := SlabsNeeded(cfg.slabSize, size);
    var o := AllocateSlab(cfg, c, h, additional, size);
    if n > cfg.slabCount - c.usedCount {
    } else if n <= 1 && BestTail(h.free, size) >= 0 {
      UseTailGrows(cfg, c, h, additional, size, BestTail(h.free, size));
    } else if n <= 1 && LastFree(c.used) >= 0 {
      UseRunGrows(cfg, c, h, o.chunk.stats, size, LastFree(c.used));
      UseRunServes(cfg, c, h, o.chunk.stats, size, LastFree(c.used));
    } else if n > 1 && FirstRun(c.used, n, 0).Some? {
      UseRunGrows(cfg, c, h, o.chunk.stats, size, FirstRun(c.used, n, 0).value);
      UseRunServes(cfg, c, h, o.chunk.stats, size, FirstRun(c.used, n, 0).value);
    }
  }

  lemma BytesApart(slabSize: nat, h: Holder, r: Region, s: Region)
    requires |h.slabs| == |h.free| && r.size > 0 && s.size > 0
    requires forall x: nat :: In(r, x) ==> Uses(slabSize, h, x)
    requires forall x: nat :: In(s, x) ==> !Uses(slabSize, h, x)
    ensures Disjoint(r, s)
  {
    var x := if r.start < s.start then s.start else r.start;
    if !Disjoint(r, s) {
      assert In(r, x) && In(s, x);
      assert false;
    }
  }

  lemma LiveServed(cfg: Config, c: Chunk, p: Part, o: Outcome, size: nat)
    requires HolderFits(cfg, p.holder) && LiveOk(cfg, p.holder, p.live) && size > 0
    requires |o.holder.slabs| == |o.holder.free| && Serves(cfg, c, p.holder, o, size)
    ensures LiveOk(cfg, o.holder, p.live + (match o.region case None => [] case Some(r) => [r]))
  {
    var S := cfg.slabSize;
    var live := p.live + (match o.region case None => [] case Some(r) => [r]);
    forall i, x: nat | 0 <= i < |live| && In(live[i], x) ensures Uses(S, o.holder, x) {
      if i < |p.live| { assert In(p.live[i], x); }
    }
    forall i, j | 0 <= i < j < |live| ensures Disjoint(live[i], live[j]) {
      if j == |p.live| {
        forall x: nat | In(live[i], x) ensures Uses(S, p.holder, x) { assert In(p.live[i], x); }
        BytesApart(S, p.holder, live[i], o.region.value);
      } else {
        assert live[i] == p.live[i] && live[j] == p.live[j];
      }
    }
  }

  // ----- the invariant is kept

  ghost predicate Owned(cfg: Config, a: Arena, b: Arena, p: nat)
    requires p < |a.parts| && a.parts[p].chunk < |a.chunks|
  {
    && |b.chunks| == |a.chunks| && |b.parts| == |a.parts|
    && b.parts[p].chunk == a.parts[p].chunk
    && (forall c :: 0 <= c < |a.chunks| && c != a.parts[p].chunk ==> b.chunks[c] == a.chunks[c])
    && (forall q :: 0 <= q < |a.parts| && q != p ==> b.parts[q] == a.parts[q])
  }

  lemma HeldIsUsed(cfg: Config, a: Arena, p: nat, c: nat, s: nat)
    requires Inv(cfg, a) && Holds(a, p, c, s)
    ensures c < |a.chunks| && s < |a.chunks[c].used| && a.chunks[c].used[s]
  {
    var h := a.parts[p].holder;
    assert PartOk(cfg, a.chunks, a.parts[p]);
    var k :| 0 <= k < |h.slabs| && h.slabs[k] == s;
  }

  lemma HeldOnce(cfg: Config, a: Arena, p: nat, q: nat, c: nat, s: nat)
    requires Inv(cfg, a) && p != q && Holds(a, p, c, s)
    ensures !Holds(a, q, c, s)
  {
  }

  /** An allocation by any part keeps the arena consistent. */
  lemma AllocPartKeepsInv(cfg: Config, a: Arena, p: nat, additional: bool, size: nat)
    requires Inv(cfg, a) && p < |a.parts| && size > 0
    ensures PartOk(cfg, a.chunks, a.parts[p]) && Inv(cfg, AllocPart(cfg, a, p, additional, size).0)
  {
    assert PartOk(cfg, a.chunks, a.parts[p]);
    var part := a.parts[p];
    var c := a.chunks[part.chunk];
    assert ChunkOk(cfg, c);
    var o := AllocateSlab(cfg, c, part.holder, additional, size);
    AllocateSlabGrows(cfg, c, part.holder, additional, size);
    LiveServed(cfg, c, part, o, size);
    var b := AllocPart(cfg, a, p, additional, size).0;
    GrowthKeepsInv(cfg, a, b, p, o);
  }

  lemma NewlyHeld(c: Chunk, h: Holder, h': Holder, s: nat)
    requires |h.slabs| <= |h'.slabs| && h'.slabs[..|h.slabs|] == h.slabs && s in h'.slabs
    requires forall k :: |h.slabs| <= k < |h'.slabs| ==> h'.slabs[k] < |c.used| && !c.used[h'.slabs[k]]
    ensures s in h.slabs || (s < |c.used| && !c.used[s])
  {
    var k :| 0 <= k < |h'.slabs| && h'.slabs[k] == s;
    if k < |h.slabs| { assert h'.slabs[..|h.slabs|][k] == h.slabs[k]; }
  }

  lemma GrowthKeepsInv(cfg: Config, a: Arena, b: Arena, p: nat, o: Outcome)
    requires Inv(cfg, a) && p < |a.parts| && a.parts[p].chunk < |a.chunks| && Owned(cfg, a, b, p)
    requires b.chunks[a.parts[p].chunk] == o.chunk && b.parts[p].holder == o.holder
    requires Grows(cfg, a.chunks[a.parts[p].chunk], a.parts[p].holder, o)
    requires LiveOk(cfg, o.holder, b.parts[p].live)
    ensures Inv(cfg, b)
  {
    hide LiveOk, HolderFits, CountUsed;
    var part, c0 := a.parts[p], a.parts[p].chunk;
    var c := a.chunks[c0];
    forall q | 0 <= q < |b.parts| ensures PartOk(cfg, b.chunks, b.parts[q]) {
      if q != p { assert PartOk(cfg, a.chunks, a.parts[q]); }
    }
    forall q, r, d, s | Holds(b, q, d, s) && Holds(b, r, d, s) ensures q == r {
      if q != p && r != p {
        assert Holds(a, q, d, s) && Holds(a, r, d, s);
      } else if q != r {
        var other := if q == p then r else q;
        assert Holds(a, other, d, s);
        HeldIsUsed(cfg, a, other, d, s);
        HeldOnce(cfg, a, other, p, d, s);
        NewlyHeld(c, part.holder, o.holder, s);
        assert false;
      }
    }
    forall d, s | 0 <= d < |b.chunks| && 0 <= s < |b.chunks[d].used| && b.chunks[d].used[s]
      ensures exists q :: Holds(b, q, d, s)
    {
      if d == c0 && s in o.holder.slabs {
        assert Holds(b, p, d, s);
      } else {
        assert a.chunks[d].used[s];
        var q :| Holds(a, q, d, s);
        assert s in part.holder.slabs ==> s in o.holder.slabs[..|part.holder.slabs|];
        assert Holds(b, q, d, s);
      }
    }
  }

  /** A release gives back exactly the part's slabs. */
  lemma FreePartKeepsInv(cfg: Config, a: Arena, p: nat)
    requires Inv(cfg, a) && p < |a.parts|
    ensures PartOk(cfg, a.chunks, a.parts[p]) && Inv(cfg, FreePart(a, p))
  {
    assert PartOk(cfg, a.chunks, a.parts[p]);
    var part, c0 := a.parts[p], a.parts[p].chunk;
    var c, b := a.chunks[c0], FreePart(a, p);
    assert ChunkOk(cfg, c);
    CountUsedClear(c.used, part.holder.slabs);
    forall q | 0 <= q < |b.parts| ensures PartOk(cfg, b.chunks, b.parts[q]) {
      var bq := b.parts[q];
      assert PartOk(cfg, a.chunks, a.parts[q]);
      if q != p && bq.chunk == c0 {
        forall k | 0 <= k < |bq.holder.slabs| ensures b.chunks[c0].used[bq.holder.slabs[k]] {
          assert Holds(a, q, c0, bq.holder.slabs[k]);
          if bq.holder.slabs[k] in part.holder.slabs { assert Holds(a, p, c0, bq.holder.slabs[k]); }
        }
      }
    }
    forall q, r, d, s | Holds(b, q, d, s) && Holds(b, r, d, s) ensures q == r {
      assert Holds(a, q, d, s) && Holds(a, r, d, s);
    }
    forall d, s | 0 <= d < |b.chunks| && 0 <= s < |b.chunks[d].used| && b.chunks[d].used[s]
      ensures exists q :: Holds(b, q, d, s)
    {
      assert a.chunks[d].used[s];
      var q :| Holds(a, q, d, s);
      assert Holds(b, q, d, s);
    }
  }

  lemma AddPartKeepsInv(cfg: Config, a: Arena, chunk: nat)
    requires Inv(cfg, a) && chunk < |a.chunks|
    ensures Inv(cfg, AddPart(a, chunk))
  {
    var b := AddPart(a, chunk);
    forall q | 0 <= q < |b.parts| ensures PartOk(cfg, b.chunks, b.parts[q]) {
      if q < |a.parts| { assert PartOk(cfg, a.chunks, a.parts[q]); }
    }
    forall q, r, d, s | Holds(b, q, d, s) && Holds(b, r, d, s) ensures q == r {
      assert Holds(a, q, d, s) && Holds(a, r, d, s);
    }
    forall d, s | 0 <= d < |b.chunks| && 0 <= s < |b.chunks[d].used| && b.chunks[d].used[s]
      ensures exists q :: Holds(b, q, d, s)
    {
      var q :| Holds(a, q, d, s);
      assert Holds(b, q, d, s);
    }
  }

  // ----- what the invariant means

  /** A slab is marked used exactly when it is held, by exactly one part and once in it. */
  lemma SlabOwnership(cfg: Config, a: Arena, c: nat, s: nat)
    requires Inv(cfg, a) && c < |a.chunks| && s < |a.chunks[c].used|
    ensures a.chunks[c].used[s] <==> exists p :: Holds(a, p, c, s)
    ensures forall p, q :: Holds(a, p, c, s) && Holds(a, q, c, s) ==> p == q
    ensures forall p: nat, j, k :: Holds(a, p, c, s) && 0 <= j < k < |a.parts[p].holder.slabs| ==>
              a.parts[p].holder.slabs[j] != s || a.parts[p].holder.slabs[k] != s
  {
    forall p: nat | Holds(a, p, c, s) ensures a.chunks[c].used[s] && PartOk(cfg, a.chunks, a.parts[p]) {
      HeldIsUsed(cfg, a, p, c, s);
    }
  }

  /** Two regions of one chunk that are live at once, of one allocator or of two, never overlap. */
  lemma LiveRegionsDisjoint(cfg: Config, a: Arena, p: nat, i: nat, q: nat, j: nat)
    requires Inv(cfg, a) && p < |a.parts| && q < |a.parts| && a.parts[p].chunk == a.parts[q].chunk
    requires i < |a.parts[p].live| && j < |a.parts[q].live| && (p != q || i != j)
    ensures Disjoint(a.parts[p].live[i], a.parts[q].live[j])
  {
    var P, Q := a.parts[p], a.parts[q];
    assert PartOk(cfg, a.chunks, P) && PartOk(cfg, a.chunks, Q);
    if p == q {
      if i < j { assert Disjoint(P.live[i], P.live[j]); } else { assert Disjoint(P.live[j], P.live[i]); }
    } else {
      forall x: nat | In(Q.live[j], x) ensures !Uses(cfg.slabSize, P.holder, x) {
        assert Uses(cfg.slabSize, Q.holder, x);
        if Uses(cfg.slabSize, P.holder, x) {
          var k: nat :| k < |P.holder.slabs| && UsesAt(cfg.slabSize, P.holder, k, x);
          var l: nat :| l < |Q.holder.slabs| && UsesAt(cfg.slabSize, Q.holder, l, x);
          OneSlab(cfg.slabSize, P.holder.slabs[k], Q.holder.slabs[l], x);
          assert Holds(a, p, P.chunk, P.holder.slabs[k]) && Holds(a, q, P.chunk, P.holder.slabs[k]);
          assert false;
        }
      }
      BytesApart(cfg.slabSize, P.holder, P.live[i], Q.live[j]);
    }
  }

  /** A live region lies inside its chunk's memory. */
  lemma LiveRegionInMemory(cfg: Config, a: Arena, p: nat, i: nat)
    requires Inv(cfg, a) && p < |a.parts| && i < |a.parts[p].live|
    ensures a.parts[p].live[i].start + a.parts[p].live[i].size <= SlabStart(cfg.slabSize, cfg.slabCount)
  {
    var P := a.parts[p];
    assert PartOk(cfg, a.chunks, P);
    assert P.live[i].size > 0;
    var last: nat := P.live[i].start + P.live[i].size - 1;
    assert In(P.live[i], last);
    assert Uses(cfg.slabSize, P.holder, last);
    var k: nat :| k < |P.holder.slabs| && UsesAt(cfg.slabSize, P.holder, k, last);
    assert ChunkOk(cfg, a.chunks[P.chunk]);
    SlabStartMonotone(cfg.slabSize, P.holder.slabs[k], cfg.slabCount);
  }

  /** Overwrites the bytes of `r` from offset `at` on. */
  function WriteIn(memory: seq<byte>, r: Region, at: nat, data: seq<byte>): seq<byte>
    requires at + |data| <= r.size && r.start + r.size <= |memory|
  {
    memory[..r.start + at] + data + memory[r.start + at + |data|..]
  }

  /** Writing inside one live region never changes the contents of another. */
  lemma WritesAreIsolated(cfg: Config, a: Arena, p: nat, i: nat, q: nat, j: nat,
                          memory: seq<byte>, at: nat, data: seq<byte>)
    requires Inv(cfg, a) && p < |a.parts| && q < |a.parts| && a.parts[p].chunk == a.parts[q].chunk
    requires i < |a.parts[p].live| && j < |a.parts[q].live| && (p != q || i != j)
    requires |memory| == SlabStart(cfg.slabSize, cfg.slabCount)
    requires at + |data| <= a.parts[p].live[i].size
    ensures var r, s := a.parts[p].live[i], a.parts[q].live[j];
            && r.start + r.size <= |memory| && s.start + s.size <= |memory|
            && WriteIn(memory, r, at, data)[s.start..s.start + s.size] == memory[s.start..s.start + s.size]
  {
    LiveRegionInMemory(cfg, a, p, i);
    LiveRegionInMemory(cfg, a, q, j);
    LiveRegionsDisjoint(cfg, a, p, i, q, j);
    var r, s := a.parts[p].live[i], a.parts[q].live[j];
    WriteElsewhere(memory, r, s, at, data);
  }

  lemma WriteElsewhere(memory: seq<byte>, r: Region, s: Region, at: nat, data: seq<byte>)
    requires Disjoint(r, s) && r.start + r.size <= |memory| && s.start + s.size <= |memory|
    requires at + |data| <= r.size
    ensures WriteIn(memory, r, at, data)[s.start..s.start + s.size] == memory[s.start..s.start + s.size]
  {
    var after := WriteIn(memory, r, at, data);
    assert forall k :: 0 <= k < |memory| && !(r.start + at <= k < r.start + at + |data|) ==> after[k] == memory[k];
  }

  /** When nobody holds anything every slab is free and every counter is 0. */
  lemma AllReleased(cfg: Config, a: Arena)
    requires Inv(cfg, a)
    requires forall p :: 0 <= p < |a.parts| ==> a.parts[p].holder == EMPTY_HOLDER
    ensures forall c :: 0 <= c < |a.chunks| ==>
              a.chunks[c].usedCount == 0 && forall s :: 0 <= s < |a.chunks[c].used| ==> !a.chunks[c].used[s]
  {
    forall c | 0 <= c < |a.chunks|
      ensures a.chunks[c].usedCount == 0 && forall s :: 0 <= s < |a.chunks[c].used| ==> !a.chunks[c].used[s]
    {
      var used := a.chunks[c].used;
      assert forall p, s :: !Holds(a, p, c, s);
      assert ChunkOk(cfg, a.chunks[c]);
      CountUsedNone(used);
    }
  }

  lemma {:induction false} CountUsedNone(used: seq<bool>)
    requires forall s :: 0 <= s < |used| ==> !used[s]
    ensures CountUsed(used) == 0
  {
    if used != [] { CountUsedNone(used[..|used| - 1]); }
  }
}
