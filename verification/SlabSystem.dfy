/**
 All allocators of one manager at once. A step is one critical section, under the lock of
 the chunk it changes; the steps of different allocators interleave in any order.
*/
module SlabSystem {
  import opened Bytes
  import opened Slabs
  import opened SlabSafety

  const MIN_SLAB_ALLOC := 96

  /** What an allocator is in the middle of. */
  datatype Phase =
    | Idle
    | Routing(size: nat)     // Allocate, between its two critical sections
    | Releasing(extra: nat)  // Release, before the detached additional part is released

  /** The allocator's own part and that of its additional allocator, as indices of parts. */
  datatype Allocator = Allocator(main: nat, addl: Option<nat>, phase: Phase)

  datatype System = System(arena: Arena, allocators: seq<Allocator>, total: nat)

  /** `seen` are the used counts of all chunks as _take_additional read them, without locks. */
  datatype Step =
    | Make(chunk: nat)
    | AllocateBegin(a: nat, size: nat, seen: seq<int>)
    | AllocateFinish(a: nat)
    | ReleaseBegin(a: nat)
    | ReleaseFinish(a: nat)

  // ----- the choice of an additional chunk

  /** The chunk with most free slabs of those with enough, the first of several; never `own`. */
  function BestChunk(seen: seq<int>, own: nat, need: nat, slabCount: nat): (r: Option<nat>)
    ensures r.Some? ==> r.value < |seen| && r.value != own && slabCount - seen[r.value] >= need
    ensures r.Some? ==> forall j :: 0 <= j < |seen| && j != own ==> seen[r.value] <= seen[j]
    ensures r.Some? ==> forall j :: 0 <= j < r.value && j != own ==> seen[r.value] < seen[j]
    ensures r.None? ==> forall j :: 0 <= j < |seen| && j != own ==> slabCount - seen[j] < need
  {
    if seen == [] then None
    else
      var i := |seen| - 1;
      var best := BestChunk(seen[..i], own, need, slabCount);
      if i != own && slabCount - seen[i] >= need && (best.None? || seen[i] < seen[best.value]) then Some(i)
      else best
  }

  // ----- steps

  predicate Enabled(sys: System, step: Step) {
    match step
    case Make(chunk) => chunk < |sys.arena.chunks|
    case AllocateBegin(a, size, seen) =>
      && a < |sys.allocators| && sys.allocators[a].phase.Idle?
      && size > MIN_SLAB_ALLOC && |seen| == |sys.arena.chunks|
    case AllocateFinish(a) => a < |sys.allocators| && sys.allocators[a].phase.Routing?
    case ReleaseBegin(a) => a < |sys.allocators| && sys.allocators[a].phase.Idle?
    case ReleaseFinish(a) => a < |sys.allocators| && sys.allocators[a].phase.Releasing?
  }

  function CountRouted(a: Arena, chunk: nat): Arena
    requires chunk < |a.chunks|
  {
    var c := a.chunks[chunk];
    a.(chunks := a.chunks[chunk := c.(stats := c.stats.(routed := c.stats.routed + 1))])
  }

  /** The additional part to use after a failure, made now if there is none and some chunk has room. */
  function TakeAdditional(cfg: Config, arena: Arena, al: Allocator, size: nat, seen: seq<int>): (Arena, Option<nat>)
    requires ValidConfig(cfg) && al.main < |arena.parts|
  {
    if al.addl.Some? then (arena, al.addl)
    else
      match BestChunk(seen, arena.parts[al.main].chunk, size / cfg.slabSize + 5, cfg.slabCount)
      case None => (arena, None)
      case Some(c) => (AddPart(arena, c), Some(|arena.parts|))
  }

  function Begin(cfg: Config, sys: System, a: nat, size: nat, seen: seq<int>): System
    requires SysShape(cfg, sys) && Enabled(sys, AllocateBegin(a, size, seen))
  {
    var al := sys.allocators[a];
    var (arena, region) := AllocPart(cfg, sys.arena, al.main, false, size);
    if region.Some? then System(arena, sys.allocators, sys.total + 1)
    else
      var (arena', addl) := TakeAdditional(cfg, arena, al, size, seen);
      if addl.None? then System(arena', sys.allocators, sys.total + 1)
      else
        System(CountRouted(arena', arena'.parts[al.main].chunk),
               sys.allocators[a := Allocator(al.main, addl, Routing(size))], sys.total + 1)
  }

  function Apply(cfg: Config, sys: System, step: Step): System
    requires SysShape(cfg, sys) && Enabled(sys, step)
  {
    match step
    case Make(chunk) =>
      System(AddPart(sys.arena, chunk),
             sys.allocators + [Allocator(|sys.arena.parts|, None, Idle)], sys.total)
    case AllocateBegin(a, size, seen) => Begin(cfg, sys, a, size, seen)
    case AllocateFinish(a) =>
      var al := sys.allocators[a];
      System(AllocPart(cfg, sys.arena, al.addl.value, true, al.phase.size).0,
             sys.allocators[a := al.(phase := Idle)], sys.total)
    case ReleaseBegin(a) =>
      var al := sys.allocators[a];
      if al.addl.None? && sys.arena.parts[al.main].holder.slabs == [] then sys
      else
        var phase := if al.addl.Some? then Releasing(al.addl.value) else Idle;
        System(FreePart(sys.arena, al.main), sys.allocators[a := Allocator(al.main, None, phase)], sys.total)
    case ReleaseFinish(a) =>
      var al := sys.allocators[a];
      System(FreePart(sys.arena, al.phase.extra), sys.allocators[a := al.(phase := Idle)], sys.total)
  }

  // ----- the invariant of the system

  predicate Refers(al: Allocator, p: nat) {
    p == al.main || al.addl == Some(p) || al.phase == Releasing(p)
  }

  predicate AllocatorOk(arena: Arena, al: Allocator) {
    && al.main < |arena.parts|
    && (al.addl.Some? ==> al.addl.value < |arena.parts| && al.addl.value != al.main)
    && (al.phase.Routing? ==> al.addl.Some? && al.phase.size > MIN_SLAB_ALLOC)
    && (al.phase.Releasing? ==> al.phase.extra < |arena.parts| && al.addl.None?)
  }

  /** Enough of the invariant for the steps to be defined. */
  predicate SysShape(cfg: Config, sys: System) {
    && ValidConfig(cfg)
    && (forall a :: 0 <= a < |sys.allocators| ==> AllocatorOk(sys.arena, sys.allocators[a]))
    && (forall p :: 0 <= p < |sys.arena.parts| ==>
          var part := sys.arena.parts[p];
          && part.chunk < |sys.arena.chunks| && HolderFits(cfg, part.holder)
          && forall k :: 0 <= k < |part.holder.slabs| ==> part.holder.slabs[k] < |sys.arena.chunks[part.chunk].used|)
  }

  ghost predicate SysInv(cfg: Config, sys: System) {
    && SysShape(cfg, sys)
    && Inv(cfg, sys.arena)
    // whatever holds slabs belongs to some allocator
    && (forall p :: 0 <= p < |sys.arena.parts| && sys.arena.parts[p].holder != EMPTY_HOLDER ==>
          exists a :: 0 <= a < |sys.allocators| && Refers(sys.allocators[a], p))
    // every call of Allocate is in exactly one statistic, or still on its way there
    && Accounted(sys.arena.chunks) == sys.total - RoutingCount(sys.allocators)
  }

  /** full + full_small + tail + (oom - routed), summed over chunks. */
  function Accounted(chunks: seq<Chunk>): int {
    if chunks == [] then 0
    else
      var s := chunks[|chunks| - 1].stats;
      Accounted(chunks[..|chunks| - 1]) + s.full + s.fullSmall + s.tail + s.oom - s.routed
  }

  function RoutingCount(als: seq<Allocator>): nat {
    if als == [] then 0
    else RoutingCount(als[..|als| - 1]) + if als[|als| - 1].phase.Routing? then 1 else 0
  }

  function StatSum(c: Chunk): int {
    c.stats.full + c.stats.fullSmall + c.stats.tail + c.stats.oom - c.stats.routed
  }

  lemma {:induction false} AccountedUpdate(chunks: seq<Chunk>, k: nat, c: Chunk)
    requires k < |chunks|
    ensures Accounted(chunks[k := c]) == Accounted(chunks) + StatSum(c) - StatSum(chunks[k])
  {
    var n := |chunks| - 1;
    if k < n {
      AccountedUpdate(chunks[..n], k, c);
      assert chunks[k := c][..n] == chunks[..n][k := c];
    } else {
      assert chunks[k := c][..n] == chunks[..n];
    }
  }

  lemma {:induction false} RoutingCountUpdate(als: seq<Allocator>, k: nat, al: Allocator)
    requires k < |als|
    ensures RoutingCount(als[k := al]) ==
            RoutingCount(als) + (if al.phase.Routing? then 1 else 0) - (if als[k].phase.Routing? then 1 else 0)
  {
    var n := |als| - 1;
    if k < n {
      RoutingCountUpdate(als[..n], k, al);
      assert als[k := al][..n] == als[..n][k := al];
    } else {
      assert als[k := al][..n] == als[..n];
    }
  }

  lemma RoutingCountAppend(als: seq<Allocator>, al: Allocator)
    ensures RoutingCount(als + [al]) == RoutingCount(als) + if al.phase.Routing? then 1 else 0
  {
    assert (als + [al])[..|als|] == als;
  }

  // ----- each step keeps it

  lemma InvShape(cfg: Config, sys: System)
    requires Inv(cfg, sys.arena)
    requires forall a :: 0 <= a < |sys.allocators| ==> AllocatorOk(sys.arena, sys.allocators[a])
    ensures SysShape(cfg, sys)
  {
    forall p | 0 <= p < |sys.arena.parts|
      ensures var part := sys.arena.parts[p];
              && part.chunk < |sys.arena.chunks| && HolderFits(cfg, part.holder)
              && forall k :: 0 <= k < |part.holder.slabs| ==> part.holder.slabs[k] < |sys.arena.chunks[part.chunk].used|
    {
      assert PartOk(cfg, sys.arena.chunks, sys.arena.parts[p]);
    }
  }

  lemma CountRoutedKeepsInv(cfg: Config, a: Arena, chunk: nat)
    requires Inv(cfg, a) && chunk < |a.chunks|
    ensures Inv(cfg, CountRouted(a, chunk))
    ensures Accounted(CountRouted(a, chunk).chunks) == Accounted(a.chunks) - 1
  {
    var b := CountRouted(a, chunk);
    AccountedUpdate(a.chunks, chunk, b.chunks[chunk]);
    assert ChunkOk(cfg, a.chunks[chunk]);
    forall p | 0 <= p < |b.parts| ensures PartOk(cfg, b.chunks, b.parts[p]) {
      assert PartOk(cfg, a.chunks, a.parts[p]);
    }
    forall p, q, c, s | Holds(b, p, c, s) && Holds(b, q, c, s) ensures p == q {
      assert Holds(a, p, c, s) && Holds(a, q, c, s);
    }
    forall c, s | 0 <= c < |b.chunks| && 0 <= s < |b.chunks[c].used| && b.chunks[c].used[s]
      ensures exists p :: Holds(b, p, c, s)
    {
      assert a.chunks[c].used[s];
      var p :| Holds(a, p, c, s);
      assert Holds(b, p, c, s);
    }
  }

  lemma AllocPartAccounted(cfg: Config, a: Arena, p: nat, additional: bool, size: nat)
    requires Inv(cfg, a) && p < |a.parts| && size > 0
    ensures PartOk(cfg, a.chunks, a.parts[p])
    ensures var b := AllocPart(cfg, a, p, additional, size).0;
            Inv(cfg, b) && Accounted(b.chunks) == Accounted(a.chunks) + 1
  {
    AllocPartKeepsInv(cfg, a, p, additional, size);
    var part := a.parts[p];
    var o := AllocateSlab(cfg, a.chunks[part.chunk], part.holder, additional, size);
    AllocateSlabCounts(cfg, a.chunks[part.chunk], part.holder, additional, size);
    AccountedUpdate(a.chunks, part.chunk, o.chunk);
  }

  lemma FreePartAccounted(cfg: Config, a: Arena, p: nat)
    requires Inv(cfg, a) && p < |a.parts|
    ensures PartOk(cfg, a.chunks, a.parts[p])
    ensures Inv(cfg, FreePart(a, p)) && Accounted(FreePart(a, p).chunks) == Accounted(a.chunks)
  {
    FreePartKeepsInv(cfg, a, p);
    var part := a.parts[p];
    AccountedUpdate(a.chunks, part.chunk, FreeChunk(a.chunks[part.chunk], part.holder));
  }

  /** Only the stepping allocator and its parts change, and what it lets go of is empty. */
  lemma ReferencesKept(sys: System, arena: Arena, als: seq<Allocator>, a: nat)
    requires a < |sys.allocators| == |als| && |sys.arena.parts| <= |arena.parts|
    requires forall p :: 0 <= p < |sys.arena.parts| && sys.arena.parts[p].holder != EMPTY_HOLDER ==>
               exists b :: 0 <= b < |sys.allocators| && Refers(sys.allocators[b], p)
    requires forall b :: 0 <= b < |als| && b != a ==> als[b] == sys.allocators[b]
    requires forall p :: 0 <= p < |sys.arena.parts| && !Refers(sys.allocators[a], p) ==> arena.parts[p] == sys.arena.parts[p]
    requires forall p :: 0 <= p < |sys.arena.parts| && Refers(sys.allocators[a], p) ==>
               Refers(als[a], p) || arena.parts[p].holder == EMPTY_HOLDER
    requires forall p :: |sys.arena.parts| <= p < |arena.parts| ==> arena.parts[p].holder == EMPTY_HOLDER
    ensures forall p :: 0 <= p < |arena.parts| && arena.parts[p].holder != EMPTY_HOLDER ==>
              exists b :: 0 <= b < |als| && Refers(als[b], p)
  {
    forall p | 0 <= p < |arena.parts| && arena.parts[p].holder != EMPTY_HOLDER
      ensures exists b :: 0 <= b < |als| && Refers(als[b], p)
    {
      if Refers(sys.allocators[a], p) {
        assert Refers(als[a], p);
      } else {
        var b :| 0 <= b < |sys.allocators| && Refers(sys.allocators[b], p);
        assert Refers(als[b], p);
      }
    }
  }

  lemma MakeKeepsInv(cfg: Config, sys: System, chunk: nat)
    requires SysInv(cfg, sys) && Enabled(sys, Make(chunk))
    ensures SysInv(cfg, Apply(cfg, sys, Make(chunk)))
  {
    hide Inv, Accounted, RoutingCount;
    var after := Apply(cfg, sys, Make(chunk));
    RoutingCountAppend(sys.allocators, after.allocators[|sys.allocators|]);
    AddPartKeepsInv(cfg, sys.arena, chunk);
    InvShape(cfg, after);
    assert after.allocators[..|sys.allocators|] == sys.allocators;
    forall p | 0 <= p < |after.arena.parts| && after.arena.parts[p].holder != EMPTY_HOLDER
      ensures exists a :: 0 <= a < |after.allocators| && Refers(after.allocators[a], p)
    {
      var a :| 0 <= a < |sys.allocators| && Refers(sys.allocators[a], p);
      assert Refers(after.allocators[a], p);
    }
  }

  lemma BeginKeepsInv(cfg: Config, sys: System, a: nat, size: nat, seen: seq<int>)
    requires SysInv(cfg, sys) && Enabled(sys, AllocateBegin(a, size, seen))
    ensures SysInv(cfg, Apply(cfg, sys, AllocateBegin(a, size, seen)))
  {
    hide Inv, PartOk, AllocateSlab, Accounted, RoutingCount, BestChunk;
    var al := sys.allocators[a];
    AllocPartAccounted(cfg, sys.arena, al.main, false, size);
    var (arena, region) := AllocPart(cfg, sys.arena, al.main, false, size);
    var after := Begin(cfg, sys, a, size, seen);
    RoutingCountUpdate(sys.allocators, a, after.allocators[a]);
    assert after.allocators == sys.allocators[a := after.allocators[a]];
    if region.None? {
      var (arena', addl) := TakeAdditional(cfg, arena, al, size, seen);
      if addl.Some? {
        if al.addl.None? { AddPartKeepsInv(cfg, arena, arena'.parts[addl.value].chunk); }
        CountRoutedKeepsInv(cfg, arena', arena'.parts[al.main].chunk);
      }
    }
    InvShape(cfg, after);
    ReferencesKept(sys, after.arena, after.allocators, a);
  }

  lemma FinishKeepsInv(cfg: Config, sys: System, a: nat)
    requires SysInv(cfg, sys) && Enabled(sys, AllocateFinish(a))
    ensures SysInv(cfg, Apply(cfg, sys, AllocateFinish(a)))
  {
    hide Inv, PartOk, AllocateSlab, Accounted, RoutingCount;
    var al := sys.allocators[a];
    var after := Apply(cfg, sys, AllocateFinish(a));
    AllocPartAccounted(cfg, sys.arena, al.addl.value, true, al.phase.size);
    RoutingCountUpdate(sys.allocators, a, al.(phase := Idle));
    InvShape(cfg, after);
    ReferencesKept(sys, after.arena, after.allocators, a);
  }

  lemma ReleaseKeepsInv(cfg: Config, sys: System, a: nat, finish: bool)
    requires SysInv(cfg, sys) && Enabled(sys, if finish then ReleaseFinish(a) else ReleaseBegin(a))
    ensures SysInv(cfg, Apply(cfg, sys, if finish then ReleaseFinish(a) else ReleaseBegin(a)))
  {
    hide Inv, PartOk, Accounted, RoutingCount, Clear, FreeChunk;
    var al := sys.allocators[a];
    var after := Apply(cfg, sys, if finish then ReleaseFinish(a) else ReleaseBegin(a));
    if after != sys {
      FreePartAccounted(cfg, sys.arena, if finish then al.phase.extra else al.main);
      RoutingCountUpdate(sys.allocators, a, after.allocators[a]);
      assert after.allocators == sys.allocators[a := after.allocators[a]];
      InvShape(cfg, after);
      ReferencesKept(sys, after.arena, after.allocators, a);
    }
  }

  lemma StepKeepsInv(cfg: Config, sys: System, step: Step)
    requires SysInv(cfg, sys) && Enabled(sys, step)
    ensures SysInv(cfg, Apply(cfg, sys, step))
  {
    match step
    case Make(chunk) => MakeKeepsInv(cfg, sys, chunk);
    case AllocateBegin(a, size, seen) => BeginKeepsInv(cfg, sys, a, size, seen);
    case AllocateFinish(a) => FinishKeepsInv(cfg, sys, a);
    case ReleaseBegin(a) => ReleaseKeepsInv(cfg, sys, a, false);
    case ReleaseFinish(a) => ReleaseKeepsInv(cfg, sys, a, true);
  }

  // ----- what a whole release does

  /** ReleaseBegin, and ReleaseFinish when it is due. */
  ghost function ReleaseSteps(cfg: Config, sys: System, a: nat): (r: System)
    requires SysInv(cfg, sys) && Enabled(sys, ReleaseBegin(a))
    ensures SysInv(cfg, r)
  {
    StepKeepsInv(cfg, sys, ReleaseBegin(a));
    var s1 := Apply(cfg, sys, ReleaseBegin(a));
    if s1.allocators[a].phase.Releasing? then
      StepKeepsInv(cfg, s1, ReleaseFinish(a));
      Apply(cfg, s1, ReleaseFinish(a))
    else s1
  }

  /** The allocator is left without slabs and without an additional part; all other parts keep theirs. */
  lemma ReleaseReleases(cfg: Config, sys: System, a: nat)
    requires SysInv(cfg, sys) && Enabled(sys, ReleaseBegin(a))
    ensures var r, al := ReleaseSteps(cfg, sys, a), sys.allocators[a];
            && a < |r.allocators| && |r.arena.parts| == |sys.arena.parts| && r.total == sys.total
            && r.allocators[a] == Allocator(al.main, None, Idle)
            && r.arena.parts[al.main].holder.slabs == []
            && (al.addl.Some? ==> r.arena.parts[al.addl.value].holder.slabs == [])
            && (forall p :: 0 <= p < |sys.arena.parts| && p != al.main && al.addl != Some(p) ==> r.arena.parts[p] == sys.arena.parts[p])
  {
    hide Inv, Accounted, RoutingCount, FreeChunk;
    assert AllocatorOk(sys.arena, sys.allocators[a]);
    StepKeepsInv(cfg, sys, ReleaseBegin(a));
  }

  // ----- runs

  function FreshChunk(cfg: Config): Chunk {
    Chunk(seq(cfg.slabCount, _ => false), 0, NO_STATS)
  }

  function Init(cfg: Config, chunks: nat): System {
    System(Arena(seq(chunks, _ => FreshChunk(cfg)), []), [], 0)
  }

  lemma {:induction false} NothingAccounted(cfg: Config, chunks: nat)
    ensures Accounted(seq(chunks, _ => FreshChunk(cfg))) == 0
  {
    if chunks > 0 {
      NothingAccounted(cfg, chunks - 1);
      var all := seq(chunks, _ => FreshChunk(cfg));
      assert all[..chunks - 1] == seq(chunks - 1, _ => FreshChunk(cfg));
    }
  }

  lemma InitInv(cfg: Config, chunks: nat)
    requires ValidConfig(cfg)
    ensures SysInv(cfg, Init(cfg, chunks))
  {
    NothingAccounted(cfg, chunks);
    CountUsedNone(FreshChunk(cfg).used);
  }

  /** The state after a run; None when some step was not possible. */
  ghost function Run(cfg: Config, sys: System, steps: seq<Step>): (r: Option<System>)
    requires SysInv(cfg, sys)
    ensures r.Some? ==> SysInv(cfg, r.value)
    decreases |steps|
  {
    if steps == [] then Some(sys)
    else if !Enabled(sys, steps[0]) then None
    else
      StepKeepsInv(cfg, sys, steps[0]);
      Run(cfg, Apply(cfg, sys, steps[0]), steps[1..])
  }

  ghost predicate Reachable(cfg: Config, chunks: nat, steps: seq<Step>, sys: System)
    requires ValidConfig(cfg)
  {
    InitInv(cfg, chunks);
    Run(cfg, Init(cfg, chunks), steps) == Some(sys)
  }

  /** In every run of every set of allocators no two live regions of a chunk overlap. */
  lemma RunIsSafe(cfg: Config, chunks: nat, steps: seq<Step>, sys: System, p: nat, i: nat, q: nat, j: nat)
    requires ValidConfig(cfg) && Reachable(cfg, chunks, steps, sys)
    requires p < |sys.arena.parts| && q < |sys.arena.parts| && (p != q || i != j)
    requires sys.arena.parts[p].chunk == sys.arena.parts[q].chunk
    requires i < |sys.arena.parts[p].live| && j < |sys.arena.parts[q].live|
    ensures Disjoint(sys.arena.parts[p].live[i], sys.arena.parts[q].live[j])
  {
    InitInv(cfg, chunks);
    LiveRegionsDisjoint(cfg, sys.arena, p, i, q, j);
  }

  predicate Released(sys: System, al: Allocator)
    requires al.main < |sys.arena.parts|
  {
    al.phase.Idle? && al.addl.None? && sys.arena.parts[al.main].holder == EMPTY_HOLDER
  }

  /** In every run, once all allocators are released, all slabs are free and all counters 0. */
  lemma RunConserves(cfg: Config, chunks: nat, steps: seq<Step>, sys: System, c: nat)
    requires ValidConfig(cfg) && Reachable(cfg, chunks, steps, sys)
    requires forall a :: 0 <= a < |sys.allocators| ==>
               AllocatorOk(sys.arena, sys.allocators[a]) && Released(sys, sys.allocators[a])
    requires c < |sys.arena.chunks|
    ensures sys.arena.chunks[c].usedCount == 0
    ensures forall s :: 0 <= s < |sys.arena.chunks[c].used| ==> !sys.arena.chunks[c].used[s]
  {
    InitInv(cfg, chunks);
    assert SysInv(cfg, sys);
    AllReleased(cfg, sys.arena);
  }

  /** In every run with nobody between critical sections, the totals add up to the calls made. */
  lemma RunBalances(cfg: Config, chunks: nat, steps: seq<Step>, sys: System)
    requires ValidConfig(cfg) && Reachable(cfg, chunks, steps, sys)
    requires forall a :: 0 <= a < |sys.allocators| ==> !sys.allocators[a].phase.Routing?
    ensures Accounted(sys.arena.chunks) == sys.total
  {
    InitInv(cfg, chunks);
    NobodyRouting(sys.allocators);
  }

  lemma {:induction false} NobodyRouting(als: seq<Allocator>)
    requires forall a :: 0 <= a < |als| ==> !als[a].phase.Routing?
    ensures RoutingCount(als) == 0
  {
    if als != [] { NobodyRouting(als[..|als| - 1]); }
  }
}
