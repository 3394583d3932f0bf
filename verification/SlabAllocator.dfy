/**
 The manager, its chunks and its allocators as the program keeps them, with the search
 loops of allocate_slab. The bodies between Lock and Unlock are the methods AllocateSlab
 and ReleaseOwn; their effects are the functions of module Slabs.
*/
module SlabAllocator {
  import opened Bytes
  import opened Slabs
  import opened SlabSafety
  import opened SlabSystem

  class MemChunk {
    const slabUsed: array<bool>
    var usedSlabCount: int
    var statAllocFull: nat
    var statAllocFullSmall: nat
    var statAllocTail: nat
    var statOom: nat
    var statRouted: nat
    var statRoutedAlloc: nat

    constructor (slabCount: nat)
      ensures fresh(slabUsed) && slabUsed.Length == slabCount && View() == FreshChunk(Config(1, slabCount))
    {
      slabUsed := new bool[slabCount](_ => false);
      usedSlabCount := 0;
      statAllocFull, statAllocFullSmall, statAllocTail := 0, 0, 0;
      statOom, statRouted, statRoutedAlloc := 0, 0, 0;
    }

    ghost function View(): Chunk
      reads this, slabUsed
    {
      Chunk(slabUsed[..], usedSlabCount,
            Stats(statAllocFull, statAllocFullSmall, statAllocTail, statOom, statRouted, statRoutedAlloc))
    }
  }

  class BSManager {
    const memChunks: seq<MemChunk>
    const slabSize: nat
    const slabCount: nat
    var total: nat

    constructor (memChunksCount: nat, slabSize: nat, slabCount: nat)
      requires slabSize > 0
      ensures Valid() && total == 0 && |memChunks| == memChunksCount && Cfg() == Config(slabSize, slabCount)
      ensures forall i :: 0 <= i < |memChunks| ==> memChunks[i].View() == FreshChunk(Cfg())
    {
      this.slabSize, this.slabCount, total := slabSize, slabCount, 0;
      var chunks: seq<MemChunk> := [];
      while |chunks| < memChunksCount
        invariant |chunks| <= memChunksCount
        invariant forall i :: 0 <= i < |chunks| ==> fresh(chunks[i]) && fresh(chunks[i].slabUsed) && chunks[i].slabUsed.Length == slabCount
        invariant forall i :: 0 <= i < |chunks| ==> chunks[i].View() == FreshChunk(Config(slabSize, slabCount))
        invariant forall i, j :: 0 <= i < j < |chunks| ==> chunks[i] != chunks[j] && chunks[i].slabUsed != chunks[j].slabUsed
      {
        var c := new MemChunk(slabCount);
        chunks := chunks + [c];
      }
      memChunks := chunks;
    }

    ghost function Cfg(): Config {
      Config(slabSize, slabCount)
    }

    ghost predicate Valid() {
      && ValidConfig(Cfg())
      && (forall i :: 0 <= i < |memChunks| ==> memChunks[i].slabUsed.Length == slabCount)
      && (forall i, j :: 0 <= i < j < |memChunks| ==>
            memChunks[i] != memChunks[j] && memChunks[i].slabUsed != memChunks[j].slabUsed)
    }

    ghost function Views(): seq<Chunk>
      reads memChunks, set c | c in memChunks :: c.slabUsed
    {
      seq(|memChunks|, i requires 0 <= i < |memChunks| reads memChunks, set c | c in memChunks :: c.slabUsed =>
            memChunks[i].View())
    }

    /** The used counts of all chunks, as read one by one without their locks. */
    ghost function Seen(): seq<int>
      reads memChunks
    {
      seq(|memChunks|, i requires 0 <= i < |memChunks| reads memChunks => memChunks[i].usedSlabCount)
    }
  }

  /** One allocator's view of its manager: all chunks, its slabs and those of its additional one. */
  datatype Extra = Extra(chunk: nat, held: Holder)

  datatype AllocatorView = AllocatorView(chunks: seq<Chunk>, held: Holder, addl: Option<Extra>, total: nat)

  function Counts(chunks: seq<Chunk>): seq<int> {
    seq(|chunks|, i requires 0 <= i < |chunks| => chunks[i].usedCount)
  }

  function CountRoutedIn(c: Chunk): Chunk {
    c.(stats := c.stats.(routed := c.stats.routed + 1))
  }

  predicate ViewOk(cfg: Config, own: nat, v: AllocatorView) {
    && ValidConfig(cfg) && own < |v.chunks| && HolderFits(cfg, v.held)
    && (v.addl.Some? ==> v.addl.value.chunk < |v.chunks| && HolderFits(cfg, v.addl.value.held))
  }

  function ChooseAdditional(cfg: Config, own: nat, additional: bool, v: AllocatorView, size: nat): Option<Extra>
    requires ViewOk(cfg, own, v)
  {
    if additional || v.addl.Some? then v.addl
    else
      match BestChunk(Counts(v.chunks), own, size / cfg.slabSize + 5, cfg.slabCount)
      case None => None
      case Some(c) => Some(Extra(c, EMPTY_HOLDER))
  }

  /** A whole Allocate that no step of another allocator interrupts. */
  function AllocateWhole(cfg: Config, own: nat, additional: bool, v: AllocatorView, size: nat)
    : (AllocatorView, Option<Region>, bool)
    requires ViewOk(cfg, own, v)
  {
    if size <= MIN_SLAB_ALLOC then (v, None, false)
    else
      var o := Slabs.AllocateSlab(cfg, v.chunks[own], v.held, additional, size);
      var addl := ChooseAdditional(cfg, own, additional, v, size);
      if o.region.Some? then
        (AllocatorView(v.chunks[own := o.chunk], o.holder, v.addl, v.total + 1), o.region, false)
      else if addl.None? then
        (AllocatorView(v.chunks[own := o.chunk], o.holder, None, v.total + 1), None, false)
      else
        var chunks := v.chunks[own := CountRoutedIn(o.chunk)];
        var Extra(c, held) := addl.value;
        var o2 := Slabs.AllocateSlab(cfg, chunks[c], held, true, size);
        (AllocatorView(chunks[c := o2.chunk], o.holder, Some(Extra(c, o2.holder)), v.total + 1), o2.region, o2.region.Some?)
  }

  // ----- when an allocation spills, in used counts and sizes

  /** Chunk j is another one, with room for the size and some more. */
  predicate HasRoom(cfg: Config, own: nat, v: AllocatorView, size: nat, j: nat)
    requires ValidConfig(cfg)
  {
    j < |v.chunks| && j != own && cfg.slabCount - v.chunks[j].usedCount >= size / cfg.slabSize + 5
  }

  predicate Accurate(cfg: Config, c: Chunk) {
    |c.used| == cfg.slabCount && c.usedCount == CountUsed(c.used)
  }

  predicate TookLastFreeAt(cfg: Config, c: Chunk, after: Chunk, at: nat) {
    LastFreeSlab(c.used, at) && after.used == c.used[at := true]
  }

  /** The last free slab of c has been taken, and the region starts where it does. */
  ghost predicate TookLastFree(cfg: Config, c: Chunk, after: Chunk, h: Holder, r: Option<Region>) {
    exists at: nat :: TookLastFreeAt(cfg, c, after, at) && h.slabs == [at] && r.Some? && r.value.start == at * cfg.slabSize
  }

  /** Requests of up to 96 bytes never use slabs; others are counted; an additional allocator does not spill. */
  lemma AllocateWholeBasics(cfg: Config, own: nat, additional: bool, v: AllocatorView, size: nat)
    requires ViewOk(cfg, own, v)
    ensures var (w, r, routed) := AllocateWhole(cfg, own, additional, v, size);
            && (size <= 96 ==> w == v && r.None?)
            && (size > 96 ==> w.total == v.total + 1)
            && (additional && v.addl.None? ==> w.addl.None?)
            && (v.addl.Some? ==> w.addl.Some? && w.addl.value.chunk == v.addl.value.chunk)
            && (routed ==> r.Some? && w.addl.Some?)
            && (r.Some? && !routed ==> w.addl == v.addl && forall j :: 0 <= j < |v.chunks| && j != own ==> w.chunks[j] == v.chunks[j])
  {
  }

  /**
   After a failure in its own chunk an allocator gets an additional one exactly when some
   other chunk has the room, on the one with most of it.
  */
  lemma SpillsIff(cfg: Config, own: nat, v: AllocatorView, size: nat)
    requires ViewOk(cfg, own, v) && size > 96 && v.addl.None?
    requires Slabs.AllocateSlab(cfg, v.chunks[own], v.held, false, size).region.None?
    ensures var w := AllocateWhole(cfg, own, false, v, size).0;
            && (w.addl.Some? <==> exists j: nat :: HasRoom(cfg, own, v, size, j))
            && (w.addl.Some? ==>
                  && HasRoom(cfg, own, v, size, w.addl.value.chunk)
                  && forall j :: 0 <= j < |v.chunks| && j != own ==> v.chunks[w.addl.value.chunk].usedCount <= v.chunks[j].usedCount)
  {
    hide Slabs.AllocateSlab, HolderFits;
    var best := BestChunk(Counts(v.chunks), own, size / cfg.slabSize + 5, cfg.slabCount);
    if best.Some? {
      assert HasRoom(cfg, own, v, size, best.value);
      forall j | 0 <= j < |v.chunks| && j != own ensures v.chunks[best.value].usedCount <= v.chunks[j].usedCount {
        assert Counts(v.chunks)[j] == v.chunks[j].usedCount;
      }
    } else {
      forall j: nat | j < |v.chunks| ensures !HasRoom(cfg, own, v, size, j) {
        assert Counts(v.chunks)[j] == v.chunks[j].usedCount;
      }
    }
  }

  /**
   The request is then served there: at most one slab always, in the last free one, and
   several exactly when that chunk has a run of so many.
  */
  lemma SpillServes(cfg: Config, own: nat, v: AllocatorView, size: nat, n: nat)
    requires ViewOk(cfg, own, v) && size > 96 && v.addl.None?
    requires forall j :: 0 <= j < |v.chunks| ==> Accurate(cfg, v.chunks[j])
    requires n > 0 && (n - 1) * cfg.slabSize < size <= n * cfg.slabSize
    requires Slabs.AllocateSlab(cfg, v.chunks[own], v.held, false, size).region.None?
    ensures var (w, r, routed) := AllocateWhole(cfg, own, false, v, size);
            w.addl.Some? ==>
              var c := w.addl.value.chunk;
              && c < |v.chunks| && routed == r.Some?
              && (r.Some? <==> n == 1 || exists at :: FreeRun(v.chunks[c].used, at, n))
              && (r.Some? ==> w.chunks[c].usedCount == v.chunks[c].usedCount + n && r.value.size == size)
              && (n == 1 ==> TookLastFree(cfg, v.chunks[c], w.chunks[c], w.addl.value.held, r))
  {
    hide Slabs.AllocateSlab, SlabStart, SlabsNeeded, SlabFree, CountUsed, FreeRun;
    var (w, r, routed) := AllocateWhole(cfg, own, false, v, size);
    if w.addl.Some? {
      SpillsIff(cfg, own, v, size);
      var c := w.addl.value.chunk;
      ServesInFreshHolder(cfg, v.chunks[c], size, n);
    }
  }

  /** With its own chunk full, a request of at most a slab is served exactly when another chunk has the room. */
  lemma FullChunkSpills(cfg: Config, own: nat, v: AllocatorView, size: nat)
    requires ViewOk(cfg, own, v) && 96 < size <= cfg.slabSize && v.addl.None?
    requires forall j :: 0 <= j < |v.chunks| ==> Accurate(cfg, v.chunks[j])
    requires v.chunks[own].usedCount == cfg.slabCount
    ensures var (w, r, routed) := AllocateWhole(cfg, own, false, v, size);
            && (r.Some? <==> exists j: nat :: HasRoom(cfg, own, v, size, j))
            && routed == r.Some? == w.addl.Some?
            && (r.Some? ==>
                  var c := w.addl.value.chunk;
                  c < |v.chunks| && TookLastFree(cfg, v.chunks[c], w.chunks[c], w.addl.value.held, r))
  {
    hide HasRoom, TookLastFree;
    SlabsNeededLeast(cfg.slabSize, size, 1);
    SpillsIff(cfg, own, v, size);
    SpillServes(cfg, own, v, size, 1);
  }

  lemma ServesInFreshHolder(cfg: Config, c: Chunk, size: nat, n: nat)
    requires ValidConfig(cfg) && Accurate(cfg, c) && size > 0
    requires n > 0 && (n - 1) * cfg.slabSize < size <= n * cfg.slabSize
    requires cfg.slabCount - c.usedCount >= size / cfg.slabSize + 5
    ensures var o := Slabs.AllocateSlab(cfg, c, EMPTY_HOLDER, true, size);
            && (o.region.Some? <==> n == 1 || exists at :: FreeRun(c.used, at, n))
            && (o.region.Some? ==> o.chunk.usedCount == c.usedCount + n && o.region.value.size == size)
            && (n == 1 ==> TookLastFree(cfg, c, o.chunk, o.holder, o.region))
  {
    hide SlabStart, CountUsed, SlabFree, FreeRun;
    SlabsNeededLeast(cfg.slabSize, size, n);
    SlabsFit(cfg.slabSize, size);
    var free := SlabFree(cfg.slabSize, size);
    AllocateSlabFails(cfg, c, EMPTY_HOLDER, true, size);
    if n == 1 {
      var at := LastFree(c.used);
      if at >= 0 { SlabStartIsProduct(cfg.slabSize, at); }
      assert at >= 0 && LastFreeSlab(c.used, at);
      assert TakeRun(EMPTY_HOLDER, at, 1, free) == TakeRun(Holder([at], [free]), at + 1, 0, free);
      assert Take(c.used, at, 1) == c.used[at := true];
      assert TookLastFreeAt(cfg, c, Slabs.AllocateSlab(cfg, c, EMPTY_HOLDER, true, size).chunk, at);
    }
  }

  class Allocator {
    const manager: BSManager
    const memChunk: MemChunk
    const isAdditional: bool
    var slabUsed: seq<nat>
    var slabFreeSpace: seq<nat>
    var addlAllocator: Allocator?
    /** Which chunk of the manager memChunk is. */
    ghost const own: nat

    constructor (manager: BSManager, chunk: nat, isAdditional: bool)
      requires manager.Valid() && chunk < |manager.memChunks|
      ensures Valid() && Held() == EMPTY_HOLDER && addlAllocator == null
      ensures this.manager == manager && own == chunk && this.isAdditional == isAdditional
    {
      this.manager, memChunk, own, this.isAdditional := manager, manager.memChunks[chunk], chunk, isAdditional;
      slabUsed, slabFreeSpace, addlAllocator := [], [], null;
    }

    ghost function Held(): Holder
      reads this
    {
      Holder(slabUsed, slabFreeSpace)
    }

    /** Only the allocator itself, without its additional one. */
    ghost predicate ValidOwn()
      reads this
    {
      && manager.Valid() && own < |manager.memChunks| && memChunk == manager.memChunks[own]
      && memChunk.slabUsed.Length == manager.slabCount
      && HolderFits(manager.Cfg(), Held())
      && forall k :: 0 <= k < |slabUsed| ==> slabUsed[k] < manager.slabCount
    }

    /** An additional allocator never has its own, and works on another chunk. */
    ghost predicate Valid()
      reads this, addlAllocator
    {
      && ValidOwn()
      && (isAdditional ==> addlAllocator == null)
      && (addlAllocator != null ==>
            var x := addlAllocator;
            x != this && x.manager == manager && x.isAdditional && x.addlAllocator == null && x.ValidOwn() && x.own != own)
    }

    // ----- the search loops

    method FindBestTail(size: nat) returns (minKey: int)
      ensures minKey == BestTail(slabFreeSpace, size)
    {
      var minSpace: int := -1;
      minKey := -1;
      var k := 0;
      while k < |slabFreeSpace|
        invariant 0 <= k <= |slabFreeSpace|
        invariant minKey == BestTail(slabFreeSpace[..k], size)
        invariant minSpace == if minKey == -1 then -1 else slabFreeSpace[minKey]
      {
        var v := slabFreeSpace[k];
        assert slabFreeSpace[..k + 1][..k] == slabFreeSpace[..k];
        if v >= size && (minSpace == -1 || v < minSpace) {
          minKey, minSpace := k, v;
        }
        k := k + 1;
      }
      assert slabFreeSpace[..k] == slabFreeSpace;
    }

    method FindLastFree() returns (pos: int)
      ensures pos == LastFree(memChunk.slabUsed[..])
    {
      var used := memChunk.slabUsed;
      pos := used.Length - 1;
      assert used[..pos + 1] == used[..];
      while pos >= 0
        invariant -1 <= pos < used.Length
        invariant LastFree(used[..]) == LastFree(used[..pos + 1])
      {
        if !used[pos] { break; }
        assert used[..pos + 1][..pos] == used[..pos];
        pos := pos - 1;
      }
    }

    /** The lowest run of n free slabs: its start, or -1. */
    method FindFirstRun(n: nat) returns (start: int)
      requires n > 0
      ensures start == match FirstRun(memChunk.slabUsed[..], n, 0) case None => -1 case Some(s) => s
      ensures start >= 0 ==> start + n <= memChunk.slabUsed.Length
    {
      var used := memChunk.slabUsed;
      ghost var all := used[..];
      var freeSlabs, pos := 0, 0;
      while pos < used.Length
        invariant 0 <= freeSlabs <= pos <= used.Length && freeSlabs < n
        invariant forall j :: pos - freeSlabs <= j < pos ==> !all[j]
        invariant pos > freeSlabs ==> all[pos - freeSlabs - 1]
        invariant forall s :: 0 <= s && s + n <= pos ==> !FreeRun(all, s, n)
      {
        if !used[pos] {
          freeSlabs := freeSlabs + 1;
          if freeSlabs == n { break; }
        } else {
          freeSlabs := 0;
        }
        NoRunThrough(all, pos, freeSlabs, n);
        pos := pos + 1;
      }
      if freeSlabs == n {
        start := pos - n + 1;
        assert FreeRun(all, start, n);
      } else {
        start := -1;
      }
    }

    lemma NoRunThrough(all: seq<bool>, pos: nat, freeSlabs: nat, n: nat)
      requires pos < |all| && freeSlabs < n && freeSlabs <= pos + 1
      requires pos + 1 > freeSlabs ==> all[pos - freeSlabs]
      ensures pos + 1 >= n ==> !FreeRun(all, pos + 1 - n, n)
    {
      if pos + 1 >= n { assert all[pos - freeSlabs]; }
    }

    // ----- one locked step

    /** Marks the slabs of an allocation and records them. */
    method TakeSlabs(slabNum: nat, slabsNeeded: nat, slabFree: nat, size: nat) returns (r: Region)
      requires ValidOwn() && slabNum + slabsNeeded <= manager.slabCount && slabFree < manager.slabSize
      modifies this`slabUsed, this`slabFreeSpace, memChunk.slabUsed
      ensures ValidOwn() && Held() == TakeRun(old(Held()), slabNum, slabsNeeded, slabFree)
      ensures memChunk.slabUsed[..] == Take(old(memChunk.slabUsed[..]), slabNum, slabsNeeded)
      ensures r == Region(SlabStart(manager.slabSize, slabNum), size)
    {
      SlabStartIsProduct(manager.slabSize, slabNum);
      var start := slabNum * manager.slabSize;
      var at, left := slabNum, slabsNeeded;
      while left > 0
        invariant ValidOwn() && at + left == slabNum + slabsNeeded
        invariant TakeRun(Held(), at, left, slabFree) == TakeRun(old(Held()), slabNum, slabsNeeded, slabFree)
        invariant memChunk.slabUsed[..] == Take(old(memChunk.slabUsed[..]), slabNum, slabsNeeded - left)
      {
        slabUsed := slabUsed + [at];
        slabFreeSpace := slabFreeSpace + [if left == 1 then slabFree else 0];
        memChunk.slabUsed[at] := true;
        at, left := at + 1, left - 1;
      }
      return Region(start, size);
    }

    method Sizes(size: nat) returns (slabFree: nat, slabsNeeded: nat)
      requires manager.slabSize > 0 && size > 0
      ensures slabFree == SlabFree(manager.slabSize, size) && slabFree < manager.slabSize
      ensures slabsNeeded == SlabsNeeded(manager.slabSize, size) && slabsNeeded > 0
    {
      var slabSize := manager.slabSize;
      slabFree := (slabSize - size % slabSize) % slabSize;
      slabsNeeded := size / slabSize;
      if slabFree > 0 { slabsNeeded := slabsNeeded + 1; }
      SlabsFit(slabSize, size);
    }

    method AllocateSlab(size: nat) returns (r: Option<Region>)
      requires ValidOwn() && size > 0
      modifies this`slabUsed, this`slabFreeSpace, memChunk, memChunk.slabUsed
      ensures ValidOwn()
      ensures var o := Slabs.AllocateSlab(manager.Cfg(), old(memChunk.View()), old(Held()), isAdditional, size);
              memChunk.View() == o.chunk && Held() == o.holder && r == o.region
    {
      hide TakeRun, Take, CountUsed, SlabStart, SlabFree, SlabsNeeded, FreeRun;
      var slabFree, slabsNeeded := Sizes(size);
      if slabsNeeded > manager.slabCount - memChunk.usedSlabCount {
        memChunk.statOom := memChunk.statOom + 1;
        return None;
      }
      if slabsNeeded <= 1 {
        var minKey := FindBestTail(size);
        if minKey > -1 {
          var region := TakeTail(minKey, size);
          return Some(region);
        }
      }
      if slabsNeeded <= 1 {
        var pos := FindLastFree();
        if pos > -1 {
          memChunk.statAllocFullSmall := memChunk.statAllocFullSmall + 1;
          var region := PlaceRun(pos, slabsNeeded, slabFree, size);
          return Some(region);
        }
      }
      if slabsNeeded > 1 {
        var start := FindFirstRun(slabsNeeded);
        if start >= 0 {
          memChunk.statAllocFull := memChunk.statAllocFull + 1;
          var region := PlaceRun(start, slabsNeeded, slabFree, size);
          return Some(region);
        }
      }
      memChunk.statOom := memChunk.statOom + 1;
      return None;
    }

    /** The common part of both placements in free slabs. */
    method PlaceRun(at: nat, slabsNeeded: nat, slabFree: nat, size: nat) returns (r: Region)
      requires ValidOwn() && at + slabsNeeded <= manager.slabCount
      requires slabFree == SlabFree(manager.slabSize, size) && slabFree < manager.slabSize
      requires slabsNeeded == SlabsNeeded(manager.slabSize, size)
      modifies this`slabUsed, this`slabFreeSpace, memChunk, memChunk.slabUsed
      ensures ValidOwn()
      ensures var c := old(memChunk.View());
              var o := UseRun(manager.Cfg(), c, old(Held()), RoutedAlloc(c.stats, isAdditional), size, at);
              memChunk.View() == o.chunk && Held() == o.holder && Some(r) == o.region
    {
      hide TakeRun, Take, SlabStart, SlabFree, SlabsNeeded;
      if isAdditional { memChunk.statRoutedAlloc := memChunk.statRoutedAlloc + 1; }
      memChunk.usedSlabCount := memChunk.usedSlabCount + slabsNeeded;
      r := TakeSlabs(at, slabsNeeded, slabFree, size);
    }

    method TakeTail(k: nat, size: nat) returns (r: Region)
      requires ValidOwn() && k < |slabFreeSpace| && slabFreeSpace[k] >= size
      modifies this`slabFreeSpace, memChunk
      ensures ValidOwn()
      ensures var o := UseTail(manager.Cfg(), old(memChunk.View()), old(Held()), isAdditional, size, k);
              memChunk.View() == o.chunk && Held() == o.holder && Some(r) == o.region
    {
      var minSpace := slabFreeSpace[k];
      slabFreeSpace := slabFreeSpace[k := slabFreeSpace[k] - size];
      var slabNum := slabUsed[k];
      SlabStartIsProduct(manager.slabSize, slabNum);
      var start := slabNum * manager.slabSize + (manager.slabSize - minSpace);
      memChunk.statAllocTail := memChunk.statAllocTail + 1;
      if isAdditional { memChunk.statRoutedAlloc := memChunk.statRoutedAlloc + 1; }
      return Region(start, size);
    }

    /** The locked part of Release, without the additional allocator. */
    method ReleaseOwn()
      requires ValidOwn()
      modifies this`slabUsed, this`slabFreeSpace, memChunk`usedSlabCount, memChunk.slabUsed
      ensures ValidOwn() && Held() == EMPTY_HOLDER
      ensures memChunk.View() == FreeChunk(old(memChunk.View()), old(Held()))
    {
      ghost var before := memChunk.slabUsed[..];
      var k := 0;
      while k < |slabUsed|
        invariant 0 <= k <= |slabUsed| && slabUsed == old(slabUsed)
        invariant memChunk.usedSlabCount == old(memChunk.usedSlabCount)
        invariant memChunk.slabUsed[..] == Clear(before, slabUsed[..k])
      {
        assert forall j :: j in slabUsed[..k + 1] <==> j in slabUsed[..k] || j == slabUsed[k];
        memChunk.slabUsed[slabUsed[k]] := false;
        k := k + 1;
      }
      assert slabUsed[..k] == slabUsed;
      memChunk.usedSlabCount := memChunk.usedSlabCount - |slabUsed|;
      slabUsed, slabFreeSpace := [], [];
    }

    // ----- the whole operations, when no other allocator steps in between

    /** Makes an additional allocator on the chunk with most room, if it may and one has enough. */
    method TakeAdditional(slabNeeded: nat)
      requires Valid()
      modifies this`addlAllocator
      ensures Valid()
      ensures isAdditional || old(addlAllocator) != null ==> addlAllocator == old(addlAllocator)
      ensures !isAdditional && old(addlAllocator) == null ==>
                match BestChunk(manager.Seen(), own, slabNeeded, manager.slabCount)
                case None => addlAllocator == null
                case Some(c) => addlAllocator != null && fresh(addlAllocator) && addlAllocator.own == c
                                && addlAllocator.Held() == EMPTY_HOLDER
    {
      if isAdditional || addlAllocator != null { return; }
      var bestSlab := FindBestChunk(slabNeeded);
      if bestSlab == -1 { return; }
      addlAllocator := new Allocator(manager, bestSlab, true);
    }

    method FindBestChunk(slabNeeded: nat) returns (bestSlab: int)
      requires ValidOwn()
      ensures bestSlab == match BestChunk(manager.Seen(), own, slabNeeded, manager.slabCount) case None => -1 case Some(c) => c
      ensures bestSlab < |manager.memChunks|
    {
      hide BestChunk;
      var chunksFree: int := -1;
      bestSlab := -1;
      NoChunks(own, slabNeeded, manager.slabCount);
      ghost var seen := manager.Seen();
      var i := 0;
      while i < |manager.memChunks|
        invariant 0 <= i <= |manager.memChunks|
        invariant bestSlab == match BestChunk(seen[..i], own, slabNeeded, manager.slabCount) case None => -1 case Some(c) => c
        invariant chunksFree == if bestSlab == -1 then -1 else manager.slabCount - seen[bestSlab]
      {
        BestChunkNext(seen, i, own, slabNeeded, manager.slabCount);
        SameChunk(i);
        if manager.memChunks[i] != memChunk {
          var free := manager.slabCount - manager.memChunks[i].usedSlabCount;
          if free >= slabNeeded && free > chunksFree {
            bestSlab, chunksFree := i, free;
          }
        }
        i := i + 1;
      }
      assert seen[..i] == seen;
    }

    lemma SeenIsCounts()
      requires ValidOwn()
      ensures manager.Seen() == Counts(manager.Views())
    {
    }

    lemma SameChunk(i: nat)
      requires ValidOwn() && i < |manager.memChunks|
      ensures manager.memChunks[i] == memChunk <==> i == own
    {
    }

    ghost function View(): AllocatorView
      requires Valid()
      reads this, addlAllocator, manager, manager.memChunks, set c | c in manager.memChunks :: c.slabUsed
    {
      AllocatorView(manager.Views(), Held(),
                    if addlAllocator == null then None else Some(Extra(addlAllocator.own, addlAllocator.Held())),
                    manager.total)
    }

    /** The first critical section, with its effect on all chunks. */
    method AllocateOwn(size: nat) returns (r: Option<Region>)
      requires ValidOwn() && size > 0
      modifies this`slabUsed, this`slabFreeSpace, memChunk, memChunk.slabUsed
      ensures ValidOwn()
      ensures var o := Slabs.AllocateSlab(manager.Cfg(), old(manager.Views())[own], old(Held()), isAdditional, size);
              manager.Views() == old(manager.Views())[own := o.chunk] && Held() == o.holder && r == o.region
    {
      hide Slabs.AllocateSlab, HolderFits;
      ghost var chunks := manager.Views();
      r := AllocateSlab(size);
      ViewsAfter(chunks, own);
    }

    /** Counts the call, and the first critical section with, after a failure, the choice of an additional allocator. */
    method AllocateFirst(size: nat) returns (r: Option<Region>)
      requires Valid() && size > 0
      modifies this`slabUsed, this`slabFreeSpace, this`addlAllocator, manager`total, memChunk, memChunk.slabUsed
      ensures Valid()
      ensures addlAllocator == old(addlAllocator) || (addlAllocator != null && fresh(addlAllocator))
      ensures var v := old(View());
              var o := Slabs.AllocateSlab(manager.Cfg(), v.chunks[own], v.held, isAdditional, size);
              var addl := if o.region.Some? then v.addl else ChooseAdditional(manager.Cfg(), own, isAdditional, v, size);
              r == o.region && View() == AllocatorView(v.chunks[own := o.chunk], o.holder, addl, v.total + 1)
    {
      hide Slabs.AllocateSlab, HolderFits;
      ghost var v := View();
      manager.total := manager.total + 1;
      r := AllocateOwn(size);
      if r.Some? { return; }
      FailureKeepsCounts(manager.Cfg(), v.chunks, own, v.held, isAdditional, size);
      AfterFailure(size);
    }

    /** The choice of an additional allocator, when there is none and there may be one. */
    method AfterFailure(size: nat)
      requires Valid()
      modifies this`addlAllocator
      ensures Valid()
      ensures addlAllocator == old(addlAllocator) || (addlAllocator != null && fresh(addlAllocator))
      ensures View() == old(View()).(addl := ChooseAdditional(manager.Cfg(), own, isAdditional, old(View()), size))
    {
      hide HolderFits, BestChunk;
      SeenIsCounts();
      if addlAllocator == null && !isAdditional {
        TakeAdditional(size / manager.slabSize + 5);
      }
    }

    /** Both critical sections of Allocate; no region means the memory comes from the system allocator. */
    method Allocate(size: nat) returns (r: Option<Region>, routed: bool)
      requires Valid()
      modifies this, addlAllocator, manager`total
      modifies manager.memChunks, set c | c in manager.memChunks :: c.slabUsed
      ensures Valid()
      ensures (View(), r, routed) == AllocateWhole(manager.Cfg(), own, isAdditional, old(View()), size)
    {
      hide Slabs.AllocateSlab, HolderFits, ChooseAdditional;
      routed := false;
      if size <= MIN_SLAB_ALLOC { return None, false; }
      ghost var v := View();
      r := AllocateFirst(size);
      if r.Some? || addlAllocator == null { return; }
      ghost var w := View();
      assert w.chunks[own := CountRoutedIn(w.chunks[own])] == v.chunks[own := CountRoutedIn(w.chunks[own])];
      r := AllocateRouted(size);
      routed := r.Some?;
    }

    /** Counts the routing, and the critical section on the additional allocator's chunk. */
    method AllocateRouted(size: nat) returns (r: Option<Region>)
      requires Valid() && addlAllocator != null && size > 0
      modifies memChunk`statRouted, addlAllocator`slabUsed, addlAllocator`slabFreeSpace
      modifies addlAllocator.memChunk, addlAllocator.memChunk.slabUsed
      ensures Valid()
      ensures var x := addlAllocator;
              var chunks := old(manager.Views())[own := CountRoutedIn(old(manager.Views())[own])];
              var o := Slabs.AllocateSlab(manager.Cfg(), chunks[x.own], old(x.Held()), true, size);
              r == o.region &&
              View() == AllocatorView(chunks[x.own := o.chunk], old(Held()), Some(Extra(x.own, o.holder)), old(manager.total))
    {
      hide Slabs.AllocateSlab, HolderFits;
      ghost var chunks := manager.Views();
      DistinctChunks(addlAllocator.own);
      memChunk.statRouted := memChunk.statRouted + 1;
      ViewsAfter(chunks, own);
      r := addlAllocator.AllocateOwn(size);
    }

    /** Only chunk k has changed. */
    lemma ViewsAfter(views: seq<Chunk>, k: nat)
      requires manager.Valid() && k < |manager.memChunks| == |views|
      requires forall j :: 0 <= j < |views| && j != k ==> manager.memChunks[j].View() == views[j]
      ensures manager.Views() == views[k := manager.memChunks[k].View()]
    {
    }

    /** Releases everything held here and by the additional allocator, which is dropped. */
    method Release()
      requires Valid()
      modifies this, memChunk, memChunk.slabUsed
      modifies addlAllocator
      modifies if addlAllocator == null then {} else {addlAllocator.memChunk}
      modifies if addlAllocator == null then {} else {addlAllocator.memChunk.slabUsed}
      ensures Valid() && addlAllocator == null && Held() == EMPTY_HOLDER
      ensures memChunk.View() == FreeChunk(old(memChunk.View()), old(Held()))
      ensures old(addlAllocator) != null ==>
                var x := old(addlAllocator);
                x.Held() == EMPTY_HOLDER && x.memChunk.View() == FreeChunk(old(x.memChunk.View()), old(x.Held()))
      decreases if addlAllocator == null then 0 else 1
    {
      assert Clear(memChunk.slabUsed[..], []) == memChunk.slabUsed[..];
      if |slabUsed| == 0 && addlAllocator == null { return; }
      ReleaseOwn();
      var toClean := addlAllocator;
      addlAllocator := null;
      if toClean != null {
        DistinctChunks(toClean.own);
        toClean.Release();
      }
    }

    lemma DistinctChunks(i: nat)
      requires ValidOwn() && i < |manager.memChunks| && i != own
      ensures manager.memChunks[i] != memChunk && manager.memChunks[i].slabUsed != memChunk.slabUsed
    {
    }
  }

  lemma FailureKeepsCounts(cfg: Config, chunks: seq<Chunk>, own: nat, h: Holder, additional: bool, size: nat)
    requires ValidConfig(cfg) && HolderFits(cfg, h) && own < |chunks|
    ensures var o := Slabs.AllocateSlab(cfg, chunks[own], h, additional, size);
            o.region.None? ==> Counts(chunks[own := o.chunk]) == Counts(chunks)
  {
    var o := Slabs.AllocateSlab(cfg, chunks[own], h, additional, size);
    assert o.region.None? ==> o.chunk.usedCount == chunks[own].usedCount;
  }

  lemma NoChunks(own: nat, need: nat, slabCount: nat)
    ensures BestChunk([], own, need, slabCount) == None
  {
  }

  lemma BestChunkNext(seen: seq<int>, i: nat, own: nat, need: nat, slabCount: nat)
    requires i < |seen|
    ensures var best := BestChunk(seen[..i], own, need, slabCount);
            BestChunk(seen[..i + 1], own, need, slabCount) ==
            if i != own && slabCount - seen[i] >= need && (best.None? || seen[i] < seen[best.value]) then Some(i) else best
  {
    assert seen[..i + 1][..i] == seen[..i];
  }

  // ----- the whole operation is the system's two steps

  function Project(cfg: Config, sys: System, a: nat): AllocatorView
    requires SysShape(cfg, sys) && a < |sys.allocators|
  {
    var al, parts := sys.allocators[a], sys.arena.parts;
    var addl := match al.addl case None => None case Some(x) => Some(Extra(parts[x].chunk, parts[x].holder));
    AllocatorView(sys.arena.chunks, parts[al.main].holder, addl, sys.total)
  }

  /** AllocateBegin, and AllocateFinish when it is due. */
  ghost function AllocateSteps(cfg: Config, sys: System, a: nat, size: nat): (r: System)
    requires SysInv(cfg, sys) && Enabled(sys, AllocateBegin(a, size, Counts(sys.arena.chunks)))
    ensures SysInv(cfg, r) && |r.allocators| == |sys.allocators|
  {
    var begin := AllocateBegin(a, size, Counts(sys.arena.chunks));
    var s1 := Apply(cfg, sys, begin);
    StepKeepsInv(cfg, sys, begin);
    if s1.allocators[a].phase.Routing? then
      StepKeepsInv(cfg, s1, AllocateFinish(a));
      Apply(cfg, s1, AllocateFinish(a))
    else s1
  }

  /** Uninterrupted, the two steps of the system do what Allocate does. */
  lemma WholeIsTwoSteps(cfg: Config, sys: System, a: nat, size: nat)
    requires SysInv(cfg, sys) && Enabled(sys, AllocateBegin(a, size, Counts(sys.arena.chunks)))
    ensures ViewOk(cfg, sys.arena.parts[sys.allocators[a].main].chunk, Project(cfg, sys, a))
    ensures Project(cfg, AllocateSteps(cfg, sys, a, size), a) ==
            AllocateWhole(cfg, sys.arena.parts[sys.allocators[a].main].chunk, false, Project(cfg, sys, a), size).0
  {
    hide Inv, Slabs.AllocateSlab, Accounted, RoutingCount, HolderFits, BestChunk;
    var s2 := AllocateSteps(cfg, sys, a, size);
  }
}
