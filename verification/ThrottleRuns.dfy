/**
 Whole runs of a throttle against an unbounded log of what it accepted and received. The
 ring never counts less than the log, even when windows are skipped, so the caps hold in
 every run; without skips it counts exactly what the log says.
*/
module ThrottleRuns {
  import opened Bytes
  import opened Throttle

  // ----- the log

  datatype Entry = Accepted(window: int, fn: string) | Received(window: int, bytes: nat)

  /** Accepted requests with lo <= window < hi. */
  function RequestsIn(log: seq<Entry>, lo: int, hi: int): nat {
    if log == [] then 0
    else
      var e := log[|log| - 1];
      RequestsIn(log[..|log| - 1], lo, hi) + if e.Accepted? && lo <= e.window < hi then 1 else 0
  }

  function FnIn(log: seq<Entry>, fn: string, lo: int, hi: int): nat {
    if log == [] then 0
    else
      var e := log[|log| - 1];
      FnIn(log[..|log| - 1], fn, lo, hi) + if e.Accepted? && e.fn == fn && lo <= e.window < hi then 1 else 0
  }

  function DataIn(log: seq<Entry>, lo: int, hi: int): nat {
    if log == [] then 0
    else
      var e := log[|log| - 1];
      DataIn(log[..|log| - 1], lo, hi) + if e.Received? && lo <= e.window < hi then e.bytes else 0
  }

  /** The same for k windows from `lo` on. */
  function RequestsOver(log: seq<Entry>, lo: int, k: nat): nat {
    RequestsIn(log, lo, lo + k)
  }

  function FnOver(log: seq<Entry>, fn: string, lo: int, k: nat): nat {
    FnIn(log, fn, lo, lo + k)
  }

  function DataOver(log: seq<Entry>, lo: int, k: nat): nat {
    DataIn(log, lo, lo + k)
  }

  lemma {:induction false} LogSplit(log: seq<Entry>, fn: string, lo: int, mid: int, hi: int)
    requires lo <= mid <= hi
    ensures RequestsIn(log, lo, hi) == RequestsIn(log, lo, mid) + RequestsIn(log, mid, hi)
    ensures FnIn(log, fn, lo, hi) == FnIn(log, fn, lo, mid) + FnIn(log, fn, mid, hi)
    ensures DataIn(log, lo, hi) == DataIn(log, lo, mid) + DataIn(log, mid, hi)
  {
    if log != [] { LogSplit(log[..|log| - 1], fn, lo, mid, hi); }
  }

  ghost predicate LogBefore(log: seq<Entry>, window: int) {
    forall i :: 0 <= i < |log| ==> log[i].window <= window
  }

  lemma {:induction false} NothingAfter(log: seq<Entry>, fn: string, window: int, lo: int, hi: int)
    requires LogBefore(log, window) && window < lo
    ensures RequestsIn(log, lo, hi) == 0 && FnIn(log, fn, lo, hi) == 0 && DataIn(log, lo, hi) == 0
  {
    if log != [] { NothingAfter(log[..|log| - 1], fn, window, lo, hi); }
  }

  lemma LogAppend(log: seq<Entry>, e: Entry, lo: int, k: nat)
    ensures RequestsOver(log + [e], lo, k) == RequestsOver(log, lo, k) + (if e.Accepted? && lo <= e.window < lo + k then 1 else 0)
    ensures forall fn ::
              FnOver(log + [e], fn, lo, k) ==
              FnOver(log, fn, lo, k) + (if e.Accepted? && e.fn == fn && lo <= e.window < lo + k then 1 else 0)
    ensures DataOver(log + [e], lo, k) == DataOver(log, lo, k) + (if e.Received? && lo <= e.window < lo + k then e.bytes else 0)
  {
    assert (log + [e])[..|log|] == log;
  }

  lemma NothingYet(log: seq<Entry>, window: int, v: int)
    requires LogBefore(log, window) && window < v
    ensures RequestsOver(log, v, 1) == 0 && DataOver(log, v, 1) == 0
    ensures forall fn :: FnOver(log, fn, v, 1) == 0
  {
    NothingAfter(log, "", window, v, v + 1);
    forall fn ensures FnOver(log, fn, v, 1) == 0 { NothingAfter(log, fn, window, v, v + 1); }
  }

  // ----- slots

  lemma SlotOf(x: int, n: nat, q: int, r: nat)
    requires n > 0 && r < n && x == n * q + r
    ensures Slot(x, n) == r
  {
    ModUnique(x, n, q, r);
  }

  /** Windows less than a ring apart have different slots. */
  lemma SlotsDiffer(v: int, w: int, n: nat)
    requires n > 0 && v < w < v + n
    ensures Slot(v, n) != Slot(w, n)
  {
    var d := w / n - v / n;
    if Slot(v, n) == Slot(w, n) {
      assert n * d == w - v;
      MulAtLeast(n, d);
      MulAtLeast(n, -d);
      assert false;
    }
  }

  lemma SlotPrev(w: int, n: nat)
    requires n > 0
    ensures Slot(w - 1, n) == Prev(Slot(w, n), n)
  {
    var q, r := w / n, w % n;
    assert w == n * q + r;
    if r == 0 {
      assert w - 1 == n * (q - 1) + (n - 1);
      SlotOf(w - 1, n, q - 1, n - 1);
    } else {
      SlotOf(w - 1, n, q, r - 1);
    }
  }

  // ----- a throttle with its log

  datatype Tracked = Tracked(s: State, window: int, log: seq<Entry>)

  datatype Event = Request(fn: string) | Receive(bytes: nat) | Tick(ts: nat)

  ghost function Step(t: Tracked, ev: Event): (r: Tracked)
    requires Valid(t.s)
    ensures Valid(r.s)
  {
    match ev
    case Request(fn) =>
      var (s, ok) := OnRequest(t.s, fn);
      Tracked(s, t.window, if ok then t.log + [Accepted(t.window, fn)] else t.log)
    case Receive(bytes) => Tracked(OnReceive(t.s, bytes), t.window, t.log + [Received(t.window, bytes)])
    case Tick(ts) => Tracked(OnMaintenance(t.s, ts), ts / t.s.windowSize, t.log)
  }

  /** What the slot of window v has counted, compared with the log. */
  ghost predicate CountsAtLeast(t: Tracked, v: int)
    requires Valid(t.s)
  {
    var st := t.s.ring[Slot(v, |t.s.ring|)];
    && st.requests >= RequestsOver(t.log, v, 1)
    && (forall fn :: Get(st.byFn, fn) >= FnOver(t.log, fn, v, 1))
    && st.data >= DataOver(t.log, v, 1)
  }

  ghost predicate CountsExactly(t: Tracked, v: int)
    requires Valid(t.s)
  {
    var st := t.s.ring[Slot(v, |t.s.ring|)];
    && st.requests == RequestsOver(t.log, v, 1)
    && (forall fn :: Get(st.byFn, fn) == FnOver(t.log, fn, v, 1))
    && st.data == DataOver(t.log, v, 1)
  }

  ghost predicate InStep(t: Tracked) {
    && Valid(t.s) && t.s.pos == Slot(t.window, |t.s.ring|) && LogBefore(t.log, t.window)
    && forall v :: t.window - |t.s.ring| < v <= t.window ==> CountsAtLeast(t, v)
  }

  ghost predicate Exact(t: Tracked) {
    InStep(t) && forall v :: t.window - |t.s.ring| < v <= t.window ==> CountsExactly(t, v)
  }

  // ----- sums over the ring and over the log

  lemma {:induction false} SumsAtLeast(t: Tracked, w: int, k: nat, fn: string)
    requires Valid(t.s) && t.window - |t.s.ring| <= w - k && w <= t.window
    requires forall v :: t.window - |t.s.ring| < v <= t.window ==> CountsAtLeast(t, v)
    ensures var pos := Slot(w, |t.s.ring|);
            && SumRequests(t.s.ring, pos, k) >= RequestsIn(t.log, w - k + 1, w + 1)
            && SumFn(t.s.ring, pos, k, fn) >= FnIn(t.log, fn, w - k + 1, w + 1)
            && SumData(t.s.ring, pos, k) >= DataIn(t.log, w - k + 1, w + 1)
    decreases k
  {
    hide Slot;
    if k == 0 {
      EmptyRange(t.log, fn, w + 1);
    } else {
      SlotPrev(w, |t.s.ring|);
      SumsAtLeast(t, w - 1, k - 1, fn);
      LogSplit(t.log, fn, w - k + 1, w, w + 1);
      assert CountsAtLeast(t, w);
    }
  }

  lemma {:induction false} SumsExactly(t: Tracked, w: int, k: nat, fn: string)
    requires Valid(t.s) && t.window - |t.s.ring| <= w - k && w <= t.window
    requires forall v :: t.window - |t.s.ring| < v <= t.window ==> CountsExactly(t, v)
    ensures var pos := Slot(w, |t.s.ring|);
            && SumRequests(t.s.ring, pos, k) == RequestsIn(t.log, w - k + 1, w + 1)
            && SumFn(t.s.ring, pos, k, fn) == FnIn(t.log, fn, w - k + 1, w + 1)
            && SumData(t.s.ring, pos, k) == DataIn(t.log, w - k + 1, w + 1)
    decreases k
  {
    hide Slot;
    if k == 0 {
      EmptyRange(t.log, fn, w + 1);
    } else {
      SlotPrev(w, |t.s.ring|);
      SumsExactly(t, w - 1, k - 1, fn);
      LogSplit(t.log, fn, w - k + 1, w, w + 1);
      assert CountsExactly(t, w);
    }
  }

  lemma {:induction false} EmptyRange(log: seq<Entry>, fn: string, lo: int)
    ensures RequestsIn(log, lo, lo) == 0 && FnIn(log, fn, lo, lo) == 0 && DataIn(log, lo, lo) == 0
  {
    if log != [] { EmptyRange(log[..|log| - 1], fn, lo); }
  }

  // ----- the ring keeps up with the log

  predicate Forward(t: Tracked, ev: Event)
    requires Valid(t.s)
  {
    ev.Tick? ==> ev.ts / t.s.windowSize >= t.window
  }

  predicate NoSkip(t: Tracked, ev: Event)
    requires Valid(t.s)
  {
    ev.Tick? ==> t.window <= ev.ts / t.s.windowSize <= t.window + 1
  }

  lemma CountInSlot(t: Tracked, e: Entry, st: Stat, t': Tracked)
    requires InStep(t) && e.window == t.window
    requires st == match e case Accepted(_, fn) => CountRequest(t.s.ring[t.s.pos], fn)
                           case Received(_, bytes) => t.s.ring[t.s.pos].(data := t.s.ring[t.s.pos].data + bytes)
    requires Valid(t'.s) && t'.s.ring == t.s.ring[t.s.pos := st] && t'.s.pos == t.s.pos
    requires t'.window == t.window && t'.log == t.log + [e]
    ensures InStep(t') && (Exact(t) ==> Exact(t'))
  {
    hide Slot;
    var n := |t.s.ring|;
    forall v | t.window - n < v <= t.window
      ensures CountsAtLeast(t', v) && (Exact(t) ==> CountsExactly(t', v))
    {
      assert CountsAtLeast(t, v) && (Exact(t) ==> CountsExactly(t, v));
      LogAppend(t.log, e, v, 1);
      if v < t.window { SlotsDiffer(v, t.window, n); }
    }
  }

  /** After the clock moves on, the slots of the windows in between keep what they had. */
  lemma TickSlots(t: Tracked, ts: nat, v: int)
    requires InStep(t) && Forward(t, Tick(ts))
    requires var w := ts / t.s.windowSize; w - |t.s.ring| < v <= w
    ensures var w, n := ts / t.s.windowSize, |t.s.ring|;
            var ring := OnMaintenance(t.s, ts).ring;
            ring[Slot(v, n)] == if v == w && Slot(w, n) != t.s.pos then EMPTY_STAT else t.s.ring[Slot(v, n)]
  {
    var w, n := ts / t.s.windowSize, |t.s.ring|;
    if v < w { SlotsDiffer(v, w, n); }
  }

  lemma TickInStep(t: Tracked, ts: nat)
    requires InStep(t) && Forward(t, Tick(ts))
    ensures InStep(Step(t, Tick(ts)))
  {
    hide Slot, OnMaintenance;
    var t' := Step(t, Tick(ts));
    TickShape(t, ts);
    var n := |t.s.ring|;
    forall v | t'.window - n < v <= t'.window ensures CountsAtLeast(t', v) {
      TickSlots(t, ts, v);
      if v > t.window {
        NothingYet(t.log, t.window, v);
      } else {
        assert CountsAtLeast(t, v);
      }
    }
  }

  lemma TickShape(t: Tracked, ts: nat)
    requires InStep(t) && Forward(t, Tick(ts))
    ensures var t' := Step(t, Tick(ts));
            && Valid(t'.s) && |t'.s.ring| == |t.s.ring| && t'.s.pos == Slot(t'.window, |t.s.ring|)
            && t'.s.windowSize == t.s.windowSize && t'.s.limiters == t.s.limiters
            && t'.log == t.log && LogBefore(t.log, t'.window)
  {
  }

  lemma StepInStep(t: Tracked, ev: Event)
    requires InStep(t) && Forward(t, ev)
    ensures InStep(Step(t, ev))
  {
    match ev
    case Request(fn) =>
      if !t.s.throttled {
        CountInSlot(t, Accepted(t.window, fn), CountRequest(t.s.ring[t.s.pos], fn), Step(t, ev));
      }
    case Receive(bytes) =>
      CountInSlot(t, Received(t.window, bytes), t.s.ring[t.s.pos].(data := t.s.ring[t.s.pos].data + bytes), Step(t, ev));
    case Tick(ts) => TickInStep(t, ts);
  }

  /** The windows whose slots an advance passes over without clearing them. */
  predicate PassedOver(t: Tracked, w: int, v: int)
    requires Valid(t.s)
  {
    && t.window < v <= w && w - |t.s.ring| < v
    && (v < w || Slot(w, |t.s.ring|) == t.s.pos)
  }

  ghost predicate Blank(st: Stat) {
    st.requests == 0 && st.data == 0 && forall fn :: Get(st.byFn, fn) == 0
  }

  /** Moving on keeps the ring exact exactly when every slot passed over is blank. */
  lemma TickExactIff(t: Tracked, ts: nat)
    requires Exact(t) && Forward(t, Tick(ts))
    ensures var w := ts / t.s.windowSize;
            Exact(Step(t, Tick(ts))) <==>
            forall v :: PassedOver(t, w, v) ==> Blank(t.s.ring[Slot(v, |t.s.ring|)])
  {
    hide Slot, OnMaintenance;
    TickInStep(t, ts);
    TickShape(t, ts);
    var t', w, n := Step(t, Tick(ts)), ts / t.s.windowSize, |t.s.ring|;
    forall v | w - n < v <= w
      ensures CountsExactly(t', v) <==> (PassedOver(t, w, v) ==> Blank(t.s.ring[Slot(v, n)]))
    {
      TickSlots(t, ts, v);
      if v > t.window {
        NothingYet(t.log, t.window, v);
      } else {
        assert CountsExactly(t, v);
      }
    }
    forall v | PassedOver(t, w, v) ensures w - n < v <= w {}
  }

  /** A clock that never skips a window, over at least two slots, passes over none. */
  lemma StepExact(t: Tracked, ev: Event)
    requires Exact(t) && NoSkip(t, ev) && |t.s.ring| >= 2
    ensures Exact(Step(t, ev))
  {
    match ev
    case Request(fn) =>
      if !t.s.throttled {
        CountInSlot(t, Accepted(t.window, fn), CountRequest(t.s.ring[t.s.pos], fn), Step(t, ev));
      }
    case Receive(bytes) =>
      CountInSlot(t, Received(t.window, bytes), t.s.ring[t.s.pos].(data := t.s.ring[t.s.pos].data + bytes), Step(t, ev));
    case Tick(ts) =>
      var w := ts / t.s.windowSize;
      TickExactIff(t, ts);
      if w == t.window + 1 { SlotsDiffer(t.window, w, |t.s.ring|); }
  }

  // ----- the caps

  /** A limit below 1 still lets the very first request pass, as a new throttle is open. */
  function Cap(l: Limiter): nat {
    if l.maximum < 1 then 1 else l.maximum
  }

  /** An open throttle is below every request limit, and no windows in the log exceed one. */
  ghost predicate Capped(t: Tracked) {
    && InStep(t)
    && forall i :: 0 <= i < |t.s.limiters| ==>
         var l := t.s.limiters[i];
         && (!t.s.throttled && !l.kind.DataReceived? ==> Amount(t.s, l) < Cap(l))
         && WithinCap(t, l)
  }

  ghost predicate WithinCap(t: Tracked, l: Limiter)
    requires Valid(t.s)
  {
    l.windows <= |t.s.ring| ==>
      && (l.kind.Requests? ==> forall lo :: RequestsOver(t.log, lo, l.windows) <= Cap(l))
      && (l.kind.RequestsPerFn? ==> forall lo, fn :: FnOver(t.log, fn, lo, l.windows) <= Cap(l))
  }

  /** Below a limit by the ring, there is room for one more request in any windows of the log. */
  lemma RoomForOne(t: Tracked, l: Limiter, fn: string, lo: int)
    requires InStep(t) && l.windows <= |t.s.ring| && Amount(t.s, l) < Cap(l)
    requires lo <= t.window < lo + l.windows
    ensures l.kind.Requests? ==> RequestsOver(t.log, lo, l.windows) < Cap(l)
    ensures l.kind.RequestsPerFn? ==> FnOver(t.log, fn, lo, l.windows) < Cap(l)
  {
    hide Slot;
    var first := t.window - l.windows + 1;
    SumsAtLeast(t, t.window, l.windows, fn);
    if l.kind.RequestsPerFn? { PerFnAmount(t.s, l); }
    LogSplit(t.log, fn, first, lo, t.window + 1);
    LogSplit(t.log, fn, lo, t.window + 1, lo + l.windows);
    NothingAfter(t.log, fn, t.window, t.window + 1, lo + l.windows);
  }

  lemma AcceptedWithinCap(t: Tracked, l: Limiter, fn: string, t': Tracked)
    requires InStep(t) && WithinCap(t, l) && (!l.kind.DataReceived? ==> Amount(t.s, l) < Cap(l))
    requires Valid(t'.s) && |t'.s.ring| == |t.s.ring| && t'.log == t.log + [Accepted(t.window, fn)]
    ensures WithinCap(t', l)
  {
    if l.windows <= |t.s.ring| && !l.kind.DataReceived? {
      var e := Accepted(t.window, fn);
      forall lo ensures l.kind.Requests? ==> RequestsOver(t'.log, lo, l.windows) <= Cap(l) {
        LogAppend(t.log, e, lo, l.windows);
        if lo <= t.window < lo + l.windows { RoomForOne(t, l, fn, lo); }
      }
      forall lo, f ensures l.kind.RequestsPerFn? ==> FnOver(t'.log, f, lo, l.windows) <= Cap(l) {
        LogAppend(t.log, e, lo, l.windows);
        if lo <= t.window < lo + l.windows { RoomForOne(t, l, f, lo); }
      }
    }
  }

  lemma ReceivedWithinCap(t: Tracked, l: Limiter, bytes: nat, t': Tracked)
    requires Valid(t.s) && WithinCap(t, l)
    requires Valid(t'.s) && |t'.s.ring| == |t.s.ring| && t'.log == t.log + [Received(t.window, bytes)]
    ensures WithinCap(t', l)
  {
    var e := Received(t.window, bytes);
    forall lo ensures RequestsOver(t'.log, lo, l.windows) == RequestsOver(t.log, lo, l.windows) {
      LogAppend(t.log, e, lo, l.windows);
    }
    forall lo, f ensures FnOver(t'.log, f, lo, l.windows) == FnOver(t.log, f, lo, l.windows) {
      LogAppend(t.log, e, lo, l.windows);
    }
  }

  lemma {:induction false} DataLeavesRequests(a: seq<Stat>, b: seq<Stat>, pos: nat, k: nat)
    requires |a| == |b| && pos < |a|
    requires forall i :: 0 <= i < |a| ==> a[i].requests == b[i].requests && a[i].byFn == b[i].byFn
    ensures SumRequests(a, pos, k) == SumRequests(b, pos, k) && Tally(a, pos, k) == Tally(b, pos, k)
    decreases k
  {
    if k > 0 { DataLeavesRequests(a, b, Prev(pos, |a|), k - 1); }
  }

  lemma StepCapped(t: Tracked, ev: Event)
    requires Capped(t) && Forward(t, ev)
    ensures Capped(Step(t, ev))
  {
    hide Refresh, Amount, Slot;
    StepInStep(t, ev);
    var t' := Step(t, ev);
    forall i | 0 <= i < |t'.s.limiters|
      ensures var l := t'.s.limiters[i];
              && (!t'.s.throttled && !l.kind.DataReceived? ==> Amount(t'.s, l) < Cap(l))
              && WithinCap(t', l)
    {
      LimiterStep(t, ev, i);
    }
  }

  lemma LimiterStep(t: Tracked, ev: Event, i: nat)
    requires Capped(t) && Forward(t, ev) && InStep(Step(t, ev)) && i < |t.s.limiters|
    ensures Step(t, ev).s.limiters == t.s.limiters
    ensures var t', l := Step(t, ev), t.s.limiters[i];
            && (!t'.s.throttled && !l.kind.DataReceived? ==> Amount(t'.s, l) < Cap(l))
            && WithinCap(t', l)
  {
    hide Slot, Refresh, WithinCap, InStep;
    CappedInStep(t);
    var t', l := Step(t, ev), t.s.limiters[i];
    match ev {
      case Request(fn) =>
        if !t.s.throttled { AcceptedWithinCap(t, l, fn, t'); }
      case Receive(bytes) =>
        ReceivedWithinCap(t, l, bytes, t');
        DataLeavesRequests(t.s.ring, t'.s.ring, t.s.pos, l.windows);
      case Tick(ts) =>
        SameLogWithinCap(t, t', l);
    }
  }

  lemma CappedInStep(t: Tracked)
    requires Capped(t)
    ensures Valid(t.s) && InStep(t)
  {
  }

  lemma SameLogWithinCap(t: Tracked, t': Tracked, l: Limiter)
    requires Valid(t.s) && Valid(t'.s) && WithinCap(t, l) && t'.log == t.log && |t'.s.ring| == |t.s.ring|
    ensures WithinCap(t', l)
  {
  }

  // ----- runs

  /** The throttle after some events. */
  ghost function Run(t: Tracked, evs: seq<Event>): (r: Tracked)
    requires Valid(t.s)
    ensures Valid(r.s)
    decreases |evs|
  {
    if evs == [] then t else Run(Step(t, evs[0]), evs[1..])
  }

  /** The clock never goes back. */
  ghost predicate AllForward(t: Tracked, evs: seq<Event>)
    requires Valid(t.s)
    decreases |evs|
  {
    evs != [] ==> Forward(t, evs[0]) && AllForward(Step(t, evs[0]), evs[1..])
  }

  /** The clock never skips a window. */
  ghost predicate AllNoSkip(t: Tracked, evs: seq<Event>)
    requires Valid(t.s)
    decreases |evs|
  {
    evs != [] ==> NoSkip(t, evs[0]) && AllNoSkip(Step(t, evs[0]), evs[1..])
  }

  function Start(limiters: seq<Limiter>, windowCount: nat, windowSize: nat, now: nat): (t: Tracked)
    requires windowCount > 0 && windowSize > 0
    ensures Valid(t.s)
  {
    Tracked(Fresh(windowCount, windowSize, now).(limiters := limiters), now / windowSize, [])
  }

  lemma {:induction false} BlankSums(ring: seq<Stat>, pos: nat, k: nat)
    requires pos < |ring| && forall i :: 0 <= i < |ring| ==> ring[i] == EMPTY_STAT
    ensures SumRequests(ring, pos, k) == 0 && SumData(ring, pos, k) == 0 && Tally(ring, pos, k) == map[]
    decreases k
  {
    if k > 0 { BlankSums(ring, Prev(pos, |ring|), k - 1); }
  }

  lemma StartCapped(limiters: seq<Limiter>, windowCount: nat, windowSize: nat, now: nat)
    requires windowCount > 0 && windowSize > 0
    ensures var t := Start(limiters, windowCount, windowSize, now); Capped(t) && Exact(t)
  {
    var t := Start(limiters, windowCount, windowSize, now);
    forall i | 0 <= i < |limiters| ensures Amount(t.s, limiters[i]) == 0 {
      BlankSums(t.s.ring, t.s.pos, limiters[i].windows);
    }
  }

  lemma {:induction false} RunCapped(t: Tracked, evs: seq<Event>)
    requires Capped(t) && AllForward(t, evs)
    ensures Capped(Run(t, evs)) && Run(t, evs).s.limiters == t.s.limiters && |Run(t, evs).s.ring| == |t.s.ring|
    decreases |evs|
  {
    if evs != [] {
      StepCapped(t, evs[0]);
      RunCapped(Step(t, evs[0]), evs[1..]);
    }
  }

  /**
   The hard cap: in every run from a new throttle, however windows are skipped, no l.windows
   consecutive windows hold more accepted requests than Cap(l), in all or of one function.
  */
  lemma HardCap(limiters: seq<Limiter>, windowCount: nat, windowSize: nat, now: nat, evs: seq<Event>,
                i: nat, lo: int, fn: string)
    requires windowCount > 0 && windowSize > 0
    requires AllForward(Start(limiters, windowCount, windowSize, now), evs)
    requires i < |limiters| && limiters[i].windows <= windowCount
    ensures var log, l := Run(Start(limiters, windowCount, windowSize, now), evs).log, limiters[i];
            && (l.kind.Requests? ==> RequestsOver(log, lo, l.windows) <= Cap(l))
            && (l.kind.RequestsPerFn? ==> FnOver(log, fn, lo, l.windows) <= Cap(l))
  {
    var t := Start(limiters, windowCount, windowSize, now);
    StartCapped(limiters, windowCount, windowSize, now);
    RunCapped(t, evs);
    assert WithinCap(Run(t, evs), limiters[i]);
  }

  /** With a limit below 1, the first request is one too many. */
  lemma FirstRequestPasses(limiters: seq<Limiter>, windowCount: nat, windowSize: nat, now: nat, i: nat, fn: string)
    requires windowCount > 0 && windowSize > 0 && i < |limiters| && limiters[i].windows > 0
    ensures var t := Step(Start(limiters, windowCount, windowSize, now), Request(fn));
            RequestsOver(t.log, t.window, limiters[i].windows) == 1 && FnOver(t.log, fn, t.window, limiters[i].windows) == 1
  {
    var t0 := Start(limiters, windowCount, windowSize, now);
    LogAppend([], Accepted(t0.window, fn), t0.window, limiters[i].windows);
    assert t0.log == [];
  }

  lemma ClearedByTwoTicks(windowCount: nat, l: Limiter, fn: string)
    requires 2 <= windowCount && l.maximum > 0
    ensures var s := OnRequest(Start([l], windowCount, 1, 0).s, fn).0;
            !OnMaintenance(OnMaintenance(s, 1), windowCount).throttled
  {
    hide Slot, Refresh, CountRequest;
    var s1 := OnRequest(Start([l], windowCount, 1, 0).s, fn).0;
    var s2 := OnMaintenance(s1, 1);
    var s3 := OnMaintenance(s2, windowCount);
    SlotOf(0, windowCount, 0, 0);
    SlotOf(1, windowCount, 0, 1);
    SlotOf(windowCount, windowCount, 1, 0);
    assert s3.ring == s1.ring[1 := EMPTY_STAT][0 := EMPTY_STAT];
    BlankSums(s3.ring, 0, l.windows);
    assert Amount(s3, l) == 0;
  }

  lemma RequestLogged(t: Tracked, fn: string)
    requires Valid(t.s)
    ensures Step(t, Request(fn)).window == t.window
    ensures Step(t, Request(fn)).log == if t.s.throttled then t.log else t.log + [Accepted(t.window, fn)]
  {
  }

  lemma RunOfFour(t: Tracked, evs: seq<Event>)
    requires Valid(t.s) && |evs| == 4
    ensures Run(t, evs) == Step(Step(Step(Step(t, evs[0]), evs[1]), evs[2]), evs[3])
    ensures AllForward(t, evs) <==>
            && Forward(t, evs[0]) && Forward(Step(t, evs[0]), evs[1])
            && Forward(Step(Step(t, evs[0]), evs[1]), evs[2])
            && Forward(Step(Step(Step(t, evs[0]), evs[1]), evs[2]), evs[3])
  {
    hide Step, Forward;
    assert evs[2..] == evs[1..][1..] && evs[3..] == evs[2..][1..] && evs[4..] == evs[3..][1..] == [];
    var t1 := Step(t, evs[0]);
    var t2 := Step(t1, evs[1]);
    var t3 := Step(t2, evs[2]);
    assert AllForward(t3, evs[3..]) == Forward(t3, evs[3]);
    assert AllForward(t2, evs[2..]) == (Forward(t2, evs[2]) && AllForward(t3, evs[3..]));
    assert AllForward(t1, evs[1..]) == (Forward(t1, evs[1]) && AllForward(t2, evs[2..]));
    assert Run(t3, evs[3..]) == Step(t3, evs[3]);
    assert Run(t2, evs[2..]) == Run(t3, evs[3..]);
    assert Run(t1, evs[1..]) == Run(t2, evs[2..]);
  }

  lemma TicksKeepShape(t: Tracked, ts: nat, ts': nat)
    requires Valid(t.s) && t.s.windowSize == 1
    ensures var t1 := Step(t, Tick(ts));
            var t2 := Step(t1, Tick(ts'));
            t1.window == ts && t2.window == ts' && t1.s.windowSize == 1 && t2.log == t1.log == t.log
  {
    hide Slot;
  }

  lemma OneSecondWindows(t: Tracked, fn: string)
    requires Valid(t.s) && t.s.windowSize == 1
    ensures Step(t, Request(fn)).s.windowSize == 1
  {
    hide Slot;
  }

  /** A limiter that spans more windows than a ring of several slots forgets the oldest: a cap of 1 fails. */
  lemma WiderThanRing(kind: Kind, windowCount: nat, windows: nat, fn: string) returns (evs: seq<Event>)
    requires 2 <= windowCount < windows
    ensures AllForward(Start([Limiter(kind, 1, windows)], windowCount, 1, 0), evs)
    ensures var t := Run(Start([Limiter(kind, 1, windows)], windowCount, 1, 0), evs);
            RequestsOver(t.log, 0, windows) == 2 && FnOver(t.log, fn, 0, windows) == 2
  {
    hide OnRequest, OnMaintenance, Amount, Slot, Run, AllForward;
    evs := [Request(fn), Tick(1), Tick(windowCount), Request(fn)];
    var l := Limiter(kind, 1, windows);
    var t0 := Start([l], windowCount, 1, 0);
    var t1 := Step(t0, Request(fn));
    var t3 := Step(Step(t1, Tick(1)), Tick(windowCount));
    RunOfFour(t0, evs);
    RequestLogged(t0, fn);
    OneSecondWindows(t0, fn);
    TicksKeepShape(t1, 1, windowCount);
    ClearedByTwoTicks(windowCount, l, fn);
    RequestLogged(t3, fn);
    LogAppend([], Accepted(0, fn), 0, windows);
    LogAppend([Accepted(0, fn)], Accepted(windowCount, fn), 0, windows);
    assert t1.log == [] + [Accepted(0, fn)];
  }

  // ----- a ring of one slot

  ghost predicate LogFrom(log: seq<Entry>, first: int) {
    forall i :: 0 <= i < |log| ==> first <= log[i].window
  }

  /** A range that holds the whole log counts the most. */
  lemma {:induction false} WholeLog(log: seq<Entry>, fn: string, first: int, last: int, lo: int, hi: int)
    requires LogFrom(log, first) && LogBefore(log, last)
    ensures RequestsIn(log, lo, hi) <= RequestsIn(log, first, last + 1)
    ensures FnIn(log, fn, lo, hi) <= FnIn(log, fn, first, last + 1)
    ensures DataIn(log, lo, hi) <= DataIn(log, first, last + 1)
  {
    if log != [] { WholeLog(log[..|log| - 1], fn, first, last, lo, hi); }
  }

  /** The one slot, which is never cleared, has counted everything since the start. */
  ghost predicate AllInSlot(t: Tracked, first: int) {
    && Valid(t.s) && |t.s.ring| == 1
    && LogFrom(t.log, first) && LogBefore(t.log, t.window) && first <= t.window
    && t.s.ring[0].requests == RequestsIn(t.log, first, t.window + 1)
    && (forall fn :: Get(t.s.ring[0].byFn, fn) == FnIn(t.log, fn, first, t.window + 1))
    && t.s.ring[0].data == DataIn(t.log, first, t.window + 1)
  }

  lemma OneSlotTick(t: Tracked, first: int, ts: nat)
    requires AllInSlot(t, first) && Forward(t, Tick(ts))
    ensures Step(t, Tick(ts)).s == t.s && AllInSlot(Step(t, Tick(ts)), first)
  {
    var t' := Step(t, Tick(ts));
    LaterWindowsEmpty(t.log, "", first, t.window, t'.window);
    forall fn ensures Get(t.s.ring[0].byFn, fn) == FnIn(t.log, fn, first, t'.window + 1) {
      LaterWindowsEmpty(t.log, fn, first, t.window, t'.window);
    }
    assert Slot(t'.window, 1) == t.s.pos;
  }

  lemma LaterWindowsEmpty(log: seq<Entry>, fn: string, first: int, last: int, later: int)
    requires LogBefore(log, last) && first <= last <= later
    ensures RequestsIn(log, first, later + 1) == RequestsIn(log, first, last + 1)
    ensures FnIn(log, fn, first, later + 1) == FnIn(log, fn, first, last + 1)
    ensures DataIn(log, first, later + 1) == DataIn(log, first, last + 1)
  {
    LogSplit(log, fn, first, last + 1, later + 1);
    NothingAfter(log, fn, last, last + 1, later + 1);
  }

  lemma OneSlotStep(t: Tracked, first: int, ev: Event)
    requires AllInSlot(t, first) && Forward(t, ev)
    ensures AllInSlot(Step(t, ev), first)
  {
    hide Slot;
    match ev
    case Request(fn) =>
      if !t.s.throttled {
        CountInOneSlot(t, first, Accepted(t.window, fn), CountRequest(t.s.ring[0], fn), Step(t, ev));
      }
    case Receive(bytes) =>
      CountInOneSlot(t, first, Received(t.window, bytes), t.s.ring[0].(data := t.s.ring[0].data + bytes), Step(t, ev));
    case Tick(ts) => OneSlotTick(t, first, ts);
  }

  lemma CountInOneSlot(t: Tracked, first: int, e: Entry, st: Stat, t': Tracked)
    requires AllInSlot(t, first) && e.window == t.window
    requires st == match e case Accepted(_, fn) => CountRequest(t.s.ring[0], fn)
                           case Received(_, bytes) => t.s.ring[0].(data := t.s.ring[0].data + bytes)
    requires Valid(t'.s) && t'.s.ring == [st] && t'.window == t.window && t'.log == t.log + [e]
    ensures AllInSlot(t', first)
  {
    var k := t.window + 1 - first;
    LogAppend(t.log, e, first, k);
    forall fn ensures Get(st.byFn, fn) == FnIn(t'.log, fn, first, t.window + 1) {
      assert Get(t.s.ring[0].byFn, fn) == FnIn(t.log, fn, first, t.window + 1);
      assert FnOver(t'.log, fn, first, k) == FnOver(t.log, fn, first, k) + if e.Accepted? && e.fn == fn then 1 else 0;
    }
  }

  /** Limits hold for all that the slot has counted, and an open throttle is below them. */
  ghost predicate OneSlotCapped(t: Tracked, first: int) {
    && AllInSlot(t, first)
    && forall i :: 0 <= i < |t.s.limiters| ==> SlotWithin(t.s, t.s.limiters[i])
  }

  ghost predicate SlotWithin(s: State, l: Limiter)
    requires Valid(s) && |s.ring| == 1
  {
    && (!s.throttled && !l.kind.DataReceived? ==> Amount(s, l) < Cap(l))
    && (l.windows > 0 ==>
          && (l.kind.Requests? ==> s.ring[0].requests <= Cap(l))
          && (l.kind.RequestsPerFn? ==> forall fn :: Get(s.ring[0].byFn, fn) <= Cap(l)))
  }

  lemma SlotBelowAmount(s: State, l: Limiter, fn: string)
    requires Valid(s) && |s.ring| == 1 && l.windows > 0
    ensures l.kind.Requests? ==> s.ring[0].requests <= Amount(s, l)
    ensures l.kind.RequestsPerFn? ==> Get(s.ring[0].byFn, fn) <= Amount(s, l)
  {
    if l.kind.RequestsPerFn? { PerFnAmount(s, l); }
    assert SumFn(s.ring, 0, l.windows, fn) == Get(s.ring[0].byFn, fn) + SumFn(s.ring, 0, l.windows - 1, fn);
  }

  lemma SlotWithinStep(t: Tracked, first: int, ev: Event, l: Limiter)
    requires AllInSlot(t, first) && Forward(t, ev) && l in t.s.limiters && SlotWithin(t.s, l)
    requires Valid(Step(t, ev).s) && |Step(t, ev).s.ring| == 1
    ensures SlotWithin(Step(t, ev).s, l)
  {
    hide Slot, Amount, Refresh;
    var t' := Step(t, ev);
    match ev {
      case Request(fn) =>
        if !t.s.throttled {
          if l.windows > 0 {
            SlotBelowAmount(t.s, l, fn);
            forall f ensures l.kind.RequestsPerFn? ==> Get(t'.s.ring[0].byFn, f) <= Cap(l) {
              SlotBelowAmount(t.s, l, f);
            }
          }
          RefreshedBelow(t'.s, t.s.(ring := t.s.ring[t.s.pos := CountRequest(t.s.ring[t.s.pos], fn)]), l);
        }
      case Receive(bytes) => AmountWithoutData(t.s, t'.s, l);
      case Tick(ts) => OneSlotTick(t, first, ts);
    }
  }

  lemma RefreshedBelow(r: State, s: State, l: Limiter)
    requires Valid(s) && r == Refresh(s) && l in s.limiters
    ensures !r.throttled ==> Amount(r, l) < Cap(l)
  {
    hide Slot;
  }

  lemma AmountWithoutData(s: State, s': State, l: Limiter)
    requires Valid(s) && Valid(s') && s'.pos == s.pos && |s'.ring| == |s.ring|
    requires forall i :: 0 <= i < |s.ring| ==> s'.ring[i].requests == s.ring[i].requests && s'.ring[i].byFn == s.ring[i].byFn
    ensures !l.kind.DataReceived? ==> Amount(s', l) == Amount(s, l)
  {
    DataLeavesRequests(s.ring, s'.ring, s.pos, l.windows);
  }

  lemma {:induction false} OneSlotRun(t: Tracked, first: int, evs: seq<Event>)
    requires OneSlotCapped(t, first) && AllForward(t, evs)
    ensures OneSlotCapped(Run(t, evs), first) && Run(t, evs).s.limiters == t.s.limiters
    decreases |evs|
  {
    hide Slot, Amount;
    if evs != [] {
      var t' := Step(t, evs[0]);
      OneSlotStep(t, first, evs[0]);
      LimitersStay(t, evs[0]);
      forall i | 0 <= i < |t'.s.limiters| ensures SlotWithin(t'.s, t'.s.limiters[i]) {
        SlotWithinStep(t, first, evs[0], t.s.limiters[i]);
      }
      OneSlotRun(t', first, evs[1..]);
    }
  }

  lemma LimitersStay(t: Tracked, ev: Event)
    requires Valid(t.s)
    ensures Step(t, ev).s.limiters == t.s.limiters
  {
  }

  lemma OneSlotStart(limiters: seq<Limiter>, windowSize: nat, now: nat)
    requires windowSize > 0
    ensures OneSlotCapped(Start(limiters, 1, windowSize, now), now / windowSize)
  {
    var t := Start(limiters, 1, windowSize, now);
    forall i | 0 <= i < |limiters| ensures Amount(t.s, limiters[i]) == 0 {
      BlankSums(t.s.ring, t.s.pos, limiters[i].windows);
    }
  }

  /**
   In every run with a ring of one slot, the slot holds all that the log does, and every cap
   holds for the whole run.
  */
  lemma OneSlotCountsAll(limiters: seq<Limiter>, windowSize: nat, now: nat, evs: seq<Event>, i: nat, lo: int, fn: string)
    requires windowSize > 0 && i < |limiters|
    requires AllForward(Start(limiters, 1, windowSize, now), evs)
    ensures var t := Run(Start(limiters, 1, windowSize, now), evs);
            && AllInSlot(t, now / windowSize)
            && (limiters[i].kind.Requests? ==> RequestsOver(t.log, lo, limiters[i].windows) <= Cap(limiters[i]))
            && (limiters[i].kind.RequestsPerFn? ==> FnOver(t.log, fn, lo, limiters[i].windows) <= Cap(limiters[i]))
  {
    hide Slot, Amount;
    OneSlotStart(limiters, windowSize, now);
    OneSlotRun(Start(limiters, 1, windowSize, now), now / windowSize, evs);
    var t, l := Run(Start(limiters, 1, windowSize, now), evs), limiters[i];
    if l.windows == 0 {
      EmptyRange(t.log, fn, lo);
    } else {
      assert SlotWithin(t.s, l);
      assert Get(t.s.ring[0].byFn, fn) == FnIn(t.log, fn, now / windowSize, t.window + 1);
      WholeLog(t.log, fn, now / windowSize, t.window, lo, lo + l.windows);
    }
  }

  // ----- exactly which limiters keep their caps

  /** A run after which some windows hold more accepted requests than the limiter's cap. */
  ghost predicate Exceeds(limiters: seq<Limiter>, windowCount: nat, windowSize: nat, now: nat, evs: seq<Event>,
                          i: nat, lo: int, fn: string)
    requires windowCount > 0 && windowSize > 0 && i < |limiters|
  {
    && AllForward(Start(limiters, windowCount, windowSize, now), evs)
    && var log, l := Run(Start(limiters, windowCount, windowSize, now), evs).log, limiters[i];
       || (l.kind.Requests? && RequestsOver(log, lo, l.windows) > Cap(l))
       || (l.kind.RequestsPerFn? && FnOver(log, fn, lo, l.windows) > Cap(l))
  }

  /** Whatever the maximum and the other limiters, no run exceeds the cap. */
  ghost predicate KeepsCap(kind: Kind, windowCount: nat, windows: nat)
    requires windowCount > 0
  {
    forall limiters: seq<Limiter>, windowSize: nat, now: nat, evs: seq<Event>, i: nat, lo: int, fn: string ::
      windowSize > 0 && i < |limiters| && limiters[i].kind == kind && limiters[i].windows == windows ==>
        !Exceeds(limiters, windowCount, windowSize, now, evs, i, lo, fn)
  }

  /** Limiters of some width keep their caps exactly when they fit the ring, or it has one slot. */
  lemma KeepsCapIff(kind: Kind, windowCount: nat, windows: nat)
    requires windowCount > 0 && !kind.DataReceived?
    ensures KeepsCap(kind, windowCount, windows) <==> windows <= windowCount || windowCount == 1
  {
    hide Run, AllForward, RequestsOver, FnOver;
    if windows <= windowCount || windowCount == 1 {
      forall limiters: seq<Limiter>, windowSize: nat, now: nat, evs: seq<Event>, i: nat, lo: int, fn: string
        | windowSize > 0 && i < |limiters| && limiters[i].kind == kind && limiters[i].windows == windows
        ensures !Exceeds(limiters, windowCount, windowSize, now, evs, i, lo, fn)
      {
        if AllForward(Start(limiters, windowCount, windowSize, now), evs) {
          if windows <= windowCount {
            HardCap(limiters, windowCount, windowSize, now, evs, i, lo, fn);
          } else {
            OneSlotCountsAll(limiters, windowSize, now, evs, i, lo, fn);
          }
        }
      }
    } else {
      var evs := WiderThanRing(kind, windowCount, windows, "");
      assert Exceeds([Limiter(kind, 1, windows)], windowCount, 1, 0, evs, 0, 0, "");
    }
  }

  lemma {:induction false} RunExact(t: Tracked, evs: seq<Event>)
    requires Exact(t) && AllNoSkip(t, evs) && |t.s.ring| >= 2
    ensures Exact(Run(t, evs)) && |Run(t, evs).s.ring| == |t.s.ring|
    decreases |evs|
  {
    if evs != [] {
      StepExact(t, evs[0]);
      RunExact(Step(t, evs[0]), evs[1..]);
    }
  }

  /** An exact ring gives every limiter the exact amount of the last l.windows windows of the log. */
  lemma ExactAmounts(t: Tracked, l: Limiter)
    requires Exact(t) && l.windows <= |t.s.ring|
    ensures var lo, hi := t.window - l.windows + 1, t.window + 1;
            && (l.kind.Requests? ==> Amount(t.s, l) == RequestsIn(t.log, lo, hi))
            && (l.kind.DataReceived? ==> Amount(t.s, l) == DataIn(t.log, lo, hi))
            && (l.kind.RequestsPerFn? ==>
                  && (forall fn :: FnIn(t.log, fn, lo, hi) <= Amount(t.s, l))
                  && (Amount(t.s, l) == 0 || exists fn :: FnIn(t.log, fn, lo, hi) == Amount(t.s, l)))
  {
    hide Slot;
    var lo, hi := t.window - l.windows + 1, t.window + 1;
    SumsExactly(t, t.window, l.windows, "");
    if l.kind.RequestsPerFn? {
      PerFnAmount(t.s, l);
      forall fn ensures FnIn(t.log, fn, lo, hi) == SumFn(t.s.ring, t.s.pos, l.windows, fn) {
        SumsExactly(t, t.window, l.windows, fn);
      }
      if Amount(t.s, l) != 0 {
        var fn :| SumFn(t.s.ring, t.s.pos, l.windows, fn) == Amount(t.s, l);
        assert FnIn(t.log, fn, lo, hi) == Amount(t.s, l);
      }
    }
  }

  /**
   The ring refines the log: in every run from a new throttle whose clock skips no window,
   a limiter's amount is exactly what the log holds for its windows.
  */
  lemma RingRefinesLog(limiters: seq<Limiter>, windowCount: nat, windowSize: nat, now: nat, evs: seq<Event>, l: Limiter)
    requires windowCount >= 2 && windowSize > 0 && l.windows <= windowCount
    requires AllNoSkip(Start(limiters, windowCount, windowSize, now), evs)
    ensures var t := Run(Start(limiters, windowCount, windowSize, now), evs);
            var lo, hi := t.window - l.windows + 1, t.window + 1;
            && (l.kind.Requests? ==> Amount(t.s, l) == RequestsIn(t.log, lo, hi))
            && (l.kind.DataReceived? ==> Amount(t.s, l) == DataIn(t.log, lo, hi))
            && (l.kind.RequestsPerFn? ==>
                  && (forall fn :: FnIn(t.log, fn, lo, hi) <= Amount(t.s, l))
                  && (Amount(t.s, l) == 0 || exists fn :: FnIn(t.log, fn, lo, hi) == Amount(t.s, l)))
  {
    hide Amount, RequestsIn, FnIn, DataIn, Exact, InStep, Slot;
    var t0 := Start(limiters, windowCount, windowSize, now);
    StartCapped(limiters, windowCount, windowSize, now);
    RunExact(t0, evs);
    ExactAmounts(Run(t0, evs), l);
  }

  /** Skipping whole turns of the ring leaves old counts standing as if they were new. */
  lemma SkipOvercounts(windowCount: nat, fn: string)
    requires windowCount > 0
    ensures var l := Limiter(Requests, 5, 1);
            var t0 := Start([l], windowCount, 1, 0);
            var t := Step(Step(t0, Request(fn)), Tick(windowCount));
            Amount(t.s, l) == 1 && RequestsOver(t.log, t.window, 1) == 0
  {
    var l := Limiter(Requests, 5, 1);
    var t0 := Start([l], windowCount, 1, 0);
    var t1 := Step(t0, Request(fn));
    var t := Step(t1, Tick(windowCount));
    SlotOf(0, windowCount, 0, 0);
    SlotOf(windowCount, windowCount, 1, 0);
    assert t0.s.pos == 0 && t0.s.ring[0] == EMPTY_STAT;
    assert t1.s.ring[0].requests == 1 && t.s == t1.s;
    assert SumRequests(t.s.ring, 0, 1) == 1 + SumRequests(t.s.ring, Prev(0, windowCount), 0);
    LogAppend([], Accepted(0, fn), windowCount, 1);
    assert t.log == [] + [Accepted(0, fn)];
  }

  // ----- overshoot

  ghost function StateStep(s: State, ev: Event): State
    requires Valid(s)
  {
    match ev
    case Request(fn) => OnRequest(s, fn).0
    case Receive(bytes) => OnReceive(s, bytes)
    case Tick(ts) => OnMaintenance(s, ts)
  }

  ghost function AcceptedCount(s: State, evs: seq<Event>): nat
    requires Valid(s)
    decreases |evs|
  {
    if evs == [] then 0
    else
      (if evs[0].Request? && !s.throttled then 1 else 0) + AcceptedCount(StateStep(s, evs[0]), evs[1..])
  }

  /** The amount of `l` is at its limit now and after each of the events. */
  ghost predicate StaysOver(s: State, evs: seq<Event>, l: Limiter)
    requires Valid(s)
    decreases |evs|
  {
    Amount(s, l) >= l.maximum && (evs != [] ==> StaysOver(StateStep(s, evs[0]), evs[1..], l))
  }

  lemma StepOver(s: State, ev: Event, i: nat)
    requires Valid(s) && i < |s.limiters|
    requires Valid(StateStep(s, ev)) && StateStep(s, ev).limiters == s.limiters
    requires Amount(StateStep(s, ev), s.limiters[i]) >= s.limiters[i].maximum
    ensures s.throttled || ev.Request? ==> StateStep(s, ev).throttled
  {
    hide Slot, CountRequest, SumRequests, SumData, Tally;
  }

  lemma StepShape(s: State, ev: Event)
    requires Valid(s)
    ensures Valid(StateStep(s, ev)) && StateStep(s, ev).limiters == s.limiters
  {
  }

  /**
   The status is only renewed by a request or a new window, so data received can go over a
   limit unnoticed; but while a limit stays reached at most one more request is accepted.
  */
  lemma {:induction false} OvershootByOne(s: State, evs: seq<Event>, i: nat)
    requires Valid(s) && i < |s.limiters| && StaysOver(s, evs, s.limiters[i])
    ensures AcceptedCount(s, evs) <= if s.throttled then 0 else 1
    decreases |evs|
  {
    hide Amount, StateStep;
    if evs != [] {
      var next := StateStep(s, evs[0]);
      StepShape(s, evs[0]);
      assert StaysOver(next, evs[1..], s.limiters[i]);
      StepOver(s, evs[0], i);
      OvershootByOne(next, evs[1..], i);
    }
  }

  // ----- recovery

  /** The clock moves to the very next window. */
  predicate Advances(s: State, ts: nat)
    requires Valid(s)
  {
    var newPos := Slot(ts / s.windowSize, |s.ring|);
    newPos != s.pos && Prev(newPos, |s.ring|) == s.pos
  }

  ghost function Ticks(s: State, tss: seq<nat>): (r: State)
    requires Valid(s)
    ensures Valid(r)
    decreases |tss|
  {
    if tss == [] then s else Ticks(OnMaintenance(s, tss[0]), tss[1..])
  }

  ghost predicate AllAdvance(s: State, tss: seq<nat>)
    requires Valid(s)
    decreases |tss|
  {
    tss != [] ==> Advances(s, tss[0]) && AllAdvance(OnMaintenance(s, tss[0]), tss[1..])
  }

  predicate ClearBack(ring: seq<Stat>, pos: nat, k: nat)
    requires pos < |ring|
    decreases k
  {
    k > 0 ==> ring[pos] == EMPTY_STAT && ClearBack(ring, Prev(pos, |ring|), k - 1)
  }

  lemma {:induction false} ClearBackMore(ring: seq<Stat>, at: nat, pos: nat, k: nat)
    requires pos < |ring| && at < |ring| && ClearBack(ring, pos, k)
    ensures ClearBack(ring[at := EMPTY_STAT], pos, k)
    decreases k
  {
    if k > 0 { ClearBackMore(ring, at, Prev(pos, |ring|), k - 1); }
  }

  lemma {:induction false} ClearSums(ring: seq<Stat>, pos: nat, k: nat, n: nat)
    requires pos < |ring| && ClearBack(ring, pos, n) && k <= n
    ensures SumRequests(ring, pos, k) == 0 && SumData(ring, pos, k) == 0 && Tally(ring, pos, k) == map[]
    decreases k
  {
    if k > 0 { ClearSums(ring, Prev(pos, |ring|), k - 1, n - 1); }
  }

  lemma TickRefreshes(s: State, ts: nat)
    requires Valid(s) && Advances(s, ts)
    ensures var r := OnMaintenance(s, ts);
            && Valid(r) && |r.ring| == |s.ring| && r.limiters == s.limiters && Prev(r.pos, |s.ring|) == s.pos
            && r.ring == s.ring[r.pos := EMPTY_STAT]
            && (r.throttled <==>
                  exists i :: 0 <= i < |r.limiters| && Amount(r, r.limiters[i]) >= r.limiters[i].maximum)
  {
    hide Slot;
    var r := OnMaintenance(s, ts);
    var before := s.(pos := r.pos, ring := s.ring[r.pos := EMPTY_STAT]);
    assert r == Refresh(before);
    forall i | 0 <= i < |r.limiters| ensures Amount(r, r.limiters[i]) == Amount(before, r.limiters[i]) {}
  }

  lemma {:induction false} TicksClear(s: State, tss: seq<nat>, k: nat)
    requires Valid(s) && AllAdvance(s, tss) && ClearBack(s.ring, s.pos, k)
    ensures var r := Ticks(s, tss);
            r.limiters == s.limiters && ClearBack(r.ring, r.pos, k + |tss|)
    ensures var r := Ticks(s, tss);
            tss != [] ==> (r.throttled <==>
              exists i :: 0 <= i < |r.limiters| && Amount(r, r.limiters[i]) >= r.limiters[i].maximum)
    decreases |tss|
  {
    hide Amount, Slot, OnMaintenance;
    if tss != [] {
      var next := OnMaintenance(s, tss[0]);
      TickRefreshes(s, tss[0]);
      ClearBackMore(s.ring, next.pos, s.pos, k);
      assert ClearBack(next.ring, next.pos, k + 1);
      TicksClear(next, tss[1..], k + 1);
    }
  }

  /**
   Without traffic, after as many new windows as its longest limiter has, a throttle is open
   unless a limit is below 1.
  */
  lemma Recovers(s: State, tss: seq<nat>)
    requires Valid(s) && AllAdvance(s, tss) && tss != []
    requires forall i :: 0 <= i < |s.limiters| ==> s.limiters[i].windows <= |tss|
    ensures !Ticks(s, tss).throttled <==> forall i :: 0 <= i < |s.limiters| ==> s.limiters[i].maximum > 0
  {
    TicksClear(s, tss, 0);
    var r := Ticks(s, tss);
    forall i | 0 <= i < |r.limiters| ensures Amount(r, r.limiters[i]) == 0 {
      ClearSums(r.ring, r.pos, r.limiters[i].windows, |tss|);
    }
  }
}
