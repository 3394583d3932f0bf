/**
 What a throttle accepts and how it scores, in terms of its log: over a ring that is exact a
 request is refused just when some limit is reached.
*/
module ThrottleAccepts {
  import opened Bytes
  import opened Throttle
  import opened ThrottleRuns

  // ----- exactly when a request is accepted

  /** The log holds a limit's maximum, or more, in its last windows. */
  ghost predicate LogAtLimit(log: seq<Entry>, window: int, l: Limiter) {
    var lo, hi := window - l.windows + 1, window + 1;
    match l.kind
    case Requests => RequestsIn(log, lo, hi) >= l.maximum
    case RequestsPerFn => exists fn :: FnIn(log, fn, lo, hi) >= l.maximum
    case DataReceived => DataIn(log, lo, hi) >= l.maximum
  }

  ghost predicate AtLimit(s: State, l: Limiter)
    requires Valid(s)
  {
    Amount(s, l) >= l.maximum
  }

  /** A throttled state has a limit reached, and a request limit that is reached is never overlooked. */
  ghost predicate StatusSound(s: State) {
    && Valid(s)
    && (s.throttled ==> exists i :: 0 <= i < |s.limiters| && AtLimit(s, s.limiters[i]))
    && (forall i :: 0 <= i < |s.limiters| && !s.limiters[i].kind.DataReceived? && AtLimit(s, s.limiters[i]) ==> s.throttled)
  }

  lemma RefreshSound(s: State)
    requires Valid(s)
    ensures StatusSound(Refresh(s))
  {
    hide Slot;
    var r := Refresh(s);
    forall i | 0 <= i < |r.limiters| ensures Amount(r, r.limiters[i]) == Amount(s, s.limiters[i]) {}
    if r.throttled {
      var i :| 0 <= i < |s.limiters| && Amount(s, s.limiters[i]) >= s.limiters[i].maximum;
      assert AtLimit(r, r.limiters[i]);
    }
  }

  lemma {:induction false} DataGrows(a: seq<Stat>, b: seq<Stat>, pos: nat, k: nat)
    requires |a| == |b| && pos < |a| && forall i :: 0 <= i < |a| ==> a[i].data <= b[i].data
    ensures SumData(a, pos, k) <= SumData(b, pos, k)
    decreases k
  {
    if k > 0 { DataGrows(a, b, Prev(pos, |a|), k - 1); }
  }

  lemma ReceiveSound(s: State, bytes: nat)
    requires StatusSound(s)
    ensures StatusSound(OnReceive(s, bytes))
  {
    hide Slot;
    var r := OnReceive(s, bytes);
    forall i | 0 <= i < |s.limiters|
      ensures Amount(r, s.limiters[i]) >= Amount(s, s.limiters[i])
      ensures !s.limiters[i].kind.DataReceived? ==> Amount(r, s.limiters[i]) == Amount(s, s.limiters[i])
    {
      if s.limiters[i].kind.DataReceived? {
        DataGrows(s.ring, r.ring, s.pos, s.limiters[i].windows);
      } else {
        AmountWithoutData(s, r, s.limiters[i]);
      }
    }
    if r.throttled {
      var i :| 0 <= i < |s.limiters| && AtLimit(s, s.limiters[i]);
      assert AtLimit(r, r.limiters[i]);
    }
    forall i | 0 <= i < |r.limiters| && !r.limiters[i].kind.DataReceived? && AtLimit(r, r.limiters[i]) ensures r.throttled {
      assert AtLimit(s, s.limiters[i]);
    }
  }

  lemma StepSound(t: Tracked, ev: Event)
    requires StatusSound(t.s)
    ensures StatusSound(Step(t, ev).s)
  {
    hide Refresh, Amount, Slot, StatusSound;
    SoundValid(t.s);
    var s := t.s;
    match ev
    case Request(fn) =>
      if !s.throttled { RefreshSound(s.(ring := s.ring[s.pos := CountRequest(s.ring[s.pos], fn)])); }
    case Receive(bytes) => ReceiveSound(s, bytes);
    case Tick(ts) =>
      var newPos := Slot(ts / s.windowSize, |s.ring|);
      if newPos != s.pos { RefreshSound(s.(pos := newPos, ring := s.ring[newPos := EMPTY_STAT])); }
  }

  lemma SoundValid(s: State)
    requires StatusSound(s)
    ensures Valid(s)
  {
  }

  lemma {:induction false} RunSound(t: Tracked, evs: seq<Event>)
    requires StatusSound(t.s)
    ensures StatusSound(Run(t, evs).s) && Run(t, evs).s.limiters == t.s.limiters
    decreases |evs|
  {
    hide StatusSound;
    SoundValid(t.s);
    if evs != [] {
      StepSound(t, evs[0]);
      LimitersStay(t, evs[0]);
      RunSound(Step(t, evs[0]), evs[1..]);
    }
  }

  lemma StartSound(limiters: seq<Limiter>, windowCount: nat, windowSize: nat, now: nat)
    requires windowCount > 0 && windowSize > 0
    requires forall i :: 0 <= i < |limiters| ==> limiters[i].maximum > 0
    ensures StatusSound(Start(limiters, windowCount, windowSize, now).s)
  {
    var t := Start(limiters, windowCount, windowSize, now);
    forall i | 0 <= i < |limiters| ensures Amount(t.s, limiters[i]) == 0 {
      BlankSums(t.s.ring, t.s.pos, limiters[i].windows);
    }
  }

  lemma AtLimitIsLogged(t: Tracked, l: Limiter)
    requires Exact(t) && l.windows <= |t.s.ring| && l.maximum > 0
    ensures AtLimit(t.s, l) <==> LogAtLimit(t.log, t.window, l)
  {
    hide Amount, RequestsIn, FnIn, DataIn, Slot;
    ExactAmounts(t, l);
    var lo, hi := t.window - l.windows + 1, t.window + 1;
    if l.kind.RequestsPerFn? && AtLimit(t.s, l) {
      var fn :| FnIn(t.log, fn, lo, hi) == Amount(t.s, l);
      assert FnIn(t.log, fn, lo, hi) >= l.maximum;
    }
  }

  /**
   In every run whose clock skips no window: a request is refused only when the log holds
   some limit's maximum in its last windows, and always when that is a limit of requests.
  */
  lemma RefusedWhenReached(limiters: seq<Limiter>, windowCount: nat, windowSize: nat, now: nat, evs: seq<Event>, fn: string)
    requires windowCount >= 2 && windowSize > 0
    requires forall i :: 0 <= i < |limiters| ==> limiters[i].maximum > 0 && limiters[i].windows <= windowCount
    requires AllNoSkip(Start(limiters, windowCount, windowSize, now), evs)
    ensures var t := Run(Start(limiters, windowCount, windowSize, now), evs);
            var ok := OnRequest(t.s, fn).1;
            && (!ok ==> exists i :: 0 <= i < |limiters| && LogAtLimit(t.log, t.window, limiters[i]))
            && (ok ==> forall i :: 0 <= i < |limiters| && !limiters[i].kind.DataReceived? ==> !LogAtLimit(t.log, t.window, limiters[i]))
  {
    hide Exact, Slot, LogAtLimit, AtLimit, Refresh;
    var t0 := Start(limiters, windowCount, windowSize, now);
    StartCapped(limiters, windowCount, windowSize, now);
    StartSound(limiters, windowCount, windowSize, now);
    RunExact(t0, evs);
    RunSound(t0, evs);
    var t := Run(t0, evs);
    forall i | 0 <= i < |limiters| ensures AtLimit(t.s, limiters[i]) <==> LogAtLimit(t.log, t.window, limiters[i]) {
      AtLimitIsLogged(t, limiters[i]);
    }
  }

  // ----- the score without limits

  /**
   In every run without skips, a throttle without limiters scores its modifier, the requests
   of the last 10 windows and, rounded down in each window, their data in units of 10000 bytes.
  */
  lemma UnlimitedScore(t: Tracked)
    requires Exact(t) && |t.s.ring| >= 10 && t.s.limiters == []
    ensures var score := Refresh(t.s).score - t.s.scoreModifier;
            var d := score - RequestsIn(t.log, t.window - 9, t.window + 1);
            10000 * d <= DataIn(t.log, t.window - 9, t.window + 1) <= 10000 * d + 99990
  {
    hide Slot, Points, SumRequests, SumData, RequestsIn, DataIn;
    SumsExactly(t, t.window, 10, "");
    PointsMeans(t.s.ring, t.s.pos, 10);
  }
}
