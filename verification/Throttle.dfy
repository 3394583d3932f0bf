/**
 The sliding-window throttle on values: a ring of time windows, the limiters over it, and
 the status kept between calls.
*/
module Throttle {

  datatype Kind = Requests | RequestsPerFn | DataReceived

  datatype Limiter = Limiter(kind: Kind, maximum: int, windows: nat)

  /** What one time window has counted. */
  datatype Stat = Stat(requests: nat, byFn: map<string, nat>, data: nat)

  const EMPTY_STAT := Stat(0, map[], 0)

  datatype State = State(
    limiters: seq<Limiter>, pos: nat, ring: seq<Stat>, windowSize: nat, scoreModifier: int,
    score: int, throttled: bool, capacityUsed: int)

  predicate Valid(s: State) {
    s.pos < |s.ring| && s.windowSize > 0
  }

  function Get(m: map<string, nat>, fn: string): nat {
    if fn in m then m[fn] else 0
  }

  // ----- amounts

  /** The slot before `pos` in a ring of n. */
  function Prev(pos: nat, n: nat): (r: nat)
    requires pos < n
    ensures r < n
  {
    if pos == 0 then n - 1 else pos - 1
  }

  function SumRequests(ring: seq<Stat>, pos: nat, k: nat): nat
    requires pos < |ring|
    decreases k
  {
    if k == 0 then 0 else ring[pos].requests + SumRequests(ring, Prev(pos, |ring|), k - 1)
  }

  function SumData(ring: seq<Stat>, pos: nat, k: nat): nat
    requires pos < |ring|
    decreases k
  {
    if k == 0 then 0 else ring[pos].data + SumData(ring, Prev(pos, |ring|), k - 1)
  }

  /** The calls of one function over k windows back from `pos`. */
  function SumFn(ring: seq<Stat>, pos: nat, k: nat, fn: string): nat
    requires pos < |ring|
    decreases k
  {
    if k == 0 then 0 else Get(ring[pos].byFn, fn) + SumFn(ring, Prev(pos, |ring|), k - 1, fn)
  }

  function AddMaps(a: map<string, nat>, b: map<string, nat>): (r: map<string, nat>)
    ensures forall fn :: Get(r, fn) == Get(a, fn) + Get(b, fn)
  {
    map fn | fn in a.Keys + b.Keys :: Get(a, fn) + Get(b, fn)
  }

  /** All functions' calls over k windows back from `pos`. */
  function Tally(ring: seq<Stat>, pos: nat, k: nat): map<string, nat>
    requires pos < |ring|
    decreases k
  {
    if k == 0 then map[] else AddMaps(ring[pos].byFn, Tally(ring, Prev(pos, |ring|), k - 1))
  }

  /** The greatest value of a map, or 0. */
  ghost function MaxValue(m: map<string, nat>): (r: nat)
    ensures forall fn :: Get(m, fn) <= r
    ensures r == 0 || exists fn :: Get(m, fn) == r
  {
    if m == map[] then 0
    else
      var fn :| fn in m;
      var rest := m - {fn};
      var r := MaxValue(rest);
      assert forall f :: f != fn ==> Get(m, f) == Get(rest, f);
      assert Get(m, fn) == m[fn];
      if m[fn] > r then m[fn]
      else
        assert r == 0 || exists f :: f != fn && Get(rest, f) == r && Get(m, f) == r by {
          if r > 0 {
            var f :| Get(rest, f) == r;
            assert f != fn;
            assert Get(m, f) == r;
          }
        }
        r
  }

  lemma MaxValueUnique(m: map<string, nat>, r: nat)
    requires forall fn :: Get(m, fn) <= r
    requires r == 0 || exists fn :: Get(m, fn) == r
    ensures MaxValue(m) == r
  {
  }

  ghost function Amount(s: State, l: Limiter): nat
    requires Valid(s)
  {
    match l.kind
    case Requests => SumRequests(s.ring, s.pos, l.windows)
    case DataReceived => SumData(s.ring, s.pos, l.windows)
    case RequestsPerFn => MaxValue(Tally(s.ring, s.pos, l.windows))
  }

  /** The share of a limit that is used, in hundredths of a percent and at most all of it. */
  function Percent(amount: nat, maximum: int): (p: nat)
    ensures p <= 10000
    ensures p == 10000 <==> amount >= maximum
    ensures amount < maximum ==> p * maximum <= amount * 10000 < (p + 1) * maximum
  {
    if amount >= maximum then 10000
    else
      assert amount * 10000 < 10000 * maximum;
      amount * 10000 / maximum
  }

  // ----- status

  /** The greatest share used of any of the limiters. */
  ghost function MaxPercent(s: State, ls: seq<Limiter>): (p: nat)
    requires Valid(s)
    ensures p <= 10000
    ensures p == 10000 <==> exists i :: 0 <= i < |ls| && Amount(s, ls[i]) >= ls[i].maximum
  {
    if ls == [] then 0
    else
      var n := |ls| - 1;
      var p := MaxPercent(s, ls[..n]);
      var q := Percent(Amount(s, ls[n]), ls[n].maximum);
      assert (exists i :: 0 <= i < |ls| && Amount(s, ls[i]) >= ls[i].maximum) <==>
             (exists i :: 0 <= i < n && Amount(s, ls[..n][i]) >= ls[..n][i].maximum) || Amount(s, ls[n]) >= ls[n].maximum by {
        if i :| 0 <= i < |ls| && Amount(s, ls[i]) >= ls[i].maximum {
          if i < n { assert ls[..n][i] == ls[i]; }
        }
        if i :| 0 <= i < n && Amount(s, ls[..n][i]) >= ls[..n][i].maximum { assert ls[i] == ls[..n][i]; }
      }
      if q > p then q else p
  }

  const UNLIMITED_SCORE_WINDOWS := 10
  const DATA_PER_POINT := 10000

  /** One point a request and one for each 10000 bytes, over k windows back from `pos`. */
  function Points(ring: seq<Stat>, pos: nat, k: nat): nat
    requires pos < |ring|
    decreases k
  {
    if k == 0 then 0
    else ring[pos].requests + ring[pos].data / DATA_PER_POINT + Points(ring, Prev(pos, |ring|), k - 1)
  }

  /** The state with its status brought up to date. */
  ghost function Refresh(s: State): (r: State)
    requires Valid(s)
    ensures r == s.(score := r.score, throttled := r.throttled, capacityUsed := r.capacityUsed)
    ensures r.throttled <==> exists i :: 0 <= i < |s.limiters| && Amount(s, s.limiters[i]) >= s.limiters[i].maximum
  {
    if s.limiters == [] then
      s.(score := Points(s.ring, s.pos, UNLIMITED_SCORE_WINDOWS) + s.scoreModifier, throttled := false, capacityUsed := 0)
    else
      var p := MaxPercent(s, s.limiters);
      s.(score := p + s.scoreModifier, throttled := p >= 10000, capacityUsed := p)
  }

  /** Greatest of the shares used: none is greater, and it is one of them or 0. */
  lemma {:induction false} MaxPercentIsGreatest(s: State, ls: seq<Limiter>)
    requires Valid(s)
    ensures forall i :: 0 <= i < |ls| ==> Percent(Amount(s, ls[i]), ls[i].maximum) <= MaxPercent(s, ls)
    ensures MaxPercent(s, ls) == 0 || exists i :: 0 <= i < |ls| && Percent(Amount(s, ls[i]), ls[i].maximum) == MaxPercent(s, ls)
  {
    hide Amount;
    if ls != [] {
      var n := |ls| - 1;
      var front := ls[..n];
      MaxPercentIsGreatest(s, front);
      assert forall i :: 0 <= i < n ==> front[i] == ls[i];
      if MaxPercent(s, ls) != 0 && MaxPercent(s, ls) == MaxPercent(s, front) {
        var i :| 0 <= i < n && Percent(Amount(s, front[i]), front[i].maximum) == MaxPercent(s, front);
        assert Percent(Amount(s, ls[i]), ls[i].maximum) == MaxPercent(s, ls);
      }
    }
  }

  /** Of a limit, `p` hundredths of a percent are used, rounded down, and no more than all of it. */
  predicate UsesShare(amount: nat, maximum: int, p: int) {
    if amount >= maximum then p == 10000 else p * maximum <= amount * 10000 < (p + 1) * maximum
  }

  ghost predicate UsesAtMost(amount: nat, maximum: int, p: int) {
    exists q: nat :: q <= p && UsesShare(amount, maximum, q)
  }

  /** What the status means: the score is the share used of the limit nearest to its maximum, and the modifier. */
  lemma RefreshMeans(s: State)
    requires Valid(s) && s.limiters != []
    ensures var r := Refresh(s);
            && r.score == r.capacityUsed + s.scoreModifier && 0 <= r.capacityUsed <= 10000
            && (r.throttled <==> r.capacityUsed == 10000)
            && (forall i :: 0 <= i < |s.limiters| ==>
                  UsesAtMost(Amount(s, s.limiters[i]), s.limiters[i].maximum, r.capacityUsed))
            && (r.capacityUsed == 0 ||
                  exists i :: 0 <= i < |s.limiters| && UsesShare(Amount(s, s.limiters[i]), s.limiters[i].maximum, r.capacityUsed))
  {
    hide Amount;
    MaxPercentIsGreatest(s, s.limiters);
    var r := Refresh(s);
    forall i | 0 <= i < |s.limiters|
      ensures UsesAtMost(Amount(s, s.limiters[i]), s.limiters[i].maximum, r.capacityUsed)
    {
      var p := Percent(Amount(s, s.limiters[i]), s.limiters[i].maximum);
      assert UsesShare(Amount(s, s.limiters[i]), s.limiters[i].maximum, p);
    }
    if r.capacityUsed != 0 {
      var i :| 0 <= i < |s.limiters| && Percent(Amount(s, s.limiters[i]), s.limiters[i].maximum) == r.capacityUsed;
      assert UsesShare(Amount(s, s.limiters[i]), s.limiters[i].maximum, r.capacityUsed);
    }
  }

  /** Points are the requests and, rounded down in each window, the data in units of 10000 bytes. */
  lemma {:induction false} PointsMeans(ring: seq<Stat>, pos: nat, k: nat)
    requires pos < |ring|
    ensures var d := Points(ring, pos, k) - SumRequests(ring, pos, k);
            10000 * d <= SumData(ring, pos, k) <= 10000 * d + 9999 * k
    decreases k
  {
    if k > 0 { PointsMeans(ring, Prev(pos, |ring|), k - 1); }
  }

  // ----- operations

  function CountRequest(st: Stat, fn: string): Stat {
    Stat(st.requests + 1, st.byFn[fn := Get(st.byFn, fn) + 1], st.data)
  }

  ghost function OnRequest(s: State, fn: string): (State, bool)
    requires Valid(s)
  {
    if s.throttled then (s, false)
    else (Refresh(s.(ring := s.ring[s.pos := CountRequest(s.ring[s.pos], fn)])), true)
  }

  function OnReceive(s: State, bytes: nat): State
    requires Valid(s)
  {
    var st := s.ring[s.pos];
    s.(ring := s.ring[s.pos := st.(data := st.data + bytes)])
  }

  /** The slot of a window in a ring of n. */
  function Slot(window: int, n: nat): (r: nat)
    requires n > 0
    ensures r < n
  {
    window % n
  }

  ghost function OnMaintenance(s: State, ts: nat): State
    requires Valid(s)
  {
    var newPos := Slot(ts / s.windowSize, |s.ring|);
    if newPos == s.pos then s
    else Refresh(s.(pos := newPos, ring := s.ring[newPos := EMPTY_STAT]))
  }

  function AddLimiter(s: State, kind: Kind, maximum: int, seconds: nat): State
    requires Valid(s)
  {
    s.(limiters := s.limiters + [Limiter(kind, maximum, seconds / s.windowSize)])
  }

  /** A limiter spans as many whole windows as the time holds. */
  lemma AddLimiterMeans(s: State, kind: Kind, maximum: int, seconds: nat)
    requires Valid(s)
    ensures var r := AddLimiter(s, kind, maximum, seconds);
            && r == s.(limiters := r.limiters) && |r.limiters| == |s.limiters| + 1 && r.limiters[..|s.limiters|] == s.limiters
            && var l := r.limiters[|s.limiters|];
               && l.kind == kind && l.maximum == maximum
               && l.windows * s.windowSize <= seconds < (l.windows + 1) * s.windowSize
  {
    var q := s.windowSize;
    assert seconds == seconds / q * q + seconds % q;
  }

  function Fresh(windowCount: nat, windowSize: nat, now: nat): State
    requires windowCount > 0 && windowSize > 0
  {
    State([], Slot(now / windowSize, windowCount), seq(windowCount, _ => EMPTY_STAT), windowSize, 0, 0, false, 0)
  }

  lemma {:induction false} TallyIsSumFn(ring: seq<Stat>, pos: nat, k: nat, fn: string)
    requires pos < |ring|
    ensures Get(Tally(ring, pos, k), fn) == SumFn(ring, pos, k, fn)
    decreases k
  {
    if k > 0 { TallyIsSumFn(ring, Prev(pos, |ring|), k - 1, fn); }
  }

  /** The per-function amount is the greatest of all functions' sums. */
  lemma PerFnAmount(s: State, l: Limiter)
    requires Valid(s) && l.kind == RequestsPerFn
    ensures forall fn :: SumFn(s.ring, s.pos, l.windows, fn) <= Amount(s, l)
    ensures Amount(s, l) == 0 || exists fn :: SumFn(s.ring, s.pos, l.windows, fn) == Amount(s, l)
  {
    var m := Tally(s.ring, s.pos, l.windows);
    forall fn ensures Get(m, fn) == SumFn(s.ring, s.pos, l.windows, fn) {
      TallyIsSumFn(s.ring, s.pos, l.windows, fn);
    }
    if Amount(s, l) != 0 {
      var fn :| Get(m, fn) == Amount(s, l);
      assert SumFn(s.ring, s.pos, l.windows, fn) == Amount(s, l);
    }
  }
}
