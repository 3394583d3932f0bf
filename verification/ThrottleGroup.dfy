/**
 The throttle as the program keeps it, with its walks over the ring, and groups of
 throttles. Every method's effect is the function of the same name in module Throttle.
*/
module ThrottleGroup {
  import T = Throttle

  class Throttle {
    var limiters: seq<T.Limiter>
    var statsPos: nat
    const stats: array<T.Stat>
    const windowSize: nat
    var scoreModifier: int
    var statusScore: int
    var statusThrottled: bool
    var statusCapacityUsed: int

    ghost function View(): T.State
      reads this, stats
    {
      T.State(limiters, statsPos, stats[..], windowSize, scoreModifier, statusScore, statusThrottled, statusCapacityUsed)
    }

    ghost predicate Ok()
      reads this
    {
      statsPos < stats.Length && windowSize > 0
    }

    constructor (windowCount: nat, windowSize: nat, now: nat)
      requires windowCount > 0 && windowSize > 0
      ensures Ok() && View() == T.Fresh(windowCount, windowSize, now) && fresh(stats)
    {
      limiters := [];
      this.windowSize, statsPos := windowSize, now / windowSize % windowCount;
      stats := new T.Stat[windowCount](_ => T.EMPTY_STAT);
      scoreModifier, statusScore, statusThrottled, statusCapacityUsed := 0, 0, false, 0;
    }

    method AddLimiter(kind: T.Kind, maximum: int, seconds: nat)
      requires Ok()
      modifies this`limiters
      ensures Ok() && View() == T.AddLimiter(old(View()), kind, maximum, seconds)
      ensures limiters[..|limiters| - 1] == old(limiters)
      ensures var l := limiters[|limiters| - 1];
              && l.kind == kind && l.maximum == maximum
              && l.windows * windowSize <= seconds < (l.windows + 1) * windowSize
    {
      T.AddLimiterMeans(View(), kind, maximum, seconds);
      limiters := limiters + [T.Limiter(kind, maximum, seconds / windowSize)];
    }

    // ----- walks over the ring

    method TotalRequests(k: nat) returns (amount: nat)
      requires Ok()
      ensures amount == T.SumRequests(stats[..], statsPos, k)
    {
      var pos: nat, i := statsPos, 0;
      amount := 0;
      while i < k
        invariant 0 <= i <= k && pos < stats.Length
        invariant amount + T.SumRequests(stats[..], pos, k - i) == T.SumRequests(stats[..], statsPos, k)
      {
        amount := amount + stats[pos].requests;
        pos := if pos == 0 then stats.Length - 1 else pos - 1;
        i := i + 1;
      }
    }

    method TotalData(k: nat) returns (amount: nat)
      requires Ok()
      ensures amount == T.SumData(stats[..], statsPos, k)
    {
      var pos: nat, i := statsPos, 0;
      amount := 0;
      while i < k
        invariant 0 <= i <= k && pos < stats.Length
        invariant amount + T.SumData(stats[..], pos, k - i) == T.SumData(stats[..], statsPos, k)
      {
        amount := amount + stats[pos].data;
        pos := if pos == 0 then stats.Length - 1 else pos - 1;
        i := i + 1;
      }
    }

    /** The greatest total of any one function: all totals first, then their maximum. */
    method TotalPerFn(k: nat) returns (amount: nat)
      requires Ok()
      ensures amount == T.MaxValue(T.Tally(stats[..], statsPos, k))
    {
      ghost var ring := stats[..];
      var pos: nat, i := statsPos, 0;
      var tmp: map<string, nat> := map[];
      while i < k
        invariant 0 <= i <= k && pos < stats.Length
        invariant forall fn :: T.Get(tmp, fn) + T.SumFn(ring, pos, k - i, fn) == T.SumFn(ring, statsPos, k, fn)
      {
        tmp := AddCounts(tmp, stats[pos].byFn);
        pos := if pos == 0 then stats.Length - 1 else pos - 1;
        i := i + 1;
      }
      ghost var tally := T.Tally(ring, statsPos, k);
      forall fn ensures T.Get(tmp, fn) == T.Get(tally, fn) {
        T.TallyIsSumFn(ring, statsPos, k, fn);
        assert T.SumFn(ring, pos, 0, fn) == 0;
      }
      amount := GreatestValue(tmp);
      assert forall fn :: T.Get(tally, fn) <= amount by {
        assert forall fn :: T.Get(tmp, fn) <= amount;
      }
      if amount > 0 {
        ghost var best :| T.Get(tmp, best) == amount;
        assert T.Get(tally, best) == amount;
      }
      T.MaxValueUnique(tally, amount);
    }

    // ----- status

    method GetThrottleStatus(l: T.Limiter) returns (amount: nat, percent: nat)
      requires Ok()
      ensures amount == T.Amount(View(), l) && percent == T.Percent(amount, l.maximum)
    {
      match l.kind {
        case Requests => amount := TotalRequests(l.windows);
        case DataReceived => amount := TotalData(l.windows);
        case RequestsPerFn => amount := TotalPerFn(l.windows);
      }
      percent := T.Percent(amount, l.maximum);
    }

    method ComputeThrottleScore() returns (score: int, throttled: bool, capacityUsed: int)
      requires Ok()
      ensures T.Refresh(View()) == View().(score := score, throttled := throttled, capacityUsed := capacityUsed)
    {
      if |limiters| == 0 {
        var pos: nat, i := statsPos, 0;
        score := 0;
        while i < T.UNLIMITED_SCORE_WINDOWS
          invariant 0 <= i <= T.UNLIMITED_SCORE_WINDOWS && pos < stats.Length
          invariant score + T.Points(stats[..], pos, T.UNLIMITED_SCORE_WINDOWS - i) ==
                    T.Points(stats[..], statsPos, T.UNLIMITED_SCORE_WINDOWS)
        {
          score := score + stats[pos].requests + stats[pos].data / T.DATA_PER_POINT;
          pos := if pos == 0 then stats.Length - 1 else pos - 1;
          i := i + 1;
        }
        return score + scoreModifier, false, 0;
      }
      score := 0;
      var k := 0;
      while k < |limiters|
        invariant 0 <= k <= |limiters|
        invariant score == T.MaxPercent(View(), limiters[..k])
      {
        var _, percent := GetThrottleStatus(limiters[k]);
        assert limiters[..k + 1][..k] == limiters[..k];
        if percent > score { score := percent; }
        k := k + 1;
      }
      assert limiters[..k] == limiters;
      capacityUsed, throttled := score, score >= 10000;
      score := score + scoreModifier;
    }

    method RefreshStatus()
      requires Ok()
      modifies this`statusScore, this`statusThrottled, this`statusCapacityUsed
      ensures Ok() && View() == T.Refresh(old(View()))
    {
      statusScore, statusThrottled, statusCapacityUsed := ComputeThrottleScore();
    }

    // ----- events

    method OnRequest(fn: string) returns (ok: bool)
      requires Ok()
      modifies this`statusScore, this`statusThrottled, this`statusCapacityUsed, stats
      ensures Ok() && (View(), ok) == T.OnRequest(old(View()), fn)
    {
      if statusThrottled { return false; }
      ghost var before := View();
      stats[statsPos] := T.CountRequest(stats[statsPos], fn);
      assert View() == before.(ring := before.ring[statsPos := T.CountRequest(before.ring[statsPos], fn)]);
      RefreshStatus();
      return true;
    }

    method OnReceive(bytes: nat)
      requires Ok()
      modifies stats
      ensures Ok() && View() == T.OnReceive(old(View()), bytes)
    {
      stats[statsPos] := stats[statsPos].(data := stats[statsPos].data + bytes);
    }

    method OnMaintenance(ts: nat)
      requires Ok()
      modifies this`statsPos, this`statusScore, this`statusThrottled, this`statusCapacityUsed, stats
      ensures Ok() && View() == T.OnMaintenance(old(View()), ts)
    {
      var newPos := ts / windowSize % stats.Length;
      if newPos == statsPos { return; }
      ghost var before := View();
      statsPos := newPos;
      stats[statsPos] := T.EMPTY_STAT;
      assert View() == before.(pos := newPos, ring := before.ring[newPos := T.EMPTY_STAT]);
      RefreshStatus();
    }
  }

  /** Adds the counts of one window to running totals. */
  method AddCounts(totals: map<string, nat>, counts: map<string, nat>) returns (r: map<string, nat>)
    ensures forall fn :: T.Get(r, fn) == T.Get(totals, fn) + T.Get(counts, fn)
  {
    r := totals;
    var left := counts.Keys;
    while left != {}
      invariant left <= counts.Keys
      invariant forall fn :: T.Get(r, fn) == T.Get(totals, fn) + if fn in left then 0 else T.Get(counts, fn)
      decreases left
    {
      var fn :| fn in left;
      r := r[fn := T.Get(r, fn) + counts[fn]];
      left := left - {fn};
    }
  }

  method GreatestValue(m: map<string, nat>) returns (r: nat)
    ensures forall fn :: T.Get(m, fn) <= r
    ensures r == 0 || exists fn :: T.Get(m, fn) == r
  {
    r := 0;
    var left := m.Keys;
    while left != {}
      invariant left <= m.Keys
      invariant forall fn :: fn !in left ==> T.Get(m, fn) <= r
      invariant r == 0 || exists fn :: T.Get(m, fn) == r
      decreases left
    {
      var fn :| fn in left;
      if r < m[fn] {
        r := m[fn];
        assert T.Get(m, fn) == r;
      }
      left := left - {fn};
    }
  }

  // ----- groups

  /** All in order, and no two sharing anything. */
  ghost predicate GroupOk(group: seq<Throttle>)
    reads group
  {
    && (forall i :: 0 <= i < |group| ==> group[i].Ok())
    && (forall i, j :: 0 <= i < j < |group| ==> group[i] != group[j] && group[i].stats != group[j].stats)
  }

  /** A request is counted by every throttle of a group, or refused and counted by none. */
  method GroupOnRequest(group: seq<Throttle>, fn: string) returns (ok: bool)
    requires GroupOk(group)
    modifies group, set t | t in group :: t.stats
    ensures GroupOk(group)
    ensures ok <==> forall i :: 0 <= i < |group| ==> !old(group[i].statusThrottled)
    ensures forall i :: 0 <= i < |group| ==>
              group[i].View() == if ok then T.OnRequest(old(group[i].View()), fn).0 else old(group[i].View())
    ensures ok ==> forall i :: 0 <= i < |group| ==> T.OnRequest(old(group[i].View()), fn).1
  {
    var k := 0;
    while k < |group|
      invariant 0 <= k <= |group|
      invariant forall i :: 0 <= i < k ==> !group[i].statusThrottled
      invariant forall i :: 0 <= i < |group| ==> group[i].Ok() && group[i].View() == old(group[i].View())
    {
      if group[k].statusThrottled { return false; }
      k := k + 1;
    }
    k := 0;
    while k < |group|
      invariant 0 <= k <= |group|
      invariant forall i :: 0 <= i < |group| ==> group[i].Ok()
      invariant forall i :: k <= i < |group| ==> group[i].View() == old(group[i].View())
      invariant forall i :: 0 <= i < k ==> group[i].View() == T.OnRequest(old(group[i].View()), fn).0
    {
      assert !group[k].View().throttled;
      var accepted := group[k].OnRequest(fn);
      k := k + 1;
    }
    return true;
  }

  /** The group's status: the greatest score and share used, throttled when any of them is. */
  method GroupThrottleScore(group: seq<Throttle>) returns (score: int, throttled: bool, capacityUsed: int)
    ensures throttled <==> exists i :: 0 <= i < |group| && group[i].statusThrottled
    ensures score >= MIN_INT64 && forall i :: 0 <= i < |group| ==> group[i].statusScore <= score
    ensures score == MIN_INT64 || exists i :: 0 <= i < |group| && group[i].statusScore == score
    ensures forall i :: 0 <= i < |group| ==> group[i].statusCapacityUsed <= capacityUsed
    ensures capacityUsed == 0 || exists i :: 0 <= i < |group| && group[i].statusCapacityUsed == capacityUsed
  {
    score, throttled, capacityUsed := MIN_INT64, false, 0;
    var k := 0;
    while k < |group|
      invariant 0 <= k <= |group|
      invariant throttled <==> exists i :: 0 <= i < k && group[i].statusThrottled
      invariant score >= MIN_INT64 && forall i :: 0 <= i < k ==> group[i].statusScore <= score
      invariant score == MIN_INT64 || exists i :: 0 <= i < k && group[i].statusScore == score
      invariant forall i :: 0 <= i < k ==> group[i].statusCapacityUsed <= capacityUsed
      invariant capacityUsed == 0 || exists i :: 0 <= i < k && group[i].statusCapacityUsed == capacityUsed
    {
      var t := group[k];
      if t.statusScore > score { score := t.statusScore; }
      throttled := throttled || t.statusThrottled;
      if t.statusCapacityUsed > capacityUsed { capacityUsed := t.statusCapacityUsed; }
      k := k + 1;
    }
  }

  const MIN_INT64: int := -0x8000_0000_0000_0000
}
