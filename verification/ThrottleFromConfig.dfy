/**
 Throttles made from configured limits, each over a ring chosen for its time, and what such
 a limit then guarantees.
*/
module ThrottleFromConfig {
  import opened Bytes
  import opened ThrottleConfig
  import T = Throttle
  import opened ThrottleRuns
  import opened ThrottleAccepts
  import G = ThrottleGroup

  /** One configured limit. */
  datatype Item = Item(kind: T.Kind, limit: int, time: int)

  predicate ItemOk(item: Item) {
    item.limit > 0 && item.time > 0
  }

  predicate AllOk(items: seq<Item>) {
    forall i :: 0 <= i < |items| ==> ItemOk(items[i])
  }

  function LimiterOf(item: Item): T.Limiter
    requires ItemOk(item)
  {
    T.Limiter(item.kind, item.limit, LimiterWindows(item.time))
  }

  /** The limiters of all items that use the windows w, in order. */
  function LimitersFor(items: seq<Item>, w: Windows): seq<T.Limiter>
    requires AllOk(items)
  {
    if items == [] then []
    else
      var item := items[|items| - 1];
      assert ItemOk(item);
      LimitersFor(items[..|items| - 1], w) + if WindowsOf(item.time) == w then [LimiterOf(item)] else []
  }

  lemma CountPositive(time: int)
    ensures WindowsOf(time).count >= 120 && WindowsOf(time).size > 0
  {
    WindowsMeans(time);
  }

  /** Every item's limiter is in the throttle of its windows, and that throttle has no others. */
  lemma {:induction false} LimitersMean(items: seq<Item>, w: Windows)
    requires AllOk(items)
    ensures forall i :: 0 <= i < |items| && WindowsOf(items[i].time) == w ==> LimiterOf(items[i]) in LimitersFor(items, w)
    ensures forall l :: l in LimitersFor(items, w) ==>
              exists i :: 0 <= i < |items| && WindowsOf(items[i].time) == w && l == LimiterOf(items[i])
  {
    hide WindowsOf, LimiterOf;
    if items != [] {
      var n := |items| - 1;
      var front := items[..n];
      LimitersMean(front, w);
      forall l | l in LimitersFor(items, w)
        ensures exists i :: 0 <= i < |items| && WindowsOf(items[i].time) == w && l == LimiterOf(items[i])
      {
        if l in LimitersFor(front, w) {
          var i :| 0 <= i < n && WindowsOf(front[i].time) == w && l == LimiterOf(front[i]);
          assert items[i] == front[i];
        } else {
          assert WindowsOf(items[n].time) == w && l == LimiterOf(items[n]);
        }
      }
      forall i | 0 <= i < |items| && WindowsOf(items[i].time) == w ensures LimiterOf(items[i]) in LimitersFor(items, w) {
        if i < n { assert front[i] == items[i]; }
      }
    }
  }

  /** The throttle of the windows w, after some items. */
  ghost predicate Serves(t: G.Throttle, items: seq<Item>, w: Windows, now: nat)
    requires AllOk(items)
    reads t, t.stats
  {
    && w.size > 0 && w.count > 0 && t.Ok()
    && t.View() == T.Fresh(w.count, w.size, now).(limiters := LimitersFor(items, w))
  }

  /** The windows used by the items have a throttle each, and all throttles are apart. */
  ghost predicate ServesAll(tws: map<Windows, G.Throttle>, items: seq<Item>, now: nat)
    requires AllOk(items)
    reads tws.Values, set t | t in tws.Values :: t.stats
  {
    && (forall w :: w in tws ==> Serves(tws[w], items, w, now))
    && (forall w, v :: w in tws && v in tws && w != v ==> tws[w] != tws[v] && tws[w].stats != tws[v].stats)
    && (forall i :: 0 <= i < |items| ==> WindowsOf(items[i].time) in tws)
  }

  /**
   One throttle for each choice of windows, with the limiters of all items that use it; none
   at all exactly when some limit or time is not positive.
  */
  method MakeFromConfig(items: seq<Item>, now: nat) returns (tws: Option<map<Windows, G.Throttle>>)
    ensures tws.Some? <==> AllOk(items)
    ensures tws.Some? ==> ServesAll(tws.value, items, now) && forall w :: w in tws.value ==> fresh(tws.value[w])
  {
    hide ServesAll, WindowsOf;
    var made: map<Windows, G.Throttle> := map[];
    NothingMade(now);
    var k := 0;
    while k < |items|
      invariant 0 <= k <= |items| && AllOk(items[..k])
      invariant forall w :: w in made ==> fresh(made[w]) && fresh(made[w].stats)
      invariant ServesAll(made, items[..k], now)
    {
      var item := items[k];
      made := GetThrottle(made, items[..k], item.time, now);
      if item.limit <= 0 || item.time <= 0 { return None; }
      var w := WindowsFor(item.time);
      AddItem(made, made[w], items[..k], item, now);
      assert items[..k + 1] == items[..k] + [item];
      k := k + 1;
    }
    assert items[..k] == items;
    return Some(made);
  }

  lemma NothingMade(now: nat)
    ensures ServesAll(map[], [], now)
  {
  }

  /** The throttles with one for the windows of a time. */
  method GetThrottle(tws: map<Windows, G.Throttle>, items: seq<Item>, time: int, now: nat)
    returns (r: map<Windows, G.Throttle>)
    requires AllOk(items) && ServesAll(tws, items, now)
    ensures ServesAll(r, items, now) && WindowsOf(time) in r
    ensures forall w :: w in tws ==> w in r && r[w] == tws[w]
    ensures forall w :: w in r && w !in tws ==> fresh(r[w]) && fresh(r[w].stats)
  {
    hide WindowsOf, LimitersFor;
    var w := WindowsFor(time);
    if w in tws { return tws; }
    CountPositive(time);
    NothingFor(tws, items, w);
    var t := new G.Throttle(w.count, w.size, now);
    r := tws[w := t];
    assert Serves(t, items, w, now);
    forall v | v in tws ensures Serves(r[v], items, v, now) {
      assert Serves(tws[v], items, v, now);
    }
  }

  /** Adds the limiter of an item to its throttle. */
  method AddItem(ghost tws: map<Windows, G.Throttle>, t: G.Throttle, ghost items: seq<Item>, item: Item, ghost now: nat)
    requires AllOk(items) && ServesAll(tws, items, now) && ItemOk(item)
    requires WindowsOf(item.time) in tws && t == tws[WindowsOf(item.time)]
    modifies t`limiters
    ensures AllOk(items + [item]) && ServesAll(tws, items + [item], now)
  {
    hide WindowsOf, LimitersFor;
    ghost var w, all := WindowsOf(item.time), items + [item];
    assert Serves(t, items, w, now);
    t.AddLimiter(item.kind, item.limit, item.time);
    forall v | v in tws ensures Serves(tws[v], all, v, now) {
      OneMoreItem(items, item, v);
    }
  }

  lemma OneMoreItem(items: seq<Item>, item: Item, w: Windows)
    requires AllOk(items) && ItemOk(item)
    ensures AllOk(items + [item])
    ensures LimitersFor(items + [item], w) == LimitersFor(items, w) + if WindowsOf(item.time) == w then [LimiterOf(item)] else []
  {
    assert (items + [item])[..|items|] == items;
  }

  /** Windows without a throttle are used by no item so far. */
  lemma {:induction false} NothingFor(tws: map<Windows, G.Throttle>, items: seq<Item>, w: Windows)
    requires AllOk(items) && w !in tws && forall i :: 0 <= i < |items| ==> WindowsOf(items[i].time) in tws
    ensures LimitersFor(items, w) == []
  {
    if items != [] {
      assert forall i :: 0 <= i < |items| - 1 ==> items[..|items| - 1][i] == items[i];
      NothingFor(tws, items[..|items| - 1], w);
    }
  }

  /** The throttle with one configured limit, before anything has happened. */
  function Configured(kind: T.Kind, limit: int, time: nat, now: nat): (t: Tracked)
    requires time > 0
    ensures T.Valid(t.s)
  {
    CountPositive(time);
    var w := WindowsOf(time);
    Tracked(T.AddLimiter(T.Fresh(w.count, w.size, now), kind, limit, time), now / w.size, [])
  }

  /**
   A configured limit of requests whose time fits: in every run at most `limit` requests are
   accepted in as many consecutive windows as the time holds whole ones; and while no window
   is skipped a request is accepted exactly when the last so many hold fewer.
  */
  lemma ConfiguredLimit(limit: int, time: nat, now: nat, evs: seq<Event>, lo: int, fn: string)
    requires limit > 0 && time > 0
    requires time <= 120 || (time <= 1200 && time % 10 == 0) || time % 120 < 6 * (time / 120)
    requires AllForward(Configured(T.Requests, limit, time, now), evs)
    ensures var n := time / WindowsOf(time).size;
            var t := Run(Configured(T.Requests, limit, time, now), evs);
            && RequestsIn(t.log, lo, lo + n) <= limit
            && (AllNoSkip(Configured(T.Requests, limit, time, now), evs) ==>
                  (T.OnRequest(t.s, fn).1 <==> RequestsIn(t.log, t.window - n + 1, t.window + 1) < limit))
  {
    hide Run, AllForward, AllNoSkip, RequestsIn, T.OnRequest;
    OneLimiter(T.Requests, limit, time, now);
    LimiterFitsRing(time);
    var w := WindowsOf(time);
    var l := T.Limiter(T.Requests, limit, LimiterWindows(time));
    HardCap([l], w.count, w.size, now, evs, 0, lo, fn);
    if AllNoSkip(Configured(T.Requests, limit, time, now), evs) {
      RefusedWhenReached([l], w.count, w.size, now, evs, fn);
    }
  }

  /** Every function has fewer accepted requests than the limit. */
  ghost predicate AllBelow(log: seq<Entry>, lo: int, hi: int, limit: int) {
    forall fn :: FnIn(log, fn, lo, hi) < limit
  }

  /** The same for a limit of every function's requests. */
  lemma ConfiguredFnLimit(limit: int, time: nat, now: nat, evs: seq<Event>, lo: int, fn: string)
    requires limit > 0 && time > 0
    requires time <= 120 || (time <= 1200 && time % 10 == 0) || time % 120 < 6 * (time / 120)
    requires AllForward(Configured(T.RequestsPerFn, limit, time, now), evs)
    ensures var n := time / WindowsOf(time).size;
            var t := Run(Configured(T.RequestsPerFn, limit, time, now), evs);
            && FnIn(t.log, fn, lo, lo + n) <= limit
            && (AllNoSkip(Configured(T.RequestsPerFn, limit, time, now), evs) ==>
                  (T.OnRequest(t.s, fn).1 <==> AllBelow(t.log, t.window - n + 1, t.window + 1, limit)))
  {
    hide Run, AllForward, AllNoSkip, FnIn, T.OnRequest;
    OneLimiter(T.RequestsPerFn, limit, time, now);
    LimiterFitsRing(time);
    var w := WindowsOf(time);
    var l := T.Limiter(T.RequestsPerFn, limit, LimiterWindows(time));
    HardCap([l], w.count, w.size, now, evs, 0, lo, fn);
    if AllNoSkip(Configured(T.RequestsPerFn, limit, time, now), evs) {
      RefusedWhenReached([l], w.count, w.size, now, evs, fn);
      var t := Run(Configured(T.RequestsPerFn, limit, time, now), evs);
      AllBelowMeans(t.log, t.window, l);
      assert [l][0] == l;
    }
  }

  lemma AllBelowMeans(log: seq<Entry>, window: int, l: T.Limiter)
    requires l.kind.RequestsPerFn?
    ensures LogAtLimit(log, window, l) <==> !AllBelow(log, window - l.windows + 1, window + 1, l.maximum)
  {
    hide FnIn;
    var lo, hi := window - l.windows + 1, window + 1;
    if LogAtLimit(log, window, l) {
      var fn :| FnIn(log, fn, lo, hi) >= l.maximum;
      assert !(FnIn(log, fn, lo, hi) < l.maximum);
    }
  }

  lemma OneLimiter(kind: T.Kind, limit: int, time: nat, now: nat)
    requires time > 0
    ensures WindowsOf(time).count >= 120
    ensures Configured(kind, limit, time, now) ==
            Start([T.Limiter(kind, limit, LimiterWindows(time))], WindowsOf(time).count, WindowsOf(time).size, now)
  {
    CountPositive(time);
  }
}
