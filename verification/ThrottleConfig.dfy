/** How a configured time is cut into windows, and when the limiter's windows fit the ring. */
module ThrottleConfig {
  import opened Bytes

  /** The window size in seconds and the number of windows chosen for a time. */
  datatype Windows = Windows(size: int, count: int)

  /** The first divisor of `time` from i on and below `end`. */
  function SearchFrom(time: nat, i: nat, end: nat): Option<Windows>
    requires i > 0
    decreases end - i
  {
    if i >= end then None
    else if time % i == 0 then Some(Windows(i, time / i))
    else SearchFrom(time, i + 1, end)
  }

  /** The search looks from time/100 up to time/200, so over nothing at all. */
  lemma SearchFindsNothing(time: nat)
    requires time > 120
    ensures SearchFrom(time, time / 100, time / 200) == None
  {
  }

  function WindowsOf(time: int): (w: Windows)
    ensures w.size > 0
  {
    if time <= 120 then Windows(1, 120)
    else if time <= 1200 && time % 10 == 0 then Windows(10, 120)
    else
      SearchFindsNothing(time);
      match SearchFrom(time, time / 100, time / 200)
      case Some(w) => w
      case None => Windows(time / 120, 125)
  }

  method Search(time: nat, start: nat, end: nat) returns (w: Option<Windows>)
    requires start > 0
    ensures w == SearchFrom(time, start, end)
  {
    var i := start;
    while i < end
      invariant start <= i
      invariant SearchFrom(time, i, end) == SearchFrom(time, start, end)
    {
      if time % i == 0 { return Some(Windows(i, time / i)); }
      i := i + 1;
    }
    return None;
  }

  /** _get_timewindow_len. */
  method WindowsFor(time: int) returns (w: Windows)
    ensures w == WindowsOf(time)
  {
    if time <= 120 { return Windows(1, 120); }
    if time <= 1200 {
      if time % 10 == 0 { return Windows(10, 120); }
    }
    var found := Search(time, time / 100, time / 200);
    match found {
      case Some(f) => w := f;
      case None => w := Windows(time / 120, 125);
    }
  }

  /** The windows a limiter of that time spans, as AddLimiter computes it. */
  function LimiterWindows(time: nat): nat
    requires time > 0
  {
    time / WindowsOf(time).size
  }

  lemma DivBounds(t: nat, q: nat)
    requires q > 0
    ensures t / q * q <= t < t / q * q + q
  {
  }

  lemma QuotientAtMost(t: nat, q: nat, m: nat)
    requires q > 0
    ensures t / q <= m <==> t < q * (m + 1)
  {
    DivBounds(t, q);
    var d := t / q;
    if d <= m {
      MulMonotone(d, m, q);
    } else {
      MulMonotone(m + 1, d, q);
    }
  }

  lemma MulMonotone(a: nat, b: nat, q: nat)
    requires a <= b
    ensures a * q <= b * q
  {
    assert b * q == a * q + (b - a) * q;
  }

  /**
   A limiter always spans at least one window. It fits the ring exactly when the time is at
   most 120, or at most 1200 and a multiple of 10, or leaves a remainder by 120 under 6
   seconds for each whole 120.
  */
  lemma LimiterFitsRing(time: nat)
    requires time > 0
    ensures LimiterWindows(time) >= 1
    ensures LimiterWindows(time) <= WindowsOf(time).count <==>
            time <= 120 || (time <= 1200 && time % 10 == 0) || time % 120 < 6 * (time / 120)
  {
    if time > 120 && !(time <= 1200 && time % 10 == 0) {
      SearchFindsNothing(time);
      var q := time / 120;
      QuotientAtMost(time, q, 125);
      QuotientAtMost(time, q, 0);
      assert time == 120 * q + time % 120;
    }
  }

  /** What is chosen, search and all, for every time. */
  lemma WindowsMeans(time: int)
    ensures time <= 120 ==> WindowsOf(time) == Windows(1, 120)
    ensures 120 < time <= 1200 && time % 10 == 0 ==> WindowsOf(time) == Windows(10, 120)
    ensures time > 120 && !(time <= 1200 && time % 10 == 0) ==>
              var w := WindowsOf(time); w.count == 125 && 120 * w.size <= time < 120 * (w.size + 1)
  {
    if time > 120 { SearchFindsNothing(time); }
  }

  /** From 40 minutes on it always fits. */
  lemma LongTimesFit(time: nat)
    requires time >= 2400
    ensures LimiterWindows(time) <= WindowsOf(time).count
  {
    LimiterFitsRing(time);
  }
}
