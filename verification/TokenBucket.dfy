/** The arithmetic of the local rate limiter: one lane of a token bucket with lazy refill.
    Durations are nanoseconds; times are nanoseconds since Go's zero time. */
module TokenBucket {

  const SECOND: int := 1_000_000_000

  /** The tokens of one request class in one bucket. */
  datatype Lane = Lane(tokens: int, max: int, rate: int, last: int)

  function RefillInterval(window: nat, rate: int): nat {
    if rate <= 0 then window
    else if window / rate < 1 then 1
    else window / rate
  }

  /** A bucket without a window uses one second. */
  function EffectiveWindow(window: nat): (w: nat)
    ensures w > 0
  {
    if window == 0 then SECOND else window
  }

  function Refill(l: Lane, now: int, window: nat): Lane
    requires window > 0
  {
    var interval := RefillInterval(window, l.rate);
    if l.rate <= 0 || now - l.last < interval then l
    else
      var amount := (now - l.last) / interval;
      l.(tokens := if l.tokens + amount > l.max then l.max else l.tokens + amount,
         last := l.last + amount * interval)
  }

  /** One request: refill, then consume a token if there is one. */
  function Take(l: Lane, now: int, window: nat): (Lane, bool)
    requires window > 0
  {
    var r := Refill(l, now, window);
    if r.tokens > 0 then (r.(tokens := r.tokens - 1), true) else (r, false)
  }

  /** Whole seconds until the next token, rounded up; asked of a lane just refilled. */
  function RetryAfter(l: Lane, now: int, window: nat): int
    requires window > 0
  {
    if l.tokens > 0 || l.rate <= 0 then 1
    else
      var remaining := RefillInterval(window, l.rate) - (now - l.last);
      ((if remaining < 0 then 0 else remaining) + SECOND - 1) / SECOND
  }

  function NewLane(max: int, now: int): Lane {
    Lane(max, max, max, now)
  }

  // ---------------------------------------------------------------- division

  lemma MultipleIsAtLeast(k: int, d: int)
    requires k >= 1 && d > 0
    ensures k * d >= d
  {
    assert (k - 1) * d >= 0;
  }

  lemma Difference(a: int, b: int, d: int)
    ensures (a - b) * d == a * d - b * d
  {
  }

  lemma DivisionIsUnique(x: int, q: int, r: int, d: int)
    requires d > 0 && x == q * d + r && 0 <= r < d
    ensures x / d == q
  {
    var q', r' := x / d, x % d;
    assert x == q' * d + r';
    Difference(q', q, d);
    Difference(q, q', d);
    if q' > q {
      MultipleIsAtLeast(q' - q, d);
    } else if q' < q {
      MultipleIsAtLeast(q - q', d);
    }
  }

  lemma DivisionShift(x: int, k: int, d: int)
    requires d > 0
    ensures (x + k * d) / d == x / d + k
  {
    DivisionIsUnique(x + k * d, x / d + k, x % d, d);
  }

  lemma DivisionMonotone(x: int, y: int, d: int)
    requires d > 0 && x <= y
    ensures x / d <= y / d
  {
    var p, q := x / d, y / d;
    assert x == p * d + x % d && y == q * d + y % d;
    if p > q {
      Difference(p, q, d);
      MultipleIsAtLeast(p - q, d);
    }
  }

  /** The interval is the window divided by the rate, rounded down to whole nanoseconds but never
      to zero; without a rate it is the window. */
  lemma IntervalIsQuotient(window: nat, rate: int)
    ensures rate <= 0 ==> RefillInterval(window, rate) == window
    ensures rate > window ==> RefillInterval(window, rate) == 1
    ensures 1 <= rate <= window ==>
              RefillInterval(window, rate) == window / rate
              && RefillInterval(window, rate) * rate <= window < (RefillInterval(window, rate) + 1) * rate
  {
    if 1 <= rate <= window {
      DivisionMonotone(rate, window, rate);
      assert rate / rate == 1;
      assert window == window / rate * rate + window % rate;
      Difference(window / rate + 1, 1, rate);
    } else if rate > window {
      DivisionIsUnique(window, 0, window, rate);
    }
  }

  /** A full bucket's worth of intervals fits in the window. */
  lemma CapacityFitsWindow(window: nat, max: int)
    requires 1 <= max <= window
    ensures RefillInterval(window, max) >= 1 && max * RefillInterval(window, max) <= window
  {
    DivisionMonotone(max, window, max);
    assert max / max == 1;
    assert window / max * max <= window;
  }

  // ---------------------------------------------------------------- Retry-After

  /** A refused lane that holds at least one token at most has exactly none, and Retry-After is
      the least number of whole seconds after which a retry with nothing in between succeeds. */
  lemma RetryAfterIsLeast(l: Lane, now: int, window: nat, seconds: nat)
    requires window > 0 && l.max >= 1 && l.rate >= 1 && 0 <= l.tokens <= l.max && l.last <= now
    requires !Take(l, now, window).1
    ensures var refused := Take(l, now, window).0;
            Take(refused, now + seconds * 1_000_000_000, window).1 <==> seconds >= RetryAfter(refused, now, window)
  {
    var r := Refill(l, now, window);
    var interval := RefillInterval(window, l.rate);
    assert interval / interval == 1;
    if now - l.last >= interval {
      DivisionMonotone(interval, now - l.last, interval);
    }
    assert r == l && l.tokens == 0;
    var remaining := interval - (now - r.last);
    assert 0 < remaining;
    var wait := seconds * SECOND;
    assert wait >= remaining <==> seconds >= (remaining + SECOND - 1) / SECOND;
    if wait >= remaining {
      DivisionMonotone(interval, now + wait - r.last, interval);
    }
  }

  // ---------------------------------------------------------------- the rate bound of one lane

  function Ticks(interval: int, t0: int, t: int): int
    requires interval > 0
  {
    (t - t0) / interval
  }

  /** Tokens given out so far, plus those still in the lane, never exceed the capacity plus one
      token per interval up to the lane's own clock. */
  predicate WithinRate(l: Lane, allowed: nat, interval: int, t0: int)
    requires interval > 0
  {
    0 <= l.tokens <= l.max && t0 <= l.last && allowed + l.tokens <= l.max + Ticks(interval, t0, l.last)
  }

  lemma TakeKeepsRate(l: Lane, allowed: nat, window: nat, now: int, t0: int)
    requires window > 0 && l.rate == l.max >= 1 && l.last <= now
    requires WithinRate(l, allowed, RefillInterval(window, l.rate), t0)
    ensures var (l', ok) := Take(l, now, window);
            WithinRate(l', allowed + (if ok then 1 else 0), RefillInterval(window, l.rate), t0) && l'.last <= now
            && l'.max == l.max && l'.rate == l.rate
  {
    var interval := RefillInterval(window, l.rate);
    if now - l.last >= interval {
      var amount := (now - l.last) / interval;
      DivisionMonotone(0, now - l.last, interval);
      DivisionShift(l.last - t0, amount, interval);
      assert amount * interval <= now - l.last;
      assert 0 <= amount * interval;
    }
  }

  /** Forgetting a lane that has been idle for a whole window and starting over with a full one
      gives away nothing: by then the lane would have been full anyway. */
  lemma FreshLaneKeepsRate(allowed: nat, max: int, window: nat, last: int, now: int, t0: int)
    requires 1 <= max <= window && t0 <= last && now - last >= window
    requires allowed <= max + Ticks(RefillInterval(window, max), t0, last)
    ensures allowed + max <= max + Ticks(RefillInterval(window, max), t0, now)
  {
    var interval := RefillInterval(window, max);
    CapacityFitsWindow(window, max);
    DivisionShift(last - t0, max, interval);
    DivisionMonotone(last - t0 + max * interval, now - t0, interval);
  }

  // ---------------------------------------------------------------- the eager bucket

  /** `n` interval ticks, each adding one token unless the bucket is full. */
  function Tick(tokens: int, max: int, n: nat): int {
    if n == 0 then tokens
    else
      var t := Tick(tokens, max, n - 1);
      if t < max then t + 1 else t
  }

  lemma {:induction false} TickClosedForm(tokens: int, max: int, n: nat)
    ensures Tick(tokens, max, n) == if tokens >= max then tokens else if tokens + n >= max then max else tokens + n
  {
    if n > 0 {
      TickClosedForm(tokens, max, n - 1);
    }
  }

  /** The tokens that an eager bucket holds at time `t`: full at `t0`, one tick at every multiple
      of the interval, and one token less at each time in `taken`. */
  function EagerTokens(max: int, interval: int, t0: int, taken: seq<int>, t: int): int
    requires interval > 0
    decreases |taken|
  {
    var since := if taken == [] then t0 else taken[|taken| - 1];
    var tokens := if taken == [] then max else EagerTokens(max, interval, t0, taken[..|taken| - 1], since) - 1;
    var n := Ticks(interval, t0, t) - Ticks(interval, t0, since);
    if n < 0 then tokens else Tick(tokens, max, n)
  }

  /** The lane lags behind the eager bucket by whole ticks only. */
  ghost predicate Lags(l: Lane, interval: int, t0: int, taken: seq<int>, clock: int)
    requires interval > 0
  {
    && l.rate == l.max && l.tokens <= l.max && (if l.max <= 0 then l.tokens == l.max else 0 <= l.tokens)
    && t0 <= l.last <= clock && l.last == t0 + Ticks(interval, t0, l.last) * interval
    && forall t :: clock <= t ==> EagerTokens(l.max, interval, t0, taken, t) == Caught(l, interval, t0, t)
  }

  /** The lane's tokens after the ticks it has not seen yet. */
  function Caught(l: Lane, interval: int, t0: int, t: int): int
    requires interval > 0
  {
    var n := Ticks(interval, t0, t) - Ticks(interval, t0, l.last);
    if n < 0 then l.tokens else Tick(l.tokens, l.max, n)
  }

  /** Refilling adds exactly the ticks between the lane's own time and now. */
  lemma RefillAddsTicks(l: Lane, window: nat, t0: int, now: int)
    requires window > 0 && l.rate >= 1 && t0 <= l.last <= now
    requires var interval := RefillInterval(window, l.rate);
             l.last == t0 + Ticks(interval, t0, l.last) * interval
    ensures var interval, r := RefillInterval(window, l.rate), Refill(l, now, window);
            && t0 <= r.last <= now && r.last == t0 + Ticks(interval, t0, r.last) * interval
            && Ticks(interval, t0, l.last) <= Ticks(interval, t0, r.last) == Ticks(interval, t0, now)
            && r == l.(tokens := r.tokens, last := r.last)
            && (l.tokens <= l.max ==> r.tokens == Caught(l, interval, t0, now))
  {
    var interval, r := RefillInterval(window, l.rate), Refill(l, now, window);
    var k := Ticks(interval, t0, l.last);
    var amount := (now - l.last) / interval;
    DivisionShift(now - l.last, k, interval);
    DivisionMonotone(0, now - l.last, interval);
    DivisionShift(l.last - t0, amount, interval);
    TickClosedForm(l.tokens, l.max, amount);
    if now - l.last < interval {
      DivisionIsUnique(now - l.last, 0, now - l.last, interval);
    } else {
      assert 0 <= amount * interval <= now - l.last;
    }
  }

  /** Seeing some ticks now and the rest later is the same as seeing them all later. */
  lemma CatchingUpComposes(l: Lane, r: Lane, interval: int, t0: int, now: int, t: int)
    requires interval > 0 && l.last <= r.last <= now <= t && l.max == r.max && l.tokens <= l.max
    requires Ticks(interval, t0, l.last) <= Ticks(interval, t0, r.last) == Ticks(interval, t0, now)
    requires r.tokens == Caught(l, interval, t0, now)
    ensures Caught(r, interval, t0, t) == Caught(l, interval, t0, t)
  {
    DivisionMonotone(now - t0, t - t0, interval);
    var k, m, n := Ticks(interval, t0, l.last), Ticks(interval, t0, now), Ticks(interval, t0, t);
    TickClosedForm(l.tokens, l.max, m - k);
    TickClosedForm(l.tokens, l.max, n - k);
    TickClosedForm(r.tokens, l.max, n - m);
  }

  lemma RefillCatchesUp(l: Lane, window: nat, t0: int, taken: seq<int>, clock: int, now: int)
    requires window > 0 && clock <= now
    requires Lags(l, RefillInterval(window, l.rate), t0, taken, clock)
    ensures var interval, r := RefillInterval(window, l.rate), Refill(l, now, window);
            && r.tokens == EagerTokens(l.max, interval, t0, taken, now)
            && Lags(r, interval, t0, taken, now) && r.max == l.max && r.rate == l.rate
            && (l.max >= 1 ==> Ticks(interval, t0, r.last) == Ticks(interval, t0, now))
  {
    var interval, r := RefillInterval(window, l.rate), Refill(l, now, window);
    if l.max >= 1 {
      RefillAddsTicks(l, window, t0, now);
      TickClosedForm(l.tokens, l.max, Ticks(interval, t0, now) - Ticks(interval, t0, l.last));
      forall t | now <= t
        ensures EagerTokens(r.max, interval, t0, taken, t) == Caught(r, interval, t0, t)
      {
        CatchingUpComposes(l, r, interval, t0, now, t);
      }
    } else {
      DivisionMonotone(l.last - t0, now - t0, interval);
      TickClosedForm(l.tokens, l.max, Ticks(interval, t0, now) - Ticks(interval, t0, l.last));
    }
  }

  /** A lane made full at `t0` starts out level with the eager bucket. */
  lemma NewLaneLags(max: int, window: nat, t0: int)
    requires window > 0
    ensures RefillInterval(window, max) > 0
    ensures Lags(NewLane(max, t0), RefillInterval(window, max), t0, [], t0)
  {
    var interval := RefillInterval(window, max);
    assert Ticks(interval, t0, t0) == 0;
  }

  lemma LagsLater(l: Lane, interval: int, t0: int, taken: seq<int>, clock: int, later: int)
    requires interval > 0 && clock <= later && Lags(l, interval, t0, taken, clock)
    ensures Lags(l, interval, t0, taken, later)
  {
  }

  /** One request decides as the eager bucket does, and the lane goes on lagging behind the
      eager bucket that has lost a token just now if and only if the request was allowed. */
  lemma TakeDecidesEagerly(l: Lane, window: nat, t0: int, taken: seq<int>, clock: int, now: int)
    requires window > 0 && clock <= now
    requires Lags(l, RefillInterval(window, l.rate), t0, taken, clock)
    ensures var interval := RefillInterval(window, l.rate);
            var (l', ok) := Take(l, now, window);
            && (ok <==> EagerTokens(l.max, interval, t0, taken, now) > 0)
            && l'.max == l.max && l'.rate == l.rate
            && Lags(l', interval, t0, if ok then taken + [now] else taken, now)
  {
    var interval := RefillInterval(window, l.rate);
    RefillCatchesUp(l, window, t0, taken, clock, now);
    var (l', ok) := Take(l, now, window);
    if ok {
      TakenStillLags(Refill(l, now, window), interval, t0, taken, now);
    }
  }

  lemma TakenStillLags(l: Lane, interval: int, t0: int, taken: seq<int>, now: int)
    requires interval > 0 && Lags(l, interval, t0, taken, now) && Ticks(interval, t0, l.last) == Ticks(interval, t0, now)
    requires l.tokens == EagerTokens(l.max, interval, t0, taken, now) && l.tokens > 0
    ensures Lags(l.(tokens := l.tokens - 1), interval, t0, taken + [now], now)
  {
    forall t | now <= t
      ensures EagerTokens(l.max, interval, t0, taken + [now], t) == Caught(l.(tokens := l.tokens - 1), interval, t0, t)
    {
      EagerAfterTaking(l.max, interval, t0, taken, now, t);
    }
  }

  /** Taking a token makes the eager bucket go on from one token less. */
  lemma EagerAfterTaking(max: int, interval: int, t0: int, taken: seq<int>, now: int, t: int)
    requires interval > 0
    ensures EagerTokens(max, interval, t0, taken + [now], t) ==
            var n := Ticks(interval, t0, t) - Ticks(interval, t0, now);
            var left := EagerTokens(max, interval, t0, taken, now) - 1;
            if n < 0 then left else Tick(left, max, n)
  {
    assert (taken + [now])[..|taken|] == taken;
  }
}
