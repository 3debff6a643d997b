/**
 * The rate-limit policy: the per-plan quotas, the fixed windows a request
 * falls into, and the decision for one window given the count stored for it.
 * Instants are integer milliseconds since the epoch.
 */
module RateLimitPolicy {
  import opened Schema

  /** A quota: a number of requests per window, or no limit at all (the Pro plan). */
  datatype Limit = Finite(n: nat) | Unlimited

  /** The per-plan quotas: requests per minute window and per day window. */
  function Config(plan: Plan): (quota: (Limit, Limit))
    ensures quota.0.Unlimited? <==> plan == Pro
    ensures quota.1.Unlimited? <==> plan == Pro
    ensures plan != Pro ==> 0 < quota.0.n < quota.1.n
  {
    match plan
    case Free => (Finite(100), Finite(5000))
    case Basic => (Finite(1000), Finite(50000))
    case Pro => (Unlimited, Unlimited)
  }

  /** The quota of `plan` that applies to windows of type `t`. */
  function LimitFor(plan: Plan, t: WindowType): (l: Limit)
    ensures l.Unlimited? <==> plan == Pro
    ensures l.Finite? ==> l.n > 0
  {
    if t == Minute then Config(plan).0 else Config(plan).1
  }

  /** Whether a stored count is still under the quota. */
  predicate Admits(l: Limit, count: int) {
    l.Unlimited? || count < l.n
  }

  const MinuteMs: nat := 60000
  const DayMs: nat := 86400000
  const WeekMs: nat := 604800000

  /** The length of a window of type `t`. */
  function Duration(t: WindowType): (d: nat)
    ensures d > 0 && d % MinuteMs == 0
    ensures t == Day ==> d == 1440 * MinuteMs
  {
    if t == Minute then MinuteMs else DayMs
  }

  /**
   * The start of the window of type `t` that contains `now`: the instant
   * truncated to the minute, or to midnight (UTC).
   */
  function WindowStart(now: int, t: WindowType): (s: int)
    ensures s % Duration(t) == 0
    ensures s <= now < s + Duration(t)
  {
    now - now % Duration(t)
  }

  /** The end of the window that starts at `start`, which is also its reset time. */
  function WindowEnd(start: int, t: WindowType): (e: int)
    ensures e - start == Duration(t)
    ensures e > start
  {
    start + Duration(t)
  }

  /** Two multiples of a positive `d` that are less than `d` apart are equal. */
  lemma MultiplesApart(d: int, a: int, b: int)
    requires d > 0 && a % d == 0 && b % d == 0 && a <= b < a + d
    ensures a == b
  {
    var p, q := a / d, b / d;
    assert a == d * p && b == d * q;
    assert b - a == d * (q - p);
    MulAtLeast(d, q - p);
  }

  /** A positive multiple of `d` is at least `d`. */
  lemma {:induction false} MulAtLeast(d: int, k: int)
    requires d > 0
    ensures k >= 1 ==> d * k >= d
    ensures k <= -1 ==> d * k <= -d
    decreases if k < 0 then -k else k
  {
    if k > 1 {
      MulAtLeast(d, k - 1);
      assert d * k == d * (k - 1) + d;
    } else if k < -1 {
      MulAtLeast(d, k + 1);
      assert d * k == d * (k + 1) - d;
    }
  }

  /** A multiple of `d` is a window boundary for windows of length `d`. */
  lemma MultipleMod(d: int, k: int)
    requires d > 0
    ensures (d * k) % d == 0
  {
    var x := d * k;
    var j := k - x / d;
    assert d * j == x % d by {
      assert x == d * (x / d) + x % d;
      assert d * j == d * k - d * (x / d);
    }
    MulAtLeast(d, j);
  }

  /**
   * The window start is the only window boundary in `(now - d, now]`: any
   * aligned instant that contains `now` in its window is the window start.
   */
  lemma {:induction false} WindowStartUnique(now: int, t: WindowType, s: int)
    requires s % Duration(t) == 0 && s <= now < s + Duration(t)
    ensures s == WindowStart(now, t)
  {
    var w := WindowStart(now, t);
    if s <= w {
      MultiplesApart(Duration(t), s, w);
    } else {
      MultiplesApart(Duration(t), w, s);
    }
  }

  /** The window start is the latest boundary at or before `now`. */
  lemma {:induction false} WindowStartGreatest(now: int, t: WindowType, m: int)
    requires m % Duration(t) == 0 && m <= now
    ensures m <= WindowStart(now, t)
  {
    var w := WindowStart(now, t);
    if w < m {
      MultiplesApart(Duration(t), w, m);
    }
  }

  /** Two instants share a window exactly when they lie between the same boundaries. */
  lemma {:induction false} SameWindow(a: int, b: int, t: WindowType)
    ensures WindowStart(a, t) == WindowStart(b, t) <==>
      WindowStart(a, t) <= b < WindowEnd(WindowStart(a, t), t)
  {
    var s := WindowStart(a, t);
    if s <= b < WindowEnd(s, t) {
      WindowStartUnique(b, t, s);
    }
  }

  /** The minute window of `now` lies inside its day window. */
  lemma {:induction false} MinuteInsideDay(now: int)
    ensures WindowStart(now, Day) <= WindowStart(now, Minute)
    ensures WindowEnd(WindowStart(now, Minute), Minute) <= WindowEnd(WindowStart(now, Day), Day)
  {
    var d := WindowStart(now, Day);
    var m := WindowStart(now, Minute);
    var q := d / DayMs;
    assert d == DayMs * q;
    assert d == MinuteMs * (1440 * q);
    MultipleMod(MinuteMs, 1440 * q);
    WindowStartGreatest(now, Minute, d);
    var e := WindowEnd(d, Day);
    assert e == MinuteMs * (1440 * q + 1440);
    MultipleMod(MinuteMs, 1440 * q + 1440);
    if e < m + MinuteMs {
      MultiplesApart(MinuteMs, m, e);
    }
  }

  /** The outcome of checking one window. */
  datatype WindowResult = WindowResult(allowed: bool, remaining: Limit, resetTime: int, limit: Limit)

  /**
   * The decision for a finite quota: allowed while the stored count is below
   * the quota, and the requests left, never negative.
   */
  function Decide(count: int, limit: nat, resetTime: int): (r: WindowResult)
    ensures r.allowed <==> Admits(Finite(limit), count)
    ensures r.limit == Finite(limit) && r.remaining.Finite? && r.resetTime == resetTime
    ensures r.allowed <==> r.remaining.n > 0
    ensures r.remaining.n >= limit - count
    ensures r.remaining.n == 0 || r.remaining.n + count == limit
  {
    var remaining := if limit - count > 0 then limit - count else 0;
    WindowResult(count < limit, Finite(remaining), resetTime, Finite(limit))
  }

  /** The decision for an unlimited quota: always allowed, reset one window length from now. */
  function Unrestricted(now: int, t: WindowType): (r: WindowResult)
    ensures r.allowed && r.remaining.Unlimited? && r.limit.Unlimited?
    ensures r.resetTime - now == Duration(t)
  {
    WindowResult(true, Unlimited, now + Duration(t), Unlimited)
  }
}
