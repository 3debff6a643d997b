/**
 * The rate-limit service as transitions of the `rate_limits` table: checking
 * one window, counting a request, the joint minute-and-day admission, and the
 * periodic cleanup. The `users` table is a map from user id to plan; `now` is
 * the clock reading of the call.
 */
module Admission {
  import opened Schema
  import opened RateLimitTable
  import opened RateLimitPolicy

  datatype Error = UserNotFound

  datatype Result<T> = Ok(value: T) | Err(error: Error)

  /** The answer of the joint check: both window results and the verdict. */
  datatype Decision = Decision(minuteLimit: WindowResult, dayLimit: WindowResult, allowed: bool)

  type Users = map<string, Plan>

  /**
   * The count a check reads for user `u`'s window of type `t` that starts at
   * `start`: the count of the row the lookup finds, or 0 when there is none
   * (the check then creates a row with count 0).
   */
  function Observed(rows: seq<RateLimit>, u: string, t: WindowType, start: int): (count: int) {
    match First(rows, ByUserWindowFrom(u, t, start))
    case None => 0
    case Some(r) => r.requestCount
  }

  /**
   * `checkRateLimit(u, t)`: an unknown user is an error; an unlimited plan is
   * allowed without touching the table; otherwise the window's row is found or
   * created with count 0 and its count is compared with the quota.
   */
  function CheckStep(tbl: Table, users: Users, u: string, t: WindowType, now: int): (out: (Result<WindowResult>, Table)) {
    if u !in users then (Err(UserNotFound), tbl)
    else
      match LimitFor(users[u], t)
      case Unlimited => (Ok(Unrestricted(now, t)), tbl)
      case Finite(n) =>
        var start := WindowStart(now, t);
        var found := First(tbl.rows, ByUserWindowFrom(u, t, start));
        var created := Insert(tbl, u, t, start, 0);
        var row := if found.Some? then found.value else created.0;
        var tbl' := if found.Some? then tbl else created.1;
        (Ok(Decide(row.requestCount, n, WindowEnd(start, t))), tbl')
  }

  /**
   * `incrementCounter(u, t)`: add one to the current window's row, or create
   * it with count 1. The user is not looked up.
   */
  function IncrementStep(tbl: Table, u: string, t: WindowType, now: int): (tbl': Table) {
    var start := WindowStart(now, t);
    var found := First(tbl.rows, ByUserWindowFrom(u, t, start));
    if found.Some? then IncrementById(tbl, found.value.id).1
    else Insert(tbl, u, t, start, 1).1
  }

  /**
   * `checkAndIncrementRateLimit(u)`: check the minute and the day window and
   * count the request in both only when both allow it.
   */
  function JointStep(tbl: Table, users: Users, u: string, now: int): (r: (Result<Decision>, Table))
    ensures u !in users ==> r == (Err(UserNotFound), tbl)
    ensures u in users ==> r.0.Ok?
  {
    // Both checks look the user up; when it is missing both fail before any write.
    if u !in users then (Err(UserNotFound), tbl)
    else
      var (m, t1) := CheckStep(tbl, users, u, Minute, now);
      var (d, t2) := CheckStep(t1, users, u, Day, now);
      var allowed := m.value.allowed && d.value.allowed;
      var t3 := if allowed then IncrementStep(IncrementStep(t2, u, Minute, now), u, Day, now) else t2;
      (Ok(Decision(m.value, d.value, allowed)), t3)
  }

  /**
   * `cleanupExpiredRecords()`: drop minute rows that started more than a day
   * ago, then day rows that started more than a week ago.
   */
  function CleanupStep(tbl: Table, now: int): (tbl': Table) {
    var t1 := DeleteWhere(tbl, ExpiredOfType(Minute, now - DayMs)).1;
    DeleteWhere(t1, ExpiredOfType(Day, now - WeekMs)).1
  }

  /** The verdicts of joint checks made at the given instants, one after the other. */
  function Admissions(tbl: Table, users: Users, u: string, times: seq<int>): (s: seq<bool>)
    ensures |s| == |times|
    decreases |times|
  {
    if times == [] then []
    else
      var (r, tbl') := JointStep(tbl, users, u, times[0]);
      [r.Ok? && r.value.allowed] + Admissions(tbl', users, u, times[1..])
  }

  // ---------------------------------------------------------------------------
  // What a check, an increment and a cleanup do to the counts
  // ---------------------------------------------------------------------------

  /** A row created with count 0 changes no count that any check reads. */
  lemma ObservedAppendZero(rows: seq<RateLimit>, x: RateLimit)
    requires x.requestCount == 0
    ensures forall v, t, s :: Observed(rows + [x], v, t, s) == Observed(rows, v, t, s)
  {
    forall v, t, s ensures Observed(rows + [x], v, t, s) == Observed(rows, v, t, s) {
      FirstAppend(rows, x, ByUserWindowFrom(v, t, s));
    }
  }

  /** Under the primary-key constraint, two rows with the same id are the same row. */
  lemma SameIdSameRow(rows: seq<RateLimit>, x: RateLimit, y: RateLimit)
    requires IdsDistinct(rows) && x in rows && y in rows && x.id == y.id
    ensures x == y
  {
  }

  /**
   * Adding one to a row changes only the counts read through that row, and
   * those by exactly one.
   */
  lemma ObservedIncrementRow(tbl: Table, row: RateLimit, v: string, t: WindowType, s: int)
    requires Valid(tbl) && row in tbl.rows
    ensures Observed(IncrementById(tbl, row.id).1.rows, v, t, s) ==
      Observed(tbl.rows, v, t, s) + (if First(tbl.rows, ByUserWindowFrom(v, t, s)) == Some(row) then 1 else 0)
  {
    var k :| 0 <= k < |tbl.rows| && tbl.rows[k] == row;
    FirstByIdOfMember(tbl.rows, k);
    IncrementByIdFound(tbl, row.id, row);
    var c := ByUserWindowFrom(v, t, s);
    FirstSetCount(tbl.rows, ById(row.id), row.requestCount + 1, c);
    var f := First(tbl.rows, c);
    if f.Some? && f.value.id == row.id {
      SameIdSameRow(tbl.rows, f.value, row);
    }
  }

  /**
   * A check never changes a count: it at most creates its window's row with
   * count 0, after the existing rows. Its verdict is the decision on the count
   * it read, and an unknown user or an unlimited plan leaves the table as it was.
   */
  lemma CheckStepSpec(tbl: Table, users: Users, u: string, t: WindowType, now: int)
    requires Valid(tbl)
    ensures var (r, tbl') := CheckStep(tbl, users, u, t, now);
      && Valid(tbl')
      && (forall v, t', s :: Observed(tbl'.rows, v, t', s) == Observed(tbl.rows, v, t', s))
      && AddsOnlyZeroRows(tbl.rows, tbl'.rows) && |tbl'.rows| <= |tbl.rows| + 1
      && (u !in users ==> r == Err(UserNotFound) && tbl' == tbl)
      && (u in users && users[u] == Pro ==> r == Ok(Unrestricted(now, t)) && tbl' == tbl)
      && (u in users && users[u] != Pro ==>
            var start := WindowStart(now, t);
            && r == Ok(Decide(Observed(tbl.rows, u, t, start), LimitFor(users[u], t).n, WindowEnd(start, t)))
            && (First(tbl.rows, ByUserWindowFrom(u, t, start)).Some? ==> tbl' == tbl)
            && (First(tbl.rows, ByUserWindowFrom(u, t, start)).None? ==>
                  && |tbl'.rows| == |tbl.rows| + 1
                  && tbl'.rows[|tbl.rows|].userId == u
                  && tbl'.rows[|tbl.rows|].windowType == t
                  && tbl'.rows[|tbl.rows|].windowStart == start
                  && tbl'.rows[|tbl.rows|].requestCount == 0))
  {
    if u in users && users[u] != Pro {
      var start := WindowStart(now, t);
      var found := First(tbl.rows, ByUserWindowFrom(u, t, start));
      if found.None? {
        var created := Insert(tbl, u, t, start, 0);
        ObservedAppendZero(tbl.rows, created.0);
      }
    }
  }

  /** `after` keeps every row of `before` in place and only appends rows with count 0. */
  predicate AddsOnlyZeroRows(before: seq<RateLimit>, after: seq<RateLimit>) {
    before <= after && forall k | |before| <= k < |after| :: after[k].requestCount == 0
  }

  lemma AddsOnlyZeroRowsTrans(a: seq<RateLimit>, b: seq<RateLimit>, c: seq<RateLimit>)
    requires AddsOnlyZeroRows(a, b) && AddsOnlyZeroRows(b, c)
    ensures AddsOnlyZeroRows(a, c)
  {
    forall k | |a| <= k < |c| ensures c[k].requestCount == 0 {
      if k < |b| {
        assert c[k] == b[k];
      }
    }
  }

  /**
   * Counting a request adds one to the count of its own window and changes no
   * count of another user or of the other window type.
   */
  lemma IncrementStepSpec(tbl: Table, u: string, t: WindowType, now: int)
    requires Valid(tbl)
    ensures var tbl' := IncrementStep(tbl, u, t, now);
      && Valid(tbl')
      && Observed(tbl'.rows, u, t, WindowStart(now, t)) == Observed(tbl.rows, u, t, WindowStart(now, t)) + 1
      && forall v, t', s | v != u || t' != t :: Observed(tbl'.rows, v, t', s) == Observed(tbl.rows, v, t', s)
  {
    var start := WindowStart(now, t);
    var found := First(tbl.rows, ByUserWindowFrom(u, t, start));
    if found.Some? {
      var row := found.value;
      IncrementByIdSpec(tbl, row.id);
      ObservedIncrementRow(tbl, row, u, t, start);
      forall v, t', s | v != u || t' != t
        ensures Observed(IncrementStep(tbl, u, t, now).rows, v, t', s) == Observed(tbl.rows, v, t', s)
      {
        ObservedIncrementRow(tbl, row, v, t', s);
      }
    } else {
      var created := Insert(tbl, u, t, start, 1);
      FirstAppend(tbl.rows, created.0, ByUserWindowFrom(u, t, start));
      forall v, t', s | v != u || t' != t
        ensures Observed(IncrementStep(tbl, u, t, now).rows, v, t', s) == Observed(tbl.rows, v, t', s)
      {
        FirstAppend(tbl.rows, created.0, ByUserWindowFrom(v, t', s));
      }
    }
  }

  // ---------------------------------------------------------------------------
  // The joint admission
  // ---------------------------------------------------------------------------

  /**
   * A request is admitted exactly when both of its windows are under quota;
   * an admitted request adds one to both counts, a rejected one changes no
   * count at all, and no other user's counts move.
   */
  lemma JointStepSpec(tbl: Table, users: Users, u: string, now: int)
    requires Valid(tbl) && u in users
    ensures var (r, tbl') := JointStep(tbl, users, u, now);
      var p := users[u];
      var ms := WindowStart(now, Minute);
      var ds := WindowStart(now, Day);
      var cm := Observed(tbl.rows, u, Minute, ms);
      var cd := Observed(tbl.rows, u, Day, ds);
      && Valid(tbl')
      && r.Ok?
      && r.value.minuteLimit.allowed == Admits(LimitFor(p, Minute), cm)
      && r.value.dayLimit.allowed == Admits(LimitFor(p, Day), cd)
      && (r.value.allowed <==> Admits(LimitFor(p, Minute), cm) && Admits(LimitFor(p, Day), cd))
      && (p != Pro ==> r.value.minuteLimit == Decide(cm, LimitFor(p, Minute).n, WindowEnd(ms, Minute)))
      && (p != Pro ==> r.value.dayLimit == Decide(cd, LimitFor(p, Day).n, WindowEnd(ds, Day)))
      && Observed(tbl'.rows, u, Minute, ms) == cm + (if r.value.allowed then 1 else 0)
      && Observed(tbl'.rows, u, Day, ds) == cd + (if r.value.allowed then 1 else 0)
      && (forall v, t, s | v != u :: Observed(tbl'.rows, v, t, s) == Observed(tbl.rows, v, t, s))
      && (!r.value.allowed ==> forall v, t, s :: Observed(tbl'.rows, v, t, s) == Observed(tbl.rows, v, t, s))
      && (!r.value.allowed ==> AddsOnlyZeroRows(tbl.rows, tbl'.rows))
  {
    var ms := WindowStart(now, Minute);
    var ds := WindowStart(now, Day);
    CheckStepSpec(tbl, users, u, Minute, now);
    var (m, t1) := CheckStep(tbl, users, u, Minute, now);
    CheckStepSpec(t1, users, u, Day, now);
    var (d, t2) := CheckStep(t1, users, u, Day, now);
    assert Observed(t1.rows, u, Day, ds) == Observed(tbl.rows, u, Day, ds);
    if m.value.allowed && d.value.allowed {
      IncrementStepSpec(t2, u, Minute, now);
      var t3 := IncrementStep(t2, u, Minute, now);
      IncrementStepSpec(t3, u, Day, now);
      var t4 := IncrementStep(t3, u, Day, now);
      assert Observed(t3.rows, u, Day, ds) == Observed(t2.rows, u, Day, ds);
      assert Observed(t4.rows, u, Minute, ms) == Observed(t3.rows, u, Minute, ms);
      forall v, t, s | v != u ensures Observed(t4.rows, v, t, s) == Observed(tbl.rows, v, t, s) {
        assert Observed(t3.rows, v, t, s) == Observed(t2.rows, v, t, s);
        assert Observed(t2.rows, v, t, s) == Observed(t1.rows, v, t, s);
      }
    } else {
      forall v, t, s ensures Observed(t2.rows, v, t, s) == Observed(tbl.rows, v, t, s) {
        assert Observed(t2.rows, v, t, s) == Observed(t1.rows, v, t, s);
      }
      AddsOnlyZeroRowsTrans(tbl.rows, t1.rows, t2.rows);
    }
  }

  /** The part of the joint step that the ceiling argument needs: verdict and both counts. */
  lemma JointStepCounts(tbl: Table, users: Users, u: string, now: int, ms: int, ds: int)
    requires Valid(tbl) && u in users
    requires WindowStart(now, Minute) == ms && WindowStart(now, Day) == ds
    ensures var (r, tbl') := JointStep(tbl, users, u, now);
      var admitted := Admits(LimitFor(users[u], Minute), Observed(tbl.rows, u, Minute, ms))
                   && Admits(LimitFor(users[u], Day), Observed(tbl.rows, u, Day, ds));
      && Valid(tbl')
      && r.Ok? && r.value.allowed == admitted
      && Observed(tbl'.rows, u, Minute, ms) == Observed(tbl.rows, u, Minute, ms) + (if admitted then 1 else 0)
      && Observed(tbl'.rows, u, Day, ds) == Observed(tbl.rows, u, Day, ds) + (if admitted then 1 else 0)
  {
    JointStepSpec(tbl, users, u, now);
  }

  /**
   * The verdicts of requests that find the counts `cm` and `cd` under the
   * quotas `lm` and `ld`: the `i`-th is admitted exactly when both counts
   * plus `i` are under quota.
   */
  predicate Ceiling(a: seq<bool>, lm: Limit, ld: Limit, cm: int, cd: int) {
    forall i | 0 <= i < |a| :: a[i] <==> Admits(lm, cm + i) && Admits(ld, cd + i)
  }

  /**
   * One more verdict in front: admitted requests move both counts up by one,
   * and a rejection leaves them where they are, already at a quota.
   */
  lemma CeilingCons(admitted: bool, b: seq<bool>, lm: Limit, ld: Limit, cm: int, cd: int)
    requires admitted == (Admits(lm, cm) && Admits(ld, cd))
    requires Ceiling(b, lm, ld, cm + (if admitted then 1 else 0), cd + (if admitted then 1 else 0))
    ensures Ceiling([admitted] + b, lm, ld, cm, cd)
  {
    var a := [admitted] + b;
    forall i | 1 <= i < |a| ensures a[i] <==> Admits(lm, cm + i) && Admits(ld, cd + i) {
      assert a[i] == b[i - 1];
    }
  }

  /**
   * Requests made within one minute window and one day window are admitted
   * in order while both counts stay under quota, and from the first
   * rejection on never again. So a window never admits more than its quota.
   */
  lemma {:induction false} StrictCeiling(tbl: Table, users: Users, u: string, times: seq<int>, ms: int, ds: int)
    requires Valid(tbl) && u in users
    requires forall i | 0 <= i < |times| :: WindowStart(times[i], Minute) == ms && WindowStart(times[i], Day) == ds
    ensures Ceiling(Admissions(tbl, users, u, times), LimitFor(users[u], Minute), LimitFor(users[u], Day),
                    Observed(tbl.rows, u, Minute, ms), Observed(tbl.rows, u, Day, ds))
    decreases |times|
  {
    if times != [] {
      var lm, ld := LimitFor(users[u], Minute), LimitFor(users[u], Day);
      var cm, cd := Observed(tbl.rows, u, Minute, ms), Observed(tbl.rows, u, Day, ds);
      JointStepCounts(tbl, users, u, times[0], ms, ds);
      var (r, tbl') := JointStep(tbl, users, u, times[0]);
      var rest := times[1..];
      assert forall i | 0 <= i < |rest| :: rest[i] == times[i + 1];
      StrictCeiling(tbl', users, u, rest, ms, ds);
      CeilingCons(r.value.allowed, Admissions(tbl', users, u, rest), lm, ld, cm, cd);
    }
  }

  /** The number of admitted requests in a sequence of verdicts. */
  function CountAdmitted(s: seq<bool>): (n: nat)
    ensures n <= |s|
  {
    if s == [] then 0 else (if s[0] then 1 else 0) + CountAdmitted(s[1..])
  }

  /** Verdicts that are true only at indices below `k` admit at most `k` requests. */
  lemma {:induction false} CountAdmittedBelow(s: seq<bool>, k: int)
    requires forall i | 0 <= i < |s| && s[i] :: i < k
    ensures CountAdmitted(s) <= if k > 0 then k else 0
  {
    if s != [] {
      var tail := s[1..];
      assert forall i | 0 <= i < |tail| :: tail[i] == s[i + 1];
      CountAdmittedBelow(tail, k - 1);
    }
  }

  /**
   * For a plan with quotas, the requests admitted within one minute window and
   * one day window never take either count past its quota.
   */
  lemma AdmittedWithinQuota(tbl: Table, users: Users, u: string, times: seq<int>, ms: int, ds: int)
    requires Valid(tbl) && u in users && users[u] != Pro
    requires forall i | 0 <= i < |times| :: WindowStart(times[i], Minute) == ms && WindowStart(times[i], Day) == ds
    ensures var a := CountAdmitted(Admissions(tbl, users, u, times));
      && a <= (if LimitFor(users[u], Minute).n > Observed(tbl.rows, u, Minute, ms)
               then LimitFor(users[u], Minute).n - Observed(tbl.rows, u, Minute, ms) else 0)
      && a <= (if LimitFor(users[u], Day).n > Observed(tbl.rows, u, Day, ds)
               then LimitFor(users[u], Day).n - Observed(tbl.rows, u, Day, ds) else 0)
  {
    StrictCeiling(tbl, users, u, times, ms, ds);
    var s := Admissions(tbl, users, u, times);
    assert Ceiling(s, LimitFor(users[u], Minute), LimitFor(users[u], Day),
                   Observed(tbl.rows, u, Minute, ms), Observed(tbl.rows, u, Day, ds));
    CountAdmittedBelow(s, LimitFor(users[u], Minute).n - Observed(tbl.rows, u, Minute, ms));
    CountAdmittedBelow(s, LimitFor(users[u], Day).n - Observed(tbl.rows, u, Day, ds));
  }

  /**
   * Starting from an empty minute window and an empty day window, a plan with
   * minute quota N admits the first N requests of the minute and rejects
   * every later one.
   */
  lemma EmptyWindowQuota(tbl: Table, users: Users, u: string, times: seq<int>, ms: int, ds: int)
    requires Valid(tbl) && u in users && users[u] != Pro
    requires forall i | 0 <= i < |times| :: WindowStart(times[i], Minute) == ms && WindowStart(times[i], Day) == ds
    requires Observed(tbl.rows, u, Minute, ms) == 0 && Observed(tbl.rows, u, Day, ds) == 0
    ensures var a := Admissions(tbl, users, u, times);
      forall i | 0 <= i < |a| :: a[i] <==> i < LimitFor(users[u], Minute).n
  {
    StrictCeiling(tbl, users, u, times, ms, ds);
    assert LimitFor(users[u], Minute).n < LimitFor(users[u], Day).n by {
      assert Config(users[u]).0.n < Config(users[u]).1.n;
    }
  }

  /**
   * After `reset(u, t)`, the next check of that window type finds count 0:
   * it is allowed and reports the whole quota as remaining.
   */
  lemma ResetThenCheck(tbl: Table, users: Users, u: string, t: WindowType, now: int)
    requires Valid(tbl) && u in users && users[u] != Pro
    ensures var (r, _) := CheckStep(ResetWhere(tbl, u, Some(t)).1, users, u, t, now);
      r.Ok? && r.value.allowed && r.value.remaining == LimitFor(users[u], t)
  {
    FirstSetCount(tbl.rows, ByUserType(u, Some(t)), 0, ByUserWindowFrom(u, t, WindowStart(now, t)));
  }

  /** The Pro plan admits every request of a known user and still counts it in both windows. */
  lemma ProAlwaysAdmitted(tbl: Table, users: Users, u: string, now: int)
    requires Valid(tbl) && u in users && users[u] == Pro
    ensures var (r, tbl') := JointStep(tbl, users, u, now);
      && r.Ok? && r.value.allowed
      && r.value.minuteLimit == Unrestricted(now, Minute)
      && r.value.dayLimit == Unrestricted(now, Day)
      && Observed(tbl'.rows, u, Minute, WindowStart(now, Minute)) == Observed(tbl.rows, u, Minute, WindowStart(now, Minute)) + 1
      && Observed(tbl'.rows, u, Day, WindowStart(now, Day)) == Observed(tbl.rows, u, Day, WindowStart(now, Day)) + 1
  {
    JointStepSpec(tbl, users, u, now);
  }

  // ---------------------------------------------------------------------------
  // Cleanup
  // ---------------------------------------------------------------------------

  /** Cleanup deletes exactly the minute rows older than a day and the day rows older than a week. */
  lemma CleanupSpec(tbl: Table, now: int)
    requires Valid(tbl)
    ensures var tbl' := CleanupStep(tbl, now);
      && Valid(tbl') && tbl'.nextId == tbl.nextId
      && (forall x :: x in tbl'.rows <==>
            && x in tbl.rows
            && !(x.windowType == Minute && x.windowStart < now - DayMs)
            && !(x.windowType == Day && x.windowStart < now - WeekMs))
  {
    var c1 := ExpiredOfType(Minute, now - DayMs);
    DeleteWhereSpec(tbl, c1);
    DeleteWhereSpec(DeleteWhere(tbl, c1).1, ExpiredOfType(Day, now - WeekMs));
  }

  /**
   * Cleanup keeps every count a check at or after `now - DayMs` would read,
   * in particular those of the current windows.
   */
  lemma CleanupKeepsCurrent(tbl: Table, now: int)
    ensures var tbl' := CleanupStep(tbl, now);
      && (forall v, t, s | s >= now - DayMs :: Observed(tbl'.rows, v, t, s) == Observed(tbl.rows, v, t, s))
      && (forall v, t :: Observed(tbl'.rows, v, t, WindowStart(now, t)) == Observed(tbl.rows, v, t, WindowStart(now, t)))
  {
    var c1 := ExpiredOfType(Minute, now - DayMs);
    var c2 := ExpiredOfType(Day, now - WeekMs);
    var t1 := DeleteWhere(tbl, c1).1;
    var t2 := DeleteWhere(t1, c2).1;
    forall v, t, s | s >= now - DayMs ensures Observed(t2.rows, v, t, s) == Observed(tbl.rows, v, t, s) {
      FirstWithout(tbl.rows, c1, ByUserWindowFrom(v, t, s));
      FirstWithout(t1.rows, c2, ByUserWindowFrom(v, t, s));
    }
    forall v, t ensures Observed(t2.rows, v, t, WindowStart(now, t)) == Observed(tbl.rows, v, t, WindowStart(now, t)) {
      assert WindowStart(now, t) >= now - DayMs;
    }
  }
}
