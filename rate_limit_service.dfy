/**
 * `RateLimitService`: the request-path operations over a `RateLimitModel`
 * store. Each method makes the store calls of the source in the source's
 * order, and its effect is the matching transition of the `Admission` module,
 * where the properties of the service are proved.
 */
module RateLimitServices {
  import opened Schema
  import opened RateLimitTable
  import opened RateLimitPolicy
  import opened Admission
  import opened RateLimitStore

  class RateLimitService {

    /**
     * `checkRateLimit`: look the user up, short-cut an unlimited plan, else
     * find or create the current window's row and decide on its count.
     */
    static method CheckRateLimit(store: RateLimitModel, users: Users, userId: string, windowType: WindowType, now: int)
      returns (r: Result<WindowResult>)
      requires store.Valid()
      modifies store
      ensures store.Valid()
      ensures (r, store.State()) == CheckStep(old(store.State()), users, userId, windowType, now)
    {
      if userId !in users {
        return Err(UserNotFound);
      }
      var limit := LimitFor(users[userId], windowType);
      if limit.Unlimited? {
        return Ok(Unrestricted(now, windowType));
      }
      var windowStart := WindowStart(now, windowType);
      var resetTime := WindowEnd(windowStart, windowType);
      var rateLimit := store.FindByUserAndWindow(userId, windowType, windowStart);
      var row: RateLimit;
      if rateLimit.None? {
        row := store.Create(userId, windowType, windowStart, 0);
      } else {
        row := rateLimit.value;
      }
      r := Ok(Decide(row.requestCount, limit.n, resetTime));
    }

    /** `incrementCounter`: add one to the current window's row, or create it with count 1. */
    static method IncrementCounter(store: RateLimitModel, userId: string, windowType: WindowType, now: int)
      requires store.Valid()
      modifies store
      ensures store.Valid()
      ensures store.State() == IncrementStep(old(store.State()), userId, windowType, now)
    {
      var windowStart := WindowStart(now, windowType);
      var existing := store.FindByUserAndWindow(userId, windowType, windowStart);
      if existing.Some? {
        var _ := store.IncrementCounter(existing.value.id);
      } else {
        var _ := store.Create(userId, windowType, windowStart, 1);
      }
    }

    /**
     * `checkAndIncrementRateLimit`: check both windows; count the request in
     * both only when both allow it.
     */
    static method CheckAndIncrementRateLimit(store: RateLimitModel, users: Users, userId: string, now: int)
      returns (r: Result<Decision>)
      requires store.Valid()
      modifies store
      ensures store.Valid()
      ensures (r, store.State()) == JointStep(old(store.State()), users, userId, now)
    {
      var minuteLimit := CheckRateLimit(store, users, userId, Minute, now);
      var dayLimit := CheckRateLimit(store, users, userId, Day, now);
      if minuteLimit.Err? || dayLimit.Err? {
        return Err(UserNotFound);
      }
      var allowed := minuteLimit.value.allowed && dayLimit.value.allowed;
      if allowed {
        IncrementCounter(store, userId, Minute, now);
        IncrementCounter(store, userId, Day, now);
      }
      r := Ok(Decision(minuteLimit.value, dayLimit.value, allowed));
    }

    /** `cleanupExpiredRecords`: minute rows older than a day, then day rows older than a week. */
    static method CleanupExpiredRecords(store: RateLimitModel, now: int)
      requires store.Valid()
      modifies store
      ensures store.Valid()
      ensures store.State() == CleanupStep(old(store.State()), now)
    {
      var _ := store.DeleteExpiredMinuteRecords(now - DayMs);
      var _ := store.DeleteExpiredDayRecords(now - WeekMs);
    }
  }
}
