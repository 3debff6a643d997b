/** Entities of the `users` and `rate_limits` tables that the rate limiter reads and writes. */
module Schema {

  /** A value that may be missing (a SQL lookup that found no row). */
  datatype Option<+T> = None | Some(value: T)

  /** The `window_type` column: one counter per minute window and one per day window. */
  datatype WindowType = Minute | Day

  /** The `subscription_plan` column of `users`. */
  datatype Plan = Free | Basic | Pro

  /**
   * One row of `rate_limits`. Instants are integer milliseconds since the epoch;
   * `id` is the row's primary key (a generated identifier in the database).
   */
  datatype RateLimit = RateLimit(
    id: nat,
    userId: string,
    requestCount: int,
    windowStart: int,
    windowType: WindowType)
}
