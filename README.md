# zipost rate limiting and KEN_ALL import, in Dafny

This project models three parts of the zipost postal-code API:

- **The counter store** (`RateLimitModel`). It reads and writes the
  `rate_limits` table, where each row holds a user, a window type (minute or
  day), the start of the window and a request count.
- **The rate-limit service** (`RateLimitService`). It holds the per-plan
  quotas and the fixed-window clock. It also does the per-window check, the
  counter increment, the joint minute-and-day admission and the periodic
  cleanup.
- **The KEN_ALL.CSV line reader** of the Japan-post import script. It covers
  the quote-aware comma splitter and the loop that filters the lines of the
  file.

The project has these modules:

| module | file | what it holds |
|---|---|---|
| `Schema` | schema.dfy | `Option`, `WindowType`, `Plan`, the `RateLimit` row |
| `RateLimitTable` | rate_limit_table.dfy | the table as a value: rows in table order, the next id, the WHERE clauses as a `Criterion`, and one function per SQL statement, with lemmas |
| `RateLimitStore` | rate_limit_model.dfy | class `RateLimitModel`: the table in fields `rows` and `nextId`, and one method per store method, each stating its new state as the statement's function of the old state |
| `RateLimitPolicy` | rate_limit_policy.dfy | quotas (`Finite(n)` or `Unlimited`), window start and end, the per-window decision |
| `Admission` | admission.dfy | the service's operations as transitions of the table, and the properties of the joint admission and the cleanup |
| `RateLimitServices` | rate_limit_service.dfy | class `RateLimitService`: the service's methods over a `RateLimitModel`, each proved equal to its transition |
| `KenAll` | ken_all.dfy | `trim`, the character loop, `parseCSVLine` and the `parseCSVFile` loop |

Time is an integer count of milliseconds since the epoch, passed in as `now`.
The `users` table appears as a map from user id to plan. A missing user is the
`UserNotFound` error.

## Model

| member | source | states |
|---|---|---|
| RateLimitTable.First | server/models/rateLimit.ts:7-15 | a `LIMIT 1` lookup is None exactly when no row matches; otherwise it is a matching row of the table |
| RateLimitTable.Matching | server/models/rateLimit.ts:42-54 | the selected rows are exactly the table's rows that match, and none is invented |
| RateLimitTable.Without | server/models/rateLimit.ts:122-186 | a DELETE keeps exactly the rows that do not match, and the deleted count is what it removed |
| RateLimitTable.SetCountRows | server/models/rateLimit.ts:188-205 | an UPDATE of the count rewrites exactly the matched rows and leaves every other row and field unchanged |
| RateLimitTable.Insert | server/models/rateLimit.ts:56-66 | an insert appends one row with the given user, type, start and count, under a fresh id; the key constraint is kept |
| RateLimitTable.FirstAppend | server/models/rateLimit.ts:56-66 | after an insert, a lookup that found a row still finds it; one that found none finds the new row if it matches |
| RateLimitTable.FirstSetCount | server/models/rateLimit.ts:82-92 | after an UPDATE, a lookup finds the same row as before, carrying its new count if it was updated |
| RateLimitTable.FirstWithout | server/models/rateLimit.ts:122-166 | deleting rows that a lookup can never select leaves that lookup's answer unchanged |
| RateLimitTable.IncrementByIdSpec | server/models/rateLimit.ts:68-99 | a missing id gives null and no change; otherwise exactly that row's count goes up by one, every other row is unchanged, and the re-read row is returned |
| RateLimitTable.IncrementExistingRow | server/models/rateLimit.ts:82-94 | when row k has the id, the write is an UPDATE of that row alone and the re-read returns row k as updated |
| RateLimitTable.UpdateByIdSpec | server/models/rateLimit.ts:101-120 | the row with the id gets count n and no other row changes; null exactly when the id is absent |
| RateLimitTable.DeleteWhereSpec | server/models/rateLimit.ts:122-186 | the affected count is the number of rows removed, the removed rows are exactly the matching ones, and none of them remains |
| RateLimitTable.ResetWhereSpec | server/models/rateLimit.ts:188-205 | the user's rows (of the given type, if there is one) get count 0, every other row keeps its count, and the returned number is `CountWhere`, the count of rows the clause selects |
| RateLimitTable.MatchingCount | server/models/rateLimit.ts:188-205 | a statement's matched rows are as many as the rows its WHERE clause selects, counted one by one |
| RateLimitTable.DeleteByUserSpec | server/models/rateLimit.ts:178-186 | afterwards the user has no rows, and every other user keeps all of theirs |
| RateLimitStore.RateLimitModel.FindById | server/models/rateLimit.ts:7-15 | returns the row with that id, or null exactly when no row has it |
| RateLimitStore.RateLimitModel.FindByUserAndWindow | server/models/rateLimit.ts:17-40 | returns a row with the same user and type whose start is at or after the given start (`>=`, not equality), or null exactly when there is none |
| RateLimitStore.RateLimitModel.FindByUserId | server/models/rateLimit.ts:42-54 | returns exactly the user's rows, in table order |
| RateLimitStore.RateLimitModel.Create | server/models/rateLimit.ts:56-66 | appends one row with the given fields and an id that no existing row has; every old row stays |
| RateLimitStore.RateLimitModel.IncrementCounter | server/models/rateLimit.ts:68-99 | the read, write and re-read sequence has the effect of `IncrementById`; null exactly when the id is absent |
| RateLimitStore.RateLimitModel.UpdateCounter | server/models/rateLimit.ts:101-120 | the row with the id gets the new count and every other row is unchanged; null exactly when the id is absent |
| RateLimitStore.RateLimitModel.DeleteSelected | server/models/rateLimit.ts:122-186 | the DELETE shared by the delete methods: it removes exactly the matching rows and returns how many it removed |
| RateLimitStore.RateLimitModel.DeleteExpiredMinuteRecords | server/models/rateLimit.ts:122-137 | removes exactly the minute rows whose start is strictly before the cutoff, and returns how many; day rows survive |
| RateLimitStore.RateLimitModel.DeleteExpiredDayRecords | server/models/rateLimit.ts:139-154 | removes exactly the day rows whose start is strictly before the cutoff, and returns how many; minute rows survive |
| RateLimitStore.RateLimitModel.DeleteExpired | server/models/rateLimit.ts:156-166 | removes exactly the rows of either type whose start is before the cutoff, and returns how many |
| RateLimitStore.RateLimitModel.Delete | server/models/rateLimit.ts:168-176 | true exactly when a row with that id existed; afterwards no row has it |
| RateLimitStore.RateLimitModel.DeleteByUserId | server/models/rateLimit.ts:178-186 | removes all and only the user's rows, so looking the user up then gives nothing |
| RateLimitStore.RateLimitModel.Reset | server/models/rateLimit.ts:188-205 | count 0 on every row of the user (of the given type, if there is one) and no other change; returns the matched count |
| RateLimitPolicy.Config | server/services/rateLimit.ts:22-35 | free is 100 per minute and 5000 per day, basic 1000 and 50000, pro unlimited; a finite minute quota is positive and below the day quota |
| RateLimitPolicy.LimitFor | server/services/rateLimit.ts:52-53 | the quota for a window type is unlimited exactly for pro, and otherwise positive |
| RateLimitPolicy.WindowStart | server/services/rateLimit.ts:155-161 | the window start is a multiple of the window length, and `start <= now < start + length` |
| RateLimitPolicy.WindowEnd | server/services/rateLimit.ts:163-169 | the end is one window length after the start: 60000 ms for a minute, 86400000 ms for a day |
| RateLimitPolicy.WindowStartUnique | server/services/rateLimit.ts:155-161 | any boundary whose window contains `now` is the window start |
| RateLimitPolicy.WindowStartGreatest | server/services/rateLimit.ts:155-161 | the window start is the largest boundary at or before `now` |
| RateLimitPolicy.SameWindow | server/services/rateLimit.ts:155-169 | two instants share a window start exactly when the second lies between the first's start and end |
| RateLimitPolicy.MinuteInsideDay | server/services/rateLimit.ts:155-169 | the minute window of an instant lies inside its day window |
| RateLimitPolicy.Decide | server/services/rateLimit.ts:84-93 | allowed exactly when count < limit (strict); remaining is max(0, limit - count) and positive exactly when allowed; the reset time and limit pass through |
| RateLimitPolicy.Unrestricted | server/services/rateLimit.ts:55-63 | an unlimited quota is allowed, with unlimited remaining and limit, and resets one window length after now |
| Admission.JointStep | server/services/rateLimit.ts:118-143 | an unknown user is an error and leaves the table alone; a known user always gets a decision |
| Admission.ObservedAppendZero | server/services/rateLimit.ts:70-82 | creating a row with count 0 changes no count that any check reads |
| Admission.ObservedIncrementRow | server/models/rateLimit.ts:68-99 | adding one to a row changes only the counts read through that row, each by exactly one |
| Admission.CheckStepSpec | server/services/rateLimit.ts:45-94 | a check never changes a count and only appends rows with count 0; an unknown user is an error and pro leaves the table alone; otherwise the verdict is `Decide` on the count of the current window; a found row leaves the table unchanged, and when there is none exactly one row is appended for this user, type and window start, with count 0 |
| Admission.IncrementStepSpec | server/services/rateLimit.ts:96-116 | the current window's count goes up by exactly one (by incrementing the row or creating one with count 1); no other user's or window type's count moves |
| Admission.JointStepSpec | server/services/rateLimit.ts:118-143 | allowed exactly when both windows allow; both counts go up by one exactly when allowed; a rejection changes no count and only appends rows with count 0; other users are untouched |
| Admission.JointStepCounts | server/services/rateLimit.ts:118-143 | the verdict and the two counts of one joint step, for requests in given windows |
| Admission.StrictCeiling | server/services/rateLimit.ts:118-143 | within one minute and one day window, the i-th request is admitted exactly when both counts plus i are under quota, so after the first rejection no request is admitted |
| Admission.AdmittedWithinQuota | server/services/rateLimit.ts:118-143 | within one window pair, the admitted requests never take either count past its quota |
| Admission.EmptyWindowQuota | server/services/rateLimit.ts:84-86 | from empty windows, with minute quota N, requests 1..N are admitted and every later one in that minute is rejected |
| Admission.ResetThenCheck | server/models/rateLimit.ts:188-205 | after resetting a user's windows of one type, the next check of that type is allowed and reports the whole quota as remaining |
| Admission.ProAlwaysAdmitted | server/services/rateLimit.ts:130-135 | pro requests are always admitted, with unlimited results, and are still counted in both windows |
| Admission.CleanupSpec | server/services/rateLimit.ts:145-153 | cleanup deletes exactly the minute rows that started more than a day ago and the day rows that started more than a week ago |
| Admission.CleanupKeepsCurrent | server/services/rateLimit.ts:145-153 | cleanup changes no count that a check from one day ago onwards reads, in particular none of the current windows |
| RateLimitServices.RateLimitService.CheckRateLimit | server/services/rateLimit.ts:45-94 | the method's result and store are `CheckStep`'s, and the store stays valid |
| RateLimitServices.RateLimitService.IncrementCounter | server/services/rateLimit.ts:96-116 | the store afterwards is `IncrementStep` of the store before |
| RateLimitServices.RateLimitService.CheckAndIncrementRateLimit | server/services/rateLimit.ts:118-143 | the result and store are `JointStep`'s, with both checks first and both increments only when allowed |
| RateLimitServices.RateLimitService.CleanupExpiredRecords | server/services/rateLimit.ts:145-153 | the store afterwards is `CleanupStep` of the store before |
| KenAll.TrimSpec | scripts/migrate-japan-postal.ts:74 | `trim` gives the slice between the leading and trailing white space; it starts and ends with other characters, and is empty exactly for all-space input |
| KenAll.SplitFields | scripts/migrate-japan-postal.ts:64-81 | the character loop yields the trimmed pieces of the reference splitter `Pieces` |
| KenAll.PiecesJoin | scripts/migrate-japan-postal.ts:68-81 | joining the raw fields with commas gives back the line without its double quotes, so a comma inside quotes stays in its field |
| KenAll.PiecesQuoteFree | scripts/migrate-japan-postal.ts:68-79 | no raw field contains a double quote |
| KenAll.PiecesCount | scripts/migrate-japan-postal.ts:68-81 | the number of fields is the number of commas outside quotes, plus one |
| KenAll.NoCommaOnePiece | scripts/migrate-japan-postal.ts:68-81 | a line without commas is one field |
| KenAll.FieldsClean | scripts/migrate-japan-postal.ts:74-81 | every field is trimmed at both ends and free of double quotes, and there is one more field than there are commas outside quotes |
| KenAll.StripQuotes | scripts/migrate-japan-postal.ts:88 | drops a leading double quote and a trailing one, each when present (both, only the first, or only the last); a field without them is unchanged, and a lone quote becomes empty |
| KenAll.ToRecord | scripts/migrate-japan-postal.ts:90-97 | the postal code, prefecture, city and town are fields 2, 6, 7 and 8; there is no romanization |
| KenAll.ParseCSVLine | scripts/migrate-japan-postal.ts:62-98 | the method's result is `ParseLine` of the line |
| KenAll.ParseLineSpec | scripts/migrate-japan-postal.ts:83-97 | null exactly when there are fewer than 15 fields; otherwise the record takes the trimmed fields 2, 6, 7 and 8 unchanged, and kana is fields 3, 4 and 5 joined by spaces and trimmed |
| KenAll.BlankLineNoRecord | scripts/migrate-japan-postal.ts:111 | a blank line never parses to a record |
| KenAll.ParseCSVFile | scripts/migrate-japan-postal.ts:107-122 | the records are the kept records of the lines, in order, and `processed` is the number of non-blank lines |
| KenAll.KeepLineYields | scripts/migrate-japan-postal.ts:111-115 | a line contributes exactly the record it parses to when that record has a postal code |
| KenAll.KeptExactly | scripts/migrate-japan-postal.ts:110-122 | a record is kept exactly when some line parses to it with a non-empty postal code |

## Left out

- Database plumbing. The drizzle/mysql2 connection is out, and so is each
  method's catch-and-rethrow of database errors. The table is a sequence of
  rows, and `create` returns the inserted row; the re-read by `insertId` is
  out.
- Row ids are natural numbers handed out by a counter. The source's ids are
  generated strings; only their uniqueness is modelled.
- A `LIMIT 1` lookup without `ORDER BY` returns the first matching row in
  table order. The database may return any matching row.
- `reset` returns the number of matched rows. That is what the driver reports
  as affected rows with its default settings.
- Concurrency. The two `Promise.all` pairs in `checkAndIncrementRateLimit` run
  one after the other: minute before day. The read-then-write race in the
  store's `incrementCounter` is out, and so is the over-admission race between
  concurrent requests. The ceiling is proved only for requests handled one
  after another.
- Local time. Windows start at multiples of their length in UTC. A day
  therefore always lasts 86400000 ms, and a daylight-saving day of 23 or 25
  hours is not modelled.
- Each service call reads the clock once, as its `now` parameter. The source
  reads the clock separately in each check, increment and cleanup.
- The plan table is a closed datatype. JavaScript's `Infinity` quota is
  `Unlimited`, and counts are unbounded integers rather than floating-point
  numbers.
- `getRateLimitConfig` only returns the constant table, which is `Config`.
- Authentication, the HTTP handlers and the other models are out.
- The import script's I/O is out:
  - the download, the unzip and reading the file;
  - splitting the text into lines (the loop receives the lines);
  - the progress logging and the database insert.
- Strings are sequences of Unicode scalar values. JavaScript strings are
  UTF-16 code units; KEN_ALL's characters lie in the Basic Multilingual
  Plane, where the two agree.
