/**
 * The `rate_limits` table as a value: its rows in table order and the next
 * identifier the database will hand out. Every statement that the counter
 * store issues is a function here; the store class applies them in place.
 */
module RateLimitTable {
  import opened Schema

  datatype Table = Table(rows: seq<RateLimit>, nextId: nat)

  /** The WHERE clauses the counter store uses. */
  datatype Criterion =
    | ById(id: nat)
      // userId = u AND windowType = t AND windowStart >= from
    | ByUserWindowFrom(userId: string, windowType: WindowType, from: int)
      // userId = u, and windowType = t when a type is given
    | ByUserType(userId: string, ofType: Option<WindowType>)
      // windowType = t AND windowStart < cutoff
    | ExpiredOfType(windowType: WindowType, cutoff: int)
      // windowStart < cutoff
    | ExpiredBefore(cutoff: int)

  predicate Selects(c: Criterion, r: RateLimit) {
    match c
    case ById(id) => r.id == id
    case ByUserWindowFrom(u, t, from) => r.userId == u && r.windowType == t && r.windowStart >= from
    case ByUserType(u, t) => r.userId == u && (t.None? || r.windowType == t.value)
    case ExpiredOfType(t, cutoff) => r.windowType == t && r.windowStart < cutoff
    case ExpiredBefore(cutoff) => r.windowStart < cutoff
  }

  /** The primary-key constraint. */
  predicate IdsDistinct(rows: seq<RateLimit>) {
    forall j, k | 0 <= j < k < |rows| :: rows[j].id != rows[k].id
  }

  /** Every identifier in use was handed out before `bound`. */
  predicate IdsBelow(rows: seq<RateLimit>, bound: nat) {
    forall k | 0 <= k < |rows| :: rows[k].id < bound
  }

  predicate Valid(t: Table) {
    IdsDistinct(t.rows) && IdsBelow(t.rows, t.nextId)
  }

  /** `SELECT ... WHERE c LIMIT 1`: the first selected row in table order. */
  function First(rows: seq<RateLimit>, c: Criterion): (r: Option<RateLimit>)
    ensures r.None? <==> forall k | 0 <= k < |rows| :: !Selects(c, rows[k])
    ensures r.Some? ==> r.value in rows && Selects(c, r.value)
  {
    if rows == [] then None
    else if Selects(c, rows[0]) then Some(rows[0])
    else First(rows[1..], c)
  }

  /** `SELECT ... WHERE c`: all selected rows, in table order. */
  function Matching(rows: seq<RateLimit>, c: Criterion): (r: seq<RateLimit>)
    ensures |r| <= |rows|
    ensures forall x :: x in r <==> x in rows && Selects(c, x)
    ensures r == [] <==> forall k | 0 <= k < |rows| :: !Selects(c, rows[k])
  {
    if rows == [] then []
    else (if Selects(c, rows[0]) then [rows[0]] else []) + Matching(rows[1..], c)
  }

  /** The rows that survive `DELETE ... WHERE c`, in table order. */
  function Without(rows: seq<RateLimit>, c: Criterion): (r: seq<RateLimit>)
    ensures |r| + |Matching(rows, c)| == |rows|
    ensures forall x :: x in r <==> x in rows && !Selects(c, x)
  {
    if rows == [] then []
    else (if Selects(c, rows[0]) then [] else [rows[0]]) + Without(rows[1..], c)
  }

  /** The number of rows that `c` selects, counted from the first row to the last. */
  function CountWhere(rows: seq<RateLimit>, c: Criterion): (n: nat)
    ensures n <= |rows|
  {
    if rows == [] then 0
    else CountWhere(rows[..|rows| - 1], c) + (if Selects(c, rows[|rows| - 1]) then 1 else 0)
  }

  /** Selecting one more row at the end adds it after the others. */
  lemma {:induction false} MatchingSnoc(rows: seq<RateLimit>, x: RateLimit, c: Criterion)
    ensures Matching(rows + [x], c) == Matching(rows, c) + (if Selects(c, x) then [x] else [])
  {
    if rows != [] {
      var tail := rows[1..];
      var h := if Selects(c, rows[0]) then [rows[0]] else [];
      var last := if Selects(c, x) then [x] else [];
      assert (rows + [x])[0] == rows[0] && (rows + [x])[1..] == tail + [x];
      MatchingSnoc(tail, x, c);
      var m := Matching(tail, c);
      assert Matching(rows + [x], c) == h + (m + last);
      assert Matching(rows, c) == h + m;
      Concat3(h, m, last);
    }
  }

  /** Concatenation regroups. */
  lemma Concat3(a: seq<RateLimit>, b: seq<RateLimit>, c: seq<RateLimit>)
    ensures a + (b + c) == (a + b) + c
  {
  }

  /** A SELECT returns one row for each row the WHERE clause selects. */
  lemma {:induction false} MatchingCount(rows: seq<RateLimit>, c: Criterion)
    ensures |Matching(rows, c)| == CountWhere(rows, c)
  {
    if rows != [] {
      var init, x := rows[..|rows| - 1], rows[|rows| - 1];
      assert rows == init + [x];
      MatchingSnoc(init, x, c);
      MatchingCount(init, c);
    }
  }

  /** The rows after `UPDATE ... SET requestCount = n WHERE c`. */
  function SetCount(rows: seq<RateLimit>, c: Criterion, n: int): (r: seq<RateLimit>)
    ensures |r| == |rows|
  {
    if rows == [] then []
    else [if Selects(c, rows[0]) then rows[0].(requestCount := n) else rows[0]]
         + SetCount(rows[1..], c, n)
  }

  /** The UPDATE rewrites the count of exactly the selected rows and touches nothing else. */
  lemma {:induction false} SetCountRows(rows: seq<RateLimit>, c: Criterion, n: int)
    ensures forall k | 0 <= k < |rows| ::
      SetCount(rows, c, n)[k] == if Selects(c, rows[k]) then rows[k].(requestCount := n) else rows[k]
  {
    if rows != [] {
      SetCountRows(rows[1..], c, n);
    }
  }

  /** `INSERT`: a new row with a fresh identifier, appended to the table. */
  function Insert(t: Table, userId: string, windowType: WindowType, windowStart: int, requestCount: int)
    : (out: (RateLimit, Table))
    ensures out.1.rows == t.rows + [out.0] && out.1.nextId > t.nextId
    ensures out.0.userId == userId && out.0.windowType == windowType
    ensures out.0.windowStart == windowStart && out.0.requestCount == requestCount
    ensures Valid(t) ==> Valid(out.1) && forall k | 0 <= k < |t.rows| :: t.rows[k].id != out.0.id
  {
    var r := RateLimit(t.nextId, userId, requestCount, windowStart, windowType);
    (r, Table(t.rows + [r], t.nextId + 1))
  }

  /** The model's `incrementCounter(id)`: read the row, write its count plus one, read it again. */
  function IncrementById(t: Table, id: nat): (out: (Option<RateLimit>, Table)) {
    var current := First(t.rows, ById(id));
    if current.None? then (None, t)
    else
      var rows := SetCount(t.rows, ById(id), current.value.requestCount + 1);
      (First(rows, ById(id)), Table(rows, t.nextId))
  }

  /** The step sequence of `incrementCounter` when the read finds a row. */
  lemma IncrementByIdFound(t: Table, id: nat, current: RateLimit)
    requires First(t.rows, ById(id)) == Some(current)
    ensures var rows := SetCount(t.rows, ById(id), current.requestCount + 1);
      IncrementById(t, id) == (First(rows, ById(id)), Table(rows, t.nextId))
  {
  }

  /** The model's `updateCounter(id, n)`: write the count, then read the row again. */
  function UpdateById(t: Table, id: nat, n: int): (out: (Option<RateLimit>, Table)) {
    var rows := SetCount(t.rows, ById(id), n);
    (First(rows, ById(id)), Table(rows, t.nextId))
  }

  /** `DELETE ... WHERE c`, with the number of affected rows. */
  function DeleteWhere(t: Table, c: Criterion): (out: (nat, Table)) {
    (|Matching(t.rows, c)|, Table(Without(t.rows, c), t.nextId))
  }

  /** The model's `reset(userId, windowType?)`, with the number of matched rows. */
  function ResetWhere(t: Table, userId: string, windowType: Option<WindowType>): (out: (nat, Table)) {
    var c := ByUserType(userId, windowType);
    (|Matching(t.rows, c)|, Table(SetCount(t.rows, c, 0), t.nextId))
  }

  // ---------------------------------------------------------------------------
  // Lemmas about lookups after each kind of statement
  // ---------------------------------------------------------------------------

  /** Appending a row only matters to a lookup that found nothing before. */
  lemma {:induction false} FirstAppend(rows: seq<RateLimit>, x: RateLimit, c: Criterion)
    ensures First(rows + [x], c) ==
      if First(rows, c).Some? then First(rows, c)
      else if Selects(c, x) then Some(x) else None
  {
    if rows != [] {
      assert (rows + [x])[1..] == rows[1..] + [x];
      FirstAppend(rows[1..], x, c);
    }
  }

  /** No criterion looks at the count, so an update keeps every lookup on the same row. */
  lemma {:induction false} FirstSetCount(rows: seq<RateLimit>, c0: Criterion, n: int, c: Criterion)
    ensures First(SetCount(rows, c0, n), c) ==
      match First(rows, c)
      case None => None
      case Some(r) => Some(if Selects(c0, r) then r.(requestCount := n) else r)
  {
    if rows != [] {
      FirstSetCount(rows[1..], c0, n, c);
      var h := if Selects(c0, rows[0]) then rows[0].(requestCount := n) else rows[0];
      assert SetCount(rows, c0, n) == [h] + SetCount(rows[1..], c0, n);
      SelectsIgnoresCount(c, rows[0], n);
    }
  }

  /** No WHERE clause of the store looks at the count. */
  lemma SelectsIgnoresCount(c: Criterion, r: RateLimit, n: int)
    ensures Selects(c, r.(requestCount := n)) == Selects(c, r)
  {
  }

  /** Deleting rows that a lookup can never select leaves that lookup's answer alone. */
  lemma {:induction false} FirstWithout(rows: seq<RateLimit>, c0: Criterion, c: Criterion)
    requires forall k | 0 <= k < |rows| :: Selects(c, rows[k]) ==> !Selects(c0, rows[k])
    ensures First(Without(rows, c0), c) == First(rows, c)
  {
    if rows != [] {
      var tail := rows[1..];
      assert forall k | 0 <= k < |tail| :: tail[k] == rows[k + 1];
      FirstWithout(tail, c0, c);
      var w := Without(tail, c0);
      if Selects(c0, rows[0]) {
        assert !Selects(c, rows[0]);
        assert Without(rows, c0) == w;
        assert First(rows, c) == First(tail, c);
      } else {
        var r := [rows[0]] + w;
        assert Without(rows, c0) == r;
        if !Selects(c, rows[0]) {
          assert r[1..] == w;
          assert First(r, c) == First(w, c);
          assert First(rows, c) == First(tail, c);
        }
      }
    }
  }

  /** Under the primary-key constraint a lookup by a row's id finds that row. */
  lemma FirstByIdOfMember(rows: seq<RateLimit>, k: nat)
    requires IdsDistinct(rows) && k < |rows|
    ensures First(rows, ById(rows[k].id)) == Some(rows[k])
  {
    var r := First(rows, ById(rows[k].id));
    assert !Selects(ById(rows[k].id), rows[k]) ==> r.None?;
    var j :| 0 <= j < |rows| && rows[j] == r.value;
    assert j == k;
  }

  lemma {:induction false} SetCountIds(rows: seq<RateLimit>, c: Criterion, n: int, bound: nat)
    ensures IdsDistinct(rows) ==> IdsDistinct(SetCount(rows, c, n))
    ensures IdsBelow(rows, bound) ==> IdsBelow(SetCount(rows, c, n), bound)
  {
    var r := SetCount(rows, c, n);
    SetCountRows(rows, c, n);
    assert forall k | 0 <= k < |rows| :: r[k].id == rows[k].id;
  }

  lemma {:induction false} WithoutIds(rows: seq<RateLimit>, c: Criterion, bound: nat)
    ensures IdsDistinct(rows) ==> IdsDistinct(Without(rows, c))
    ensures IdsBelow(rows, bound) ==> IdsBelow(Without(rows, c), bound)
  {
    if IdsDistinct(rows) {
      WithoutIdsDistinct(rows, c);
    }
    var r := Without(rows, c);
    if IdsBelow(rows, bound) {
      forall k | 0 <= k < |r| ensures r[k].id < bound {
        assert r[k] in rows;
      }
    }
  }

  lemma {:induction false} WithoutIdsDistinct(rows: seq<RateLimit>, c: Criterion)
    requires IdsDistinct(rows)
    ensures IdsDistinct(Without(rows, c))
  {
    if rows != [] {
      var tail := rows[1..];
      assert IdsDistinct(tail);
      WithoutIdsDistinct(tail, c);
      if !Selects(c, rows[0]) {
        var w := Without(tail, c);
        assert Without(rows, c) == [rows[0]] + w;
        HeadIdFresh(rows);
        ConsIdsDistinct(rows[0], w);
      }
    }
  }

  /** Putting a row in front of rows with other ids keeps the ids distinct. */
  lemma ConsIdsDistinct(x: RateLimit, w: seq<RateLimit>)
    requires IdsDistinct(w)
    requires forall y | y in w :: y.id != x.id
    ensures IdsDistinct([x] + w)
  {
    var r := [x] + w;
    forall i, k | 0 <= i < k < |r| ensures r[i].id != r[k].id {
      assert r[k] == w[k - 1];
      if i > 0 {
        assert r[i] == w[i - 1];
      }
    }
  }

  /** With distinct ids, no later row shares the first row's id. */
  lemma HeadIdFresh(rows: seq<RateLimit>)
    requires rows != [] && IdsDistinct(rows)
    ensures forall x | x in rows[1..] :: x.id != rows[0].id
  {
    forall x | x in rows[1..] ensures x.id != rows[0].id {
      var j :| 0 <= j < |rows| - 1 && rows[1..][j] == x;
      assert rows[j + 1] == x;
    }
  }

  // ---------------------------------------------------------------------------
  // What each store statement promises
  // ---------------------------------------------------------------------------

  /**
   * `incrementCounter(id)`: a missing id gives null and no change; otherwise
   * exactly that row's count goes up by one and the updated row is returned.
   */
  lemma IncrementByIdSpec(t: Table, id: nat)
    requires Valid(t)
    ensures Valid(IncrementById(t, id).1) && IncrementById(t, id).1.nextId == t.nextId
    ensures IncrementById(t, id).0.None? <==> forall k | 0 <= k < |t.rows| :: t.rows[k].id != id
    ensures IncrementById(t, id).0.None? ==> IncrementById(t, id).1 == t
    ensures var rows' := IncrementById(t, id).1.rows;
      && |rows'| == |t.rows|
      && forall k | 0 <= k < |t.rows| ::
           rows'[k] == if t.rows[k].id == id
                       then t.rows[k].(requestCount := t.rows[k].requestCount + 1)
                       else t.rows[k]
    ensures var (r, t') := IncrementById(t, id);
      r.Some? ==> r.value.id == id && r.value in t'.rows
  {
    var cur := First(t.rows, ById(id));
    if cur.Some? {
      var k :| 0 <= k < |t.rows| && t.rows[k] == cur.value;
      IncrementExistingRow(t, id, k);
      UpdateOnlyRow(t.rows, k, t.rows[k].requestCount + 1);
    }
  }

  /** The read finds row `k`, so the write is an UPDATE of that row alone. */
  lemma IncrementExistingRow(t: Table, id: nat, k: nat)
    requires Valid(t) && k < |t.rows| && t.rows[k].id == id
    ensures IncrementById(t, id).1 == Table(SetCount(t.rows, ById(id), t.rows[k].requestCount + 1), t.nextId)
    ensures Valid(IncrementById(t, id).1)
    ensures IncrementById(t, id).0 == Some(IncrementById(t, id).1.rows[k])
  {
    var n := t.rows[k].requestCount + 1;
    var rows' := SetCount(t.rows, ById(id), n);
    assert IncrementById(t, id).1 == Table(rows', t.nextId) by {
      FirstByIdOfMember(t.rows, k);
      assert First(t.rows, ById(id)).value.requestCount + 1 == n;
    }
    assert IdsDistinct(rows') && IdsBelow(rows', t.nextId) by {
      SetCountIds(t.rows, ById(id), n, t.nextId);
    }
    assert First(rows', ById(id)) == Some(rows'[k]) by {
      SetCountRows(t.rows, ById(id), n);
      SetCountIds(t.rows, ById(id), n, t.nextId);
      FirstByIdOfMember(rows', k);
    }
  }

  lemma UpdateOnlyRow(rows: seq<RateLimit>, k: nat, n: int)
    requires IdsDistinct(rows) && k < |rows|
    ensures var rows' := SetCount(rows, ById(rows[k].id), n);
      && rows'[k] == rows[k].(requestCount := n)
      && forall j | 0 <= j < |rows| && j != k :: rows'[j] == rows[j]
  {
    SetCountRows(rows, ById(rows[k].id), n);
  }

  /** `updateCounter(id, n)`: every row with that id gets count `n`; null iff there is none. */
  lemma UpdateByIdSpec(t: Table, id: nat, n: int)
    requires Valid(t)
    ensures Valid(UpdateById(t, id, n).1) && UpdateById(t, id, n).1.nextId == t.nextId
    ensures UpdateById(t, id, n).0.None? <==> forall k | 0 <= k < |t.rows| :: t.rows[k].id != id
    ensures var rows' := UpdateById(t, id, n).1.rows;
      && |rows'| == |t.rows|
      && forall k | 0 <= k < |t.rows| ::
           rows'[k] == if t.rows[k].id == id then t.rows[k].(requestCount := n) else t.rows[k]
    ensures var (r, t') := UpdateById(t, id, n);
      r.Some? ==> r.value.id == id && r.value.requestCount == n && r.value in t'.rows
  {
    var rows' := SetCount(t.rows, ById(id), n);
    SetCountIds(t.rows, ById(id), n, t.nextId);
    SetCountRows(t.rows, ById(id), n);
    var r := First(rows', ById(id));
    if r.Some? {
      var j :| 0 <= j < |rows'| && rows'[j] == r.value;
      assert rows'[j] == t.rows[j].(requestCount := n);
    } else {
      forall k | 0 <= k < |t.rows| ensures t.rows[k].id != id {
        assert !Selects(ById(id), rows'[k]);
      }
    }
  }

  /** A DELETE reports as affected exactly the rows it removes, and none of them remains. */
  lemma DeleteWhereSpec(t: Table, c: Criterion)
    requires Valid(t)
    ensures Valid(DeleteWhere(t, c).1) && DeleteWhere(t, c).1.nextId == t.nextId
    ensures var (n, t') := DeleteWhere(t, c);
      && n == |t.rows| - |t'.rows|
      && (forall x :: x in t'.rows <==> x in t.rows && !Selects(c, x))
      && (n > 0 <==> exists k | 0 <= k < |t.rows| :: Selects(c, t.rows[k]))
      && First(t'.rows, c) == None
  {
    WithoutIds(t.rows, c, t.nextId);
    var w := Without(t.rows, c);
    forall k | 0 <= k < |w| ensures !Selects(c, w[k]) {
      assert w[k] in w;
    }
  }

  /**
   * `reset(u, t?)`: the matched rows of user `u` (of type `t` if given) get count 0,
   * every other row keeps its count, and the number of matched rows is returned.
   */
  lemma ResetWhereSpec(t: Table, userId: string, windowType: Option<WindowType>)
    requires Valid(t)
    ensures Valid(ResetWhere(t, userId, windowType).1)
    ensures ResetWhere(t, userId, windowType).1.nextId == t.nextId
    ensures var (n, t') := ResetWhere(t, userId, windowType);
      && |t'.rows| == |t.rows|
      && (forall k | 0 <= k < |t.rows| ::
            && t'.rows[k].id == t.rows[k].id
            && t'.rows[k].userId == t.rows[k].userId
            && t'.rows[k].windowType == t.rows[k].windowType
            && t'.rows[k].windowStart == t.rows[k].windowStart
            && t'.rows[k].requestCount ==
                 if t.rows[k].userId == userId && (windowType.None? || t.rows[k].windowType == windowType.value)
                 then 0 else t.rows[k].requestCount)
      && n == CountWhere(t.rows, ByUserType(userId, windowType))
      && (n > 0 <==> exists k | 0 <= k < |t.rows| :: t.rows[k].userId == userId &&
                                                      (windowType.None? || t.rows[k].windowType == windowType.value))
  {
    SetCountIds(t.rows, ByUserType(userId, windowType), 0, t.nextId);
    SetCountRows(t.rows, ByUserType(userId, windowType), 0);
    MatchingCount(t.rows, ByUserType(userId, windowType));
  }

  /** After `deleteByUserId(u)`, `findByUserId(u)` is empty and other users keep all their rows. */
  lemma DeleteByUserSpec(t: Table, userId: string)
    ensures var (_, t') := DeleteWhere(t, ByUserType(userId, None));
      && Matching(t'.rows, ByUserType(userId, None)) == []
      && forall x | x in t.rows && x.userId != userId :: x in t'.rows
  {
    var w := Without(t.rows, ByUserType(userId, None));
    forall k | 0 <= k < |w| ensures !Selects(ByUserType(userId, None), w[k]) {
      assert w[k] in w;
    }
  }
}
