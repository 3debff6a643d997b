/**
 * `RateLimitModel`: the counter store over the `rate_limits` table. The table
 * lives in the object's fields; each method issues the same statements as the
 * source and states its effect as the table function of the old state.
 */
module RateLimitStore {
  import opened Schema
  import opened RateLimitTable

  class RateLimitModel {
    var rows: seq<RateLimit>
    var nextId: nat

    function State(): Table
      reads this
    {
      Table(rows, nextId)
    }

    /** The primary-key constraint and the id allocator stay consistent. */
    predicate Valid()
      reads this
    {
      RateLimitTable.Valid(State())
    }

    constructor ()
      ensures Valid() && rows == [] && nextId == 0
    {
      rows := [];
      nextId := 0;
    }

    /** `findById`: the row with that id, or None. */
    method FindById(id: nat) returns (r: Option<RateLimit>)
      ensures r == First(rows, ById(id))
      ensures r.None? <==> forall k | 0 <= k < |rows| :: rows[k].id != id
      ensures r.Some? ==> r.value in rows && r.value.id == id
    {
      r := First(rows, ById(id));
    }

    /**
     * `findByUserAndWindow`: a row of that user and type whose window starts at
     * or after `windowStart` (a `>=` match, not equality), or None when there is none.
     */
    method FindByUserAndWindow(userId: string, windowType: WindowType, windowStart: int)
      returns (r: Option<RateLimit>)
      ensures r == First(rows, ByUserWindowFrom(userId, windowType, windowStart))
      ensures r.None? <==> forall k | 0 <= k < |rows| ::
        !(rows[k].userId == userId && rows[k].windowType == windowType && rows[k].windowStart >= windowStart)
      ensures r.Some? ==> && r.value in rows
                          && r.value.userId == userId
                          && r.value.windowType == windowType
                          && r.value.windowStart >= windowStart
    {
      r := First(rows, ByUserWindowFrom(userId, windowType, windowStart));
    }

    /** `findByUserId`: every row of the user, in table order. */
    method FindByUserId(userId: string) returns (rs: seq<RateLimit>)
      ensures rs == Matching(rows, ByUserType(userId, None))
      ensures forall x :: x in rs <==> x in rows && x.userId == userId
    {
      rs := Matching(rows, ByUserType(userId, None));
    }

    /** `create`: one new row with the given fields and a fresh id; every old row stays. */
    method Create(userId: string, windowType: WindowType, windowStart: int, requestCount: int)
      returns (r: RateLimit)
      requires Valid()
      modifies this
      ensures Valid()
      ensures (r, State()) == Insert(old(State()), userId, windowType, windowStart, requestCount)
      ensures rows == old(rows) + [r]
      ensures r.userId == userId && r.windowType == windowType
      ensures r.windowStart == windowStart && r.requestCount == requestCount
      ensures forall k | 0 <= k < |old(rows)| :: old(rows)[k].id != r.id
    {
      r := RateLimit(nextId, userId, requestCount, windowStart, windowType);
      rows := rows + [r];
      nextId := nextId + 1;
    }

    /**
     * `incrementCounter`: read the row, write its count plus one, read it again.
     * A missing id gives None and changes nothing.
     */
    method IncrementCounter(id: nat) returns (r: Option<RateLimit>)
      requires Valid()
      modifies this
      ensures Valid()
      ensures (r, State()) == IncrementById(old(State()), id)
      ensures r.None? <==> forall k | 0 <= k < |old(rows)| :: old(rows)[k].id != id
    {
      ghost var before := State();
      var current := First(rows, ById(id));
      if current.None? {
        IncrementByIdSpec(before, id);
        return None;
      }
      IncrementByIdFound(before, id, current.value);
      rows := SetCount(rows, ById(id), current.value.requestCount + 1);
      r := First(rows, ById(id));
      assert (r, State()) == IncrementById(before, id);
      assert Valid() && r.Some? by {
        IncrementByIdSpec(before, id);
      }
    }

    /** `updateCounter`: set the count of the row with that id; None when there is none. */
    method UpdateCounter(id: nat, newCount: int) returns (r: Option<RateLimit>)
      requires Valid()
      modifies this
      ensures Valid()
      ensures (r, State()) == UpdateById(old(State()), id, newCount)
      ensures r.None? <==> forall k | 0 <= k < |old(rows)| :: old(rows)[k].id != id
      ensures r.Some? ==> r.value.id == id && r.value.requestCount == newCount
      ensures |rows| == |old(rows)| && nextId == old(nextId)
      ensures forall k | 0 <= k < |rows| ::
        rows[k] == if old(rows)[k].id == id then old(rows)[k].(requestCount := newCount) else old(rows)[k]
    {
      UpdateByIdSpec(State(), id, newCount);
      rows := SetCount(rows, ById(id), newCount);
      r := First(rows, ById(id));
    }

    /** Shared body of the DELETE statements: remove the selected rows and count them. */
    method DeleteSelected(c: Criterion) returns (affected: nat)
      requires Valid()
      modifies this
      ensures Valid()
      ensures (affected, State()) == DeleteWhere(old(State()), c)
      ensures affected == |old(rows)| - |rows|
      ensures forall x :: x in rows <==> x in old(rows) && !Selects(c, x)
    {
      DeleteWhereSpec(State(), c);
      affected := |Matching(rows, c)|;
      rows := Without(rows, c);
    }

    /** `deleteExpiredMinuteRecords`: remove exactly the minute rows that start before `cutoff`. */
    method DeleteExpiredMinuteRecords(cutoff: int) returns (affected: nat)
      requires Valid()
      modifies this
      ensures Valid()
      ensures (affected, State()) == DeleteWhere(old(State()), ExpiredOfType(Minute, cutoff))
      ensures affected == |old(rows)| - |rows|
      ensures forall x :: x in rows <==>
        x in old(rows) && !(x.windowType == Minute && x.windowStart < cutoff)
    {
      affected := DeleteSelected(ExpiredOfType(Minute, cutoff));
    }

    /** `deleteExpiredDayRecords`: remove exactly the day rows that start before `cutoff`. */
    method DeleteExpiredDayRecords(cutoff: int) returns (affected: nat)
      requires Valid()
      modifies this
      ensures Valid()
      ensures (affected, State()) == DeleteWhere(old(State()), ExpiredOfType(Day, cutoff))
      ensures affected == |old(rows)| - |rows|
      ensures forall x :: x in rows <==>
        x in old(rows) && !(x.windowType == Day && x.windowStart < cutoff)
    {
      affected := DeleteSelected(ExpiredOfType(Day, cutoff));
    }

    /** `deleteExpired`: remove every row, of either type, that starts before `cutoff`. */
    method DeleteExpired(cutoff: int) returns (affected: nat)
      requires Valid()
      modifies this
      ensures Valid()
      ensures (affected, State()) == DeleteWhere(old(State()), ExpiredBefore(cutoff))
      ensures affected == |old(rows)| - |rows|
      ensures forall x :: x in rows <==> x in old(rows) && !Selects(ExpiredBefore(cutoff), x)
    {
      affected := DeleteSelected(ExpiredBefore(cutoff));
    }

    /** `delete`: true iff a row with that id existed; afterwards none does. */
    method Delete(id: nat) returns (deleted: bool)
      requires Valid()
      modifies this
      ensures Valid()
      ensures deleted == (DeleteWhere(old(State()), ById(id)).0 > 0)
      ensures State() == DeleteWhere(old(State()), ById(id)).1
      ensures deleted <==> exists k | 0 <= k < |old(rows)| :: old(rows)[k].id == id
      ensures First(rows, ById(id)) == None
    {
      DeleteWhereSpec(State(), ById(id));
      var affected := DeleteSelected(ById(id));
      deleted := affected > 0;
    }

    /** `deleteByUserId`: remove all and only the user's rows. */
    method DeleteByUserId(userId: string) returns (affected: nat)
      requires Valid()
      modifies this
      ensures Valid()
      ensures (affected, State()) == DeleteWhere(old(State()), ByUserType(userId, None))
      ensures Matching(rows, ByUserType(userId, None)) == []
      ensures forall x :: x in rows <==> x in old(rows) && x.userId != userId
    {
      DeleteByUserSpec(State(), userId);
      affected := DeleteSelected(ByUserType(userId, None));
    }

    /**
     * `reset`: count 0 on every row of the user (of the given type, if one is
     * given); every other row keeps its count. Returns the number of matched rows.
     */
    method Reset(userId: string, windowType: Option<WindowType>) returns (affected: nat)
      requires Valid()
      modifies this
      ensures Valid()
      ensures (affected, State()) == ResetWhere(old(State()), userId, windowType)
      ensures |rows| == |old(rows)| && nextId == old(nextId)
      ensures forall k | 0 <= k < |rows| ::
        rows[k] == if old(rows)[k].userId == userId &&
                      (windowType.None? || old(rows)[k].windowType == windowType.value)
                   then old(rows)[k].(requestCount := 0)
                   else old(rows)[k]
    {
      ResetWhereSpec(State(), userId, windowType);
      var c := ByUserType(userId, windowType);
      affected := |Matching(rows, c)|;
      rows := SetCount(rows, c, 0);
    }
  }
}
