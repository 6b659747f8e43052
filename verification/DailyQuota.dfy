/**
  Daily request quotas in one shared table.  Each call is one immediate transaction, so calls of
  all workers, before and after restarts, form a single sequence.  A call takes its day before it
  waits for the transaction, so days need not be in order.
*/
module DailyQuota {
  type Usage = map<(string, int), int>

  datatype Result = Result(allowed: bool, remaining: int)

  function Used(m: Usage, key: string, day: int): int { if (key, day) in m then m[(key, day)] else 0 }

  /** Rows of days before `day` are deleted first. */
  function Kept(m: Usage, day: int): Usage { map k | k in m && k.1 >= day :: m[k] }

  function Consumed(m: Usage, limit: int, key: string, day: int): Usage {
    var kept := Kept(m, day);
    if Used(kept, key, day) < limit then kept[(key, day) := Used(kept, key, day) + 1] else kept
  }

  function Answer(m: Usage, limit: int, key: string, day: int): Result {
    var used := Used(m, key, day);
    var allowed := used < limit;
    var left := limit - (if allowed then used + 1 else used);
    Result(allowed, if left > 0 then left else 0)
  }

  class QuotaTable {
    const limit: int
    var usage: Usage

    constructor (limit: int)
      requires limit > 0
      ensures this.limit == limit && usage == map[]
    {
      this.limit := limit;
      usage := map[];
    }

    method Consume(key: string, day: int) returns (r: Result)
      modifies this
      ensures usage == Consumed(old(usage), limit, key, day)
      ensures r == Answer(old(usage), limit, key, day)
    {
      usage := map k | k in usage && k.1 >= day :: usage[k];
      var used := if (key, day) in usage then usage[(key, day)] else 0;
      var allowed := used < limit;
      if allowed {
        used := used + 1;
        usage := usage[(key, day) := used];
      }
      r := Result(allowed, if limit - used > 0 then limit - used else 0);
    }
  }

  // Whole runs -----------------------------------------------------------------------------------

  datatype Call = Call(key: string, day: int)

  function UsageAfter(calls: seq<Call>, limit: int): Usage {
    if calls == [] then map[]
    else
      var last := calls[|calls| - 1];
      Consumed(UsageAfter(calls[..|calls| - 1], limit), limit, last.key, last.day)
  }

  /** The answer to call `i` of a run. */
  function AnswerTo(calls: seq<Call>, limit: int, i: nat): Result
    requires i < |calls|
  {
    Answer(UsageAfter(calls[..i], limit), limit, calls[i].key, calls[i].day)
  }

  function Allowed(calls: seq<Call>, limit: int, key: string, day: int): nat {
    if calls == [] then 0
    else
      var front, last := calls[..|calls| - 1], calls[|calls| - 1];
      Allowed(front, limit, key, day) +
      if last.key == key && last.day == day && Answer(UsageAfter(front, limit), limit, key, day).allowed then 1 else 0
  }

  predicate DaysNeverBack(calls: seq<Call>) { forall i, j | 0 <= i <= j < |calls| :: calls[i].day <= calls[j].day }

  /** How one call changes the usage of a day not yet past. */
  lemma UsedStep(m: Usage, limit: int, call: Call, key: string, day: int)
    requires call.day <= day
    ensures Used(Consumed(m, limit, call.key, call.day), key, day) ==
      Used(m, key, day) + if call.key == key && call.day == day && Used(m, key, day) < limit then 1 else 0
  {
  }

  lemma Appended(calls: seq<Call>, limit: int, call: Call)
    ensures UsageAfter(calls + [call], limit) == Consumed(UsageAfter(calls, limit), limit, call.key, call.day)
  {
    assert (calls + [call])[..|calls|] == calls;
  }

  predicate Asks(c: Call, key: string, day: int) { c.key == key && c.day == day }

  /** The calls of `key` and `day` allowed since the last call of a later day. */
  function AllowedSince(calls: seq<Call>, limit: int, key: string, day: int): nat {
    if calls == [] then 0
    else
      var front, last := calls[..|calls| - 1], calls[|calls| - 1];
      if last.day > day then 0
      else AllowedSince(front, limit, key, day) +
           if Asks(last, key, day) && Answer(UsageAfter(front, limit), limit, key, day).allowed then 1 else 0
  }

  /** In every run the stored usage counts what was allowed since a later day last purged it. */
  lemma {:induction false} UsageCountsSince(calls: seq<Call>, limit: int, key: string, day: int)
    ensures Used(UsageAfter(calls, limit), key, day) == AllowedSince(calls, limit, key, day)
  {
    if calls != [] {
      UsageCountsSince(calls[..|calls| - 1], limit, key, day);
    }
  }

  /** In every run the answer to a call is decided by what was allowed since a later day was last seen. */
  lemma AnswerExactly(calls: seq<Call>, limit: int, i: nat)
    requires limit > 0 && i < |calls|
    ensures var call := calls[i];
      && (AnswerTo(calls, limit, i).allowed <==> AllowedSince(calls[..i], limit, call.key, call.day) < limit)
      && AnswerTo(calls, limit, i).remaining == limit - AllowedSince(calls[..i + 1], limit, call.key, call.day)
  {
    var call := calls[i];
    UsageCountsSince(calls[..i], limit, call.key, call.day);
    SinceWithinLimit(calls[..i], limit, call.key, call.day);
    assert calls[..i + 1][..i] == calls[..i];
  }

  lemma {:induction false} SinceWithinLimit(calls: seq<Call>, limit: int, key: string, day: int)
    requires limit > 0
    ensures AllowedSince(calls, limit, key, day) <= limit
  {
    if calls != [] {
      SinceWithinLimit(calls[..|calls| - 1], limit, key, day);
      UsageCountsSince(calls[..|calls| - 1], limit, key, day);
    }
  }

  // When the daily limit holds -------------------------------------------------------------------------

  function Asked(calls: seq<Call>, key: string, day: int): nat {
    if calls == [] then 0
    else Asked(calls[..|calls| - 1], key, day) + if Asks(calls[|calls| - 1], key, day) then 1 else 0
  }

  /** A call of a later day, of whatever key, came after a call of this key and day. */
  ghost predicate Passed(calls: seq<Call>, key: string, day: int) {
    exists i: nat, j: nat :: i < j < |calls| && Asks(calls[i], key, day) && calls[j].day > day
  }

  /** A call of this key and day came after one that a later day had already passed. */
  ghost predicate Interrupted(calls: seq<Call>, key: string, day: int) {
    exists k: nat :: k < |calls| && Asks(calls[k], key, day) && Passed(calls[..k], key, day)
  }

  lemma {:induction false} AskedSome(calls: seq<Call>, key: string, day: int)
    ensures Asked(calls, key, day) > 0 <==> exists i: nat :: i < |calls| && Asks(calls[i], key, day)
  {
    if calls != [] {
      var front := calls[..|calls| - 1];
      AskedSome(front, key, day);
      assert forall i: nat | i < |front| :: front[i] == calls[i];
    }
  }

  lemma PassedStep(front: seq<Call>, last: Call, key: string, day: int)
    ensures Passed(front + [last], key, day) <==> Passed(front, key, day) || (last.day > day && Asked(front, key, day) > 0)
  {
    var calls := front + [last];
    AskedSome(front, key, day);
    if Passed(front, key, day) {
      var i: nat, j: nat :| i < j < |front| && Asks(front[i], key, day) && front[j].day > day;
      assert Asks(calls[i], key, day) && calls[j].day > day;
    }
    if last.day > day && Asked(front, key, day) > 0 {
      var i: nat :| i < |front| && Asks(front[i], key, day);
      assert Asks(calls[i], key, day) && calls[|front|].day > day;
    }
    if Passed(calls, key, day) {
      var i: nat, j: nat :| i < j < |calls| && Asks(calls[i], key, day) && calls[j].day > day;
      assert Asks(front[i], key, day);
      if j < |front| { assert front[j].day > day; }
    }
  }

  lemma InterruptedStep(front: seq<Call>, last: Call, key: string, day: int)
    ensures Interrupted(front + [last], key, day) <==> Interrupted(front, key, day) || (Asks(last, key, day) && Passed(front, key, day))
  {
    hide Passed;
    var calls := front + [last];
    assert calls[..|front|] == front;
    forall k: nat | k < |front|
      ensures Asks(calls[k], key, day) && Passed(calls[..k], key, day) <==> Asks(front[k], key, day) && Passed(front[..k], key, day)
    {
      assert calls[..k] == front[..k];
    }
    if Asks(last, key, day) && Passed(front, key, day) { assert Asks(calls[|front|], key, day); }
  }

  /** What was allowed in all and since the last later day, against what was asked. */
  ghost predicate Accounts(calls: seq<Call>, limit: int, key: string, day: int) {
    var all, since, asked := Allowed(calls, limit, key, day), AllowedSince(calls, limit, key, day), Asked(calls, key, day);
    && (!Interrupted(calls, key, day) ==> all == if asked < limit then asked else limit)
    && (!Passed(calls, key, day) ==> since == all)
    && (Passed(calls, key, day) && !Interrupted(calls, key, day) ==> since == 0)
    && (Interrupted(calls, key, day) ==> since < all && if asked <= limit then all == asked else all > limit)
    && (Interrupted(calls, key, day) ==> Passed(calls, key, day))
    && (Passed(calls, key, day) ==> asked > 0)
  }

  lemma {:induction false} AlwaysAccounts(calls: seq<Call>, limit: int, key: string, day: int)
    requires limit > 0
    ensures Accounts(calls, limit, key, day)
  {
    if calls != [] {
      var front, last := calls[..|calls| - 1], calls[|calls| - 1];
      assert calls == front + [last];
      AlwaysAccounts(front, limit, key, day);
      PassedStep(front, last, key, day);
      InterruptedStep(front, last, key, day);
      UsageCountsSince(front, limit, key, day);
      SinceWithinLimit(front, limit, key, day);
      hide Passed; hide Interrupted; hide UsageAfter;
    }
  }

  /**
    Exactly when a key is allowed more than its daily limit: when it asks more often than that
    and a call of a later day, of whatever key, comes between two of its calls of the day.
  */
  lemma LimitExceededExactly(calls: seq<Call>, limit: int, key: string, day: int)
    requires limit > 0
    ensures Allowed(calls, limit, key, day) > limit <==> Asked(calls, key, day) > limit && Interrupted(calls, key, day)
  {
    AlwaysAccounts(calls, limit, key, day);
  }

  /** Until a later day is seen, the stored usage counts all calls allowed, never above the limit. */
  lemma UsageCountsAllowed(calls: seq<Call>, limit: int, key: string, day: int)
    requires limit > 0 && forall c | c in calls :: c.day <= day
    ensures Used(UsageAfter(calls, limit), key, day) == Allowed(calls, limit, key, day)
    ensures 0 <= Allowed(calls, limit, key, day) <= limit
  {
    UsageCountsSince(calls, limit, key, day);
    AlwaysAccounts(calls, limit, key, day);
    SinceWithinLimit(calls, limit, key, day);
    assert !Passed(calls, key, day) by {
      assert forall j | 0 <= j < |calls| :: calls[j] in calls;
    }
  }

  /**
    With days never going backwards, each key is allowed at most `limit` calls a day, a call is
    allowed exactly while fewer were, and `remaining` is the limit less those allowed, this one
    included.
  */
  lemma QuotaIsExact(calls: seq<Call>, limit: int, i: nat)
    requires limit > 0 && DaysNeverBack(calls) && i < |calls|
    ensures var call, before := calls[i], calls[..i];
      && Allowed(before, limit, call.key, call.day) <= limit
      && (AnswerTo(calls, limit, i).allowed <==> Allowed(before, limit, call.key, call.day) < limit)
      && AnswerTo(calls, limit, i).remaining == limit - Allowed(calls[..i + 1], limit, call.key, call.day)
  {
    var call := calls[i];
    AnswerExactly(calls, limit, i);
    UsageCountsSince(calls[..i], limit, call.key, call.day);
    UsageCountsSince(calls[..i + 1], limit, call.key, call.day);
    UsageCountsAllowed(calls[..i], limit, call.key, call.day);
    UsageCountsAllowed(calls[..i + 1], limit, call.key, call.day);
  }

  function CallsOf(calls: seq<Call>, key: string): seq<Call> {
    if calls == [] then []
    else CallsOf(calls[..|calls| - 1], key) + (if calls[|calls| - 1].key == key then [calls[|calls| - 1]] else [])
  }

  /** The key's own calls, and everybody's calls of later days. */
  function OwnAndLater(calls: seq<Call>, key: string, day: int): seq<Call> {
    if calls == [] then []
    else
      var last := calls[|calls| - 1];
      OwnAndLater(calls[..|calls| - 1], key, day) + (if last.key == key || last.day > day then [last] else [])
  }

  lemma PurgeStep(m: Usage, limit: int, call: Call, key: string, day: int)
    requires call.day > day
    ensures Used(Consumed(m, limit, call.key, call.day), key, day) == 0
  {
  }

  /** In every run the calls of other keys matter to a key's usage only where they are of a later day. */
  lemma {:induction false} OnlyLaterDaysMatter(calls: seq<Call>, limit: int, key: string, day: int)
    ensures Used(UsageAfter(calls, limit), key, day) == Used(UsageAfter(OwnAndLater(calls, key, day), limit), key, day)
  {
    if calls != [] {
      hide UsageAfter; hide Consumed; hide Used;
      var front, last := calls[..|calls| - 1], calls[|calls| - 1];
      var kept := OwnAndLater(front, key, day);
      assert calls == front + [last];
      OnlyLaterDaysMatter(front, limit, key, day);
      Appended(front, limit, last);
      Appended(kept, limit, last);
      if last.day > day {
        PurgeStep(UsageAfter(front, limit), limit, last, key, day);
        PurgeStep(UsageAfter(kept, limit), limit, last, key, day);
      } else {
        UsedStep(UsageAfter(front, limit), limit, last, key, day);
        UsedStep(UsageAfter(kept, limit), limit, last, key, day);
        assert last.key != key ==> OwnAndLater(calls, key, day) == kept;
      }
    }
  }

  lemma {:induction false} NothingLater(calls: seq<Call>, key: string, day: int)
    requires forall c | c in calls :: c.day <= day
    ensures OwnAndLater(calls, key, day) == CallsOf(calls, key)
  {
    if calls != [] {
      assert calls[|calls| - 1] in calls;
      NothingLater(calls[..|calls| - 1], key, day);
    }
  }

  /** So until a later day is seen, keys do not affect one another: a key's usage is what its own calls alone would leave. */
  lemma KeysAreIndependent(calls: seq<Call>, limit: int, key: string, day: int)
    requires forall c | c in calls :: c.day <= day
    ensures Used(UsageAfter(calls, limit), key, day) == Used(UsageAfter(CallsOf(calls, key), limit), key, day)
  {
    OnlyLaterDaysMatter(calls, limit, key, day);
    NothingLater(calls, key, day);
  }

  /**
    A run that exceeds the limit: around midnight another key's call of the new day is served
    between two calls of the old day.
  */
  lemma LimitCanBeExceeded()
    ensures var calls := [Call("k", 1), Call("other", 2), Call("k", 1)];
      Interrupted(calls, "k", 1) && Allowed(calls, 1, "k", 1) == 2
  {
    var calls := [Call("k", 1), Call("other", 2), Call("k", 1)];
    assert Asks(calls[..2][0], "k", 1) && calls[..2][1].day > 1;
    assert Passed(calls[..2], "k", 1) && Asks(calls[2], "k", 1);
    AskedTwice();
    LimitExceededExactly(calls, 1, "k", 1);
    AllowedAtMostAsked(calls, 1, "k", 1);
  }

  lemma AskedTwice()
    ensures Asked([Call("k", 1), Call("other", 2), Call("k", 1)], "k", 1) == 2
  {
    var calls := [Call("k", 1), Call("other", 2), Call("k", 1)];
    assert calls[..2][..1] == [Call("k", 1)] && [Call("k", 1)][..0] == [];
    assert Asked([Call("k", 1)], "k", 1) == 1;
    assert Asked(calls[..2], "k", 1) == 1;
  }

  lemma {:induction false} AllowedAtMostAsked(calls: seq<Call>, limit: int, key: string, day: int)
    ensures Allowed(calls, limit, key, day) <= Asked(calls, key, day)
  {
    if calls != [] { AllowedAtMostAsked(calls[..|calls| - 1], limit, key, day); }
  }
}
