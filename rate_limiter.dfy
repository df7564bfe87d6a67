/**
 * The optional in-memory sliding-window rate limiter of the Flask backend
 * proxy: a table from a per-user key to the list of request timestamps seen
 * inside the current window.
 *
 * The wall clock is replaced by an integer `now` argument; timestamps are
 * integers. Raising 'Rate limit exceeded' is modelled as the `Rejected`
 * outcome.
 */
module RateLimiter {

  /** The table shape: user key to the timestamps recorded for it, oldest first. */
  type Table = map<string, seq<int>>

  /** Outcome of one check: the request is admitted, or the source raises. */
  datatype Outcome = Allowed | Rejected(message: string)

  /** The state after one check, as a value. */
  datatype StepResult = StepResult(outcome: Outcome, table: Table)

  /** The state after a sequence of checks, with the times that were admitted. */
  datatype RunResult = RunResult(table: Table, accepted: seq<int>)

  const KeyPrefix: string := "ratelimit:"
  const RateLimitExceeded: string := "Rate limit exceeded"

  /** Defaults of the `limit` and `window` parameters. */
  const DefaultLimit: int := 60
  const DefaultWindow: int := 60

  /** The table key of a user: the fixed prefix followed by the user's id. */
  function Key(userId: string): (r: string)
    ensures |r| == |KeyPrefix| + |userId|
    ensures r[..|KeyPrefix|] == KeyPrefix && r[|KeyPrefix|..] == userId
  {
    KeyPrefix + userId
  }

  /** Two users share a table entry only if their ids are equal. */
  lemma KeyInjective(a: string, b: string)
    requires Key(a) == Key(b)
    ensures a == b
  {
  }

  /** The list a check starts from: the stored one, or empty for a missing key. */
  function Entry(table: Table, key: string): (r: seq<int>)
    ensures key in table ==> r == table[key]
    ensures key !in table ==> r == []
  {
    if key in table then table[key] else []
  }

  /**
   * The pruning filter: keep, in order, the timestamps `t` with
   * `now - t < window`, so an entry exactly `window` old is dropped.
   */
  function Prune(ts: seq<int>, now: int, window: int): (r: seq<int>)
    ensures |r| <= |ts|
    ensures forall t :: t in r ==> t in ts && now - t < window
    ensures forall i :: 0 <= i < |ts| && now - ts[i] < window ==> ts[i] in r
  {
    if ts == [] then []
    else
      var rest := Prune(ts[1..], now, window);
      if now - ts[0] < window then [ts[0]] + rest else rest
  }

  /** Pruning keeps every in-window timestamp as often as it occurs, and no other. */
  lemma {:induction false} PruneMultiset(ts: seq<int>, now: int, window: int, t: int)
    ensures multiset(Prune(ts, now, window))[t]
            == if now - t < window then multiset(ts)[t] else 0
  {
    if ts != [] {
      PruneMultiset(ts[1..], now, window, t);
      assert ts == [ts[0]] + ts[1..];
    }
  }

  /** Pruning works element by element, so it keeps the relative order of what it retains. */
  lemma {:induction false} PruneAppend(a: seq<int>, b: seq<int>, now: int, window: int)
    ensures Prune(a + b, now, window) == Prune(a, now, window) + Prune(b, now, window)
  {
    if a == [] {
      assert a + b == b;
    } else {
      assert (a + b)[0] == a[0];
      assert (a + b)[1..] == a[1..] + b;
      PruneAppend(a[1..], b, now, window);
    }
  }

  /**
   * Pruning at an earlier time and then at a later one is the same as pruning
   * once at the later time (in particular pruning is idempotent).
   */
  lemma {:induction false} PruneCumulative(ts: seq<int>, earlier: int, later: int, window: int)
    requires earlier <= later
    ensures Prune(Prune(ts, earlier, window), later, window) == Prune(ts, later, window)
  {
    if ts != [] {
      PruneCumulative(ts[1..], earlier, later, window);
    }
  }

  /** One call of the limiter for `userId` at time `now`, on the table as a value. */
  function Step(table: Table, userId: string, now: int, limit: int, window: int): (r: StepResult)
    ensures r.table.Keys == table.Keys + {Key(userId)}
    ensures forall k :: k in table && k != Key(userId) ==> r.table[k] == table[k]
    ensures r.outcome.Allowed? <==> |Prune(Entry(table, Key(userId)), now, window)| < limit
    ensures r.outcome.Rejected? ==> r.outcome.message == RateLimitExceeded
  {
    var key := Key(userId);
    var pruned := Prune(Entry(table, key), now, window);
    if |pruned| >= limit then
      StepResult(Rejected(RateLimitExceeded), table[key := pruned])
    else
      StepResult(Allowed, table[key := pruned + [now]])
  }

  /**
   * The user's new list: the old one with every expired timestamp removed, and
   * `now` appended exactly when the call is admitted; a rejected call still
   * writes the pruned list back.
   */
  lemma StepEntry(table: Table, userId: string, now: int, limit: int, window: int)
    ensures var r := Step(table, userId, now, limit, window);
            var pruned := Prune(Entry(table, Key(userId)), now, window);
            && (r.outcome.Allowed? ==>
                  r.table[Key(userId)] == pruned + [now] && |r.table[Key(userId)]| == |pruned| + 1)
            && (r.outcome.Rejected? ==>
                  r.table[Key(userId)] == pruned && |pruned| >= limit)
  {
  }

  /** After a call every retained timestamp lies inside the window of `now`, except `now` itself. */
  lemma StepEntryInWindow(table: Table, userId: string, now: int, limit: int, window: int)
    ensures var r := Step(table, userId, now, limit, window);
            forall t :: t in r.table[Key(userId)] ==>
              now - t < window || (t == now && r.outcome.Allowed?)
  {
  }

  /** A user with no entry is admitted on the first call whenever `limit >= 1`. */
  lemma FirstCallSucceeds(table: Table, userId: string, now: int, limit: int, window: int)
    requires Key(userId) !in table
    requires limit >= 1
    ensures Step(table, userId, now, limit, window).outcome == Allowed
    ensures Step(table, userId, now, limit, window).table[Key(userId)] == [now]
  {
  }

  /** With `limit <= 0` (in particular 0) every call is rejected and `now` is never recorded. */
  lemma ZeroLimitRejects(table: Table, userId: string, now: int, limit: int, window: int)
    requires limit <= 0
    ensures var r := Step(table, userId, now, limit, window);
            && r.outcome == Rejected(RateLimitExceeded)
            && r.table[Key(userId)] == Prune(Entry(table, Key(userId)), now, window)
  {
  }

  /** Every list in the table has at most `limit` timestamps. */
  ghost predicate WithinLimit(table: Table, limit: int)
  {
    forall k :: k in table ==> |table[k]| <= limit
  }

  /** With a fixed, non-negative `limit`, a call keeps every list within `limit`. */
  lemma BoundPreserved(table: Table, userId: string, now: int, limit: int, window: int)
    requires limit >= 0
    requires WithinLimit(table, limit)
    ensures WithinLimit(Step(table, userId, now, limit, window).table, limit)
  {
  }

  /** A call for one user leaves the entry of every other user as it was. */
  lemma OtherUsersUntouched(table: Table, userId: string, other: string, now: int, limit: int, window: int)
    requires other != userId
    ensures var r := Step(table, userId, now, limit, window);
            (Key(other) in r.table <==> Key(other) in table)
            && Entry(r.table, Key(other)) == Entry(table, Key(other))
  {
  }

  /** A sequence of calls for one user at the given times, oldest first. */
  function Run(table: Table, userId: string, times: seq<int>, limit: int, window: int): (r: RunResult)
    decreases |times|
  {
    if times == [] then RunResult(table, [])
    else
      var prev := Run(table, userId, times[..|times| - 1], limit, window);
      var now := times[|times| - 1];
      var s := Step(prev.table, userId, now, limit, window);
      RunResult(s.table, prev.accepted + (if s.outcome.Allowed? then [now] else []))
  }

  ghost predicate NonDecreasing(times: seq<int>)
  {
    forall i, j :: 0 <= i < j < |times| ==> times[i] <= times[j]
  }

  /**
   * One call keeps the sliding-window invariant: if the stored list is the
   * admitted times in the window of an earlier call, afterwards it is the
   * admitted times (now including `now` when admitted) in the window of `now`,
   * and it stays within `limit`.
   */
  lemma StepKeepsWindow(table: Table, userId: string, accepted: seq<int>, before: int,
                        now: int, limit: int, window: int)
    requires Entry(table, Key(userId)) == Prune(accepted, before, window)
    requires |Prune(accepted, before, window)| <= limit
    requires before <= now && window > 0
    ensures var s := Step(table, userId, now, limit, window);
            var acc := accepted + (if s.outcome.Allowed? then [now] else []);
            && Entry(s.table, Key(userId)) == Prune(acc, now, window)
            && |Prune(acc, now, window)| <= limit
  {
    var s := Step(table, userId, now, limit, window);
    var pruned := Prune(Entry(table, Key(userId)), now, window);
    StepEntry(table, userId, now, limit, window);
    PruneCumulative(accepted, before, now, window);
    assert pruned == Prune(accepted, now, window);
    if s.outcome.Allowed? {
      PruneAppend(accepted, [now], now, window);
      assert Prune([now], now, window) == [now];
      assert Prune(accepted + [now], now, window) == pruned + [now];
    } else {
      assert accepted + [] == accepted;
    }
  }

  /**
   * The limiter's purpose: for a user whose list starts empty, calls at
   * non-decreasing times and a positive window, the stored list is exactly the
   * admitted times that lie in the window of the latest call, and there are at
   * most `limit` of them.
   */
  lemma {:induction false} SlidingWindowBound(table: Table, userId: string, times: seq<int>, limit: int, window: int)
    requires Entry(table, Key(userId)) == []
    requires NonDecreasing(times) && |times| > 0
    requires limit >= 0 && window > 0
    ensures var r := Run(table, userId, times, limit, window);
            var last := times[|times| - 1];
            && Entry(r.table, Key(userId)) == Prune(r.accepted, last, window)
            && |Prune(r.accepted, last, window)| <= limit
  {
    var n := |times|;
    var now := times[n - 1];
    var init := times[..n - 1];
    var prev := Run(table, userId, init, limit, window);
    if n == 1 {
      assert prev == RunResult(table, []);
      StepKeepsWindow(table, userId, [], now, now, limit, window);
    } else {
      var before := init[|init| - 1];
      SlidingWindowBound(table, userId, init, limit, window);
      assert before <= now;
      StepKeepsWindow(prev.table, userId, prev.accepted, before, now, limit, window);
    }
  }

  /**
   * Any number of calls for one user touch only that user's key: it is added
   * once there is a call, and every other key keeps its presence and its list.
   */
  lemma {:induction false} RunOtherUsersUntouched(table: Table, userId: string, other: string,
                                                  times: seq<int>, limit: int, window: int)
    requires other != userId
    ensures var r := Run(table, userId, times, limit, window);
            && r.table.Keys == table.Keys + (if times == [] then {} else {Key(userId)})
            && (forall k :: k in table && k != Key(userId) ==> r.table[k] == table[k])
            && (Key(other) in r.table <==> Key(other) in table)
            && Entry(r.table, Key(other)) == Entry(table, Key(other))
  {
    if times != [] {
      var init := times[..|times| - 1];
      RunOtherUsersUntouched(table, userId, other, init, limit, window);
      OtherUsersUntouched(Run(table, userId, init, limit, window).table, userId, other,
                          times[|times| - 1], limit, window);
    }
  }

  /** The in-memory table of the proxy process. */
  class RateLimitCache {
    var entries: Table

    /** The module-level table starts empty. */
    constructor ()
      ensures entries == map[]
    {
      entries := map[];
    }

    /**
     * Check and record one request of `userId` at time `now`: create a missing
     * entry, prune it, reject when `limit` timestamps remain, otherwise
     * append `now`.
     */
    method CheckRateLimit(userId: string, now: int, limit: int, window: int) returns (r: Outcome)
      modifies this
      ensures var s := Step(old(entries), userId, now, limit, window);
              r == s.outcome && entries == s.table
    {
      var key := Key(userId);
      if key !in entries {
        entries := entries[key := []];
      }
      entries := entries[key := Prune(entries[key], now, window)];
      if |entries[key]| >= limit {
        return Rejected(RateLimitExceeded);
      }
      entries := entries[key := entries[key] + [now]];
      return Allowed;
    }

    /** The check with the default limit of 60 requests per 60-second window. */
    method CheckRateLimitDefault(userId: string, now: int) returns (r: Outcome)
      modifies this
      ensures var s := Step(old(entries), userId, now, DefaultLimit, DefaultWindow);
              r == s.outcome && entries == s.table
    {
      r := CheckRateLimit(userId, now, DefaultLimit, DefaultWindow);
    }
  }
}
