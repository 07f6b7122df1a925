/** The contact route's in-memory sliding-window rate limiter
    (`rateLimitMap` and `isRateLimited` in app/api/contact/route.ts).

    A table maps each caller key to the arrival times of its recent requests,
    oldest first. A call drops the times that have left the window, and
    then either rejects (when the remaining count has reached the limit,
    leaving the table exactly as it was) or appends the current time and
    stores the pruned list back. The clock is a parameter; times are whole
    milliseconds. */
module RateLimit {

  type Table = map<string, seq<int>>

  /** `rateLimitMap.get(ip) || []`: a key never seen behaves as an empty list.
      (A stored array is truthy even when empty, so `|| []` only applies to a
      missing key.) */
  function Lookup(table: Table, ip: string): (ts: seq<int>)
    ensures ip in table ==> ts == table[ip]
    ensures ip !in table ==> ts == []
  {
    if ip in table then table[ip] else []
  }

  /** The filter condition `now - time < windowMs`: strict, so a time exactly
      `windowMs` old is already out of the window. */
  predicate InWindow(t: int, now: int, windowMs: int) {
    now - t < windowMs
  }

  /** `userRequests.filter((time) => now - time < windowMs)`. */
  function Recent(ts: seq<int>, now: int, windowMs: int): (r: seq<int>)
    ensures |r| <= |ts|
    ensures forall k :: 0 <= k < |r| ==> InWindow(r[k], now, windowMs)
  {
    if ts == [] then []
    else (if InWindow(ts[0], now, windowMs) then [ts[0]] else [])
         + Recent(ts[1..], now, windowMs)
  }

  /** How many of the stored times are still in the window, counted as a set
      of positions. */
  function CountInWindow(ts: seq<int>, now: int, windowMs: int): nat {
    |Positions(ts, now, windowMs)|
  }

  /** The result of one call: whether it was limited, and the new table. */
  datatype Outcome = Outcome(limited: bool, table: Table)

  /** One call of `isRateLimited(ip, maxRequests, windowMs)` at time `now`.
      The early return on rejection comes before `rateLimitMap.set`, so a
      rejected call neither prunes nor records anything. No key is ever
      deleted and no other key is touched. */
  function Check(table: Table, ip: string, now: int, maxRequests: int, windowMs: int): (o: Outcome)
    ensures o.limited ==> o.table == table
    ensures o.table.Keys == if o.limited then table.Keys else table.Keys + {ip}
    ensures forall key :: key in table && key != ip ==> o.table[key] == table[key]
  {
    var recent := Recent(Lookup(table, ip), now, windowMs);
    if |recent| >= maxRequests then Outcome(true, table)
    else Outcome(false, table[ip := recent + [now]])
  }

  /** Filtering distributes over concatenation, so it keeps the times it
      keeps in their original order. */
  lemma {:induction false} RecentConcat(a: seq<int>, b: seq<int>, now: int, windowMs: int)
    ensures Recent(a + b, now, windowMs) == Recent(a, now, windowMs) + Recent(b, now, windowMs)
  {
    if a == [] {
      assert a + b == b;
    } else {
      assert (a + b)[0] == a[0];
      assert (a + b)[1..] == a[1..] + b;
      RecentConcat(a[1..], b, now, windowMs);
    }
  }

  /** The filter keeps every occurrence of a time in the window and no
      occurrence of a time outside it. */
  lemma {:induction false} RecentContents(ts: seq<int>, now: int, windowMs: int)
    ensures forall t :: (multiset(Recent(ts, now, windowMs))[t] ==
                         if InWindow(t, now, windowMs) then multiset(ts)[t] else 0)
  {
    if ts != [] {
      RecentContents(ts[1..], now, windowMs);
      assert ts == [ts[0]] + ts[1..];
      assert multiset(ts) == multiset([ts[0]]) + multiset(ts[1..]);
    }
  }

  /** A list whose times are all in the window passes the filter unchanged. */
  lemma {:induction false} RecentOfFresh(ts: seq<int>, now: int, windowMs: int)
    requires forall k :: 0 <= k < |ts| ==> InWindow(ts[k], now, windowMs)
    ensures Recent(ts, now, windowMs) == ts
  {
    if ts != [] {
      RecentOfFresh(ts[1..], now, windowMs);
    }
  }

  /** A list whose times have all left the window filters to nothing. */
  lemma {:induction false} RecentOfStale(ts: seq<int>, now: int, windowMs: int)
    requires forall k :: 0 <= k < |ts| ==> !InWindow(ts[k], now, windowMs)
    ensures Recent(ts, now, windowMs) == []
  {
    if ts != [] {
      RecentOfStale(ts[1..], now, windowMs);
    }
  }

  /** The positions of `ts` whose time is in the window. */
  function Positions(ts: seq<int>, now: int, windowMs: int): set<nat> {
    set k: nat | k < |ts| && InWindow(ts[k], now, windowMs)
  }

  lemma PositionsSnoc(init: seq<int>, last: int, now: int, windowMs: int)
    ensures Positions(init + [last], now, windowMs) ==
      Positions(init, now, windowMs) + (if InWindow(last, now, windowMs) then {|init|} else {})
  {
    var ts := init + [last];
    forall k: nat | k < |init| ensures ts[k] == init[k] {
    }
  }

  /** The length of the filtered list is the number of positions in the
      window. */
  lemma {:induction false} RecentCounts(ts: seq<int>, now: int, windowMs: int)
    ensures |Recent(ts, now, windowMs)| == CountInWindow(ts, now, windowMs)
    decreases |ts|
  {
    if ts == [] {
      assert Positions(ts, now, windowMs) == {};
    } else {
      var init, last := ts[..|ts| - 1], ts[|ts| - 1];
      assert ts == init + [last];
      RecentConcat(init, [last], now, windowMs);
      RecentCounts(init, now, windowMs);
      PositionsSnoc(init, last, now, windowMs);
      assert |init| !in Positions(init, now, windowMs);
    }
  }

  /** A call is limited exactly when the number of stored times for `ip`
      that are still in the window has reached `maxRequests`. */
  lemma LimitedIffCountReached(table: Table, ip: string, now: int, maxRequests: int, windowMs: int)
    ensures Check(table, ip, now, maxRequests, windowMs).limited <==>
      CountInWindow(Lookup(table, ip), now, windowMs) >= maxRequests
  {
    RecentCounts(Lookup(table, ip), now, windowMs);
  }

  /** An admitted call stores for `ip` exactly the in-window times, in their
      old order, followed by `now`. */
  lemma AdmittedStoresPrunedList(table: Table, ip: string, now: int, maxRequests: int, windowMs: int)
    requires !Check(table, ip, now, maxRequests, windowMs).limited
    ensures var stored := Check(table, ip, now, maxRequests, windowMs).table[ip];
      stored == Recent(Lookup(table, ip), now, windowMs) + [now] &&
      multiset(stored) == multiset(Recent(Lookup(table, ip), now, windowMs)) + multiset{now}
  {
  }

  /** After an admitted call, `ip` holds at most `maxRequests` times, all of
      them in the window (for a positive window, `now` itself is). */
  lemma AdmittedWithinLimit(table: Table, ip: string, now: int, maxRequests: int, windowMs: int)
    requires windowMs > 0
    requires !Check(table, ip, now, maxRequests, windowMs).limited
    ensures var stored := Check(table, ip, now, maxRequests, windowMs).table[ip];
      |stored| <= maxRequests &&
      forall k :: 0 <= k < |stored| ==> InWindow(stored[k], now, windowMs)
  {
  }

  /** Every key holds at most `maxRequests` times. */
  predicate WithinLimit(table: Table, maxRequests: int) {
    forall key :: key in table ==> |table[key]| <= maxRequests
  }

  /** With a fixed limit, every call keeps every list within the limit. */
  lemma CheckKeepsWithinLimit(table: Table, ip: string, now: int, maxRequests: int, windowMs: int)
    requires WithinLimit(table, maxRequests)
    ensures WithinLimit(Check(table, ip, now, maxRequests, windowMs).table, maxRequests)
  {
  }

  /** Oldest first. */
  predicate Sorted(ts: seq<int>) {
    forall a, b :: 0 <= a < b < |ts| ==> ts[a] <= ts[b]
  }

  /** Every stored list is oldest first, and no time lies after `now`. */
  predicate Ordered(table: Table, now: int) {
    forall key :: key in table ==>
      Sorted(table[key]) && forall a :: 0 <= a < |table[key]| ==> table[key][a] <= now
  }

  /** Filtering keeps a sorted list sorted and within the same bound. */
  lemma {:induction false} RecentKeepsSorted(ts: seq<int>, now: int, windowMs: int, bound: int)
    requires Sorted(ts) && forall a :: 0 <= a < |ts| ==> ts[a] <= bound
    ensures var r := Recent(ts, now, windowMs);
      Sorted(r) && forall a :: 0 <= a < |r| ==> r[a] <= bound
    ensures forall t :: t in Recent(ts, now, windowMs) ==> t in ts
  {
    if ts != [] {
      assert Sorted(ts[1..]) by {
        forall a, b | 0 <= a < b < |ts[1..]| ensures ts[1..][a] <= ts[1..][b] {
          assert ts[1..][a] == ts[a + 1] && ts[1..][b] == ts[b + 1];
        }
      }
      RecentKeepsSorted(ts[1..], now, windowMs, bound);
      var rest := Recent(ts[1..], now, windowMs);
      forall t | t in rest ensures ts[0] <= t {
        var a :| 0 <= a < |ts[1..]| && ts[1..][a] == t;
        assert ts[a + 1] == t;
      }
      if InWindow(ts[0], now, windowMs) {
        var r := [ts[0]] + rest;
        forall a, b | 0 <= a < b < |r| ensures r[a] <= r[b] {
          assert r[b] == rest[b - 1] && rest[b - 1] in rest;
          if a > 0 {
            assert r[a] == rest[a - 1];
          }
        }
      }
    }
  }

  /** Under a clock that never goes back, calls keep every list oldest
      first. */
  lemma CheckKeepsOrdered(table: Table, ip: string, before: int, now: int, maxRequests: int, windowMs: int)
    requires Ordered(table, before) && before <= now
    ensures Ordered(Check(table, ip, now, maxRequests, windowMs).table, now)
  {
    var o := Check(table, ip, now, maxRequests, windowMs);
    var ts := Lookup(table, ip);
    RecentKeepsSorted(ts, now, windowMs, now);
    var r := Recent(ts, now, windowMs);
    forall key | key in o.table
      ensures Sorted(o.table[key]) && forall a :: 0 <= a < |o.table[key]| ==> o.table[key][a] <= now
    {
      if key == ip && !o.limited {
        assert o.table[key] == r + [now];
      }
    }
  }

  /** Once every stored time for `ip` has left the window, `ip` is admitted
      again (for a positive limit) and starts a fresh list. */
  lemma AdmittedAfterWindow(table: Table, ip: string, now: int, maxRequests: int, windowMs: int)
    requires maxRequests >= 1
    requires forall k :: 0 <= k < |Lookup(table, ip)| ==> !InWindow(Lookup(table, ip)[k], now, windowMs)
    ensures !Check(table, ip, now, maxRequests, windowMs).limited
    ensures Check(table, ip, now, maxRequests, windowMs).table[ip] == [now]
  {
    RecentOfStale(Lookup(table, ip), now, windowMs);
  }

  /** One sequential call to the limiter. */
  datatype Call = Call(ip: string, now: int)

  /** The verdicts of a sequence of calls and the final table. */
  datatype Run = Run(verdicts: seq<bool>, table: Table)

  function Replay(table: Table, calls: seq<Call>, maxRequests: int, windowMs: int): (r: Run)
    ensures |r.verdicts| == |calls|
    decreases |calls|
  {
    if calls == [] then Run([], table)
    else
      var o := Check(table, calls[0].ip, calls[0].now, maxRequests, windowMs);
      var rest := Replay(o.table, calls[1..], maxRequests, windowMs);
      Run([o.limited] + rest.verdicts, rest.table)
  }

  function Repeat(c: Call, n: nat): (cs: seq<Call>)
    ensures |cs| == n && forall k :: 0 <= k < n ==> cs[k] == c
  {
    seq(n, _ => c)
  }

  lemma {:induction false} BurstFrom(table: Table, ip: string, now: int, maxRequests: int, windowMs: int, stored: nat, n: nat)
    requires windowMs > 0
    requires Lookup(table, ip) == seq(stored, _ => now)
    ensures forall i :: 0 <= i < n ==>
      Replay(table, Repeat(Call(ip, now), n), maxRequests, windowMs).verdicts[i] == (stored + i >= maxRequests)
    decreases n
  {
    if n > 0 {
      RecentOfFresh(Lookup(table, ip), now, windowMs);
      var o := Check(table, ip, now, maxRequests, windowMs);
      assert o.limited == (stored >= maxRequests);
      var next: nat := if o.limited then stored else stored + 1;
      assert Lookup(o.table, ip) == seq(next, _ => now);
      BurstFrom(o.table, ip, now, maxRequests, windowMs, next, n - 1);
      var calls := Repeat(Call(ip, now), n);
      assert calls[1..] == Repeat(Call(ip, now), n - 1);
      var rest := Replay(o.table, Repeat(Call(ip, now), n - 1), maxRequests, windowMs);
      assert forall j :: 0 <= j < n - 1 ==> rest.verdicts[j] == (next + j >= maxRequests);
      var r := Replay(table, calls, maxRequests, windowMs);
      assert r.verdicts == [o.limited] + rest.verdicts;
      forall i | 0 <= i < n ensures r.verdicts[i] == (stored + i >= maxRequests) {
        if i > 0 {
          assert r.verdicts[i] == rest.verdicts[i - 1] == (next + (i - 1) >= maxRequests);
        }
      }
    }
  }

  /** Under a fixed clock, starting from an empty table, the first
      `maxRequests` calls for one key are admitted and every later one is
      rejected. */
  lemma BurstFromEmpty(ip: string, now: int, maxRequests: int, windowMs: int, n: nat)
    requires windowMs > 0
    ensures var r := Replay(map[], Repeat(Call(ip, now), n), maxRequests, windowMs);
      forall i :: 0 <= i < n ==> (r.verdicts[i] <==> i >= maxRequests)
  {
    assert Lookup(map[], ip) == seq(0, _ => now);
    BurstFrom(map[], ip, now, maxRequests, windowMs, 0, n);
  }

  /** The process-wide table behind `isRateLimited`. */
  class RateLimiter {
    var table: Table

    /** `new Map<string, number[]>()` */
    constructor ()
      ensures table == map[]
    {
      table := map[];
    }

    /** `isRateLimited(ip, maxRequests, windowMs)` with `Date.now()` passed
        in as `now`. The filter runs as a loop over the stored list. */
    method IsRateLimited(ip: string, now: int, maxRequests: int, windowMs: int) returns (limited: bool)
      modifies this
      ensures limited == Check(old(table), ip, now, maxRequests, windowMs).limited
      ensures table == Check(old(table), ip, now, maxRequests, windowMs).table
    {
      var userRequests := if ip in table then table[ip] else [];
      var recentRequests: seq<int> := [];
      var i := 0;
      while i < |userRequests|
        invariant 0 <= i <= |userRequests|
        invariant recentRequests == Recent(userRequests[..i], now, windowMs)
        invariant table == old(table)
      {
        var time := userRequests[i];
        assert userRequests[..i + 1] == userRequests[..i] + [time];
        RecentConcat(userRequests[..i], [time], now, windowMs);
        if now - time < windowMs {
          recentRequests := recentRequests + [time];
        }
        i := i + 1;
      }
      assert userRequests[..i] == userRequests;
      if |recentRequests| >= maxRequests {
        return true;
      }
      recentRequests := recentRequests + [now];
      table := table[ip := recentRequests];
      return false;
    }
  }
}
