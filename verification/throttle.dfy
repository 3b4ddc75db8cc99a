/** The fixed-window check of one identifier, `has_exceeded_rate_limit`
    (src/fastapi_throttling/throttle.py:74-87), and what a run of such checks
    does to one identifier's counter. */
module Throttle {
  import opened Wrappers
  import opened CounterStore

  /** A positive number of seconds: the store accepts no other expire time. */
  type Seconds = n: int | n > 0 witness 1

  /** The middleware's `limit` and `window` (throttle.py:45-46). The limit is
      any integer: the constructor does not check it. */
  datatype Policy = Policy(limit: int, window: Seconds)

  function Max(a: int, b: int): (m: int) { if a >= b then a else b }

  function Min(a: int, b: int): (m: int) { if a <= b then a else b }

  /** The number of requests one identifier is admitted per window. A limit
      below 1 still lets the request that opens the window through. */
  function Quota(p: Policy): (q: nat)
    ensures q >= 1 && q >= p.limit
    ensures p.limit >= 1 ==> q == p.limit
  {
    Max(p.limit, 1)
  }

  /** Every stored count, live or expired, lies between 1 and the quota. */
  ghost predicate CountsBounded(s: Store, p: Policy) {
    forall j :: j in s ==> 1 <= s[j].count <= Quota(p)
  }

  /** Whether the identifier was denied, and the store after the check. */
  datatype Verdict = Verdict(exceeded: bool, store: Store)

  /** `has_exceeded_rate_limit`: a missing or expired counter opens a new
      window at 1; a live count below the limit is incremented; otherwise the
      request is denied and nothing is written. */
  function HasExceededRateLimit(p: Policy, s: Store, id: string, now: nat): (r: Verdict)
    ensures r.exceeded <==> Live(s, id, now) && s[id].count >= p.limit
    ensures r.exceeded ==> r.store == s
    ensures !Live(s, id, now) ==> r.store == s[id := Counter(1, now + p.window)]
    ensures Live(s, id, now) && !r.exceeded ==>
              r.store == s[id := Counter(s[id].count + 1, s[id].expiresAt)]
    ensures !r.exceeded ==> Live(r.store, id, now)
    ensures UnchangedOutside(s, r.store, {id})
    ensures CountsBounded(s, p) ==> CountsBounded(r.store, p)
  {
    match Get(s, id, now)
    case None => Verdict(false, SetEx(s, id, 1, p.window, now))
    case Some(count) =>
      if count < p.limit then Verdict(false, Incr(s, id, now))
      else Verdict(true, s)
  }

  /** The denials of a run of checks, and the store after the last one. */
  datatype Run = Run(exceeded: seq<bool>, store: Store)

  /** Checks `id` once at each instant of `times`, in order, each check seeing
      the store the previous one left. */
  function CheckRun(p: Policy, s: Store, id: string, times: seq<nat>): (r: Run)
    ensures |r.exceeded| == |times|
    ensures UnchangedOutside(s, r.store, {id})
    ensures CountsBounded(s, p) ==> CountsBounded(r.store, p)
    decreases |times|
  {
    if |times| == 0 then Run([], s)
    else
      var v := HasExceededRateLimit(p, s, id, times[0]);
      var rest := CheckRun(p, v.store, id, times[1..]);
      Run([v.exceeded] + rest.exceeded, rest.store)
  }

  /** On a counter that stays live throughout, the i-th check of a run is
      denied exactly when the count it started from plus i reaches the limit;
      the count climbs to the limit and no further, and the expiry never moves. */
  lemma {:induction false} RunOnLiveCounter(p: Policy, s: Store, id: string, times: seq<nat>)
    requires id in s
    requires forall i :: 0 <= i < |times| ==> times[i] < s[id].expiresAt
    ensures forall i :: 0 <= i < |times| ==>
              (CheckRun(p, s, id, times).exceeded[i] <==> s[id].count + i >= p.limit)
    ensures id in CheckRun(p, s, id, times).store
    ensures CheckRun(p, s, id, times).store[id]
              == Counter(Max(s[id].count, Min(s[id].count + |times|, p.limit)), s[id].expiresAt)
    decreases |times|
  {
    if |times| > 0 {
      var c := s[id].count;
      var v := HasExceededRateLimit(p, s, id, times[0]);
      var rest := times[1..];
      assert forall i :: 0 <= i < |rest| ==> rest[i] == times[i + 1];
      RunOnLiveCounter(p, v.store, id, rest);
      var r := CheckRun(p, s, id, times);
      assert r.exceeded == [v.exceeded] + CheckRun(p, v.store, id, rest).exceeded;
      forall i | 0 <= i < |times|
        ensures r.exceeded[i] <==> c + i >= p.limit
      {
        if i > 0 {
          assert r.exceeded[i] == CheckRun(p, v.store, id, rest).exceeded[i - 1];
        }
      }
    }
  }

  /** Within one window opened by the first request of a run, exactly the
      first `Quota(p)` checks are admitted and every later one is denied; the
      counter ends at the number admitted, expiring one window after the
      first request. */
  lemma {:induction false} RunAdmitsExactlyQuota(p: Policy, s: Store, id: string, times: seq<nat>)
    requires |times| > 0
    requires !Live(s, id, times[0])
    requires forall i :: 0 <= i < |times| ==> times[i] < times[0] + p.window
    ensures forall i :: 0 <= i < |times| ==>
              (CheckRun(p, s, id, times).exceeded[i] <==> i >= Quota(p))
    ensures id in CheckRun(p, s, id, times).store
    ensures CheckRun(p, s, id, times).store[id]
              == Counter(Min(|times|, Quota(p)), times[0] + p.window)
  {
    var v := HasExceededRateLimit(p, s, id, times[0]);
    var rest := times[1..];
    assert forall i :: 0 <= i < |rest| ==> rest[i] == times[i + 1];
    RunOnLiveCounter(p, v.store, id, rest);
    var r := CheckRun(p, s, id, times);
    assert r.exceeded == [v.exceeded] + CheckRun(p, v.store, id, rest).exceeded;
    forall i | 0 <= i < |times|
      ensures r.exceeded[i] <==> i >= Quota(p)
    {
      if i > 0 {
        assert r.exceeded[i] == CheckRun(p, v.store, id, rest).exceeded[i - 1];
      }
    }
  }

  /** Once the window opened by a run has elapsed, the next check is admitted
      and opens a new window with a count of 1, however the run ended. */
  lemma {:induction false} WindowReopensAfterExpiry(p: Policy, s: Store, id: string, times: seq<nat>, later: nat)
    requires |times| > 0
    requires !Live(s, id, times[0])
    requires forall i :: 0 <= i < |times| ==> times[i] < times[0] + p.window
    requires later >= times[0] + p.window
    ensures !HasExceededRateLimit(p, CheckRun(p, s, id, times).store, id, later).exceeded
    ensures HasExceededRateLimit(p, CheckRun(p, s, id, times).store, id, later).store[id]
              == Counter(1, later + p.window)
  {
    RunAdmitsExactlyQuota(p, s, id, times);
  }

  /** Exhausting one identifier never changes the verdict for another one. */
  lemma {:induction false} OtherIdentifiersUnaffected(p: Policy, s: Store, id: string, times: seq<nat>, other: string, now: nat)
    requires other != id
    ensures HasExceededRateLimit(p, CheckRun(p, s, id, times).store, other, now).exceeded
              == HasExceededRateLimit(p, s, other, now).exceeded
  {
  }
}
