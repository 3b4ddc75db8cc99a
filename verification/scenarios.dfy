/** The requests the repository's throttling tests intend, replayed on the
    model against a synchronous store: the application is built with
    `limit=5, window=1` (tests/conftest.py:43), and the store is flushed after
    each test, so each test starts from an empty store. Every request of a
    test arrives within the same second. */
module Scenarios {
  import opened Wrappers
  import opened CounterStore
  import opened Throttle
  import opened Middleware

  const TestPolicy: Policy := Policy(5, 1)

  const FirstIp: string := "211.98.250.118"
  const SecondIp: string := "211.98.250.119"
  const Token: string := "c226da0d0517a73dc4b82e5b43344f59"

  /** `count` copies of one request. */
  function Repeat(req: Request, count: nat): (reqs: seq<Request>)
    ensures |reqs| == count
    ensures forall i :: 0 <= i < count ==> reqs[i] == req
  {
    seq(count, _ => req)
  }

  /** The two addresses of the tests differ (in their last digit). */
  lemma DistinctAddresses()
    ensures FirstIp != SecondIp
  {
  }

  /** test_throttle_by_ip with the client address taken to be the address the
      test means: five requests from one address pass, the sixth is refused
      with 429, and five from a second address then all pass. */
  lemma ThrottleByIp(now: nat)
    ensures var r := Serve(TestPolicy, map[], Repeat(Request(FirstIp, None, now), 6)
                                              + Repeat(Request(SecondIp, None, now), 5));
              && (forall i :: 0 <= i < 5 ==> r.responses[i] == Proceed)
              && r.responses[5] == TooManyRequests
              && (forall i :: 6 <= i < 11 ==> r.responses[i] == Proceed)
  {
    var a := Repeat(Request(FirstIp, None, now), 6);
    var b := Repeat(Request(SecondIp, None, now), 5);
    var first := Serve(TestPolicy, map[], a);
    var second := Serve(TestPolicy, first.store, b);
    ServeAppend(TestPolicy, map[], a, b);
    OneClientQuota(TestPolicy, map[], FirstIp, a);
    SecondClientUntouched(a, now);
    OneClientQuota(TestPolicy, first.store, SecondIp, b);
    assert Serve(TestPolicy, map[], a + b).responses == first.responses + second.responses;
  }

  /** The first burst of test_throttle_by_ip leaves no counter for the second address. */
  lemma SecondClientUntouched(a: seq<Request>, now: nat)
    requires a == Repeat(Request(FirstIp, None, now), 6)
    ensures SecondIp !in Serve(TestPolicy, map[], a).store
  {
    DistinctAddresses();
    ServeOneClient(TestPolicy, map[], FirstIp, a);
    var run := CheckRun(TestPolicy, map[], FirstIp, Times(a));
    assert SecondIp !in run.store;
  }

  /** The same requests keyed as the code keys them, by the transport peer:
      when all eleven come from one peer, whatever their forwarded-for
      header says, the first request of the second batch is already refused. */
  lemma ThrottleByIpSamePeer(peer: string, now: nat)
    ensures Serve(TestPolicy, map[], Repeat(Request(peer, None, now), 6)
                                     + Repeat(Request(peer, None, now), 5)).responses[6]
              == TooManyRequests
  {
    var reqs := Repeat(Request(peer, None, now), 6) + Repeat(Request(peer, None, now), 5);
    OneClientQuota(TestPolicy, map[], peer, reqs);
  }

  /** A host and a token with equal live counts, as after requests that
      always carried both. */
  function Pair(host: string, token: string, count: nat, expiresAt: nat): (s: Store) {
    map[host := Counter(count, expiresAt), token := Counter(count, expiresAt)]
  }

  /** One request carrying a host and a token whose counters are equal, live
      and below the limit passes and raises both by one. */
  lemma DispatchHostAndToken(p: Policy, host: string, token: string,
                             count: nat, expiresAt: nat, now: nat)
    requires host != token && token != ""
    requires now < expiresAt
    requires count < p.limit
    ensures Dispatch(p, Pair(host, token, count, expiresAt), Request(host, Some(token), now))
              == Dispatched(Proceed, Pair(host, token, count + 1, expiresAt))
  {
  }

  /** The refused sixth request of test_throttle_by_authorization: a fresh
      address passes its own check, opening its counter, and the exhausted
      token then refuses the request. */
  lemma ExhaustedToken(now: nat)
    ensures var s := Pair(FirstIp, Token, 5, now + 1);
            var d := Dispatch(TestPolicy, s, Request(SecondIp, Some(Token), now));
              && d.response == TooManyRequests
              && d.store == s[SecondIp := Counter(1, now + 1)]
  {
  }

  /** The first request of test_throttle_by_authorization opens a counter
      for the address and one for the token. */
  lemma FreshHostAndToken(now: nat)
    ensures Dispatch(TestPolicy, map[], Request(FirstIp, Some(Token), now))
              == Dispatched(Proceed, Pair(FirstIp, Token, 1, now + 1))
  {
  }

  /** The requests of test_throttle_by_authorization. */
  function AuthorizationTrace(now: nat): (reqs: seq<Request>) {
    Repeat(Request(FirstIp, Some(Token), now), 5) + [Request(SecondIp, Some(Token), now)]
  }

  /** The stores test_throttle_by_authorization passes through: empty, then
      address and token in lockstep up to 5, then the second address opened. */
  function AuthorizationStores(now: nat): (stores: seq<Store>) {
    [map[]] + seq(5, k requires 0 <= k < 5 => Pair(FirstIp, Token, k + 1, now + 1))
      + [Pair(FirstIp, Token, 5, now + 1)[SecondIp := Counter(1, now + 1)]]
  }

  /** Each request of test_throttle_by_authorization, dispatched on the store
      the previous one left. */
  lemma AuthorizationSteps(now: nat)
    ensures forall i :: 0 <= i < 6 ==>
              Dispatch(TestPolicy, AuthorizationStores(now)[i], AuthorizationTrace(now)[i])
                == Dispatched(if i < 5 then Proceed else TooManyRequests, AuthorizationStores(now)[i + 1])
  {
    var stores := AuthorizationStores(now);
    var reqs := AuthorizationTrace(now);
    forall i | 0 <= i < 6
      ensures Dispatch(TestPolicy, stores[i], reqs[i])
                == Dispatched(if i < 5 then Proceed else TooManyRequests, stores[i + 1])
    {
      if i == 0 {
        FreshHostAndToken(now);
      } else if i < 5 {
        assert FirstIp != Token;
        assert stores[i] == Pair(FirstIp, Token, i, now + 1);
        DispatchHostAndToken(TestPolicy, FirstIp, Token, i, now + 1, now);
      } else {
        ExhaustedToken(now);
      }
    }
  }

  /** test_throttle_by_authorization: five requests from one address sharing
      one token pass; a sixth with the same token from another address is
      refused, because the token's counter is exhausted. The new address's
      counter was still opened by that refused request. */
  lemma ThrottleByAuthorization(now: nat)
    ensures var r := Serve(TestPolicy, map[], AuthorizationTrace(now));
              && r.responses == [Proceed, Proceed, Proceed, Proceed, Proceed, TooManyRequests]
              && SecondIp in r.store && r.store[SecondIp] == Counter(1, now + 1)
  {
    var responses := [Proceed, Proceed, Proceed, Proceed, Proceed, TooManyRequests];
    AuthorizationSteps(now);
    assert forall i :: 0 <= i < 6 ==> responses[i] == if i < 5 then Proceed else TooManyRequests;
    ServeReplay(TestPolicy, AuthorizationStores(now), AuthorizationTrace(now), responses);
  }
}
