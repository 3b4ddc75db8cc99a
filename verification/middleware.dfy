/** The throttling middleware: its construction (store selection), its
    per-request `dispatch` composing the client-host and token checks, the
    429 error it raises, and a sequential trace of requests. */
module Middleware {
  import opened Wrappers
  import opened CounterStore
  import opened Throttle

  // ---------------------------------------------------------------- errors

  /** What the middleware does with a request: hand it on, or stop it by
      raising an HTTP exception with this status and detail. */
  datatype Response = Proceed | Reject(status: nat, detail: string)

  /** `ThrottlingError` (throttle.py:10-12): status 429, "Too Many Requests". */
  const TooManyRequests: Response := Reject(429, "Too Many Requests")

  // ------------------------------------------------------------ construction

  /** The counter store the middleware was given, or the one it connects to. */
  datatype Backend<C> = Injected(client: C) | Connected(host: string, port: int)

  datatype Throttler<C> = Throttler(policy: Policy, backend: Backend<C>)

  datatype ConfigError = ValueError(message: string)

  const NotConfigured: ConfigError := ValueError("Redis server not configured")

  const DefaultLimit: int := 100
  const DefaultWindow: Seconds := 60
  const DefaultHost: Option<string> := Some("localhost")
  const DefaultPort: Option<int> := Some(6379)

  /** Python truthiness of `redis_host: str | None`. */
  predicate HostGiven(host: Option<string>) {
    host.Some? && host.value != ""
  }

  /** Python truthiness of `redis_port: int | None`. */
  predicate PortGiven(port: Option<int>) {
    port.Some? && port.value != 0
  }

  /** `__init__`: an injected client is always used; without one, both host
      and port must be given, and otherwise construction fails. */
  function Construct<C>(limit: int, window: Seconds, redisHost: Option<string>,
                        redisPort: Option<int>, redis: Option<C>): (r: Result<Throttler<C>, ConfigError>)
    ensures r.Success? ==> r.value.policy == Policy(limit, window)
    ensures redis.Some? ==> r.Success? && r.value.backend == Injected(redis.value)
    ensures redis.None? ==> (r.Success? <==> HostGiven(redisHost) && PortGiven(redisPort))
    ensures r.Success? && redis.None? ==>
              r.value.backend == Connected(redisHost.value, redisPort.value)
    ensures r.Failure? ==> r.error == NotConfigured
  {
    if redis.Some? then Success(Throttler(Policy(limit, window), Injected(redis.value)))
    else if HostGiven(redisHost) && PortGiven(redisPort) then
      Success(Throttler(Policy(limit, window), Connected(redisHost.value, redisPort.value)))
    else Failure(NotConfigured)
  }

  /** With every argument left at its default the middleware connects to
      localhost:6379 and admits 100 requests per 60 seconds. */
  lemma DefaultsConnectLocally<C>()
    ensures Construct<C>(DefaultLimit, DefaultWindow, DefaultHost, DefaultPort, None)
              == Success(Throttler(Policy(100, 60), Connected("localhost", 6379)))
  {
  }

  // ---------------------------------------------------------------- dispatch

  /** The parts of a request the middleware reads: the transport peer's host,
      the `Authorization` header if sent, and the store's clock at arrival. */
  datatype Request = Request(clientHost: string, authorization: Option<string>, now: nat)

  /** The token is checked only when the header is present and non-empty. */
  predicate TokenPresent(req: Request) {
    req.authorization.Some? && req.authorization.value != ""
  }

  /** The identifiers a request may count against. Host and token share one
      key space: no prefix tells them apart. */
  function Identifiers(req: Request): (ids: set<string>)
    ensures req.clientHost in ids
    ensures TokenPresent(req) ==> req.authorization.value in ids
    ensures forall j :: j in ids ==> j == req.clientHost || (TokenPresent(req) && j == req.authorization.value)
  {
    {req.clientHost} + (if TokenPresent(req) then {req.authorization.value} else {})
  }

  datatype Dispatched = Dispatched(response: Response, store: Store)

  /** `dispatch`: the host check runs first and a denial there ends the
      request; then the token, when present, is checked against the store the
      host check left. A counter incremented by the host check stays
      incremented when the token check denies. */
  function Dispatch(p: Policy, s: Store, req: Request): (r: Dispatched)
    ensures r.response == Proceed || r.response == TooManyRequests
    ensures var ip := HasExceededRateLimit(p, s, req.clientHost, req.now);
              ip.exceeded ==> r == Dispatched(TooManyRequests, s)
    ensures var ip := HasExceededRateLimit(p, s, req.clientHost, req.now);
              !TokenPresent(req) ==>
                r.store == ip.store && (r.response == Proceed <==> !ip.exceeded)
    ensures var ip := HasExceededRateLimit(p, s, req.clientHost, req.now);
              TokenPresent(req) ==>
                (r.response == Proceed <==>
                  !ip.exceeded && !HasExceededRateLimit(p, ip.store, req.authorization.value, req.now).exceeded)
    ensures var ip := HasExceededRateLimit(p, s, req.clientHost, req.now);
              TokenPresent(req) && !ip.exceeded
              && HasExceededRateLimit(p, ip.store, req.authorization.value, req.now).exceeded ==>
                r.store == ip.store
    ensures var ip := HasExceededRateLimit(p, s, req.clientHost, req.now);
              TokenPresent(req) && !ip.exceeded ==>
                r.store == HasExceededRateLimit(p, ip.store, req.authorization.value, req.now).store
    ensures UnchangedOutside(s, r.store, Identifiers(req))
    ensures CountsBounded(s, p) ==> CountsBounded(r.store, p)
  {
    var ip := HasExceededRateLimit(p, s, req.clientHost, req.now);
    if ip.exceeded then Dispatched(TooManyRequests, ip.store)
    else if TokenPresent(req) then
      var token := HasExceededRateLimit(p, ip.store, req.authorization.value, req.now);
      if token.exceeded then Dispatched(TooManyRequests, token.store)
      else Dispatched(Proceed, token.store)
    else Dispatched(Proceed, ip.store)
  }

  /** When the token equals the client host, one request counts twice against
      the same counter: a fresh identifier reaches 2 at once, and with a limit
      of 1 or less its very first request is denied. */
  lemma SharedKeySpace(p: Policy, s: Store, id: string, now: nat)
    requires id != ""
    requires !Live(s, id, now)
    ensures var r := Dispatch(p, s, Request(id, Some(id), now));
              (r.response == Proceed <==> p.limit > 1)
              && (p.limit > 1 ==> r.store[id] == Counter(2, now + p.window))
              && (p.limit <= 1 ==> r.store[id] == Counter(1, now + p.window))
  {
  }

  // ------------------------------------------------------------------ traces

  /** Every identifier any request of the trace may count against. */
  function Touched(reqs: seq<Request>): (ids: set<string>)
    ensures forall i :: 0 <= i < |reqs| ==> Identifiers(reqs[i]) <= ids
  {
    if |reqs| == 0 then {} else Identifiers(reqs[0]) + Touched(reqs[1..])
  }

  /** The arrival instants of a trace. */
  function Times(reqs: seq<Request>): (ts: seq<nat>)
    ensures |ts| == |reqs|
    ensures forall i :: 0 <= i < |reqs| ==> ts[i] == reqs[i].now
  {
    if |reqs| == 0 then [] else [reqs[0].now] + Times(reqs[1..])
  }

  datatype Served = Served(responses: seq<Response>, store: Store)

  /** Handles the requests one after another against one shared store. */
  function Serve(p: Policy, s: Store, reqs: seq<Request>): (r: Served)
    ensures |r.responses| == |reqs|
    ensures forall i :: 0 <= i < |reqs| ==>
              r.responses[i] == Proceed || r.responses[i] == TooManyRequests
    decreases |reqs|
  {
    if |reqs| == 0 then Served([], s)
    else
      var d := Dispatch(p, s, reqs[0]);
      var rest := Serve(p, d.store, reqs[1..]);
      Served([d.response] + rest.responses, rest.store)
  }

  /** A trace changes no counter of an identifier none of its requests carries. */
  lemma {:induction false} ServeFrame(p: Policy, s: Store, reqs: seq<Request>)
    ensures UnchangedOutside(s, Serve(p, s, reqs).store, Touched(reqs))
    decreases |reqs|
  {
    if |reqs| > 0 {
      var d := Dispatch(p, s, reqs[0]);
      ServeFrame(p, d.store, reqs[1..]);
    }
  }

  /** Serving a trace keeps every stored count between 1 and the quota. */
  lemma {:induction false} ServeKeepsCountsBounded(p: Policy, s: Store, reqs: seq<Request>)
    requires CountsBounded(s, p)
    ensures CountsBounded(Serve(p, s, reqs).store, p)
    decreases |reqs|
  {
    if |reqs| > 0 {
      var d := Dispatch(p, s, reqs[0]);
      ServeKeepsCountsBounded(p, d.store, reqs[1..]);
    }
  }

  /** A trace whose every dispatch is known, step by step, is served with
      exactly those responses and ends in the last of those stores. */
  lemma {:induction false} ServeReplay(p: Policy, stores: seq<Store>, reqs: seq<Request>, responses: seq<Response>)
    requires |stores| == |reqs| + 1 && |responses| == |reqs|
    requires forall i :: 0 <= i < |reqs| ==>
               Dispatch(p, stores[i], reqs[i]) == Dispatched(responses[i], stores[i + 1])
    ensures Serve(p, stores[0], reqs) == Served(responses, stores[|reqs|])
    decreases |reqs|
  {
    if |reqs| > 0 {
      ServeReplay(p, stores[1..], reqs[1..], responses[1..]);
      assert responses == [responses[0]] + responses[1..];
    }
  }

  /** Serving two traces back to back is serving the first, then the second
      from the store the first left. */
  lemma {:induction false} ServeAppend(p: Policy, s: Store, a: seq<Request>, b: seq<Request>)
    ensures Serve(p, s, a + b).responses
              == Serve(p, s, a).responses + Serve(p, Serve(p, s, a).store, b).responses
    ensures Serve(p, s, a + b).store == Serve(p, Serve(p, s, a).store, b).store
    decreases |a|
  {
    if |a| > 0 {
      var d := Dispatch(p, s, a[0]);
      assert (a + b)[0] == a[0];
      assert (a + b)[1..] == a[1..] + b;
      ServeAppend(p, d.store, a[1..], b);
      var tail := Serve(p, d.store, a[1..]);
      calc {
        Serve(p, s, a + b).responses;
        [d.response] + Serve(p, d.store, a[1..] + b).responses;
        [d.response] + (tail.responses + Serve(p, tail.store, b).responses);
        ([d.response] + tail.responses) + Serve(p, tail.store, b).responses;
      }
    } else {
      assert a + b == b;
    }
  }

  /** A trace from one client host that never sends a token is answered
      exactly as the run of checks on that host's counter decides. */
  lemma {:induction false} ServeOneClient(p: Policy, s: Store, host: string, reqs: seq<Request>)
    requires forall i :: 0 <= i < |reqs| ==> reqs[i].clientHost == host && !TokenPresent(reqs[i])
    ensures Serve(p, s, reqs).store == CheckRun(p, s, host, Times(reqs)).store
    ensures forall i :: 0 <= i < |reqs| ==>
              Serve(p, s, reqs).responses[i]
                == if CheckRun(p, s, host, Times(reqs)).exceeded[i] then TooManyRequests else Proceed
    decreases |reqs|
  {
    if |reqs| > 0 {
      var d := Dispatch(p, s, reqs[0]);
      var v := HasExceededRateLimit(p, s, host, reqs[0].now);
      assert d.store == v.store;
      var rest := reqs[1..];
      assert Times(reqs)[1..] == Times(rest);
      ServeOneClient(p, v.store, host, rest);
      var r := Serve(p, s, reqs);
      var run := CheckRun(p, s, host, Times(reqs));
      assert r.responses == [d.response] + Serve(p, v.store, rest).responses;
      assert run.exceeded == [v.exceeded] + CheckRun(p, v.store, host, Times(rest)).exceeded;
      forall i | 0 <= i < |reqs|
        ensures r.responses[i] == if run.exceeded[i] then TooManyRequests else Proceed
      {
        if i > 0 {
          assert r.responses[i] == Serve(p, v.store, rest).responses[i - 1];
          assert run.exceeded[i] == CheckRun(p, v.store, host, Times(rest)).exceeded[i - 1];
        }
      }
    }
  }

  /** Within one window opened by its first request, a client host sending
      no token gets exactly `Quota(p)` requests through and 429 for the rest. */
  lemma {:induction false} OneClientQuota(p: Policy, s: Store, host: string, reqs: seq<Request>)
    requires |reqs| > 0
    requires forall i :: 0 <= i < |reqs| ==> reqs[i].clientHost == host && !TokenPresent(reqs[i])
    requires !Live(s, host, reqs[0].now)
    requires forall i :: 0 <= i < |reqs| ==> reqs[i].now < reqs[0].now + p.window
    ensures forall i :: 0 <= i < |reqs| ==>
              (Serve(p, s, reqs).responses[i] == Proceed <==> i < Quota(p))
    ensures forall i :: 0 <= i < |reqs| ==>
              (Serve(p, s, reqs).responses[i] == TooManyRequests <==> i >= Quota(p))
  {
    ServeOneClient(p, s, host, reqs);
    RunAdmitsExactlyQuota(p, s, host, Times(reqs));
  }
}
