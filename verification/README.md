# fastapi-throttling: a Dafny model of the fixed-window limiter

`fastapi_throttling` is a Starlette/FastAPI middleware. It rate-limits every
HTTP request twice: once by the client host, and again by the
`Authorization` token when the request sends one. Each identifier gets a
counter in Redis. The first request of a window sets the counter to 1 with a
TTL of `window` seconds. Later requests within the window increment it while
it is below `limit`. Once it reaches `limit`, the middleware raises
`ThrottlingError` (status 429, detail "Too Many Requests") for each request
until Redis expires the key.

This project models that logic as pure functions over an immutable store:

- `CounterStore`: the store is a `map<string, Counter>`, where a counter is a
  count and an expiry instant. Reads take an explicit clock `now`. The model
  has the three Redis commands the limiter uses: `GET`, which returns nothing
  when the key is missing or expired, `SET … EX`, and `INCR`, which keeps the
  TTL.
- `Throttle`: `has_exceeded_rate_limit` as `HasExceededRateLimit`, plus
  `CheckRun`, a run of such checks on one identifier. The lemmas prove three
  things about a run: exactly `max(limit, 1)` requests get through per window,
  the window reopens once it expires, and other identifiers are untouched.
- `Middleware`: the constructor's store selection (`Construct`), `dispatch`
  (`Dispatch`, host first, then token), the 429 error, and `Serve`, a
  sequential trace of requests, with lemmas relating traces to runs.
- `Scenarios`: the throttling tests replayed with `limit=5, window=1`.

The model follows the code as written:

- Host and token share one key space; no prefix separates them. A token equal
  to the host counts twice against one counter (`SharedKeySpace`).
- A counter incremented by the host check stays incremented when the token
  check then refuses the request.
- A denied check writes nothing: the counter that refuses a request is not
  raised by it. A request the token check refuses still keeps the host
  check's write.
- With `limit <= 0`, one request per window still gets through.

The host is `request.client.host`, the token is always the `Authorization` header, and
there is no skip list and no repair of counters left without a TTL. Without
an injected client, the middleware connects to `localhost:6379` by default.

The tests send an `x-forwarded-for` header, but the code never reads it. The
tests' fixture also injects an asynchronous Redis client, whose `get` returns
an un-awaited coroutine, so `int(current_count)` fails before anything is
counted. The scenarios therefore replay the requests the tests intend against
a synchronous store, with the client address an abstract input.
`ThrottleByIp` uses the two addresses `test_throttle_by_ip` means.
`ThrottleByIpSamePeer` keys the same requests the way the code does: when all
of them come from one peer, the first request of the second batch is already
refused.

## Model

| member | source | states |
|---|---|---|
| CounterStore.Get | src/fastapi_throttling/throttle.py:75-77 | a read yields a count exactly when the key holds a counter whose expiry has not passed, and then it is that counter's count |
| CounterStore.SetEx | src/fastapi_throttling/throttle.py:79 | after `SET key 1 EX window` the key reads back as the value, expires `window` seconds from now, and no other key changes |
| CounterStore.Incr | src/fastapi_throttling/throttle.py:84 | `INCR` on a live key makes it read back one higher, keeps its expiry, and changes no other key |
| Throttle.HasExceededRateLimit | src/fastapi_throttling/throttle.py:74-87 | denied exactly when a live counter has reached the limit; a denial writes nothing; a missing or expired counter restarts at 1 with a fresh window; a live count below the limit rises by one with its expiry unchanged; an admitted identifier is live afterwards; only that identifier's entry changes; all counts stay between 1 and max(limit, 1) |
| Throttle.CheckRun | src/fastapi_throttling/throttle.py:74-87 | a run of checks on one identifier yields one verdict per request, changes no other identifier's entry, and keeps every count between 1 and max(limit, 1) |
| Throttle.RunOnLiveCounter | src/fastapi_throttling/throttle.py:82-87 | on a counter that stays live, the i-th check is denied exactly when the starting count plus i reaches the limit; the count climbs to the limit and stops, and the expiry never moves |
| Throttle.RunAdmitsExactlyQuota | src/fastapi_throttling/throttle.py:74-87 | within one window opened by its first request, exactly the first max(limit, 1) checks are admitted and all later ones denied; the counter ends at the number admitted, expiring one window after the first request |
| Throttle.WindowReopensAfterExpiry | src/fastapi_throttling/throttle.py:75-80 | once a run's window has elapsed, the next check is admitted and opens a new window with count 1, however exhausted the old one was |
| Throttle.OtherIdentifiersUnaffected | src/fastapi_throttling/throttle.py:75-84 | exhausting one identifier never changes the verdict for a different identifier |
| Middleware.Construct | src/fastapi_throttling/throttle.py:35-53 | an injected client is always used; without one, construction succeeds exactly when host and port are both truthy, connecting to them; otherwise it fails with ValueError "Redis server not configured"; limit and window are kept as given |
| Middleware.DefaultsConnectLocally | src/fastapi_throttling/throttle.py:38-51 | with every argument at its default the middleware connects to localhost:6379 with limit 100 and window 60 |
| Middleware.Dispatch | src/fastapi_throttling/throttle.py:57-72 | the response is either proceed or 429 "Too Many Requests"; a host denial ends the request with the store untouched and no token check; without a non-empty token only the host check decides; with one, the request proceeds exactly when both checks admit; a request that passes both checks leaves the store the token check wrote, so it counts against its host and its token; a token denial keeps the host's increment; only the request's own identifiers change; counts stay bounded |
| Middleware.SharedKeySpace | src/fastapi_throttling/throttle.py:60-68 | a request whose token equals its host counts twice against one fresh counter: it reaches 2 and passes when the limit exceeds 1, and with a limit of 1 or less the first request is refused |
| Middleware.Serve | src/fastapi_throttling/throttle.py:57-72 | a trace gets one response per request, each either proceed or 429 |
| Middleware.ServeFrame | src/fastapi_throttling/throttle.py:57-87 | a trace leaves the counter of every identifier none of its requests carries exactly as it was |
| Middleware.ServeKeepsCountsBounded | src/fastapi_throttling/throttle.py:74-87 | across any trace every stored count stays between 1 and max(limit, 1) |
| Middleware.ServeOneClient | src/fastapi_throttling/throttle.py:60-69 | a trace from one host that never sends a token is answered exactly as the run of checks on that host's counter decides, and leaves the same store |
| Middleware.OneClientQuota | src/fastapi_throttling/throttle.py:57-87 | within one window, a host sending no token gets exactly max(limit, 1) requests through and 429 for every later one |
| Scenarios.ThrottleByIp | tests/test_throttle.py:1-40 | with limit 5 and window 1 from an empty store: five requests from one address pass, the sixth is refused with 429, and five from a second address then all pass |
| Scenarios.ThrottleByIpSamePeer | src/fastapi_throttling/throttle.py:60 | when both batches of that test come from one peer, as the code sees them, the first request of the second batch is refused |
| Scenarios.ThrottleByAuthorization | tests/test_throttle.py:43-69 | five requests sharing a token pass; a sixth with that token from a fresh address is refused with 429, and the fresh address's counter was still opened at 1 |
| Scenarios.DispatchHostAndToken | src/fastapi_throttling/throttle.py:64-69 | a request whose host and token counters are equal, live and below the limit passes and raises both by one |
| Scenarios.ExhaustedToken | src/fastapi_throttling/throttle.py:64-69 | with the token exhausted, a request from a fresh address opens the address's counter and is still refused |

## Left out

- Redis client internals: connections, decoding `int(current_count)` from bytes, and real TTL timing are replaced by the map-plus-clock store. Counts are natural numbers.
- CounterStore.Incr: `INCR` on a missing key is not modelled. Redis would create such a key at 1 without a TTL. The limiter only increments a key it has just read as live, and the model reads the clock once per request. In the source, a key can expire between the `GET` at throttle.py:75 and the `INCR` at throttle.py:84, even with no concurrency. `INCR` then recreates it at 1 with no TTL. Once that counter reaches `limit`, the identifier is refused for good. The model does not show this.
- Throttle.Policy: the window is a positive whole number of seconds. The constructor accepts any `window`, but Redis refuses `SET … EX` with a non-positive expire time, which would surface as an error on a first request. That error path is not modelled.
- Middleware.Construct: the window is a positive whole number of seconds (type `Seconds`). The source's constructor accepts any `window`, including zero or less, but Redis refuses a non-positive expire time. Any client object passed as `redis` counts as present, matching Python truthiness for an object without `__bool__` or `__len__`. Creating the real `Redis(host, port)` client is represented by the `Connected` backend.
- Concurrency: the gap between `GET` and `SET`/`INCR` under concurrent requests is not modelled. Requests form a sequential trace, and one request's checks all read the same clock instant.
- Starlette and FastAPI plumbing: `BaseHTTPMiddleware`, `call_next` and async/await are HTTP I/O. `Dispatch` returns `Proceed` or the `ThrottlingError` it raises (status 429, detail "Too Many Requests"). What the framework makes of that exception is not modelled.
- Requests without a transport peer: `request.client` may be missing, and the source then fails with an attribute error. The model always takes a host string.
- Store failures: connection or command errors from Redis propagate as exceptions in the source and are not modelled.
- The test application's item handlers, its `X-Token` check, and the Redis flush between tests are not throttling. Each scenario starts from an empty store instead.
