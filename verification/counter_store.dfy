/** The counter store the limiter drives: a key-value store of integer
    counters, each with an expiry instant, read against an explicit clock.
    The limiter uses three commands of it — GET, SET with EX, and INCR — at
    src/fastapi_throttling/throttle.py:75, 79 and 84. */
module CounterStore {
  import opened Wrappers

  /** One stored record: the request count and the instant its TTL runs out. */
  datatype Counter = Counter(count: nat, expiresAt: nat)

  /** Raw identifier (client host or token) to its counter record. Records
      whose expiry has passed may linger here; every read ignores them. */
  type Store = map<string, Counter>

  /** `key` holds a counter that has not yet expired at `now`. */
  predicate Live(s: Store, key: string, now: nat) {
    key in s && now < s[key].expiresAt
  }

  /** `t` agrees with `s` on every key outside `keys`: same presence, same record. */
  ghost predicate UnchangedOutside(s: Store, t: Store, keys: set<string>) {
    forall j :: j !in keys ==> (j in s <==> j in t) && (j in s ==> s[j] == t[j])
  }

  /** GET: the count of a live counter, nothing for a missing or expired key. */
  function Get(s: Store, key: string, now: nat): (r: Option<nat>)
    ensures r.Some? <==> Live(s, key, now)
    ensures r.Some? ==> r.value == s[key].count
  {
    if Live(s, key, now) then Some(s[key].count) else None
  }

  /** SET key value EX ex: overwrites the record and starts a fresh TTL of
      `ex` seconds. The store refuses a non-positive expire time. */
  function SetEx(s: Store, key: string, value: nat, ex: nat, now: nat): (r: Store)
    requires ex > 0
    ensures Get(r, key, now) == Some(value)
    ensures r[key].expiresAt == now + ex
    ensures UnchangedOutside(s, r, {key})
  {
    s[key := Counter(value, now + ex)]
  }

  /** INCR on a live key: the count rises by one and the TTL is kept. */
  function Incr(s: Store, key: string, now: nat): (r: Store)
    requires Live(s, key, now)
    ensures Get(r, key, now) == Some(s[key].count + 1)
    ensures r[key].expiresAt == s[key].expiresAt
    ensures UnchangedOutside(s, r, {key})
  {
    s[key := Counter(s[key].count + 1, s[key].expiresAt)]
  }
}
