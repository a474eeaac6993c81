/** The token-bucket rate limiter (redis/rate_limit.py), with exact arithmetic. */
module RateLimit {
  import opened Wrappers

  datatype Limit = Limit(capacity: int, rate: real) {
    function RefillPerMs(): real { rate / 1000.0 }

    predicate Positive() { capacity > 0 && rate > 0.0 }

    /** How long a bucket is kept after its last use. */
    function Ttl(): int
      requires rate != 0.0
    {
      var twice := (capacity as real / rate * 2000.0).Floor;
      if twice < 1000 then 1000 else twice
    }
  }

  datatype Bucket = Bucket(tokens: real, updatedAt: int, expires: int)

  type Store = map<string, Bucket>

  datatype Decision = Decision(allowed: bool, remaining: int, retryAfter: int)

  datatype RateError = NotPositive | CostAboveCapacity

  function Validate(limit: Limit, cost: int): Option<RateError> {
    if limit.capacity <= 0 || limit.rate <= 0.0 || cost <= 0 then Some(NotPositive)
    else if cost > limit.capacity then Some(CostAboveCapacity)
    else None
  }

  /** What a command finds under the key: nothing once the bucket has expired. */
  function Stored(store: Store, key: string, now: int): Option<Bucket> {
    if key in store && now < store[key].expires then Some(store[key]) else None
  }

  function Min(a: real, b: real): real { if a <= b then a else b }

  function Ceil(x: real): int { -((-x).Floor) }

  /** `tokens` after `elapsed` milliseconds of refill, up to the capacity. */
  function Refilled(limit: Limit, tokens: real, elapsed: nat): real {
    Min(limit.capacity as real, tokens + elapsed as real * limit.RefillPerMs())
  }

  function Elapsed(from: int, to: int): nat { if from <= to then to - from else 0 }

  /** The tokens a request finds. */
  function Level(limit: Limit, store: Store, key: string, now: int): real {
    var stored := Stored(store, key, now);
    if stored.None? then limit.capacity as real
    else Refilled(limit, stored.value.tokens, Elapsed(stored.value.updatedAt, now))
  }

  /** One request for `cost` tokens of `key`. */
  datatype Request = Request(key: string, limit: Limit, cost: int, now: int) {
    predicate Valid() { Validate(limit, cost).None? }
  }

  predicate Allowed(store: Store, r: Request) { Level(r.limit, store, r.key, r.now) >= r.cost as real }

  function After(store: Store, r: Request): Store
    requires r.Valid()
  {
    var level := Level(r.limit, store, r.key, r.now);
    var left := if Allowed(store, r) then level - r.cost as real else level;
    store[r.key := Bucket(left, r.now, r.now + r.limit.Ttl())]
  }

  class RateLimiter {
    var store: Store

    constructor ()
      ensures store == map[]
    {
      store := map[];
    }

    /** `check`, with the script run at server time `now`. */
    method Check(key: string, limit: Limit, cost: int, now: int) returns (r: Result<Decision, RateError>)
      modifies this
      ensures r.Failure? <==> Validate(limit, cost).Some?
      ensures r.Failure? ==> r.error == Validate(limit, cost).value && store == old(store)
      ensures r.Success? ==>
        var request := Request(key, limit, cost, now);
        var level := Level(limit, old(store), key, now);
        && store == After(old(store), request)
        && r.value.allowed == Allowed(old(store), request)
        && r.value.remaining == store[key].tokens.Floor
        && r.value.retryAfter
           == (if r.value.allowed then 0 else Ceil((cost as real - level) / limit.RefillPerMs()))
    {
      var invalid := Validate(limit, cost);
      if invalid.Some? {
        return Failure(invalid.value);
      }
      var ttl := limit.Ttl();
      var state := Stored(store, key, now);
      var tokens, updatedAt := limit.capacity as real, now;
      if state.Some? {
        tokens, updatedAt := state.value.tokens, state.value.updatedAt;
      }
      var elapsed := Elapsed(updatedAt, now);
      tokens := Min(limit.capacity as real, tokens + elapsed as real * limit.RefillPerMs());
      var allowed, retryAfter := false, 0;
      if tokens >= cost as real {
        tokens := tokens - cost as real;
        allowed := true;
      } else {
        retryAfter := Ceil((cost as real - tokens) / limit.RefillPerMs());
      }
      store := store[key := Bucket(tokens, now, now + ttl)];
      return Success(Decision(allowed, tokens.Floor, retryAfter));
    }
  }

  // ---------------------------------------------------------------- arithmetic of refills

  lemma {:induction false} TimesMonotone(a: real, b: real, r: real)
    requires a <= b && r >= 0.0
    ensures a * r <= b * r
  {
  }

  lemma {:induction false} Distribute(a: nat, b: nat, r: real)
    ensures (a + b) as real * r == a as real * r + b as real * r
  {
    assert (a + b) as real == a as real + b as real;
  }

  /** Refilling twice is refilling once for the whole time: the capacity cap does not get in the way. */
  lemma {:induction false} RefillsCompose(limit: Limit, tokens: real, a: nat, b: nat)
    requires limit.Positive()
    ensures Refilled(limit, Refilled(limit, tokens, a), b) == Refilled(limit, tokens, a + b)
  {
    var r := limit.RefillPerMs();
    Distribute(a, b, r);
    TimesMonotone(0.0, a as real, r);
    TimesMonotone(0.0, b as real, r);
  }

  lemma {:induction false} CoversTheQuotient(c: real, rate: real, ms: int)
    requires rate > 0.0 && ms as real >= c / rate * 1000.0
    ensures ms as real * (rate / 1000.0) >= c
  {
    var q := c / rate * 1000.0;
    var r := rate / 1000.0;
    TimesMonotone(q, ms as real, r);
    assert c / rate * rate == c;
    assert q * r == c / rate * rate;
  }

  /** The TTL lasts at least as long as an empty bucket takes to fill. */
  lemma {:induction false} TtlFills(limit: Limit, elapsed: nat)
    requires limit.Positive() && elapsed >= limit.Ttl()
    ensures elapsed as real * limit.RefillPerMs() >= limit.capacity as real
  {
    var q := limit.capacity as real / limit.rate * 1000.0;
    assert limit.capacity as real / limit.rate * 2000.0 == 2.0 * q;
    assert limit.Ttl() >= 1000;
    assert limit.Ttl() as real >= q by {
      if q <= 1000.0 {
      } else {
        assert limit.Ttl() as real > 2.0 * q - 1.0;
      }
    }
    CoversTheQuotient(limit.capacity as real, limit.rate, elapsed);
  }

  lemma {:induction false} CeilBounds(x: real)
    ensures Ceil(x) as real - 1.0 < x <= Ceil(x) as real
  {
  }

  lemma {:induction false} WaitCovers(need: real, r: real, ms: nat)
    requires need > 0.0 && r > 0.0
    ensures Ceil(need / r) > 0
    ensures ms as real * r >= need <==> ms >= Ceil(need / r)
  {
    var k := need / r;
    CeilBounds(k);
    assert k * r == need;
    assert k > 0.0 by {
      if k <= 0.0 {
        TimesMonotone(k, 0.0, r);
      }
    }
    if ms >= Ceil(k) {
      TimesMonotone(k, ms as real, r);
    } else {
      assert ms as real < k;
      assert (k - ms as real) * r > 0.0;
    }
  }

  /** What `ms` milliseconds refill. */
  function Gain(limit: Limit, ms: int): real { ms as real * limit.RefillPerMs() }

  lemma {:induction false} GainMonotone(limit: Limit, a: int, b: int)
    requires limit.Positive() && a <= b
    ensures Gain(limit, a) <= Gain(limit, b)
  {
    TimesMonotone(a as real, b as real, limit.RefillPerMs());
  }

  lemma {:induction false} GainAdds(limit: Limit, a: nat, b: nat)
    ensures Gain(limit, a + b) == Gain(limit, a) + Gain(limit, b)
  {
    Distribute(a, b, limit.RefillPerMs());
  }

  /** A level short of the cost reaches it after the rounded-up wait and not before. */
  lemma {:induction false} RefillReaches(limit: Limit, level: real, cost: int, ms: nat)
    requires limit.Positive() && level < cost as real <= limit.capacity as real
    ensures Ceil((cost as real - level) / limit.RefillPerMs()) > 0
    ensures Refilled(limit, level, ms) >= cost as real
       <==> ms >= Ceil((cost as real - level) / limit.RefillPerMs())
  {
    WaitCovers(cost as real - level, limit.RefillPerMs(), ms);
  }

  // ---------------------------------------------------------------- runs on one key

  /** The bucket of a key whose every request so far carried `limit`, the last of them no later than `now`. */
  predicate Kept(limit: Limit, store: Store, key: string, now: int) {
    limit.Positive() && (key in store ==>
      var b := store[key];
      0.0 <= b.tokens <= limit.capacity as real && b.updatedAt <= now && b.expires == b.updatedAt + limit.Ttl())
  }

  /** The tokens of a bucket that is never forgotten. */
  function PlainLevel(limit: Limit, store: Store, key: string, now: int): real {
    if key !in store then limit.capacity as real
    else Refilled(limit, store[key].tokens, Elapsed(store[key].updatedAt, now))
  }

  /** A bucket that has expired would be full by now, so its loss is never noticed. */
  lemma {:induction false} ExpiryInvisible(limit: Limit, store: Store, key: string, now: int)
    requires Kept(limit, store, key, now)
    ensures Level(limit, store, key, now) == PlainLevel(limit, store, key, now)
    ensures 0.0 <= Level(limit, store, key, now) <= limit.capacity as real
  {
    if key in store {
      var b := store[key];
      TimesMonotone(0.0, (now - b.updatedAt) as real, limit.RefillPerMs());
      if now >= b.expires {
        TtlFills(limit, now - b.updatedAt);
      }
    }
  }

  predicate Ordered(requests: seq<Request>) {
    forall i, j :: 0 <= i <= j < |requests| ==> requests[i].now <= requests[j].now
  }

  /** Requests in clock order, all those for `key` under one limit. */
  predicate Steady(requests: seq<Request>, key: string, limit: Limit) {
    && Ordered(requests)
    && forall i :: 0 <= i < |requests| ==>
         requests[i].Valid() && (requests[i].key == key ==> requests[i].limit == limit)
  }

  function Exec(store: Store, requests: seq<Request>): Store
    requires forall i :: 0 <= i < |requests| ==> requests[i].Valid()
    decreases |requests|
  {
    if requests == [] then store else Exec(After(store, requests[0]), requests[1..])
  }

  /** The cost admitted for `key`. */
  function Admitted(store: Store, requests: seq<Request>, key: string): int
    requires forall i :: 0 <= i < |requests| ==> requests[i].Valid()
    decreases |requests|
  {
    if requests == [] then 0
    else
      Charge(store, requests[0], key) + Admitted(After(store, requests[0]), requests[1..], key)
  }

  lemma {:induction false} AfterKept(store: Store, r: Request, key: string, limit: Limit)
    requires r.Valid() && (r.key == key ==> r.limit == limit)
    requires Kept(limit, store, key, r.now)
    ensures Kept(limit, After(store, r), key, r.now)
  {
    ExpiryInvisible(limit, store, key, r.now);
  }

  lemma {:induction false} KeptLater(limit: Limit, store: Store, key: string, now: int, later: int)
    requires Kept(limit, store, key, now) && now <= later
    ensures Kept(limit, store, key, later)
  {
  }

  lemma {:induction false} SteadyRest(requests: seq<Request>, key: string, limit: Limit)
    requires requests != [] && Steady(requests, key, limit)
    ensures Steady(requests[1..], key, limit)
    ensures forall i :: 0 <= i < |requests[1..]| ==> requests[0].now <= requests[1..][i].now
  {
  }

  lemma {:induction false} ExecKept(store: Store, requests: seq<Request>, key: string, limit: Limit, start: int)
    requires Steady(requests, key, limit) && Kept(limit, store, key, start)
    requires requests != [] ==> start <= requests[0].now
    ensures Kept(limit, Exec(store, requests), key, if requests == [] then start else requests[|requests| - 1].now)
    decreases |requests|
  {
    if requests != [] {
      KeptLater(limit, store, key, start, requests[0].now);
      AfterKept(store, requests[0], key, limit);
      SteadyRest(requests, key, limit);
      ExecKept(After(store, requests[0]), requests[1..], key, limit, requests[0].now);
    }
  }

  /** Between two instants the level rises by no more than the refill. */
  lemma {:induction false} LevelRises(limit: Limit, store: Store, key: string, now: int, later: int)
    requires Kept(limit, store, key, now) && now <= later
    ensures Level(limit, store, key, later) <= Level(limit, store, key, now) + Gain(limit, later - now)
  {
    ExpiryInvisible(limit, store, key, now);
    KeptLater(limit, store, key, now, later);
    ExpiryInvisible(limit, store, key, later);
    TimesMonotone(0.0, (later - now) as real, limit.RefillPerMs());
    if key in store {
      var b := store[key];
      RefillsCompose(limit, b.tokens, now - b.updatedAt, later - now);
    }
  }

  /** One request takes from the key's level exactly what it was admitted for; other keys' requests take nothing. */
  lemma {:induction false} LevelAfter(store: Store, r: Request, key: string, limit: Limit)
    requires r.Valid() && (r.key == key ==> r.limit == limit)
    requires Kept(limit, store, key, r.now)
    ensures Level(limit, After(store, r), key, r.now)
         == Level(limit, store, key, r.now)
            - Charge(store, r, key) as real
  {
    ExpiryInvisible(limit, store, key, r.now);
    assert limit.RefillPerMs() * 0.0 == 0.0;
  }

  function Charge(store: Store, r: Request, key: string): int {
    if r.key == key && Allowed(store, r) then r.cost else 0
  }

  /** One request, up to the next instant: what was charged and what is left came from the level and the refill. */
  lemma {:induction false} ChargeWithin(
    store: Store, r: Request, key: string, limit: Limit, start: int)
    requires r.Valid() && (r.key == key ==> r.limit == limit)
    requires Kept(limit, store, key, start) && start <= r.now
    ensures Kept(limit, After(store, r), key, r.now)
    ensures Level(limit, After(store, r), key, r.now) >= 0.0
    ensures Charge(store, r, key) as real + Level(limit, After(store, r), key, r.now)
         <= Level(limit, store, key, start) + Gain(limit, r.now - start)
  {
    KeptLater(limit, store, key, start, r.now);
    AfterKept(store, r, key, limit);
    var level := Level(limit, store, key, start);
    var found := Level(limit, store, key, r.now);
    var next := Level(limit, After(store, r), key, r.now);
    var gain := Gain(limit, r.now - start);
    var charge := Charge(store, r, key) as real;
    assert found <= level + gain by { LevelRises(limit, store, key, start, r.now); }
    assert next == found - charge by { LevelAfter(store, r, key, limit); }
    assert next >= 0.0 by { ExpiryInvisible(limit, After(store, r), key, r.now); }
  }

  lemma {:induction false} Telescope(
    charge: real, rest: real, level: real, next: real, gain: real, gainRest: real, total: real)
    requires charge + next <= level + gain && rest <= next + gainRest && total == gain + gainRest
    ensures charge + rest <= level + total
  {
  }

  lemma {:induction false} AdmittedWithin(store: Store, requests: seq<Request>, key: string, limit: Limit, start: int)
    requires Steady(requests, key, limit) && Kept(limit, store, key, start)
    requires requests != [] && start <= requests[0].now
    ensures Admitted(store, requests, key) as real
         <= Level(limit, store, key, start) + Gain(limit, requests[|requests| - 1].now - start)
    decreases |requests|
  {
    var r := requests[0];
    var rest := requests[1..];
    var next := After(store, r);
    var end := requests[|requests| - 1].now;
    ChargeWithin(store, r, key, limit, start);
    GainAdds(limit, r.now - start, end - r.now);
    if rest == [] {
      assert Admitted(next, rest, key) == 0;
      assert end == r.now;
    } else {
      SteadyRest(requests, key, limit);
      AdmittedWithin(next, rest, key, limit, r.now);
      assert rest[|rest| - 1].now == end;
      Telescope(Charge(store, r, key) as real, Admitted(next, rest, key) as real,
        Level(limit, store, key, start), Level(limit, next, key, r.now),
        Gain(limit, r.now - start), Gain(limit, end - r.now), Gain(limit, end - start));
      assert Admitted(store, requests, key) == Charge(store, r, key) + Admitted(next, rest, key);
    }
  }

  lemma {:induction false} SteadyParts(before: seq<Request>, window: seq<Request>, key: string, limit: Limit)
    requires Steady(before + window, key, limit)
    ensures Steady(before, key, limit) && Steady(window, key, limit)
    ensures before != [] && window != [] ==> before[|before| - 1].now <= window[0].now
  {
    var all := before + window;
    assert forall i :: 0 <= i < |before| ==> before[i] == all[i];
    assert forall i :: 0 <= i < |window| ==> window[i] == all[|before| + i];
  }

  lemma {:induction false} BoundHolds(
    store: Store, window: seq<Request>, key: string, limit: Limit, start: int, d: nat)
    requires Steady(window, key, limit) && Kept(limit, store, key, start)
    requires window != [] && start <= window[0].now && window[|window| - 1].now - window[0].now <= d
    ensures Admitted(store, window, key) as real <= limit.capacity as real + Gain(limit, d)
  {
    var first, last := window[0].now, window[|window| - 1].now;
    assert first <= last;
    KeptLater(limit, store, key, start, first);
    var admitted := Admitted(store, window, key) as real;
    var level := Level(limit, store, key, first);
    var gain := Gain(limit, last - first);
    assert admitted <= level + gain by { AdmittedWithin(store, window, key, limit, first); }
    assert level <= limit.capacity as real by { ExpiryInvisible(limit, store, key, first); }
    assert gain <= Gain(limit, d) by { GainMonotone(limit, last - first, d); }
  }

  /**
   * Whatever ran before, and however often the key expired: the requests that arrive within `d` milliseconds of
   * each other are admitted for at most the capacity plus what `d` milliseconds refill.
   */
  lemma {:induction false} WindowBound(before: seq<Request>, window: seq<Request>, key: string, limit: Limit, d: nat)
    requires limit.Positive() && Steady(before + window, key, limit)
    requires window != [] && window[|window| - 1].now - window[0].now <= d
    ensures Steady(before, key, limit) && Steady(window, key, limit)
    ensures Admitted(Exec(map[], before), window, key) as real
         <= limit.capacity as real + Gain(limit, d)
  {
    SteadyParts(before, window, key, limit);
    var start := if before == [] then window[0].now else before[0].now;
    ExecKept(map[], before, key, limit, start);
    var last := if before == [] then start else before[|before| - 1].now;
    BoundHolds(Exec(map[], before), window, key, limit, last, d);
  }

  /** The bound is met: a burst for the whole capacity, then every whole token the next `d` milliseconds refill. */
  lemma {:induction false} WindowBoundMet(key: string, limit: Limit, now: int, d: nat, more: int)
    requires limit.Positive() && 0 < more <= limit.capacity && more as real <= Gain(limit, d)
    ensures var burst := [Request(key, limit, limit.capacity, now), Request(key, limit, more, now + d)];
      Admitted(map[], burst, key) == limit.capacity + more
  {
    var first := Request(key, limit, limit.capacity, now);
    var second := Request(key, limit, more, now + d);
    var burst := [first, second];
    var drained := After(map[], first);
    assert burst[1..] == [second] && [second][1..] == [];
    assert Kept(limit, drained, key, now) && Level(limit, drained, key, now) == 0.0 by {
      AfterKept(map[], first, key, limit);
      LevelAfter(map[], first, key, limit);
    }
    assert Allowed(drained, second) by { LevelLater(limit, drained, key, now, now + d); }
    assert Admitted(After(drained, second), [], key) == 0;
    assert Admitted(drained, [second], key) == more;
  }

  // ---------------------------------------------------------------- retry_after_ms

  /** Denied requests for the key, and requests for other keys, leave the level what it would have been. */
  lemma {:induction false} DeniedRunsChangeNothing(
    store: Store, requests: seq<Request>, key: string, limit: Limit, start: int, later: int)
    requires Steady(requests, key, limit) && Kept(limit, store, key, start)
    requires start <= later && forall i :: 0 <= i < |requests| ==> start <= requests[i].now <= later
    requires Admitted(store, requests, key) == 0
    ensures Level(limit, Exec(store, requests), key, later) == Level(limit, store, key, later)
    decreases |requests|
  {
    if requests != [] {
      var r := requests[0];
      var next := After(store, r);
      KeptLater(limit, store, key, start, r.now);
      AfterKept(store, r, key, limit);
      SteadyRest(requests, key, limit);
      AdmittedNatural(next, requests[1..], key);
      DeniedRunsChangeNothing(next, requests[1..], key, limit, r.now, later);
      DeniedChangesNothing(store, r, key, limit, later);
    }
  }

  lemma {:induction false} AdmittedNatural(store: Store, requests: seq<Request>, key: string)
    requires forall i :: 0 <= i < |requests| ==> requests[i].Valid()
    ensures Admitted(store, requests, key) >= 0
    decreases |requests|
  {
    if requests != [] {
      AdmittedNatural(After(store, requests[0]), requests[1..], key);
    }
  }

  lemma {:induction false} DeniedChangesNothing(store: Store, r: Request, key: string, limit: Limit, later: int)
    requires r.Valid() && (r.key == key ==> r.limit == limit && !Allowed(store, r))
    requires Kept(limit, store, key, r.now) && r.now <= later
    ensures Level(limit, After(store, r), key, later) == Level(limit, store, key, later)
  {
    if r.key == key {
      AfterKept(store, r, key, limit);
      KeptLater(limit, store, key, r.now, later);
      KeptLater(limit, After(store, r), key, r.now, later);
      ExpiryInvisible(limit, store, key, r.now);
      ExpiryInvisible(limit, store, key, later);
      ExpiryInvisible(limit, After(store, r), key, later);
      TimesMonotone(0.0, (later - r.now) as real, limit.RefillPerMs());
      if key in store {
        RefillsCompose(limit, store[key].tokens, r.now - store[key].updatedAt, later - r.now);
      }
    }
  }

  /** An untouched bucket refills from its level as if it had been left alone since. */
  lemma {:induction false} LevelLater(limit: Limit, store: Store, key: string, now: int, later: int)
    requires Kept(limit, store, key, now) && now <= later
    ensures Level(limit, store, key, later) == Refilled(limit, Level(limit, store, key, now), later - now)
  {
    ExpiryInvisible(limit, store, key, now);
    KeptLater(limit, store, key, now, later);
    ExpiryInvisible(limit, store, key, later);
    TimesMonotone(0.0, (later - now) as real, limit.RefillPerMs());
    if key in store {
      RefillsCompose(limit, store[key].tokens, now - store[key].updatedAt, later - now);
    }
  }

  /** What `check` tells a denied caller. */
  function RetryAfter(store: Store, r: Request): int
    requires r.Valid()
  {
    Ceil((r.cost as real - Level(r.limit, store, r.key, r.now)) / r.limit.RefillPerMs())
  }

  /**
   * After a denial, and any further requests none of which is admitted for the key, the same request is allowed
   * from the reported wait on and at no earlier millisecond.
   */
  lemma {:induction false} RetryAfterExact(store: Store, r: Request, polls: seq<Request>, later: int)
    requires r.Valid() && Kept(r.limit, store, r.key, r.now) && !Allowed(store, r)
    requires Steady(polls, r.key, r.limit) && r.now <= later
    requires forall i :: 0 <= i < |polls| ==> r.now <= polls[i].now <= later
    requires Admitted(After(store, r), polls, r.key) == 0
    ensures RetryAfter(store, r) > 0
    ensures Allowed(Exec(After(store, r), polls), r.(now := later)) <==> later >= r.now + RetryAfter(store, r)
  {
    var next := After(store, r);
    var level := Level(r.limit, store, r.key, r.now);
    assert Kept(r.limit, next, r.key, r.now) by { AfterKept(store, r, r.key, r.limit); }
    var there := Level(r.limit, Exec(next, polls), r.key, later);
    var plain := Level(r.limit, store, r.key, later);
    assert there == Level(r.limit, next, r.key, later) by {
      DeniedRunsChangeNothing(next, polls, r.key, r.limit, r.now, later);
    }
    assert Level(r.limit, next, r.key, later) == plain by {
      DeniedChangesNothing(store, r, r.key, r.limit, later);
    }
    assert plain == Refilled(r.limit, level, later - r.now) by { LevelLater(r.limit, store, r.key, r.now, later); }
    RefillReaches(r.limit, level, r.cost, later - r.now);
  }
}
