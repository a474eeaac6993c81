/** Double-checked cache fill under a lock: any number of clients in `get_or_set` on one key (redis/cache.py). */
module CacheFill {
  import opened Wrappers
  import Text
  import Locks
  import CacheTags

  type Token = Locks.Token
  type Value = int
  type Client = nat

  datatype Entry = Entry(value: Value, expires: int)

  /** Where a client stands in `get_or_set`. */
  datatype Phase =
    | Waiting(token: Token)                        // missed the cache, wants the lock
    | Entered(token: Token)                        // has the lock, has not looked again
    | Loading(token: Token)                        // missed again, runs the loader
    | Loaded(token: Token, value: Value)           // has a value to store
    | Leaving(token: Token, result: Option<Value>, read: bool) // about to release and return, or raise
    | Stuck(token: Token)                          // crashed with the lock, or could not release it
    | Returned(value: Value, read: bool)           // a load's value, its own or read from the cache
    | Raised

  /** `lost` counts the loads whose value will never reach the cache. */
  datatype State = State(
    now: int, cached: Option<Entry>, slot: Locks.Slot, clients: map<Client, Phase>, tokens: set<Token>,
    loads: seq<Value>, lost: nat)

  type Ratio = r: real | 0.0 <= r <= 0.5

  predicate NoBlank(tags: seq<string>) {
    forall t <- tags :: !Text.Blank(t)
  }

  /**
   * The seconds and tags each client's call asks for, the jitter, which values the codec encodes and what it reads
   * back, the longest expiry Redis takes, and whether Redis answers every store.
   */
  datatype Setting = Setting(
    ttl: Client -> int, tags: Client -> seq<string>, ratio: Ratio, encodes: Value -> bool, reread: Value -> Value,
    longest: int, reliable: bool)
  {
    function Spread(c: Client): int {
      if ttl(c) > 0 then CacheTags.Spread(ttl(c), ratio) else 0
    }

    // The lifetimes that the jitter may draw.
    function Least(c: Client): int { if ttl(c) - Spread(c) > 1 then ttl(c) - Spread(c) else 1 }

    function Most(c: Client): int { ttl(c) + Spread(c) }

    /** How much longer the indexes of the tags are to last. */
    function Margin(c: Client): int { if tags(c) == [] then 0 else CacheTags.TAG_MARGIN }

    /** Nothing raises before Redis is asked. */
    predicate Sendable(c: Client, v: Value) { ttl(c) > 0 && encodes(v) && NoBlank(tags(c)) }

    /** And whatever the jitter draws, Redis takes the value's expiry. */
    predicate Storable(c: Client, v: Value) { Sendable(c, v) && Most(c) <= longest }

    /** The jitter may draw a lifetime that Redis takes for the value and the indexes. */
    predicate Answerable(c: Client, v: Value) { Sendable(c, v) && Least(c) + Margin(c) <= longest }
  }

  datatype Action =
    | Arrive(client: Client, token: Token)
    | Poll(client: Client, ttl: nat)
    | GiveUp(client: Client)
    | Recheck(client: Client)
    | LoadSucceeds(client: Client, value: Value)
    | LoadFails(client: Client)
    | Store(client: Client, seconds: int, answered: bool)
    | StoreRaises(client: Client, seconds: int)
    | Leave(client: Client)
    | Crash(client: Client)
    | Tick(ms: nat)

  /** `get`: the live cached value, if any. */
  function Get(s: State): Option<Value> {
    if s.cached.Some? && s.now < s.cached.value.expires then Some(s.cached.value.value) else None
  }

  predicate InSection(p: Phase) {
    p.Entered? || p.Loading? || p.Loaded? || p.Leaving?
  }

  /** The client has come to the step. */
  predicate Possible(s: State, a: Action) {
    match a
    case Arrive(c, token) => c !in s.clients && token !in s.tokens
    case Poll(c, ttl) => c in s.clients && s.clients[c].Waiting? && ttl > 0
    case GiveUp(c) => c in s.clients && s.clients[c].Waiting?
    case Recheck(c) => c in s.clients && s.clients[c].Entered?
    case LoadSucceeds(c, _) => c in s.clients && s.clients[c].Loading?
    case LoadFails(c) => c in s.clients && s.clients[c].Loading?
    case Store(c, seconds, _) => c in s.clients && s.clients[c].Loaded? && seconds > 0
    case StoreRaises(c, _) => c in s.clients && s.clients[c].Loaded?
    case Leave(c) => c in s.clients && s.clients[c].Leaving?
    case Crash(c) => c in s.clients && InSection(s.clients[c])
    case Tick(_) => true
  }

  /**
   * `set` raises before Redis is asked on a TTL that is not positive, a value that cannot be encoded or a blank tag;
   * and after it when Redis fails or refuses an expiry, that of the value or, the value stored, that of an index.
   */
  predicate Enabled(w: Setting, s: State, a: Action) {
    Possible(s, a) &&
    match a
    case Store(c, seconds, answered) =>
      && w.Sendable(c, s.clients[c].value) && w.Least(c) <= seconds <= w.Most(c) && seconds <= w.longest
      && (if answered then seconds + w.Margin(c) <= w.longest
          else !w.reliable || seconds + w.Margin(c) > w.longest)
    case StoreRaises(c, seconds) =>
      || !w.Sendable(c, s.clients[c].value) || !w.reliable
      || (w.Least(c) <= seconds <= w.Most(c) && seconds > w.longest)
    case _ => true
  }

  function Move(s: State, c: Client, p: Phase): State {
    s.(clients := s.clients[c := p])
  }

  /** One atomic step: a command of one client, a local step of one client, or the passing of time. */
  function Step(s: State, a: Action): State
    requires Possible(s, a)
  {
    match a
    case Arrive(c, token) =>
      var hit := Get(s);
      Move(s, c, if hit.Some? then Returned(hit.value, true) else Waiting(token)).(tokens := s.tokens + {token})
    case Poll(c, ttl) =>
      var (slot, ok) := Locks.SetNx(s.slot, s.clients[c].token, ttl, s.now);
      if ok then Move(s, c, Entered(s.clients[c].token)).(slot := slot) else s
    case GiveUp(c) => Move(s, c, Raised)
    case Recheck(c) =>
      var hit := Get(s);
      Move(s, c, if hit.Some? then Leaving(s.clients[c].token, hit, true) else Loading(s.clients[c].token))
    case LoadSucceeds(c, v) => Move(s, c, Loaded(s.clients[c].token, v)).(loads := s.loads + [v])
    case LoadFails(c) => Move(s, c, Leaving(s.clients[c].token, None, false))
    case Store(c, seconds, answered) =>
      var v := s.clients[c].value;
      Move(s, c, Leaving(s.clients[c].token, if answered then Some(v) else None, false)).(
        cached := Some(Entry(v, s.now + seconds * 1000)))
    case StoreRaises(c, _) => Move(s, c, Leaving(s.clients[c].token, None, false)).(lost := s.lost + 1)
    case Leave(c) =>
      var p := s.clients[c];
      Move(s, c, if p.result.Some? then Returned(p.result.value, p.read) else Raised).(
        slot := Locks.ReleaseScript(s.slot, p.token, s.now).0)
    case Crash(c) =>
      Move(s, c, Stuck(s.clients[c].token)).(lost := s.lost + if s.clients[c].Loaded? then 1 else 0)
    case Tick(ms) => s.(now := s.now + ms)
  }

  /** The step lets no live cache entry expire, nor the lease of a client inside the section. */
  predicate Calm(s: State, a: Action)
    requires Possible(s, a)
  {
    a.Tick? ==>
      && ((exists c <- s.clients :: InSection(s.clients[c])) && Locks.Owner(s.slot, s.now).Some? ==>
            Locks.Owner(s.slot, s.now + a.ms).Some?)
      && (Get(s).Some? ==> Get(Step(s, a)).Some?)
  }

  ghost predicate Run(w: Setting, states: seq<State>, actions: seq<Action>) {
    && |states| == |actions| + 1
    && forall i :: 0 <= i < |actions| ==>
         Enabled(w, states[i], actions[i]) && states[i + 1] == Step(states[i], actions[i])
  }

  ghost predicate CalmRun(w: Setting, states: seq<State>, actions: seq<Action>) {
    Run(w, states, actions) && forall i :: 0 <= i < |actions| ==> Calm(states[i], actions[i])
  }

  predicate Cold(s: State) {
    && s.clients == map[] && s.loads == [] && s.lost == 0 && Get(s).None?
    && (s.slot.Some? ==> s.slot.value.token in s.tokens)
  }

  /** The lock token of a client that waits for the lock or has had it and not released it. */
  function TokenOf(p: Phase): Option<Token> {
    if p.Waiting? || p.Stuck? || InSection(p) then Some(p.token) else None
  }

  ghost predicate TokensApart(s: State) {
    && (s.slot.Some? ==> s.slot.value.token in s.tokens)
    && (forall c :: c in s.clients && TokenOf(s.clients[c]).Some? ==> TokenOf(s.clients[c]).value in s.tokens)
    && (forall c, d :: c in s.clients && d in s.clients && c != d && TokenOf(s.clients[c]).Some? ==>
          TokenOf(s.clients[c]) != TokenOf(s.clients[d]))
  }

  /** Whoever is inside the section owns the lock. */
  ghost predicate SectionOwned(s: State) {
    forall c :: c in s.clients && InSection(s.clients[c]) ==> Locks.Owner(s.slot, s.now) == Some(s.clients[c].token)
  }

  predicate SomeLoaded(s: State) {
    exists c <- s.clients :: s.clients[c].Loaded?
  }

  predicate LastLoad(s: State, v: Value) {
    s.loads != [] && s.loads[|s.loads| - 1] == v
  }

  /** The last load's value is the only one clients and cache know; every load before it was lost. */
  ghost predicate OneValue(s: State) {
    && |s.loads| == s.lost + (if Get(s).Some? || SomeLoaded(s) then 1 else 0)
    && (Get(s).Some? ==> LastLoad(s, Get(s).value))
    && (forall c :: c in s.clients ==>
          match s.clients[c]
          case Loading(_) => Get(s).None?
          case Loaded(_, v) => LastLoad(s, v) && Get(s).None?
          case Leaving(_, Some(v), _) => Get(s) == Some(v)
          case Returned(v, _) => Get(s) == Some(v)
          case _ => true)
  }

  ghost predicate Good(s: State) {
    TokensApart(s) && SectionOwned(s) && OneValue(s)
  }

  lemma {:induction false} OnlyOneInSection(s: State, c: Client, d: Client)
    requires TokensApart(s) && SectionOwned(s)
    requires c in s.clients && d in s.clients && InSection(s.clients[c]) && InSection(s.clients[d])
    ensures c == d
  {
  }

  lemma {:induction false} TokensStayApart(s: State, a: Action)
    requires Possible(s, a) && TokensApart(s)
    ensures TokensApart(Step(s, a))
  {
    if !a.Tick? && !a.Arrive? {
      var t, c := Step(s, a), a.client;
      assert t.clients == s.clients[c := t.clients[c]];
      assert TokenOf(t.clients[c]).None? || TokenOf(t.clients[c]) == TokenOf(s.clients[c]);
    }
  }

  lemma {:induction false} SectionStaysOwned(s: State, a: Action)
    requires Possible(s, a) && Calm(s, a) && TokensApart(s) && SectionOwned(s)
    ensures SectionOwned(Step(s, a))
  {
    if a.Leave? {
      forall c | c in s.clients && InSection(s.clients[c]) ensures c == a.client {
        OnlyOneInSection(s, c, a.client);
      }
    }
  }

  lemma {:induction false} OnlyLoaded(s: State, c: Client)
    requires TokensApart(s) && SectionOwned(s) && c in s.clients && InSection(s.clients[c])
    ensures SomeLoaded(s) <==> s.clients[c].Loaded?
    ensures forall d <- s.clients :: InSection(s.clients[d]) ==> d == c
  {
    forall d | d in s.clients && InSection(s.clients[d]) ensures c == d {
      OnlyOneInSection(s, c, d);
    }
  }

  lemma {:induction false} InsideStaysOne(s: State, a: Action)
    requires Possible(s, a) && Good(s) && !a.Tick? && a.client in s.clients && InSection(s.clients[a.client])
    ensures OneValue(Step(s, a))
  {
    var t := Step(s, a);
    OnlyLoaded(s, a.client);
    assert t.clients == s.clients[a.client := t.clients[a.client]];
    assert SomeLoaded(t) <==> t.clients[a.client].Loaded?;
  }

  lemma {:induction false} ValueStaysOne(s: State, a: Action)
    requires Possible(s, a) && Calm(s, a) && Good(s)
    ensures OneValue(Step(s, a))
  {
    var t := Step(s, a);
    if a.Tick? {
      assert t.clients == s.clients;
    } else if a.client in s.clients && InSection(s.clients[a.client]) {
      InsideStaysOne(s, a);
    } else {
      assert t.clients == s.clients[a.client := t.clients[a.client]];
      assert !t.clients[a.client].Loaded?;
      assert forall c <- s.clients :: s.clients[c].Loaded? ==> c in t.clients && t.clients[c].Loaded?;
    }
  }

  /**
   * In a calm run from a cold cache all loads but the last were lost to a `set` that raised, or a client that
   * crashed, before the value was stored; and every client that returns has the last load's, as it was or as the
   * codec reads it back.
   */
  lemma {:induction false} OneLoadPerFill(w: Setting, states: seq<State>, actions: seq<Action>)
    requires CalmRun(w, states, actions) && Cold(states[0])
    ensures forall i :: 0 <= i < |states| ==> Good(states[i]) && |states[i].loads| <= 1 + states[i].lost
    ensures forall i, c :: 0 <= i < |states| && c in states[i].clients && states[i].clients[c].Returned? ==>
      LastLoad(states[i], states[i].clients[c].value)
    decreases |actions|
  {
    if actions == [] {
      assert Good(states[0]);
    } else {
      var n := |actions| - 1;
      OneLoadPerFill(w, states[..n + 1], actions[..n]);
      var s, a := states[n], actions[n];
      assert s == states[..n + 1][n] && Good(s);
      TokensStayApart(s, a);
      SectionStaysOwned(s, a);
      ValueStaysOne(s, a);
      assert Good(states[n + 1]);
      forall i | 0 <= i < |states| ensures Good(states[i]) {
        if i <= n {
          assert states[i] == states[..n + 1][i];
        }
      }
    }
  }

  // ---------------------------------------------------------------- when one load is guaranteed

  predicate Crashless(actions: seq<Action>) {
    forall i :: 0 <= i < |actions| ==> !actions[i].Crash?
  }

  /** No calm run from a cold cache in which no client crashes loads twice. */
  ghost predicate LoadsOnce(w: Setting) {
    forall states: seq<State>, actions: seq<Action> | CalmRun(w, states, actions) ::
      Cold(states[0]) && Crashless(actions) ==> |states[|actions|].loads| <= 1
  }

  /** No call asks for what `set` or Redis refuses, and Redis answers. */
  ghost predicate StoresWork(w: Setting) {
    w.reliable && forall c, v :: w.Storable(c, v)
  }

  lemma {:induction false} NothingLost(w: Setting, states: seq<State>, actions: seq<Action>)
    requires StoresWork(w) && Run(w, states, actions) && Cold(states[0]) && Crashless(actions)
    ensures states[|actions|].lost == 0
    decreases |actions|
  {
    if actions != [] {
      var n := |actions| - 1;
      NothingLost(w, states[..n + 1], actions[..n]);
      assert states[..n + 1][n] == states[n] && !actions[n].Crash?;
      StoreNeverRaises(w, states[n], actions[n]);
    }
  }

  lemma {:induction false} StoreNeverRaises(w: Setting, s: State, a: Action)
    requires StoresWork(w) && Enabled(w, s, a)
    ensures !a.StoreRaises?
  {
    assert forall c, v :: w.Storable(c, v) ==> w.Sendable(c, v) && w.Most(c) <= w.longest;
  }

  /** One load is guaranteed exactly when no store can raise. */
  lemma {:induction false} LoadsOnceIffStoresWork(w: Setting)
    ensures LoadsOnce(w) <==> StoresWork(w)
  {
    if StoresWork(w) {
      forall states: seq<State>, actions: seq<Action>
        | CalmRun(w, states, actions) && Cold(states[0]) && Crashless(actions)
        ensures |states[|actions|].loads| <= 1
      {
        OneLoadPerFill(w, states, actions);
        NothingLost(w, states, actions);
      }
    } else {
      var c, v: Value :| !w.reliable || !w.Storable(c, v);
      var trace := RaisedStoreLoadsTwice(w, c, v);
      assert CalmRun(w, trace.states, trace.actions) && Cold(trace.states[0]) && Crashless(trace.actions);
      assert |trace.states[|trace.actions|].loads| == 2;
    }
  }

  // ---------------------------------------------------------------- when all answers are alike

  /** What `get_or_set` returns: the loader's own value, or what the codec makes of it. */
  function Answer(w: Setting, p: Phase): Value
    requires p.Returned?
  {
    if p.read then w.reread(p.value) else p.value
  }

  predicate SincereAt(w: Setting, c: Client, p: Phase) {
    && (p.Leaving? && p.result.Some? && !p.read ==> w.Answerable(c, p.result.value))
    && (p.Returned? && !p.read ==> w.Answerable(c, p.value))
  }

  /** A loader's own value is returned only where its store could be answered. */
  ghost predicate Sincere(w: Setting, s: State) {
    forall c :: c in s.clients ==> SincereAt(w, c, s.clients[c])
  }

  lemma {:induction false} StaysSincere(w: Setting, s: State, a: Action)
    requires Sincere(w, s) && Enabled(w, s, a)
    ensures Sincere(w, Step(s, a))
  {
    var t := Step(s, a);
    if !a.Tick? {
      assert t.clients == s.clients[a.client := t.clients[a.client]];
      assert a.client in s.clients ==> SincereAt(w, a.client, s.clients[a.client]);
    }
  }

  lemma {:induction false} RunsStaySincere(w: Setting, states: seq<State>, actions: seq<Action>)
    requires Run(w, states, actions) && Cold(states[0])
    ensures Sincere(w, states[|actions|])
    decreases |actions|
  {
    if actions != [] {
      var n := |actions| - 1;
      RunsStaySincere(w, states[..n + 1], actions[..n]);
      assert states[..n + 1][n] == states[n];
      StaysSincere(w, states[n], actions[n]);
    }
  }

  ghost predicate Alike(w: Setting, s: State) {
    forall c, d :: c in s.clients && d in s.clients && s.clients[c].Returned? && s.clients[d].Returned? ==>
      Answer(w, s.clients[c]) == Answer(w, s.clients[d])
  }

  ghost predicate AnswersAlike(w: Setting) {
    forall states: seq<State>, actions: seq<Action> | CalmRun(w, states, actions) ::
      Cold(states[0]) ==> Alike(w, states[|actions|])
  }

  /** The codec gives back every value that a client may both store and return. */
  ghost predicate Faithful(w: Setting) {
    forall c, v :: w.Answerable(c, v) ==> w.reread(v) == v
  }

  lemma {:induction false} SincereAlike(w: Setting, s: State)
    requires Faithful(w) && Sincere(w, s) && OneValue(s)
    ensures Alike(w, s)
  {
    forall c | c in s.clients && s.clients[c].Returned?
      ensures Answer(w, s.clients[c]) == w.reread(Get(s).value)
    {
      assert SincereAt(w, c, s.clients[c]);
    }
  }

  /** In all calm runs every client that returns has the same value, exactly when the codec is faithful. */
  lemma {:induction false} AnswersAlikeIffFaithful(w: Setting)
    ensures AnswersAlike(w) <==> Faithful(w)
  {
    if Faithful(w) {
      forall states: seq<State>, actions: seq<Action> | CalmRun(w, states, actions) && Cold(states[0])
        ensures Alike(w, states[|actions|])
      {
        OneLoadPerFill(w, states, actions);
        RunsStaySincere(w, states, actions);
        SincereAlike(w, states[|actions|]);
      }
    } else {
      var c, v: Value :| w.Answerable(c, v) && w.reread(v) != v;
      var trace := RereadDiffers(w, c, v);
      assert CalmRun(w, trace.states, trace.actions) && Cold(trace.states[0]);
      assert !Alike(w, trace.states[|trace.actions|]);
    }
  }

  datatype Trace = Trace(states: seq<State>, actions: seq<Action>) {
    ghost predicate Valid(w: Setting) {
      Run(w, states, actions) && Cold(states[0])
    }

    /** Without crashes, and so far at one instant. */
    ghost predicate Instant() {
      forall i :: 0 <= i < |actions| ==> !actions[i].Tick? && !actions[i].Crash?
    }

    function Last(): State
      requires states != []
    {
      states[|states| - 1]
    }
  }

  lemma {:induction false} Then(w: Setting, trace: Trace, a: Action, next: State) returns (longer: Trace)
    requires trace.Valid(w) && Enabled(w, trace.Last(), a) && next == Step(trace.Last(), a)
    ensures longer.Valid(w) && longer.Last() == next
    ensures trace.Instant() && !a.Tick? && !a.Crash? ==> longer.Instant()
  {
    longer := Trace(trace.states + [next], trace.actions + [a]);
  }

  lemma {:induction false} TwoArrive(w: Setting, c: Client, d: Client) returns (trace: Trace)
    requires c != d
    ensures trace.Valid(w) && trace.Instant()
    ensures trace.Last() == State(0, None, None, map[c := Waiting(1), d := Waiting(2)], {1, 2}, [], 0)
  {
    trace := Trace([State(0, None, None, map[], {}, [], 0)], []);
    trace := Then(w, trace, Arrive(c, 1), State(0, None, None, map[c := Waiting(1)], {1}, [], 0));
    trace := Then(w, trace, Arrive(d, 2), State(0, None, None, map[c := Waiting(1), d := Waiting(2)], {1, 2}, [], 0));
  }

  /** Clients `c` and `d` arrive, and `c` gets to its load. */
  lemma {:induction false} OneLoadsOneWaits(w: Setting, c: Client, d: Client) returns (trace: Trace)
    requires c != d
    ensures trace.Valid(w) && trace.Instant()
    ensures trace.Last() ==
      State(0, None, Some(Locks.Lease(1, 5)), map[c := Loading(1), d := Waiting(2)], {1, 2}, [], 0)
  {
    var held := Some(Locks.Lease(1, 5));
    trace := TwoArrive(w, c, d);
    trace := Then(w, trace, Poll(c, 5), State(0, None, held, map[c := Entered(1), d := Waiting(2)], {1, 2}, [], 0));
    trace := Then(w, trace, Recheck(c), State(0, None, held, map[c := Loading(1), d := Waiting(2)], {1, 2}, [], 0));
  }

  lemma {:induction false} FirstStoreRaises(w: Setting, c: Client, d: Client, v: Value) returns (trace: Trace)
    requires c != d && (!w.reliable || !w.Storable(c, v))
    ensures trace.Valid(w) && trace.Instant()
    ensures trace.Last() ==
      State(0, None, Some(Locks.Lease(1, 5)), map[c := Leaving(1, None, false), d := Waiting(2)], {1, 2}, [v], 1)
  {
    var held := Some(Locks.Lease(1, 5));
    trace := OneLoadsOneWaits(w, c, d);
    trace := Then(w, trace, LoadSucceeds(c, v),
      State(0, None, held, map[c := Loaded(1, v), d := Waiting(2)], {1, 2}, [v], 0));
    trace := Then(w, trace, StoreRaises(c, w.Most(c)),
      State(0, None, held, map[c := Leaving(1, None, false), d := Waiting(2)], {1, 2}, [v], 1));
  }

  lemma {:induction false} NextGetsIn(w: Setting, c: Client, d: Client, v: Value) returns (trace: Trace)
    requires c != d && (!w.reliable || !w.Storable(c, v))
    ensures trace.Valid(w) && trace.Instant()
    ensures trace.Last() ==
      State(0, None, Some(Locks.Lease(2, 5)), map[c := Raised, d := Entered(2)], {1, 2}, [v], 1)
  {
    var held := Some(Locks.Lease(2, 5));
    trace := FirstStoreRaises(w, c, d, v);
    trace := Then(w, trace, Leave(c), State(0, None, None, map[c := Raised, d := Waiting(2)], {1, 2}, [v], 1));
    trace := Then(w, trace, Poll(d, 5), State(0, None, held, map[c := Raised, d := Entered(2)], {1, 2}, [v], 1));
  }

  /** A failing input: the value loaded first cannot be stored, so the next client loads again. */
  lemma {:induction false} RaisedStoreLoadsTwice(w: Setting, c: Client, v: Value) returns (trace: Trace)
    requires !w.reliable || !w.Storable(c, v)
    ensures trace.Valid(w) && trace.Instant() && trace.Last().loads == [v, 20]
  {
    var d := c + 1;
    trace := NextGetsIn(w, c, d, v);
    trace := Then(w, trace, Recheck(d),
      State(0, None, Some(Locks.Lease(2, 5)), map[c := Raised, d := Loading(2)], {1, 2}, [v], 1));
    trace := Then(w, trace, LoadSucceeds(d, 20), Step(trace.Last(), LoadSucceeds(d, 20)));
  }

  lemma {:induction false} FirstStores(w: Setting, c: Client, d: Client, v: Value) returns (trace: Trace)
    requires c != d && w.Answerable(c, v)
    ensures trace.Valid(w) && trace.Instant()
    ensures trace.Last() ==
      State(0, Some(Entry(v, w.Least(c) * 1000)), Some(Locks.Lease(1, 5)),
            map[c := Leaving(1, Some(v), false), d := Waiting(2)], {1, 2}, [v], 0)
  {
    var held := Some(Locks.Lease(1, 5));
    trace := OneLoadsOneWaits(w, c, d);
    trace := Then(w, trace, LoadSucceeds(c, v),
      State(0, None, held, map[c := Loaded(1, v), d := Waiting(2)], {1, 2}, [v], 0));
    trace := Then(w, trace, Store(c, w.Least(c), true),
      State(0, Some(Entry(v, w.Least(c) * 1000)), held,
            map[c := Leaving(1, Some(v), false), d := Waiting(2)], {1, 2}, [v], 0));
  }

  lemma {:induction false} NextReads(w: Setting, c: Client, d: Client, v: Value) returns (trace: Trace)
    requires c != d && w.Answerable(c, v)
    ensures trace.Valid(w) && trace.Instant()
    ensures trace.Last() ==
      State(0, Some(Entry(v, w.Least(c) * 1000)), Some(Locks.Lease(2, 5)),
            map[c := Returned(v, false), d := Entered(2)], {1, 2}, [v], 0)
  {
    var cached := Some(Entry(v, w.Least(c) * 1000));
    trace := FirstStores(w, c, d, v);
    trace := Then(w, trace, Leave(c),
      State(0, cached, None, map[c := Returned(v, false), d := Waiting(2)], {1, 2}, [v], 0));
    trace := Then(w, trace, Poll(d, 5),
      State(0, cached, Some(Locks.Lease(2, 5)), map[c := Returned(v, false), d := Entered(2)], {1, 2}, [v], 0));
  }

  /** A failing input: a value the codec does not give back, which the loader returns and the next client does not. */
  lemma {:induction false} RereadDiffers(w: Setting, c: Client, v: Value) returns (trace: Trace)
    requires w.Answerable(c, v) && w.reread(v) != v
    ensures trace.Valid(w) && trace.Instant() && !Alike(w, trace.Last())
  {
    var d := c + 1;
    var cached, held := Some(Entry(v, w.Least(c) * 1000)), Some(Locks.Lease(2, 5));
    trace := NextReads(w, c, d, v);
    trace := Then(w, trace, Recheck(d),
      State(0, cached, held, map[c := Returned(v, false), d := Leaving(2, Some(v), true)], {1, 2}, [v], 0));
    trace := Then(w, trace, Leave(d), Step(trace.Last(), Leave(d)));
    assert trace.Last().clients[c] == Returned(v, false) && trace.Last().clients[d] == Returned(v, true);
  }

  lemma {:induction false} LeaseLapses(w: Setting) returns (trace: Trace)
    ensures trace.Valid(w)
    ensures trace.Last() ==
      State(6, None, Some(Locks.Lease(2, 11)), map[1 := Loading(1), 2 := Entered(2)], {1, 2}, [], 0)
  {
    var held, next := Some(Locks.Lease(1, 5)), Some(Locks.Lease(2, 11));
    trace := OneLoadsOneWaits(w, 1, 2);
    trace := Then(w, trace, Tick(6), State(6, None, held, map[1 := Loading(1), 2 := Waiting(2)], {1, 2}, [], 0));
    trace := Then(w, trace, Poll(2, 5), State(6, None, next, map[1 := Loading(1), 2 := Entered(2)], {1, 2}, [], 0));
  }

  /** The calmness is needed: when the lease ends during a load, a second client loads too, another value. */
  lemma {:induction false} ExpiredLeaseLoadsTwice(w: Setting) returns (trace: Trace)
    ensures trace.Valid(w) && trace.Last().loads == [10, 20] && trace.Last().lost == 0
  {
    trace := LeaseLapses(w);
    trace := Then(w, trace, Recheck(2),
      State(6, None, Some(Locks.Lease(2, 11)), map[1 := Loading(1), 2 := Loading(2)], {1, 2}, [], 0));
    trace := Then(w, trace, LoadSucceeds(1, 10), Step(trace.Last(), LoadSucceeds(1, 10)));
    trace := Then(w, trace, LoadSucceeds(2, 20), Step(trace.Last(), LoadSucceeds(2, 20)));
  }
}
