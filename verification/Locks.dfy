/** Token-safe Redis locks on one key, with leases that expire (redis/locks.py). */
module Locks {
  import opened Wrappers

  type Token = nat

  /** What the lock key holds; a lease is gone from the millisecond it expires. */
  datatype Lease = Lease(token: Token, expires: int)
  type Slot = Option<Lease>

  function Owner(slot: Slot, now: int): Option<Token> {
    if slot.Some? && now < slot.value.expires then Some(slot.value.token) else None
  }

  // ---------------------------------------------------------------- the three commands

  /** `SET key token NX PX ttl`. */
  function SetNx(slot: Slot, token: Token, ttl: int, now: int): (Slot, bool) {
    if Owner(slot, now).None? then (Some(Lease(token, now + ttl)), true) else (slot, false)
  }

  /** The extend script. */
  function ExtendScript(slot: Slot, token: Token, ttl: int, now: int): (Slot, bool) {
    if Owner(slot, now) == Some(token) then (Some(Lease(token, now + ttl)), true) else (slot, false)
  }

  /** The release script. */
  function ReleaseScript(slot: Slot, token: Token, now: int): (Slot, bool) {
    if Owner(slot, now) == Some(token) then (None, true) else (slot, false)
  }

  // ---------------------------------------------------------------- lock objects

  /** What the server holds, and its clock, when a command reaches it; other clients act in between. */
  datatype Moment = Moment(slot: Slot, now: int)

  class LockServer {
    var slot: Slot
    var now: int

    constructor ()
      ensures slot == None
    {
      slot, now := None, 0;
    }
  }

  datatype LockError = LockNotAcquired | InvalidTtl

  class RedisLock {
    const server: LockServer
    const token: Token
    const ttl: int
    const timeout: int
    const required: bool
    var acquired: bool

    constructor (server: LockServer, token: Token, ttl: int, timeout: int, required: bool)
      requires ttl > 0 && timeout >= 0
      ensures this.server == server && this.token == token && this.ttl == ttl
      ensures this.timeout == timeout && this.required == required && !acquired
    {
      this.server, this.token, this.ttl, this.timeout, this.required := server, token, ttl, timeout, required;
      acquired := false;
    }

    /** Poll `i` finds the lock held and is not yet past the deadline. */
    predicate Waits(polls: seq<Moment>, i: nat)
      requires i < |polls|
    {
      Owner(polls[i].slot, polls[i].now).Some? && polls[i].now < polls[0].now + timeout
    }

    /**
     * `acquire`: polls until the lock is free or the deadline has passed. `polls[i]` is the server as poll `i`
     * finds it; the last of them is past the deadline. Takes the lock at the first free poll, or gives up.
     */
    method Acquire(polls: seq<Moment>) returns (r: Result<bool, LockError>, n: nat)
      requires this.server as object != this
      requires polls != [] && polls[|polls| - 1].now >= polls[0].now + timeout
      modifies this, server
      ensures n < |polls| && !Waits(polls, n) && forall i :: 0 <= i < n ==> Waits(polls, i)
      ensures acquired <==> Owner(polls[n].slot, polls[n].now).None?
      ensures server.now == polls[n].now
      ensures server.slot == if acquired then Some(Lease(token, polls[n].now + ttl)) else polls[n].slot
      ensures r == if acquired then Success(true) else if required then Failure(LockNotAcquired) else Success(false)
    {
      var deadline := polls[0].now + timeout;
      n := 0;
      while true
        invariant n < |polls| && forall i :: 0 <= i < n ==> Waits(polls, i)
        decreases |polls| - n
      {
        server.slot, server.now := polls[n].slot, polls[n].now;
        var (slot, ok) := SetNx(server.slot, token, ttl, server.now);
        server.slot, acquired := slot, ok;
        if acquired {
          return Success(true), n;
        }
        if server.now >= deadline {
          if required {
            return Failure(LockNotAcquired), n;
          }
          return Success(false), n;
        }
        n := n + 1;
      }
    }

    /** `extend`. */
    method Extend(newTtl: Option<int>) returns (r: Result<bool, LockError>)
      requires this.server as object != this
      modifies server
      ensures server.now == old(server.now)
      ensures var wanted := if newTtl.Some? then newTtl.value else ttl;
        if !acquired then r == Success(false) && server.slot == old(server.slot)
        else if wanted <= 0 then r == Failure(InvalidTtl) && server.slot == old(server.slot)
        else
          var (slot, ok) := ExtendScript(old(server.slot), token, wanted, server.now);
          r == Success(ok) && server.slot == slot
    {
      if !acquired {
        return Success(false);
      }
      var wanted := if newTtl.Some? then newTtl.value else ttl;
      if wanted <= 0 {
        return Failure(InvalidTtl);
      }
      var (slot, ok) := ExtendScript(server.slot, token, wanted, server.now);
      server.slot := slot;
      return Success(ok);
    }

    /** `release`: only the current owner's key is deleted, and the handle is dropped either way. */
    method Release() returns (released: bool)
      requires this.server as object != this
      modifies this, server
      ensures !acquired && server.now == old(server.now)
      ensures released <==> old(acquired) && Owner(old(server.slot), server.now) == Some(token)
      ensures server.slot == if released then None else old(server.slot)
    {
      if !acquired {
        return false;
      }
      var (slot, ok) := ReleaseScript(server.slot, token, server.now);
      server.slot, acquired := slot, false;
      return ok;
    }
  }

  // ---------------------------------------------------------------- many clients

  datatype Action =
    | Poll(token: Token, ttl: nat)
    | Extend(token: Token, ttl: nat)
    | Release(token: Token)
    | Tick(ms: nat)

  /** `leases` maps each lock object with `acquired` set to the end of the lease it was last given. */
  datatype State = State(now: int, slot: Slot, leases: map<Token, int>) {
    predicate Holds(token: Token) {
      token in leases && now < leases[token]
    }
  }

  /** One atomic command of one client, or the passing of time; any number of clients may take turns. */
  function Step(s: State, a: Action): State {
    match a
    case Poll(t, ttl) =>
      var (slot, ok) := SetNx(s.slot, t, ttl, s.now);
      State(s.now, slot, if ok then s.leases[t := s.now + ttl] else s.leases - {t})
    case Extend(t, ttl) =>
      if t !in s.leases || ttl == 0 then s
      else
        var (slot, ok) := ExtendScript(s.slot, t, ttl, s.now);
        State(s.now, slot, if ok then s.leases[t := s.now + ttl] else s.leases)
    case Release(t) =>
      if t !in s.leases then s
      else State(s.now, ReleaseScript(s.slot, t, s.now).0, s.leases - {t})
    case Tick(ms) => s.(now := s.now + ms)
  }

  function Exec(s: State, actions: seq<Action>): State
    decreases |actions|
  {
    if actions == [] then s else Exec(Step(s, actions[0]), actions[1..])
  }

  /** A holder's lease is the one in the store. */
  ghost predicate Fenced(s: State) {
    forall t :: s.Holds(t) ==> s.slot == Some(Lease(t, s.leases[t]))
  }

  lemma {:induction false} RunsStayFenced(s: State, actions: seq<Action>)
    requires Fenced(s)
    ensures Fenced(Exec(s, actions))
    decreases |actions|
  {
    if actions != [] {
      StepStaysFenced(s, actions[0]);
      RunsStayFenced(Step(s, actions[0]), actions[1..]);
    }
  }

  lemma {:induction false} StepStaysFenced(s: State, a: Action)
    requires Fenced(s)
    ensures Fenced(Step(s, a))
  {
    var t := Step(s, a);
    forall k | t.Holds(k) ensures t.slot == Some(Lease(k, t.leases[k])) {
      if k in s.leases && s.now < s.leases[k] {
        assert s.Holds(k);
      }
    }
  }

  /** In every interleaving, two unexpired and unreleased holders never coexist. */
  lemma {:induction false} MutualExclusion(now: int, slot: Slot, actions: seq<Action>, t: Token, u: Token)
    requires var s := Exec(State(now, slot, map[]), actions); s.Holds(t) && s.Holds(u)
    ensures t == u
  {
    RunsStayFenced(State(now, slot, map[]), actions);
  }

  /** Nothing a client without the lease does, nor its lateness, takes the lease from an unexpired holder. */
  lemma {:induction false} HolderKeepsLease(s: State, a: Action, t: Token)
    requires Fenced(s) && s.Holds(t)
    requires a.Tick? || a.token != t
    ensures t in Step(s, a).leases && Step(s, a).leases[t] == s.leases[t] && Step(s, a).slot == s.slot
  {
  }

  /** The run releases no lock of `token`, and ends before the lease in the store does. */
  predicate WithinLease(s: State, actions: seq<Action>, token: Token)
    decreases |actions|
  {
    actions != [] ==>
      && actions[0] != Release(token)
      && (actions[0].Tick? ==> s.slot.Some? && s.now + actions[0].ms < s.slot.value.expires)
      && WithinLease(Step(s, actions[0]), actions[1..], token)
  }

  predicate AcquiresAgain(actions: seq<Action>, token: Token) {
    exists a <- actions :: a.Poll? && a.token == token
  }

  lemma {:induction false} OwnerRemembers(s: State, actions: seq<Action>, t: Token)
    requires Owner(s.slot, s.now) == Some(t) && WithinLease(s, actions, t)
    ensures var e := Exec(s, actions); Owner(e.slot, e.now) == Some(t)
    ensures t in Exec(s, actions).leases <==> t in s.leases && !AcquiresAgain(actions, t)
    decreases |actions|
  {
    if actions != [] {
      var a, rest := actions[0], actions[1..];
      OwnerRemembers(Step(s, a), rest, t);
      assert actions == [a] + rest;
    }
  }

  /**
   * In any run within its lease, a holder that calls `acquire` again is refused and forgets its lease: at the end its
   * release does nothing, and the key stays until it expires. The release frees the key exactly if that has not been.
   */
  lemma {:induction false} SecondAcquireForgets(s: State, actions: seq<Action>, t: Token)
    requires Fenced(s) && s.Holds(t) && WithinLease(s, actions, t)
    ensures var e := Exec(s, actions); Owner(e.slot, e.now) == Some(t)
    ensures var e := Exec(s, actions);
      Owner(Step(e, Release(t)).slot, e.now) == if AcquiresAgain(actions, t) then Some(t) else None
  {
    assert s.slot == Some(Lease(t, s.leases[t]));
    OwnerRemembers(s, actions, t);
  }

  /** A failing input: acquired, acquired again and released at one instant, the lock is still held. */
  lemma {:induction false} AcquiredTwiceStaysHeld(now: int, t: Token)
    ensures var e := Exec(State(now, None, map[]), [Poll(t, 5), Poll(t, 5), Release(t)]);
      Owner(e.slot, now) == Some(t)
  {
    var actions := [Poll(t, 5), Poll(t, 5), Release(t)];
    var s0 := State(now, None, map[]);
    var s1 := Step(s0, actions[0]);
    var s2 := Step(s1, actions[1]);
    var s3 := Step(s2, actions[2]);
    assert actions[1..][1..] == [actions[2]] && [actions[2]][1..] == [];
    assert Exec(s3, []) == s3 && Exec(s2, [actions[2]]) == s3;
    assert Exec(s1, actions[1..]) == s3 && Exec(s0, actions) == s3;
  }
}
