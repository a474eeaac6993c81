/** The idempotency lease store (redis/idempotency.py): one record per key, in progress or completed. */
module Idempotency {
  import opened Wrappers

  type Token = nat

  /** A completed record carries no token. */
  datatype Record =
    | InProgress(token: Token, fingerprint: string)
    | Completed(fingerprint: string, response: string)

  datatype Entry = Entry(record: Record, expires: int)

  type Records = map<string, Entry>

  /** What `get` finds; a record is gone from the millisecond it expires. */
  function Current(records: Records, key: string, now: int): Option<Record> {
    if key in records && now < records[key].expires then Some(records[key].record) else None
  }

  /** The token whose `begin` holds the key. */
  function Holder(records: Records, key: string, now: int): Option<Token> {
    var current := Current(records, key, now);
    if current.Some? && current.value.InProgress? then Some(current.value.token) else None
  }

  // ---------------------------------------------------------------- the three scripts

  function Put(records: Records, key: string, record: Record, ttl: int, now: int): Records {
    records[key := Entry(record, now + ttl * 1000)]
  }

  function BeginScript(records: Records, key: string, record: Record, ttl: int, now: int): (Records, Record) {
    var existing := Current(records, key, now);
    if existing.Some? then (records, existing.value) else (Put(records, key, record, ttl, now), record)
  }

  function CompleteScript(
    records: Records, key: string, token: Token, fingerprint: string, record: Record, ttl: int, now: int)
    : (Records, int)
  {
    var current := Current(records, key, now);
    if current.None? then (records, 0)
    else if current.value.Completed? || current.value.token != token then (records, -1)
    else if current.value.fingerprint != fingerprint then (records, -1)
    else (Put(records, key, record, ttl, now), 1)
  }

  function ReleaseScript(records: Records, key: string, token: Token, now: int): (Records, int) {
    var current := Current(records, key, now);
    if current.None? then (records, 0)
    else if current.value.Completed? || current.value.token != token then (records, -1)
    else (records - {key}, 1)
  }

  // ---------------------------------------------------------------- the store object

  datatype Begun = Started(token: Token) | Busy | Answered(response: string)

  datatype IdempotencyError = Invalid | Conflict

  class IdempotencyStore {
    var records: Records

    constructor ()
      ensures records == map[]
    {
      records := map[];
    }

    /** `begin`, with the new lease's token and the server's time. */
    method Begin(key: string, fingerprint: string, ttl: int, token: Token, now: int)
      returns (r: Result<Begun, IdempotencyError>)
      requires Holder(records, key, now) != Some(token)
      modifies this
      ensures var existing := Current(old(records), key, now);
        if ttl <= 0 || fingerprint == "" then r == Failure(Invalid) && records == old(records)
        else if existing.None? then
          && r == Success(Started(token))
          && records == old(records)[key := Entry(InProgress(token, fingerprint), now + ttl * 1000)]
        else
          && records == old(records)
          && r == (if existing.value.fingerprint != fingerprint then Failure(Conflict)
                   else if existing.value.Completed? then Success(Answered(existing.value.response))
                   else Success(Busy))
    {
      if ttl <= 0 || fingerprint == "" {
        return Failure(Invalid);
      }
      var (next, existing) := BeginScript(records, key, InProgress(token, fingerprint), ttl, now);
      records := next;
      if existing.InProgress? && existing.token == token {
        return Success(Started(token));
      }
      if existing.fingerprint != fingerprint {
        return Failure(Conflict);
      }
      if existing.Completed? {
        return Success(Answered(existing.response));
      }
      return Success(Busy);
    }

    /** `complete`: only the holder, and only for the request it began. */
    method Complete(key: string, token: Token, fingerprint: string, response: string, ttl: int, now: int)
      returns (r: Result<(), IdempotencyError>)
      modifies this
      ensures var current := Current(old(records), key, now);
        if ttl <= 0 || fingerprint == "" then r == Failure(Invalid) && records == old(records)
        else if current == Some(InProgress(token, fingerprint)) then
          && r == Success(())
          && records == old(records)[key := Entry(Completed(fingerprint, response), now + ttl * 1000)]
        else r == Failure(Conflict) && records == old(records)
    {
      if ttl <= 0 || fingerprint == "" {
        return Failure(Invalid);
      }
      var record := Completed(fingerprint, response);
      var (next, result) := CompleteScript(records, key, token, fingerprint, record, ttl, now);
      records := next;
      if result != 1 {
        return Failure(Conflict);
      }
      return Success(());
    }

    /** `release`: only the holder frees the key. */
    method Release(key: string, token: Token, now: int) returns (released: bool)
      modifies this
      ensures released <==> Holder(old(records), key, now) == Some(token)
      ensures records == if released then old(records) - {key} else old(records)
    {
      var (next, result) := ReleaseScript(records, key, token, now);
      records := next;
      return result == 1;
    }
  }

  // ---------------------------------------------------------------- runs

  /** A call that passed validation, and the server time at which its script ran. */
  datatype Call =
    | Begin(key: string, now: int, token: Token, fingerprint: string, ttl: int)
    | Complete(key: string, now: int, token: Token, fingerprint: string, response: string, ttl: int)
    | Release(key: string, now: int, token: Token)

  datatype Reply = Begins(result: Result<Begun, IdempotencyError>) | Completes(ok: bool) | Releases(ok: bool)

  /** What `begin` makes of the record its script returned. */
  function Interpret(token: Token, fingerprint: string, existing: Record): Result<Begun, IdempotencyError> {
    if existing.InProgress? && existing.token == token then Success(Started(token))
    else if existing.fingerprint != fingerprint then Failure(Conflict)
    else if existing.Completed? then Success(Answered(existing.response))
    else Success(Busy)
  }

  function Step(records: Records, call: Call): (Records, Reply) {
    match call
    case Begin(key, now, token, fingerprint, ttl) =>
      var (next, existing) := BeginScript(records, key, InProgress(token, fingerprint), ttl, now);
      (next, Begins(Interpret(token, fingerprint, existing)))
    case Complete(key, now, token, fingerprint, response, ttl) =>
      var record := Completed(fingerprint, response);
      var (next, result) := CompleteScript(records, key, token, fingerprint, record, ttl, now);
      (next, Completes(result == 1))
    case Release(key, now, token) =>
      var (next, result) := ReleaseScript(records, key, token, now);
      (next, Releases(result == 1))
  }

  function Issue(issued: set<Token>, call: Call): set<Token> {
    if call.Begin? then issued + {call.token} else issued
  }

  /** Calls in clock order; every `begin` draws a token never issued before. */
  predicate Legal(issued: set<Token>, now: int, calls: seq<Call>)
    decreases |calls|
  {
    calls != [] ==>
    && now <= calls[0].now
    && (!calls[0].Release? ==> calls[0].ttl > 0 && calls[0].fingerprint != "")
    && (calls[0].Begin? ==> calls[0].token !in issued)
    && Legal(Issue(issued, calls[0]), calls[0].now, calls[1..])
  }

  function Exec(records: Records, calls: seq<Call>): Records
    decreases |calls|
  {
    if calls == [] then records else Exec(Step(records, calls[0]).0, calls[1..])
  }

  function Replies(records: Records, calls: seq<Call>): (replies: seq<Reply>)
    ensures |replies| == |calls|
    decreases |calls|
  {
    if calls == [] then [] else
      var (next, reply) := Step(records, calls[0]);
      [reply] + Replies(next, calls[1..])
  }

  /** Every recorded token was issued, and no two keys record the same one. */
  predicate Tracked(records: Records, issued: set<Token>) {
    && (forall k <- records :: records[k].record.InProgress? ==> records[k].record.token in issued)
    && (forall j <- records, k <- records | records[j].record.InProgress? && records[k].record.InProgress? ::
          records[j].record.token == records[k].record.token ==> j == k)
  }

  /** The call succeeds in ending the lease of `token`. */
  predicate Ends(records: Records, call: Call, token: Token) {
    !call.Begin? && call.token == token && Step(records, call).1.ok
  }

  lemma {:induction false} StepTracked(records: Records, call: Call, issued: set<Token>)
    requires Tracked(records, issued) && (call.Begin? ==> call.token !in issued)
    ensures Tracked(Step(records, call).0, Issue(issued, call))
  {
  }

  lemma {:induction false} RunsStayTracked(records: Records, calls: seq<Call>, issued: set<Token>, now: int)
    returns (after: set<Token>)
    requires Tracked(records, issued) && Legal(issued, now, calls)
    ensures Tracked(Exec(records, calls), after)
    ensures issued <= after
    ensures forall i :: 0 <= i < |calls| && calls[i].Begin? ==> calls[i].token in after
    decreases |calls|
  {
    after := issued;
    if calls != [] {
      StepTracked(records, calls[0], issued);
      after := RunsStayTracked(Step(records, calls[0]).0, calls[1..], Issue(issued, calls[0]), calls[0].now);
      assert forall i :: 0 < i < |calls| ==> calls[i] == calls[1..][i - 1];
    }
  }

  // ---------------------------------------------------------------- the lease excludes

  /**
   * From a `started` until its record expires, as long as its own holder neither completes nor releases it: the
   * record stays as it was, and no other `begin` is started, nor any other token's `complete` or `release` obeyed.
   */
  lemma {:induction false} LeaseExcludes(records: Records, key: string, calls: seq<Call>, issued: set<Token>, now: int)
    requires Tracked(records, issued) && Legal(issued, now, calls)
    requires key in records && records[key].record.InProgress?
    requires forall i :: 0 <= i < |calls| ==> calls[i].now < records[key].expires
    requires forall i :: 0 <= i < |calls| && calls[i].key == key && !calls[i].Begin? ==>
               calls[i].token != records[key].record.token
    ensures key in Exec(records, calls) && Exec(records, calls)[key] == records[key]
    ensures forall i :: 0 <= i < |calls| && calls[i].key == key ==>
              var held := records[key].record;
              Replies(records, calls)[i] ==
                match calls[i]
                case Begin(_, _, _, fingerprint, _) =>
                  Begins(if fingerprint == held.fingerprint then Success(Busy) else Failure(Conflict))
                case Complete(_, _, _, _, _, _) => Completes(false)
                case Release(_, _, _) => Releases(false)
    decreases |calls|
  {
    if calls != [] {
      var next := Step(records, calls[0]).0;
      StepTracked(records, calls[0], issued);
      assert key in next && next[key] == records[key];
      assert forall i :: 0 <= i < |calls[1..]| ==> calls[1..][i] == calls[i + 1];
      LeaseExcludes(next, key, calls[1..], Issue(issued, calls[0]), calls[0].now);
      assert Replies(records, calls)[1..] == Replies(next, calls[1..]);
    }
  }

  /** A `begin` is started exactly when nothing live is recorded, and then it holds the key. */
  lemma {:induction false} StartedIffVacant(records: Records, call: Call, issued: set<Token>)
    requires Tracked(records, issued) && call.Begin? && call.token !in issued && call.ttl > 0
    ensures Step(records, call).1 == Begins(Success(Started(call.token)))
       <==> Current(records, call.key, call.now).None?
    ensures Current(records, call.key, call.now).None? ==>
              Holder(Step(records, call).0, call.key, call.now) == Some(call.token)
  {
  }

  // ---------------------------------------------------------------- a lost lease stays lost

  /** An issued token whose lease is no longer live under any key. */
  ghost predicate Retired(records: Records, issued: set<Token>, token: Token, now: int) {
    token in issued && forall k :: Holder(records, k, now) != Some(token)
  }

  lemma {:induction false} StaysRetired(records: Records, call: Call, issued: set<Token>, token: Token, now: int)
    requires Retired(records, issued, token, now) && now <= call.now
    requires call.Begin? ==> call.token !in issued
    ensures Retired(Step(records, call).0, Issue(issued, call), token, call.now)
    ensures !Ends(records, call, token)
  {
    var next := Step(records, call).0;
    forall k
      ensures Holder(next, k, call.now) != Some(token)
    {
      assert Holder(records, k, now) != Some(token);
    }
    assert Holder(records, call.key, now) != Some(token);
  }

  /** A lease lost to expiry, completion or release can end no later record: all its calls are refused. */
  lemma {:induction false} RetiredForGood(
    records: Records, calls: seq<Call>, issued: set<Token>, token: Token, now: int)
    requires Legal(issued, now, calls) && Retired(records, issued, token, now)
    ensures forall i :: 0 <= i < |calls| && !calls[i].Begin? && calls[i].token == token ==>
              Replies(records, calls)[i] == if calls[i].Complete? then Completes(false) else Releases(false)
    decreases |calls|
  {
    if calls != [] {
      var next := Step(records, calls[0]).0;
      StaysRetired(records, calls[0], issued, token, now);
      RetiredForGood(next, calls[1..], Issue(issued, calls[0]), token, calls[0].now);
      assert forall i :: 0 < i < |calls| ==> calls[i] == calls[1..][i - 1];
      assert forall i :: 0 < i < |calls| ==> Replies(records, calls)[i] == Replies(next, calls[1..])[i - 1];
    }
  }

  /** How many calls end the lease of `token`. */
  function Endings(records: Records, calls: seq<Call>, token: Token): nat
    decreases |calls|
  {
    if calls == [] then 0 else
      (if Ends(records, calls[0], token) then 1 else 0) + Endings(Step(records, calls[0]).0, calls[1..], token)
  }

  lemma {:induction false} RetiredNeverEnds(
    records: Records, calls: seq<Call>, issued: set<Token>, token: Token, now: int)
    requires Legal(issued, now, calls) && Retired(records, issued, token, now)
    ensures Endings(records, calls, token) == 0
    decreases |calls|
  {
    if calls != [] {
      StaysRetired(records, calls[0], issued, token, now);
      RetiredNeverEnds(Step(records, calls[0]).0, calls[1..], Issue(issued, calls[0]), token, calls[0].now);
    }
  }

  lemma {:induction false} EndingRetires(records: Records, call: Call, issued: set<Token>, token: Token)
    requires Tracked(records, issued) && Ends(records, call, token)
    ensures Retired(Step(records, call).0, Issue(issued, call), token, call.now)
  {
    var next := Step(records, call).0;
    forall k
      ensures Holder(next, k, call.now) != Some(token)
    {
    }
  }

  /** Over a whole run, one issued token ends at most one lease: it completes once, or releases once, never both. */
  lemma {:induction false} TokenEndsOnce(records: Records, calls: seq<Call>, issued: set<Token>, token: Token, now: int)
    requires Tracked(records, issued) && Legal(issued, now, calls)
    ensures Endings(records, calls, token) <= 1
    decreases |calls|
  {
    if calls != [] {
      var next := Step(records, calls[0]).0;
      StepTracked(records, calls[0], issued);
      if Ends(records, calls[0], token) {
        EndingRetires(records, calls[0], issued, token);
        RetiredNeverEnds(next, calls[1..], Issue(issued, calls[0]), token, calls[0].now);
      } else {
        TokenEndsOnce(next, calls[1..], Issue(issued, calls[0]), token, calls[0].now);
      }
    }
  }

  // ---------------------------------------------------------------- a completed answer stays

  /**
   * Until its TTL ends, a completed record is changed by nothing: every `begin` of the same request is given the
   * stored response, every other request is refused, and no `complete` or `release` succeeds on the key.
   */
  lemma {:induction false} CompletedStays(records: Records, key: string, calls: seq<Call>)
    requires key in records && records[key].record.Completed?
    requires forall i :: 0 <= i < |calls| ==> calls[i].now < records[key].expires
    ensures key in Exec(records, calls) && Exec(records, calls)[key] == records[key]
    ensures forall i :: 0 <= i < |calls| && calls[i].key == key ==>
              var done := records[key].record;
              Replies(records, calls)[i] ==
                match calls[i]
                case Begin(_, _, _, fingerprint, _) =>
                  Begins(if fingerprint == done.fingerprint then Success(Answered(done.response))
                         else Failure(Conflict))
                case Complete(_, _, _, _, _, _) => Completes(false)
                case Release(_, _, _) => Releases(false)
    decreases |calls|
  {
    if calls != [] {
      var next := Step(records, calls[0]).0;
      assert key in next && next[key] == records[key];
      assert forall i :: 0 <= i < |calls[1..]| ==> calls[1..][i] == calls[i + 1];
      CompletedStays(next, key, calls[1..]);
      assert Replies(records, calls)[1..] == Replies(next, calls[1..]);
    }
  }

  // ---------------------------------------------------------------- one start per request

  /** How many `begin` calls on the key were told to start the work. */
  function Starts(records: Records, calls: seq<Call>, key: string): nat
    decreases |calls|
  {
    if calls == [] then 0 else
      var (next, reply) := Step(records, calls[0]);
      (if calls[0].key == key && reply.Begins? && reply.result.Success? && reply.result.value.Started? then 1 else 0)
      + Starts(next, calls[1..], key)
  }

  /** Every record written by the run, and any there was, outlives `end`, and nobody releases the key. */
  predicate Lasting(calls: seq<Call>, key: string, end: int) {
    forall i :: 0 <= i < |calls| && calls[i].key == key ==>
      calls[i].now < end && !calls[i].Release? && calls[i].now + calls[i].ttl * 1000 >= end
  }

  lemma {:induction false} OccupiedNeverStarts(
    records: Records, calls: seq<Call>, key: string, issued: set<Token>, now: int, end: int)
    requires Tracked(records, issued) && Legal(issued, now, calls) && Lasting(calls, key, end)
    requires key in records && records[key].expires >= end
    ensures Starts(records, calls, key) == 0
    decreases |calls|
  {
    if calls != [] {
      var next := Step(records, calls[0]).0;
      StepTracked(records, calls[0], issued);
      assert forall i :: 0 <= i < |calls[1..]| ==> calls[1..][i] == calls[i + 1];
      OccupiedNeverStarts(next, calls[1..], key, Issue(issued, calls[0]), calls[0].now, end);
    }
  }

  /** While no record of the key expires or is released, one `begin` at most is told to do the work. */
  lemma {:induction false} OneStart(
    records: Records, calls: seq<Call>, key: string, issued: set<Token>, now: int, end: int)
    requires Tracked(records, issued) && Legal(issued, now, calls) && Lasting(calls, key, end)
    requires key !in records
    ensures Starts(records, calls, key) <= 1
    ensures (exists i :: 0 <= i < |calls| && calls[i].key == key && calls[i].Begin?) ==>
      Starts(records, calls, key) == 1
    decreases |calls|
  {
    if calls != [] {
      var next := Step(records, calls[0]).0;
      StepTracked(records, calls[0], issued);
      assert forall i :: 0 <= i < |calls[1..]| ==> calls[1..][i] == calls[i + 1];
      if key in next {
        OccupiedNeverStarts(next, calls[1..], key, Issue(issued, calls[0]), calls[0].now, end);
      } else {
        OneStart(next, calls[1..], key, Issue(issued, calls[0]), calls[0].now, end);
      }
    }
  }
}
