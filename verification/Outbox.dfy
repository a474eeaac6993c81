/** Outbox events and the operations of one transaction on them (outbox.py, models/outbox.py). */
module Outbox {
  import opened Wrappers
  import opened Text

  type Id = nat
  type Token = nat

  datatype Status = Pending | Processing | Published | Dead

  /** Times are in microseconds. */
  datatype Row = Row(
    status: Status, attempts: int, availableAt: int, createdAt: int, lockedAt: Option<int>, lockedBy: Option<string>,
    token: Option<Token>, publishedAt: Option<int>, lastError: Option<string>, version: int)
  {
    predicate Terminal() { status == Published || status == Dead }

    /** The table's check constraints. */
    predicate Constrained() { attempts >= 0 && (status == Processing <==> token.Some?) }

    /** Leased under `token`: the condition under which `complete` and `fail` find the event. */
    predicate Leased(t: Token) { status == Processing && token == Some(t) }
  }

  type Table = map<Id, Row>

  datatype OutboxError = EmptyWorker | BatchOutOfRange | StaleNotPositive | NotPositive | LeaseLost

  // ---------------------------------------------------------------- what each operation makes of a row

  const SECOND := 1_000_000

  function Enqueued(now: int, availableAt: Option<int>): Row {
    Row(Pending, 0, if availableAt.Some? then availableAt.value else now, now, None, None, None, None, None, 1)
  }

  function Claimed(row: Row, worker: string, token: Token, now: int): Row {
    row.(status := Processing, lockedAt := Some(now), lockedBy := Some(worker), token := Some(token),
         attempts := row.attempts + 1, version := row.version + 1)
  }

  function Completed(row: Row, at: int): Row {
    row.(status := Published, publishedAt := Some(at), lockedAt := None, lockedBy := None, token := None,
         lastError := None, version := row.version + 1)
  }

  function Power2(n: nat): int { if n == 0 then 1 else 2 * Power2(n - 1) }

  /** Seconds until the next attempt. */
  function Delay(attempts: int, base: int): int {
    var delay := base * Power2(if attempts - 1 > 0 then attempts - 1 else 0);
    if delay < 3600 then delay else 3600
  }

  function Truncated(error: string): string { if |error| <= 8000 then error else error[..8000] }

  /** `mark_outbox_failed`, before the version it is saved under. */
  function Marked(row: Row, error: string, max: int, base: int, now: int): Row {
    var freed := row.(lastError := Some(Truncated(error)), lockedAt := None, lockedBy := None, token := None);
    if row.attempts >= max then freed.(status := Dead)
    else freed.(status := Pending, availableAt := now + Delay(row.attempts, base) * SECOND)
  }

  function Failed(row: Row, error: string, max: int, base: int, now: int): Row {
    Marked(row, error, max, base, now).(version := row.version + 1)
  }

  // ---------------------------------------------------------------- claiming

  /** The claim statement's WHERE clause. */
  predicate Claimable(row: Row, now: int, staleAfter: int) {
    && row.availableAt <= now
    && (|| row.status == Pending
        || (row.status == Processing && (row.lockedAt.None? || row.lockedAt.value < now - staleAfter)))
  }

  /** The claim statement's ORDER BY. */
  predicate NoLater(a: Row, b: Row) {
    a.availableAt < b.availableAt || (a.availableAt == b.availableAt && a.createdAt <= b.createdAt)
  }

  /** The rows the claim may take: due, and not locked by another transaction. */
  function Candidates(table: Table, locked: set<Id>, now: int, staleAfter: int): set<Id> {
    set id <- table | id !in locked && Claimable(table[id], now, staleAfter)
  }

  /** `ids` is a result of the claim's SELECT: the first `batch` candidates in some order that ORDER BY allows. */
  ghost predicate Selected(table: Table, locked: set<Id>, now: int, staleAfter: int, batch: nat, ids: seq<Id>) {
    var candidates := Candidates(table, locked, now, staleAfter);
    && (forall i :: 0 <= i < |ids| ==> ids[i] in candidates)
    && (forall i, j :: 0 <= i < j < |ids| ==> ids[i] != ids[j] && NoLater(table[ids[i]], table[ids[j]]))
    && |ids| == (if |candidates| <= batch then |candidates| else batch)
    && (forall i, c :: 0 <= i < |ids| && c in candidates && c !in ids ==> NoLater(table[ids[i]], table[c]))
  }

  function ClaimAll(table: Table, ids: set<Id>, tokens: map<Id, Token>, worker: string, now: int): Table
    requires ids <= table.Keys && ids <= tokens.Keys
  {
    table + map id | id in ids :: Claimed(table[id], worker, tokens[id], now)
  }

  function IdSet(ids: seq<Id>): set<Id> { set id <- ids }

  lemma {:induction false} ClaimedTable(
    before: Table, after: Table, ids: seq<Id>, tokens: map<Id, Token>, worker: string, now: int)
    requires forall id <- ids :: id in before && id in tokens
    requires after.Keys == before.Keys
    requires forall i :: 0 <= i < |ids| ==> after[ids[i]] == Claimed(before[ids[i]], worker, tokens[ids[i]], now)
    requires forall id <- before :: id !in ids ==> after[id] == before[id]
    ensures IdSet(ids) <= before.Keys && IdSet(ids) <= tokens.Keys
    ensures after == ClaimAll(before, IdSet(ids), tokens, worker, now)
  {
  }

  function ClaimOptions(worker: string, batch: int, staleAfter: int): Option<OutboxError> {
    if Blank(worker) then Some(EmptyWorker)
    else if !(1 <= batch <= 1000) then Some(BatchOutOfRange)
    else if staleAfter <= 0 then Some(StaleNotPositive)
    else None
  }

  // ---------------------------------------------------------------- event objects

  /** A loaded event; changing it reaches the table when the session is flushed. */
  class OutboxEvent {
    const id: Id
    const createdAt: int
    const publishedAt: Option<int>
    const version: int
    var status: Status
    var attempts: int
    var availableAt: int
    var lockedAt: Option<int>
    var lockedBy: Option<string>
    var token: Option<Token>
    var lastError: Option<string>

    constructor (id: Id, row: Row)
      ensures this.id == id && Contents() == row && version == row.version
    {
      this.id, createdAt, publishedAt, version := id, row.createdAt, row.publishedAt, row.version;
      status, attempts, availableAt := row.status, row.attempts, row.availableAt;
      lockedAt, lockedBy, token, lastError := row.lockedAt, row.lockedBy, row.token, row.lastError;
    }

    function Contents(): Row
      reads this
    {
      Row(status, attempts, availableAt, createdAt, lockedAt, lockedBy, token, publishedAt, lastError, version)
    }

    /** What a flush writes: the changed fields under the next version. */
    function Flushed(): Row
      reads this
    {
      Contents().(version := version + 1)
    }

    /** The body of the claim loop. */
    method Claim(worker: string, token: Token, now: int)
      modifies this
      ensures Flushed() == Claimed(old(Contents()), worker, token, now)
    {
      status := Processing;
      lockedAt := Some(now);
      lockedBy := Some(worker);
      this.token := Some(token);
      attempts := attempts + 1;
    }

    /** `mark_outbox_failed`. */
    method MarkFailed(error: string, max: int, base: int, now: int) returns (r: Result<(), OutboxError>)
      modifies this
      ensures r == if max <= 0 || base <= 0 then Failure(NotPositive) else Success(())
      ensures Contents() == if r.Failure? then old(Contents()) else Marked(old(Contents()), error, max, base, now)
    {
      if max <= 0 {
        return Failure(NotPositive);
      }
      if base <= 0 {
        return Failure(NotPositive);
      }
      lastError := Some(Truncated(error));
      lockedAt, lockedBy, token := None, None, None;
      if attempts >= max {
        status := Dead;
        return Success(());
      }
      var delay := Delay(attempts, base);
      status := Pending;
      availableAt := now + delay * SECOND;
      return Success(());
    }
  }

  /** The events as one transaction sees them. */
  class OutboxSession {
    var table: Table

    constructor (table: Table)
      ensures this.table == table
    {
      this.table := table;
    }

    /** Loads one object per selected row. */
    method Load(ids: seq<Id>) returns (events: seq<OutboxEvent>)
      requires forall i :: 0 <= i < |ids| ==> ids[i] in table
      requires forall i, j :: 0 <= i < j < |ids| ==> ids[i] != ids[j]
      ensures |events| == |ids|
      ensures forall i :: 0 <= i < |ids| ==>
        fresh(events[i]) && events[i].id == ids[i] && events[i].Contents() == table[ids[i]]
    {
      events := [];
      for i := 0 to |ids|
        invariant |events| == i
        invariant forall k :: 0 <= k < i ==>
          fresh(events[k]) && events[k].id == ids[k] && events[k].Contents() == table[ids[k]]
      {
        var event := new OutboxEvent(ids[i], table[ids[i]]);
        events := events + [event];
      }
    }

    /** Writes the changed events, those of the rows `ids`, back. */
    method Flush(events: seq<OutboxEvent>, ghost ids: seq<Id>)
      requires |ids| == |events| && forall i :: 0 <= i < |ids| ==> events[i].id == ids[i]
      requires forall i, j :: 0 <= i < j < |ids| ==> ids[i] != ids[j]
      requires forall id <- ids :: id in table
      modifies this
      ensures table.Keys == old(table).Keys
      ensures forall i :: 0 <= i < |ids| ==> table[ids[i]] == events[i].Flushed()
      ensures forall id <- table :: id !in ids ==> table[id] == old(table)[id]
    {
      for i := 0 to |events|
        invariant table.Keys == old(table).Keys
        invariant forall k :: 0 <= k < i ==> table[ids[k]] == events[k].Flushed()
        invariant forall id <- table :: id !in ids ==> table[id] == old(table)[id]
      {
        assert ids[i] in table;
        table := table[events[i].id := events[i].Flushed()];
      }
    }

    /** The claim loop. */
    method ClaimEach(events: seq<OutboxEvent>, worker: string, tokens: map<Id, Token>, now: int)
      requires forall i, j :: 0 <= i < j < |events| ==> events[i] != events[j]
      requires forall i :: 0 <= i < |events| ==> events[i].id in tokens
      modifies events
      ensures forall i :: 0 <= i < |events| ==>
        events[i].Flushed() == Claimed(old(events[i].Contents()), worker, tokens[events[i].id], now)
    {
      for i := 0 to |events|
        invariant forall k :: 0 <= k < i ==>
          events[k].Flushed() == Claimed(old(events[k].Contents()), worker, tokens[events[k].id], now)
        invariant forall k :: i <= k < |events| ==> events[k].Contents() == old(events[k].Contents())
      {
        events[i].Claim(worker, tokens[events[i].id], now);
      }
    }

    /** `claim_outbox_events`; `selected` is what the database returned and `tokens` the identifiers drawn. */
    method Claim(worker: string, batch: int, staleAfter: int, now: int, ghost locked: set<Id>,
                 selected: seq<Id>, tokens: map<Id, Token>) returns (r: Result<seq<OutboxEvent>, OutboxError>)
      requires ClaimOptions(worker, batch, staleAfter).None? ==>
        Selected(table, locked, now, staleAfter, batch, selected) && forall id <- selected :: id in tokens
      modifies this
      ensures ClaimOptions(worker, batch, staleAfter).Some? ==>
        r == Failure(ClaimOptions(worker, batch, staleAfter).value) && table == old(table)
      ensures ClaimOptions(worker, batch, staleAfter).None? ==>
        && r.Success? && |r.value| == |selected|
        && (forall i :: 0 <= i < |selected| ==> r.value[i].id == selected[i])
        && (forall id <- selected :: id in old(table))
        && table == ClaimAll(old(table), IdSet(selected), tokens, worker, now)
        && (forall i :: 0 <= i < |selected| ==> r.value[i].Flushed() == table[selected[i]])
    {
      var invalid := ClaimOptions(worker, batch, staleAfter);
      if invalid.Some? {
        return Failure(invalid.value);
      }
      var events := ClaimSelected(worker, now, selected, tokens);
      return Success(events);
    }

    method ClaimSelected(worker: string, now: int, selected: seq<Id>, tokens: map<Id, Token>)
      returns (events: seq<OutboxEvent>)
      requires forall id <- selected :: id in table && id in tokens
      requires forall i, j :: 0 <= i < j < |selected| ==> selected[i] != selected[j]
      modifies this
      ensures |events| == |selected| && forall i :: 0 <= i < |selected| ==> events[i].id == selected[i]
      ensures table == ClaimAll(old(table), IdSet(selected), tokens, worker, now)
      ensures forall i :: 0 <= i < |selected| ==> selected[i] in table && events[i].Flushed() == table[selected[i]]
    {
      events := Load(selected);
      ghost var before := table;
      ClaimEach(events, worker, tokens, now);
      Flush(events, selected);
      ClaimedTable(before, table, selected, tokens, worker, now);
    }

    /** `complete_outbox_event`: one conditional UPDATE. */
    method Complete(id: Id, token: Token, at: int) returns (r: Result<(), OutboxError>)
      modifies this
      ensures r.Success? <==> id in old(table) && old(table)[id].Leased(token)
      ensures r.Failure? ==> r.error == LeaseLost
      ensures table == if r.Success? then old(table)[id := Completed(old(table)[id], at)] else old(table)
    {
      var rowCount := 0;
      if id in table && table[id].Leased(token) {
        table := table[id := Completed(table[id], at)];
        rowCount := 1;
      }
      if rowCount != 1 {
        return Failure(LeaseLost);
      }
      return Success(());
    }

    /** `fail_outbox_event`: selects the leased event, marks it and flushes. */
    method Fail(id: Id, token: Token, error: string, max: int, base: int, now: int) returns (r: Result<(), OutboxError>)
      modifies this
      ensures !(id in old(table) && old(table)[id].Leased(token)) ==> r == Failure(LeaseLost)
      ensures id in old(table) && old(table)[id].Leased(token) ==>
        r == if max <= 0 || base <= 0 then Failure(NotPositive) else Success(())
      ensures table ==
        if r.Success? then old(table)[id := Failed(old(table)[id], error, max, base, now)] else old(table)
    {
      if id !in table || !table[id].Leased(token) {
        return Failure(LeaseLost);
      }
      var event := new OutboxEvent(id, table[id]);
      var marked := event.MarkFailed(error, max, base, now);
      if marked.Failure? {
        return Failure(marked.error);
      }
      Flush([event], [id]);
      assert table == old(table)[id := Failed(old(table)[id], error, max, base, now)];
      return Success(());
    }
  }

  // ---------------------------------------------------------------- backoff

  lemma {:induction false} Power2Monotone(m: nat, n: nat)
    requires m <= n
    ensures 1 <= Power2(m) <= Power2(n)
    decreases m + n
  {
    if m < n {
      Power2Monotone(m, n - 1);
    } else if m > 0 {
      Power2Monotone(m - 1, n - 1);
    }
  }

  lemma {:induction false} ScaleMonotone(base: int, a: int, b: int)
    requires base >= 1 && 1 <= a <= b
    ensures base <= base * a <= base * b
  {
  }

  /** The backoff never shrinks as attempts grow, and stays between the base, if that is under an hour, and an hour. */
  lemma {:induction false} BackoffBounds(base: int, fewer: int, more: int)
    requires base > 0 && fewer <= more
    ensures Delay(fewer, base) <= Delay(more, base)
    ensures (if base < 3600 then base else 3600) <= Delay(fewer, base) <= 3600
  {
    var m := if fewer - 1 > 0 then fewer - 1 else 0;
    var n := if more - 1 > 0 then more - 1 else 0;
    Power2Monotone(m, n);
    ScaleMonotone(base, Power2(m), Power2(n));
  }

  /** The first two attempts wait the base delay; each later one waits twice as long, until the hour is reached. */
  lemma {:induction false} BackoffDoubles(base: int, attempts: int)
    requires base > 0 && attempts >= 1
    ensures Delay(1, base) == Delay(0, base)
    ensures Delay(attempts + 1, base) == if 2 * Delay(attempts, base) < 3600 then 2 * Delay(attempts, base) else 3600
  {
    Power2Monotone(0, attempts - 1);
    assert Power2(attempts) == 2 * Power2(attempts - 1);
    DoubleProduct(base, Power2(attempts - 1));
  }

  lemma {:induction false} DoubleProduct(a: int, b: int)
    ensures a * (2 * b) == 2 * (a * b)
  {
  }

  // ---------------------------------------------------------------- every live event comes due

  /** The instant an event comes due. */
  function DueAt(row: Row, staleAfter: int): int {
    if row.status == Processing && row.lockedAt.Some? && row.lockedAt.value + staleAfter + 1 > row.availableAt
    then row.lockedAt.value + staleAfter + 1
    else row.availableAt
  }

  /** A claim accepts an unfinished event from exactly that instant on, and a finished one never. */
  lemma {:induction false} ClaimableFromDue(row: Row, now: int, staleAfter: int)
    ensures Claimable(row, now, staleAfter) <==> !row.Terminal() && DueAt(row, staleAfter) <= now
  {
  }

  /** A batch no smaller than the number of candidates takes them all. */
  lemma {:induction false} LargeBatchTakesAll(
    table: Table, locked: set<Id>, now: int, staleAfter: int, batch: nat, ids: seq<Id>, id: Id)
    requires Selected(table, locked, now, staleAfter, batch, ids)
    requires |Candidates(table, locked, now, staleAfter)| <= batch
    requires id in table && id !in locked && !table[id].Terminal() && DueAt(table[id], staleAfter) <= now
    ensures id in ids
  {
    var candidates := Candidates(table, locked, now, staleAfter);
    ClaimableFromDue(table[id], now, staleAfter);
    DistinctCovers(candidates, ids);
  }

  lemma {:induction false} DistinctCovers(whole: set<Id>, ids: seq<Id>)
    requires forall i :: 0 <= i < |ids| ==> ids[i] in whole
    requires forall i, j :: 0 <= i < j < |ids| ==> ids[i] != ids[j]
    requires |ids| == |whole|
    ensures forall id <- whole :: id in ids
    decreases |ids|
  {
    if ids != [] {
      var rest := ids[1..];
      DistinctCovers(whole - {ids[0]}, rest);
      assert forall id <- whole :: id == ids[0] || id in whole - {ids[0]};
      assert forall id <- rest :: id in ids;
    }
  }

  // ---------------------------------------------------------------- metrics

  datatype Metrics = Metrics(pending: nat, processing: nat, published: nat, dead: nat, oldestAge: Option<int>)

  function WithStatus(table: Table, status: Status): set<Id> {
    set id <- table | table[id].status == status
  }

  /** Grouped by status, the counts add up to the rows of the table. */
  lemma {:induction false} CountsAddUp(table: Table)
    ensures |WithStatus(table, Pending)| + |WithStatus(table, Processing)|
          + |WithStatus(table, Published)| + |WithStatus(table, Dead)| == |table|
  {
    var a, b := WithStatus(table, Pending), WithStatus(table, Processing);
    var c, d := WithStatus(table, Published), WithStatus(table, Dead);
    assert a !! b && (a + b) !! c && (a + b + c) !! d;
    assert table.Keys == a + b + c + d;
  }

  ghost predicate IsOldest(table: Table, oldest: Option<int>) {
    var pending := WithStatus(table, Pending);
    match oldest
    case None => pending == {}
    case Some(at) =>
      (exists id <- pending :: table[id].createdAt == at) && forall id <- pending :: at <= table[id].createdAt
  }

  /** `get_outbox_metrics`, from the grouped counts and the minimum the database returns. */
  method GetOutboxMetrics(table: Table, oldest: Option<int>, now: int) returns (m: Metrics)
    requires IsOldest(table, oldest)
    ensures m.pending + m.processing + m.published + m.dead == |table|
    ensures m.pending == |WithStatus(table, Pending)| && m.dead == |WithStatus(table, Dead)|
    ensures m.processing == |WithStatus(table, Processing)| && m.published == |WithStatus(table, Published)|
    ensures m.oldestAge.None? <==> m.pending == 0
    ensures m.oldestAge.Some? ==> m.oldestAge.value >= 0
    ensures m.oldestAge.Some? ==>
      forall id <- WithStatus(table, Pending) :: now - table[id].createdAt <= m.oldestAge.value
  {
    CountsAddUp(table);
    var age := if oldest.None? then None
      else Some(if now - oldest.value > 0 then now - oldest.value else 0);
    m := Metrics(|WithStatus(table, Pending)|, |WithStatus(table, Processing)|, |WithStatus(table, Published)|,
      |WithStatus(table, Dead)|, age);
  }
}
