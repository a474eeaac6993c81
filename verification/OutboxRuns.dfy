/** Any number of workers and producers on one outbox table: interleaved transactions that commit or roll back. */
module OutboxRuns {
  import opened Wrappers
  import opened Outbox

  type TxId = nat

  /** A row, and the leases under which it has been failed or published; the history has no columns of its own. */
  datatype Event = Event(row: Row, failedUnder: seq<Token>, publishedUnder: Option<Token>)

  /** What an open transaction has written, and so locked, and which of it is new. */
  datatype Txn = Txn(writes: map<Id, Event>, enqueued: set<Id>)

  datatype State = State(
    committed: map<Id, Event>, txns: map<TxId, Txn>, now: int, issuedTo: map<Token, Id>, enqueued: set<Id>)
  {
    function Open(tx: TxId): Txn {
      if tx in txns then txns[tx] else Txn(map[], {})
    }

    function View(tx: TxId): map<Id, Event> {
      committed + Open(tx).writes
    }

    function LockedByOthers(tx: TxId): set<Id> {
      set t <- txns, id <- txns[t].writes | t != tx :: id
    }

    predicate Leased(tx: TxId, id: Id, token: Token) {
      id in View(tx) && View(tx)[id].row.Leased(token)
    }

    /** The state once `tx` has also written `updates`, of which the rows `added` did not exist. */
    function Write(tx: TxId, updates: map<Id, Event>, added: set<Id>): State {
      this.(txns := txns[tx := Txn(Open(tx).writes + updates, Open(tx).enqueued + added)])
    }
  }

  function Rows(events: map<Id, Event>): Table {
    map id <- events :: events[id].row
  }

  /** Complete and Fail carry the event and token a worker was given. */
  datatype Action =
    | Enqueue(tx: TxId, id: Id, availableAt: Option<int>)
    | Claim(tx: TxId, worker: string, batch: int, staleAfter: int, ids: seq<Id>, tokens: map<Id, Token>)
    | Complete(tx: TxId, id: Id, token: Token, at: int)
    | Fail(tx: TxId, id: Id, token: Token, error: string, base: int)
    | Commit(tx: TxId)
    | Rollback(tx: TxId)
    | Tick(elapsed: nat)

  /** Identifiers and tokens are fresh, a claim skips locked rows, and an update waits for the row's lock. */
  ghost predicate Enabled(s: State, a: Action) {
    match a
    case Enqueue(tx, id, _) => id !in s.committed && id !in s.LockedByOthers(tx) && id !in s.Open(tx).writes
    case Claim(tx, worker, batch, staleAfter, ids, tokens) =>
      && ClaimOptions(worker, batch, staleAfter).None?
      && Selected(Rows(s.View(tx)), s.LockedByOthers(tx), s.now, staleAfter, batch, ids)
      && tokens.Keys == IdSet(ids)
      && (forall id <- tokens :: tokens[id] !in s.issuedTo)
      && (forall i <- tokens, j <- tokens :: tokens[i] == tokens[j] ==> i == j)
    case Complete(tx, id, token, _) => s.Leased(tx, id, token) ==> id !in s.LockedByOthers(tx)
    case Fail(tx, id, token, _, base) => (s.Leased(tx, id, token) ==> id !in s.LockedByOthers(tx)) && base > 0
    case Commit(tx) => tx in s.txns
    case Rollback(tx) => true
    case Tick(_) => true
  }

  /** The updates of a claim. */
  ghost function ClaimUpdates(s: State, a: Action): map<Id, Event>
    requires a.Claim? && Enabled(s, a)
  {
    map id | id in a.tokens ::
      s.View(a.tx)[id].(row := Claimed(s.View(a.tx)[id].row, a.worker, a.tokens[id], s.now))
  }

  ghost function IssuedBy(s: State, a: Action): map<Token, Id>
    requires a.Claim? && Enabled(s, a)
  {
    s.issuedTo + map id <- a.tokens :: a.tokens[id] := id
  }

  /** The update of a `complete` or `fail` that finds its lease. */
  ghost function Finished(s: State, a: Action, max: int): Event
    requires (a.Complete? || a.Fail?) && s.Leased(a.tx, a.id, a.token)
  {
    var e := s.View(a.tx)[a.id];
    if a.Complete? then e.(row := Completed(e.row, a.at), publishedUnder := Some(a.token))
    else e.(row := Failed(e.row, a.error, max, a.base, s.now), failedUnder := e.failedUnder + [a.token])
  }

  ghost function Step(s: State, a: Action, max: int): State
    requires Enabled(s, a)
  {
    match a
    case Enqueue(tx, id, availableAt) =>
      s.Write(tx, map[id := Event(Enqueued(s.now, availableAt), [], None)], {id})
    case Claim(tx, _, _, _, _, tokens) =>
      s.(issuedTo := IssuedBy(s, a)).Write(tx, ClaimUpdates(s, a), {})
    case Complete(tx, id, token, _) =>
      if s.Leased(tx, id, token) then s.Write(tx, map[id := Finished(s, a, max)], {}) else s
    case Fail(tx, id, token, _, _) =>
      if s.Leased(tx, id, token) then s.Write(tx, map[id := Finished(s, a, max)], {}) else s
    case Commit(tx) =>
      s.(committed := s.committed + s.txns[tx].writes, txns := s.txns - {tx},
         enqueued := s.enqueued + s.txns[tx].enqueued)
    case Rollback(tx) => s.(txns := s.txns - {tx})
    case Tick(elapsed) => s.(now := s.now + elapsed)
  }

  ghost predicate Legal(s: State, actions: seq<Action>, max: int)
    decreases |actions|
  {
    actions != [] ==> Enabled(s, actions[0]) && Legal(Step(s, actions[0], max), actions[1..], max)
  }

  ghost function Exec(s: State, actions: seq<Action>, max: int): State
    requires Legal(s, actions, max)
    decreases |actions|
  {
    if actions == [] then s else Exec(Step(s, actions[0], max), actions[1..], max)
  }

  lemma {:induction false} WriteShows(s: State, tx: TxId, updates: map<Id, Event>, added: set<Id>)
    ensures s.Write(tx, updates, added).View(tx) == s.View(tx) + updates
  {
  }

  lemma {:induction false} IssueShows(s: State, more: map<Token, Id>, tx: TxId)
    ensures s.(issuedTo := more).View(tx) == s.View(tx)
  {
  }

  lemma {:induction false} ClaimShows(s: State, a: Action)
    requires a.Claim? && Enabled(s, a)
    ensures IdSet(a.ids) <= Rows(s.View(a.tx)).Keys
  {
    var table := Rows(s.View(a.tx));
    var candidates := Candidates(table, s.LockedByOthers(a.tx), s.now, a.staleAfter);
    assert forall i :: 0 <= i < |a.ids| ==> a.ids[i] in candidates;
  }

  lemma {:induction false} RowsPut(events: map<Id, Event>, id: Id, e: Event)
    ensures Rows(events + map[id := e]) == Rows(events)[id := e.row]
  {
  }

  lemma {:induction false} RowsClaimed(
    events: map<Id, Event>, updates: map<Id, Event>, ids: set<Id>, tokens: map<Id, Token>,
                    worker: string, now: int)
    requires ids <= events.Keys && ids <= tokens.Keys && updates.Keys == ids
    requires forall id <- ids :: updates[id].row == Claimed(events[id].row, worker, tokens[id], now)
    ensures Rows(events + updates) == ClaimAll(Rows(events), ids, tokens, worker, now)
  {
  }

  /** In its transaction's view, a claim step is the session's `Claim`. */
  lemma {:induction false} ClaimIsSessionClaim(s: State, a: Action, max: int)
    requires a.Claim? && Enabled(s, a)
    ensures var table := Rows(s.View(a.tx));
      && IdSet(a.ids) <= table.Keys
      && Rows(Step(s, a, max).View(a.tx)) == ClaimAll(table, IdSet(a.ids), a.tokens, a.worker, s.now)
  {
    ClaimShows(s, a);
    var issued := s.(issuedTo := IssuedBy(s, a));
    WriteShows(issued, a.tx, ClaimUpdates(s, a), {});
    IssueShows(s, IssuedBy(s, a), a.tx);
    RowsClaimed(s.View(a.tx), ClaimUpdates(s, a), a.tokens.Keys, a.tokens, a.worker, s.now);
  }

  /** And the finishing steps are the session's `Complete` and `Fail`. */
  lemma {:induction false} FinishIsSessionCall(s: State, a: Action, max: int)
    requires (a.Complete? || a.Fail?) && Enabled(s, a)
    ensures var table := Rows(s.View(a.tx));
      Rows(Step(s, a, max).View(a.tx)) ==
        if a.id in table && table[a.id].Leased(a.token) then
          table[a.id := if a.Complete? then Completed(table[a.id], a.at)
                        else Failed(table[a.id], a.error, max, a.base, s.now)]
        else table
  {
    if s.Leased(a.tx, a.id, a.token) {
      WriteShows(s, a.tx, map[a.id := Finished(s, a, max)], {});
      RowsPut(s.View(a.tx), a.id, Finished(s, a, max));
    }
  }

  // ---------------------------------------------------------------- the invariant

  function Publications(e: Event): nat { if e.publishedUnder.Some? then 1 else 0 }

  /** What holds of every row, committed or not. */
  predicate Sound(e: Event, id: Id, issuedTo: map<Token, Id>, max: int) {
    var row := e.row;
    && row.Constrained()
    && (row.token.Some? ==> row.lockedAt.Some? && row.token.value in issuedTo && issuedTo[row.token.value] == id)
    && (e.publishedUnder.Some? <==> row.status == Outbox.Published)
    && (e.publishedUnder.Some? ==> e.publishedUnder.value in issuedTo && issuedTo[e.publishedUnder.value] == id)
    && (forall i :: 0 <= i < |e.failedUnder| ==> e.failedUnder[i] in issuedTo && issuedTo[e.failedUnder[i]] == id)
    && (forall i, j :: 0 <= i < j < |e.failedUnder| ==> e.failedUnder[i] != e.failedUnder[j])
    && (forall i :: 0 <= i < |e.failedUnder| ==>
          Some(e.failedUnder[i]) != row.token && Some(e.failedUnder[i]) != e.publishedUnder)
    && |e.failedUnder| + Publications(e) + (if row.token.Some? then 1 else 0) <= row.attempts
    && |e.failedUnder| <= (if row.status == Dead then max else max - 1)
    && row.version == 1 + row.attempts + |e.failedUnder| + Publications(e)
  }

  ghost predicate CommittedSound(s: State, max: int) {
    && s.committed.Keys == s.enqueued
    && forall id <- s.committed :: Sound(s.committed[id], id, s.issuedTo, max)
  }

  /** An open transaction has written only new rows and unfinished ones, adding to their history. */
  ghost predicate WriteSound(s: State, t: TxId, id: Id, max: int)
    requires t in s.txns && id in s.txns[t].writes
  {
    var e := s.txns[t].writes[id];
    && Sound(e, id, s.issuedTo, max)
    && (id in s.committed <==> id !in s.txns[t].enqueued)
    && (id in s.committed ==> !s.committed[id].row.Terminal() && s.committed[id].failedUnder <= e.failedUnder)
  }

  ghost predicate TxnsSound(s: State, max: int) {
    && (forall t <- s.txns, id <- s.txns[t].writes :: WriteSound(s, t, id, max))
    && (forall t <- s.txns :: s.txns[t].enqueued <= s.txns[t].writes.Keys)
  }

  /** No row is locked twice. */
  ghost predicate WritesDisjoint(s: State) {
    forall t <- s.txns, u <- s.txns | t != u :: s.txns[t].writes.Keys !! s.txns[u].writes.Keys
  }

  ghost predicate Inv(s: State, max: int) {
    max > 0 && CommittedSound(s, max) && TxnsSound(s, max) && WritesDisjoint(s)
  }

  lemma {:induction false} SoundUnderMore(e: Event, id: Id, issuedTo: map<Token, Id>, more: map<Token, Id>, max: int)
    requires Sound(e, id, issuedTo, max)
    requires forall t <- issuedTo :: t in more && more[t] == issuedTo[t]
    ensures Sound(e, id, more, max)
  {
  }

  lemma {:induction false} IssueMore(s: State, more: map<Token, Id>, max: int)
    requires Inv(s, max)
    requires forall t <- s.issuedTo :: t in more && more[t] == s.issuedTo[t]
    ensures Inv(s.(issuedTo := more), max)
  {
    var next := s.(issuedTo := more);
    forall id <- s.committed ensures Sound(s.committed[id], id, more, max) {
      SoundUnderMore(s.committed[id], id, s.issuedTo, more, max);
    }
    forall t <- s.txns, id <- s.txns[t].writes ensures WriteSound(next, t, id, max) {
      assert WriteSound(s, t, id, max);
      SoundUnderMore(s.txns[t].writes[id], id, s.issuedTo, more, max);
    }
  }

  lemma {:induction false} ViewSound(s: State, tx: TxId, id: Id, max: int)
    requires Inv(s, max) && id in s.View(tx)
    ensures Sound(s.View(tx)[id], id, s.issuedTo, max)
    ensures id in s.committed ==> s.committed[id].failedUnder <= s.View(tx)[id].failedUnder
    ensures id in s.committed && !s.View(tx)[id].row.Terminal() ==> !s.committed[id].row.Terminal()
    ensures id !in s.committed <==> id in s.Open(tx).enqueued
  {
    if id in s.Open(tx).writes {
      assert WriteSound(s, tx, id, max);
    }
  }

  /** One update a transaction may make: of an unlocked row that is new or unfinished, adding to its history. */
  ghost predicate Update(s: State, tx: TxId, id: Id, e: Event, added: set<Id>, max: int) {
    && id !in s.LockedByOthers(tx)
    && Sound(e, id, s.issuedTo, max)
    && (id in s.committed <==> id !in s.Open(tx).enqueued + added)
    && (id in s.committed ==> !s.committed[id].row.Terminal() && s.committed[id].failedUnder <= e.failedUnder)
  }

  lemma {:induction false} WriteKeeps(s: State, tx: TxId, updates: map<Id, Event>, added: set<Id>, max: int)
    requires Inv(s, max) && added <= updates.Keys && added !! s.committed.Keys
    requires forall id <- updates :: Update(s, tx, id, updates[id], added, max)
    ensures Inv(s.Write(tx, updates, added), max)
  {
    var next := s.Write(tx, updates, added);
    forall t <- next.txns, id <- next.txns[t].writes ensures WriteSound(next, t, id, max) {
      if t == tx {
        if id in updates {
          assert Update(s, tx, id, updates[id], added, max);
        } else {
          assert tx in s.txns;
          assert WriteSound(s, tx, id, max);
        }
      } else {
        assert WriteSound(s, t, id, max);
      }
    }
    forall t <- next.txns, u <- next.txns | t != u
      ensures next.txns[t].writes.Keys !! next.txns[u].writes.Keys
    {
      WritesApart(s, tx, updates, added, max, t, u);
    }
  }

  lemma {:induction false} WriteOneKeeps(s: State, tx: TxId, id: Id, e: Event, max: int)
    requires Inv(s, max) && Update(s, tx, id, e, {}, max)
    ensures Inv(s.Write(tx, map[id := e], {}), max)
  {
    WriteKeeps(s, tx, map[id := e], {}, max);
  }

  lemma {:induction false} WritesApart(
    s: State, tx: TxId, updates: map<Id, Event>, added: set<Id>, max: int, t: TxId, u: TxId)
    requires WritesDisjoint(s) && t != u
    requires forall id <- updates :: id !in s.LockedByOthers(tx)
    requires t in s.Write(tx, updates, added).txns && u in s.Write(tx, updates, added).txns
    ensures var next := s.Write(tx, updates, added); next.txns[t].writes.Keys !! next.txns[u].writes.Keys
  {
    if t == tx {
      assert forall id <- s.txns[u].writes :: id in s.LockedByOthers(tx);
    } else if u == tx {
      assert forall id <- s.txns[t].writes :: id in s.LockedByOthers(tx);
    }
  }

  // ---------------------------------------------------------------- every step keeps it

  lemma {:induction false} EnqueueKeeps(s: State, a: Action, max: int)
    requires Inv(s, max) && a.Enqueue? && Enabled(s, a)
    ensures Inv(Step(s, a, max), max)
  {
    WriteKeeps(s, a.tx, map[a.id := Event(Enqueued(s.now, a.availableAt), [], None)], {a.id}, max);
  }

  lemma {:induction false} ClaimFacts(s: State, a: Action, id: Id)
    requires a.Claim? && Enabled(s, a) && id in a.tokens
    ensures id in s.View(a.tx) && id !in s.LockedByOthers(a.tx)
    ensures Claimable(s.View(a.tx)[id].row, s.now, a.staleAfter)
  {
    assert id in a.ids;
    var i :| 0 <= i < |a.ids| && a.ids[i] == id;
    assert a.ids[i] in Candidates(Rows(s.View(a.tx)), s.LockedByOthers(a.tx), s.now, a.staleAfter);
  }

  lemma {:induction false} ClaimUpdateSound(s: State, a: Action, id: Id, max: int)
    requires Inv(s, max) && a.Claim? && Enabled(s, a) && id in a.tokens
    ensures Update(s.(issuedTo := IssuedBy(s, a)), a.tx, id, ClaimUpdates(s, a)[id], {}, max)
  {
    ClaimFacts(s, a, id);
    ViewSound(s, a.tx, id, max);
    ClaimedSound(s.View(a.tx)[id], id, s.issuedTo, IssuedBy(s, a), a.tokens[id], a.worker, s.now, max);
  }

  lemma {:induction false} ClaimKeeps(s: State, a: Action, max: int)
    requires Inv(s, max) && a.Claim? && Enabled(s, a)
    ensures Inv(Step(s, a, max), max)
  {
    var more := IssuedBy(s, a);
    var issued := s.(issuedTo := more);
    assert Inv(issued, max) by { IssueMore(s, more, max); }
    var updates := ClaimUpdates(s, a);
    forall id <- updates ensures Update(issued, a.tx, id, updates[id], {}, max) {
      ClaimUpdateSound(s, a, id, max);
    }
    assert Inv(issued.Write(a.tx, updates, {}), max) by { WriteKeeps(issued, a.tx, updates, {}, max); }
    assert Step(s, a, max) == issued.Write(a.tx, updates, {});
  }

  lemma {:induction false} ClaimedSound(
    e: Event, id: Id, issuedTo: map<Token, Id>, more: map<Token, Id>, token: Token, worker: string, now: int, max: int)
    requires Sound(e, id, issuedTo, max) && !e.row.Terminal()
    requires forall t <- issuedTo :: t in more && more[t] == issuedTo[t]
    requires token !in issuedTo && token in more && more[token] == id
    ensures Sound(e.(row := Claimed(e.row, worker, token, now)), id, more, max)
  {
    SoundUnderMore(e, id, issuedTo, more, max);
  }

  lemma {:induction false} FinishedSound(s: State, a: Action, max: int)
    requires (a.Complete? || a.Fail?) && s.Leased(a.tx, a.id, a.token)
    requires Sound(s.View(a.tx)[a.id], a.id, s.issuedTo, max)
    ensures Sound(Finished(s, a, max), a.id, s.issuedTo, max)
    ensures s.View(a.tx)[a.id].failedUnder <= Finished(s, a, max).failedUnder
  {
    var row := s.View(a.tx)[a.id].row;
    assert a.Fail? ==>
      var failed := Failed(row, a.error, max, a.base, s.now);
      failed.status == (if row.attempts >= max then Dead else Pending) && failed.token == None;
  }

  lemma {:induction false} FinishUpdate(s: State, a: Action, max: int)
    requires Inv(s, max) && (a.Complete? || a.Fail?) && Enabled(s, a) && s.Leased(a.tx, a.id, a.token)
    ensures Update(s, a.tx, a.id, Finished(s, a, max), {}, max)
  {
    ViewSound(s, a.tx, a.id, max);
    FinishedSound(s, a, max);
  }

  lemma {:induction false} FinishKeeps(s: State, a: Action, max: int)
    requires Inv(s, max) && (a.Complete? || a.Fail?) && Enabled(s, a)
    ensures Inv(Step(s, a, max), max)
  {
    if s.Leased(a.tx, a.id, a.token) {
      FinishUpdate(s, a, max);
      WriteOneKeeps(s, a.tx, a.id, Finished(s, a, max), max);
    }
  }

  lemma {:induction false} CommitKeeps(s: State, a: Action, max: int)
    requires Inv(s, max) && a.Commit? && Enabled(s, a)
    ensures Inv(Step(s, a, max), max)
  {
    var next := Step(s, a, max);
    assert CommittedSound(next, max) by {
      forall id <- s.txns[a.tx].writes ensures WriteSound(s, a.tx, id, max) {
      }
    }
    forall t <- next.txns, id <- next.txns[t].writes ensures WriteSound(next, t, id, max) {
      assert WriteSound(s, t, id, max);
      assert id !in s.txns[a.tx].writes.Keys;
    }
  }

  lemma {:induction false} StepKeeps(s: State, a: Action, max: int)
    requires Inv(s, max) && Enabled(s, a)
    ensures Inv(Step(s, a, max), max)
  {
    match a
    case Enqueue(_, _, _) => EnqueueKeeps(s, a, max);
    case Claim(_, _, _, _, _, _) => ClaimKeeps(s, a, max);
    case Complete(_, _, _, _) => FinishKeeps(s, a, max);
    case Fail(_, _, _, _, _) => FinishKeeps(s, a, max);
    case Commit(_) => CommitKeeps(s, a, max);
    case Rollback(tx) =>
      var next := Step(s, a, max);
      forall t <- next.txns, id <- next.txns[t].writes ensures WriteSound(next, t, id, max) {
        assert WriteSound(s, t, id, max);
      }
    case Tick(_) =>
      var next := Step(s, a, max);
      forall t <- next.txns, id <- next.txns[t].writes ensures WriteSound(next, t, id, max) {
        assert WriteSound(s, t, id, max);
      }
  }

  const Empty := State(map[], map[], 0, map[], {})

  lemma {:induction false} EmptySound(max: int)
    requires max > 0
    ensures Inv(Empty, max)
  {
  }

  lemma {:induction false} RunsStaySound(s: State, actions: seq<Action>, max: int)
    requires Inv(s, max) && Legal(s, actions, max)
    ensures Inv(Exec(s, actions, max), max)
    decreases |actions|
  {
    if actions != [] {
      StepKeeps(s, actions[0], max);
      RunsStaySound(Step(s, actions[0], max), actions[1..], max);
    }
  }

  // ---------------------------------------------------------------- finished events stay finished

  /** What a step does to a committed row: nothing, unless it commits a transaction that wrote it. */
  lemma {:induction false} CommittedAfter(s: State, a: Action, max: int, id: Id)
    requires Enabled(s, a) && id in s.committed
    ensures var next := Step(s, a, max);
      id in next.committed && next.committed[id] ==
        if a.Commit? && id in s.txns[a.tx].writes then s.txns[a.tx].writes[id] else s.committed[id]
  {
  }

  lemma {:induction false} CommittedKept(s: State, a: Action, max: int, id: Id)
    requires TxnsSound(s, max) && Enabled(s, a) && id in s.committed
    ensures var next := Step(s, a, max);
      && id in next.committed && s.committed[id].failedUnder <= next.committed[id].failedUnder
      && (s.committed[id].row.Terminal() ==> next.committed[id] == s.committed[id])
  {
    CommittedAfter(s, a, max, id);
    if a.Commit? && a.tx in s.txns {
      assert forall i <- s.txns[a.tx].writes :: WriteSound(s, a.tx, i, max);
    }
  }

  /** Published and dead are absorbing: no run changes anything about the row. */
  lemma {:induction false} TerminalAbsorbs(s: State, actions: seq<Action>, max: int, id: Id)
    requires Inv(s, max) && Legal(s, actions, max)
    requires id in s.committed && s.committed[id].row.Terminal()
    ensures id in Exec(s, actions, max).committed && Exec(s, actions, max).committed[id] == s.committed[id]
    decreases |actions|
  {
    if actions != [] {
      var a := actions[0];
      CommittedKept(s, a, max, id);
      StepKeeps(s, a, max);
      TerminalAbsorbs(Step(s, a, max), actions[1..], max, id);
    }
  }

  // ---------------------------------------------------------------- nothing is lost

  /** No run loses a committed event or any of its history. */
  lemma {:induction false} HistoryGrows(s: State, actions: seq<Action>, max: int, id: Id)
    requires Inv(s, max) && Legal(s, actions, max) && id in s.committed
    ensures id in Exec(s, actions, max).committed
    ensures s.committed[id].failedUnder <= Exec(s, actions, max).committed[id].failedUnder
    decreases |actions|
  {
    if actions != [] {
      var a := actions[0];
      var next := Step(s, a, max);
      CommittedKept(s, a, max, id);
      StepKeeps(s, a, max);
      HistoryGrows(next, actions[1..], max, id);
    }
  }

  /** Over every run from an empty table, the status counts add up to the events whose enqueue was committed. */
  lemma {:induction false} CountsMatchEnqueued(actions: seq<Action>, max: int)
    requires max > 0 && Legal(Empty, actions, max)
    ensures var s := Exec(Empty, actions, max);
      var table := Rows(s.committed);
      |WithStatus(table, Pending)| + |WithStatus(table, Processing)|
      + |WithStatus(table, Published)| + |WithStatus(table, Dead)| == |s.enqueued|
  {
    EmptySound(max);
    RunsStaySound(Empty, actions, max);
    var s := Exec(Empty, actions, max);
    CountsAddUp(Rows(s.committed));
    assert Rows(s.committed).Keys == s.enqueued;
    assert |Rows(s.committed)| == |Rows(s.committed).Keys|;
  }

  // ---------------------------------------------------------------- fencing

  /** An issued token that no row, committed or being written, is leased under. */
  ghost predicate Retired(s: State, token: Token) {
    && token in s.issuedTo
    && (forall id <- s.committed :: s.committed[id].row.token != Some(token))
    && (forall t <- s.txns, id <- s.txns[t].writes :: s.txns[t].writes[id].row.token != Some(token))
  }

  lemma {:induction false} RetiredInViews(s: State, token: Token, tx: TxId, id: Id)
    requires Retired(s, token) && id in s.View(tx)
    ensures s.View(tx)[id].row.token != Some(token)
  {
  }

  lemma {:induction false} WriteStaysRetired(s: State, tx: TxId, updates: map<Id, Event>, added: set<Id>, token: Token)
    requires Retired(s, token) && forall id <- updates :: updates[id].row.token != Some(token)
    ensures Retired(s.Write(tx, updates, added), token)
  {
  }

  lemma {:induction false} FinishStaysRetired(s: State, a: Action, max: int, token: Token)
    requires (a.Complete? || a.Fail?) && Enabled(s, a) && Retired(s, token)
    ensures Retired(Step(s, a, max), token)
    ensures a.token == token ==> !s.Leased(a.tx, a.id, token)
  {
    if s.Leased(a.tx, a.id, a.token) {
      RetiredInViews(s, token, a.tx, a.id);
      WriteStaysRetired(s, a.tx, map[a.id := Finished(s, a, max)], {}, token);
    }
  }

  lemma {:induction false} ClaimStaysRetired(s: State, a: Action, max: int, token: Token)
    requires a.Claim? && Enabled(s, a) && Retired(s, token)
    ensures Retired(Step(s, a, max), token)
  {
    var issued := s.(issuedTo := IssuedBy(s, a));
    assert Retired(issued, token);
    WriteStaysRetired(issued, a.tx, ClaimUpdates(s, a), {}, token);
  }

  lemma {:induction false} StaysRetired(s: State, a: Action, max: int, token: Token)
    requires Enabled(s, a) && Retired(s, token)
    ensures Retired(Step(s, a, max), token)
    ensures (a.Complete? || a.Fail?) && a.token == token ==> !s.Leased(a.tx, a.id, token) && Step(s, a, max) == s
  {
    match a
    case Enqueue(tx, id, availableAt) =>
      WriteStaysRetired(s, tx, map[id := Event(Enqueued(s.now, availableAt), [], None)], {id}, token);
    case Claim(_, _, _, _, _, _) => ClaimStaysRetired(s, a, max, token);
    case Complete(_, _, _, _) => FinishStaysRetired(s, a, max, token);
    case Fail(_, _, _, _, _) => FinishStaysRetired(s, a, max, token);
    case Commit(tx) =>
    case Rollback(tx) =>
    case Tick(_) =>
  }

  /** How many `complete` and `fail` calls find the lease of `token`. */
  ghost function Finishes(s: State, actions: seq<Action>, max: int, token: Token): nat
    requires Legal(s, actions, max)
    decreases |actions|
  {
    if actions == [] then 0
    else
      var a := actions[0];
      (if (a.Complete? || a.Fail?) && a.token == token && s.Leased(a.tx, a.id, token) then 1 else 0)
      + Finishes(Step(s, a, max), actions[1..], max, token)
  }

  /** A retired token finishes nothing in any run: whatever its worker does is answered by a lost lease. */
  lemma {:induction false} RetiredForGood(s: State, actions: seq<Action>, max: int, token: Token)
    requires Legal(s, actions, max) && Retired(s, token)
    ensures Finishes(s, actions, max, token) == 0 && Retired(Exec(s, actions, max), token)
    decreases |actions|
  {
    if actions != [] {
      StaysRetired(s, actions[0], max, token);
      RetiredForGood(Step(s, actions[0], max), actions[1..], max, token);
    }
  }

  /** Committing a reclaim, a completion or a failure of an event retires the token it was leased under. */
  lemma {:induction false} CommitRetires(s: State, tx: TxId, id: Id, token: Token, max: int)
    requires Inv(s, max) && tx in s.txns && id in s.txns[tx].writes
    requires id in s.committed && s.committed[id].row.token == Some(token)
    requires s.txns[tx].writes[id].row.token != Some(token)
    ensures Retired(Step(s, Commit(tx), max), token)
  {
    var next := Step(s, Commit(tx), max);
    assert CommittedSound(next, max) by { StepKeeps(s, Commit(tx), max); }
    assert Sound(s.committed[id], id, s.issuedTo, max);
    forall j | j in next.committed ensures next.committed[j].row.token != Some(token) {
      assert Sound(next.committed[j], j, s.issuedTo, max);
      assert next.committed[id] == s.txns[tx].writes[id];
    }
    forall t <- next.txns, j <- next.txns[t].writes ensures next.txns[t].writes[j].row.token != Some(token) {
      assert WriteSound(s, t, j, max);
      assert s.txns[t].writes.Keys !! s.txns[tx].writes.Keys;
      assert j != id;
    }
  }

  /** The tokens under which an event has been finished. */
  predicate FinishedUnder(e: Event, token: Token) {
    token in e.failedUnder || e.publishedUnder == Some(token)
  }

  /** Each issued token finishes at most one transition of one event, and none it is still leased under. */
  lemma {:induction false} FinishesOnce(s: State, i: Id, j: Id, token: Token, max: int)
    requires Inv(s, max) && i in s.committed && j in s.committed
    requires FinishedUnder(s.committed[i], token)
    ensures FinishedUnder(s.committed[j], token) || s.committed[j].row.token == Some(token) ==> i == j
    ensures s.committed[i].row.token != Some(token)
    ensures token in s.committed[i].failedUnder ==> s.committed[i].publishedUnder != Some(token)
    ensures |(set k | 0 <= k < |s.committed[i].failedUnder| && s.committed[i].failedUnder[k] == token)| <= 1
  {
    assert Sound(s.committed[i], i, s.issuedTo, max) && Sound(s.committed[j], j, s.issuedTo, max);
    var places := set k | 0 <= k < |s.committed[i].failedUnder| && s.committed[i].failedUnder[k] == token;
    if places != {} {
      var k :| k in places;
      assert places == {k};
    }
  }

  /** Over every run, stale reclaims included, an event is failed at most `max` times, and dead once it has been. */
  lemma {:induction false} AtMostMaxFailures(actions: seq<Action>, max: int, id: Id)
    requires max > 0 && Legal(Empty, actions, max) && id in Exec(Empty, actions, max).committed
    ensures var e := Exec(Empty, actions, max).committed[id];
      && |e.failedUnder| <= max && |e.failedUnder| <= e.row.attempts
      && (|e.failedUnder| == max ==> e.row.status == Dead)
  {
    EmptySound(max);
    RunsStaySound(Empty, actions, max);
    var s := Exec(Empty, actions, max);
    assert Sound(s.committed[id], id, s.issuedTo, max);
  }

  // ---------------------------------------------------------------- leases and claims

  lemma {:induction false} ClaimSkipsLocked(s: State, a: Action, id: Id)
    requires a.Claim? && Enabled(s, a) && id in s.LockedByOthers(a.tx)
    ensures id !in a.ids
  {
    var candidates := Candidates(Rows(s.View(a.tx)), s.LockedByOthers(a.tx), s.now, a.staleAfter);
    assert forall i :: 0 <= i < |a.ids| ==> a.ids[i] in candidates;
  }

  lemma {:induction false} OpenStays(s: State, a: Action, max: int, tx: TxId, id: Id)
    requires Enabled(s, a) && tx in s.txns && id in s.txns[tx].writes
    requires a != Commit(tx) && a != Rollback(tx)
    ensures var next := Step(s, a, max); tx in next.txns && id in next.txns[tx].writes
  {
  }

  /** A row that one open transaction has claimed is in no claim of another, until that transaction ends. */
  lemma {:induction false} OpenClaimsDisjoint(s: State, actions: seq<Action>, max: int, tx: TxId, id: Id, k: nat)
    requires Legal(s, actions, max) && tx in s.txns && id in s.txns[tx].writes
    requires k < |actions| && actions[k].Claim? && actions[k].tx != tx
    requires forall i :: 0 <= i < k ==> actions[i] != Commit(tx) && actions[i] != Rollback(tx)
    ensures id !in actions[k].ids
    decreases |actions|
  {
    var a := actions[0];
    if k == 0 {
      ClaimSkipsLocked(s, a, id);
    } else {
      OpenStays(s, a, max, tx, id);
      assert actions[1..][k - 1] == actions[k];
      OpenClaimsDisjoint(Step(s, a, max), actions[1..], max, tx, id, k - 1);
    }
  }

  /** Committed and leased under `token` since `since`, and no transaction is at work on it. */
  ghost predicate Held(s: State, id: Id, token: Token, since: int) {
    && id in s.committed && s.committed[id].row.Leased(token) && s.committed[id].row.lockedAt == Some(since)
    && forall t <- s.txns :: id !in s.txns[t].writes
  }

  /** The action neither finishes the lease nor claims under a staleness limit that it already exceeds. */
  ghost predicate Respects(s: State, a: Action, token: Token, since: int) {
    && (a.Complete? || a.Fail? ==> a.token != token)
    && (a.Claim? ==> s.now - a.staleAfter <= since)
  }

  ghost predicate AllRespect(s: State, actions: seq<Action>, max: int, token: Token, since: int)
    requires Legal(s, actions, max)
    decreases |actions|
  {
    actions != [] ==>
      Respects(s, actions[0], token, since) && AllRespect(Step(s, actions[0], max), actions[1..], max, token, since)
  }

  lemma {:induction false} StepLeavesHeld(s: State, a: Action, max: int, id: Id, token: Token, since: int)
    requires Enabled(s, a) && Held(s, id, token, since) && Respects(s, a, token, since)
    ensures Held(Step(s, a, max), id, token, since) && Step(s, a, max).committed[id] == s.committed[id]
  {
    if a.Claim? && id in a.tokens {
      ClaimFacts(s, a, id);
    }
  }

  /** Until it goes stale a committed claim is exclusive: nothing but its own token changes the event. */
  lemma {:induction false} LeaseStands(s: State, actions: seq<Action>, max: int, id: Id, token: Token, since: int)
    requires Legal(s, actions, max) && Held(s, id, token, since) && AllRespect(s, actions, max, token, since)
    ensures Held(Exec(s, actions, max), id, token, since)
    ensures Exec(s, actions, max).committed[id] == s.committed[id]
    decreases |actions|
  {
    if actions != [] {
      StepLeavesHeld(s, actions[0], max, id, token, since);
      LeaseStands(Step(s, actions[0], max), actions[1..], max, id, token, since);
    }
  }

  /** And its own token does: its completion, once committed, publishes the event. */
  lemma {:induction false} HolderFinishes(s: State, tx: TxId, id: Id, token: Token, since: int, at: int, max: int)
    requires Held(s, id, token, since)
    ensures Enabled(s, Complete(tx, id, token, at))
    ensures var done := Step(Step(s, Complete(tx, id, token, at), max), Commit(tx), max);
      && id in done.committed
      && done.committed[id] == Event(
           Completed(s.committed[id].row, at), s.committed[id].failedUnder, Some(token))
  {
    assert id !in s.LockedByOthers(tx);
    assert id !in s.Open(tx).writes && s.View(tx)[id] == s.committed[id];
    var a := Complete(tx, id, token, at);
    var next := Step(s, a, max);
    assert id in next.committed && id in next.txns[tx].writes && next.txns[tx].writes[id] == Finished(s, a, max);
    CommittedAfter(next, Commit(tx), max, id);
  }
}
