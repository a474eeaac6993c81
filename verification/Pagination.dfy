/** Keyset pages, walks over a table that may change between pages, and offset pages (database/pagination.py). */
module Pagination {
  import opened Wrappers
  import opened Sql
  import opened Sorting

  datatype CursorState = CursorState(sortFingerprint: string, values: Key, queryFingerprint: Option<string>)
  datatype CursorPage = CursorPage(items: seq<Row>, nextCursor: Option<CursorState>, hasMore: bool)
  datatype Query = Query(filter: Option<Criterion>, order: seq<ResolvedTerm>, limit: nat)

  datatype PageError =
    | LimitOutOfRange
    | PageOutOfRange
    | SortingMismatch
    | QueryMismatch
    | ValueCountMismatch

  function Take<T>(s: seq<T>, n: nat): seq<T> {
    if n <= |s| then s[..n] else s
  }

  // ---------------------------------------------------------------- one page

  /** `_prepare_sorted_query`, from the decoded cursor on. */
  function PrepareSortedQuery(plan: SortPlan, cursor: Option<CursorState>, limit: int,
                              queryFingerprint: Option<string>): Result<Query, PageError> {
    if !(1 <= limit <= 500) then Failure(LimitOutOfRange)
    else if cursor.None? then Success(Query(None, plan.terms, limit + 1))
    else
      var state := cursor.value;
      if state.sortFingerprint != plan.fingerprint then Failure(SortingMismatch)
      else if state.queryFingerprint != queryFingerprint then Failure(QueryMismatch)
      else if |state.values| != |plan.terms| then Failure(ValueCountMismatch)
      else Success(Query(Some(BoundaryCriterion(plan.terms, state.values)), plan.terms, limit + 1))
  }

  /** `_build_sorted_page`. */
  function BuildSortedPage(rows: seq<Row>, plan: SortPlan, limit: nat,
                           queryFingerprint: Option<string>): CursorPage {
    var hasMore := |rows| > limit;
    var items := Take(rows, limit);
    var next :=
      if hasMore && items != [] then
        Some(CursorState(plan.fingerprint, KeyOf(plan.terms, items[|items| - 1]), queryFingerprint))
      else None;
    CursorPage(items, next, hasMore)
  }

  ghost function Matching(table: set<Row>, filter: Option<Criterion>): set<Row> {
    set r | r in table && (filter.None? || Keeps(filter.value, r))
  }

  /** `all` lists `rows` once each in ORDER BY order; rows the order does not separate may come either way. */
  ghost predicate Enumerates(all: seq<Row>, rows: set<Row>, terms: seq<ResolvedTerm>) {
    && (forall r :: r in all <==> r in rows)
    && (forall i, j :: 0 <= i < j < |all| ==> all[i] != all[j] && !RowBefore(terms, all[j], all[i]))
  }

  /** What the database may answer to `SELECT ... WHERE filter ORDER BY order LIMIT limit`. */
  ghost predicate Answers(rows: seq<Row>, all: seq<Row>, table: set<Row>, query: Query) {
    Enumerates(all, Matching(table, query.filter), query.order) && rows == Take(all, query.limit)
  }

  // ---------------------------------------------------------------- walks

  /** One page fetch: its limit, the table at that moment, and the database's ordered answer before and after LIMIT. */
  datatype Fetch = Fetch(limit: nat, table: set<Row>, all: seq<Row>, rows: seq<Row>)

  datatype Listing = Listing(plan: SortPlan, queryFingerprint: Option<string>) {
    function PageOf(f: Fetch): CursorPage {
      BuildSortedPage(f.rows, plan, f.limit, queryFingerprint)
    }

    /** The fetch is a correct answer to the query prepared for `cursor`, on a table that obeys its constraints. */
    ghost predicate Fetched(cursor: Option<CursorState>, f: Fetch) {
      var query := PrepareSortedQuery(plan, cursor, f.limit, queryFingerprint);
      && ConstrainedFor(f.table, plan.terms)
      && query.Success?
      && Answers(f.rows, f.all, f.table, query.value)
    }

    function CursorAt(fetches: seq<Fetch>, i: nat): Option<CursorState>
      requires i <= |fetches|
    {
      if i == 0 then None else PageOf(fetches[i - 1]).nextCursor
    }

    ghost predicate FetchedAt(fetches: seq<Fetch>, i: nat) {
      i < |fetches| && (i > 0 ==> CursorAt(fetches, i).Some?) && Fetched(CursorAt(fetches, i), fetches[i])
    }

    /** Pages fetched one after the other, the first without a cursor, each later one with its `next_cursor`. */
    ghost predicate Walk(fetches: seq<Fetch>) {
      fetches != [] && forall i: nat {:trigger FetchedAt(fetches, i)} :: i < |fetches| ==> FetchedAt(fetches, i)
    }

    predicate Complete(fetches: seq<Fetch>) {
      CursorAt(fetches, |fetches|).None?
    }

    /** The items of the first `n` pages. */
    function Emitted(fetches: seq<Fetch>, n: nat): seq<Row>
      requires n <= |fetches|
    {
      if n == 0 then [] else Emitted(fetches, n - 1) + PageOf(fetches[n - 1]).items
    }

    /** `row` lies beyond `cursor`; every row lies beyond no cursor. */
    predicate Beyond(cursor: Option<CursorState>, row: Row) {
      cursor.None? ||
      (|cursor.value.values| == |plan.terms| && KeyBefore(plan.terms, cursor.value.values, KeyOf(plan.terms, row)))
    }
  }

  ghost predicate Ascending(s: seq<Row>, terms: seq<ResolvedTerm>) {
    forall i, j :: 0 <= i < j < |s| ==> RowBefore(terms, s[i], s[j])
  }

  lemma {:induction false} AscendingAppend(s: seq<Row>, t: seq<Row>, terms: seq<ResolvedTerm>)
    requires Ascending(s, terms) && Ascending(t, terms)
    requires s != [] ==> forall j :: 0 <= j < |t| ==> RowBefore(terms, s[|s| - 1], t[j])
    ensures Ascending(s + t, terms)
  {
    forall i, j | 0 <= i < |s| && 0 <= j < |t| ensures RowBefore(terms, s[i], t[j]) {
      if i < |s| - 1 {
        KeyOrderTransitive(terms, KeyOf(terms, s[i]), KeyOf(terms, s[|s| - 1]), KeyOf(terms, t[j]));
      }
    }
  }

  /** A cursor the page builder issues is accepted by the next query of the same listing, whatever its limit. */
  lemma {:induction false} NextCursorAccepted(l: Listing, f: Fetch, limit: nat)
    requires 1 <= f.limit && 1 <= limit <= 500 && l.PageOf(f).hasMore
    ensures var next := l.PageOf(f).nextCursor;
      && next.Some? && |next.value.values| == |l.plan.terms|
      && next.value.values == KeyOf(l.plan.terms, f.rows[f.limit - 1])
      && PrepareSortedQuery(l.plan, next, limit, l.queryFingerprint) ==
           Success(Query(Some(BoundaryCriterion(l.plan.terms, next.value.values)), l.plan.terms, limit + 1))
  {
  }

  /** A fetch lists exactly the rows beyond its cursor, in strictly increasing order. */
  lemma {:induction false} FetchIsStrict(l: Listing, cursor: Option<CursorState>, f: Fetch)
    requires Deterministic(l.plan.terms) && l.Fetched(cursor, f)
    ensures forall r :: r in f.all <==> r in f.table && l.Beyond(cursor, r)
    ensures Ascending(f.all, l.plan.terms)
  {
    var query := PrepareSortedQuery(l.plan, cursor, f.limit, l.queryFingerprint).value;
    forall r ensures r in f.all <==> r in f.table && l.Beyond(cursor, r) {
      if cursor.Some? {
        BoundaryExact(l.plan.terms, cursor.value.values, r);
      }
      assert r in f.all <==> r in Matching(f.table, query.filter);
    }
    forall i, j | 0 <= i < j < |f.all| ensures RowBefore(l.plan.terms, f.all[i], f.all[j]) {
      assert f.all[i] in f.all && f.all[j] in f.all;
      RowOrderTotal(f.table, l.plan.terms, f.all[i], f.all[j]);
    }
  }

  lemma {:induction false} PageOfFetch(l: Listing, cursor: Option<CursorState>, f: Fetch)
    requires l.Fetched(cursor, f)
    ensures var page := l.PageOf(f);
      && 1 <= f.limit
      && page.items == Take(f.all, f.limit)
      && (page.nextCursor.Some? <==> |f.all| > f.limit)
      && (page.nextCursor.Some? ==> page.nextCursor.value.values == KeyOf(l.plan.terms, f.all[f.limit - 1]))
  {
    assert f.rows == Take(f.all, f.limit + 1);
  }

  /** Page `i` of a walk: what it shows, and when it issues a cursor and which. */
  lemma {:induction false} PageFacts(l: Listing, fetches: seq<Fetch>, i: nat)
    requires Deterministic(l.plan.terms) && l.Walk(fetches) && i < |fetches|
    ensures var f, page := fetches[i], l.PageOf(fetches[i]);
      && 1 <= f.limit
      && (forall r :: r in f.all <==> r in f.table && l.Beyond(l.CursorAt(fetches, i), r))
      && Ascending(f.all, l.plan.terms)
      && page.items == Take(f.all, f.limit)
      && (page.nextCursor.Some? <==> |f.all| > f.limit)
      && (page.nextCursor.Some? ==> page.nextCursor.value.values == KeyOf(l.plan.terms, f.all[f.limit - 1]))
    ensures i > 0 ==> l.CursorAt(fetches, i).Some?
  {
    assert l.FetchedAt(fetches, i);
    FetchIsStrict(l, l.CursorAt(fetches, i), fetches[i]);
    PageOfFetch(l, l.CursorAt(fetches, i), fetches[i]);
  }

  lemma {:induction false} PageItems(l: Listing, fetches: seq<Fetch>, i: nat)
    requires Deterministic(l.plan.terms) && l.Walk(fetches) && i < |fetches|
    ensures var page, terms := l.PageOf(fetches[i]), l.plan.terms;
      && Ascending(page.items, terms)
      && (i > 0 ==> l.CursorAt(fetches, i).Some?)
      && (forall j :: 0 <= j < |page.items| ==> l.Beyond(l.CursorAt(fetches, i), page.items[j]))
      && (page.nextCursor.Some? ==>
            page.items != [] && page.nextCursor.value.values == KeyOf(terms, page.items[|page.items| - 1]))
  {
    PageFacts(l, fetches, i);
    var items := l.PageOf(fetches[i]).items;
    forall j | 0 <= j < |items| ensures l.Beyond(l.CursorAt(fetches, i), items[j]) {
      assert items[j] in fetches[i].all;
    }
  }

  lemma {:induction false} AppendPage(
    emitted: seq<Row>, l: Listing, cursor: Option<CursorState>, items: seq<Row>)
    requires Ascending(emitted, l.plan.terms) && Ascending(items, l.plan.terms)
    requires cursor.Some? ==> emitted != [] && cursor.value.values == KeyOf(l.plan.terms, emitted[|emitted| - 1])
    requires cursor.None? ==> emitted == []
    requires forall j :: 0 <= j < |items| ==> l.Beyond(cursor, items[j])
    ensures Ascending(emitted + items, l.plan.terms)
  {
    forall j | 0 <= j < |items| ensures emitted != [] ==> RowBefore(l.plan.terms, emitted[|emitted| - 1], items[j]) {
      assert l.Beyond(cursor, items[j]);
    }
    AscendingAppend(emitted, items, l.plan.terms);
  }

  lemma {:induction false} EmittedAscends(l: Listing, fetches: seq<Fetch>, n: nat)
    requires Deterministic(l.plan.terms) && l.Walk(fetches) && n <= |fetches|
    ensures var emitted, cursor := l.Emitted(fetches, n), l.CursorAt(fetches, n);
      && Ascending(emitted, l.plan.terms)
      && (cursor.Some? ==>
            emitted != [] && cursor.value.values == KeyOf(l.plan.terms, emitted[|emitted| - 1]))
  {
    if n > 0 {
      EmittedAscends(l, fetches, n - 1);
      PageItems(l, fetches, n - 1);
      AppendPage(l.Emitted(fetches, n - 1), l, l.CursorAt(fetches, n - 1), l.PageOf(fetches[n - 1]).items);
    }
  }

  /** Whatever happens to the table between fetches, a walk emits rows in strictly increasing sort order. */
  lemma {:induction false} WalkStrictlyIncreasing(l: Listing, fetches: seq<Fetch>)
    requires Deterministic(l.plan.terms) && l.Walk(fetches)
    ensures Ascending(l.Emitted(fetches, |fetches|), l.plan.terms)
  {
    EmittedAscends(l, fetches, |fetches|);
  }

  ghost predicate HasKey(terms: seq<ResolvedTerm>, table: set<Row>, key: Key) {
    exists r :: r in table && KeyOf(terms, r) == key
  }

  /** Some row with this sort key is in the table at every fetch; the row's other columns may change. */
  ghost predicate StaysPresent(l: Listing, fetches: seq<Fetch>, key: Key) {
    forall f :: f in fetches ==> HasKey(l.plan.terms, f.table, key)
  }

  predicate KeyAt(terms: seq<ResolvedTerm>, rows: seq<Row>, key: Key, i: nat) {
    i < |rows| && KeyOf(terms, rows[i]) == key
  }

  ghost predicate KeyOnlyAt(terms: seq<ResolvedTerm>, rows: seq<Row>, key: Key, i: nat) {
    KeyAt(terms, rows, key, i) && forall j: nat :: KeyAt(terms, rows, key, j) ==> j == i
  }

  /** A page either shows a row that lies beyond its cursor or leaves it beyond the next one. */
  lemma {:induction false} PageShowsOrLeaves(l: Listing, fetches: seq<Fetch>, i: nat, r: Row) returns (at: Option<nat>)
    requires Deterministic(l.plan.terms) && l.Walk(fetches) && i < |fetches|
    requires r in fetches[i].table && l.Beyond(l.CursorAt(fetches, i), r)
    ensures var page := l.PageOf(fetches[i]);
      match at
      case Some(j) => j < |page.items| && page.items[j] == r
      case None => page.nextCursor.Some? && l.Beyond(page.nextCursor, r)
  {
    PageFacts(l, fetches, i);
    var all := fetches[i].all;
    var j :| 0 <= j < |all| && all[j] == r;
    var limit := fetches[i].limit;
    at := if j < limit then Some(j) else None;
    assert j >= limit ==> RowBefore(l.plan.terms, all[limit - 1], all[j]);
  }

  lemma {:induction false} EmittedKeepsPage(l: Listing, fetches: seq<Fetch>, i: nat, j: nat, n: nat)
    requires i < n <= |fetches| && j < |l.PageOf(fetches[i]).items|
    ensures |l.Emitted(fetches, i)| + j < |l.Emitted(fetches, n)|
    ensures l.Emitted(fetches, n)[|l.Emitted(fetches, i)| + j] == l.PageOf(fetches[i]).items[j]
  {
    if n > i + 1 {
      EmittedKeepsPage(l, fetches, i, j, n - 1);
    }
  }

  lemma {:induction false} StableKeyEmitted(l: Listing, fetches: seq<Fetch>, i: nat, key: Key) returns (at: nat)
    requires Deterministic(l.plan.terms) && l.Walk(fetches) && l.Complete(fetches) && i < |fetches|
    requires StaysPresent(l, fetches, key)
    requires forall r :: KeyOf(l.plan.terms, r) == key ==> l.Beyond(l.CursorAt(fetches, i), r)
    ensures KeyAt(l.plan.terms, l.Emitted(fetches, |fetches|), key, at)
    decreases |fetches| - i
  {
    assert HasKey(l.plan.terms, fetches[i].table, key);
    var r :| r in fetches[i].table && KeyOf(l.plan.terms, r) == key;
    var here := PageShowsOrLeaves(l, fetches, i, r);
    match here
    case Some(j) =>
      EmittedKeepsPage(l, fetches, i, j, |fetches|);
      at := |l.Emitted(fetches, i)| + j;
    case None =>
      assert l.CursorAt(fetches, i + 1) == l.PageOf(fetches[i]).nextCursor;
      at := StableKeyEmitted(l, fetches, i + 1, key);
  }

  lemma {:induction false} AscendingKeyOnlyAt(rows: seq<Row>, terms: seq<ResolvedTerm>, key: Key, at: nat)
    requires Ascending(rows, terms) && KeyAt(terms, rows, key, at)
    ensures KeyOnlyAt(terms, rows, key, at)
  {
    KeyOrderIrreflexive(terms, key);
    assert forall j: nat :: j < at ==> RowBefore(terms, rows[j], rows[at]);
    assert forall j: nat :: at < j < |rows| ==> RowBefore(terms, rows[at], rows[j]);
  }

  /** A complete walk emits each key that stays present exactly once, however other rows come and go. */
  lemma {:induction false} WalkCoversStableKeysOnce(l: Listing, fetches: seq<Fetch>, key: Key) returns (at: nat)
    requires Deterministic(l.plan.terms) && l.Walk(fetches) && l.Complete(fetches)
    requires StaysPresent(l, fetches, key)
    ensures KeyOnlyAt(l.plan.terms, l.Emitted(fetches, |fetches|), key, at)
  {
    at := StableKeyEmitted(l, fetches, 0, key);
    WalkStrictlyIncreasing(l, fetches);
    AscendingKeyOnlyAt(l.Emitted(fetches, |fetches|), l.plan.terms, key, at);
  }

  // ---------------------------------------------------------------- a fixed table

  /** A set of rows has one strictly increasing listing. */
  lemma {:induction false} AscendingUnique(s: seq<Row>, t: seq<Row>, terms: seq<ResolvedTerm>)
    requires Ascending(s, terms) && Ascending(t, terms)
    requires forall r :: r in s <==> r in t
    ensures s == t
    decreases |s|
  {
    if s == [] {
      if t != [] {
        var r := SomeMember(t);
        assert false;
      }
    } else {
      assert s[0] in t;
      if s[0] != t[0] {
        var i :| 0 <= i < |t| && t[i] == s[0];
        assert t[0] in s;
        var j :| 0 <= j < |s| && s[j] == t[0];
        KeyOrderAsymmetric(terms, KeyOf(terms, t[0]), KeyOf(terms, s[0]));
      }
      forall r ensures r in s[1..] <==> r in t[1..] {
        TailMembers(s, terms, r);
        TailMembers(t, terms, r);
      }
      AscendingUnique(s[1..], t[1..], terms);
    }
  }

  lemma {:induction false} SomeMember(s: seq<Row>) returns (r: Row)
    requires s != []
    ensures r in s
  {
    r := s[0];
  }

  lemma {:induction false} TailMembers(s: seq<Row>, terms: seq<ResolvedTerm>, r: Row)
    requires s != [] && Ascending(s, terms)
    ensures r in s[1..] <==> r in s && r != s[0]
  {
    if r in s[1..] {
      var i :| 0 <= i < |s[1..]| && s[1..][i] == r;
      assert s[i + 1] == r;
      KeyOrderIrreflexive(terms, KeyOf(terms, s[0]));
    }
    if r in s && r != s[0] {
      var i :| 0 <= i < |s| && s[i] == r;
      assert s[1..][i - 1] == r;
    }
  }

  ghost predicate Lists(sorted: seq<Row>, table: set<Row>) {
    forall r :: r in sorted <==> r in table
  }

  ghost predicate FixedTable(fetches: seq<Fetch>, sorted: seq<Row>) {
    forall f :: f in fetches ==> Lists(sorted, f.table)
  }

  /** The cursor stands after the first `k` rows of `sorted`. */
  predicate StandsAt(l: Listing, cursor: Option<CursorState>, sorted: seq<Row>, k: nat) {
    if k == 0 then cursor.None?
    else k <= |sorted| && cursor.Some? && cursor.value.values == KeyOf(l.plan.terms, sorted[k - 1])
  }

  lemma {:induction false} BeyondStanding(l: Listing, cursor: Option<CursorState>, sorted: seq<Row>, k: nat, i: nat)
    requires Ascending(sorted, l.plan.terms) && StandsAt(l, cursor, sorted, k) && i < |sorted|
    ensures l.Beyond(cursor, sorted[i]) <==> i >= k
  {
    if k > 0 {
      var last := sorted[k - 1];
      if i < k - 1 {
        assert RowBefore(l.plan.terms, sorted[i], last);
        KeyOrderAsymmetric(l.plan.terms, KeyOf(l.plan.terms, sorted[i]), KeyOf(l.plan.terms, last));
      } else if i == k - 1 {
        KeyOrderIrreflexive(l.plan.terms, KeyOf(l.plan.terms, last));
      } else {
        assert RowBefore(l.plan.terms, last, sorted[i]);
      }
    }
  }

  lemma {:induction false} FetchAt(l: Listing, cursor: Option<CursorState>, all: seq<Row>, sorted: seq<Row>, k: nat)
    requires Ascending(sorted, l.plan.terms) && Ascending(all, l.plan.terms)
    requires k <= |sorted| && StandsAt(l, cursor, sorted, k)
    requires forall r :: r in all <==> r in sorted && l.Beyond(cursor, r)
    ensures all == sorted[k..]
  {
    forall r ensures r in all <==> r in sorted[k..] {
      if r in all {
        var i :| 0 <= i < |sorted| && sorted[i] == r;
        BeyondStanding(l, cursor, sorted, k, i);
        assert sorted[k..][i - k] == r;
      }
      if r in sorted[k..] {
        var i :| 0 <= i < |sorted[k..]| && sorted[k..][i] == r;
        assert sorted[k + i] == r;
        BeyondStanding(l, cursor, sorted, k, k + i);
      }
    }
    AscendingUnique(all, sorted[k..], l.plan.terms);
  }

  /** How many rows the first `i` fetches ask for. */
  function PageStart(fetches: seq<Fetch>, i: nat): nat
    requires i <= |fetches|
  {
    if i == 0 then 0 else PageStart(fetches, i - 1) + fetches[i - 1].limit
  }

  lemma {:induction false} PageStartIs(fetches: seq<Fetch>, i: nat, limit: nat)
    requires i <= |fetches| && forall f <- fetches :: f.limit == limit
    ensures PageStart(fetches, i) == i * limit
  {
    if i > 0 {
      PageStartIs(fetches, i - 1, limit);
      PageEnd(i, limit);
    }
  }

  /** On a fixed table page `i` starts after as many rows as the fetches before it asked for. */
  lemma {:induction false} FixedTablePage(l: Listing, fetches: seq<Fetch>, sorted: seq<Row>, i: nat)
    requires Deterministic(l.plan.terms) && l.Walk(fetches) && i < |fetches|
    requires Ascending(sorted, l.plan.terms) && FixedTable(fetches, sorted)
    ensures PageStart(fetches, i) <= |sorted| && (i > 0 ==> PageStart(fetches, i) < |sorted|)
    ensures StandsAt(l, l.CursorAt(fetches, i), sorted, PageStart(fetches, i))
    ensures l.Emitted(fetches, i) == sorted[..PageStart(fetches, i)]
    ensures fetches[i].all == sorted[PageStart(fetches, i)..]
  {
    var k := PageStart(fetches, i);
    if i > 0 {
      var j := PageStart(fetches, i - 1);
      FixedTablePage(l, fetches, sorted, i - 1);
      assert k == j + fetches[i - 1].limit;
      FixedTableStep(l, fetches, sorted, i, j, k);
    }
    FixedTableRest(l, fetches, sorted, i, k);
  }

  lemma {:induction false} FixedTableStep(
    l: Listing, fetches: seq<Fetch>, sorted: seq<Row>, i: nat, j: nat, k: nat)
    requires Deterministic(l.plan.terms) && l.Walk(fetches) && 0 < i < |fetches|
    requires k == j + fetches[i - 1].limit && j <= |sorted|
    requires fetches[i - 1].all == sorted[j..] && l.Emitted(fetches, i - 1) == sorted[..j]
    ensures k < |sorted| && StandsAt(l, l.CursorAt(fetches, i), sorted, k)
    ensures l.Emitted(fetches, i) == sorted[..k]
  {
    NextPageStart(l, fetches, sorted, i, j);
    assert sorted[..k] == sorted[..j] + sorted[j..k];
  }

  lemma {:induction false} FixedTableRest(l: Listing, fetches: seq<Fetch>, sorted: seq<Row>, i: nat, k: nat)
    requires Deterministic(l.plan.terms) && l.Walk(fetches) && i < |fetches|
    requires Ascending(sorted, l.plan.terms) && FixedTable(fetches, sorted)
    requires k <= |sorted| && StandsAt(l, l.CursorAt(fetches, i), sorted, k)
    ensures fetches[i].all == sorted[k..]
  {
    PageFacts(l, fetches, i);
    assert Lists(sorted, fetches[i].table);
    FetchAt(l, l.CursorAt(fetches, i), fetches[i].all, sorted, k);
  }

  lemma {:induction false} NextPageStart(l: Listing, fetches: seq<Fetch>, sorted: seq<Row>, i: nat, j: nat)
    requires Deterministic(l.plan.terms) && l.Walk(fetches) && 0 < i < |fetches|
    requires j <= |sorted| && fetches[i - 1].all == sorted[j..]
    ensures j + fetches[i - 1].limit < |sorted| && StandsAt(l, l.CursorAt(fetches, i), sorted, j + fetches[i - 1].limit)
    ensures l.PageOf(fetches[i - 1]).items == sorted[j..j + fetches[i - 1].limit]
  {
    PageFacts(l, fetches, i - 1);
    PageFacts(l, fetches, i);
  }

  lemma {:induction false} PageEnd(page: int, limit: int)
    ensures page * limit == (page - 1) * limit + limit
  {
  }

  function CeilDiv(n: nat, d: nat): nat
    requires d > 0
  {
    (n + d - 1) / d
  }

  lemma {:induction false} CeilDivBounds(n: nat, d: nat, q: nat)
    requires d > 0
    ensures q < CeilDiv(n, d) <==> q * d < n
  {
    var c := CeilDiv(n, d);
    assert c * d <= n + d - 1 < c * d + d;
    MulMonotone(q + 1, c, d);
    MulMonotone(c, q, d);
    PageEnd(q + 1, d);
  }

  lemma {:induction false} MulMonotone(a: nat, b: nat, d: nat)
    ensures a <= b ==> a * d <= b * d
  {
  }

  function PageTotal(n: nat, limit: nat): nat
    requires limit > 0
  {
    if n == 0 then 1 else CeilDiv(n, limit)
  }

  lemma {:induction false} LastPage(n: nat, limit: nat, pages: nat)
    requires limit > 0 && pages > 0 && (pages - 1) * limit <= n
    requires pages > 1 ==> (pages - 1) * limit < n
    ensures pages <= PageTotal(n, limit)
    ensures n - (pages - 1) * limit <= limit ==> pages == PageTotal(n, limit)
  {
    PageEnd(pages, limit);
    CeilDivBounds(n, limit, pages - 1);
    CeilDivBounds(n, limit, pages);
  }

  /** On a fixed table a walk emits a prefix of the sorted table; a complete walk emits all of it. */
  lemma {:induction false} FixedTableWalkItems(l: Listing, fetches: seq<Fetch>, sorted: seq<Row>)
    requires Deterministic(l.plan.terms) && l.Walk(fetches)
    requires Ascending(sorted, l.plan.terms) && FixedTable(fetches, sorted)
    ensures l.Emitted(fetches, |fetches|) <= sorted
    ensures l.Complete(fetches) ==> l.Emitted(fetches, |fetches|) == sorted
  {
    PageFacts(l, fetches, |fetches| - 1);
    FixedTablePage(l, fetches, sorted, |fetches| - 1);
    TakeJoin(sorted, PageStart(fetches, |fetches| - 1), fetches[|fetches| - 1].limit);
  }

  /** With one limit throughout, it takes at most max(1, ceil(n/limit)) pages, and exactly that many when complete. */
  lemma {:induction false} FixedTableWalkLength(l: Listing, fetches: seq<Fetch>, sorted: seq<Row>, limit: nat)
    requires Deterministic(l.plan.terms) && l.Walk(fetches) && forall f <- fetches :: f.limit == limit
    requires Ascending(sorted, l.plan.terms) && FixedTable(fetches, sorted)
    ensures limit > 0 && |fetches| <= PageTotal(|sorted|, limit)
    ensures l.Complete(fetches) ==> |fetches| == PageTotal(|sorted|, limit)
  {
    PageFacts(l, fetches, |fetches| - 1);
    FixedTablePage(l, fetches, sorted, |fetches| - 1);
    PageStartIs(fetches, |fetches| - 1, limit);
    LastPage(|sorted|, limit, |fetches|);
  }

  lemma {:induction false} TakeJoin(s: seq<Row>, k: nat, n: nat)
    requires k <= |s|
    ensures s[..k] + Take(s[k..], n) <= s
    ensures |s| - k <= n ==> s[..k] + Take(s[k..], n) == s
  {
    assert s == s[..k] + s[k..];
  }

  // ---------------------------------------------------------------- the two-column form

  /** `ORDER BY order_column, id_column` with PostgreSQL's default null placement. */
  function LegacyTerms(direction: Direction): seq<ResolvedTerm> {
    var nulls := if direction.Asc? then NullsLast else NullsFirst;
    [ResolvedTerm(SortField("position", "position", nulls, true, false), direction, nulls),
     ResolvedTerm(SortField("id", "id", nulls, false, true), direction, nulls)]
  }

  /**
   * `tuple_(order_column, id_column) < values` (or `>`): a NULL in the order column, or in the id column of rows that
   * are equal in the other, makes it UNKNOWN.
   */
  function LegacyBoundary(direction: Direction, row: Row, position: Cell, tie: Cell): Truth {
    if position.None? then Unknown
    else
      var first := if direction.Desc? then Less("position", position.value) else Greater("position", position.value);
      if tie.None? then
        if row.At("position") == position then Unknown else Holds(first, row)
      else
        var second := if direction.Desc? then Less("id", tie.value) else Greater("id", tie.value);
        Disjunction([first, And([Equal("position", position.value), second])], row)
  }

  lemma {:induction false} KeyBeforePair(terms: seq<ResolvedTerm>, a: Key, b: Key)
    requires |terms| == |a| == |b| == 2
    ensures KeyBefore(terms, a, b) <==>
      CellBefore(terms[0], a[0], b[0]) || (a[0] == b[0] && CellBefore(terms[1], a[1], b[1]))
  {
    assert KeyBefore(terms[1..], a[1..], b[1..]) <==> CellBefore(terms[1], a[1], b[1]);
  }

  /** The boundary follows the ORDER BY wherever it is not UNKNOWN. */
  lemma {:induction false} LegacyBoundaryExact(direction: Direction, row: Row, position: Cell, tie: Cell)
    ensures LegacyBoundary(direction, row, position, tie).True? <==>
      && position.Some? && row.At("position").Some?
      && (row.At("position") == position ==> tie.Some? && row.At("id").Some?)
      && KeyBefore(LegacyTerms(direction), [position, tie], KeyOf(LegacyTerms(direction), row))
  {
    var terms, key := LegacyTerms(direction), KeyOf(LegacyTerms(direction), row);
    assert key == [row.At("position"), row.At("id")];
    KeyBeforePair(terms, [position, tie], key);
    if position.Some? && tie.Some? {
      var conjunction :=
        [Equal("position", position.value),
         if direction.Desc? then Less("id", tie.value) else Greater("id", tie.value)];
      ConjunctionKeeps(conjunction, row);
      var criteria :=
        [if direction.Desc? then Less("position", position.value) else Greater("position", position.value),
         And(conjunction)];
      DisjunctionKeeps(criteria, row);
      assert LegacyBoundary(direction, row, position, tie) == Disjunction(criteria, row);
      assert Keeps(criteria[1], row) <==> Keeps(conjunction[0], row) && Keeps(conjunction[1], row);
    }
  }

  ghost predicate LegacyAgrees(direction: Direction, row: Row, position: Cell, tie: Cell) {
    LegacyBoundary(direction, row, position, tie).True? <==>
      KeyBefore(LegacyTerms(direction), [position, tie], KeyOf(LegacyTerms(direction), row))
  }

  /** Rows and cursors that columns of this nullability can hold. */
  predicate Holdable(row: Row, position: Cell, tie: Cell, positionNullable: bool, idNullable: bool) {
    && (!positionNullable ==> position.Some? && row.At("position").Some?)
    && (!idNullable ==> tie.Some? && row.At("id").Some?)
  }

  /** The two-column boundary follows its own ORDER BY on every row and cursor iff both columns are NOT NULL. */
  lemma {:induction false} LegacyExactIffNotNull(direction: Direction, positionNullable: bool, idNullable: bool)
    ensures (forall row: Row, position: Cell, tie: Cell ::
               Holdable(row, position, tie, positionNullable, idNullable) ==>
               LegacyAgrees(direction, row, position, tie))
      <==> !positionNullable && !idNullable
  {
    forall row: Row, position: Cell, tie: Cell | Holdable(row, position, tie, false, false)
      ensures LegacyAgrees(direction, row, position, tie)
    {
      LegacyBoundaryExact(direction, row, position, tie);
    }
    if positionNullable {
      LegacyLosesNullPosition(direction);
    }
    if idNullable {
      LegacyLosesNullId(direction);
    }
  }

  /** A failing input: at the cursor (NULL, 1), the other NULL row next to it in the order is never returned. */
  lemma {:induction false} LegacyLosesNullPosition(direction: Direction)
    ensures var row := Row(map["id" := Some(if direction.Asc? then 2 else 0)]);
      Holdable(row, None, Some(1), true, false) && !LegacyAgrees(direction, row, None, Some(1))
  {
    var row := Row(map["id" := Some(if direction.Asc? then 2 else 0)]);
    assert KeyOf(LegacyTerms(direction), row) == [None, row.At("id")];
    KeyBeforePair(LegacyTerms(direction), [None, Some(1)], KeyOf(LegacyTerms(direction), row));
  }

  /** Another: between (5, 1) and (5, NULL), one follows the other in the order, and is not returned after it. */
  lemma {:induction false} LegacyLosesNullId(direction: Direction)
    ensures var tie, id := if direction.Asc? then Some(1) else None, if direction.Asc? then None else Some(1);
      var row := Row(map["position" := Some(5), "id" := id]);
      Holdable(row, Some(5), tie, false, true) && !LegacyAgrees(direction, row, Some(5), tie)
  {
    var tie, id := if direction.Asc? then Some(1) else None, if direction.Asc? then None else Some(1);
    var row := Row(map["position" := Some(5), "id" := id]);
    assert KeyOf(LegacyTerms(direction), row) == [Some(5), id];
    KeyBeforePair(LegacyTerms(direction), [Some(5), tie], [Some(5), id]);
    LegacyBoundaryExact(direction, row, Some(5), tie);
  }

  // ---------------------------------------------------------------- offset pages

  datatype OffsetPage = OffsetPage(
    items: seq<Row>, page: int, limit: int, totalCount: Option<nat>, totalPages: Option<nat>,
    hasNextPage: bool, hasPreviousPage: bool)

  function Slice(all: seq<Row>, offset: nat, count: nat): seq<Row> {
    if offset >= |all| then [] else Take(all[offset..], count)
  }

  /** `paginate_offset_sync` on a statement whose ordered result is `all`. */
  function PaginateOffset(all: seq<Row>, page: int, limit: int, includeTotal: bool): Result<OffsetPage, PageError> {
    if page < 1 then Failure(PageOutOfRange)
    else if !(1 <= limit <= 500) then Failure(LimitOutOfRange)
    else
      var fetch := if includeTotal then limit else limit + 1;
      var rows := Slice(all, (page - 1) * limit, fetch);
      var hasNext := if includeTotal then page < CeilDiv(|all|, limit) else |rows| > limit;
      Success(OffsetPage(Take(rows, limit), page, limit,
                         if includeTotal then Some(|all|) else None,
                         if includeTotal then Some(CeilDiv(|all|, limit)) else None,
                         hasNext, page > 1))
  }

  /** Looking one row ahead and counting all rows give the same page and the same `has_next_page`. */
  lemma {:induction false} OffsetModesAgree(all: seq<Row>, page: int, limit: int)
    requires page >= 1 && 1 <= limit <= 500
    ensures var counted, ahead := PaginateOffset(all, page, limit, true), PaginateOffset(all, page, limit, false);
      && counted.Success? && ahead.Success?
      && counted.value.items == ahead.value.items
      && counted.value.hasNextPage == ahead.value.hasNextPage
  {
    CeilDivBounds(|all|, limit, page);
    PageEnd(page, limit);
    SliceAhead(all, (page - 1) * limit, limit);
  }

  lemma {:induction false} SliceAhead(all: seq<Row>, offset: nat, limit: nat)
    ensures Take(Slice(all, offset, limit), limit) == Take(Slice(all, offset, limit + 1), limit)
    ensures |Slice(all, offset, limit + 1)| > limit <==> offset + limit < |all|
  {
  }

  function OffsetItems(all: seq<Row>, limit: nat, pages: nat): seq<Row>
    requires 1 <= limit <= 500
  {
    if pages == 0 then []
    else OffsetItems(all, limit, pages - 1) + PaginateOffset(all, pages, limit, true).value.items
  }

  lemma {:induction false} OffsetItemsPrefix(all: seq<Row>, limit: nat, pages: nat)
    requires 1 <= limit <= 500
    ensures OffsetItems(all, limit, pages) == Take(all, pages * limit)
  {
    if pages > 0 {
      OffsetItemsPrefix(all, limit, pages - 1);
      var offset := (pages - 1) * limit;
      PageEnd(pages, limit);
      if offset < |all| {
        assert Take(all[offset..], limit) ==
          if offset + limit <= |all| then all[offset..offset + limit] else all[offset..];
      }
    }
  }

  /** Pages 1 to `total_pages` hold every row once, in order; the last of them is the first without a next page. */
  lemma {:induction false} OffsetPagesCoverTable(all: seq<Row>, limit: nat)
    requires 1 <= limit <= 500
    ensures OffsetItems(all, limit, CeilDiv(|all|, limit)) == all
    ensures forall page :: page >= 1 ==>
      (PaginateOffset(all, page, limit, false).value.hasNextPage <==> page < CeilDiv(|all|, limit))
  {
    var total := CeilDiv(|all|, limit);
    OffsetItemsPrefix(all, limit, total);
    CeilDivBounds(|all|, limit, total);
    forall page | page >= 1
      ensures PaginateOffset(all, page, limit, false).value.hasNextPage <==> page < total
    {
      OffsetModesAgree(all, page, limit);
    }
  }
}
