/** Walks whose cursors are sent as signed tokens (database/pagination.py). */
module PageTokens {
  import opened Wrappers
  import opened Sql
  import opened Sorting
  import opened Pagination
  import Codecs = CursorCodec
  import Values = CursorValues

  /** The codec and the Python it runs on; a cursor nests its values two deep in its payload. */
  datatype Wire = Wire(codec: Codecs.Codec, py: Values.Python) {
    ghost predicate Sound() {
      codec.Sound() && py.Sound() && codec.nesting == py.nesting + 2
    }
  }

  function ValueOf(cell: Cell): Values.Value {
    if cell.None? then Values.NoneValue else Values.IntValue(cell.value)
  }

  function CellOf(value: Values.Value): Cell {
    if value.IntValue? then Some(value.i) else None
  }

  function ValuesOf(key: Key): seq<Values.Value> {
    seq(|key|, i requires 0 <= i < |key| => ValueOf(key[i]))
  }

  function Columns(n: nat): seq<Values.ColumnType> {
    seq(n, _ => Values.IntColumn)
  }

  /** The token `_build_sorted_page` issues; `None` where it raises. */
  function TokenOf(w: Wire, cursor: CursorState): Option<string> {
    var state := Values.StateOf(cursor.sortFingerprint, ValuesOf(cursor.values), cursor.queryFingerprint);
    if state.None? then None else w.codec.EncodeState(state.value)
  }

  ghost predicate Coerces(w: Wire, json: seq<Codecs.Json>) {
    forall i :: 0 <= i < |json| ==> w.py.Coerce(Values.IntColumn, json[i]).Some?
  }

  /** `_prepare_sorted_query` on a token; `None` where it raises. */
  ghost function PrepareToken(w: Wire, l: Listing, token: string, limit: int): Option<Query> {
    if !(1 <= limit <= 500) then None
    else
      var decoded := w.codec.DecodeState(token);
      if decoded.Failure? || decoded.value.sortFingerprint != l.plan.fingerprint
         || decoded.value.queryFingerprint != l.queryFingerprint
         || |decoded.value.values| != |l.plan.terms| || !Coerces(w, decoded.value.values) then None
      else
        var json := decoded.value.values;
        var key := seq(|json|, i requires 0 <= i < |json| => CellOf(w.py.Coerce(Values.IntColumn, json[i]).value));
        Some(Query(Some(BoundaryCriterion(l.plan.terms, key)), l.plan.terms, limit + 1))
  }

  predicate AllFit(key: Key) {
    forall i :: 0 <= i < |key| ==> key[i].Some? ==> Codecs.Fits(key[i].value)
  }

  /** A cursor of integers of 64 bits can be sent, and prepares the query that the cursor itself would. */
  lemma {:induction false} TokenPrepares(w: Wire, l: Listing, cursor: CursorState, limit: int)
    requires w.Sound() && AllFit(cursor.values)
    ensures TokenOf(w, cursor).Some?
    ensures PrepareToken(w, l, TokenOf(w, cursor).value, limit) ==
      match PrepareSortedQuery(l.plan, Some(cursor), limit, l.queryFingerprint)
      case Success(query) => Some(query)
      case Failure(_) => None
  {
    var key, values, columns := cursor.values, ValuesOf(cursor.values), Columns(|cursor.values|);
    forall i | 0 <= i < |values| ensures Values.Carried(columns[i], values[i], w.py.nesting) {
    }
    Values.CursorRestores(w.codec, w.py, columns, values, cursor.sortFingerprint, cursor.queryFingerprint);
    var json := Values.StateOf(cursor.sortFingerprint, values, cursor.queryFingerprint).value.values;
    forall i | 0 <= i < |json| ensures w.py.Coerce(Values.IntColumn, json[i]) == Some(ValueOf(key[i])) {
      assert columns[i] == Values.IntColumn && values[i] == ValueOf(key[i]);
    }
    assert Coerces(w, json);
    assert key == seq(|json|, i requires 0 <= i < |json| => CellOf(w.py.Coerce(Values.IntColumn, json[i]).value));
  }

  // ---------------------------------------------------------------- walks by token

  /** The fetch answers the query prepared for the token. */
  ghost predicate TokenFetched(w: Wire, l: Listing, token: string, f: Fetch) {
    var query := PrepareToken(w, l, token, f.limit);
    ConstrainedFor(f.table, l.plan.terms) && query.Some? && Answers(f.rows, f.all, f.table, query.value)
  }

  /** Fetch `i` is made with the token of the page before it, the first one with none. */
  ghost predicate TokenFetchedAt(w: Wire, l: Listing, fetches: seq<Fetch>, i: nat) {
    && i < |fetches|
    && (i == 0 ==> l.Fetched(None, fetches[0]))
    && (i > 0 ==>
          var cursor := l.CursorAt(fetches, i);
          && cursor.Some? && TokenOf(w, cursor.value).Some?
          && TokenFetched(w, l, TokenOf(w, cursor.value).value, fetches[i]))
  }

  ghost predicate TokenWalk(w: Wire, l: Listing, fetches: seq<Fetch>) {
    fetches != [] && forall i: nat {:trigger TokenFetchedAt(w, l, fetches, i)} :: i < |fetches| ==>
      TokenFetchedAt(w, l, fetches, i)
  }

  /** The sort values of every page are integers of 64 bits. */
  ghost predicate RowsFit(l: Listing, fetches: seq<Fetch>) {
    forall i: nat :: i < |fetches| ==> CursorFits(l, fetches, i)
  }

  predicate CursorFits(l: Listing, fetches: seq<Fetch>, i: nat)
    requires i < |fetches|
  {
    var cursor := l.PageOf(fetches[i]).nextCursor;
    cursor.Some? ==> AllFit(cursor.value.values)
  }

  lemma {:induction false} TokenFetchIsFetch(w: Wire, l: Listing, cursor: CursorState, f: Fetch)
    requires w.Sound() && AllFit(cursor.values)
    ensures TokenOf(w, cursor).Some?
    ensures TokenFetched(w, l, TokenOf(w, cursor).value, f) <==> l.Fetched(Some(cursor), f)
  {
    TokenPrepares(w, l, cursor, f.limit);
  }

  /** Walking by signed tokens is walking by cursors: what is proved of the one holds of the other. */
  lemma {:induction false} TokenWalkIsWalk(w: Wire, l: Listing, fetches: seq<Fetch>)
    requires w.Sound() && RowsFit(l, fetches)
    ensures TokenWalk(w, l, fetches) <==> l.Walk(fetches)
  {
    forall i: nat | i < |fetches| ensures TokenFetchedAt(w, l, fetches, i) <==> l.FetchedAt(fetches, i) {
      if i > 0 && l.CursorAt(fetches, i).Some? {
        assert CursorFits(l, fetches, i - 1);
        TokenFetchIsFetch(w, l, l.CursorAt(fetches, i).value, fetches[i]);
      }
    }
  }

  /** So a walk by tokens emits rows in strictly increasing order, each key that stays present exactly once. */
  lemma {:induction false} TokenWalkCovers(w: Wire, l: Listing, fetches: seq<Fetch>, key: Key) returns (at: nat)
    requires w.Sound() && RowsFit(l, fetches) && Deterministic(l.plan.terms)
    requires TokenWalk(w, l, fetches) && l.Complete(fetches) && StaysPresent(l, fetches, key)
    ensures Ascending(l.Emitted(fetches, |fetches|), l.plan.terms)
    ensures KeyOnlyAt(l.plan.terms, l.Emitted(fetches, |fetches|), key, at)
  {
    TokenWalkIsWalk(w, l, fetches);
    WalkStrictlyIncreasing(l, fetches);
    at := WalkCoversStableKeysOnce(l, fetches, key);
  }
}
