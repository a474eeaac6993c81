/** Finding the SQLSTATE in a graph of linked exceptions (database/errors.py). */
module ErrorGraph {
  import opened Wrappers

  type Id = nat

  /** What the attributes of an exception hold, where they are text or another exception. */
  datatype Exc = Exc(
    sqlstate: Option<string>, pgcode: Option<string>, orig: Option<Id>, cause: Option<Id>, context: Option<Id>)

  type Heap = map<Id, Exc>

  predicate Closed(heap: Heap) {
    forall id <- heap :: forall link <- Links(heap[id]) :: link in heap
  }

  function One(link: Option<Id>): seq<Id> { if link.Some? then [link.value] else [] }

  /** In the order they are pushed. */
  function Links(e: Exc): seq<Id> { One(e.orig) + One(e.cause) + One(e.context) }

  /** A five-character code of the exception itself. */
  function Code(e: Exc): Option<string> {
    if e.sqlstate.Some? && |e.sqlstate.value| == 5 then e.sqlstate
    else if e.pgcode.Some? && |e.pgcode.value| == 5 then e.pgcode
    else None
  }

  const LIMIT: nat := 16

  predicate AllIn(heap: Heap, ids: seq<Id>) {
    forall id <- ids :: id in heap
  }

  /** The search from a stack of exceptions still to look at. */
  function Search(heap: Heap, pending: seq<Id>, visited: set<Id>): Option<string>
    requires Closed(heap) && AllIn(heap, pending)
    decreases LIMIT - |visited|, |pending|
  {
    if pending == [] || |visited| >= LIMIT then None
    else
      var current, rest := pending[|pending| - 1], pending[..|pending| - 1];
      if current in visited then Search(heap, rest, visited)
      else if Code(heap[current]).Some? then Code(heap[current])
      else Search(heap, rest + Links(heap[current]), visited + {current})
  }

  /** `get_sqlstate`: ends on every graph, by visits left and then by exceptions pending. */
  method GetSqlstate(heap: Heap, error: Id) returns (code: Option<string>)
    requires Closed(heap) && error in heap
    ensures code == Search(heap, [error], {})
  {
    var pending: seq<Id> := [error];
    var visited: set<Id> := {};
    while pending != [] && |visited| < LIMIT
      invariant AllIn(heap, pending) && |visited| <= LIMIT
      invariant Search(heap, pending, visited) == Search(heap, [error], {})
      decreases LIMIT - |visited|, |pending|
    {
      var current := pending[|pending| - 1];
      pending := pending[..|pending| - 1];
      if current in visited {
        continue;
      }
      var e := heap[current];
      if e.sqlstate.Some? && |e.sqlstate.value| == 5 {
        return e.sqlstate;
      }
      if e.pgcode.Some? && |e.pgcode.value| == 5 {
        return e.pgcode;
      }
      visited := visited + {current};
      pending := pending + Links(e);
    }
    return None;
  }

  // ---------------------------------------------------------------- reachability

  ghost predicate IsPath(heap: Heap, path: seq<Id>, from: Id, to: Id) {
    && |path| > 0 && path[0] == from && path[|path| - 1] == to
    && (forall i :: 0 <= i < |path| ==> path[i] in heap)
    && (forall i :: 0 < i < |path| ==> path[i] in Links(heap[path[i - 1]]))
  }

  ghost predicate Reachable(heap: Heap, from: Id, to: Id) {
    exists path :: IsPath(heap, path, from, to)
  }

  ghost function Reach(heap: Heap, from: Id): set<Id> {
    set id <- heap | Reachable(heap, from, id)
  }

  lemma {:induction false} ReachSelf(heap: Heap, from: Id)
    requires from in heap
    ensures Reachable(heap, from, from)
  {
    assert IsPath(heap, [from], from, from);
  }

  lemma {:induction false} ReachMore(heap: Heap, from: Id, via: Id, to: Id)
    requires Reachable(heap, from, via) && via in heap && to in Links(heap[via]) && to in heap
    ensures Reachable(heap, from, to)
  {
    var path :| IsPath(heap, path, from, via);
    var more := path + [to];
    forall i | 0 < i < |more| ensures more[i] in Links(heap[more[i - 1]]) {
      if i < |path| {
        assert more[i] == path[i] && more[i - 1] == path[i - 1];
      }
    }
    assert IsPath(heap, more, from, to);
  }

  ghost predicate AllReachable(heap: Heap, from: Id, ids: seq<Id>) {
    forall id <- ids :: Reachable(heap, from, id)
  }

  lemma {:induction false} PushReachable(heap: Heap, from: Id, rest: seq<Id>, current: Id)
    requires Closed(heap) && current in heap && Reachable(heap, from, current) && AllReachable(heap, from, rest)
    ensures AllReachable(heap, from, rest + Links(heap[current]))
  {
    forall id | id in Links(heap[current]) ensures Reachable(heap, from, id) {
      ReachMore(heap, from, current, id);
    }
  }

  // ---------------------------------------------------------------- only codes that are there

  /** A code is found only at an exception that can be reached. */
  lemma {:induction false} FoundIsHeld(heap: Heap, from: Id, pending: seq<Id>, visited: set<Id>) returns (holder: Id)
    requires Closed(heap) && AllIn(heap, pending) && AllReachable(heap, from, pending)
    requires Search(heap, pending, visited).Some?
    ensures holder in heap && Reachable(heap, from, holder) && Code(heap[holder]) == Search(heap, pending, visited)
    decreases LIMIT - |visited|, |pending|
  {
    var current, rest := pending[|pending| - 1], pending[..|pending| - 1];
    if current in visited {
      holder := FoundIsHeld(heap, from, rest, visited);
    } else if Code(heap[current]).Some? {
      holder := current;
    } else {
      PushReachable(heap, from, rest, current);
      holder := FoundIsHeld(heap, from, rest + Links(heap[current]), visited + {current});
    }
  }

  // ---------------------------------------------------------------- no code is missed

  /** Links from visited exceptions lead to visited or pending ones. */
  ghost predicate Frontier(heap: Heap, pending: seq<Id>, visited: set<Id>) {
    forall v <- visited :: v in heap && Code(heap[v]).None? &&
      forall link <- Links(heap[v]) :: link in visited || link in pending
  }

  ghost predicate Within(heap: Heap, from: Id, visited: set<Id>) {
    forall v <- visited :: v in heap && Reachable(heap, from, v)
  }

  lemma {:induction false} ClosedCovers(heap: Heap, from: Id, visited: set<Id>, path: seq<Id>, to: Id, k: nat)
    requires IsPath(heap, path, from, to) && k < |path| && from in visited
    requires forall v <- visited :: v in heap && forall link <- Links(heap[v]) :: link in visited
    ensures path[k] in visited
    decreases k
  {
    if k > 0 {
      ClosedCovers(heap, from, visited, path, to, k - 1);
    }
  }

  /** When the search ends with nothing, what it visited has no code, and is all there is or as much as it looks at. */
  lemma {:induction false} NothingFound(heap: Heap, from: Id, pending: seq<Id>, visited: set<Id>)
    returns (seen: set<Id>)
    requires Closed(heap) && AllIn(heap, pending) && AllReachable(heap, from, pending)
    requires Frontier(heap, pending, visited) && Within(heap, from, visited) && |visited| <= LIMIT
    requires from in visited || from in pending
    requires Search(heap, pending, visited).None?
    ensures Within(heap, from, seen) && forall v <- seen :: Code(heap[v]).None?
    ensures |seen| == LIMIT || seen == Reach(heap, from)
    decreases LIMIT - |visited|, |pending|
  {
    if pending == [] {
      seen := visited;
      forall id | id in Reach(heap, from) ensures id in visited {
        var path :| IsPath(heap, path, from, id);
        ClosedCovers(heap, from, visited, path, id, |path| - 1);
      }
      assert seen == Reach(heap, from);
    } else if |visited| >= LIMIT {
      seen := visited;
    } else {
      var current, rest := pending[|pending| - 1], pending[..|pending| - 1];
      assert pending == rest + [current];
      if current in visited {
        assert forall id <- pending :: id in rest || id in visited;
        seen := NothingFound(heap, from, rest, visited);
      } else {
        PushReachable(heap, from, rest, current);
        FrontierMoves(heap, rest, current, visited);
        seen := NothingFound(heap, from, rest + Links(heap[current]), visited + {current});
      }
    }
  }

  lemma {:induction false} FrontierMoves(heap: Heap, rest: seq<Id>, current: Id, visited: set<Id>)
    requires Frontier(heap, rest + [current], visited) && current in heap && Code(heap[current]).None?
    ensures Frontier(heap, rest + Links(heap[current]), visited + {current})
  {
    var pending := rest + Links(heap[current]);
    var more := visited + {current};
    forall v, link | v in more && link in Links(heap[v]) ensures link in more || link in pending {
      if v != current {
        assert link in visited || link in rest + [current];
      }
    }
  }

  lemma {:induction false} SmallerIsAll(part: set<Id>, whole: set<Id>)
    requires part <= whole && |whole| <= |part|
    ensures part == whole
  {
    if part != whole {
      var x :| x in whole && x !in part;
      SubsetSize(part, whole - {x});
    }
  }

  lemma {:induction false} SubsetSize(a: set<Id>, b: set<Id>)
    requires a <= b
    ensures |a| <= |b|
    decreases a
  {
    if a != {} {
      var x :| x in a;
      SubsetSize(a - {x}, b - {x});
    }
  }

  /** With at most sixteen exceptions to reach, a code is returned exactly when one of them holds one. */
  lemma {:induction false} FoundIffHeld(heap: Heap, error: Id)
    requires Closed(heap) && error in heap && |Reach(heap, error)| <= LIMIT
    ensures Search(heap, [error], {}).Some? <==> exists id <- Reach(heap, error) :: Code(heap[id]).Some?
  {
    ReachSelf(heap, error);
    if Search(heap, [error], {}).Some? {
      var holder := FoundIsHeld(heap, error, [error], {});
      assert holder in Reach(heap, error);
    } else {
      var seen := NothingFound(heap, error, [error], {});
      assert seen <= Reach(heap, error);
      if |seen| == LIMIT {
        SmallerIsAll(seen, Reach(heap, error));
      }
    }
  }

  /** The error's own code comes first, then, of the exceptions it links to, that of the last link it has. */
  lemma {:induction false} NearestFirst(heap: Heap, error: Id)
    requires Closed(heap) && error in heap
    ensures Code(heap[error]).Some? ==> Search(heap, [error], {}) == Code(heap[error])
    ensures var links := Links(heap[error]);
      Code(heap[error]).None? && links != [] && Code(heap[links[|links| - 1]]).Some? ==>
        Search(heap, [error], {}) == Code(heap[links[|links| - 1]])
  {
    var links := Links(heap[error]);
    assert [error][..0] == [] && [] + links == links;
    assert Code(heap[error]).None? ==> Search(heap, [error], {}) == Search(heap, links, {error});
  }

  // ---------------------------------------------------------------- the limit

  const LATE := "40001"

  function Below(k: nat): (ids: set<Id>)
    ensures |ids| == k && forall id: Id :: id in ids <==> id < k
  {
    if k == 0 then {} else Below(k - 1) + {k - 1}
  }

  function ChainLink(n: nat, id: Id): Exc {
    Exc(if id == n - 1 then Some(LATE) else None, None, None, if id < n - 1 then Some(id + 1) else None, None)
  }

  /** `n` exceptions, each the cause of the one before; only the last has a code. */
  function Chain(n: nat): Heap {
    map id | id in Below(n) :: ChainLink(n, id)
  }

  lemma {:induction false} ChainAt(n: nat, k: nat)
    requires k < n
    ensures k in Chain(n) && Links(Chain(n)[k]) == (if k < n - 1 then [k + 1] else [])
    ensures Code(Chain(n)[k]) == if k == n - 1 then Some(LATE) else None
  {
    assert Chain(n)[k] == ChainLink(n, k);
  }

  lemma {:induction false} ChainClosed(n: nat)
    ensures Closed(Chain(n))
  {
    forall id | id in Chain(n) ensures forall link <- Links(Chain(n)[id]) :: link in Chain(n) {
      ChainAt(n, id);
    }
  }

  /** The search goes on to the only link of an exception without a code. */
  lemma {:induction false} SearchStep(heap: Heap, current: Id, next: Id, visited: set<Id>)
    requires Closed(heap) && current in heap && Links(heap[current]) == [next] && Code(heap[current]).None?
    requires current !in visited && |visited| < LIMIT
    ensures next in heap && Search(heap, [current], visited) == Search(heap, [next], visited + {current})
  {
    var none: seq<Id> := [];
    assert [current][..0] == none && none + [next] == [next];
    assert next in Links(heap[current]);
  }

  /** The exception has the next one for its only link, and no code. */
  predicate Passes(heap: Heap, k: Id) {
    k in heap && Links(heap[k]) == [k + 1] && Code(heap[k]).None?
  }

  lemma {:induction false} LimitReached(heap: Heap, pending: seq<Id>, visited: set<Id>)
    requires Closed(heap) && AllIn(heap, pending) && |visited| >= LIMIT
    ensures Search(heap, pending, visited) == None
  {
  }

  lemma {:induction false} PassesOn(heap: Heap, k: nat, visited: set<Id>)
    requires Closed(heap) && k in heap && |visited| == k <= LIMIT && forall v <- visited :: v < k
    requires forall j: nat :: j < LIMIT ==> Passes(heap, j)
    ensures Search(heap, [k], visited) == None
    decreases LIMIT - k
  {
    if k < LIMIT {
      assert Passes(heap, k);
      SearchStep(heap, k, k + 1, visited);
      PassesOn(heap, k + 1, visited + {k});
    } else {
      LimitReached(heap, [k], visited);
    }
  }

  lemma {:induction false} ChainSearch(n: nat)
    requires n > LIMIT
    ensures Closed(Chain(n)) && 0 in Chain(n) && Search(Chain(n), [0], {}) == None
  {
    ChainClosed(n);
    ChainAt(n, 0);
    forall j: nat | j < LIMIT ensures Passes(Chain(n), j) {
      ChainAt(n, j);
    }
    PassesOn(Chain(n), 0, {});
  }

  lemma {:induction false} ChainReached(n: nat, k: nat)
    requires k < n
    ensures Reachable(Chain(n), 0, k)
  {
    ChainAt(n, k);
    if k == 0 {
      ReachSelf(Chain(n), 0);
    } else {
      ChainReached(n, k - 1);
      ChainAt(n, k - 1);
      ReachMore(Chain(n), 0, k - 1, k);
    }
  }

  lemma {:induction false} ChainReach(n: nat)
    requires n > 0
    ensures Reach(Chain(n), 0) == Below(n) && |Reach(Chain(n), 0)| == n
  {
    forall k | k in Below(n) ensures Reachable(Chain(n), 0, k) {
      ChainReached(n, k);
    }
    assert Chain(n).Keys == Below(n);
  }

  /** A failing input for each length above the limit: the whole chain is reached, its last alone holds the code. */
  lemma {:induction false} LongChainMissed(n: nat)
    requires n > LIMIT
    ensures Closed(Chain(n)) && 0 in Chain(n) && n - 1 in Reach(Chain(n), 0) && |Reach(Chain(n), 0)| == n
    ensures forall id <- Chain(n) :: Code(Chain(n)[id]) == if id == n - 1 then Some(LATE) else None
    ensures Search(Chain(n), [0], {}) == None
  {
    ChainReach(n);
    ChainSearch(n);
    forall id | id in Chain(n) ensures Code(Chain(n)[id]) == if id == n - 1 then Some(LATE) else None {
      ChainAt(n, id);
    }
  }

  /** A code held by an exception that can be reached is found. */
  ghost predicate Finds(heap: Heap, error: Id) {
    Closed(heap) && error in heap && (exists id <- Reach(heap, error) :: Code(heap[id]).Some?) ==>
      Search(heap, [error], {}).Some?
  }

  /** Sixteen is the largest number of reachable exceptions among which a held code is always found. */
  lemma {:induction false} LimitExact(n: nat)
    ensures (forall heap, error :: |Reach(heap, error)| <= n ==> Finds(heap, error)) <==> n <= LIMIT
  {
    if n <= LIMIT {
      forall heap, error | |Reach(heap, error)| <= n ensures Finds(heap, error) {
        if Closed(heap) && error in heap {
          FoundIffHeld(heap, error);
        }
      }
    } else {
      LongChainMissed(n);
      var heap := Chain(n);
      assert n - 1 in Reach(heap, 0) && Code(heap[n - 1]).Some?;
      assert !Finds(heap, 0);
    }
  }
}
