/** Redaction of payloads as they are in memory, where containers may be shared or contain themselves. */
module AuditGraph {
  import opened Wrappers
  import opened Audit

  type Id = nat

  datatype Field = Field(key: string, item: Id)

  datatype Node =
    | TextNode(text: string)
    | AtomNode(atom: int)
    | DictNode(fields: seq<Field>)
    | ListNode(items: seq<Id>, tuple: bool)

  /** The objects of a payload; `reprs` gives the repr of each. */
  datatype Graph = Graph(policy: AuditPolicy, nodes: map<Id, Node>, reprs: map<Id, string>) {
    predicate Valid() {
      && reprs.Keys == nodes.Keys
      && forall id <- nodes ::
           match nodes[id]
           case DictNode(fields) => forall i :: 0 <= i < |fields| ==> fields[i].item in nodes
           case ListNode(items, _) => forall i :: 0 <= i < |items| ==> items[i] in nodes
           case _ => true
    }

    /** How much deeper the walk may still go. */
    function Room(depth: int): nat {
      if depth > policy.maxDepth then 0 else policy.maxDepth - depth + 1
    }
  }

  // ---------------------------------------------------------------- what the walk returns

  function Walk(g: Graph, id: Id, path: Path, visited: set<Id>, depth: int): Result<Option<Value>, AuditError>
    requires g.Valid() && id in g.nodes
    decreases g.Room(depth), 1, 0
  {
    if depth > g.policy.maxDepth then Failure(TooDeep)
    else
      match g.policy.Action(path)
      case Mask => Success(Some(Text(g.policy.mask)))
      case Drop => Success(None)
      case Reject => Failure(Forbidden(path))
      case Hash => g.policy.Hashed(g.reprs[id])
      case Keep =>
        match g.nodes[id]
        case TextNode(text) => Success(Some(Text(text)))
        case AtomNode(atom) => Success(Some(Atom(atom)))
        case DictNode(fields) =>
          if id in visited then Failure(Cycle)
          else
            var sanitized :- WalkFields(g, fields, path, visited + {id}, depth);
            Success(Some(Dict(sanitized)))
        case ListNode(items, _) =>
          if id in visited then Failure(Cycle)
          else
            var sanitized :- WalkItems(g, items, path, visited + {id}, depth);
            Success(Some(Sequence(sanitized, false)))
  }

  function WalkFields(g: Graph, fields: seq<Field>, path: Path, visited: set<Id>, depth: int)
    : Result<seq<Entry>, AuditError>
    requires g.Valid() && depth <= g.policy.maxDepth
    requires forall i :: 0 <= i < |fields| ==> fields[i].item in g.nodes
    decreases g.Room(depth), 0, |fields|
  {
    if fields == [] then Success([])
    else
      var last := fields[|fields| - 1];
      var before :- WalkFields(g, fields[..|fields| - 1], path, visited, depth);
      var result :- Walk(g, last.item, path + [last.key], visited, depth + 1);
      Success(if result.Some? then Put(before, last.key, result.value) else before)
  }

  function WalkItems(g: Graph, items: seq<Id>, path: Path, visited: set<Id>, depth: int): Result<seq<Value>, AuditError>
    requires g.Valid() && depth <= g.policy.maxDepth
    requires forall i :: 0 <= i < |items| ==> items[i] in g.nodes
    decreases g.Room(depth), 0, |items|
  {
    if items == [] then Success([])
    else
      var n := |items| - 1;
      var before :- WalkItems(g, items[..n], path, visited, depth);
      var result :- Walk(g, items[n], path + [IndexText(n)], visited, depth + 1);
      Success(if result.Some? then before + [result.value] else before)
  }

  // ---------------------------------------------------------------- the walk

  /** One call of `sanitize`; `visited` holds the containers around the value being sanitized. */
  class AuditWalk {
    const g: Graph
    var visited: set<Id>

    constructor (g: Graph)
      ensures this.g == g && visited == {}
    {
      this.g, visited := g, {};
    }

    /** `_sanitize`: ends on every graph, and leaves `visited` as it found it unless it raises. */
    method Sanitize(id: Id, path: Path, depth: int) returns (r: Result<Option<Value>, AuditError>)
      requires g.Valid() && id in g.nodes
      modifies this
      ensures r == Walk(g, id, path, old(visited), depth)
      ensures r.Success? ==> visited == old(visited)
      decreases g.Room(depth), 1
    {
      if depth > g.policy.maxDepth {
        return Failure(TooDeep);
      }
      match g.policy.Action(path)
      case Mask => return Success(Some(Text(g.policy.mask)));
      case Drop => return Success(None);
      case Reject => return Failure(Forbidden(path));
      case Hash => return g.policy.Hashed(g.reprs[id]);
      case Keep =>
        match g.nodes[id]
        case TextNode(text) => return Success(Some(Text(text)));
        case AtomNode(atom) => return Success(Some(Atom(atom)));
        case DictNode(fields) => r := SanitizeDict(id, fields, path, depth);
        case ListNode(items, _) => r := SanitizeList(id, items, path, depth);
    }

    method SanitizeDict(
      id: Id, fields: seq<Field>, path: Path, depth: int) returns (r: Result<Option<Value>, AuditError>)
      requires g.Valid() && depth <= g.policy.maxDepth
      requires forall i :: 0 <= i < |fields| ==> fields[i].item in g.nodes
      modifies this
      ensures id in old(visited) ==> r == Failure(Cycle)
      ensures id !in old(visited) ==>
        var walked := WalkFields(g, fields, path, old(visited) + {id}, depth);
        r == if walked.Failure? then Failure(walked.error) else Success(Some(Dict(walked.value)))
      ensures r.Success? ==> visited == old(visited)
      decreases g.Room(depth), 0
    {
      if id in visited {
        return Failure(Cycle);
      }
      visited := visited + {id};
      var sanitized: seq<Entry> := [];
      for i := 0 to |fields|
        invariant visited == old(visited) + {id}
        invariant WalkFields(g, fields[..i], path, visited, depth) == Success(sanitized)
      {
        assert fields[..i + 1][..i] == fields[..i];
        var result := Sanitize(fields[i].item, path + [fields[i].key], depth + 1);
        if result.Failure? {
          assert WalkFields(g, fields[..i + 1], path, old(visited) + {id}, depth) == Failure(result.error);
          FieldsFail(g, fields, i + 1, path, old(visited) + {id}, depth);
          return Failure(result.error);
        }
        if result.value.Some? {
          sanitized := Put(sanitized, fields[i].key, result.value.value);
        }
      }
      assert fields[..|fields|] == fields;
      visited := visited - {id};
      return Success(Some(Dict(sanitized)));
    }

    method SanitizeList(id: Id, items: seq<Id>, path: Path, depth: int) returns (r: Result<Option<Value>, AuditError>)
      requires g.Valid() && depth <= g.policy.maxDepth
      requires forall i :: 0 <= i < |items| ==> items[i] in g.nodes
      modifies this
      ensures id in old(visited) ==> r == Failure(Cycle)
      ensures id !in old(visited) ==>
        var walked := WalkItems(g, items, path, old(visited) + {id}, depth);
        r == if walked.Failure? then Failure(walked.error) else Success(Some(Sequence(walked.value, false)))
      ensures r.Success? ==> visited == old(visited)
      decreases g.Room(depth), 0
    {
      if id in visited {
        return Failure(Cycle);
      }
      visited := visited + {id};
      var sanitized: seq<Value> := [];
      for i := 0 to |items|
        invariant visited == old(visited) + {id}
        invariant WalkItems(g, items[..i], path, visited, depth) == Success(sanitized)
      {
        assert items[..i + 1][..i] == items[..i];
        var result := Sanitize(items[i], path + [IndexText(i)], depth + 1);
        if result.Failure? {
          assert WalkItems(g, items[..i + 1], path, old(visited) + {id}, depth) == Failure(result.error);
          ItemsFail(g, items, i + 1, path, old(visited) + {id}, depth);
          return Failure(result.error);
        }
        if result.value.Some? {
          sanitized := sanitized + [result.value.value];
        }
      }
      assert items[..|items|] == items;
      visited := visited - {id};
      return Success(Some(Sequence(sanitized, false)));
    }
  }

  lemma {:induction false} FieldsFail(g: Graph, fields: seq<Field>, k: nat, path: Path, visited: set<Id>, depth: int)
    requires g.Valid() && depth <= g.policy.maxDepth && k <= |fields|
    requires forall i :: 0 <= i < |fields| ==> fields[i].item in g.nodes
    requires WalkFields(g, fields[..k], path, visited, depth).Failure?
    ensures WalkFields(g, fields, path, visited, depth) == WalkFields(g, fields[..k], path, visited, depth)
    decreases |fields|
  {
    if k == |fields| {
      assert fields[..k] == fields;
    } else {
      var n := |fields| - 1;
      assert fields[..n][..k] == fields[..k];
      FieldsFail(g, fields[..n], k, path, visited, depth);
    }
  }

  lemma {:induction false} ItemsFail(g: Graph, items: seq<Id>, k: nat, path: Path, visited: set<Id>, depth: int)
    requires g.Valid() && depth <= g.policy.maxDepth && k <= |items|
    requires forall i :: 0 <= i < |items| ==> items[i] in g.nodes
    requires WalkItems(g, items[..k], path, visited, depth).Failure?
    ensures WalkItems(g, items, path, visited, depth) == WalkItems(g, items[..k], path, visited, depth)
    decreases |items|
  {
    if k == |items| {
      assert items[..k] == items;
    } else {
      var n := |items| - 1;
      assert items[..n][..k] == items[..k];
      ItemsFail(g, items[..n], k, path, visited, depth);
    }
  }

  // ---------------------------------------------------------------- graphs without cycles are trees

  /** Followed from `id`, the graph is the finite tree `value`; parts of it may be shared. */
  predicate Represents(g: Graph, id: Id, value: Value)
    requires g.Valid() && id in g.nodes
    decreases value
  {
    && g.reprs[id] == g.policy.repr(value)
    && match g.nodes[id]
       case TextNode(text) => value == Text(text)
       case AtomNode(atom) => value == Atom(atom)
       case DictNode(fields) => value.Dict? && FieldsRepresent(g, fields, value.entries)
       case ListNode(items, tuple) => value.Sequence? && value.tuple == tuple && ItemsRepresent(g, items, value.items)
  }

  predicate FieldsRepresent(g: Graph, fields: seq<Field>, entries: seq<Entry>)
    requires g.Valid() && forall i :: 0 <= i < |fields| ==> fields[i].item in g.nodes
    decreases entries
  {
    |fields| == |entries| &&
    forall i :: 0 <= i < |fields| ==> fields[i].key == entries[i].key && Represents(g, fields[i].item, entries[i].value)
  }

  predicate ItemsRepresent(g: Graph, items: seq<Id>, values: seq<Value>)
    requires g.Valid() && forall i :: 0 <= i < |items| ==> items[i] in g.nodes
    decreases values
  {
    |items| == |values| && forall i :: 0 <= i < |items| ==> Represents(g, items[i], values[i])
  }

  lemma {:induction false} RepresentsOne(g: Graph, id: Id, v: Value, w: Value)
    requires g.Valid() && id in g.nodes && Represents(g, id, v) && Represents(g, id, w)
    ensures v == w
    decreases v
  {
    match g.nodes[id]
    case DictNode(fields) =>
      forall i | 0 <= i < |fields| ensures v.entries[i] == w.entries[i] {
        RepresentsOne(g, fields[i].item, v.entries[i].value, w.entries[i].value);
      }
    case ListNode(items, _) =>
      forall i | 0 <= i < |items| ensures v.items[i] == w.items[i] {
        RepresentsOne(g, items[i], v.items[i], w.items[i]);
      }
    case _ =>
  }

  function Size(value: Value): nat
    decreases value
  {
    match value
    case Dict(entries) => 1 + EntriesSize(entries)
    case Sequence(items, _) => 1 + ItemsSize(items)
    case _ => 1
  }

  function EntriesSize(entries: seq<Entry>): nat
    decreases entries
  {
    if entries == [] then 0 else Size(entries[0].value) + EntriesSize(entries[1..])
  }

  function ItemsSize(items: seq<Value>): nat
    decreases items
  {
    if items == [] then 0 else Size(items[0]) + ItemsSize(items[1..])
  }

  lemma {:induction false} EntrySmaller(entries: seq<Entry>, i: nat)
    requires i < |entries|
    ensures Size(entries[i].value) < Size(Dict(entries))
    decreases i
  {
    if i > 0 {
      EntrySmaller(entries[1..], i - 1);
    }
  }

  lemma {:induction false} ItemSmaller(items: seq<Value>, tuple: bool, i: nat)
    requires i < |items|
    ensures Size(items[i]) < Size(Sequence(items, tuple))
    decreases i
  {
    if i > 0 {
      ItemSmaller(items[1..], tuple, i - 1);
    }
  }

  /** The containers around a value are trees larger than it. */
  predicate Around(g: Graph, visited: set<Id>, trees: map<Id, Value>, size: nat)
    requires g.Valid()
  {
    forall u <- visited :: u in g.nodes && u in trees && Represents(g, u, trees[u]) && size < Size(trees[u])
  }

  /** On a graph that unfolds to a finite tree, the walk finds no cycle and returns what the tree's sanitizing does. */
  lemma {:induction false} WalkIsSanitize(
    g: Graph, id: Id, value: Value, path: Path, visited: set<Id>, trees: map<Id, Value>, depth: int)
    requires g.Valid() && id in g.nodes && Represents(g, id, value)
    requires Around(g, visited, trees, Size(value))
    ensures Walk(g, id, path, visited, depth) == Sanitize(g.policy, value, path, depth)
    decreases value
  {
    if depth <= g.policy.maxDepth && g.policy.Action(path) == Keep {
      NotAroundItself(g, id, value, visited, trees);
      match g.nodes[id]
      case DictNode(fields) =>
        WalkFieldsIsSanitize(g, fields, value.entries, id, value, path, visited, trees, depth);
      case ListNode(items, _) =>
        WalkItemsIsSanitize(g, items, value.items, id, value, path, visited, trees, depth);
      case _ =>
    }
  }

  lemma {:induction false} NotAroundItself(g: Graph, id: Id, value: Value, visited: set<Id>, trees: map<Id, Value>)
    requires g.Valid() && id in g.nodes && Represents(g, id, value)
    requires Around(g, visited, trees, Size(value))
    ensures id !in visited
  {
    if id in visited {
      RepresentsOne(g, id, value, trees[id]);
    }
  }

  lemma {:induction false} WalkFieldsIsSanitize(
    g: Graph, fields: seq<Field>, entries: seq<Entry>, id: Id, value: Value,
    path: Path, visited: set<Id>, trees: map<Id, Value>, depth: int)
    requires g.Valid() && id in g.nodes && Represents(g, id, value) && depth <= g.policy.maxDepth
    requires forall i :: 0 <= i < |fields| ==> fields[i].item in g.nodes
    requires value.Dict? && entries <= value.entries && FieldsRepresent(g, fields, entries)
    requires Around(g, visited, trees, Size(value))
    ensures WalkFields(g, fields, path, visited + {id}, depth) == SanitizeEntries(g.policy, entries, path, depth)
    decreases value, 0, |entries|
  {
    if fields != [] {
      var n := |fields| - 1;
      WalkFieldsIsSanitize(g, fields[..n], entries[..n], id, value, path, visited, trees, depth);
      EntrySmaller(value.entries, n);
      WalkIsSanitize(g, fields[n].item, entries[n].value, path + [fields[n].key],
        visited + {id}, trees[id := value], depth + 1);
    }
  }

  lemma {:induction false} WalkItemsIsSanitize(
    g: Graph, items: seq<Id>, values: seq<Value>, id: Id, value: Value,
    path: Path, visited: set<Id>, trees: map<Id, Value>, depth: int)
    requires g.Valid() && id in g.nodes && Represents(g, id, value) && depth <= g.policy.maxDepth
    requires forall i :: 0 <= i < |items| ==> items[i] in g.nodes
    requires value.Sequence? && values <= value.items && ItemsRepresent(g, items, values)
    requires Around(g, visited, trees, Size(value))
    ensures WalkItems(g, items, path, visited + {id}, depth) == SanitizeItems(g.policy, values, path, depth)
    decreases value, 0, |values|
  {
    if items != [] {
      var n := |items| - 1;
      WalkItemsIsSanitize(g, items[..n], values[..n], id, value, path, visited, trees, depth);
      ItemSmaller(value.items, value.tuple, n);
      WalkIsSanitize(g, items[n], values[n], path + [IndexText(n)], visited + {id}, trees[id := value], depth + 1);
    }
  }

  /** Two payloads alike but for what is masked, dropped or rejected come out the same, however they are shared. */
  lemma {:induction false} PayloadsNonInterfering(g: Graph, h: Graph, i: Id, j: Id, a: Value, b: Value)
    requires g.Valid() && h.Valid() && g.policy == h.policy && i in g.nodes && j in h.nodes
    requires Represents(g, i, a) && Represents(h, j, b) && Alike(g.policy, a, b, [])
    ensures Walk(g, i, [], {}, 0) == Walk(h, j, [], {}, 0)
    ensures Walk(g, i, [], {}, 0) != Failure(Cycle)
  {
    WalkIsSanitize(g, i, a, [], {}, map[], 0);
    WalkIsSanitize(h, j, b, [], {}, map[], 0);
    NonInterference(g.policy, a, b, [], 0);
    TreesHaveNoCycle(g.policy, a, [], 0);
  }

  lemma {:induction false} TreesHaveNoCycle(policy: AuditPolicy, value: Value, path: Path, depth: int)
    ensures Sanitize(policy, value, path, depth) != Failure(Cycle)
    decreases value
  {
    if depth <= policy.maxDepth && policy.Action(path) == Keep {
      match value
      case Dict(entries) => EntriesHaveNoCycle(policy, entries, path, depth);
      case Sequence(items, _) => ItemsHaveNoCycle(policy, items, path, depth);
      case _ =>
    }
  }

  lemma {:induction false} EntriesHaveNoCycle(policy: AuditPolicy, entries: seq<Entry>, path: Path, depth: int)
    ensures SanitizeEntries(policy, entries, path, depth) != Failure(Cycle)
    decreases entries
  {
    if entries != [] {
      var last := entries[|entries| - 1];
      EntriesHaveNoCycle(policy, entries[..|entries| - 1], path, depth);
      TreesHaveNoCycle(policy, last.value, path + [last.key], depth + 1);
    }
  }

  lemma {:induction false} ItemsHaveNoCycle(policy: AuditPolicy, items: seq<Value>, path: Path, depth: int)
    ensures SanitizeItems(policy, items, path, depth) != Failure(Cycle)
    decreases items
  {
    if items != [] {
      var n := |items| - 1;
      ItemsHaveNoCycle(policy, items[..n], path, depth);
      TreesHaveNoCycle(policy, items[n], path + [IndexText(n)], depth + 1);
    }
  }

  // ---------------------------------------------------------------- cycles are refused

  predicate Container(g: Graph, id: Id) {
    id in g.nodes && (g.nodes[id].DictNode? || g.nodes[id].ListNode?)
  }

  predicate IsChild(g: Graph, parent: Id, name: string, child: Id)
    requires parent in g.nodes
  {
    match g.nodes[parent]
    case DictNode(fields) => Field(name, child) in fields
    case ListNode(items, _) => exists i :: 0 <= i < |items| && items[i] == child && IndexText(i) == name
    case _ => false
  }

  /** Containers each inside the one before, from the path on, all of them kept. */
  predicate KeptChain(g: Graph, chain: seq<Id>, names: seq<string>, path: Path)
    decreases |chain|
  {
    && |chain| == |names| + 1 && Container(g, chain[0]) && g.policy.Action(path) == Keep
    && (names != [] ==>
          IsChild(g, chain[0], names[0], chain[1]) && KeptChain(g, chain[1..], names[1..], path + [names[0]]))
  }

  lemma {:induction false} FieldsSucceed(
    g: Graph, fields: seq<Field>, path: Path, visited: set<Id>, depth: int, i: nat)
    requires g.Valid() && depth <= g.policy.maxDepth && i < |fields|
    requires forall k :: 0 <= k < |fields| ==> fields[k].item in g.nodes
    requires WalkFields(g, fields, path, visited, depth).Success?
    ensures Walk(g, fields[i].item, path + [fields[i].key], visited, depth + 1).Success?
    decreases |fields|
  {
    var n := |fields| - 1;
    if i < n {
      FieldsSucceed(g, fields[..n], path, visited, depth, i);
    }
  }

  lemma {:induction false} ItemsSucceed(
    g: Graph, items: seq<Id>, path: Path, visited: set<Id>, depth: int, i: nat)
    requires g.Valid() && depth <= g.policy.maxDepth && i < |items|
    requires forall k :: 0 <= k < |items| ==> items[k] in g.nodes
    requires WalkItems(g, items, path, visited, depth).Success?
    ensures Walk(g, items[i], path + [IndexText(i)], visited, depth + 1).Success?
    decreases |items|
  {
    var n := |items| - 1;
    if i < n {
      ItemsSucceed(g, items[..n], path, visited, depth, i);
    }
  }

  lemma {:induction false} ChildSucceeds(
    g: Graph, id: Id, name: string, child: Id, path: Path, visited: set<Id>, depth: int)
    requires g.Valid() && id in g.nodes && g.policy.Action(path) == Keep && IsChild(g, id, name, child)
    requires Walk(g, id, path, visited, depth).Success?
    ensures id !in visited && child in g.nodes
    ensures Walk(g, child, path + [name], visited + {id}, depth + 1).Success?
  {
    match g.nodes[id]
    case DictNode(fields) =>
      var i :| 0 <= i < |fields| && fields[i] == Field(name, child);
      FieldsSucceed(g, fields, path, visited + {id}, depth, i);
    case ListNode(items, _) =>
      var i :| 0 <= i < |items| && items[i] == child && IndexText(i) == name;
      ItemsSucceed(g, items, path, visited + {id}, depth, i);
    case _ =>
  }

  /** The converse: a walk that succeeds has met no kept container inside itself, nor one it is already inside. */
  lemma {:induction false} SucceedsOnlyWithoutCycle(
    g: Graph, chain: seq<Id>, names: seq<string>, path: Path, visited: set<Id>, depth: int)
    requires g.Valid() && KeptChain(g, chain, names, path)
    requires Walk(g, chain[0], path, visited, depth).Success?
    ensures forall i :: 0 <= i < |chain| ==> chain[i] !in visited
    ensures forall i, j :: 0 <= i < j < |chain| ==> chain[i] != chain[j]
    decreases |chain|
  {
    if names != [] {
      ChildSucceeds(g, chain[0], names[0], chain[1], path, visited, depth);
      SucceedsOnlyWithoutCycle(g, chain[1..], names[1..], path + [names[0]], visited + {chain[0]}, depth + 1);
      assert forall i :: 0 < i < |chain| ==> chain[i] == chain[1..][i - 1];
    }
  }

  /** So a kept cycle anywhere below makes the whole walk fail, and only the depth or an action can come first. */
  lemma {:induction false} KeptCycleRefused(g: Graph, chain: seq<Id>, names: seq<string>, i: nat, j: nat)
    requires g.Valid() && KeptChain(g, chain, names, []) && i < j < |chain| && chain[i] == chain[j]
    ensures Walk(g, chain[0], [], {}, 0).Failure?
    ensures (forall path :: g.policy.Action(path) != Reject && g.policy.Action(path) != Hash) ==>
      Walk(g, chain[0], [], {}, 0) in {Failure(Cycle), Failure(TooDeep)}
  {
    if Walk(g, chain[0], [], {}, 0).Success? {
      SucceedsOnlyWithoutCycle(g, chain, names, [], {}, 0);
    }
    if forall path :: g.policy.Action(path) != Reject && g.policy.Action(path) != Hash {
      OnlyCycleOrDepth(g, chain[0], [], {}, 0);
    }
  }

  lemma {:induction false} OnlyCycleOrDepth(g: Graph, id: Id, path: Path, visited: set<Id>, depth: int)
    requires g.Valid() && id in g.nodes
    requires forall p :: g.policy.Action(p) != Reject && g.policy.Action(p) != Hash
    ensures var r := Walk(g, id, path, visited, depth); r.Failure? ==> r.error == Cycle || r.error == TooDeep
    decreases g.Room(depth), 1, 0
  {
    if depth <= g.policy.maxDepth && g.policy.Action(path) == Keep && id !in visited {
      match g.nodes[id]
      case DictNode(fields) => FieldsOnlyCycleOrDepth(g, fields, path, visited + {id}, depth);
      case ListNode(items, _) => ItemsOnlyCycleOrDepth(g, items, path, visited + {id}, depth);
      case _ =>
    }
  }

  lemma {:induction false} FieldsOnlyCycleOrDepth(
    g: Graph, fields: seq<Field>, path: Path, visited: set<Id>, depth: int)
    requires g.Valid() && depth <= g.policy.maxDepth
    requires forall k :: 0 <= k < |fields| ==> fields[k].item in g.nodes
    requires forall p :: g.policy.Action(p) != Reject && g.policy.Action(p) != Hash
    ensures var r := WalkFields(g, fields, path, visited, depth); r.Failure? ==> r.error == Cycle || r.error == TooDeep
    decreases g.Room(depth), 0, |fields|
  {
    if fields != [] {
      var last := fields[|fields| - 1];
      FieldsOnlyCycleOrDepth(g, fields[..|fields| - 1], path, visited, depth);
      OnlyCycleOrDepth(g, last.item, path + [last.key], visited, depth + 1);
    }
  }

  lemma {:induction false} ItemsOnlyCycleOrDepth(
    g: Graph, items: seq<Id>, path: Path, visited: set<Id>, depth: int)
    requires g.Valid() && depth <= g.policy.maxDepth
    requires forall k :: 0 <= k < |items| ==> items[k] in g.nodes
    requires forall p :: g.policy.Action(p) != Reject && g.policy.Action(p) != Hash
    ensures var r := WalkItems(g, items, path, visited, depth); r.Failure? ==> r.error == Cycle || r.error == TooDeep
    decreases g.Room(depth), 0, |items|
  {
    if items != [] {
      var n := |items| - 1;
      ItemsOnlyCycleOrDepth(g, items[..n], path, visited, depth);
      OnlyCycleOrDepth(g, items[n], path + [IndexText(n)], visited, depth + 1);
    }
  }

  /** For one, a kept list that contains itself is reported as a cycle where there is room for two visits. */
  lemma {:induction false} SelfContainmentFound(g: Graph, id: Id, path: Path, visited: set<Id>, depth: int)
    requires g.Valid() && id in g.nodes && g.nodes[id] == ListNode([id], false) && id !in visited
    requires depth < g.policy.maxDepth
    requires g.policy.Action(path) == Keep && g.policy.Action(path + ["0"]) == Keep
    ensures Walk(g, id, path, visited, depth) == Failure(Cycle)
  {
    assert IndexText(0) == "0";
    var items := [id];
    assert items[..0] == [];
    assert Walk(g, id, path + ["0"], visited + {id}, depth + 1) == Failure(Cycle);
    assert WalkItems(g, items, path, visited + {id}, depth) == Failure(Cycle);
  }
}
