/** Audit payload classification and redaction (security/audit.py), on payloads that are trees. */
module Audit {
  import opened Wrappers

  type Path = seq<string>

  /** Lists and tuples are Sequences; any other scalar is an Atom. A mapping's keys are given as text and may repeat. */
  datatype Value =
    | Text(text: string)
    | Atom(id: int)
    | Dict(entries: seq<Entry>)
    | Sequence(items: seq<Value>, tuple: bool)

  datatype Entry = Entry(key: string, value: Value)

  datatype Classification = Public | Internal | Personal | Sensitive | Secret | Regulated

  datatype AuditAction = Keep | Mask | Drop | Hash | Reject

  datatype AuditError = TooDeep | Forbidden(path: Path) | SecretRequired | Cycle

  // ---------------------------------------------------------------- classification

  function LowerChar(c: char): char { if 'A' <= c <= 'Z' then c - 'A' + 'a' else c }

  function Lower(s: string): (l: string)
    ensures |l| == |s| && forall i :: 0 <= i < |s| ==> l[i] == LowerChar(s[i])
  {
    if s == "" then "" else [LowerChar(s[0])] + Lower(s[1..])
  }

  function Dotted(path: Path): string {
    if path == [] then ""
    else if |path| == 1 then path[0]
    else path[0] + "." + Dotted(path[1..])
  }

  function Find<T>(names: map<string, T>, name: string): Option<T> {
    if name in names then Some(names[name]) else None
  }

  datatype NameClassifier = NameClassifier(paths: map<string, Classification>, leafNames: map<string, Classification>) {
    /** By exact dotted path, or else by the last name. */
    function Classify(path: Path): Option<Classification> {
      var dotted := Lower(Dotted(path));
      if dotted in paths then Some(paths[dotted])
      else if path != [] then Find(leafNames, Lower(path[|path| - 1]))
      else None
    }
  }

  /** Any classifier or hook that looks at the path alone. */
  type Classifier = Path -> Option<Classification>

  function Named(names: NameClassifier): Classifier {
    path => names.Classify(path)
  }

  function FirstClass(classifiers: seq<Classifier>, path: Path): Option<Classification> {
    if classifiers == [] then None
    else
      var class_ := classifiers[0](path);
      if class_.Some? then class_ else FirstClass(classifiers[1..], path)
  }

  /** `repr` and `digest` stand for Python's repr and for the keyed hash. */
  datatype AuditPolicy = AuditPolicy(
    classifiers: seq<Classifier>,
    classificationActions: map<Classification, AuditAction>,
    fieldActions: map<string, AuditAction>,
    mask: string,
    hashSecret: Option<string>,
    maxDepth: int,
    repr: Value -> string,
    digest: (string, string) -> string)
  {
    /** A field's own action, or that of the first classification there is. */
    function Action(path: Path): AuditAction {
      var dotted := Lower(Dotted(path));
      if dotted in fieldActions then fieldActions[dotted]
      else
        var class_ := FirstClass(classifiers, path);
        if class_.Some? && class_.value in classificationActions then classificationActions[class_.value] else Keep
    }

    function Hashed(text: string): Result<Option<Value>, AuditError> {
      if hashSecret.None? then Failure(SecretRequired)
      else Success(Some(Text("sha256:" + digest(hashSecret.value, text))))
    }
  }

  // ---------------------------------------------------------------- sanitizing

  function Digit(d: nat): char
    requires d < 10
  {
    '0' + d as char
  }

  /** The text of a list index. */
  function IndexText(n: nat): (text: string)
    ensures text != "" && '0' <= text[0] <= '9'
  {
    if n < 10 then [Digit(n)] else IndexText(n / 10) + [Digit(n % 10)]
  }

  /** Assigning a dict's key: an existing key keeps its place. */
  function Put(entries: seq<Entry>, key: string, value: Value): seq<Entry> {
    if entries == [] then [Entry(key, value)]
    else if entries[0].key == key then [Entry(key, value)] + entries[1..]
    else [entries[0]] + Put(entries[1..], key, value)
  }

  /** `_sanitize`; None stands for the marker of a dropped value. */
  function Sanitize(policy: AuditPolicy, value: Value, path: Path, depth: int): Result<Option<Value>, AuditError>
    decreases value
  {
    if depth > policy.maxDepth then Failure(TooDeep)
    else
      match policy.Action(path)
      case Mask => Success(Some(Text(policy.mask)))
      case Drop => Success(None)
      case Reject => Failure(Forbidden(path))
      case Hash => policy.Hashed(policy.repr(value))
      case Keep =>
        match value
        case Dict(entries) =>
          var sanitized :- SanitizeEntries(policy, entries, path, depth);
          Success(Some(Dict(sanitized)))
        case Sequence(items, _) =>
          var sanitized :- SanitizeItems(policy, items, path, depth);
          Success(Some(Sequence(sanitized, false)))
        case _ => Success(Some(value))
  }

  /** The entries, first to last; the first error ends it. */
  function SanitizeEntries(policy: AuditPolicy, entries: seq<Entry>, path: Path, depth: int)
    : Result<seq<Entry>, AuditError>
    decreases entries
  {
    if entries == [] then Success([])
    else
      var last := entries[|entries| - 1];
      var before :- SanitizeEntries(policy, entries[..|entries| - 1], path, depth);
      var result :- Sanitize(policy, last.value, path + [last.key], depth + 1);
      Success(if result.Some? then Put(before, last.key, result.value) else before)
  }

  function SanitizeItems(policy: AuditPolicy, items: seq<Value>, path: Path, depth: int): Result<seq<Value>, AuditError>
    decreases items
  {
    if items == [] then Success([])
    else
      var n := |items| - 1;
      var before :- SanitizeItems(policy, items[..n], path, depth);
      var result :- Sanitize(policy, items[n], path + [IndexText(n)], depth + 1);
      Success(if result.Some? then before + [result.value] else before)
  }

  // ---------------------------------------------------------------- what is redacted does not matter

  /** Equal but for what lies below a path whose action is to mask, drop or reject. */
  predicate Alike(policy: AuditPolicy, a: Value, b: Value, path: Path)
    decreases a
  {
    match policy.Action(path)
    case Hash => a == b
    case Keep =>
      if a.Dict? && b.Dict? then AlikeEntries(policy, a.entries, b.entries, path)
      else if a.Sequence? && b.Sequence? then AlikeItems(policy, a.items, b.items, path)
      else a == b
    case _ => true
  }

  predicate AlikeEntries(policy: AuditPolicy, a: seq<Entry>, b: seq<Entry>, path: Path)
    decreases a
  {
    if a == [] || b == [] then a == b
    else
      var m, n := |a| - 1, |b| - 1;
      && a[m].key == b[n].key
      && AlikeEntries(policy, a[..m], b[..n], path)
      && Alike(policy, a[m].value, b[n].value, path + [a[m].key])
  }

  predicate AlikeItems(policy: AuditPolicy, a: seq<Value>, b: seq<Value>, path: Path)
    decreases a
  {
    if a == [] || b == [] then a == b
    else
      var n := |a| - 1;
      && |b| == |a|
      && AlikeItems(policy, a[..n], b[..n], path)
      && Alike(policy, a[n], b[n], path + [IndexText(n)])
  }

  /** Payloads alike in that way give the same result, be it a sanitized payload or an error. */
  lemma {:induction false} NonInterference(policy: AuditPolicy, a: Value, b: Value, path: Path, depth: int)
    requires Alike(policy, a, b, path)
    ensures Sanitize(policy, a, path, depth) == Sanitize(policy, b, path, depth)
    decreases a
  {
    if policy.Action(path) == Keep {
      if a.Dict? && b.Dict? {
        NonInterferenceEntries(policy, a.entries, b.entries, path, depth);
      } else if a.Sequence? && b.Sequence? {
        NonInterferenceItems(policy, a.items, b.items, path, depth);
      }
    }
  }

  lemma {:induction false} NonInterferenceEntries(
    policy: AuditPolicy, a: seq<Entry>, b: seq<Entry>, path: Path, depth: int)
    requires AlikeEntries(policy, a, b, path)
    ensures SanitizeEntries(policy, a, path, depth) == SanitizeEntries(policy, b, path, depth)
    decreases a
  {
    if a != [] && b != [] {
      var m, n := |a| - 1, |b| - 1;
      NonInterferenceEntries(policy, a[..m], b[..n], path, depth);
      NonInterference(policy, a[m].value, b[n].value, path + [a[m].key], depth + 1);
    }
  }

  lemma {:induction false} NonInterferenceItems(
    policy: AuditPolicy, a: seq<Value>, b: seq<Value>, path: Path, depth: int)
    requires AlikeItems(policy, a, b, path)
    ensures SanitizeItems(policy, a, path, depth) == SanitizeItems(policy, b, path, depth)
    decreases a
  {
    if a != [] && b != [] {
      var n := |a| - 1;
      NonInterferenceItems(policy, a[..n], b[..n], path, depth);
      NonInterference(policy, a[n], b[n], path + [IndexText(n)], depth + 1);
    }
  }

  // ---------------------------------------------------------------- what is kept is untouched

  predicate DistinctKeys(entries: seq<Entry>) {
    forall i, j :: 0 <= i < j < |entries| ==> entries[i].key != entries[j].key
  }

  /** Not too deep, every key once, and an action at every path that leaves the value there as it is. */
  predicate Settled(policy: AuditPolicy, value: Value, path: Path, depth: int)
    decreases value
  {
    && depth <= policy.maxDepth
    && match policy.Action(path)
       case Mask => value == Text(policy.mask)
       case Hash => policy.Hashed(policy.repr(value)) == Success(Some(value))
       case Keep =>
         (match value
          case Dict(entries) =>
            DistinctKeys(entries) &&
            forall i :: 0 <= i < |entries| ==> Settled(policy, entries[i].value, path + [entries[i].key], depth + 1)
          case Sequence(items, tuple) =>
            !tuple && forall i :: 0 <= i < |items| ==> Settled(policy, items[i], path + [IndexText(i)], depth + 1)
          case _ => true)
       case _ => false
  }

  /** Such a payload comes out unchanged. */
  lemma {:induction false} SettledUnchanged(policy: AuditPolicy, value: Value, path: Path, depth: int)
    requires Settled(policy, value, path, depth)
    ensures Sanitize(policy, value, path, depth) == Success(Some(value))
    decreases value
  {
    if policy.Action(path) == Keep {
      match value
      case Dict(entries) => SettledEntries(policy, entries, path, depth);
      case Sequence(items, _) => SettledItems(policy, items, path, depth);
      case _ =>
    }
  }

  lemma {:induction false} SettledEntries(policy: AuditPolicy, entries: seq<Entry>, path: Path, depth: int)
    requires DistinctKeys(entries)
    requires forall i :: 0 <= i < |entries| ==> Settled(policy, entries[i].value, path + [entries[i].key], depth + 1)
    ensures SanitizeEntries(policy, entries, path, depth) == Success(entries)
    decreases entries
  {
    if entries != [] {
      var n := |entries| - 1;
      var before := entries[..n];
      SettledEntries(policy, before, path, depth);
      SettledUnchanged(policy, entries[n].value, path + [entries[n].key], depth + 1);
      PutNew(before, entries[n].key, entries[n].value);
      assert entries == before + [entries[n]];
    }
  }

  lemma {:induction false} SettledItems(policy: AuditPolicy, items: seq<Value>, path: Path, depth: int)
    requires forall i :: 0 <= i < |items| ==> Settled(policy, items[i], path + [IndexText(i)], depth + 1)
    ensures SanitizeItems(policy, items, path, depth) == Success(items)
    decreases items
  {
    if items != [] {
      var n := |items| - 1;
      SettledItems(policy, items[..n], path, depth);
      SettledUnchanged(policy, items[n], path + [IndexText(n)], depth + 1);
      assert items == items[..n] + [items[n]];
    }
  }

  lemma {:induction false} PutNew(entries: seq<Entry>, key: string, value: Value)
    requires forall e <- entries :: e.key != key
    ensures Put(entries, key, value) == entries + [Entry(key, value)]
  {
    if entries != [] {
      PutNew(entries[1..], key, value);
      assert entries == [entries[0]] + entries[1..];
    }
  }
}
