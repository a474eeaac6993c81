/** When redacting twice is redacting once (security/audit.py): for every policy, and for the default one. */
module AuditIdempotence {
  import opened Wrappers
  import opened Audit

  // ---------------------------------------------------------------- the condition

  /** Values at the path are looked at: it is not too deep and everything above it is kept. */
  predicate Reached(policy: AuditPolicy, path: Path) {
    |path| <= policy.maxDepth && forall n :: 0 <= n < |path| ==> policy.Action(path[..n]) == Keep
  }

  function Child(path: Path, i: nat): Path { path + [IndexText(i)] }

  predicate Dropped(policy: AuditPolicy, path: Path, i: nat) {
    policy.Action(Child(path, i)) == Drop
  }

  /** Whatever is at the path makes sanitizing raise. */
  predicate Fails(policy: AuditPolicy, path: Path) {
    policy.Action(path) == Reject || (policy.Action(path) == Hash && policy.hashSecret.None?)
  }

  /** A list at the path drops only from its end on, unless it is refused for holding that many items. */
  ghost predicate DropsFromTheEnd(policy: AuditPolicy, path: Path) {
    forall i: nat, j: nat :: i < j && Dropped(policy, path, i) && !Dropped(policy, path, j) ==>
      exists k: nat :: k <= j && Fails(policy, Child(path, k))
  }

  /** Hashing the hash of a value gives that hash again. */
  ghost predicate HashesOnce(policy: AuditPolicy) {
    forall v :: Rehashed(policy, v)
  }

  predicate Rehashed(policy: AuditPolicy, v: Value) {
    var hash := policy.Hashed(policy.repr(v));
    hash.Success? ==> hash.value.Some? && policy.Hashed(policy.repr(hash.value.value)) == hash
  }

  /** Lists that are looked at drop from their end on, and nothing is hashed unless hashes are their own hashes. */
  ghost predicate Stable(policy: AuditPolicy) {
    && (forall path :: Reached(policy, path) && policy.Action(path) == Keep && |path| < policy.maxDepth ==>
          DropsFromTheEnd(policy, path))
    && (forall path :: Reached(policy, path) && policy.Action(path) == Hash ==> HashesOnce(policy))
  }

  ghost predicate Idempotent(policy: AuditPolicy) {
    forall v :: SameTwice(policy, v)
  }

  predicate SameTwice(policy: AuditPolicy, v: Value) {
    var once := Sanitize(policy, v, [], 0);
    once.Success? && once.value.Some? ==> Sanitize(policy, once.value.value, [], 0) == once
  }

  lemma {:induction false} ReachedBelow(policy: AuditPolicy, path: Path, name: string)
    requires Reached(policy, path) && policy.Action(path) == Keep && |path| < policy.maxDepth
    ensures Reached(policy, path + [name])
  {
    forall n | 0 <= n < |path + [name]| ensures policy.Action((path + [name])[..n]) == Keep {
      if n < |path| {
        assert (path + [name])[..n] == path[..n];
      } else {
        assert (path + [name])[..n] == path;
      }
    }
  }

  // ---------------------------------------------------------------- stable policies settle

  /** What a stable policy makes of a payload, it then leaves alone. */
  lemma {:induction false} SanitizedSettled(policy: AuditPolicy, value: Value, path: Path)
    requires Stable(policy) && Reached(policy, path)
    requires Sanitize(policy, value, path, |path|).Success? && Sanitize(policy, value, path, |path|).value.Some?
    ensures Settled(policy, Sanitize(policy, value, path, |path|).value.value, path, |path|)
    decreases value
  {
    if policy.Action(path) == Keep {
      match value
      case Dict(entries) => SanitizedEntriesSettled(policy, entries, path);
      case Sequence(items, _) => SanitizedItemsSettled(policy, items, path);
      case _ =>
    } else if policy.Action(path) == Hash {
      assert Rehashed(policy, value);
    }
  }

  lemma {:induction false} SanitizedEntriesSettled(policy: AuditPolicy, entries: seq<Entry>, path: Path)
    requires Stable(policy) && Reached(policy, path) && policy.Action(path) == Keep
    requires SanitizeEntries(policy, entries, path, |path|).Success?
    ensures var sanitized := SanitizeEntries(policy, entries, path, |path|).value;
      && DistinctKeys(sanitized)
      && forall i :: 0 <= i < |sanitized| ==>
           Settled(policy, sanitized[i].value, path + [sanitized[i].key], |path| + 1)
    decreases entries
  {
    if entries != [] {
      var last := entries[|entries| - 1];
      var below := path + [last.key];
      var before := SanitizeEntries(policy, entries[..|entries| - 1], path, |path|).value;
      SanitizedEntriesSettled(policy, entries[..|entries| - 1], path);
      var result := Sanitize(policy, last.value, below, |path| + 1).value;
      if result.Some? {
        ReachedBelow(policy, path, last.key);
        SanitizedSettled(policy, last.value, below);
        PutSettled(policy, before, last.key, result.value, path, |path|);
      }
    }
  }

  lemma {:induction false} PutSettled(
    policy: AuditPolicy, entries: seq<Entry>, key: string, value: Value, path: Path, depth: int)
    requires DistinctKeys(entries) && Settled(policy, value, path + [key], depth + 1)
    requires forall i :: 0 <= i < |entries| ==> Settled(policy, entries[i].value, path + [entries[i].key], depth + 1)
    ensures var put := Put(entries, key, value);
      && DistinctKeys(put)
      && forall i :: 0 <= i < |put| ==> Settled(policy, put[i].value, path + [put[i].key], depth + 1)
  {
    PutKeeps(entries, key, value);
    var put := Put(entries, key, value);
    forall i | 0 <= i < |put| ensures Settled(policy, put[i].value, path + [put[i].key], depth + 1) {
      assert put[i] in entries || put[i] == Entry(key, value);
    }
  }

  lemma {:induction false} PutKeeps(entries: seq<Entry>, key: string, value: Value)
    requires DistinctKeys(entries)
    ensures DistinctKeys(Put(entries, key, value))
    ensures forall e <- Put(entries, key, value) :: e in entries || e == Entry(key, value)
  {
    if entries != [] && entries[0].key != key {
      PutKeeps(entries[1..], key, value);
      var rest := Put(entries[1..], key, value);
      assert forall i :: 0 <= i < |rest| ==> rest[i] in entries[1..] || rest[i] == Entry(key, value);
      assert forall e <- entries[1..] :: e.key != entries[0].key;
    }
  }

  /** A list that is not refused: which items come out follows from their positions. */
  lemma {:induction false} ItemsByPosition(policy: AuditPolicy, items: seq<Value>, path: Path)
    requires SanitizeItems(policy, items, path, |path|).Success?
    ensures forall k: nat :: k < |items| ==> !Fails(policy, Child(path, k))
    ensures |SanitizeItems(policy, items, path, |path|).value| == Remaining(policy, path, |items|)
    ensures items != [] ==> |path| < policy.maxDepth
    decreases |items|
  {
    if items != [] {
      var n := |items| - 1;
      ItemsByPosition(policy, items[..n], path);
      assert Child(path, n) == path + [IndexText(n)];
      ResultByAction(policy, items[n], Child(path, n), |path| + 1);
    }
  }

  lemma {:induction false} ResultByAction(policy: AuditPolicy, value: Value, path: Path, depth: int)
    requires Sanitize(policy, value, path, depth).Success?
    ensures !Fails(policy, path) && depth <= policy.maxDepth
    ensures Sanitize(policy, value, path, depth).value.None? <==> policy.Action(path) == Drop
  {
  }

  /** How many of the first `n` positions are not dropped. */
  function Remaining(policy: AuditPolicy, path: Path, n: nat): nat {
    if n == 0 then 0 else Remaining(policy, path, n - 1) + if Dropped(policy, path, n - 1) then 0 else 1
  }

  lemma {:induction false} RemainingBounds(policy: AuditPolicy, path: Path, n: nat)
    ensures Remaining(policy, path, n) <= n
    ensures Remaining(policy, path, n) < n <==> exists i: nat :: i < n && Dropped(policy, path, i)
  {
    if n > 0 {
      RemainingBounds(policy, path, n - 1);
      if Remaining(policy, path, n - 1) < n - 1 {
        var i: nat :| i < n - 1 && Dropped(policy, path, i);
        assert i < n && Dropped(policy, path, i);
      }
    }
  }

  /** No item that comes out has moved. */
  lemma {:induction false} SanitizedItemsSettled(policy: AuditPolicy, items: seq<Value>, path: Path)
    requires Stable(policy) && Reached(policy, path) && policy.Action(path) == Keep
    requires SanitizeItems(policy, items, path, |path|).Success?
    ensures SettledItemsAt(policy, SanitizeItems(policy, items, path, |path|).value, path)
    decreases items
  {
    if items != [] {
      var n := |items| - 1;
      var before := SanitizeItems(policy, items[..n], path, |path|).value;
      SanitizedItemsSettled(policy, items[..n], path);
      var result := Sanitize(policy, items[n], Child(path, n), |path| + 1).value;
      if result.Some? {
        assert |before| == n && |path| < policy.maxDepth by { ItemStays(policy, items, path); }
        ReachedBelow(policy, path, IndexText(n));
        SanitizedSettled(policy, items[n], Child(path, n));
        AppendSettled(policy, before, result.value, path);
      }
    }
  }

  predicate SettledItemsAt(policy: AuditPolicy, items: seq<Value>, path: Path) {
    forall i: nat :: i < |items| ==> Settled(policy, items[i], Child(path, i), |path| + 1)
  }

  lemma {:induction false} AppendSettled(policy: AuditPolicy, items: seq<Value>, value: Value, path: Path)
    requires SettledItemsAt(policy, items, path) && Settled(policy, value, Child(path, |items|), |path| + 1)
    ensures SettledItemsAt(policy, items + [value], path)
  {
  }

  lemma {:induction false} ItemStays(policy: AuditPolicy, items: seq<Value>, path: Path)
    requires Stable(policy) && Reached(policy, path) && policy.Action(path) == Keep && items != []
    requires SanitizeItems(policy, items, path, |path|).Success?
    requires Sanitize(policy, items[|items| - 1], Child(path, |items| - 1), |path| + 1).value.Some?
    ensures SanitizeItems(policy, items[..|items| - 1], path, |path|).Success?
    ensures |SanitizeItems(policy, items[..|items| - 1], path, |path|).value| == |items| - 1
    ensures |path| < policy.maxDepth
  {
    var n := |items| - 1;
    ItemsByPosition(policy, items, path);
    ItemsByPosition(policy, items[..n], path);
    ResultByAction(policy, items[n], Child(path, n), |path| + 1);
    NothingDroppedBefore(policy, path, n);
  }

  lemma {:induction false} NothingDroppedBefore(policy: AuditPolicy, path: Path, n: nat)
    requires DropsFromTheEnd(policy, path) && !Dropped(policy, path, n)
    requires forall k: nat :: k <= n ==> !Fails(policy, Child(path, k))
    ensures Remaining(policy, path, n) == n
  {
    RemainingBounds(policy, path, n);
    assert forall i: nat :: i < n ==> !Dropped(policy, path, i);
  }

  // ---------------------------------------------------------------- unstable policies do not

  /** `value` inside one mapping after another, so that it is found at the path. */
  function Wrap(path: Path, value: Value): Value {
    if path == [] then value else Dict([Entry(path[0], Wrap(path[1..], value))])
  }

  lemma {:induction false} WrapOnce(path: Path, a: Value, b: Value)
    requires Wrap(path, a) == Wrap(path, b)
    ensures a == b
  {
    if path != [] {
      assert Wrap(path, a).entries[0] == Wrap(path, b).entries[0];
      WrapOnce(path[1..], a, b);
    }
  }

  lemma {:induction false} OneEntry(policy: AuditPolicy, entry: Entry, path: Path, depth: int, result: Value)
    requires Sanitize(policy, entry.value, path + [entry.key], depth + 1) == Success(Some(result))
    ensures SanitizeEntries(policy, [entry], path, depth) == Success([Entry(entry.key, result)])
  {
    assert [entry][..0] == [];
    assert SanitizeEntries(policy, [], path, depth) == Success([]);
  }

  lemma {:induction false} OneKept(policy: AuditPolicy, entry: Entry, path: Path, result: Value)
    requires policy.Action(path) == Keep && |path| <= policy.maxDepth
    requires Sanitize(policy, entry.value, path + [entry.key], |path + [entry.key]|) == Success(Some(result))
    ensures Sanitize(policy, Dict([entry]), path, |path|) == Success(Some(Dict([Entry(entry.key, result)])))
  {
    OneEntry(policy, entry, path, |path|, result);
  }

  /** Sanitizing reaches the wrapped value. */
  lemma {:induction false} WrapReached(policy: AuditPolicy, above: Path, path: Path, value: Value, result: Value)
    requires Reached(policy, above + path)
    requires Sanitize(policy, value, above + path, |above + path|) == Success(Some(result))
    ensures Sanitize(policy, Wrap(path, value), above, |above|) == Success(Some(Wrap(path, result)))
    decreases |path|
  {
    if path == [] {
      assert above + path == above;
    } else {
      var below := above + [path[0]];
      assert below + path[1..] == above + path;
      WrapReached(policy, below, path[1..], value, result);
      assert (above + path)[..|above|] == above;
      OneKept(policy, Entry(path[0], Wrap(path[1..], value)), above, Wrap(path[1..], result));
    }
  }

  lemma {:induction false} DifferentTwice(policy: AuditPolicy, path: Path, v: Value, once: Value, twice: Value)
    requires Reached(policy, path) && once != twice
    requires Sanitize(policy, v, path, |path|) == Success(Some(once))
    requires Sanitize(policy, once, path, |path|) == Success(Some(twice))
    ensures !SameTwice(policy, Wrap(path, v))
  {
    assert [] + path == path;
    WrapReached(policy, [], path, v, once);
    WrapReached(policy, [], path, once, twice);
    if Wrap(path, once) == Wrap(path, twice) {
      WrapOnce(path, once, twice);
    }
  }

  predicate Scalars(items: seq<Value>) {
    forall i :: 0 <= i < |items| ==> items[i].Text? || items[i].Atom?
  }

  /** A list of scalars, where no position fails. */
  lemma {:induction false} ScalarsByPosition(policy: AuditPolicy, items: seq<Value>, path: Path)
    requires Scalars(items) && |path| < policy.maxDepth
    requires forall k: nat :: k < |items| ==> !Fails(policy, Child(path, k))
    ensures SanitizeItems(policy, items, path, |path|).Success?
    ensures Scalars(SanitizeItems(policy, items, path, |path|).value)
    ensures |SanitizeItems(policy, items, path, |path|).value| == Remaining(policy, path, |items|)
    decreases |items|
  {
    if items != [] {
      var n := |items| - 1;
      ScalarsByPosition(policy, items[..n], path);
      assert Child(path, n) == path + [IndexText(n)];
    }
  }

  function Numbered(n: nat): (items: seq<Value>)
    ensures |items| == n && Scalars(items)
  {
    seq(n, k => Atom(k))
  }

  /** A failing payload: a list long enough to drop one item and keep a later one. */
  lemma {:induction false} ListChangesTwice(policy: AuditPolicy, path: Path, i: nat, j: nat)
    requires Reached(policy, path) && policy.Action(path) == Keep && |path| < policy.maxDepth
    requires i < j && Dropped(policy, path, i) && !Dropped(policy, path, j)
    requires forall k: nat :: k <= j ==> !Fails(policy, Child(path, k))
    ensures !SameTwice(policy, Wrap(path, Sequence(Numbered(j + 1), false)))
  {
    var first := FirstDropped(policy, path, i);
    var items := Numbered(j + 1);
    var once := SanitizeItems(policy, items, path, |path|);
    assert once.Success? && Scalars(once.value) && first < |once.value| <= j + 1 by {
      ScalarsByPosition(policy, items, path);
      RemainingBounds(policy, path, j + 1);
      ManyRemain(policy, path, first, j);
    }
    var twice := SanitizeItems(policy, once.value, path, |path|);
    assert twice.Success? && |twice.value| < |once.value| by {
      ScalarsByPosition(policy, once.value, path);
      RemainingBounds(policy, path, |once.value|);
    }
    DifferentTwice(policy, path, Sequence(items, false), Sequence(once.value, false), Sequence(twice.value, false));
  }

  lemma {:induction false} FirstDropped(policy: AuditPolicy, path: Path, i: nat) returns (first: nat)
    requires Dropped(policy, path, i)
    ensures first <= i && Dropped(policy, path, first) && forall k: nat :: k < first ==> !Dropped(policy, path, k)
  {
    first := 0;
    while !Dropped(policy, path, first)
      invariant first <= i && forall k: nat :: k < first ==> !Dropped(policy, path, k)
      decreases i - first
    {
      first := first + 1;
    }
  }

  lemma {:induction false} ManyRemain(policy: AuditPolicy, path: Path, first: nat, j: nat)
    requires first < j && !Dropped(policy, path, j)
    requires forall k: nat :: k < first ==> !Dropped(policy, path, k)
    ensures Remaining(policy, path, j + 1) >= first + 1
  {
    RemainingBounds(policy, path, first);
    RemainingGrows(policy, path, first, j);
  }

  lemma {:induction false} RemainingGrows(policy: AuditPolicy, path: Path, m: nat, n: nat)
    requires m <= n
    ensures Remaining(policy, path, m) <= Remaining(policy, path, n)
    decreases n
  {
    if m < n {
      RemainingGrows(policy, path, m, n - 1);
    }
  }

  /** A failing payload: any value whose hash is hashed to another. */
  lemma {:induction false} HashChangesTwice(policy: AuditPolicy, path: Path, v: Value)
    requires Reached(policy, path) && policy.Action(path) == Hash && !Rehashed(policy, v)
    ensures !SameTwice(policy, Wrap(path, v))
  {
    var once := policy.Hashed(policy.repr(v)).value.value;
    var twice := policy.Hashed(policy.repr(once)).value.value;
    DifferentTwice(policy, path, v, once, twice);
  }

  /** For every policy: sanitizing twice is sanitizing once, on all payloads, exactly when the policy is stable. */
  lemma {:induction false} IdempotentIffStable(policy: AuditPolicy)
    ensures Idempotent(policy) <==> Stable(policy)
  {
    if Stable(policy) {
      forall v ensures SameTwice(policy, v) {
        StableSameTwice(policy, v);
      }
    } else {
      UnstableChanges(policy);
    }
  }

  lemma {:induction false} StableSameTwice(policy: AuditPolicy, v: Value)
    requires Stable(policy)
    ensures SameTwice(policy, v)
  {
    var once := Sanitize(policy, v, [], 0);
    if once.Success? && once.value.Some? {
      SanitizedSettled(policy, v, []);
      SettledUnchanged(policy, once.value.value, [], 0);
    }
  }

  lemma {:induction false} UnstableChanges(policy: AuditPolicy)
    requires !Stable(policy)
    ensures exists v :: !SameTwice(policy, v)
  {
    if path :| Reached(policy, path) && policy.Action(path) == Keep && |path| < policy.maxDepth
               && !DropsFromTheEnd(policy, path) {
      var i: nat, j: nat :| i < j && Dropped(policy, path, i) && !Dropped(policy, path, j)
        && !exists k: nat :: k <= j && Fails(policy, Child(path, k));
      ListChangesTwice(policy, path, i, j);
    } else {
      var path :| Reached(policy, path) && policy.Action(path) == Hash && !HashesOnce(policy);
      var v :| !Rehashed(policy, v);
      HashChangesTwice(policy, path, v);
    }
  }

  /** A policy that drops no list position and hashes nothing is stable. */
  lemma {:induction false} PlainPoliciesStable(policy: AuditPolicy)
    requires forall path: Path, i: nat :: !Dropped(policy, path, i)
    requires forall path: Path :: policy.Action(path) != Hash
    ensures Stable(policy) && Idempotent(policy)
  {
    IdempotentIffStable(policy);
  }

  // ---------------------------------------------------------------- the default policy

  const DefaultSecretNames: map<string, Classification> := map[
    "password" := Secret, "password_hash" := Secret, "access_token" := Secret, "refresh_token" := Secret,
    "api_key" := Secret, "secret" := Secret, "client_secret" := Secret, "private_key" := Secret,
    "authorization" := Secret, "cookie" := Secret, "cvv" := Secret, "cvc" := Secret,
    "card_number" := Regulated, "pan" := Regulated, "ssn" := Regulated]

  const DefaultActions: map<Classification, AuditAction> := map[
    Public := Keep, Internal := Keep, Personal := Keep, Sensitive := Mask, Secret := Drop, Regulated := Mask]

  function DefaultPolicy(repr: Value -> string, digest: (string, string) -> string): AuditPolicy {
    AuditPolicy(
      [Named(NameClassifier(map[], DefaultSecretNames))], DefaultActions, map[], "[REDACTED]", None, 32, repr, digest)
  }

  lemma {:induction false} DefaultAction(policy: AuditPolicy, path: Path)
    requires policy == DefaultPolicy(policy.repr, policy.digest)
    ensures policy.Action(path) ==
      if path == [] then Keep
      else
        var name := Lower(path[|path| - 1]);
        if name in DefaultSecretNames then DefaultActions[DefaultSecretNames[name]] else Keep
  {
    var classifier := policy.classifiers[0];
    assert policy.classifiers[1..] == [];
    assert FirstClass(policy.classifiers, path) == classifier(path);
  }

  lemma {:induction false} DefaultNamesAreWords()
    ensures forall name <- DefaultSecretNames :: name != "" && !('0' <= name[0] <= '9')
  {
  }

  /** The default policy drops no list position and hashes nothing, so sanitizing twice is sanitizing once. */
  lemma {:induction false} DefaultIdempotent(policy: AuditPolicy)
    requires policy == DefaultPolicy(policy.repr, policy.digest)
    ensures Stable(policy) && Idempotent(policy)
  {
    forall path: Path, i: nat ensures !Dropped(policy, path, i) {
      DefaultAction(policy, Child(path, i));
      DefaultNamesAreWords();
      assert Lower(IndexText(i))[0] == IndexText(i)[0];
    }
    forall path: Path ensures policy.Action(path) != Hash {
      DefaultAction(policy, path);
    }
    PlainPoliciesStable(policy);
  }

  /** No field with a secret name at any depth, and every field with a regulated name masked. */
  predicate Discreet(value: Value)
    decreases value
  {
    match value
    case Dict(entries) =>
      forall i :: 0 <= i < |entries| ==> DiscreetEntry(entries[i].key, entries[i].value) && Discreet(entries[i].value)
    case Sequence(items, _) => forall i :: 0 <= i < |items| ==> Discreet(items[i])
    case _ => true
  }

  predicate DiscreetEntry(key: string, value: Value) {
    var name := Lower(key);
    name in DefaultSecretNames ==> DefaultSecretNames[name] == Regulated && value == Text("[REDACTED]")
  }

  lemma {:induction false} SettledDiscreet(policy: AuditPolicy, value: Value, path: Path, depth: int)
    requires policy == DefaultPolicy(policy.repr, policy.digest) && Settled(policy, value, path, depth)
    ensures Discreet(value)
    decreases value
  {
    if value.Dict? && policy.Action(path) == Keep {
      forall i | 0 <= i < |value.entries|
        ensures DiscreetEntry(value.entries[i].key, value.entries[i].value) && Discreet(value.entries[i].value)
      {
        var e := value.entries[i];
        DefaultAction(policy, path + [e.key]);
        SettledDiscreet(policy, e.value, path + [e.key], depth + 1);
      }
    } else if value.Sequence? && policy.Action(path) == Keep {
      forall i | 0 <= i < |value.items| ensures Discreet(value.items[i]) {
        SettledDiscreet(policy, value.items[i], path + [IndexText(i)], depth + 1);
      }
    }
  }

  /** Whatever the payload, nothing secret and nothing regulated is left in what the default policy returns. */
  lemma {:induction false} DefaultIsDiscreet(policy: AuditPolicy, value: Value)
    requires policy == DefaultPolicy(policy.repr, policy.digest)
    requires Sanitize(policy, value, [], 0).Success?
    ensures Sanitize(policy, value, [], 0).value.Some? && Discreet(Sanitize(policy, value, [], 0).value.value)
  {
    DefaultIdempotent(policy);
    DefaultAction(policy, []);
    SanitizedSettled(policy, value, []);
    SettledDiscreet(policy, Sanitize(policy, value, [], 0).value.value, [], 0);
  }

  // ---------------------------------------------------------------- policies that are not stable

  /** By leaf name: a policy whose only name is `0` drops the first item of a list, and the next the next time. */
  lemma {:induction false} FirstItemDroppedAgain(policy: AuditPolicy)
    requires policy.classifiers == [Named(NameClassifier(map[], map["0" := Secret]))]
    requires policy.classificationActions == DefaultActions && policy.fieldActions == map[] && policy.maxDepth == 32
    ensures !Idempotent(policy) && !SameTwice(policy, Sequence([Atom(0), Atom(1)], false))
  {
    NameAction(policy, []);
    NameAction(policy, Child([], 0));
    NameAction(policy, Child([], 1));
    assert IndexText(0) == "0" && IndexText(1) == "1" && Lower("0") == "0" && Lower("1") == "1";
    assert Dropped(policy, [], 0) && !Dropped(policy, [], 1);
    ListChangesTwice(policy, [], 0, 1);
    assert Numbered(2) == [Atom(0), Atom(1)];
  }

  lemma {:induction false} NameAction(policy: AuditPolicy, path: Path)
    requires policy.classifiers == [Named(NameClassifier(map[], map["0" := Secret]))]
    requires policy.classificationActions == DefaultActions && policy.fieldActions == map[]
    ensures policy.Action(path) == if path != [] && Lower(path[|path| - 1]) == "0" then Drop else Keep
  {
    assert policy.classifiers[1..] == [];
    assert FirstClass(policy.classifiers, path) == policy.classifiers[0](path);
  }

  /** Hashes the fields of one leaf name, and does nothing else. */
  ghost predicate HashesEmail(policy: AuditPolicy) {
    && policy.classifiers == [Named(NameClassifier(map[], map["email" := Sensitive]))]
    && policy.classificationActions == map[Sensitive := Hash] && policy.fieldActions == map[] && policy.maxDepth == 32
  }

  lemma {:induction false} EmailAction(policy: AuditPolicy, path: Path)
    requires HashesEmail(policy)
    ensures policy.Action(path) == if path != [] && Lower(path[|path| - 1]) == "email" then Hash else Keep
  {
    assert policy.classifiers[1..] == [];
    assert FirstClass(policy.classifiers, path) == policy.classifiers[0](path);
  }

  lemma {:induction false} EmailReached(policy: AuditPolicy)
    requires HashesEmail(policy)
    ensures Reached(policy, ["email"]) && policy.Action(["email"]) == Hash
  {
    assert Lower("email") == "email" && ["email"][..0] == [];
    EmailAction(policy, []);
    EmailAction(policy, ["email"]);
  }

  lemma {:induction false} EmailNeverDrops(policy: AuditPolicy, path: Path)
    requires HashesEmail(policy)
    ensures DropsFromTheEnd(policy, path)
  {
    forall i: nat ensures !Dropped(policy, path, i) {
      EmailAction(policy, Child(path, i));
    }
  }

  /** By leaf name with hashing: idempotent exactly where hashing twice is hashing once. */
  lemma {:induction false} HashedNameIdempotence(policy: AuditPolicy)
    requires HashesEmail(policy)
    ensures Idempotent(policy) <==> HashesOnce(policy)
  {
    IdempotentIffStable(policy);
    EmailReached(policy);
    forall path: Path ensures DropsFromTheEnd(policy, path) {
      EmailNeverDrops(policy, path);
    }
  }

  lemma {:induction false} OneItem(policy: AuditPolicy, item: Value)
    requires policy.maxDepth == 32 && policy.Action(["0"]) == Drop
    ensures SanitizeItems(policy, [item], [], 0) == Success([])
  {
    assert [item][..0] == [];
    assert IndexText(0) == "0" && [] + ["0"] == ["0"];
    assert SanitizeItems(policy, [], [], 0) == Success([]);
  }

  lemma {:induction false} SecondItem(policy: AuditPolicy, first: Value, second: Value)
    requires policy.maxDepth == 32 && policy.Action(["0"]) == Drop && policy.Action(["1"]) == Keep && second.Atom?
    ensures SanitizeItems(policy, [first, second], [], 0) == Success([second])
  {
    var items := [first, second];
    assert items[..1] == [first] && items[1] == second;
    OneItem(policy, first);
    assert IndexText(1) == "1" && [] + ["1"] == ["1"];
    var none: seq<Value> := [];
    assert none + [second] == [second];
  }

  /** By field action: under a policy that drops position 0, what was second is first the next time. */
  lemma {:induction false} PathPolicyNotIdempotent(policy: AuditPolicy)
    requires policy.classifiers == [] && policy.fieldActions == map["0" := Drop] && policy.maxDepth == 32
    ensures Sanitize(policy, Sequence([Atom(1), Atom(2)], false), [], 0) == Success(Some(Sequence([Atom(2)], false)))
    ensures Sanitize(policy, Sequence([Atom(2)], false), [], 0) == Success(Some(Sequence([], false)))
  {
    assert Dotted([]) == "" && Dotted(["0"]) == "0" && Dotted(["1"]) == "1";
    assert Lower("") == "" && Lower("0") == "0" && Lower("1") == "1";
    assert policy.Action(["0"]) == Drop && policy.Action(["1"]) == Keep && policy.Action([]) == Keep;
    SecondItem(policy, Atom(1), Atom(2));
    OneItem(policy, Atom(2));
  }
}
