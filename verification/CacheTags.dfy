/** Cache entries, tag indexes with expiries, and tag invalidation (redis/cache.py). Times are milliseconds. */
module CacheTags {
  import opened Wrappers
  import Text

  type Key = string

  /** The key that the key builder makes of a tag's stripped text, and stands for it. */
  type Tag = string
  type Value = int

  datatype Entry = Entry(value: Value, expires: int)

  /** A tag's index; it has no expiry between the SADD that creates it and the EXPIRE that follows. */
  datatype TagSet = TagSet(members: set<Key>, expires: Option<int>)

  /** Cache keys and tag keys are kept apart, as the key builder keeps them. */
  datatype Db = Db(now: int, values: map<Key, Entry>, tagSets: map<Tag, TagSet>) {
    predicate LiveKey(key: Key) {
      key in values && now < values[key].expires
    }

    predicate LiveTag(tag: Tag) {
      tag in tagSets && (tagSets[tag].expires.None? || now < tagSets[tag].expires.value)
    }

    function Members(tag: Tag): set<Key> {
      if LiveTag(tag) then tagSets[tag].members else {}
    }

    // ---------------------------------------------------------------- Redis commands

    function SetEx(key: Key, value: Value, ttl: int): Db {
      this.(values := values[key := Entry(value, now + ttl)])
    }

    function Sadd(tag: Tag, key: Key): Db {
      var expires := if LiveTag(tag) then tagSets[tag].expires else None;
      this.(tagSets := tagSets[tag := TagSet(Members(tag) + {key}, expires)])
    }

    function ExpireNx(tag: Tag, ttl: int): Db {
      if LiveTag(tag) && tagSets[tag].expires.None? then
        this.(tagSets := tagSets[tag := tagSets[tag].(expires := Some(now + ttl))])
      else this
    }

    /** An index without expiry counts as one that never expires. */
    function ExpireGt(tag: Tag, ttl: int): Db {
      if LiveTag(tag) && tagSets[tag].expires.Some? && now + ttl > tagSets[tag].expires.value then
        this.(tagSets := tagSets[tag := tagSets[tag].(expires := Some(now + ttl))])
      else this
    }

    function Del(keys: set<Key>): Db {
      this.(values := values - keys)
    }
  }

  const SECOND := 1000
  const TAG_MARGIN := 60

  // ---------------------------------------------------------------- what the operations mean

  /** Where a tag's index stands once a key has been put under it: it lasts until the later of two times. */
  function Indexed(db: Db, tag: Tag, key: Key, ttl: int): TagSet {
    var at := db.now + (ttl + TAG_MARGIN) * SECOND;
    TagSet(db.Members(tag) + {key},
           Some(if db.LiveTag(tag) && db.tagSets[tag].expires.Some? && db.tagSets[tag].expires.value > at
                then db.tagSets[tag].expires.value else at))
  }

  function SetEffect(db: Db, key: Key, value: Value, ttl: int, tags: set<Tag>): Db {
    Db(db.now, db.values[key := Entry(value, db.now + ttl * SECOND)],
       map t | t in db.tagSets.Keys + tags :: if t in tags then Indexed(db, t, key, ttl) else db.tagSets[t])
  }

  function InvalidateEffect(db: Db, tag: Tag): Db {
    Db(db.now, db.values - db.Members(tag), db.tagSets - {tag})
  }

  datatype CacheError = InvalidTtl | BlankTag

  /** `KeyBuilder.tag`, up to the escaping and the namespace that all tags share; `None` where it raises. */
  function TagKey(text: string): Option<Tag> {
    if Text.Blank(text) then None else Some(Text.Strip(text))
  }

  predicate NoneBlank(texts: seq<string>) {
    forall i :: 0 <= i < |texts| ==> !Text.Blank(texts[i])
  }

  /** The tags that the texts name; texts that strip to the same name the same. */
  function TagKeys(texts: seq<string>): set<Tag> {
    set i | 0 <= i < |texts| :: Text.Strip(texts[i])
  }

  /** The jitter: at most half the lifetime either way. */
  function Spread(ttl: int, ratio: real): (r: int)
    requires 0.0 <= ratio <= 0.5 && ttl > 0
    ensures 0 <= r && 2 * r <= ttl
  {
    assert (0.5 - ratio) * ttl as real >= 0.0;
    (ttl as real * ratio).Floor
  }

  /** `_ttl`, for a random offset within the spread. */
  function JitteredTtl(ttl: int, ratio: real, offset: int): (r: int)
    requires 0.0 <= ratio <= 0.5 && ttl > 0 && -Spread(ttl, ratio) <= offset <= Spread(ttl, ratio)
    ensures r >= 1 && ttl <= 2 * r <= 3 * ttl
  {
    if ttl + offset > 1 then ttl + offset else 1
  }

  class SyncCache {
    var db: Db
    const defaultTtl: int
    const jitterRatio: real

    constructor (db: Db, defaultTtl: int, jitterRatio: real)
      requires defaultTtl > 0 && 0.0 <= jitterRatio <= 0.5
      ensures this.db == db && this.defaultTtl == defaultTtl && this.jitterRatio == jitterRatio
    {
      this.db, this.defaultTtl, this.jitterRatio := db, defaultTtl, jitterRatio;
    }

    /** `get`. */
    method Get(key: Key) returns (value: Option<Value>)
      ensures value.Some? <==> db.LiveKey(key)
      ensures value.Some? ==> value.value == db.values[key].value
    {
      return if db.LiveKey(key) then Some(db.values[key].value) else None;
    }

    /**
     * `set`: one transaction that stores the value and brings each tag's index and expiry up to date. A blank tag
     * raises while the commands are still being collected.
     */
    method Set(key: Key, value: Value, ttlSeconds: Option<int>, tags: seq<string>, offset: int)
      returns (r: Result<int, CacheError>)
      requires 0.0 <= jitterRatio <= 0.5 && defaultTtl > 0
      requires var ttl := if ttlSeconds.Some? then ttlSeconds.value else defaultTtl;
        ttl > 0 ==> -Spread(ttl, jitterRatio) <= offset <= Spread(ttl, jitterRatio)
      modifies this`db
      ensures var ttl := if ttlSeconds.Some? then ttlSeconds.value else defaultTtl;
        if ttl <= 0 then r == Failure(InvalidTtl) && db == old(db)
        else if !NoneBlank(tags) then r == Failure(BlankTag) && db == old(db)
        else r == Success(JitteredTtl(ttl, jitterRatio, offset)) &&
             db == SetEffect(old(db), key, value, r.value, TagKeys(tags))
    {
      var wanted := if ttlSeconds.Some? then ttlSeconds.value else defaultTtl;
      if wanted <= 0 {
        return Failure(InvalidTtl);
      }
      var ttl := JitteredTtl(wanted, jitterRatio, offset);
      var next :- Collect(db, key, value, ttl, tags);
      db := next;
      return Success(ttl);
    }

    /** The commands of `set`, one after the other, and what they make of the database. */
    method Collect(start: Db, key: Key, value: Value, ttl: int, tags: seq<string>) returns (r: Result<Db, CacheError>)
      requires ttl > 0
      ensures r ==
        if NoneBlank(tags) then Success(SetEffect(start, key, value, ttl, TagKeys(tags))) else Failure(BlankTag)
    {
      var next := start.SetEx(key, value, ttl * SECOND);
      for i := 0 to |tags|
        invariant forall j :: 0 <= j < i ==> !Text.Blank(tags[j])
        invariant next == SetEffect(start, key, value, ttl, TagKeys(tags[..i]))
      {
        var tag := TagKey(tags[i]);
        if tag.None? {
          assert Text.Blank(tags[i]) && !NoneBlank(tags);
          return Failure(BlankTag);
        }
        ghost var before := next;
        next := next.Sadd(tag.value, key);
        next := next.ExpireNx(tag.value, (ttl + TAG_MARGIN) * SECOND);
        next := next.ExpireGt(tag.value, (ttl + TAG_MARGIN) * SECOND);
        TagTurn(before, tag.value, key, ttl);
        SetEffectStep(start, key, value, ttl, TagKeys(tags[..i]), tag.value);
        TagKeysStep(tags, i);
      }
      assert tags[..|tags|] == tags && NoneBlank(tags);
      return Success(next);
    }

    /** `delete`. */
    method Delete(keys: seq<Key>) returns (deleted: nat)
      modifies this`db
      ensures db == old(db).(values := old(db).values - set k | k in keys)
      ensures deleted == |set k | k in keys && old(db).LiveKey(k)|
    {
      deleted := |set k | k in keys && db.LiveKey(k)|;
      db := db.Del(set k | k in keys);
    }

    /** `invalidate_tag`: the script deletes the index's members one by one, then the index. */
    method InvalidateTag(text: string) returns (r: Result<nat, CacheError>)
      modifies this`db
      ensures Text.Blank(text) ==> r == Failure(BlankTag) && db == old(db)
      ensures !Text.Blank(text) ==>
        var tag := Text.Strip(text);
        && db == InvalidateEffect(old(db), tag)
        && r == Success(|set k | k in old(db).Members(tag) && old(db).LiveKey(k)|)
    {
      if TagKey(text).None? {
        return Failure(BlankTag);
      }
      var deleted := InvalidateScript(TagKey(text).value);
      return Success(deleted);
    }

    method InvalidateScript(tag: Tag) returns (deleted: nat)
      modifies this`db
      ensures db == InvalidateEffect(old(db), tag)
      ensures deleted == |set k | k in old(db).Members(tag) && old(db).LiveKey(k)|
    {
      var left := db.Members(tag);
      ghost var gone: set<Key>, counted: set<Key> := {}, {};
      deleted := 0;
      while left != {}
        invariant gone + left == old(db).Members(tag) && gone !! left
        invariant db == old(db).(values := old(db).values - gone)
        invariant counted == set k | k in gone && old(db).LiveKey(k)
        invariant deleted == |counted|
        decreases |left|
      {
        var member :| member in left;
        if db.LiveKey(member) {
          deleted := deleted + 1;
          counted := counted + {member};
        }
        db := db.Del({member});
        left, gone := left - {member}, gone + {member};
      }
      db := db.(tagSets := db.tagSets - {tag});
    }
  }

  /** SADD, EXPIRE NX and EXPIRE GT together are `Indexed`. */
  lemma {:induction false} TagTurn(db: Db, tag: Tag, key: Key, ttl: int)
    requires ttl > 0
    ensures var at := (ttl + TAG_MARGIN) * SECOND;
      db.Sadd(tag, key).ExpireNx(tag, at).ExpireGt(tag, at)
        == db.(tagSets := db.tagSets[tag := Indexed(db, tag, key, ttl)])
  {
    var at := (ttl + TAG_MARGIN) * SECOND;
    var added := db.Sadd(tag, key);
    var bounded := added.ExpireNx(tag, at);
    assert bounded.tagSets == db.tagSets[tag := bounded.tagSets[tag]];
    var last := bounded.ExpireGt(tag, at);
    assert last.tagSets == db.tagSets[tag := last.tagSets[tag]];
    assert last.tagSets[tag] == Indexed(db, tag, key, ttl);
  }

  lemma {:induction false} TagSetsStep(db: Db, key: Key, ttl: int, tags: set<Tag>, tag: Tag)
    ensures (map t | t in db.tagSets.Keys + tags :: if t in tags then Indexed(db, t, key, ttl) else db.tagSets[t])[
              tag := Indexed(db, tag, key, ttl)]
      == map t | t in db.tagSets.Keys + (tags + {tag}) ::
           if t in tags + {tag} then Indexed(db, t, key, ttl) else db.tagSets[t]
  {
  }

  lemma {:induction false} SetEffectStep(db: Db, key: Key, value: Value, ttl: int, done: set<Tag>, tag: Tag)
    requires ttl > 0
    ensures var before := SetEffect(db, key, value, ttl, done);
      before.(tagSets := before.tagSets[tag := Indexed(before, tag, key, ttl)])
        == SetEffect(db, key, value, ttl, done + {tag})
  {
    var before := SetEffect(db, key, value, ttl, done);
    if tag in done {
      assert db.Members(tag) + {key} + {key} == db.Members(tag) + {key};
    }
    assert Indexed(before, tag, key, ttl) == Indexed(db, tag, key, ttl);
    TagSetsStep(db, key, ttl, done, tag);
  }

  lemma {:induction false} TagKeysStep(texts: seq<string>, i: nat)
    requires i < |texts|
    ensures TagKeys(texts[..i + 1]) == TagKeys(texts[..i]) + {Text.Strip(texts[i])}
  {
    forall t | t in TagKeys(texts[..i]) ensures t in TagKeys(texts[..i + 1]) {
      var j :| 0 <= j < i && Text.Strip(texts[..i][j]) == t;
      assert texts[..i + 1][j] == texts[j];
    }
    assert texts[..i + 1][i] == texts[i];
    forall t | t in TagKeys(texts[..i + 1]) ensures t in TagKeys(texts[..i]) + {Text.Strip(texts[i])} {
      var j :| 0 <= j < i + 1 && Text.Strip(texts[..i + 1][j]) == t;
      if j < i {
        assert texts[..i][j] == texts[j];
      }
    }
  }

  // ---------------------------------------------------------------- timed runs

  datatype Action =
    | SetKey(key: Key, value: Value, ttl: int, tags: set<Tag>)
    | DeleteKeys(keys: set<Key>)
    | Invalidate(tag: Tag)
    | Tick(ms: nat)

  /** The database with its history: the tags of each key's latest set, and every key ever set with a tag. */
  datatype State = State(db: Db, latest: map<Key, set<Tag>>, ever: map<Tag, set<Key>>) {
    function Ever(tag: Tag): set<Key> {
      if tag in ever then ever[tag] else {}
    }

    predicate Carries(key: Key, tag: Tag) {
      db.LiveKey(key) && key in latest && tag in latest[key]
    }
  }

  predicate Enabled(a: Action) {
    a.SetKey? ==> a.ttl > 0
  }

  function Step(s: State, a: Action): State {
    match a
    case SetKey(key, value, ttl, tags) =>
      State(SetEffect(s.db, key, value, ttl, tags), s.latest[key := tags],
            map t | t in s.ever.Keys + tags :: if t in tags then s.Ever(t) + {key} else s.ever[t])
    case DeleteKeys(keys) => s.(db := s.db.Del(keys))
    case Invalidate(tag) => s.(db := InvalidateEffect(s.db, tag))
    case Tick(ms) => s.(db := s.db.(now := s.db.now + ms))
  }

  function Exec(s: State, actions: seq<Action>): State
    decreases |actions|
  {
    if actions == [] then s else Exec(Step(s, actions[0]), actions[1..])
  }

  const EMPTY := State(Db(0, map[], map[]), map[], map[])

  /** The key's entry in the tag's index, which outlives the key by at least a minute. */
  ghost predicate Listed(db: Db, key: Key, tag: Tag)
    requires key in db.values
  {
    && key in db.Members(tag)
    && db.tagSets[tag].expires.Some?
    && db.tagSets[tag].expires.value >= db.values[key].expires + TAG_MARGIN * SECOND
  }

  ghost predicate Indexing(s: State) {
    && (forall k :: s.db.LiveKey(k) ==> k in s.latest)
    && (forall k, t :: s.Carries(k, t) ==> Listed(s.db, k, t))
    && (forall t :: t in s.db.tagSets ==> s.db.tagSets[t].expires.Some?)
    && (forall t, k :: k in s.db.Members(t) ==> k in s.Ever(t))
  }

  lemma {:induction false} StepKeepsIndexing(s: State, a: Action)
    requires Indexing(s) && Enabled(a)
    ensures Indexing(Step(s, a))
  {
    var n := Step(s, a);
    forall k, t | n.Carries(k, t) ensures Listed(n.db, k, t) {
      if a.SetKey? && k == a.key {
        assert n.db.tagSets[t] == Indexed(s.db, t, a.key, a.ttl);
      } else {
        assert s.Carries(k, t);
      }
    }
    forall t, k | k in n.db.Members(t) ensures k in n.Ever(t) {
      if a.SetKey? && t in a.tags {
        assert n.db.tagSets[t] == Indexed(s.db, t, a.key, a.ttl);
      } else {
        assert k in s.db.Members(t);
      }
    }
  }

  lemma {:induction false} RunsKeepIndexing(s: State, actions: seq<Action>)
    requires Indexing(s) && forall i :: 0 <= i < |actions| ==> Enabled(actions[i])
    ensures Indexing(Exec(s, actions))
    decreases |actions|
  {
    if actions != [] {
      StepKeepsIndexing(s, actions[0]);
      RunsKeepIndexing(Step(s, actions[0]), actions[1..]);
    }
  }

  /**
   * After any timed run, each live key is in the index of every tag its latest set named, and that index outlives
   * it by a minute; then invalidating a tag leaves no live key that carries it, and deletes only keys once set with it.
   */
  lemma {:induction false} TagsCoverTheirKeys(actions: seq<Action>, tag: Tag)
    requires forall i :: 0 <= i < |actions| ==> Enabled(actions[i])
    ensures var s := Exec(EMPTY, actions);
      && (forall k, t :: s.Carries(k, t) ==> Listed(s.db, k, t))
      && (forall k :: !Step(s, Invalidate(tag)).Carries(k, tag))
      && (forall k :: s.db.LiveKey(k) && !Step(s, Invalidate(tag)).db.LiveKey(k) ==> k in s.Ever(tag))
  {
    RunsKeepIndexing(EMPTY, actions);
    SurvivorsUnlisted(Exec(EMPTY, actions), tag);
  }

  lemma {:induction false} SurvivorsUnlisted(s: State, tag: Tag)
    ensures forall k :: Step(s, Invalidate(tag)).Carries(k, tag) ==> s.Carries(k, tag) && k !in s.db.Members(tag)
  {
  }

  // ---------------------------------------------------------------- exactly which keys an invalidation deletes

  /** A live key that the invalidation deletes. */
  predicate Deletes(s: State, tag: Tag, key: Key) {
    s.db.LiveKey(key) && !Step(s, Invalidate(tag)).db.LiveKey(key)
  }

  /** No call sets a key without a tag that its latest set named. */
  predicate KeepsTags(s: State, actions: seq<Action>)
    decreases |actions|
  {
    actions != [] ==>
      && (actions[0].SetKey? && actions[0].key in s.latest ==> s.latest[actions[0].key] <= actions[0].tags)
      && KeepsTags(Step(s, actions[0]), actions[1..])
  }

  /** Whatever was ever set with a tag still names it. */
  ghost predicate Faithful(s: State) {
    forall t, k :: k in s.Ever(t) ==> k in s.latest && t in s.latest[k]
  }

  lemma {:induction false} RunsStayFaithful(s: State, actions: seq<Action>)
    requires Faithful(s) && KeepsTags(s, actions)
    ensures Faithful(Exec(s, actions))
    decreases |actions|
  {
    if actions != [] {
      var n := Step(s, actions[0]);
      forall t, k | k in n.Ever(t) ensures k in n.latest && t in n.latest[k] {
        assert k in s.Ever(t) || (actions[0].SetKey? && k == actions[0].key && t in actions[0].tags);
      }
      RunsStayFaithful(n, actions[1..]);
    }
  }

  /** Callers that never drop a tag from a key lose exactly the tag's live carriers to an invalidation. */
  lemma {:induction false} KeptTagsDeleteCarriers(actions: seq<Action>, tag: Tag, key: Key)
    requires KeepsTags(EMPTY, actions) && forall i :: 0 <= i < |actions| ==> Enabled(actions[i])
    ensures var s := Exec(EMPTY, actions); Deletes(s, tag, key) <==> s.Carries(key, tag)
  {
    RunsStayFaithful(EMPTY, actions);
    TagsCoverTheirKeys(actions, tag);
  }

  /** An index can outlast a key's tagging: a key set again without the tag is still deleted with it. */
  lemma {:induction false} StaleMembershipDeletes(key: Key, tag: Tag)
    ensures var s := Exec(EMPTY, [SetKey(key, 1, 10, {tag}), SetKey(key, 2, 10, {})]);
      && !s.Carries(key, tag) && s.db.LiveKey(key)
      && !Step(s, Invalidate(tag)).db.LiveKey(key)
  {
    var s1 := Step(EMPTY, SetKey(key, 1, 10, {tag}));
    var s2 := Step(s1, SetKey(key, 2, 10, {}));
    assert [SetKey(key, 1, 10, {tag}), SetKey(key, 2, 10, {})][1..] == [SetKey(key, 2, 10, {})];
    assert Exec(s1, [SetKey(key, 2, 10, {})]) == Exec(s2, []);
    assert s1.db.tagSets[tag].members == {key};
    assert key in s2.db.Members(tag);
  }
}
