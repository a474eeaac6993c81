/** Which keys a tag's invalidation deletes, told from the calls that were made (redis/cache.py). */
module TagHistory {
  import opened Wrappers
  import opened CacheTags

  // ---------------------------------------------------------------- what the calls say

  /** The time at which action `n` of the run is made. */
  function Clock(actions: seq<Action>, n: nat): int
    requires n <= |actions|
  {
    if n == 0 then 0 else Clock(actions, n - 1) + if actions[n - 1].Tick? then actions[n - 1].ms else 0
  }

  predicate SetsWith(a: Action, tag: Tag) {
    a.SetKey? && tag in a.tags
  }

  /** A lifetime and a minute after a set. */
  function Until(actions: seq<Action>, i: nat): int
    requires i < |actions| && actions[i].SetKey?
  {
    Clock(actions, i) + (actions[i].ttl + TAG_MARGIN) * SECOND
  }

  /** No call after `i` and before `n` invalidates the tag. */
  predicate Untouched(actions: seq<Action>, tag: Tag, i: nat, n: nat)
    requires n <= |actions|
  {
    forall j :: i < j < n ==> actions[j] != Invalidate(tag)
  }

  /** Call `i` set some key with the tag, less than a lifetime and a minute before `n`; no invalidation came since. */
  predicate Reaches(actions: seq<Action>, tag: Tag, i: nat, n: nat)
    requires n <= |actions|
  {
    i < n && SetsWith(actions[i], tag) && Untouched(actions, tag, i, n) && Clock(actions, n) < Until(actions, i)
  }

  /** Some such call reaches `n`. */
  ghost predicate Covered(actions: seq<Action>, tag: Tag, n: nat)
    requires n <= |actions|
  {
    exists i: nat :: Reaches(actions, tag, i, n)
  }

  /** Call `i` set this key with the tag, no invalidation came since, and at no time since was the tag uncovered. */
  ghost predicate LatelyAt(actions: seq<Action>, tag: Tag, key: Key, i: nat, n: nat)
    requires n <= |actions|
  {
    && i < n && SetsWith(actions[i], tag) && actions[i].key == key && Untouched(actions, tag, i, n)
    && forall m: nat {:trigger Covered(actions, tag, m)} :: i < m <= n ==> Covered(actions, tag, m)
  }

  ghost predicate LatelySet(actions: seq<Action>, tag: Tag, key: Key, n: nat)
    requires n <= |actions|
  {
    exists i: nat :: LatelyAt(actions, tag, key, i, n)
  }

  /** The last call that set the key. */
  function LastSet(actions: seq<Action>, key: Key, n: nat): Option<nat>
    requires n <= |actions|
  {
    if n == 0 then None
    else if actions[n - 1].SetKey? && actions[n - 1].key == key then Some(n - 1)
    else LastSet(actions, key, n - 1)
  }

  lemma {:induction false} LastSetSets(actions: seq<Action>, key: Key, n: nat)
    requires n <= |actions|
    ensures var last := LastSet(actions, key, n);
      last.Some? ==> last.value < n && actions[last.value].SetKey? && actions[last.value].key == key
  {
    if n > 0 {
      LastSetSets(actions, key, n - 1);
    }
  }

  predicate AllEnabled(actions: seq<Action>) {
    forall i :: 0 <= i < |actions| ==> Enabled(actions[i])
  }

  // ---------------------------------------------------------------- what the server holds

  /** The state after the first `n` calls. */
  function At(actions: seq<Action>, n: nat): State
    requires n <= |actions|
  {
    if n == 0 then EMPTY else Step(At(actions, n - 1), actions[n - 1])
  }

  lemma {:induction false} ExecAt(s: State, actions: seq<Action>, more: seq<Action>)
    ensures Exec(s, actions + more) == Exec(Exec(s, actions), more)
    decreases |actions|
  {
    if actions == [] {
      assert actions + more == more;
    } else {
      assert (actions + more)[1..] == actions[1..] + more;
      ExecAt(Step(s, actions[0]), actions[1..], more);
    }
  }

  lemma {:induction false} AtIsExec(actions: seq<Action>, n: nat)
    requires n <= |actions|
    ensures At(actions, n) == Exec(EMPTY, actions[..n])
  {
    if n > 0 {
      AtIsExec(actions, n - 1);
      assert actions[..n] == actions[..n - 1] + [actions[n - 1]];
      ExecAt(EMPTY, actions[..n - 1], [actions[n - 1]]);
      assert [actions[n - 1]][1..] == [];
    }
  }

  lemma {:induction false} ClockIsNow(actions: seq<Action>, n: nat)
    requires n <= |actions|
    ensures At(actions, n).db.now == Clock(actions, n)
    ensures n > 0 ==> Clock(actions, n - 1) <= Clock(actions, n)
  {
    if n > 0 {
      ClockIsNow(actions, n - 1);
    }
  }

  /** The tag's index lasts as long as the calls that reach here say. */
  ghost predicate LastsAsSaid(actions: seq<Action>, tag: Tag, n: nat)
    requires n <= |actions|
  {
    var db := At(actions, n).db;
    && (db.LiveTag(tag) <==> Covered(actions, tag, n))
    && (db.LiveTag(tag) ==>
          && db.tagSets[tag].expires.Some?
          && (exists i: nat :: Reaches(actions, tag, i, n) && Until(actions, i) == db.tagSets[tag].expires.value)
          && forall i: nat :: Reaches(actions, tag, i, n) ==> Until(actions, i) <= db.tagSets[tag].expires.value)
  }

  /** One call later, what reached still does unless it was invalidated or its time has come. */
  lemma {:induction false} ReachesNext(actions: seq<Action>, tag: Tag, i: nat, n: nat)
    requires n < |actions| && i < n
    ensures Reaches(actions, tag, i, n + 1) <==>
      Reaches(actions, tag, i, n) && actions[n] != Invalidate(tag) && Clock(actions, n + 1) < Until(actions, i)
  {
    ClockIsNow(actions, n + 1);
    if Untouched(actions, tag, i, n + 1) {
      assert actions[n] != Invalidate(tag);
      assert Untouched(actions, tag, i, n);
    }
  }

  lemma {:induction false} ReachesItself(actions: seq<Action>, tag: Tag, n: nat)
    requires n < |actions| && AllEnabled(actions)
    ensures Reaches(actions, tag, n, n + 1) <==> SetsWith(actions[n], tag)
  {
    if SetsWith(actions[n], tag) {
      assert Enabled(actions[n]) && Clock(actions, n + 1) == Clock(actions, n);
    }
  }

  lemma {:induction false} QuietStep(actions: seq<Action>, tag: Tag, n: nat)
    requires n < |actions| && AllEnabled(actions) && LastsAsSaid(actions, tag, n)
    requires !SetsWith(actions[n], tag) && actions[n] != Invalidate(tag)
    ensures LastsAsSaid(actions, tag, n + 1)
  {
    ClockIsNow(actions, n + 1);
    var db, next := At(actions, n).db, At(actions, n + 1).db;
    assert tag in next.tagSets <==> tag in db.tagSets;
    assert tag in db.tagSets ==> next.tagSets[tag] == db.tagSets[tag];
    ReachesItself(actions, tag, n);
    forall i: nat ensures Reaches(actions, tag, i, n + 1) <==>
      i < n && Reaches(actions, tag, i, n) && next.now < Until(actions, i)
    {
      if i < n {
        ReachesNext(actions, tag, i, n);
      }
    }
    if db.LiveTag(tag) {
      var i: nat :| Reaches(actions, tag, i, n) && Until(actions, i) == db.tagSets[tag].expires.value;
      assert next.LiveTag(tag) ==> Reaches(actions, tag, i, n + 1);
    } else {
      assert !next.LiveTag(tag);
    }
  }

  lemma {:induction false} SetStep(actions: seq<Action>, tag: Tag, n: nat)
    requires n < |actions| && AllEnabled(actions) && LastsAsSaid(actions, tag, n) && SetsWith(actions[n], tag)
    ensures LastsAsSaid(actions, tag, n + 1)
  {
    ClockIsNow(actions, n);
    ClockIsNow(actions, n + 1);
    var db, next := At(actions, n).db, At(actions, n + 1).db;
    assert Enabled(actions[n]);
    assert next.tagSets[tag] == Indexed(db, tag, actions[n].key, actions[n].ttl);
    ReachesItself(actions, tag, n);
    var m := n + 1;
    forall i: nat ensures Reaches(actions, tag, i, m) <==> i == n || (i < n && Reaches(actions, tag, i, n)) {
      if i < n {
        ReachesNext(actions, tag, i, n);
      }
    }
    assert Until(actions, n) == db.now + (actions[n].ttl + TAG_MARGIN) * SECOND;
    assert Reaches(actions, tag, n, m);
    if db.LiveTag(tag) {
      var i: nat :| Reaches(actions, tag, i, n) && Until(actions, i) == db.tagSets[tag].expires.value;
      assert Reaches(actions, tag, i, m);
    }
  }

  lemma {:induction false} InvalidateStep(actions: seq<Action>, tag: Tag, n: nat)
    requires n < |actions| && actions[n] == Invalidate(tag)
    ensures LastsAsSaid(actions, tag, n + 1) && !Covered(actions, tag, n + 1)
  {
    var m := n + 1;
    forall i: nat ensures !Reaches(actions, tag, i, m) {
      if i < n {
        ReachesNext(actions, tag, i, n);
      }
    }
  }

  lemma {:induction false} IndexLastsAsSaid(actions: seq<Action>, tag: Tag, n: nat)
    requires n <= |actions| && AllEnabled(actions)
    ensures LastsAsSaid(actions, tag, n)
  {
    if n > 0 {
      IndexLastsAsSaid(actions, tag, n - 1);
      if actions[n - 1] == Invalidate(tag) {
        InvalidateStep(actions, tag, n - 1);
      } else if SetsWith(actions[n - 1], tag) {
        SetStep(actions, tag, n - 1);
      } else {
        QuietStep(actions, tag, n - 1);
      }
    }
  }

  // ---------------------------------------------------------------- members

  lemma {:induction false} LatelyNext(actions: seq<Action>, tag: Tag, key: Key, i: nat, n: nat)
    requires n < |actions| && i < n
    ensures LatelyAt(actions, tag, key, i, n + 1) <==>
      LatelyAt(actions, tag, key, i, n) && actions[n] != Invalidate(tag) && Covered(actions, tag, n + 1)
  {
    if LatelyAt(actions, tag, key, i, n + 1) {
      assert Untouched(actions, tag, i, n) && actions[n] != Invalidate(tag);
    }
  }

  /** The step from `n` to `n + 1`, of the keys lately set. */
  lemma {:induction false} LatelyStep(actions: seq<Action>, tag: Tag, key: Key, n: nat)
    requires n < |actions|
    ensures LatelySet(actions, tag, key, n + 1) <==>
      && Covered(actions, tag, n + 1) && actions[n] != Invalidate(tag)
      && (LatelySet(actions, tag, key, n) || (SetsWith(actions[n], tag) && actions[n].key == key))
  {
    forall i: nat | i < n
      ensures LatelyAt(actions, tag, key, i, n + 1) <==>
        LatelyAt(actions, tag, key, i, n) && actions[n] != Invalidate(tag) && Covered(actions, tag, n + 1)
    {
      LatelyNext(actions, tag, key, i, n);
    }
    assert LatelyAt(actions, tag, key, n, n + 1) <==>
      SetsWith(actions[n], tag) && actions[n].key == key && Covered(actions, tag, n + 1);
    if LatelySet(actions, tag, key, n) {
      var i: nat :| LatelyAt(actions, tag, key, i, n);
      assert LatelyAt(actions, tag, key, i, n + 1) <==>
        actions[n] != Invalidate(tag) && Covered(actions, tag, n + 1);
    }
    if LatelySet(actions, tag, key, n + 1) {
      var i: nat :| LatelyAt(actions, tag, key, i, n + 1);
      assert Covered(actions, tag, n + 1);
      assert i < n ==> LatelyAt(actions, tag, key, i, n);
    }
  }

  /** A tag's index holds exactly the keys lately set with it. */
  lemma {:induction false} MembersLatelySet(actions: seq<Action>, tag: Tag, key: Key, n: nat)
    requires n <= |actions| && AllEnabled(actions)
    ensures key in At(actions, n).db.Members(tag) <==> LatelySet(actions, tag, key, n)
  {
    if n > 0 {
      MembersLatelySet(actions, tag, key, n - 1);
      IndexLastsAsSaid(actions, tag, n - 1);
      IndexLastsAsSaid(actions, tag, n);
      LatelyStep(actions, tag, key, n - 1);
      if LatelySet(actions, tag, key, n - 1) {
        var i: nat :| LatelyAt(actions, tag, key, i, n - 1);
        assert Covered(actions, tag, n - 1);
      }
      MembersStep(actions, tag, key, n - 1);
    }
  }

  /** The step from `n` to `n + 1`, of the index's members. */
  lemma {:induction false} MembersStep(actions: seq<Action>, tag: Tag, key: Key, n: nat)
    requires n < |actions| && AllEnabled(actions)
    ensures var db, next := At(actions, n).db, At(actions, n + 1).db;
      key in next.Members(tag) <==>
        && next.LiveTag(tag) && actions[n] != Invalidate(tag)
        && (key in db.Members(tag) || (SetsWith(actions[n], tag) && actions[n].key == key))
  {
    ClockIsNow(actions, n);
    ClockIsNow(actions, n + 1);
    var db, next := At(actions, n).db, At(actions, n + 1).db;
    if SetsWith(actions[n], tag) {
      assert Enabled(actions[n]);
      assert next.tagSets[tag] == Indexed(db, tag, actions[n].key, actions[n].ttl);
    } else if actions[n] != Invalidate(tag) {
      assert tag in next.tagSets <==> tag in db.tagSets;
      assert tag in db.tagSets ==> next.tagSets[tag] == db.tagSets[tag];
    }
  }

  // ---------------------------------------------------------------- exactly which keys are deleted

  /**
   * After any timed run, invalidating a tag deletes a live key exactly when some call set the key with the tag, no
   * invalidation came since, and never since was the last set with the tag a lifetime and a minute ago.
   */
  lemma {:induction false} DeletedIffLatelySet(actions: seq<Action>, tag: Tag, key: Key)
    requires AllEnabled(actions) && Exec(EMPTY, actions).db.LiveKey(key)
    ensures Deletes(Exec(EMPTY, actions), tag, key) <==> LatelySet(actions, tag, key, |actions|)
  {
    AtIsExec(actions, |actions|);
    assert actions[..|actions|] == actions;
    MembersLatelySet(actions, tag, key, |actions|);
  }

  lemma {:induction false} LatestIsLastSet(actions: seq<Action>, key: Key, n: nat)
    requires n <= |actions|
    ensures var last := LastSet(actions, key, n);
      && (key in At(actions, n).latest <==> last.Some?)
      && (last.Some? ==> last.value < n && actions[last.value].SetKey?
                         && At(actions, n).latest[key] == actions[last.value].tags)
  {
    if n > 0 {
      LatestIsLastSet(actions, key, n - 1);
    }
  }

  /** A key is deleted though it no longer carries the tag exactly when it was lately set with it, and last without. */
  lemma {:induction false} StrayDeletion(actions: seq<Action>, tag: Tag, key: Key)
    requires AllEnabled(actions) && Exec(EMPTY, actions).db.LiveKey(key)
    ensures var s, last := Exec(EMPTY, actions), LastSet(actions, key, |actions|);
      && last.Some? && last.value < |actions| && actions[last.value].SetKey?
      && (Deletes(s, tag, key) && !s.Carries(key, tag) <==>
          LatelySet(actions, tag, key, |actions|) && tag !in actions[last.value].tags)
  {
    AtIsExec(actions, |actions|);
    assert actions[..|actions|] == actions;
    DeletedIffLatelySet(actions, tag, key);
    LatestIsLastSet(actions, key, |actions|);
    RunsKeepIndexing(EMPTY, actions);
  }

  /** An invalidation deletes carriers of its tag alone exactly when no live key lately set with it was last without. */
  lemma {:induction false} OnlyCarriersDeleted(actions: seq<Action>, tag: Tag)
    requires AllEnabled(actions)
    ensures var s := Exec(EMPTY, actions);
      (forall k :: Deletes(s, tag, k) ==> s.Carries(k, tag)) <==>
      forall k :: s.db.LiveKey(k) && LatelySet(actions, tag, k, |actions|) ==> LastSetWith(actions, tag, k)
  {
    var s := Exec(EMPTY, actions);
    forall k | s.db.LiveKey(k)
      ensures Deletes(s, tag, k) && !s.Carries(k, tag) <==>
        LatelySet(actions, tag, k, |actions|) && !LastSetWith(actions, tag, k)
    {
      StrayDeletion(actions, tag, k);
    }
  }

  /** The last call that set the key named the tag. */
  predicate LastSetWith(actions: seq<Action>, tag: Tag, key: Key) {
    var last := LastSet(actions, key, |actions|);
    last.Some? && last.value < |actions| && SetsWith(actions[last.value], tag)
  }
}
