/** Crash-safe release publication over a remote store (ops/release/publish_release.py). */
module Release {
  import opened Wrappers

  datatype LocalAsset = LocalAsset(name: string, size: nat, digest: string)
  datatype RemoteAsset = RemoteAsset(id: nat, release: nat, name: Option<string>, size: nat, digest: Option<string>)
  datatype ReleaseInfo = ReleaseInfo(id: nat, tagName: string, draft: bool, prerelease: bool, target: string)

  /** One tag, the commit to publish under it, and the files built from that commit. */
  datatype Job = Job(tag: string, sha: string, expected: seq<LocalAsset>) {
    /** `expected` stands for a dict keyed by file name. */
    ghost predicate Valid() {
      forall i, j :: 0 <= i < j < |expected| ==> expected[i].name != expected[j].name
    }
  }

  datatype ReleaseError =
    | Crashed
    | ApiStatus(status: int)
    | MultipleReleases
    | UnexpectedTagTarget
    | NotADraft
    | MetadataMismatch
    | NamelessAsset
    | AssetSetMismatch
    | DuplicateAsset
    | AssetMismatch

  type Outcome<T> = Result<T, ReleaseError>

  // ---------------------------------------------------------------- the remote store

  datatype Store = Store(
    releases: map<nat, ReleaseInfo>, assets: map<nat, RemoteAsset>, tags: map<string, string>, nextId: nat)
  {
    ghost predicate Valid() {
      && (forall id :: id in releases ==> releases[id].id == id < nextId)
      && (forall id :: id in assets ==> assets[id].id == id < nextId && assets[id].release in releases)
    }

    function AssetsOf(rid: nat): set<RemoteAsset> {
      set id | id in assets && assets[id].release == rid :: assets[id]
    }

    function Tagged(tag: string): set<nat> {
      set id | id in releases && releases[id].tagName == tag
    }
  }

  const DIGEST_PREFIX := "sha256:"

  /** `remote_digest`. */
  function RemoteDigest(asset: RemoteAsset): Option<string> {
    if asset.digest.None? || !(DIGEST_PREFIX <= asset.digest.value) then None
    else Some(asset.digest.value[|DIGEST_PREFIX|..])
  }

  /** `asset_matches`. */
  predicate Matches(local: LocalAsset, remote: RemoteAsset) {
    remote.name == Some(local.name) && remote.size == local.size && RemoteDigest(remote) == Some(local.digest)
  }

  /** One asset carries the name, and it has the right size and digest. */
  ghost predicate HasSole(local: LocalAsset, assets: set<RemoteAsset>) {
    exists a :: a in assets && Matches(local, a) && forall b :: b in assets && b.name == Some(local.name) ==> b == a
  }

  function Names(expected: seq<LocalAsset>): set<string> {
    set l | l in expected :: l.name
  }

  /** Exactly the expected names, each once, each with its size and digest. */
  ghost predicate ExactAssets(expected: seq<LocalAsset>, assets: set<RemoteAsset>) {
    && (forall a :: a in assets ==> a.name.Some? && a.name.value in Names(expected))
    && (forall l :: l in expected ==> HasSole(l, assets))
  }

  ghost predicate Distinct<T(!new)>(s: seq<T>) {
    forall i, j :: 0 <= i < j < |s| ==> s[i] != s[j]
  }

  ghost predicate Enumerates(items: seq<RemoteAsset>, assets: set<RemoteAsset>) {
    Distinct(items) && forall a :: a in items <==> a in assets
  }

  /** The calls a client may still make before it crashes; `None` when it does not crash. */
  type Budget = Option<nat>

  function Spend(budget: Budget): Budget {
    if budget.None? || budget.value == 0 then budget else Some(budget.value - 1)
  }

  /** Every method is one API call: it crashes before taking effect when the budget is used up. */
  class GitHubClient {
    var remote: Store
    var budget: Budget

    constructor (remote: Store, budget: Budget)
      ensures this.remote == remote && this.budget == budget
    {
      this.remote := remote;
      this.budget := budget;
    }

    predicate Dead()
      reads this
    {
      budget == Some(0)
    }

    method FindRelease(tag: string) returns (r: Outcome<Option<ReleaseInfo>>)
      modifies this`budget
      ensures budget == Spend(old(budget))
      ensures old(Dead()) ==> r == Failure(Crashed)
      ensures !old(Dead()) ==>
        var ids := remote.Tagged(tag);
        match r
        case Failure(e) => e == MultipleReleases && exists a, b :: a in ids && b in ids && a != b
        case Success(None) => ids == {}
        case Success(Some(info)) => exists id :: ids == {id} && info == remote.releases[id]
    {
      if Dead() { return Failure(Crashed); }
      budget := Spend(budget);
      var ids := remote.Tagged(tag);
      if ids == {} { return Success(None); }
      var id :| id in ids;
      if ids - {id} != {} {
        var other :| other in ids - {id};
        return Failure(MultipleReleases);
      }
      assert ids == {id};
      return Success(Some(remote.releases[id]));
    }

    method TagTarget(tag: string) returns (r: Outcome<Option<string>>)
      modifies this`budget
      ensures budget == Spend(old(budget))
      ensures r == if old(Dead()) then Failure(Crashed)
                   else Success(if tag in remote.tags then Some(remote.tags[tag]) else None)
    {
      if Dead() { return Failure(Crashed); }
      budget := Spend(budget);
      return Success(if tag in remote.tags then Some(remote.tags[tag]) else None);
    }

    method CreateDraft(tag: string, sha: string) returns (r: Outcome<ReleaseInfo>)
      requires remote.Valid()
      modifies this
      ensures budget == Spend(old(budget)) && remote.Valid()
      ensures old(Dead()) ==> r == Failure(Crashed) && remote == old(remote)
      ensures !old(Dead()) ==>
        var id := old(remote.nextId);
        && r == Success(ReleaseInfo(id, tag, true, false, sha))
        && remote == old(remote).(releases := old(remote.releases)[id := r.value], nextId := id + 1)
    {
      if Dead() { return Failure(Crashed); }
      budget := Spend(budget);
      var info := ReleaseInfo(remote.nextId, tag, true, false, sha);
      remote := remote.(releases := remote.releases[info.id := info], nextId := info.id + 1);
      return Success(info);
    }

    method UpdateRelease(id: nat, draft: bool, prerelease: bool, target: string) returns (r: Outcome<ReleaseInfo>)
      requires remote.Valid()
      modifies this
      ensures budget == Spend(old(budget)) && remote.Valid()
      ensures old(Dead()) ==> r == Failure(Crashed) && remote == old(remote)
      ensures !old(Dead()) && id !in old(remote.releases) ==> r == Failure(ApiStatus(404)) && remote == old(remote)
      ensures !old(Dead()) && id in old(remote.releases) ==>
        && r == Success(ReleaseInfo(id, old(remote.releases)[id].tagName, draft, prerelease, target))
        && remote == old(remote).(releases := old(remote.releases)[id := r.value])
    {
      if Dead() { return Failure(Crashed); }
      budget := Spend(budget);
      if id !in remote.releases { return Failure(ApiStatus(404)); }
      var info := ReleaseInfo(id, remote.releases[id].tagName, draft, prerelease, target);
      remote := remote.(releases := remote.releases[id := info]);
      return Success(info);
    }

    method DeleteRelease(id: nat) returns (r: Outcome<()>)
      requires remote.Valid()
      modifies this
      ensures budget == Spend(old(budget)) && remote.Valid()
      ensures old(Dead()) ==> r == Failure(Crashed) && remote == old(remote)
      ensures !old(Dead()) && id !in old(remote.releases) ==> r == Failure(ApiStatus(404)) && remote == old(remote)
      ensures !old(Dead()) && id in old(remote.releases) ==>
        && r == Success(())
        && remote == old(remote).(
             releases := old(remote.releases) - {id},
             assets := map a | a in old(remote.assets) && old(remote.assets)[a].release != id :: old(remote.assets)[a])
    {
      if Dead() { return Failure(Crashed); }
      budget := Spend(budget);
      if id !in remote.releases { return Failure(ApiStatus(404)); }
      remote := remote.(
        releases := remote.releases - {id},
        assets := map a | a in remote.assets && remote.assets[a].release != id :: remote.assets[a]);
      return Success(());
    }

    method ListAssets(rid: nat) returns (r: Outcome<seq<RemoteAsset>>)
      requires remote.Valid()
      modifies this`budget
      ensures budget == Spend(old(budget))
      ensures old(Dead()) ==> r == Failure(Crashed)
      ensures !old(Dead()) ==> r.Success? && Enumerates(r.value, remote.AssetsOf(rid))
    {
      if Dead() { return Failure(Crashed); }
      budget := Spend(budget);
      var left := remote.AssetsOf(rid);
      var items: seq<RemoteAsset> := [];
      while left != {}
        invariant forall a :: a in remote.AssetsOf(rid) <==> a in items || a in left
        invariant forall a :: a in items ==> a !in left
        invariant Distinct(items)
        decreases |left|
      {
        var a :| a in left;
        items := items + [a];
        left := left - {a};
      }
      return Success(items);
    }

    method DeleteAsset(id: nat) returns (r: Outcome<()>)
      requires remote.Valid()
      modifies this
      ensures budget == Spend(old(budget)) && remote.Valid()
      ensures old(Dead()) ==> r == Failure(Crashed) && remote == old(remote)
      ensures !old(Dead()) && id !in old(remote.assets) ==> r == Failure(ApiStatus(404)) && remote == old(remote)
      ensures !old(Dead()) && id in old(remote.assets) ==>
        r == Success(()) && remote == old(remote).(assets := old(remote.assets) - {id})
    {
      if Dead() { return Failure(Crashed); }
      budget := Spend(budget);
      if id !in remote.assets { return Failure(ApiStatus(404)); }
      remote := remote.(assets := remote.assets - {id});
      return Success(());
    }

    method UploadAsset(release: ReleaseInfo, local: LocalAsset) returns (r: Outcome<RemoteAsset>)
      requires remote.Valid()
      modifies this
      ensures budget == Spend(old(budget)) && remote.Valid()
      ensures old(Dead()) ==> r == Failure(Crashed) && remote == old(remote)
      ensures !old(Dead()) && release.id !in old(remote.releases) ==>
        r == Failure(ApiStatus(404)) && remote == old(remote)
      ensures !old(Dead()) && release.id in old(remote.releases) ==>
        && r.Success? && Matches(local, r.value)
        && r.value.id == old(remote.nextId) && r.value.release == release.id
        && remote == old(remote).(assets := old(remote.assets)[r.value.id := r.value], nextId := r.value.id + 1)
    {
      if Dead() { return Failure(Crashed); }
      budget := Spend(budget);
      if release.id !in remote.releases { return Failure(ApiStatus(404)); }
      var digest := Some(DIGEST_PREFIX + local.digest);
      var stored := RemoteAsset(remote.nextId, release.id, Some(local.name), local.size, digest);
      remote := remote.(assets := remote.assets[stored.id := stored], nextId := stored.id + 1);
      assert RemoteDigest(stored) == Some(local.digest);
      if !Matches(local, stored) { return Failure(AssetMismatch); }
      return Success(stored);
    }

    /** The raw `POST git/refs` call. */
    method PostRef(tag: string, sha: string) returns (r: Outcome<()>)
      requires remote.Valid()
      modifies this
      ensures budget == Spend(old(budget)) && remote.Valid()
      ensures old(Dead()) ==> r == Failure(Crashed) && remote == old(remote)
      ensures !old(Dead()) && tag in old(remote.tags) ==> r == Failure(ApiStatus(422)) && remote == old(remote)
      ensures !old(Dead()) && tag !in old(remote.tags) ==>
        r == Success(()) && remote == old(remote).(tags := old(remote.tags)[tag := sha])
    {
      if Dead() { return Failure(Crashed); }
      budget := Spend(budget);
      if tag in remote.tags { return Failure(ApiStatus(422)); }
      remote := remote.(tags := remote.tags[tag := sha]);
      return Success(());
    }

    /** `create_tag_ref`: an existing tag is accepted only when it already is the wanted one. */
    method CreateTagRef(tag: string, sha: string) returns (r: Outcome<()>)
      requires remote.Valid()
      modifies this
      ensures remote.Valid() && (old(budget).None? ==> budget.None?)
      ensures remote == old(remote)
        || (tag !in old(remote.tags) && remote == old(remote).(tags := old(remote.tags)[tag := sha]))
      ensures r.Success? ==> tag in remote.tags && remote.tags[tag] == sha
      ensures r.Failure? && (tag !in old(remote.tags) || old(remote.tags)[tag] == sha) ==>
        r.error == Crashed && old(budget).Some?
    {
      var posted := PostRef(tag, sha);
      if posted.Failure? {
        if posted.error == ApiStatus(422) {
          var existing :- TagTarget(tag);
          if existing == Some(sha) { return Success(()); }
        }
        return posted;
      }
      var target :- TagTarget(tag);
      if target != Some(sha) { return Failure(UnexpectedTagTarget); }
      return Success(());
    }
  }

  // ---------------------------------------------------------------- checks

  /** The remote assets of one name, in listing order: what the `by_name` dict holds under it. */
  function Named(items: seq<RemoteAsset>, name: string): seq<RemoteAsset> {
    if items == [] then []
    else
      var last := items[|items| - 1];
      Named(items[..|items| - 1], name) + if last.name == Some(name) then [last] else []
  }

  lemma {:induction false} NamedMembers(items: seq<RemoteAsset>, name: string)
    ensures forall a :: a in Named(items, name) <==> a in items && a.name == Some(name)
  {
    if items != [] {
      var init, last := items[..|items| - 1], items[|items| - 1];
      NamedMembers(init, name);
      assert items == init + [last];
    }
  }

  lemma {:induction false} NamedDistinct(items: seq<RemoteAsset>, name: string)
    requires Distinct(items)
    ensures Distinct(Named(items, name))
  {
    if items != [] {
      var init, last := items[..|items| - 1], items[|items| - 1];
      NamedDistinct(init, name);
      NamedMembers(init, name);
      assert last !in Named(init, name);
    }
  }

  /** The dict entry for a name is one matching asset exactly when the release has a sole match. */
  lemma {:induction false} NamedSole(items: seq<RemoteAsset>, assets: set<RemoteAsset>, local: LocalAsset)
    requires Enumerates(items, assets)
    ensures var named := Named(items, local.name);
      |named| == 1 && Matches(local, named[0]) <==> HasSole(local, assets)
  {
    var named := Named(items, local.name);
    var repeats := |named| > 1 && named[0] == named[1];
    NamedMembers(items, local.name);
    NamedDistinct(items, local.name);
    if HasSole(local, assets) {
      var a :| a in assets && Matches(local, a) && forall b :: b in assets && b.name == Some(local.name) ==> b == a;
      assert a in named;
      assert forall i :: 0 <= i < |named| ==> named[i] in named && named[i] == a;
      assert |named| > 1 ==> repeats;
    }
    if |named| == 1 && Matches(local, named[0]) {
      assert named[0] in named;
    }
  }

  ghost predicate Groups(byName: map<string, seq<RemoteAsset>>, items: seq<RemoteAsset>) {
    && (forall n :: n in byName <==> exists a :: a in items && a.name == Some(n))
    && (forall n :: n in byName ==> byName[n] == Named(items, n))
  }

  /** `by_name.setdefault(name, []).append(item)`. */
  function Grouped(
    byName: map<string, seq<RemoteAsset>>, name: string, item: RemoteAsset): map<string, seq<RemoteAsset>> {
    byName[name := (if name in byName then byName[name] else []) + [item]]
  }

  lemma {:induction false} NamedAppend(items: seq<RemoteAsset>, next: RemoteAsset, name: string)
    ensures Named(items + [next], name) == Named(items, name) + if next.name == Some(name) then [next] else []
    ensures Named(items, name) == [] <==> forall a :: a in items ==> a.name != Some(name)
  {
    assert (items + [next])[..|items|] == items;
    NamedMembers(items, name);
    if Named(items, name) != [] {
      assert Named(items, name)[0] in Named(items, name);
    }
  }

  lemma {:induction false} GroupsStep(byName: map<string, seq<RemoteAsset>>, items: seq<RemoteAsset>, next: RemoteAsset)
    requires Groups(byName, items)
    ensures next.name.None? ==> Groups(byName, items + [next])
    ensures next.name.Some? ==> Groups(Grouped(byName, next.name.value, next), items + [next])
  {
    var longer := items + [next];
    assert forall a :: a in longer <==> a in items || a == next;
    var grouped := if next.name.Some? then Grouped(byName, next.name.value, next) else byName;
    forall n ensures n in grouped <==> exists a :: a in longer && a.name == Some(n) {
      if n in byName {
        var a :| a in items && a.name == Some(n);
        assert a in longer;
      }
    }
    forall n | n in grouped ensures grouped[n] == Named(longer, n) {
      NamedAppend(items, next, n);
    }
  }

  /** `verify_remote_assets` passes exactly on the expected asset set. */
  method VerifyRemoteAssets(expected: seq<LocalAsset>, remote: seq<RemoteAsset>, ghost assets: set<RemoteAsset>)
    returns (r: Outcome<()>)
    requires Enumerates(remote, assets)
    ensures r.Success? <==> ExactAssets(expected, assets)
    ensures r.Failure? ==> r.error != Crashed
  {
    var byName: map<string, seq<RemoteAsset>> := map[];
    for i := 0 to |remote|
      invariant Groups(byName, remote[..i])
      invariant forall j :: 0 <= j < i ==> remote[j].name.Some?
    {
      assert remote[..i + 1] == remote[..i] + [remote[i]];
      if remote[i].name.None? {
        assert remote[i] in assets;
        return Failure(NamelessAsset);
      }
      GroupsStep(byName, remote[..i], remote[i]);
      byName := Grouped(byName, remote[i].name.value, remote[i]);
    }
    assert remote[..|remote|] == remote;
    NamesCovered(expected, remote, assets, byName);
    if byName.Keys != Names(expected) {
      return Failure(AssetSetMismatch);
    }
    DictDecides(expected, remote, assets, byName);
    r := CheckEach(expected, byName);
  }

  /** The last loop of `verify_remote_assets`, over the expected files. */
  method CheckEach(expected: seq<LocalAsset>, byName: map<string, seq<RemoteAsset>>) returns (r: Outcome<()>)
    requires byName.Keys == Names(expected)
    ensures r.Success? <==> forall i :: 0 <= i < |expected| ==> OneMatch(byName, expected[i])
    ensures r.Failure? ==> r.error != Crashed
  {
    for i := 0 to |expected|
      invariant forall j :: 0 <= j < i ==> OneMatch(byName, expected[j])
    {
      assert expected[i].name in Names(expected);
      var matches := byName[expected[i].name];
      if |matches| != 1 {
        return Failure(DuplicateAsset);
      }
      if !Matches(expected[i], matches[0]) {
        return Failure(AssetMismatch);
      }
    }
    return Success(());
  }

  predicate OneMatch(byName: map<string, seq<RemoteAsset>>, local: LocalAsset) {
    local.name in byName && |byName[local.name]| == 1 && Matches(local, byName[local.name][0])
  }

  lemma {:induction false} DictDecides(expected: seq<LocalAsset>, remote: seq<RemoteAsset>, assets: set<RemoteAsset>,
                    byName: map<string, seq<RemoteAsset>>)
    requires Enumerates(remote, assets) && Groups(byName, remote) && byName.Keys == Names(expected)
    requires forall a :: a in assets ==> a.name.Some? && a.name.value in Names(expected)
    ensures ExactAssets(expected, assets) <==> forall i :: 0 <= i < |expected| ==> OneMatch(byName, expected[i])
  {
    forall i | 0 <= i < |expected| ensures OneMatch(byName, expected[i]) <==> HasSole(expected[i], assets) {
      assert expected[i].name in Names(expected);
      NamedSole(remote, assets, expected[i]);
    }
  }

  lemma {:induction false} NamesCovered(expected: seq<LocalAsset>, remote: seq<RemoteAsset>, assets: set<RemoteAsset>,
                     byName: map<string, seq<RemoteAsset>>)
    requires Enumerates(remote, assets) && Groups(byName, remote)
    requires forall i :: 0 <= i < |remote| ==> remote[i].name.Some?
    ensures byName.Keys == Names(expected) ==>
      forall a :: a in assets ==> a.name.Some? && a.name.value in Names(expected)
    ensures ExactAssets(expected, assets) ==> byName.Keys == Names(expected)
  {
    forall a | a in assets ensures a.name.Some? && a.name.value in byName {
      assert a in remote;
    }
    if ExactAssets(expected, assets) {
      forall n | n in Names(expected) ensures n in byName {
        var l :| l in expected && l.name == n;
        assert HasSole(l, assets);
      }
    }
  }

  /** `verify_release_metadata`. */
  function VerifyReleaseMetadata(info: ReleaseInfo, tag: string, sha: string): Outcome<()> {
    if info.tagName != tag || info.draft || info.prerelease || info.target != sha then Failure(MetadataMismatch)
    else Success(())
  }

  // ---------------------------------------------------------------- syncing a draft

  function Ids(items: seq<RemoteAsset>): set<nat> {
    set a | a in items :: a.id
  }

  lemma {:induction false} IdsStep(items: seq<RemoteAsset>, i: nat)
    requires i < |items|
    ensures Ids(items[..i]) <= Ids(items)
    ensures Ids(items[..i + 1]) == Ids(items[..i]) + {items[i].id}
  {
    assert items[..i + 1] == items[..i] + [items[i]];
  }

  /** `s` became `t` by removing some of the given assets and doing nothing else. */
  ghost predicate OnlyRemoved(s: Store, t: Store, ids: set<nat>) {
    && t == s.(assets := t.assets)
    && (forall id :: id in t.assets ==> id in s.assets && t.assets[id] == s.assets[id])
    && (forall id :: id in s.assets && id !in ids ==> id in t.assets)
  }

  method DeleteAll(client: GitHubClient, items: seq<RemoteAsset>) returns (r: Outcome<()>)
    requires client.remote.Valid() && Distinct(items)
    requires forall a :: a in items ==> a.id in client.remote.assets && client.remote.assets[a.id] == a
    modifies client
    ensures client.remote.Valid() && OnlyRemoved(old(client.remote), client.remote, Ids(items))
    ensures old(client.budget).None? ==> client.budget.None?
    ensures r.Success? ==> forall id :: id in client.remote.assets ==> id !in Ids(items)
    ensures r.Failure? ==> r.error == Crashed && old(client.budget).Some?
  {
    for i := 0 to |items|
      invariant client.remote.Valid() && OnlyRemoved(old(client.remote), client.remote, Ids(items[..i]))
      invariant old(client.budget).None? ==> client.budget.None?
      invariant forall j :: i <= j < |items| ==> items[j].id in client.remote.assets
      invariant forall id :: id in client.remote.assets ==> id !in Ids(items[..i])
    {
      IdsStep(items, i);
      assert items[i] in items;
      assert forall j :: i < j < |items| ==> items[j] in items && items[j].id != items[i].id;
      var deleted := client.DeleteAsset(items[i].id);
      if deleted.Failure? {
        return deleted;
      }
    }
    assert items[..|items|] == items;
    return Success(());
  }

  /** The assets that belong to other releases. */
  function Elsewhere(s: Store, rid: nat): map<nat, RemoteAsset> {
    map id | id in s.assets && s.assets[id].release != rid :: s.assets[id]
  }

  /** Nothing but the assets of one release changed. */
  ghost predicate Confined(s: Store, t: Store, rid: nat) {
    t.releases == s.releases && t.tags == s.tags && Elsewhere(t, rid) == Elsewhere(s, rid) && s.nextId <= t.nextId
  }

  /** The assets of the release that carry this name did not change. */
  ghost predicate SameNamed(s: set<RemoteAsset>, t: set<RemoteAsset>, name: Option<string>) {
    forall a: RemoteAsset :: a.name == name ==> (a in s <==> a in t)
  }

  lemma {:induction false} RemovalConfined(s: Store, t: Store, rid: nat, items: seq<RemoteAsset>)
    requires s.Valid() && t.Valid() && OnlyRemoved(s, t, Ids(items))
    requires forall a :: a in items ==> a in s.AssetsOf(rid)
    ensures Confined(s, t, rid)
    ensures forall a :: a in t.AssetsOf(rid) ==> a in s.AssetsOf(rid)
    ensures forall a :: a in s.AssetsOf(rid) && a !in items ==> a in t.AssetsOf(rid)
    ensures (forall id :: id in t.assets ==> id !in Ids(items)) ==> forall a :: a in t.AssetsOf(rid) ==> a !in items
  {
    forall id | id in Elsewhere(s, rid) ensures id in Elsewhere(t, rid) {
      assert id !in Ids(items);
    }
    assert Elsewhere(t, rid) == Elsewhere(s, rid);
    forall a | a in s.AssetsOf(rid) && a !in items ensures a in t.AssetsOf(rid) {
      assert forall b :: b in items ==> s.assets[b.id] == b;
      assert a.id !in Ids(items);
    }
  }

  lemma {:induction false} UploadConfined(s: Store, t: Store, rid: nat, stored: RemoteAsset)
    requires s.Valid() && stored.id == s.nextId && stored.release == rid
    requires t == s.(assets := s.assets[stored.id := stored], nextId := stored.id + 1)
    ensures Confined(s, t, rid) && t.AssetsOf(rid) == s.AssetsOf(rid) + {stored}
  {
    assert stored.id !in s.assets;
    assert t.assets[stored.id] == stored;
    forall a | a in s.AssetsOf(rid) ensures a in t.AssetsOf(rid) {
      assert t.assets[a.id] == a;
    }
    assert Elsewhere(t, rid) == Elsewhere(s, rid);
  }

  /** One turn of the sync loop: a sole match is left alone, anything else of that name is replaced. */
  method SyncName(client: GitHubClient, release: ReleaseInfo, local: LocalAsset, matches: seq<RemoteAsset>)
    returns (r: Outcome<()>)
    requires client.remote.Valid() && release.id in client.remote.releases && Distinct(matches)
    requires forall a :: a in matches <==> a in client.remote.AssetsOf(release.id) && a.name == Some(local.name)
    modifies client
    ensures client.remote.Valid() && Confined(old(client.remote), client.remote, release.id)
    ensures old(client.budget).None? ==> client.budget.None?
    ensures forall name :: name != Some(local.name) ==>
      SameNamed(old(client.remote).AssetsOf(release.id), client.remote.AssetsOf(release.id), name)
    ensures HasSole(local, old(client.remote).AssetsOf(release.id)) ==>
      r.Success? && client.remote == old(client.remote)
    ensures r.Success? ==> HasSole(local, client.remote.AssetsOf(release.id))
    ensures r.Failure? ==> r.error == Crashed && old(client.budget).Some?
  {
    ghost var rid, start := release.id, client.remote;
    if |matches| == 1 && Matches(local, matches[0]) {
      assert matches[0] in matches;
      return Success(());
    }
    NotSole(local, start.AssetsOf(rid), matches);
    var deleted := DeleteAll(client, matches);
    ghost var cleared := client.remote;
    RemovalConfined(start, cleared, rid, matches);
    if deleted.Failure? {
      return deleted;
    }
    var uploaded := client.UploadAsset(release, local);
    if uploaded.Failure? {
      return Failure(uploaded.error);
    }
    UploadConfined(cleared, client.remote, rid, uploaded.value);
    return Success(());
  }

  lemma {:induction false} NotSole(local: LocalAsset, assets: set<RemoteAsset>, matches: seq<RemoteAsset>)
    requires Distinct(matches) && !(|matches| == 1 && Matches(local, matches[0]))
    requires forall a :: a in matches <==> a in assets && a.name == Some(local.name)
    ensures !HasSole(local, assets)
  {
    var repeats := |matches| > 1 && matches[0] == matches[1];
    forall a | a in assets && Matches(local, a)
      ensures exists b :: b in assets && b.name == Some(local.name) && b != a
    {
      assert a in matches;
      var i :| 0 <= i < |matches| && matches[i] == a;
      var other := matches[if i == 0 then 1 else 0];
      assert other in matches;
    }
  }

  lemma {:induction false} SoleDepends(local: LocalAsset, s: set<RemoteAsset>, t: set<RemoteAsset>)
    requires SameNamed(s, t, Some(local.name))
    ensures HasSole(local, s) <==> HasSole(local, t)
  {
  }

  /** The extras comprehension: the listed assets whose name is not expected. */
  function Extras(items: seq<RemoteAsset>, names: set<string>): seq<RemoteAsset> {
    if items == [] then []
    else
      var last := items[|items| - 1];
      Extras(items[..|items| - 1], names) +
        if last.name.Some? && last.name.value in names then [] else [last]
  }

  lemma {:induction false} ExtrasMembers(items: seq<RemoteAsset>, names: set<string>)
    ensures forall a :: a in Extras(items, names) <==> a in items && !(a.name.Some? && a.name.value in names)
    ensures Distinct(items) ==> Distinct(Extras(items, names))
  {
    if items != [] {
      var init, last := items[..|items| - 1], items[|items| - 1];
      ExtrasMembers(init, names);
      assert items == init + [last];
      assert Distinct(items) ==> last !in init;
    }
  }

  /** The sole match of an expected file, if the release has one, is kept as it is. */
  ghost predicate KeepsSole(local: LocalAsset, s: set<RemoteAsset>, t: set<RemoteAsset>) {
    HasSole(local, s) ==> SameNamed(s, t, Some(local.name))
  }

  /** After `i` turns: the first `i` names are in line, the others untouched, and no sole match was lost. */
  ghost predicate InLine(expected: seq<LocalAsset>, i: nat, start: set<RemoteAsset>, now: set<RemoteAsset>) {
    && (forall j :: 0 <= j < |expected| && j < i ==> HasSole(expected[j], now) && KeepsSole(expected[j], start, now))
    && (forall j :: i <= j < |expected| ==> SameNamed(start, now, Some(expected[j].name)))
  }

  lemma {:induction false} InLineStep(
    expected: seq<LocalAsset>, i: nat, start: set<RemoteAsset>, before: set<RemoteAsset>, now: set<RemoteAsset>)
    requires i < |expected| && forall j, k :: 0 <= j < k < |expected| ==> expected[j].name != expected[k].name
    requires InLine(expected, i, start, before)
    requires forall name :: name != Some(expected[i].name) ==> SameNamed(before, now, name)
    requires HasSole(expected[i], before) ==> now == before
    ensures forall l :: l in expected ==> KeepsSole(l, start, now)
    ensures HasSole(expected[i], now) ==> InLine(expected, i + 1, start, now)
  {
    SoleDepends(expected[i], start, before);
    forall j | 0 <= j < |expected| && j != i
      ensures SameNamed(before, now, Some(expected[j].name))
      ensures HasSole(expected[j], before) <==> HasSole(expected[j], now)
    {
      assert expected[j].name != expected[i].name;
      SoleDepends(expected[j], before, now);
    }
    forall j | 0 <= j < |expected| ensures KeepsSole(expected[j], start, now) {
    }
  }

  /** The first loops of `sync_draft_assets`: group the listed assets, then bring each expected name in line. */
  method SyncNames(client: GitHubClient, release: ReleaseInfo, expected: seq<LocalAsset>, remote: seq<RemoteAsset>)
    returns (r: Outcome<()>)
    requires client.remote.Valid() && release.id in client.remote.releases
    requires Job(release.tagName, release.target, expected).Valid()
    requires Enumerates(remote, client.remote.AssetsOf(release.id))
    modifies client
    ensures client.remote.Valid() && Confined(old(client.remote), client.remote, release.id)
    ensures old(client.budget).None? ==> client.budget.None?
    ensures r.Success? ==> forall l :: l in expected ==> HasSole(l, client.remote.AssetsOf(release.id))
    ensures forall l :: l in expected ==>
      KeepsSole(l, old(client.remote).AssetsOf(release.id), client.remote.AssetsOf(release.id))
    ensures r.Failure? ==> r.error == Crashed && old(client.budget).Some?
  {
    ghost var rid, start := release.id, client.remote.AssetsOf(release.id);
    var byName := GroupNamed(remote);
    for i := 0 to |expected|
      invariant client.remote.Valid() && Confined(old(client.remote), client.remote, rid)
      invariant old(client.budget).None? ==> client.budget.None?
      invariant InLine(expected, i, start, client.remote.AssetsOf(rid))
    {
      ghost var before := client.remote.AssetsOf(rid);
      var name := expected[i].name;
      var matches := if name in byName then byName[name] else [];
      NamedEntry(byName, remote, name);
      NamedMembers(remote, name);
      NamedDistinct(remote, name);
      assert SameNamed(start, before, Some(name));
      var synced := SyncName(client, release, expected[i], matches);
      InLineStep(expected, i, start, before, client.remote.AssetsOf(rid));
      if synced.Failure? {
        return synced;
      }
    }
    return Success(());
  }

  lemma {:induction false} NamedEntry(byName: map<string, seq<RemoteAsset>>, remote: seq<RemoteAsset>, name: string)
    requires Groups(byName, remote)
    ensures (if name in byName then byName[name] else []) == Named(remote, name)
  {
    if name !in byName {
      NamedMembers(remote, name);
      assert Named(remote, name) != [] ==> Named(remote, name)[0] in Named(remote, name);
    }
  }

  method GroupNamed(remote: seq<RemoteAsset>) returns (byName: map<string, seq<RemoteAsset>>)
    ensures Groups(byName, remote)
  {
    byName := map[];
    for i := 0 to |remote|
      invariant Groups(byName, remote[..i])
    {
      assert remote[..i + 1] == remote[..i] + [remote[i]];
      GroupsStep(byName, remote[..i], remote[i]);
      if remote[i].name.Some? {
        byName := Grouped(byName, remote[i].name.value, remote[i]);
      }
    }
    assert remote[..|remote|] == remote;
  }

  /** `sync_draft_assets`: the draft ends with exactly the expected assets, sole matches untouched. */
  method SyncDraftAssets(client: GitHubClient, release: ReleaseInfo, expected: seq<LocalAsset>) returns (r: Outcome<()>)
    requires client.remote.Valid() && release.id in client.remote.releases
    requires Job(release.tagName, release.target, expected).Valid()
    modifies client
    ensures client.remote.Valid() && Confined(old(client.remote), client.remote, release.id)
    ensures old(client.budget).None? ==> client.budget.None?
    ensures r.Success? ==> ExactAssets(expected, client.remote.AssetsOf(release.id))
    ensures forall l :: l in expected ==>
      KeepsSole(l, old(client.remote).AssetsOf(release.id), client.remote.AssetsOf(release.id))
    ensures r.Failure? ==> r.error == Crashed && old(client.budget).Some?
  {
    ghost var rid := release.id;
    var remote :- client.ListAssets(release.id);
    var synced := SyncNames(client, release, expected, remote);
    if synced.Failure? {
      return synced;
    }
    ghost var aligned := client.remote;
    remote :- client.ListAssets(release.id);
    var extras := Extras(remote, Names(expected));
    ExtrasMembers(remote, Names(expected));
    var cleaned := DeleteAll(client, extras);
    RemovalConfined(aligned, client.remote, rid, extras);
    forall l | l in expected
      ensures SameNamed(aligned.AssetsOf(rid), client.remote.AssetsOf(rid), Some(l.name))
      ensures HasSole(l, client.remote.AssetsOf(rid))
    {
      assert l.name in Names(expected);
      SoleDepends(l, aligned.AssetsOf(rid), client.remote.AssetsOf(rid));
    }
    if cleaned.Failure? {
      return cleaned;
    }
    remote :- client.ListAssets(release.id);
    r := VerifyRemoteAssets(expected, remote, client.remote.AssetsOf(rid));
  }

  // ---------------------------------------------------------------- what a run may do

  predicate TagIs(s: Store, tag: string, sha: string) {
    tag in s.tags && s.tags[tag] == sha
  }

  predicate Published(s: Store, tag: string, rid: nat) {
    rid in s.releases && s.releases[rid].tagName == tag && !s.releases[rid].draft
  }

  /** The release is published from the job's commit and carries exactly the job's files. */
  ghost predicate CompleteAt(s: Store, rid: nat, job: Job) {
    && rid in s.releases && s.releases[rid] == ReleaseInfo(rid, job.tag, false, false, job.sha)
    && ExactAssets(job.expected, s.AssetsOf(rid))
  }

  ghost predicate SameRelease(s: Store, t: Store, rid: nat) {
    rid in s.releases && rid in t.releases && s.releases[rid] == t.releases[rid] && s.AssetsOf(rid) == t.AssetsOf(rid)
  }

  /** Releases and tags of other names are untouched. */
  ghost predicate OtherTagsKept(s: Store, t: Store, tag: string) {
    && (forall rid :: rid in s.releases && s.releases[rid].tagName != tag ==> SameRelease(s, t, rid))
    && (forall rid :: rid in t.releases && t.releases[rid].tagName != tag ==> rid in s.releases)
    && s.tags - {tag} == t.tags - {tag}
  }

  /** An existing tag is never moved; an absent one stays absent or becomes the job's commit. */
  ghost predicate TagKept(s: Store, t: Store, job: Job) {
    if job.tag in s.tags then t.tags == s.tags else t.tags == s.tags || t.tags == s.tags[job.tag := job.sha]
  }

  /** A published release of the tag was there before and nothing about it changed, or it is complete. */
  ghost predicate Honest(s: Store, t: Store, job: Job) {
    forall rid :: Published(t, job.tag, rid) ==>
      (SameRelease(s, t, rid) && t.tags == s.tags) || (TagIs(t, job.tag, job.sha) && CompleteAt(t, rid, job))
  }

  /** At most one release for the tag, the tag absent or on the commit, and complete if both are there. */
  ghost predicate Recoverable(s: Store, job: Job) {
    && (forall a, b :: a in s.Tagged(job.tag) && b in s.Tagged(job.tag) ==> a == b)
    && (job.tag in s.tags ==> s.tags[job.tag] == job.sha)
    && (job.tag in s.tags ==> forall rid :: Published(s, job.tag, rid) ==> CompleteAt(s, rid, job))
  }

  /** What one run of the publisher does to the store, wherever it stops. */
  ghost predicate RunEffect(s: Store, t: Store, job: Job) {
    && OtherTagsKept(s, t, job.tag)
    && TagKept(s, t, job)
    && Honest(s, t, job)
    && (job.tag in s.tags && s.tags[job.tag] != job.sha ==> t == s)
    && (Recoverable(s, job) ==> Recoverable(t, job))
  }

  /** Under way: nothing published under the tag, at most one draft for it. */
  ghost predicate UnderWay(s: Store, t: Store, job: Job) {
    && OtherTagsKept(s, t, job.tag)
    && TagKept(s, t, job)
    && (job.tag in t.tags ==> t.tags[job.tag] == job.sha)
    && (forall rid :: rid in t.Tagged(job.tag) ==> t.releases[rid].draft)
    && (forall a, b :: a in t.Tagged(job.tag) && b in t.Tagged(job.tag) ==> a == b)
  }

  lemma {:induction false} StillRunEffect(s: Store, job: Job)
    ensures RunEffect(s, s, job)
  {
  }

  lemma {:induction false} UnderWayEffect(s: Store, t: Store, job: Job)
    requires UnderWay(s, t, job)
    ensures job.tag in s.tags ==> s.tags[job.tag] == job.sha
    ensures RunEffect(s, t, job)
  {
    assert forall rid :: Published(t, job.tag, rid) ==> rid in t.Tagged(job.tag);
  }

  /** The draft the run works on. */
  ghost predicate Drafted(t: Store, job: Job, info: ReleaseInfo) {
    && t.Tagged(job.tag) == {info.id} && t.releases[info.id] == info
    && info == ReleaseInfo(info.id, job.tag, true, false, job.sha)
  }

  lemma {:induction false} ConfinedUnderWay(s: Store, t: Store, u: Store, job: Job, info: ReleaseInfo)
    requires UnderWay(s, t, job) && Drafted(t, job, info) && Confined(t, u, info.id)
    ensures UnderWay(s, u, job) && Drafted(u, job, info)
  {
    assert u.Tagged(job.tag) == t.Tagged(job.tag);
    forall rid | rid in s.releases && s.releases[rid].tagName != job.tag
      ensures SameRelease(s, u, rid)
    {
      assert SameRelease(s, t, rid);
      assert rid !in t.Tagged(job.tag);
      ElsewhereAssets(t, u, info.id, rid);
    }
  }

  lemma {:induction false} ElsewhereAssets(s: Store, t: Store, rid: nat, other: nat)
    requires Elsewhere(s, rid) == Elsewhere(t, rid) && other != rid
    ensures s.AssetsOf(other) == t.AssetsOf(other)
  {
    forall a ensures a in s.AssetsOf(other) <==> a in t.AssetsOf(other) {
      if a in s.AssetsOf(other) {
        var id :| id in s.assets && s.assets[id].release == other && s.assets[id] == a;
        assert id in Elsewhere(s, rid) && Elsewhere(s, rid)[id] == a;
      }
      if a in t.AssetsOf(other) {
        var id :| id in t.assets && t.assets[id].release == other && t.assets[id] == a;
        assert id in Elsewhere(t, rid) && Elsewhere(t, rid)[id] == a;
      }
    }
  }

  // ---------------------------------------------------------------- the publisher

  /** `prepare_draft_release`: pins an unpublished draft to the commit, and never touches a published release. */
  method PrepareDraftRelease(client: GitHubClient, release: ReleaseInfo, sha: string) returns (r: Outcome<ReleaseInfo>)
    requires client.remote.Valid() && release.id in client.remote.releases
    requires client.remote.releases[release.id] == release
    modifies client
    ensures client.remote.Valid() && (old(client.budget).None? ==> client.budget.None?)
    ensures !release.draft ==> r == Failure(NotADraft) && client.remote == old(client.remote)
    ensures r.Success? ==>
      && r.value == release.(prerelease := false, target := sha) && r.value.draft
      && client.remote == old(client.remote).(releases := old(client.remote.releases)[release.id := r.value])
    ensures release.draft && r.Failure? ==>
      r.error == Crashed && old(client.budget).Some? && client.remote == old(client.remote)
  {
    if !release.draft {
      return Failure(NotADraft);
    }
    var prepared := release;
    if release.target != sha || release.prerelease {
      prepared :- client.UpdateRelease(release.id, true, false, sha);
    }
    assert client.remote.releases[release.id] == prepared;
    if !prepared.draft {
      return Failure(NotADraft);
    }
    if prepared.prerelease || prepared.target != sha {
      return Failure(MetadataMismatch);
    }
    return Success(prepared);
  }

  lemma {:induction false} PinUnderWay(s: Store, t: Store, job: Job, release: ReleaseInfo, pinned: ReleaseInfo)
    requires s.Tagged(job.tag) == {release.id} && s.releases[release.id] == release && release.draft
    requires job.tag in s.tags ==> s.tags[job.tag] == job.sha
    requires s.Valid() && pinned == release.(prerelease := false, target := job.sha)
    requires t == s.(releases := s.releases[release.id := pinned])
    ensures UnderWay(s, t, job) && Drafted(t, job, pinned)
  {
    assert release.id in s.Tagged(job.tag);
    assert t.Tagged(job.tag) == {release.id};
    forall rid | rid in s.releases && s.releases[rid].tagName != job.tag ensures SameRelease(s, t, rid) {
      assert s.AssetsOf(rid) == t.AssetsOf(rid);
    }
  }

  lemma {:induction false} DropUnderWay(s: Store, t: Store, job: Job, id: nat)
    requires s.Tagged(job.tag) == {id} && job.tag !in s.tags
    requires t == s.(releases := s.releases - {id},
                     assets := map a | a in s.assets && s.assets[a].release != id :: s.assets[a])
    ensures UnderWay(s, t, job) && t.Tagged(job.tag) == {}
  {
    assert id in s.Tagged(job.tag);
    forall rid | rid in s.releases && s.releases[rid].tagName != job.tag ensures SameRelease(s, t, rid) {
      ElsewhereAssets(s, t, id, rid);
    }
  }

  lemma {:induction false} CreateUnderWay(s: Store, t: Store, u: Store, job: Job, info: ReleaseInfo)
    requires t.Valid() && UnderWay(s, t, job) && t.Tagged(job.tag) == {}
    requires info == ReleaseInfo(t.nextId, job.tag, true, false, job.sha)
    requires u == t.(releases := t.releases[info.id := info], nextId := info.id + 1)
    ensures UnderWay(s, u, job) && Drafted(u, job, info)
  {
    assert info.id !in t.releases;
    assert u.Tagged(job.tag) == {info.id};
    forall rid | rid in s.releases && s.releases[rid].tagName != job.tag ensures SameRelease(s, u, rid) {
      assert SameRelease(s, t, rid);
      assert u.AssetsOf(rid) == t.AssetsOf(rid);
    }
  }

  /** The release found for the tag, as the run saw it. */
  ghost predicate Found(s: Store, tag: string, release: Option<ReleaseInfo>) {
    match release
    case None => s.Tagged(tag) == {}
    case Some(info) => s.Tagged(tag) == {info.id} && s.releases[info.id] == info
  }

  /** `prepare_release_for_publication`. */
  method PrepareReleaseForPublication(client: GitHubClient, release: Option<ReleaseInfo>, job: Job)
    returns (r: Outcome<(ReleaseInfo, bool)>)
    requires client.remote.Valid() && Found(client.remote, job.tag, release)
    modifies client
    ensures client.remote.Valid() && (old(client.budget).None? ==> client.budget.None?)
    ensures r.Failure? ==> client.remote == old(client.remote) || UnderWay(old(client.remote), client.remote, job)
    ensures r.Failure? && r.error == Crashed ==> old(client.budget).Some?
    ensures r.Failure? && r.error != Crashed ==> client.remote == old(client.remote) && !Recoverable(client.remote, job)
    ensures r.Success? && r.value.1 ==>
      && client.remote == old(client.remote) && TagIs(client.remote, job.tag, job.sha)
      && release == Some(r.value.0) && r.value.0 == ReleaseInfo(r.value.0.id, job.tag, false, false, job.sha)
    ensures r.Success? && !r.value.1 ==>
      && Recoverable(old(client.remote), job)
      && UnderWay(old(client.remote), client.remote, job) && Drafted(client.remote, job, r.value.0)
  {
    ghost var s := client.remote;
    var found := release;
    var existing :- client.TagTarget(job.tag);
    if existing.Some? && existing.value != job.sha {
      return Failure(UnexpectedTagTarget);
    }
    assert found.Some? ==> found.value.id in s.Tagged(job.tag);
    if found.Some? && !found.value.draft {
      assert Published(s, job.tag, found.value.id);
      if existing == Some(job.sha) {
        var checked := VerifyReleaseMetadata(found.value, job.tag, job.sha);
        if checked.Failure? {
          return Failure(checked.error);
        }
        return Success((found.value, true));
      }
      var deleted := client.DeleteRelease(found.value.id);
      if deleted.Failure? {
        return Failure(deleted.error);
      }
      DropUnderWay(s, client.remote, job, found.value.id);
      found := None;
    }
    ghost var t := client.remote;
    if found.None? {
      var created := client.CreateDraft(job.tag, job.sha);
      if created.Failure? {
        return Failure(created.error);
      }
      CreateUnderWay(s, t, client.remote, job, created.value);
      return Success((created.value, false));
    }
    var prepared := PrepareDraftRelease(client, found.value, job.sha);
    if prepared.Failure? {
      return Failure(prepared.error);
    }
    PinUnderWay(s, client.remote, job, found.value, prepared.value);
    return Success((prepared.value, false));
  }

  /** `ensure_exact_tag`: creates an absent tag, accepts one already on the commit, moves none. */
  method EnsureExactTag(client: GitHubClient, job: Job) returns (r: Outcome<()>)
    requires client.remote.Valid()
    modifies client
    ensures client.remote.Valid() && (old(client.budget).None? ==> client.budget.None?)
    ensures client.remote == old(client.remote) ||
      (job.tag !in old(client.remote.tags) &&
       client.remote == old(client.remote).(tags := old(client.remote.tags)[job.tag := job.sha]))
    ensures r.Success? ==> TagIs(client.remote, job.tag, job.sha)
    ensures r.Failure? && (job.tag in old(client.remote.tags) ==> old(client.remote.tags)[job.tag] == job.sha) ==>
      r.error == Crashed && old(client.budget).Some?
  {
    var existing :- client.TagTarget(job.tag);
    if existing.None? {
      var created := client.CreateTagRef(job.tag, job.sha);
      if created.Failure? {
        return created;
      }
      existing :- client.TagTarget(job.tag);
    }
    if existing != Some(job.sha) {
      return Failure(UnexpectedTagTarget);
    }
    return Success(());
  }

  lemma {:induction false} TagUnderWay(s: Store, t: Store, u: Store, job: Job, info: ReleaseInfo)
    requires UnderWay(s, t, job) && Drafted(t, job, info)
    requires u == t || (job.tag !in t.tags && u == t.(tags := t.tags[job.tag := job.sha]))
    ensures UnderWay(s, u, job) && Drafted(u, job, info)
    ensures u.AssetsOf(info.id) == t.AssetsOf(info.id)
  {
    assert u.Tagged(job.tag) == t.Tagged(job.tag);
    assert u.tags - {job.tag} == t.tags - {job.tag};
    forall rid | rid in s.releases && s.releases[rid].tagName != job.tag ensures SameRelease(s, u, rid) {
      assert SameRelease(s, t, rid);
      assert u.AssetsOf(rid) == t.AssetsOf(rid);
    }
  }

  lemma {:induction false} PublishEffect(s: Store, t: Store, u: Store, job: Job, info: ReleaseInfo)
    requires UnderWay(s, t, job) && Drafted(t, job, info) && TagIs(t, job.tag, job.sha)
    requires ExactAssets(job.expected, t.AssetsOf(info.id))
    requires u == t.(releases := t.releases[info.id := info.(draft := false)])
    ensures u.Tagged(job.tag) == {info.id} && CompleteAt(u, info.id, job) && TagIs(u, job.tag, job.sha)
    ensures RunEffect(s, u, job)
  {
    UnderWayEffect(s, t, job);
    assert info.id in t.Tagged(job.tag);
    assert u.Tagged(job.tag) == t.Tagged(job.tag);
    forall rid | rid in t.releases ensures u.AssetsOf(rid) == t.AssetsOf(rid) {
    }
    forall rid | Published(u, job.tag, rid) ensures CompleteAt(u, rid, job) {
      assert rid in u.Tagged(job.tag);
    }
    forall rid | rid in s.releases && s.releases[rid].tagName != job.tag ensures SameRelease(s, u, rid) {
      assert SameRelease(s, t, rid);
    }
  }

  /** The tag's one release is complete and the tag is on the commit. */
  ghost predicate Done(s: Store, job: Job) {
    TagIs(s, job.tag, job.sha) && exists rid :: s.Tagged(job.tag) == {rid} && CompleteAt(s, rid, job)
  }

  /**
   * `publish`, once its environment is read and its files are loaded. Wherever the budget stops it, the store
   * has only changed as `RunEffect` allows; if it is not stopped it succeeds exactly from a recoverable store.
   */
  method Publish(client: GitHubClient, job: Job) returns (r: Outcome<()>)
    requires client.remote.Valid() && job.Valid()
    modifies client
    ensures client.remote.Valid() && RunEffect(old(client.remote), client.remote, job)
    ensures old(client.budget).None? ==> (r.Success? <==> Recoverable(old(client.remote), job))
    ensures r.Success? ==> Done(client.remote, job) && Recoverable(old(client.remote), job)
    ensures r.Failure? && r.error == Crashed ==> old(client.budget).Some?
    ensures r.Failure? && r.error != Crashed ==>
      !Recoverable(old(client.remote), job) && client.remote == old(client.remote)
  {
    ghost var s := client.remote;
    StillRunEffect(s, job);
    var found := client.FindRelease(job.tag);
    if found.Failure? {
      return Failure(found.error);
    }
    var prepared := PrepareReleaseForPublication(client, found.value, job);
    if prepared.Failure? {
      if client.remote != s {
        UnderWayEffect(s, client.remote, job);
      }
      return Failure(prepared.error);
    }
    var (release, alreadyPublished) := prepared.value;
    if alreadyPublished {
      r := VerifyPublished(client, release, job);
      return r;
    }
    ghost var t := client.remote;
    assert release.id in t.Tagged(job.tag);
    var synced := SyncDraftAssets(client, release, job.expected);
    ConfinedUnderWay(s, t, client.remote, job, release);
    UnderWayEffect(s, client.remote, job);
    if synced.Failure? {
      return synced;
    }
    t := client.remote;
    var tagged := EnsureExactTag(client, job);
    TagUnderWay(s, t, client.remote, job, release);
    UnderWayEffect(s, client.remote, job);
    if tagged.Failure? {
      return tagged;
    }
    r := Expose(client, release, job, s);
  }

  /** A release found published under its tag is only verified. */
  method VerifyPublished(client: GitHubClient, release: ReleaseInfo, job: Job) returns (r: Outcome<()>)
    requires client.remote.Valid() && TagIs(client.remote, job.tag, job.sha)
    requires client.remote.Tagged(job.tag) == {release.id} && client.remote.releases[release.id] == release
    requires release == ReleaseInfo(release.id, job.tag, false, false, job.sha)
    modifies client`budget
    ensures r.Success? ==> Done(client.remote, job) && Recoverable(client.remote, job)
    ensures r.Failure? && r.error == Crashed ==> old(client.budget).Some?
    ensures r.Failure? && r.error != Crashed ==> !Recoverable(client.remote, job)
  {
    var assets :- client.ListAssets(release.id);
    r := VerifyRemoteAssets(job.expected, assets, client.remote.AssetsOf(release.id));
    assert Published(client.remote, job.tag, release.id);
    assert forall rid :: Published(client.remote, job.tag, rid) ==> rid in client.remote.Tagged(job.tag);
  }

  /** The last step and the checks after it: only now does the release become visible. */
  method Expose(client: GitHubClient, release: ReleaseInfo, job: Job, ghost s: Store) returns (r: Outcome<()>)
    requires client.remote.Valid() && UnderWay(s, client.remote, job) && Drafted(client.remote, job, release)
    requires TagIs(client.remote, job.tag, job.sha)
    requires ExactAssets(job.expected, client.remote.AssetsOf(release.id))
    modifies client
    ensures client.remote.Valid() && RunEffect(s, client.remote, job)
    ensures r.Success? ==> Done(client.remote, job)
    ensures r.Failure? ==> r.error == Crashed && old(client.budget).Some?
  {
    ghost var t := client.remote;
    assert release.id in t.Tagged(job.tag);
    var published := client.UpdateRelease(release.id, false, false, job.sha);
    if published.Failure? {
      UnderWayEffect(s, t, job);
      return Failure(published.error);
    }
    PublishEffect(s, t, client.remote, job, release);
    var checked := VerifyReleaseMetadata(published.value, job.tag, job.sha);
    if checked.Failure? {
      return checked;
    }
    var target :- client.TagTarget(job.tag);
    if target != Some(job.sha) {
      return Failure(UnexpectedTagTarget);
    }
    var assets :- client.ListAssets(release.id);
    r := VerifyRemoteAssets(job.expected, assets, client.remote.AssetsOf(release.id));
  }

  // ---------------------------------------------------------------- any sequence of crashed runs

  /** Runs one after the other, each for the files its commit builds to, each stopped anywhere. */
  ghost predicate Runs(states: seq<Store>, tag: string, shas: seq<string>, builds: map<string, seq<LocalAsset>>) {
    && |states| == |shas| + 1
    && (forall i :: 0 <= i < |shas| ==> shas[i] in builds)
    && (forall i :: 0 <= i < |shas| ==> RunEffect(states[i], states[i + 1], Job(tag, shas[i], builds[shas[i]])))
  }

  /** Whatever is published under the tag is complete for the commit the tag is on. */
  ghost predicate Safe(s: Store, tag: string, builds: map<string, seq<LocalAsset>>) {
    forall rid :: Published(s, tag, rid) ==>
      tag in s.tags && s.tags[tag] in builds && CompleteAt(s, rid, Job(tag, s.tags[tag], builds[s.tags[tag]]))
  }

  /** From a store with nothing published, no sequence of crashed runs ever exposes an incomplete release. */
  lemma {:induction false} RunsStaySafe(
    states: seq<Store>, tag: string, shas: seq<string>, builds: map<string, seq<LocalAsset>>)
    requires Runs(states, tag, shas, builds) && Safe(states[0], tag, builds)
    ensures forall i :: 0 <= i < |states| ==> Safe(states[i], tag, builds)
    decreases |shas|
  {
    if shas != [] {
      var s, t, job := states[0], states[1], Job(tag, shas[0], builds[shas[0]]);
      assert RunEffect(s, t, job);
      forall rid | Published(t, tag, rid)
        ensures tag in t.tags && t.tags[tag] in builds && CompleteAt(t, rid, Job(tag, t.tags[tag], builds[t.tags[tag]]))
      {
        if SameRelease(s, t, rid) && t.tags == s.tags {
          assert Published(s, tag, rid);
        }
      }
      RunsTail(states, tag, shas, builds);
      RunsStaySafe(states[1..], tag, shas[1..], builds);
      assert forall i :: 1 <= i < |states| ==> states[i] == states[1..][i - 1];
    }
  }

  lemma {:induction false} RunsTail(
    states: seq<Store>, tag: string, shas: seq<string>, builds: map<string, seq<LocalAsset>>)
    requires Runs(states, tag, shas, builds) && shas != []
    ensures Runs(states[1..], tag, shas[1..], builds)
  {
    forall i | 0 <= i < |shas| - 1
      ensures RunEffect(states[1..][i], states[1..][i + 1], Job(tag, shas[1..][i], builds[shas[1..][i]]))
    {
      assert RunEffect(states[i + 1], states[i + 1 + 1], Job(tag, shas[i + 1], builds[shas[i + 1]]));
    }
  }

  /** Once the tag exists no run moves it, and runs for another commit leave the whole store as it is. */
  lemma {:induction false} RunsKeepTag(
    states: seq<Store>, tag: string, shas: seq<string>, builds: map<string, seq<LocalAsset>>)
    requires Runs(states, tag, shas, builds) && tag in states[0].tags
    ensures forall i :: 0 <= i < |states| ==> TagIs(states[i], tag, states[0].tags[tag])
    ensures (forall i :: 0 <= i < |shas| ==> shas[i] != states[0].tags[tag]) ==> states[|shas|] == states[0]
    decreases |shas|
  {
    if shas != [] {
      assert RunEffect(states[0], states[1], Job(tag, shas[0], builds[shas[0]]));
      RunsTail(states, tag, shas, builds);
      RunsKeepTag(states[1..], tag, shas[1..], builds);
      assert forall i :: 1 <= i < |states| ==> states[i] == states[1..][i - 1];
      assert forall i :: 1 <= i < |shas| ==> shas[i] == shas[1..][i - 1];
    }
  }

  /** Crashed runs for one commit leave a store from which an uninterrupted run for it still succeeds. */
  lemma {:induction false} RunsStayRecoverable(states: seq<Store>, tag: string, sha: string, shas: seq<string>,
                                               builds: map<string, seq<LocalAsset>>)
    requires Runs(states, tag, shas, builds) && sha in builds
    requires forall i :: 0 <= i < |shas| ==> shas[i] == sha
    requires Recoverable(states[0], Job(tag, sha, builds[sha]))
    ensures Recoverable(states[|shas|], Job(tag, sha, builds[sha]))
    decreases |shas|
  {
    if shas != [] {
      assert RunEffect(states[0], states[1], Job(tag, shas[0], builds[shas[0]]));
      RunsTail(states, tag, shas, builds);
      RunsStayRecoverable(states[1..], tag, sha, shas[1..], builds);
    }
  }
}
