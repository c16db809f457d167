/** GitHub's side of one release tag: what requests change, what reads may show, and what no request undoes. */
module GithubServer {
  import opened Wrappers

  const ASSETS: seq<string> := ["notes.md", "docs.json", "candidate.json", "checksum.txt", "sdk.tgz"]

  type Bytes = string
  type Commit = string

  /** An asset is `uploaded`, or the starter a failed upload left behind. */
  datatype Asset = Asset(id: nat, name: string, uploaded: bool, size: nat)

  datatype Release = Release(id: nat, tag: string, name: string, target: Commit, body: string,
                             draft: bool, prerelease: bool, assets: seq<Asset>)

  /**
   * The release of one tag, the drafts created beside it, the tag's commit, the asset contents by ID and the
   * repository's latest release.
   */
  datatype Server = Server(release: Option<Release>, spares: seq<Release>, tagCommit: Option<Commit>,
                           contents: map<nat, Bytes>, latest: Option<string>, nextId: nat)

  /** Looking for the tag finds one release: a published one directly, a draft only as the only one listed. */
  predicate Unambiguous(s: Server) {
    s.spares == [] || (s.release.Some? && !s.release.value.draft)
  }

  function WithId(releases: seq<Release>, id: nat): (found: Option<Release>)
    ensures found.Some? ==> found.value in releases && found.value.id == id
  {
    if releases == [] then None
    else if releases[0].id == id then Some(releases[0]) else WithId(releases[1..], id)
  }

  predicate Named(assets: seq<Asset>, name: string) {
    exists asset <- assets :: asset.name == name
  }

  predicate HasId(assets: seq<Asset>, id: nat) {
    exists asset <- assets :: asset.id == id
  }

  function WithoutId(assets: seq<Asset>, id: nat): (rest: seq<Asset>)
    ensures forall asset :: asset in rest <==> asset in assets && asset.id != id
  {
    if assets == [] then []
    else if assets[0].id == id then WithoutId(assets[1..], id) else [assets[0]] + WithoutId(assets[1..], id)
  }

  function NamedAssets(assets: seq<Asset>, name: string): (found: seq<Asset>)
    ensures forall asset :: asset in found <==> asset in assets && asset.name == name
  {
    if assets == [] then []
    else if assets[0].name == name then [assets[0]] + NamedAssets(assets[1..], name) else NamedAssets(assets[1..], name)
  }

  ghost predicate WellFormedAssets(s: Server, assets: seq<Asset>) {
    && (forall i, j | 0 <= i < j < |assets| :: assets[i].name != assets[j].name && assets[i].id != assets[j].id)
    && (forall asset <- assets :: asset.id < s.nextId)
    && (forall asset <- assets | asset.uploaded :: asset.id in s.contents && |s.contents[asset.id]| == asset.size)
  }

  /** A published release has its tag, and drafts stand beside a release only. */
  ghost predicate WellFormedReleases(s: Server) {
    if s.release.None? then s.spares == []
    else
      var r := s.release.value;
      r.id < s.nextId && (!r.draft ==> s.tagCommit.Some?)
      && forall spare <- s.spares :: spare.draft && spare.id < s.nextId && spare.id != r.id
  }

  /** GitHub keeps asset names and IDs unique within a release, and IDs of releases unique. */
  ghost predicate WellFormed(s: Server) {
    && WellFormedReleases(s)
    && (s.release.Some? ==> WellFormedAssets(s, s.release.value.assets))
    && forall id <- s.contents :: id < s.nextId
  }

  lemma {:induction false} NoneNamed(assets: seq<Asset>, name: string)
    requires forall i | 0 <= i < |assets| :: assets[i].name != name
    ensures NamedAssets(assets, name) == []
  {
    if assets != [] {
      NoneNamed(assets[1..], name);
    }
  }

  lemma {:induction false} AtMostOneNamed(s: Server, assets: seq<Asset>, name: string)
    requires WellFormedAssets(s, assets)
    ensures |NamedAssets(assets, name)| <= 1
  {
    if assets != [] {
      var rest := assets[1..];
      assert forall i | 0 <= i < |rest| :: rest[i] == assets[i + 1];
      if assets[0].name == name {
        NoneNamed(rest, name);
      } else {
        AtMostOneNamed(s, rest, name);
      }
    }
  }

  // ----- requests -----

  /** GitHub creates a draft for a tag that has a release as well. */
  function Created(s: Server, draft: Release): Server {
    var added := draft.(id := s.nextId, draft := true, assets := []);
    if s.release.None? then s.(release := Some(added), nextId := s.nextId + 1)
    else s.(spares := s.spares + [added], nextId := s.nextId + 1)
  }

  function Deleted(s: Server, id: nat): Server
    requires s.release.Some?
  {
    s.(release := Some(s.release.value.(assets := WithoutId(s.release.value.assets, id))))
  }

  /** A completed upload, or with `complete` false the starter asset of a failed one. A taken name changes nothing. */
  function UploadedTo(s: Server, name: string, bytes: Bytes, complete: bool): Server
    requires s.release.Some?
  {
    var release := s.release.value;
    if Named(release.assets, name) then s
    else
      var asset := Asset(s.nextId, name, complete, if complete then |bytes| else 0);
      s.(release := Some(release.(assets := release.assets + [asset])),
         contents := if complete then s.contents[s.nextId := bytes] else s.contents,
         nextId := s.nextId + 1)
  }

  /** Publishing a draft creates its tag at the target commit. */
  function PublishedAs(s: Server, target: Commit, latest: bool): Server
    requires s.release.Some?
  {
    s.(release := Some(s.release.value.(draft := false, target := target)),
       tagCommit := if s.tagCommit.None? then Some(target) else s.tagCommit,
       latest := if latest then Some(s.release.value.tag) else s.latest)
  }

  function MarkedLatest(s: Server): Server
    requires s.release.Some?
  {
    s.(latest := Some(s.release.value.tag))
  }

  // ----- what no request undoes -----

  ghost predicate KeepsAssets(s: Release, t: Release) {
    && (forall asset <- s.assets | asset.uploaded :: asset in t.assets)
    && (forall asset <- t.assets :: asset in s.assets || asset.name in ASSETS)
    && (forall x, y | x in s.assets && y in t.assets && x.id == y.id :: x == y)
  }

  /** A tag keeps its commit, and only publishing creates one, at the target of the draft. */
  ghost predicate KeepsTag(s: Server, t: Server) {
    if s.tagCommit.Some? then t.tagCommit == s.tagCommit
    else
      && (t.tagCommit.Some? ==> t.release.Some? && !t.release.value.draft)
      && (s.release.Some? && t.release.Some? ==>
            var target := s.release.value.target;
            if t.tagCommit.None? then t.release.value.target == target else t.tagCommit == Some(target))
  }

  ghost predicate KeepsRelease(r: Release, q: Release) {
    && r.id == q.id && r.tag == q.tag && r.name == q.name && r.body == q.body && r.prerelease == q.prerelease
    && (!r.draft ==> !q.draft)
    && KeepsAssets(r, q)
  }

  /**
   * Between two states of a server only this pipeline writes to, the release keeps its identity and its uploaded
   * assets, an asset ID never changes its asset, a published release stays published and a tag keeps its commit.
   */
  ghost predicate Preserves(tag: string, s: Server, t: Server) {
    && s.nextId <= t.nextId && s.spares <= t.spares
    && (forall id <- s.contents :: id in t.contents && t.contents[id] == s.contents[id])
    && KeepsTag(s, t)
    && (s.latest == Some(tag) ==> t.latest == Some(tag))
    && (s.release.Some? ==> t.release.Some? && KeepsRelease(s.release.value, t.release.value))
  }

  lemma {:induction false} PreservesReflexive(tag: string, s: Server)
    requires WellFormed(s)
    ensures Preserves(tag, s, s)
  {
    if s.release.Some? {
      var assets := s.release.value.assets;
      forall x, y | x in assets && y in assets && x.id == y.id ensures x == y {
        var i :| 0 <= i < |assets| && assets[i] == x;
        var j :| 0 <= j < |assets| && assets[j] == y;
      }
    }
  }

  /** IDs are handed out once: an asset of a later state with an ID below an earlier `nextId` was there before. */
  ghost predicate FreshIds(s: Server, t: Server) {
    t.release.Some? ==>
      forall y <- t.release.value.assets | y.id < s.nextId :: s.release.Some? && y in s.release.value.assets
  }

  lemma {:induction false} PreservesTransitive(tag: string, s: Server, t: Server, u: Server)
    requires WellFormed(s) && WellFormed(t)
    requires Preserves(tag, s, t) && Preserves(tag, t, u) && FreshIds(t, u)
    ensures Preserves(tag, s, u)
  {
    if s.release.Some? {
      forall x, y | x in s.release.value.assets && y in u.release.value.assets && x.id == y.id ensures x == y {
        assert y in t.release.value.assets;
      }
    }
  }

  lemma {:induction false} CreateStep(tag: string, s: Server, draft: Release)
    requires WellFormed(s)
    ensures var t := Created(s, draft); WellFormed(t) && Preserves(tag, s, t) && FreshIds(s, t)
  {
    PreservesReflexive(tag, s);
  }

  lemma {:induction false} WithoutIdKeepsUnique(s: Server, assets: seq<Asset>, id: nat)
    requires WellFormedAssets(s, assets)
    ensures WellFormedAssets(s, WithoutId(assets, id))
  {
    if assets != [] {
      var rest := assets[1..];
      assert forall asset <- rest :: asset in assets;
      WithoutIdKeepsUnique(s, rest, id);
      var kept := WithoutId(rest, id);
      forall asset | asset in kept ensures asset.name != assets[0].name && asset.id != assets[0].id {
        var j :| 0 <= j < |rest| && rest[j] == asset;
        assert assets[0] != assets[j + 1];
      }
    }
  }

  lemma {:induction false} SameIdSameAsset(s: Server, assets: seq<Asset>, x: Asset, y: Asset)
    requires WellFormedAssets(s, assets) && x in assets && y in assets && (x.id == y.id || x.name == y.name)
    ensures x == y
  {
    var i :| 0 <= i < |assets| && assets[i] == x;
    var j :| 0 <= j < |assets| && assets[j] == y;
  }

  /** Deleting an asset that was never uploaded undoes nothing. */
  lemma {:induction false} DeleteStep(tag: string, s: Server, id: nat)
    requires WellFormed(s) && s.release.Some?
    requires forall asset <- s.release.value.assets | asset.id == id :: !asset.uploaded
    ensures var t := Deleted(s, id); WellFormed(t) && Preserves(tag, s, t) && FreshIds(s, t)
  {
    var assets := s.release.value.assets;
    WithoutIdKeepsUnique(s, assets, id);
    forall x, y | x in assets && y in WithoutId(assets, id) && x.id == y.id ensures x == y {
      SameIdSameAsset(s, assets, x, y);
    }
  }

  lemma {:induction false} UploadKeepsUnique(s: Server, name: string, bytes: Bytes, complete: bool)
    requires WellFormed(s) && s.release.Some?
    ensures var t := UploadedTo(s, name, bytes, complete);
            WellFormedAssets(t, t.release.value.assets) && forall id <- t.contents :: id < t.nextId
  {
    var assets := s.release.value.assets;
    if !Named(assets, name) {
      var t := UploadedTo(s, name, bytes, complete);
      var grown := t.release.value.assets;
      assert grown[..|assets|] == assets;
      forall asset | asset in grown
        ensures asset.id < t.nextId
        ensures asset.uploaded ==> asset.id in t.contents && |t.contents[asset.id]| == asset.size
      {}
    }
  }

  lemma {:induction false} UploadKeepsAssets(s: Server, name: string, bytes: Bytes, complete: bool)
    requires WellFormed(s) && s.release.Some? && name in ASSETS
    ensures var t := UploadedTo(s, name, bytes, complete);
            KeepsAssets(s.release.value, t.release.value) && FreshIds(s, t)
  {
    var assets, grown := s.release.value.assets, UploadedTo(s, name, bytes, complete).release.value.assets;
    forall x, y | x in assets && y in grown && x.id == y.id ensures x == y {
      if y in assets {
        SameIdSameAsset(s, assets, x, y);
      }
    }
  }

  lemma {:induction false} UploadStep(tag: string, s: Server, name: string, bytes: Bytes, complete: bool)
    requires WellFormed(s) && s.release.Some? && name in ASSETS
    ensures var t := UploadedTo(s, name, bytes, complete);
            && WellFormed(t) && Preserves(tag, s, t) && FreshIds(s, t)
            && t.release == Some(s.release.value.(assets := t.release.value.assets))
            && (forall asset <- t.release.value.assets :: asset in s.release.value.assets || asset.name == name)
  {
    hide WellFormedAssets, KeepsAssets, FreshIds, Named;
    UploadKeepsUnique(s, name, bytes, complete);
    UploadKeepsAssets(s, name, bytes, complete);
  }

  lemma {:induction false} PublishStep(s: Server, target: Commit, latest: bool)
    requires WellFormed(s) && s.release.Some? && (s.tagCommit.None? ==> s.release.value.target == target)
    ensures var t := PublishedAs(s, target, latest);
            WellFormed(t) && Preserves(s.release.value.tag, s, t) && FreshIds(s, t)
  {
    PreservesReflexive(s.release.value.tag, s);
  }

  lemma {:induction false} LatestStep(s: Server)
    requires WellFormed(s) && s.release.Some?
    ensures var t := MarkedLatest(s);
            WellFormed(t) && Preserves(s.release.value.tag, s, t) && FreshIds(s, t)
  {
    PreservesReflexive(s.release.value.tag, s);
  }
}
