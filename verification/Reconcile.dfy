/**
 * Announcing a published candidate as a GitHub release. Every run can be interrupted at any request, and a write can
 * be applied although its request failed, so a later run continues from whatever it finds.
 */
module Reconcile {
  import opened Wrappers
  import opened Clocks
  import opened GithubServer
  import opened Versions

  datatype Announcement = Announcement(version: Version, sourceCommit: Commit, files: map<string, Bytes>)

  predicate IsCommit(text: string) {
    |text| == 40 && forall c <- text :: ('a' <= c <= 'f') || ('0' <= c <= '9')
  }

  predicate Complete(a: Announcement) {
    forall name <- ASSETS :: name in a.files
  }

  /** A checked source commit, all five files and a release version. */
  predicate Announceable(a: Announcement) {
    IsCommit(a.sourceCommit) && Complete(a) && Valid(a.version)
  }

  function TagOf(a: Announcement): string {
    "v" + Print(a.version)
  }

  function DraftOf(a: Announcement): Release
    requires Complete(a)
  {
    assert ASSETS[0] in ASSETS;
    Release(0, TagOf(a), TagOf(a), a.sourceCommit, a.files["notes.md"], true, !a.version.channel.Stable?, [])
  }

  datatype Failure =
    | NotAnnounceable | BadDeadline | Interrupted | Rejected | Ambiguous | TagConflict | CreationUnconfirmed | Conflict | TagInvisible
    | UnexpectedAsset | DuplicateAsset | DeletionUnconfirmed | AssetUnconfirmed | FinalMismatch | LatestUnconfirmed

  /** A definite rejection changed nothing. A network or server failure leaves open whether the write was applied. */
  datatype Answer = Accepted | Refused | Uncertain

  datatype Summary = Summary(tag: string, draft: bool, prerelease: bool)

  /** The versions of published Stable releases, skipping every tag that is not a version. */
  function StableVersions(releases: seq<Summary>): seq<Version> {
    if releases == [] then []
    else
      var rest := StableVersions(releases[1..]);
      var item := releases[0];
      if item.draft || item.prerelease || item.tag == "" || item.tag[0] != 'v' then rest
      else
        match ParseVersion(item.tag[1..])
        case Ok(version) => [version] + rest
        case Err(_) => rest
  }

  lemma {:induction false} StableVersionsAreReleased(releases: seq<Summary>)
    ensures forall v :: v in StableVersions(releases) <==>
              Valid(v) && exists item <- releases :: !item.draft && !item.prerelease && item.tag == "v" + Print(v)
  {
    hide ParseVersion, Print, Valid;
    if releases != [] {
      var item := releases[0];
      StableVersionsAreReleased(releases[1..]);
      assert releases == [item] + releases[1..];
      forall v ensures v in StableVersions([item]) <==>
                Valid(v) && !item.draft && !item.prerelease && item.tag == "v" + Print(v)
      {
        if item.tag != "" && item.tag[0] == 'v' {
          assert item.tag == "v" + item.tag[1..];
          if ParseVersion(item.tag[1..]).Ok? {
            PrintParse(item.tag[1..]);
          }
        }
        if Valid(v) && item.tag == "v" + Print(v) {
          ParsePrint(v);
          assert item.tag[1..] == Print(v);
        }
      }
      assert StableVersions([item]) + StableVersions(releases[1..]) == StableVersions(releases);
    }
  }

  // ----- states -----

  /** The identity, source and readiness of the announced release, holding only expected assets. */
  ghost predicate Matches(a: Announcement, s: Server) {
    && Complete(a) && s.release.Some?
    && var r := s.release.value;
       && r.tag == TagOf(a) && r.name == TagOf(a) && r.body == a.files["notes.md"]
       && r.prerelease == !a.version.channel.Stable?
       && (forall asset <- r.assets :: asset.name in ASSETS)
       && (s.tagCommit == Some(a.sourceCommit) || (s.tagCommit.None? && r.draft && r.target == a.sourceCommit))
  }

  /** The release serves exactly the candidate's bytes under an asset name. */
  ghost predicate Verified(a: Announcement, s: Server, name: string) {
    && name in a.files && s.release.Some?
    && exists asset <- s.release.value.assets ::
         && asset.name == name && asset.uploaded
         && asset.id in s.contents && s.contents[asset.id] == a.files[name]
  }

  ghost predicate AllVerified(a: Announcement, s: Server) {
    forall name <- ASSETS :: Verified(a, s, name)
  }

  /** The announcement is complete: published with exactly the five expected assets at the candidate's commit. */
  ghost predicate Announced(a: Announcement, s: Server) {
    && Matches(a, s) && AllVerified(a, s) && !s.release.value.draft
    && s.tagCommit == Some(a.sourceCommit) && |s.release.value.assets| == |ASSETS|
  }

  ghost predicate OnlyExpectedBytes(a: Announcement, s: Server) {
    Matches(a, s) && forall asset <- s.release.value.assets | asset.uploaded ::
      asset.id in s.contents && s.contents[asset.id] == a.files[asset.name]
  }

  /** What any number of interrupted runs for one candidate leaves behind. */
  ghost predicate Resumable(a: Announcement, s: Server) {
    if s.release.None? then s.tagCommit.None? || s.tagCommit == Some(a.sourceCommit)
    else OnlyExpectedBytes(a, s) && (s.release.value.draft || AllVerified(a, s))
  }

  /** No release of the tag, or several of which none is published: a lookup by tag in this state. */
  function ByTag(s: Server): Result<Option<Release>, Failure> {
    if Unambiguous(s) then Ok(s.release) else Err(Ambiguous)
  }

  /**
   * Where a lookup still shows the state before a draft was created, the run creates a second one, and then every
   * lookup fails until one of them is published.
   */
  lemma {:induction false} SecondDraft(tag: string, a: Announcement, shown: Server, s: Server)
    requires WellFormed(shown) && WellFormed(s) && Preserves(tag, shown, s) && Complete(a)
    requires shown.release.None? && s.release.Some? && s.release.value.draft
    ensures var t := Created(s, DraftOf(a));
            && ByTag(shown) == Ok(None) && WellFormed(t) && Preserves(tag, s, t)
            && t.release == s.release && |t.spares| == |s.spares| + 1
            && forall u: Server | Preserves(tag, t, u) && u.release.value.draft :: ByTag(u) == Err(Ambiguous)
  {
    CreateStep(tag, s, DraftOf(a));
    var t := Created(s, DraftOf(a));
    forall u: Server | Preserves(tag, t, u) && u.release.value.draft ensures ByTag(u) == Err(Ambiguous) {
      assert t.spares[|s.spares|] == u.spares[|s.spares|];
    }
  }

  lemma {:induction false} VerifiedStays(a: Announcement, s: Server, t: Server, name: string)
    requires Verified(a, s, name) && Preserves(TagOf(a), s, t)
    ensures Verified(a, t, name)
  {
  }

  lemma {:induction false} AllVerifiedStays(a: Announcement, s: Server, t: Server)
    requires AllVerified(a, s) && Preserves(TagOf(a), s, t)
    ensures AllVerified(a, t)
  {
    forall name | name in ASSETS ensures Verified(a, t, name) {
      VerifiedStays(a, s, t, name);
    }
  }

  lemma FiveAssets()
    ensures |set name | name in ASSETS| == 5 == |ASSETS|
  {
    assert (set name | name in ASSETS) == {"notes.md", "docs.json", "candidate.json", "checksum.txt", "sdk.tgz"};
  }

  lemma {:induction false} VerifiedAssetIsExact(a: Announcement, s: Server, asset: Asset)
    requires WellFormed(s) && s.release.Some? && asset in s.release.value.assets && Verified(a, s, asset.name)
    ensures asset.uploaded && asset.id in s.contents && s.contents[asset.id] == a.files[asset.name]
  {
    var assets := s.release.value.assets;
    var other :| other in assets && other.name == asset.name && other.uploaded
                 && other.id in s.contents && s.contents[other.id] == a.files[asset.name];
    SameIdSameAsset(s, assets, asset, other);
  }

  /** Five different expected names leave no room for a sixth asset. */
  lemma {:induction false} VerifiedIsExact(a: Announcement, s: Server)
    requires WellFormed(s) && Matches(a, s) && AllVerified(a, s)
    ensures |s.release.value.assets| == |ASSETS|
  {
    var assets := s.release.value.assets;
    var expected := set name | name in ASSETS;
    NamesCount(assets, expected);
    forall name | name in expected ensures name in NamesOf(assets) {
      assert Verified(a, s, name);
    }
    assert NamesOf(assets) == expected;
    FiveAssets();
  }

  function NamesOf(assets: seq<Asset>): (names: set<string>)
    ensures forall asset <- assets :: asset.name in names
  {
    if assets == [] then {} else {assets[0].name} + NamesOf(assets[1..])
  }

  lemma {:induction false} NotNamed(assets: seq<Asset>, name: string)
    requires forall asset <- assets :: asset.name != name
    ensures name !in NamesOf(assets)
  {
    if assets != [] {
      NotNamed(assets[1..], name);
    }
  }

  lemma {:induction false} NamesCount(assets: seq<Asset>, expected: set<string>)
    requires forall i, j | 0 <= i < j < |assets| :: assets[i].name != assets[j].name
    requires forall asset <- assets :: asset.name in expected
    ensures |NamesOf(assets)| == |assets| && NamesOf(assets) <= expected
  {
    if assets != [] {
      var rest := assets[1..];
      NamesCount(rest, expected);
      NotNamed(rest, assets[0].name);
      assert NamesOf(assets) == {assets[0].name} + NamesOf(rest);
    }
  }

  // ----- requests -----

  /**
   * GitHub as the runs for one tag see it. A read shows the current state or lags behind to any earlier one, also one
   * that an earlier run left behind, and any request can fail. In a reliable run every request is answered and every
   * read is up to date.
   */
  class GitHub {
    const tag: string
    const others: seq<Summary>
    var reliable: bool
    var server: Server
    /** The states left behind. */
    var history: seq<Server>
    ghost var creates: nat
    ghost var updates: nat
    ghost var uploads: nat

    constructor (tag: string, server: Server, others: seq<Summary>)
      requires WellFormed(server)
      ensures this.tag == tag && this.server == server && this.others == others && history == []
      ensures creates == updates == uploads == 0 && Valid()
    {
      this.tag, this.server, this.others, this.reliable := tag, server, others, false;
      history, creates, updates, uploads := [], 0, 0, 0;
      new;
      PreservesReflexive(tag, server);
    }

    /** Every state there was, the current one last. */
    function Trace(): (trace: seq<Server>)
      reads this`server, this`history
      ensures |trace| == |history| + 1 && trace[|history|] == server
    {
      history + [server]
    }

    ghost predicate Valid()
      reads this`server, this`history
    {
      && (forall s <- Trace() :: WellFormed(s))
      && (forall i, j | 0 <= i <= j <= |history| :: Preserves(tag, Trace()[i], Trace()[j]))
    }

    /** A new run, whose reads may still lag behind the runs before it unless it is reliable. */
    method StartRun(reliable: bool)
      modifies this`reliable, this`creates, this`updates, this`uploads
      ensures this.reliable == reliable && creates == updates == uploads == 0
    {
      this.reliable, creates, updates, uploads := reliable, 0, 0, 0;
    }

    method Observe() returns (r: Result<Server, Failure>)
      ensures r.Ok? ==> r.value in Trace()
      ensures r.Err? ==> r.error.Interrupted?
      ensures reliable ==> r == Ok(server)
    {
      var fails: bool, lag: int := *, *;
      assert Trace()[|history|] in Trace();
      if reliable {
        r := Ok(server);
      } else if fails {
        r := Err(Interrupted);
      } else {
        assert 0 <= lag < |history| ==> Trace()[lag] == history[lag];
        r := Ok(if 0 <= lag < |history| then history[lag] else server);
      }
    }

    /** The release of the tag: a published one directly, or else the only one listed. */
    method Release() returns (r: Result<Option<Release>, Failure>, ghost seen: Server)
      ensures seen in Trace() && (r.Ok? ==> r.value == seen.release)
      ensures r.Err? ==> r.error.Interrupted? || r.error.Ambiguous?
      ensures reliable ==> r == if Unambiguous(server) then Ok(server.release) else Err(Ambiguous)
    {
      assert Trace()[|history|] in Trace();
      seen := server;
      var published := Observe();
      if published.Err? {
        return Err(published.error), seen;
      }
      if published.value.release.Some? && !published.value.release.value.draft {
        return Ok(published.value.release), published.value;
      }
      var listed := Observe();
      if listed.Err? {
        return Err(listed.error), seen;
      }
      if listed.value.spares != [] {
        return Err(Ambiguous), listed.value;
      }
      return Ok(listed.value.release), listed.value;
    }

    method ReleaseById(id: nat) returns (r: Result<Option<Release>, Failure>, ghost seen: Server)
      ensures seen in Trace()
      ensures r.Ok? && r.value.Some? ==> r.value.value.id == id && (r.value == seen.release || r.value.value in seen.spares)
      ensures r.Err? ==> r.error.Interrupted?
      ensures reliable && server.release.Some? && server.release.value.id == id ==> r == Ok(server.release)
    {
      assert Trace()[|history|] in Trace();
      var read := Observe();
      if read.Err? {
        return Err(read.error), server;
      }
      var state := read.value;
      var own := state.release.Some? && state.release.value.id == id;
      return Ok(if own then state.release else WithId(state.spares, id)), state;
    }

    method Download(id: nat) returns (r: Result<Bytes, Failure>)
      ensures r.Ok? ==> id in server.contents && r.value == server.contents[id]
      ensures reliable && id in server.contents ==> r.Ok?
    {
      var fails: bool := *;
      r := if id in server.contents && (reliable || !fails) then Ok(server.contents[id]) else Err(Interrupted);
    }

    ghost predicate MayFollow(next: Server)
      reads this`server
    {
      WellFormed(next) && Preserves(tag, server, next) && FreshIds(server, next)
    }

    method Apply(next: Server)
      requires Valid() && MayFollow(next)
      modifies this`server, this`history
      ensures Valid() && server == next && history == old(history) + [old(server)]
      ensures old(Trace()) <= Trace() && forall s <- Trace() :: s in old(Trace()) || s == next
    {
      hide WellFormed, Preserves, FreshIds;
      ghost var before := Trace();
      forall i | 0 <= i < |before| ensures Preserves(tag, before[i], next) {
        assert before[i] in before && before[|history|] in before;
        PreservesTransitive(tag, before[i], server, next);
      }
      PreservesReflexive(tag, next);
      history, server := history + [server], next;
      assert Trace() == before + [next];
    }

    /** The effect of a write: an accepted one is applied, a refused one is not, an uncertain one may be. */
    method Write(next: Server) returns (answer: Answer)
      requires Valid() && MayFollow(next)
      modifies this`server, this`history
      ensures Valid() && old(Trace()) <= Trace()
      ensures server == next || (server == old(server) && history == old(history))
      ensures forall s <- Trace() :: s in old(Trace()) || s == next
      ensures answer.Accepted? ==> server == next
      ensures answer.Refused? ==> server == old(server) && history == old(history)
      ensures reliable ==> answer.Accepted?
    {
      hide WellFormed, Preserves, FreshIds, Valid;
      var applied: bool, refused: bool, reported: bool := *, *, *;
      if !reliable && !applied {
        return if refused then Refused else Uncertain;
      }
      Apply(next);
      return if reliable || reported then Accepted else Uncertain;
    }

    /** Creates a draft, also beside a release of the tag. Its ID is known only if the request was answered. */
    method Create(draft: Release) returns (answer: Answer, id: Option<nat>)
      requires Valid()
      modifies this`server, this`history, this`creates
      ensures Valid() && old(Trace()) <= Trace() && creates == old(creates) + 1
      ensures server == old(server) || server == Created(old(server), draft)
      ensures answer.Refused? ==> server == old(server)
      ensures id == if answer.Accepted? then Some(old(server).nextId) else None
      ensures reliable ==> answer.Accepted? && server == Created(old(server), draft)
    {
      hide WellFormed, Preserves, FreshIds, Created, Valid;
      creates := creates + 1;
      CurrentIsWellFormed(this);
      CreateStep(tag, server, draft);
      id := Some(server.nextId);
      answer := Write(Created(server, draft));
      if !answer.Accepted? {
        id := None;
      }
    }

    /** Only an asset that was never uploaded may be deleted. */
    method DeleteAsset(id: nat) returns (answer: Answer)
      requires Valid() && server.release.Some?
      requires forall asset <- server.release.value.assets | asset.id == id :: !asset.uploaded
      modifies this`server, this`history
      ensures Valid() && old(Trace()) <= Trace()
      ensures server == old(server) || server == Deleted(old(server), id)
      ensures reliable ==> answer.Accepted? && server == Deleted(old(server), id)
    {
      hide WellFormed, Preserves, FreshIds, Valid;
      CurrentIsWellFormed(this);
      DeleteStep(tag, server, id);
      answer := Write(Deleted(server, id));
    }

    /**
     * Uploads to the release that the tag names, which may be another draft where there are several. A failed upload
     * may leave the asset, a starter or nothing.
     */
    method Upload(name: string, bytes: Bytes) returns (answer: Answer)
      requires Valid() && server.release.Some? && name in ASSETS
      modifies this`server, this`history, this`uploads
      ensures Valid() && old(Trace()) <= Trace() && uploads == old(uploads) + 1
      ensures server in {old(server), UploadedTo(old(server), name, bytes, true), UploadedTo(old(server), name, bytes, false)}
      ensures reliable && Unambiguous(old(server)) ==>
                server == UploadedTo(old(server), name, bytes, true) && !answer.Refused?
    {
      hide WellFormed, Preserves, FreshIds, Valid, UploadedTo;
      uploads := uploads + 1;
      var starter: bool, astray: bool := *, *;
      if astray && !Unambiguous(server) {
        return Uncertain;
      }
      CurrentIsWellFormed(this);
      UploadStep(tag, server, name, bytes, true);
      UploadStep(tag, server, name, bytes, false);
      answer := Write(UploadedTo(server, name, bytes, reliable || !starter));
      if !reliable && starter && answer.Accepted? {
        answer := Uncertain;
      }
    }

    /** The draft flag is cleared only over a release whose five assets were verified, for the commit it targets. */
    method ClearDraft(a: Announcement, latest: bool) returns (answer: Answer)
      requires Valid() && server.release.Some? && server.release.value.tag == tag && AllVerified(a, server)
      requires server.tagCommit.None? ==> server.release.value.target == a.sourceCommit
      modifies this`server, this`history, this`updates
      ensures Valid() && old(Trace()) <= Trace() && updates == old(updates) + 1
      ensures server == old(server) || server == PublishedAs(old(server), a.sourceCommit, latest)
      ensures reliable ==> answer.Accepted? && server == PublishedAs(old(server), a.sourceCommit, latest)
    {
      hide WellFormed, Preserves, FreshIds, PublishedAs, Valid, AllVerified;
      updates := updates + 1;
      CurrentIsWellFormed(this);
      PublishStep(server, a.sourceCommit, latest);
      answer := Write(PublishedAs(server, a.sourceCommit, latest));
    }

    method MarkLatest() returns (answer: Answer)
      requires Valid() && server.release.Some? && server.release.value.tag == tag
      modifies this`server, this`history, this`updates
      ensures Valid() && old(Trace()) <= Trace() && updates == old(updates) + 1
      ensures server == old(server) || server == MarkedLatest(old(server))
      ensures reliable ==> answer.Accepted? && server == MarkedLatest(old(server))
    {
      hide WellFormed, Preserves, FreshIds, MarkedLatest, Valid;
      updates := updates + 1;
      CurrentIsWellFormed(this);
      LatestStep(server);
      answer := Write(MarkedLatest(server));
    }
  }

  /** A state that reads may show is preserved in the current one. */
  lemma {:induction false} SeenIsPreserved(gh: GitHub, s: Server)
    requires gh.Valid() && s in gh.Trace()
    ensures WellFormed(s) && Preserves(gh.tag, s, gh.server)
  {
    hide WellFormed, Preserves;
    var i :| 0 <= i <= |gh.history| && gh.Trace()[i] == s;
  }

  /** Of two states that reads may show, one is preserved in the other. */
  lemma {:induction false} SeenInOrder(gh: GitHub, s: Server, t: Server)
    requires gh.Valid() && s in gh.Trace() && t in gh.Trace()
    ensures Preserves(gh.tag, s, t) || Preserves(gh.tag, t, s)
  {
    hide WellFormed, Preserves;
    var i :| 0 <= i <= |gh.history| && gh.Trace()[i] == s;
    var j :| 0 <= j <= |gh.history| && gh.Trace()[j] == t;
    assert Preserves(gh.tag, gh.Trace()[if i <= j then i else j], gh.Trace()[if i <= j then j else i]);
  }

  lemma {:induction false} CurrentIsWellFormed(gh: GitHub)
    requires gh.Valid()
    ensures WellFormed(gh.server) && gh.server in gh.Trace()
  {
    assert gh.Trace()[|gh.history|] in gh.Trace();
  }

  // ----- reconciliation -----

  datatype Timing = Timing(timeout: int, delay: int)

  /** A release read by ID, or else by tag. */
  method ReadRelease(gh: GitHub, id: Option<nat>) returns (r: Result<Option<Release>, Failure>, ghost seen: Server)
    ensures seen in gh.Trace()
    ensures r.Ok? ==> r.value == seen.release || (id.Some? && r.value.Some? && IsSpare(seen, id.value, r.value.value))
    ensures r.Err? ==> r.error.Interrupted? || r.error.Ambiguous?
    ensures gh.reliable && IsFound(gh.server, id) ==> r == Ok(gh.server.release)
  {
    if id.Some? {
      var byId;
      byId, seen := gh.ReleaseById(id.value);
      if byId.Err? {
        return Err(byId.error), seen;
      }
      if byId.value.Some? {
        return byId, seen;
      }
    }
    r, seen := gh.Release();
  }

  predicate IsSpare(s: Server, id: nat, release: Release) {
    release in s.spares && release.id == id
  }

  /** The release that a read by this ID, or by tag without one, finds. */
  predicate IsFound(s: Server, id: Option<nat>) {
    if id.Some? then s.release.Some? && s.release.value.id == id.value else Unambiguous(s)
  }

  /** Reads the release until it matches or the deadline passes, then returns what was last visible. */
  method AwaitRelease(gh: GitHub, clock: Clock, timing: Timing, id: Option<nat>, matches: Release -> bool)
    returns (r: Result<Option<Release>, Failure>, ghost seen: Server)
    requires timing.delay > 0
    modifies clock
    ensures seen in gh.Trace()
    ensures r.Ok? ==> r.value == seen.release || (id.Some? && r.value.Some? && IsSpare(seen, id.value, r.value.value))
    ensures r.Err? ==> r.error.Interrupted? || r.error.Ambiguous?
    ensures gh.reliable && IsFound(gh.server, id) ==> r == Ok(gh.server.release)
  {
    assert gh.Trace()[|gh.history|] in gh.Trace();
    seen := gh.server;
    var started := clock.Now();
    while true
      invariant seen in gh.Trace()
      decreases timing.timeout - (clock.time - started)
    {
      var read;
      read, seen := ReadRelease(gh, id);
      if read.Err? || (read.value.Some? && matches(read.value.value)) {
        return read, seen;
      }
      var expired := clock.Pause(started, timing.timeout, timing.delay);
      if expired {
        return read, seen;
      }
    }
  }

  /** An ID names one release for good. */
  lemma {:induction false} OwnIsNoSpare(gh: GitHub, s: Server, release: Release)
    requires gh.Valid() && gh.server.release.Some? && s in gh.Trace() && release in s.spares
    ensures release.id != gh.server.release.value.id
  {
    SeenIsPreserved(gh, s);
    CurrentIsWellFormed(gh);
    var i :| 0 <= i < |s.spares| && s.spares[i] == release;
    assert gh.server.spares[i] == release;
  }

  lemma {:induction false} SeenId(gh: GitHub, s: Server)
    requires gh.Valid() && s in gh.Trace() && s.release.Some?
    ensures gh.server.release.Some? && gh.server.release.value.id == s.release.value.id
  {
    SeenIsPreserved(gh, s);
  }

  /** Awaits the release that the tag had first. */
  method AwaitOwn(gh: GitHub, clock: Clock, timing: Timing, id: nat, matches: Release -> bool)
    returns (r: Result<Option<Release>, Failure>, ghost seen: Server)
    requires gh.Valid() && timing.delay > 0 && IsFound(gh.server, Some(id))
    modifies clock
    ensures seen in gh.Trace() && (r.Ok? ==> r.value == seen.release)
    ensures r.Err? ==> r.error.Interrupted? || r.error.Ambiguous?
    ensures gh.reliable ==> r == Ok(gh.server.release)
  {
    hide GitHub.Valid;
    r, seen := AwaitRelease(gh, clock, timing, Some(id), matches);
    if r.Ok? && r.value.Some? && IsSpare(seen, id, r.value.value) {
      OwnIsNoSpare(gh, seen, r.value.value);
    }
  }

  /** Reads the tag until it exists, and reports whether it names the candidate's commit. */
  method AwaitTagCommit(gh: GitHub, clock: Clock, timing: Timing, commit: Commit) returns (r: Result<bool, Failure>)
    requires gh.Valid() && timing.delay > 0
    modifies clock
    ensures r == Ok(true) ==> gh.server.tagCommit == Some(commit)
    ensures gh.reliable && gh.server.tagCommit == Some(commit) ==> r == Ok(true)
  {
    var started := clock.Now();
    while true
      decreases timing.timeout - (clock.time - started)
    {
      var read := gh.Observe();
      if read.Err? {
        return Err(read.error);
      }
      SeenIsPreserved(gh, read.value);
      if read.value.tagCommit == Some(commit) {
        return Ok(true);
      }
      if read.value.tagCommit.Some? {
        return Ok(false);
      }
      var expired := clock.Pause(started, timing.timeout, timing.delay);
      if expired {
        return Ok(false);
      }
    }
  }

  method AwaitLatest(gh: GitHub, clock: Clock, timing: Timing) returns (r: Result<bool, Failure>)
    requires gh.Valid() && timing.delay > 0
    modifies clock
    ensures r == Ok(true) ==> gh.server.latest == Some(gh.tag)
    ensures gh.reliable && gh.server.latest == Some(gh.tag) ==> r == Ok(true)
  {
    var started := clock.Now();
    while true
      decreases timing.timeout - (clock.time - started)
    {
      var read := gh.Observe();
      if read.Err? {
        return Err(read.error);
      }
      SeenIsPreserved(gh, read.value);
      if read.value.latest == Some(gh.tag) {
        return Ok(true);
      }
      var expired := clock.Pause(started, timing.timeout, timing.delay);
      if expired {
        return Ok(false);
      }
    }
  }

  /** The tag does not exist yet or names the candidate's commit. */
  predicate TagAgrees(a: Announcement, s: Server) {
    s.tagCommit.None? || s.tagCommit == Some(a.sourceCommit)
  }

  /** Creates the draft at most once, confirming it by reading it back after an uncertain result. */
  method CreateDraft(gh: GitHub, clock: Clock, timing: Timing, a: Announcement)
    returns (r: Result<Release, Failure>, ghost seen: Server)
    requires gh.Valid() && timing.delay > 0 && Complete(a)
    modifies gh`server, gh`history, gh`creates, clock
    ensures gh.Valid() && old(gh.Trace()) <= gh.Trace() && gh.creates <= old(gh.creates) + 1
    ensures gh.server == old(gh.server) || gh.server == Created(old(gh.server), DraftOf(a))
    ensures gh.server != old(gh.server) ==> gh.creates == old(gh.creates) + 1
    ensures r.Ok? ==> seen in gh.Trace() && (seen.release == Some(r.value) || r.value in seen.spares)
    ensures gh.reliable && old(gh.server).release.None? && TagAgrees(a, old(gh.server)) ==> r.Ok?
    ensures gh.reliable && old(gh.server).release.None? && r.Ok? ==>
              gh.server == Created(old(gh.server), DraftOf(a)) && gh.server.release == Some(r.value)
  {
    hide GitHub.Valid, DraftOf, Complete;
    CurrentIsWellFormed(gh);
    seen := gh.server;
    var existing := gh.Observe();
    if existing.Err? {
      return Err(existing.error), seen;
    }
    if existing.value.tagCommit.Some? && existing.value.tagCommit != Some(a.sourceCommit) {
      return Err(TagConflict), seen;
    }
    var answer, id := gh.Create(DraftOf(a));
    if answer.Refused? {
      return Err(Rejected), seen;
    }
    var visible;
    visible, seen := AwaitRelease(gh, clock, timing, id, _ => true);
    if visible.Err? {
      return Err(visible.error), seen;
    }
    if visible.value.None? {
      return Err(CreationUnconfirmed), seen;
    }
    return Ok(visible.value.value), seen;
  }

  lemma {:induction false} DeleteKeepsMatching(a: Announcement, s: Server, id: nat)
    requires Matches(a, s)
    ensures Matches(a, Deleted(s, id))
    ensures OnlyExpectedBytes(a, s) ==> OnlyExpectedBytes(a, Deleted(s, id))
  {
  }

  lemma {:induction false} UploadKeepsMatching(a: Announcement, s: Server, name: string, complete: bool)
    requires WellFormed(s) && Matches(a, s) && name in ASSETS
    ensures Matches(a, UploadedTo(s, name, a.files[name], complete))
    ensures OnlyExpectedBytes(a, s) ==> OnlyExpectedBytes(a, UploadedTo(s, name, a.files[name], complete))
  {
  }

  /** What reconciling one asset keeps, besides what no request undoes. */
  ghost predicate Kept(a: Announcement, s: Server, t: Server) {
    && Matches(a, s) && Matches(a, t)
    && t.release.value.id == s.release.value.id && t.release.value.draft == s.release.value.draft
    && t.spares == s.spares && t.tagCommit == s.tagCommit && t.latest == s.latest
    && (OnlyExpectedBytes(a, s) ==> OnlyExpectedBytes(a, t))
  }

  /** Deletes a starter asset, confirmed by a read that no longer shows it. */
  method ReplaceIncomplete(gh: GitHub, clock: Clock, timing: Timing, a: Announcement, current: Release,
                           incomplete: Asset, ghost seen0: Server)
    returns (r: Result<Release, Failure>, ghost seen: Server)
    requires gh.Valid() && timing.delay > 0 && Matches(a, gh.server) && !incomplete.uploaded
    requires seen0 in gh.Trace() && seen0.release == Some(current) && incomplete in current.assets
    modifies gh`server, gh`history, clock
    ensures gh.Valid() && old(gh.Trace()) <= gh.Trace() && Kept(a, old(gh.server), gh.server)
    ensures r.Ok? ==> && seen in gh.Trace() && seen.release == Some(r.value)
                      && forall asset <- r.value.assets :: asset.id != incomplete.id
    ensures gh.reliable ==> && r.Ok? && gh.server == Deleted(old(gh.server), incomplete.id)
                            && seen.release == gh.server.release
  {
    hide GitHub.Valid, TagOf, Print;
    seen := seen0;
    SeenIsPreserved(gh, seen0);
    CurrentIsWellFormed(gh);
    var answer := gh.DeleteAsset(incomplete.id);
    DeleteKeepsMatching(a, old(gh.server), incomplete.id);
    if answer.Refused? {
      return Err(Rejected), seen;
    }
    var visible;
    visible, seen := AwaitOwn(gh, clock, timing, current.id, (item: Release) => !HasId(item.assets, incomplete.id));
    if visible.Err? {
      return Err(visible.error), seen;
    }
    if visible.value.None? || HasId(visible.value.value.assets, incomplete.id) {
      return Err(DeletionUnconfirmed), seen;
    }
    return Ok(visible.value.value), seen;
  }

  /** Uploads a missing asset, never a second time, and reads until it is shown as uploaded. */
  method UploadAsset(gh: GitHub, clock: Clock, timing: Timing, a: Announcement, id: nat, name: string)
    returns (r: Result<Release, Failure>, ghost seen: Server)
    requires gh.Valid() && timing.delay > 0 && Matches(a, gh.server) && name in ASSETS
    requires IsFound(gh.server, Some(id))
    modifies gh`server, gh`history, gh`uploads, clock
    ensures gh.Valid() && old(gh.Trace()) <= gh.Trace() && Kept(a, old(gh.server), gh.server)
    ensures gh.uploads == old(gh.uploads) + 1
    ensures r.Ok? ==> seen in gh.Trace() && seen.release == Some(r.value)
    ensures gh.reliable && Unambiguous(old(gh.server)) ==>
                            && r.Ok? && gh.server == UploadedTo(old(gh.server), name, a.files[name], true)
                            && seen.release == gh.server.release
  {
    hide GitHub.Valid, TagOf, Print, Preserves;
    CurrentIsWellFormed(gh);
    seen := gh.server;
    UploadKeepsMatching(a, gh.server, name, true);
    UploadKeepsMatching(a, gh.server, name, false);
    UploadStep(gh.tag, gh.server, name, a.files[name], true);
    UploadStep(gh.tag, gh.server, name, a.files[name], false);
    var answer := gh.Upload(name, a.files[name]);
    if answer.Refused? {
      return Err(Rejected), seen;
    }
    var visible;
    visible, seen := AwaitOwn(gh, clock, timing, id,
                              (item: Release) => exists asset <- item.assets :: asset.name == name && asset.uploaded);
    if visible.Err? {
      return Err(visible.error), seen;
    }
    if visible.value.None? {
      return Err(AssetUnconfirmed), seen;
    }
    return Ok(visible.value.value), seen;
  }

  /** Compares the one asset of a name with the candidate's bytes. */
  method CheckAsset(gh: GitHub, a: Announcement, release: Release, name: string, ghost seen: Server)
    returns (r: Result<(), Failure>)
    requires gh.Valid() && name in a.files && seen in gh.Trace() && seen.release == Some(release)
    ensures r.Ok? ==> Verified(a, gh.server, name)
    ensures gh.reliable && seen.release == gh.server.release && Verified(a, gh.server, name) ==> r.Ok?
  {
    SeenIsPreserved(gh, seen);
    CurrentIsWellFormed(gh);
    AtMostOneNamed(seen, release.assets, name);
    var bytes := a.files[name];
    var assets := NamedAssets(release.assets, name);
    if gh.reliable && seen.release == gh.server.release && Verified(a, gh.server, name) {
      assert exists asset :: asset in assets;
      assert assets[0] in assets;
      VerifiedAssetIsExact(a, gh.server, assets[0]);
    }
    if |assets| != 1 || !assets[0].uploaded || assets[0].size != |bytes| {
      return Err(AssetUnconfirmed);
    }
    assert assets[0] in assets;
    var downloaded := gh.Download(assets[0].id);
    if downloaded.Err? {
      return Err(downloaded.error);
    }
    if downloaded.value != bytes {
      return Err(AssetUnconfirmed);
    }
    return Ok(());
  }

  /** Replaces an incomplete asset, uploads a missing one and verifies the contents of the result. */
  method ReconcileAsset(gh: GitHub, clock: Clock, timing: Timing, a: Announcement, current: Release, name: string,
                        ghost seen0: Server)
    returns (r: Result<Release, Failure>, ghost seen: Server)
    requires gh.Valid() && timing.delay > 0 && Matches(a, gh.server) && name in ASSETS
    requires seen0 in gh.Trace() && seen0.release == Some(current)
    requires gh.reliable ==> seen0.release == gh.server.release && Unambiguous(gh.server)
    modifies gh`server, gh`history, gh`uploads, clock
    ensures gh.Valid() && old(gh.Trace()) <= gh.Trace() && Kept(a, old(gh.server), gh.server)
    ensures gh.uploads <= old(gh.uploads) + 1
    ensures r.Ok? ==> && seen in gh.Trace() && seen.release == Some(r.value) && Verified(a, gh.server, name)
                      && (gh.reliable ==> seen.release == gh.server.release)
    ensures gh.reliable && OnlyExpectedBytes(a, old(gh.server)) ==> r.Ok?
  {
    hide Preserves, GitHub.Valid, TagOf, Print, Matches, Kept, OnlyExpectedBytes, Verified, Unambiguous;
    hide WellFormed, Deleted, UploadedTo;
    seen := seen0;
    CurrentIsWellFormed(gh);
    ghost var start := gh.server;
    var release := current;
    var matching := NamedAssets(release.assets, name);
    SeenIsPreserved(gh, seen0);
    SeenId(gh, seen0);
    NamedOnce(seen0, name);
    KeptReflexive(a, start);
    if |matching| > 1 {
      return Err(DuplicateAsset), seen;
    }
    if matching != [] && !matching[0].uploaded {
      var incomplete := matching[0];
      assert incomplete in matching;
      var replaced;
      replaced, seen := ReplaceIncomplete(gh, clock, timing, a, current, incomplete, seen0);
      if replaced.Err? {
        return Err(replaced.error), seen;
      }
      release := replaced.value;
      if gh.reliable {
        DeletedNameIsFree(start, incomplete);
      }
      matching := NamedAssets(release.assets, name);
    }
    KeptMeans(a, start, gh.server);
    if matching == [] {
      ghost var before := gh.server;
      var uploaded;
      uploaded, seen := UploadAsset(gh, clock, timing, a, current.id, name);
      KeptTransitive(a, start, before, gh.server);
      if uploaded.Err? {
        return Err(uploaded.error), seen;
      }
      release := uploaded.value;
      if gh.reliable {
        UploadedIsVerified(a, before, name);
      }
    } else if gh.reliable && OnlyExpectedBytes(a, start) {
      assert matching[0] in matching;
      if matching[0].uploaded {
        ExpectedIsVerified(a, gh.server, matching[0]);
      }
    }
    var checked := CheckAsset(gh, a, release, name, seen);
    if checked.Err? {
      return Err(checked.error), seen;
    }
    return Ok(release), seen;
  }

  lemma NamedOnce(s: Server, name: string)
    requires WellFormed(s) && s.release.Some?
    ensures |NamedAssets(s.release.value.assets, name)| <= 1
  {
    AtMostOneNamed(s, s.release.value.assets, name);
  }

  lemma KeptMeans(a: Announcement, s: Server, t: Server)
    requires Kept(a, s, t)
    ensures Matches(a, t) && s.release.Some? && t.release.Some? && t.release.value.id == s.release.value.id
    ensures Unambiguous(t) == Unambiguous(s) && (OnlyExpectedBytes(a, s) ==> OnlyExpectedBytes(a, t))
    ensures forall name | name in ASSETS :: name in a.files
  {}

  lemma ExpectedIsVerified(a: Announcement, s: Server, asset: Asset)
    requires OnlyExpectedBytes(a, s) && s.release.Some? && asset in s.release.value.assets && asset.uploaded
    ensures Verified(a, s, asset.name)
  {}

  /** Deleting the one asset of a name frees the name. */
  lemma {:induction false} DeletedNameIsFree(s: Server, asset: Asset)
    requires WellFormed(s) && s.release.Some? && asset in s.release.value.assets
    ensures NamedAssets(Deleted(s, asset.id).release.value.assets, asset.name) == []
  {
    var rest := Deleted(s, asset.id).release.value.assets;
    forall other | other in rest && other.name == asset.name ensures false {
      SameIdSameAsset(s, s.release.value.assets, asset, other);
    }
    if NamedAssets(rest, asset.name) != [] {
      assert NamedAssets(rest, asset.name)[0] in NamedAssets(rest, asset.name);
    }
  }

  lemma {:induction false} UploadedIsVerified(a: Announcement, s: Server, name: string)
    requires s.release.Some? && NamedAssets(s.release.value.assets, name) == [] && name in a.files
    ensures Verified(a, UploadedTo(s, name, a.files[name], true), name)
  {
    assert !Named(s.release.value.assets, name);
  }

  /** Publishes a draft or moves the latest marker, without repeating an update whose result is uncertain. */
  method Publish(gh: GitHub, a: Announcement, current: Release, latest: bool, ghost seen0: Server)
    returns (r: Result<(), Failure>)
    requires gh.Valid() && gh.tag == TagOf(a) && Matches(a, gh.server) && AllVerified(a, gh.server)
    requires seen0 in gh.Trace() && seen0.release == Some(current)
    requires gh.reliable ==> seen0.release == gh.server.release
    modifies gh`server, gh`history, gh`updates
    ensures gh.Valid() && old(gh.Trace()) <= gh.Trace() && gh.updates <= old(gh.updates) + 1
    ensures Matches(a, gh.server) && AllVerified(a, gh.server) && gh.server.spares == old(gh.server.spares)
    ensures r.Err? ==> r.error.Rejected? || r.error.Interrupted?
    ensures gh.reliable ==>
              && r.Ok? && !gh.server.release.value.draft && gh.server.tagCommit == Some(a.sourceCommit)
              && (latest ==> gh.server.latest == Some(gh.tag))
  {
    CurrentIsWellFormed(gh);
    SeenIsPreserved(gh, seen0);
    var answer := Accepted;
    if current.draft {
      PublishStep(gh.server, a.sourceCommit, latest);
      AllVerifiedStays(a, gh.server, PublishedAs(gh.server, a.sourceCommit, latest));
      answer := gh.ClearDraft(a, latest);
    } else if latest {
      var read := gh.Observe();
      if read.Err? {
        return Err(read.error);
      }
      if read.value.latest != Some(gh.tag) {
        LatestStep(gh.server);
        AllVerifiedStays(a, gh.server, MarkedLatest(gh.server));
        answer := gh.MarkLatest();
      }
    }
    return if answer.Refused? then Err(Rejected) else Ok(());
  }

  /** Verifies the published release, its tag and every asset against the candidate. */
  method AssertFinal(gh: GitHub, clock: Clock, timing: Timing, a: Announcement, final: Option<Release>, ghost seen: Server)
    returns (r: Result<(), Failure>)
    requires gh.Valid() && timing.delay > 0 && Matches(a, gh.server) && AllVerified(a, gh.server)
    requires seen in gh.Trace() && seen.release == final
    modifies clock
    ensures r.Ok? ==> Announced(a, gh.server)
    ensures gh.reliable && seen.release == gh.server.release && Announced(a, gh.server) ==> r.Ok?
  {
    SeenIsPreserved(gh, seen);
    CurrentIsWellFormed(gh);
    VerifiedIsExact(a, gh.server);
    if final.None? || final.value.draft || final.value.body != a.files["notes.md"] ||
       final.value.prerelease != !a.version.channel.Stable? {
      return Err(FinalMismatch);
    }
    var tagged := AwaitTagCommit(gh, clock, timing, a.sourceCommit);
    if tagged.Err? {
      return Err(tagged.error);
    }
    if !tagged.value || |final.value.assets| != |ASSETS| {
      return Err(FinalMismatch);
    }
    for k := 0 to |ASSETS| {
      assert ASSETS[k] in ASSETS;
      assert Verified(a, gh.server, ASSETS[k]);
      var checked := CheckAsset(gh, a, final.value, ASSETS[k], seen);
      if checked.Err? {
        return Err(checked.error);
      }
    }
    return Ok(());
  }

  /** The lookup that began a run showed none of a release that existed. */
  ghost predicate Missed(before: Server, shown: Option<Server>) {
    before.release.Some? && shown.Some? && shown.value.release.None?
  }

  /** Looks for the release and creates a draft if the lookup shows none. */
  method FindOrCreate(gh: GitHub, clock: Clock, timing: Timing, a: Announcement)
    returns (r: Result<(Release, bool), Failure>, ghost seen: Server, ghost shown: Option<Server>)
    requires gh.Valid() && timing.delay > 0 && Complete(a)
    modifies gh`server, gh`history, gh`creates, clock
    ensures gh.Valid() && old(gh.Trace()) <= gh.Trace() && gh.creates <= old(gh.creates) + 1
    ensures gh.server == old(gh.server) || gh.server == Created(old(gh.server), DraftOf(a))
    ensures gh.server != old(gh.server) ==> gh.creates == old(gh.creates) + 1
    ensures shown.Some? ==> shown.value in old(gh.Trace())
    ensures gh.server != old(gh.server) ==> shown.Some? && shown.value.release.None?
    ensures gh.server.spares != old(gh.server.spares) <==> Missed(old(gh.server), shown) && gh.server != old(gh.server)
    ensures gh.reliable && shown.Some? ==> shown.value.release == old(gh.server).release
    ensures r.Ok? ==> seen in gh.Trace() && (seen.release == Some(r.value.0) || (r.value.1 && r.value.0 in seen.spares))
    ensures gh.reliable && !Unambiguous(old(gh.server)) ==> r == Err(Ambiguous) && gh.server == old(gh.server)
    ensures gh.reliable && Unambiguous(old(gh.server)) && TagAgrees(a, old(gh.server)) ==> r.Ok?
    ensures gh.reliable && r.Ok? ==> gh.server.release == Some(r.value.0) && Unambiguous(gh.server)
  {
    hide GitHub.Valid, DraftOf, Complete;
    CurrentIsWellFormed(gh);
    shown := None;
    var first;
    first, seen := gh.Release();
    if first.Err? {
      return Err(first.error), seen, shown;
    }
    shown := Some(seen);
    if first.value.Some? {
      return Ok((first.value.value, false)), seen, shown;
    }
    var created;
    created, seen := CreateDraft(gh, clock, timing, a);
    if created.Err? {
      return Err(created.error), seen, shown;
    }
    return Ok((created.value, true)), seen, shown;
  }

  /** What the checks of a release and of its tag, read one after the other in either order, say of both. */
  ghost predicate Checks(a: Announcement, release: Release, tagged: Server) {
    && Complete(a)
    && (tagged.tagCommit == Some(a.sourceCommit) ||
        (tagged.tagCommit.None? && release.draft && release.target == a.sourceCommit))
    && release.tag == TagOf(a) && release.name == TagOf(a) && release.body == a.files["notes.md"]
    && release.prerelease == !a.version.channel.Stable?
    && forall asset <- release.assets :: asset.name in ASSETS
  }

  /** Checks that passed on any earlier states hold of the current one. */
  lemma {:induction false} CheckedMatches(gh: GitHub, a: Announcement, seen: Server, tagged: Server)
    requires gh.Valid() && seen in gh.Trace() && tagged in gh.Trace() && seen.release.Some?
    requires Checks(a, seen.release.value, tagged)
    ensures Matches(a, gh.server)
  {
    hide GitHub.Valid, TagOf, WellFormedAssets, Complete;
    SeenIsPreserved(gh, seen);
    SeenIsPreserved(gh, tagged);
    SeenInOrder(gh, seen, tagged);
    CurrentIsWellFormed(gh);
  }

  /** Checks that a release that was found or created is this candidate's and the one its tag names. */
  method CheckRelease(gh: GitHub, clock: Clock, timing: Timing, a: Announcement, release: Release, createdHere: bool,
                      ghost seen: Server)
    returns (r: Result<(), Failure>)
    requires gh.Valid() && timing.delay > 0 && Complete(a) && gh.tag == TagOf(a) && seen in gh.Trace()
    requires seen.release == Some(release) || (createdHere && release in seen.spares)
    modifies clock
    ensures r.Ok? ==> seen.release == Some(release) && Matches(a, gh.server)
    ensures gh.reliable && Unambiguous(gh.server) && gh.server.release == Some(release) && Matches(a, gh.server) ==> r.Ok?
  {
    hide GitHub.Valid, TagOf, WellFormed, Preserves;
    var tagged := gh.Observe();
    if tagged.Err? {
      return Err(tagged.error);
    }
    var agrees := tagged.value.tagCommit == Some(a.sourceCommit) ||
                  (tagged.value.tagCommit.None? && release.draft && release.target == a.sourceCommit);
    if !agrees || release.tag != gh.tag || release.name != gh.tag || release.body != a.files["notes.md"] ||
       release.prerelease != !a.version.channel.Stable? {
      return Err(Conflict);
    }
    if createdHere {
      // The upload command resolves a draft by tag, so the tag must show it
      var visible, latest := AwaitRelease(gh, clock, timing, None, (item: Release) => item.id == release.id);
      if visible.Err? {
        return Err(visible.error);
      }
      if visible.value.None? || visible.value.value.id != release.id {
        return Err(TagInvisible);
      }
      SeenId(gh, latest);
      if release in seen.spares {
        OwnIsNoSpare(gh, seen, release);
      }
    }
    if !(forall asset <- release.assets :: asset.name in ASSETS) {
      return Err(UnexpectedAsset);
    }
    CheckedMatches(gh, a, seen, tagged.value);
    return Ok(());
  }

  lemma {:induction false} CreatedResumable(a: Announcement, s: Server)
    requires WellFormed(s) && Resumable(a, s) && Complete(a)
    ensures Resumable(a, Created(s, DraftOf(a)))
    ensures s.release.None? ==> Matches(a, Created(s, DraftOf(a)))
  {
    hide TagOf;
  }

  lemma {:induction false} ResumableAgrees(a: Announcement, s: Server)
    requires Resumable(a, s)
    ensures TagAgrees(a, s) && (s.release.Some? ==> Matches(a, s))
  {
    hide TagOf;
  }

  /** Finds or creates the release and checks that it is this candidate's. */
  method OpenRelease(gh: GitHub, clock: Clock, timing: Timing, a: Announcement)
    returns (r: Result<Release, Failure>, ghost seen: Server, ghost shown: Option<Server>)
    requires gh.Valid() && timing.delay > 0 && Complete(a) && gh.tag == TagOf(a)
    modifies gh`server, gh`history, gh`creates, clock
    ensures gh.Valid() && old(gh.Trace()) <= gh.Trace() && gh.creates <= old(gh.creates) + 1
    ensures gh.server == old(gh.server) || gh.server == Created(old(gh.server), DraftOf(a))
    ensures gh.server != old(gh.server) ==> gh.creates == old(gh.creates) + 1
    ensures shown.Some? ==> shown.value in old(gh.Trace())
    ensures gh.server != old(gh.server) ==> shown.Some? && shown.value.release.None?
    ensures gh.server.spares != old(gh.server.spares) <==> Missed(old(gh.server), shown) && gh.server != old(gh.server)
    ensures r.Ok? ==> seen in gh.Trace() && seen.release == Some(r.value) && Matches(a, gh.server)
    ensures Resumable(a, old(gh.server)) ==> Resumable(a, gh.server)
    ensures gh.reliable && !Unambiguous(old(gh.server)) ==> r == Err(Ambiguous) && gh.server == old(gh.server)
    ensures gh.reliable && Unambiguous(old(gh.server)) && Resumable(a, old(gh.server)) ==> r.Ok?
    ensures gh.reliable && r.Ok? ==> seen.release == gh.server.release && Unambiguous(gh.server)
  {
    hide GitHub.Valid, DraftOf, Complete, TagOf, Preserves, Created, Resumable, Matches, TagAgrees, Unambiguous;
    CurrentIsWellFormed(gh);
    ghost var start := gh.server;
    if Resumable(a, start) {
      CreatedResumable(a, start);
      ResumableAgrees(a, start);
    }
    var found;
    found, seen, shown := FindOrCreate(gh, clock, timing, a);
    if found.Err? {
      return Err(found.error), seen, shown;
    }
    var checked := CheckRelease(gh, clock, timing, a, found.value.0, found.value.1, seen);
    if checked.Err? {
      return Err(checked.error), seen, shown;
    }
    return Ok(found.value.0), seen, shown;
  }

  ghost predicate FirstVerified(a: Announcement, s: Server, k: nat) {
    k <= |ASSETS| && forall i | 0 <= i < k :: Verified(a, s, ASSETS[i])
  }

  lemma {:induction false} FirstVerifiedStays(a: Announcement, s: Server, t: Server, k: nat)
    requires FirstVerified(a, s, k) && Preserves(TagOf(a), s, t)
    ensures FirstVerified(a, t, k)
  {
    forall i | 0 <= i < k ensures Verified(a, t, ASSETS[i]) {
      VerifiedStays(a, s, t, ASSETS[i]);
    }
  }

  lemma {:induction false} NoneVerified(a: Announcement, s: Server)
    ensures FirstVerified(a, s, 0)
  {
  }

  lemma {:induction false} NextVerified(a: Announcement, s: Server, k: nat)
    requires k < |ASSETS| && FirstVerified(a, s, k) && Verified(a, s, ASSETS[k])
    ensures FirstVerified(a, s, k + 1)
  {
  }

  lemma {:induction false} LastVerified(a: Announcement, s: Server)
    requires FirstVerified(a, s, |ASSETS|)
    ensures AllVerified(a, s)
  {
  }

  lemma {:induction false} KeptReflexive(a: Announcement, s: Server)
    requires Matches(a, s)
    ensures Kept(a, s, s)
  {
  }

  lemma {:induction false} KeptTransitive(a: Announcement, s: Server, t: Server, u: Server)
    requires Kept(a, s, t) && Kept(a, t, u)
    ensures Kept(a, s, u)
  {
  }

  /** Brings every expected asset to the candidate's bytes. */
  method ReconcileAssets(gh: GitHub, clock: Clock, timing: Timing, a: Announcement, initial: Release, ghost seen0: Server)
    returns (r: Result<Release, Failure>, ghost seen: Server)
    requires gh.Valid() && timing.delay > 0 && Matches(a, gh.server) && gh.tag == TagOf(a)
    requires seen0 in gh.Trace() && seen0.release == Some(initial)
    requires gh.reliable ==> seen0.release == gh.server.release && Unambiguous(gh.server)
    modifies gh`server, gh`history, gh`uploads, clock
    ensures gh.Valid() && old(gh.Trace()) <= gh.Trace() && Kept(a, old(gh.server), gh.server)
    ensures gh.uploads <= old(gh.uploads) + |ASSETS|
    ensures r.Ok? ==> && seen in gh.Trace() && seen.release == Some(r.value) && AllVerified(a, gh.server)
                      && (gh.reliable ==> seen.release == gh.server.release)
    ensures gh.reliable && OnlyExpectedBytes(a, old(gh.server)) ==> r.Ok?
  {
    hide Preserves, Verified, Matches, OnlyExpectedBytes, TagOf, Print, WellFormed, GitHub.Valid, FirstVerified, AllVerified;
    var release := initial;
    seen := seen0;
    ghost var start := gh.server;
    NoneVerified(a, start);
    KeptReflexive(a, start);
    for k := 0 to |ASSETS|
      invariant gh.Valid() && old(gh.Trace()) <= gh.Trace() && Kept(a, start, gh.server)
      invariant seen in gh.Trace() && seen.release == Some(release)
      invariant gh.reliable ==> seen.release == gh.server.release && Unambiguous(gh.server)
      invariant gh.uploads <= old(gh.uploads) + k
      invariant FirstVerified(a, gh.server, k)
    {
      CurrentIsWellFormed(gh);
      ghost var before := gh.server;
      var name := ASSETS[k];
      assert name in ASSETS;
      var asset;
      asset, seen := ReconcileAsset(gh, clock, timing, a, release, name, seen);
      KeptTransitive(a, start, before, gh.server);
      if asset.Err? {
        return Err(asset.error), seen;
      }
      release := asset.value;
      SeenIsPreserved(gh, before);
      FirstVerifiedStays(a, before, gh.server, k);
      NextVerified(a, gh.server, k);
    }
    LastVerified(a, gh.server);
    return Ok(release), seen;
  }

  /** Every release, those of this tag included. */
  function Released(gh: GitHub, seen: Server): seq<Summary> {
    gh.others + Summaries(gh.tag, seen.spares) + if seen.release.None? then [] else Summaries(gh.tag, [seen.release.value])
  }

  function Summaries(tag: string, releases: seq<Release>): (summaries: seq<Summary>)
    ensures forall item <- summaries :: item.tag == tag
  {
    if releases == [] then []
    else [Summary(tag, releases[0].draft, releases[0].prerelease)] + Summaries(tag, releases[1..])
  }

  /** A Stable at or above every other published Stable release. */
  ghost predicate IsLatest(a: Announcement, releases: seq<Summary>) {
    a.version.channel.Stable? && forall v <- StableVersions(releases) :: Compare(a.version, v) >= 0
  }

  /** A listing that already shows this release decides as one that does not. */
  lemma {:induction false} OwnReleaseIsNotNewer(gh: GitHub, seen: Server, a: Announcement)
    requires gh.tag == TagOf(a) && Valid(a.version)
    ensures IsLatest(a, Released(gh, seen)) <==> IsLatest(a, gh.others)
  {
    var listed := Released(gh, seen);
    StableVersionsAreReleased(gh.others);
    StableVersionsAreReleased(listed);
    forall v | v in StableVersions(listed) && v !in StableVersions(gh.others) ensures v == a.version {
      var item :| item in listed && item.tag == "v" + Print(v) && item !in gh.others;
      assert item.tag == gh.tag;
      assert item.tag[1..] == Print(v) && gh.tag[1..] == Print(a.version);
      ParsePrint(v);
      ParsePrint(a.version);
    }
    forall v | v in StableVersions(gh.others) ensures v in StableVersions(listed) {
      var item :| item in gh.others && !item.draft && !item.prerelease && item.tag == "v" + Print(v);
      assert item in listed;
    }
    Trichotomy(a.version, a.version);
  }

  lemma PublishedIsAnnounced(a: Announcement, s: Server)
    requires WellFormed(s) && Matches(a, s) && AllVerified(a, s)
    ensures s.release.Some?
    ensures !s.release.value.draft && s.tagCommit == Some(a.sourceCommit) ==> Announced(a, s)
  {
    hide AllVerified, TagOf, WellFormed;
    VerifiedIsExact(a, s);
  }

  /** Publishes a release with verified assets and verifies the result. */
  method FinishRelease(gh: GitHub, clock: Clock, timing: Timing, a: Announcement, current: Release, ghost seen0: Server)
    returns (r: Result<Outcome, Failure>)
    requires gh.Valid() && timing.delay > 0 && gh.tag == TagOf(a) && Matches(a, gh.server) && AllVerified(a, gh.server)
    requires seen0 in gh.Trace() && seen0.release == Some(current) && Valid(a.version)
    requires gh.reliable ==> seen0.release == gh.server.release
    modifies gh`server, gh`history, gh`updates, clock
    ensures gh.Valid() && old(gh.Trace()) <= gh.Trace() && gh.updates <= old(gh.updates) + 1
    ensures Matches(a, gh.server) && AllVerified(a, gh.server) && gh.server.spares == old(gh.server.spares)
    ensures r.Ok? ==> && Announced(a, gh.server)
                      && (r.value.latest <==> IsLatest(a, gh.others))
                      && (r.value.latest ==> gh.server.latest == Some(gh.tag))
    ensures gh.reliable ==> r.Ok?
  {
    hide Preserves, AllVerified, Verified, Matches, TagOf, Print, WellFormed, GitHub.Valid, StableVersions, Compare;
    hide Announced, Released;
    var listed := gh.Observe();
    if listed.Err? {
      return Err(listed.error);
    }
    OwnReleaseIsNotNewer(gh, listed.value, a);
    var versions := StableVersions(Released(gh, listed.value));
    var latest := a.version.channel.Stable? && forall v <- versions :: Compare(a.version, v) >= 0;
    var published := Publish(gh, a, current, latest, seen0);
    if published.Err? {
      return Err(published.error);
    }
    SeenId(gh, seen0);
    var final, seen := AwaitOwn(gh, clock, timing, current.id,
                                (item: Release) => !item.draft && |item.assets| == |ASSETS|);
    if final.Err? {
      return Err(final.error);
    }
    CurrentIsWellFormed(gh);
    PublishedIsAnnounced(a, gh.server);
    var checked := AssertFinal(gh, clock, timing, a, final.value, seen);
    if checked.Err? {
      return Err(checked.error);
    }
    if latest {
      var confirmed := AwaitLatest(gh, clock, timing);
      if confirmed.Err? {
        return Err(confirmed.error);
      }
      if !confirmed.value {
        return Err(LatestUnconfirmed);
      }
    }
    return Ok(Announcing(latest));
  }

  datatype Outcome = Announcing(latest: bool)

  /** What a run leaves behind, however it ends. */
  ghost predicate Left(a: Announcement, before: Server, after: Server) {
    && Preserves(TagOf(a), before, after)
    && (Resumable(a, before) ==> Resumable(a, after))
    && (after.release.Some? && !after.release.value.draft ==>
          AllVerified(a, after) || (before.release.Some? && !before.release.value.draft))
  }

  /** The announcement is complete, and marked as latest exactly for the highest Stable. */
  ghost predicate Succeeded(gh: GitHub, a: Announcement, outcome: Outcome)
    reads gh`server
  {
    && Announced(a, gh.server)
    && (outcome.latest <==> IsLatest(a, gh.others))
    && (outcome.latest ==> gh.server.latest == Some(gh.tag))
  }

  lemma LeftAlone(a: Announcement, s: Server)
    requires Preserves(TagOf(a), s, s)
    ensures Left(a, s, s)
  {}

  lemma {:induction false} LeftOpen(a: Announcement, s: Server, t: Server)
    requires Complete(a) && (t == s || t == Created(s, DraftOf(a)))
    requires Preserves(TagOf(a), s, t) && (Resumable(a, s) ==> Resumable(a, t))
    ensures Left(a, s, t)
    ensures t.spares != s.spares ==> t != s && s.release.Some?
  {
    hide Preserves, Resumable, AllVerified, DraftOf, TagOf;
  }

  lemma {:induction false} LeftTransitive(a: Announcement, s: Server, t: Server, u: Server)
    requires Left(a, s, t) && Left(a, t, u) && Preserves(TagOf(a), s, u)
    ensures Left(a, s, u)
  {
    hide Preserves, Resumable, AllVerified, TagOf;
    if AllVerified(a, t) {
      AllVerifiedStays(a, t, u);
    }
  }

  /** Brings an opened release to the announcement: its assets first, then its publication. */
  method AnnounceRelease(gh: GitHub, clock: Clock, timing: Timing, a: Announcement, release: Release, ghost seen0: Server)
    returns (r: Result<Outcome, Failure>)
    requires gh.Valid() && timing.delay > 0 && gh.tag == TagOf(a) && Matches(a, gh.server) && Valid(a.version)
    requires seen0 in gh.Trace() && seen0.release == Some(release)
    requires gh.reliable ==> seen0.release == gh.server.release && Unambiguous(gh.server)
    modifies gh`server, gh`history, gh`updates, gh`uploads, clock
    ensures gh.Valid() && old(gh.Trace()) <= gh.Trace()
    ensures gh.updates <= old(gh.updates) + 1 && gh.uploads <= old(gh.uploads) + |ASSETS|
    ensures Left(a, old(gh.server), gh.server) && gh.server.spares == old(gh.server.spares)
    ensures r.Ok? ==> Succeeded(gh, a, r.value)
    ensures gh.reliable && Resumable(a, old(gh.server)) ==> r.Ok?
  {
    hide Preserves, AllVerified, OnlyExpectedBytes, IsLatest, TagOf, Print, WellFormed, Resumable, GitHub.Valid;
    hide Matches, Kept, Verified, Announced, Valid, Left, Unambiguous;
    CurrentIsWellFormed(gh);
    ghost var start := gh.server;
    if Resumable(a, start) {
      MatchingRelease(a, start);
      ResumableBytes(a, start);
    }
    var current, seen := ReconcileAssets(gh, clock, timing, a, release, seen0);
    SeenIsPreserved(gh, start);
    KeptLeft(a, start, gh.server);
    if current.Err? {
      return Err(current.error);
    }
    CurrentIsWellFormed(gh);
    r := FinishRelease(gh, clock, timing, a, current.value, seen);
    SeenIsPreserved(gh, start);
    CurrentIsWellFormed(gh);
    VerifiedLeft(a, start, gh.server);
  }

  lemma MatchingRelease(a: Announcement, s: Server)
    requires Matches(a, s)
    ensures s.release.Some?
  {}

  /** Work on the assets leaves a draft a draft, and a resumable server resumable. */
  lemma {:induction false} KeptLeft(a: Announcement, s: Server, t: Server)
    requires Kept(a, s, t) && Preserves(TagOf(a), s, t)
    ensures Left(a, s, t) && t.spares == s.spares && Matches(a, t)
  {
    hide Preserves, TagOf, OnlyExpectedBytes, AllVerified, Matches;
    MatchingRelease(a, s);
    MatchingRelease(a, t);
    if Resumable(a, s) && !s.release.value.draft {
      AllVerifiedStays(a, s, t);
    }
  }

  lemma {:induction false} VerifiedLeft(a: Announcement, s: Server, t: Server)
    requires WellFormed(t) && Matches(a, t) && AllVerified(a, t) && Preserves(TagOf(a), s, t)
    ensures Left(a, s, t)
  {
    hide Preserves, TagOf, OnlyExpectedBytes, AllVerified, Matches;
    MatchingRelease(a, t);
    VerifiedBytes(a, t);
  }

  /**
   * Announces a candidate. However a run ends, it created and updated at most once, uploaded each asset at most once,
   * deleted no uploaded asset and cleared the draft flag only over five verified assets. Success means the announcement
   * is complete. From whatever interrupted runs of the same candidate left behind, a run without failures succeeds,
   * unless one of them created a second draft because it missed the first: then it fails and changes nothing.
   */
  method ReconcileRelease(gh: GitHub, clock: Clock, timing: Timing, a: Announcement)
    returns (r: Result<Outcome, Failure>, ghost shown: Option<Server>, ghost created: bool)
    requires gh.Valid() && gh.creates == gh.updates == gh.uploads == 0 && gh.tag == TagOf(a)
    modifies gh`server, gh`history, gh`creates, gh`updates, gh`uploads, clock
    ensures gh.Valid() && gh.creates <= 1 && gh.updates <= 1 && gh.uploads <= |ASSETS|
    ensures Left(a, old(gh.server), gh.server)
    ensures r.Ok? ==> Succeeded(gh, a, r.value)
    ensures shown.Some? ==> shown.value in old(gh.Trace())
    ensures created ==> gh.creates == 1
    ensures gh.server.spares != old(gh.server.spares) <==> Missed(old(gh.server), shown) && created
    ensures (gh.reliable && Resumable(a, old(gh.server)) && Announceable(a)
             && timing.timeout >= 0 && timing.delay > 0) ==>
              if Unambiguous(old(gh.server)) then r.Ok? else r == Err(Ambiguous) && gh.server == old(gh.server)
  {
    hide Preserves, AllVerified, OnlyExpectedBytes, IsLatest, TagOf, Print, WellFormed, Resumable, GitHub.Valid;
    hide Matches, Kept, Verified, Announced, IsCommit, Complete, Valid, DraftOf, Left, Unambiguous, Succeeded;
    CurrentIsWellFormed(gh);
    ghost var start := gh.server;
    shown, created := None, false;
    SeenIsPreserved(gh, start);
    LeftAlone(a, start);
    if !Announceable(a) {
      return Err(NotAnnounceable), shown, created;
    }
    if timing.timeout < 0 || timing.delay <= 0 {
      return Err(BadDeadline), shown, created;
    }
    var found;
    ghost var seen;
    found, seen, shown := OpenRelease(gh, clock, timing, a);
    created := gh.server != start;
    SeenIsPreserved(gh, start);
    LeftOpen(a, start, gh.server);
    if found.Err? {
      return Err(found.error), shown, created;
    }
    ghost var between := gh.server;
    r := AnnounceRelease(gh, clock, timing, a, found.value, seen);
    SeenIsPreserved(gh, start);
    LeftTransitive(a, start, between, gh.server);
  }

  lemma {:induction false} ResumableBytes(a: Announcement, s: Server)
    requires Resumable(a, s) && s.release.Some?
    ensures OnlyExpectedBytes(a, s)
  {
  }

  lemma {:induction false} VerifiedBytes(a: Announcement, s: Server)
    requires WellFormed(s) && Matches(a, s) && AllVerified(a, s)
    ensures OnlyExpectedBytes(a, s)
  {
    forall asset | asset in s.release.value.assets
      ensures asset.id in s.contents && s.contents[asset.id] == a.files[asset.name]
    {
      VerifiedAssetIsExact(a, s, asset);
    }
  }

  /**
   * Any number of interrupted runs, each with reads that lag as far as they like, then one without failures: the
   * announcement is complete, unless an interrupted run missed the draft of an earlier one.
   */
  method ResumeUntilReliable(tag: string, others: seq<Summary>, clock: Clock, timing: Timing, a: Announcement, interrupted: nat)
    returns (r: Result<Outcome, Failure>, ghost server: Server, ghost missed: bool)
    requires tag == TagOf(a) && Announceable(a) && timing.timeout >= 0 && timing.delay > 0
    modifies clock
    ensures r.Ok? ==> Announced(a, server)
    ensures r.Err? ==> r.error.Ambiguous? && missed && !Unambiguous(server)
  {
    var gh := new GitHub(tag, Server(None, [], None, map[], None, 0), others);
    missed := false;
    for run := 0 to interrupted
      invariant gh.Valid() && gh.tag == tag && Resumable(a, gh.server)
      invariant !missed ==> gh.server.spares == []
    {
      gh.StartRun(false);
      ghost var before := gh.server;
      var _, shown, created := ReconcileRelease(gh, clock, timing, a);
      missed := missed || (Missed(before, shown) && created);
    }
    gh.StartRun(true);
    ghost var shown, created;
    r, shown, created := ReconcileRelease(gh, clock, timing, a);
    server := gh.server;
  }
}
