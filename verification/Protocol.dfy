/**
 * Preparing and publishing candidates over one append-only registry. Any number of candidates may be outstanding,
 * each prepared against an earlier state of the registry, and they publish later in any order.
 */
module Protocol {
  import opened Wrappers
  import opened Versions
  import opened Publication
  import Planning

  datatype Entry = Entry(version: Version, fingerprint: Fingerprint, tarball: Digest, time: Option<int>)

  /** The published versions in publication order, and the distribution tags. */
  datatype Registry = Registry(log: seq<Entry>, tags: map<Tag, Version>)

  function VersionsOf(log: seq<Entry>): (versions: seq<Version>)
    ensures |versions| == |log|
    ensures forall i | 0 <= i < |log| :: versions[i] == log[i].version
  {
    seq(|log|, i requires 0 <= i < |log| => log[i].version)
  }

  function ContentsOf(log: seq<Entry>): (contents: map<Version, Fingerprint>)
    ensures forall v :: v in contents <==> v in VersionsOf(log)
  {
    if log == [] then map[]
    else
      var last := |log| - 1;
      assert VersionsOf(log) == VersionsOf(log[..last]) + [log[last].version];
      ContentsOf(log[..last])[log[last].version := log[last].fingerprint]
  }

  function Find(log: seq<Entry>, version: Version): Option<Entry> {
    if log == [] then None
    else if log[0].version == version then Some(log[0]) else Find(log[1..], version)
  }

  // ----- preparation -----

  datatype Release = Release(version: Version, channel: Channel, source: Option<Version>)

  datatype Preparation = Skipped(unchangedFrom: Version) | Ready(candidate: Candidate)

  datatype PrepareError = Unplanned(problem: Planning.PlanError) | NotReleaseSource | AlreadyExists | Refused(reason: PublishError)

  /** A nightly build plans its version from the source, any other candidate takes the reviewed source version. */
  datatype Build =
    | NightlyBuild(current: Version, pendingTypes: seq<string>, releaseTypes: seq<string>,
                   recorded: Planning.ReleaseBase, date: nat, number: nat)
    | ReviewedBuild(version: Version)

  function ReleaseOf(build: Build, published: seq<Version>): Result<Release, PrepareError> {
    match build
    case NightlyBuild(current, pendingTypes, releaseTypes, recorded, date, number) =>
      (match Planning.PlanNightly(current, pendingTypes, releaseTypes, recorded, published, date, number)
       case Err(reason) => Err(Unplanned(reason))
       case Ok(version) => Ok(Release(version, Nightly, Some(current))))
    case ReviewedBuild(version) =>
      :- Need(version.major >= 1000 && version.channel.Stable?, NotReleaseSource);
      Ok(Release(version, Stable, None))
  }

  predicate PublishedAfter(a: Option<Entry>, b: Option<Entry>) {
    a.Some? && b.Some? && a.value.time.Some? && b.value.time.Some? && a.value.time.value > b.value.time.value
  }

  /** The published Stable of a nightly's source, unless a nightly of the line may have been published after it. */
  function PublishedSource(release: Release, log: seq<Entry>, baseline: Option<Version>): Option<Entry> {
    if !release.channel.Nightly? || release.source.None? then None
    else
      var source := Find(log, release.source.value);
      if source.None? || !source.value.version.channel.Stable? then None
      else if baseline.Some? && !PublishedAfter(source, Find(log, baseline.value)) then None
      else source
  }

  function PrepareCandidate(release: Release, log: seq<Entry>, fingerprint: Fingerprint, tarball: Digest)
    : Result<Preparation, PrepareError>
  {
    var published := VersionsOf(log);
    :- Need(release.version !in published, AlreadyExists);
    match SelectBaseline(published, release.version, release.channel)
    case Err(reason) => Err(Refused(reason))
    case Ok(baseline) =>
      var reviewed := if baseline.Some? then Find(log, baseline.value) else None;
      var source := PublishedSource(release, log, baseline);
      if release.channel.Stable? && !(reviewed.Some? && reviewed.value.fingerprint == fingerprint) then
        Err(Refused(ContentDiffers))
      else if !release.channel.Stable? && reviewed.Some? && reviewed.value.fingerprint == fingerprint then
        Ok(Skipped(reviewed.value.version))
      else if source.Some? && source.value.fingerprint == fingerprint then
        Ok(Skipped(source.value.version))
      else
        Ok(Ready(Candidate(release.version, release.channel, fingerprint, tarball, baseline)))
  }

  // ----- publication -----

  datatype Effect = Lost | Stored

  datatype Outcome =
    | Served | DifferentBytes | SupersededBy(nightly: Version) | RefusedFor(reason: PublishError) | Submitted(tag: Tag)

  /** One publish run: it reads the registry, checks the baseline and uploads at most once. An upload may be lost. */
  function PublishRun(registry: Registry, candidate: Candidate, budget: nat, effect: Effect, time: int)
    : (Registry, Outcome)
  {
    var log := registry.log;
    var served := Find(log, candidate.version);
    if served.Some? then
      (registry, if served.value.tarball == candidate.tarball then Served else DifferentBytes)
    else
      match AssertPublishBaseline(candidate, VersionsOf(log), ContentsOf(log), budget)
      case Err(reason) => (registry, RefusedFor(reason))
      case Ok(Superseded(nightly)) => (registry, SupersededBy(nightly))
      case Ok(Proceed) =>
        var tag := UploadTag(candidate, registry.tags);
        (if effect.Lost? then registry else Store(registry, candidate, tag, time), Submitted(tag))
  }

  function Store(registry: Registry, candidate: Candidate, tag: Tag, time: int): Registry {
    Registry(registry.log + [Entry(candidate.version, candidate.fingerprint, candidate.tarball, Some(time))],
             registry.tags[tag := candidate.version])
  }

  // ----- runs -----

  /** A candidate with the length of the publication log its baseline was selected from. */
  datatype Prepared = Prepared(candidate: Candidate, reviewed: nat)

  datatype State = State(registry: Registry, prepared: set<Prepared>)

  datatype Step =
    | Prepare(build: Build, planned: nat, reviewed: nat, fingerprint: Fingerprint, tarball: Digest)
    | Publish(prepared: Prepared, budget: nat, effect: Effect, time: int)

  /**
   * The two registry reads of a preparation see earlier states of the log, no older than `start`, where the
   * pipeline began. A step that is not enabled changes nothing.
   */
  function Do(start: nat, state: State, step: Step): State {
    var log := state.registry.log;
    match step
    case Prepare(build, planned, reviewed, fingerprint, tarball) =>
      if !(start <= planned <= reviewed <= |log|) then state
      else
        (match ReleaseOf(build, VersionsOf(log[..planned]))
         case Err(_) => state
         case Ok(release) =>
           match PrepareCandidate(release, log[..reviewed], fingerprint, tarball)
           case Ok(Ready(candidate)) => state.(prepared := state.prepared + {Prepared(candidate, reviewed)})
           case _ => state)
    case Publish(prepared, budget, effect, time) =>
      if prepared !in state.prepared then state
      else state.(registry := PublishRun(state.registry, prepared.candidate, budget, effect, time).0)
  }

  function Run(start: nat, state: State, steps: seq<Step>): State {
    if steps == [] then state
    else Do(start, Run(start, state, steps[..|steps| - 1]), steps[|steps| - 1])
  }

  // ----- lookups -----

  predicate Distinct(log: seq<Entry>) {
    forall i, j | 0 <= i < j < |log| :: log[i].version != log[j].version
  }

  lemma {:induction false} FindSound(log: seq<Entry>, version: Version)
    ensures match Find(log, version)
            case Some(e) => e in log && e.version == version
            case None => version !in VersionsOf(log)
  {
    if log != [] && log[0].version != version {
      FindSound(log[1..], version);
      assert VersionsOf(log) == [log[0].version] + VersionsOf(log[1..]);
    }
  }

  lemma {:induction false} ContentsAt(log: seq<Entry>, i: nat)
    requires Distinct(log) && i < |log|
    ensures log[i].version in ContentsOf(log) && ContentsOf(log)[log[i].version] == log[i].fingerprint
  {
    var last := |log| - 1;
    if i < last {
      ContentsAt(log[..last], i);
      assert log[..last][i] == log[i];
    }
  }

  /** A published version keeps its content while the log grows. */
  lemma {:induction false} ContentsOfPrefix(log: seq<Entry>, n: nat, version: Version)
    requires Distinct(log) && n <= |log| && version in VersionsOf(log[..n])
    ensures version in ContentsOf(log) && version in ContentsOf(log[..n])
    ensures ContentsOf(log)[version] == ContentsOf(log[..n])[version]
  {
    var i :| 0 <= i < n && VersionsOf(log[..n])[i] == version;
    ContentsAt(log, i);
    ContentsAt(log[..n], i);
  }

  // ----- what a preparation leaves behind -----

  /** What preparation established about a candidate in the log it was reviewed against. */
  ghost predicate Faithful(candidate: Candidate, log: seq<Entry>) {
    && (candidate.channel.Nightly? || candidate.channel.Stable?)
    && candidate.version.channel == candidate.channel
    && candidate.version !in VersionsOf(log)
    && SelectBaseline(VersionsOf(log), candidate.version, candidate.channel) == Ok(candidate.baseline)
    && (candidate.baseline.Some? ==>
        && candidate.baseline.value in ContentsOf(log)
        && (candidate.channel.Stable? <==> ContentsOf(log)[candidate.baseline.value] == candidate.fingerprint))
  }

  lemma {:induction false} BaselineIsPublished(published: seq<Version>, version: Version, channel: Channel)
    requires SelectBaseline(published, version, channel).Ok?
    ensures version.channel == channel && !HasNewer(published, version)
    ensures var baseline := SelectBaseline(published, version, channel).value;
            if channel.Stable? then
              && baseline.Some?
              && IsNewestBelow(published, version, NightliesOf(version), baseline.value)
            else if baseline.Some? then
              IsNewestBelow(published, version, StreamOf(version), baseline.value)
            else
              forall v <- published :: !(SameStream(v, version) && Below(v, version))
  {
    NewestBelowIsGreatest(published, version, NightliesOf(version));
    NewestBelowIsGreatest(published, version, StreamOf(version));
  }

  lemma {:induction false} PreparedIsFaithful(release: Release, log: seq<Entry>, fingerprint: Fingerprint, tarball: Digest)
    requires Distinct(log) && (release.channel.Nightly? || release.channel.Stable?)
    requires PrepareCandidate(release, log, fingerprint, tarball).Ok?
    requires PrepareCandidate(release, log, fingerprint, tarball).value.Ready?
    ensures Faithful(PrepareCandidate(release, log, fingerprint, tarball).value.candidate, log)
  {
    var candidate := PrepareCandidate(release, log, fingerprint, tarball).value.candidate;
    BaselineIsPublished(VersionsOf(log), release.version, release.channel);
    if candidate.baseline.Some? {
      FindSound(log, candidate.baseline.value);
      var e := Find(log, candidate.baseline.value).value;
      var i :| 0 <= i < |log| && log[i] == e;
      ContentsAt(log, i);
    }
  }

  /** The published Stable a nightly was built from, while no nightly of the line was published after it. */
  ghost predicate IsServedSource(release: Release, log: seq<Entry>, baseline: Option<Version>, e: Entry) {
    && release.source == Some(e.version) && e.version.channel.Stable?
    && (baseline.Some? ==> exists b <- log :: b.version == baseline.value && PublishedAfter(Some(e), Some(b)))
  }

  lemma {:induction false} FindComplete(log: seq<Entry>, e: Entry)
    requires Distinct(log) && e in log
    ensures Find(log, e.version) == Some(e)
  {
    FindSound(log, e.version);
    var i :| 0 <= i < |log| && log[i] == e;
    assert VersionsOf(log)[i] == e.version;
  }

  /** A nightly preparation is skipped exactly when its content is already served: by its baseline or its source. */
  lemma {:induction false} PreparationSkips(release: Release, log: seq<Entry>, fingerprint: Fingerprint, tarball: Digest)
    requires Distinct(log) && release.channel.Nightly? && release.version !in VersionsOf(log)
    requires SelectBaseline(VersionsOf(log), release.version, Nightly).Ok?
    ensures var baseline := SelectBaseline(VersionsOf(log), release.version, Nightly).value;
            var prepared := PrepareCandidate(release, log, fingerprint, tarball);
            && prepared.Ok?
            && (prepared.value.Skipped? <==>
                exists e <- log :: e.fingerprint == fingerprint &&
                                   (baseline == Some(e.version) || IsServedSource(release, log, baseline, e)))
  {
    var baseline := SelectBaseline(VersionsOf(log), release.version, Nightly).value;
    if baseline.Some? {
      FindSound(log, baseline.value);
      forall b | b in log && b.version == baseline.value ensures Find(log, baseline.value) == Some(b) {
        FindComplete(log, b);
      }
    }
    if release.source.Some? {
      FindSound(log, release.source.value);
      forall e | e in log && e.version == release.source.value ensures Find(log, release.source.value) == Some(e) {
        FindComplete(log, e);
      }
    }
    BaselineIsPublished(VersionsOf(log), release.version, Nightly);
  }

  // ----- what an upload guarantees -----

  /** A nightly that may proceed differs in content from the nightly just below it. */
  lemma {:induction false} ProceedDiffersFromPredecessor(candidate: Candidate, log: seq<Entry>, reviewed: nat, budget: nat, p: Version)
    requires Distinct(log) && reviewed <= |log| && Faithful(candidate, log[..reviewed])
    requires candidate.version !in VersionsOf(log) && candidate.channel.Nightly?
    requires AssertPublishBaseline(candidate, VersionsOf(log), ContentsOf(log), budget) == Ok(Proceed)
    requires IsPredecessor(VersionsOf(log), candidate.version, p)
    ensures ContentsOf(log)[p] != candidate.fingerprint
  {
    if InWindow(candidate, p) {
      ProceedReadsPredecessor(candidate, VersionsOf(log), ContentsOf(log), budget, p);
    } else {
      var baseline := candidate.baseline.value;
      BaselineIsPublished(VersionsOf(log[..reviewed]), candidate.version, candidate.channel);
      ContentsOfPrefix(log, reviewed, baseline);
      Trichotomy(baseline, p);
      assert baseline == p;
    }
  }

  /** A Stable that may proceed carries the content of the newest published nightly of its core. */
  lemma {:induction false} ProceedPromotesNewestNightly(candidate: Candidate, log: seq<Entry>, reviewed: nat, budget: nat)
    requires Distinct(log) && reviewed <= |log| && Faithful(candidate, log[..reviewed])
    requires candidate.channel.Stable?
    requires AssertPublishBaseline(candidate, VersionsOf(log), ContentsOf(log), budget) == Ok(Proceed)
    ensures candidate.baseline.Some?
    ensures var n := candidate.baseline.value;
            && n in VersionsOf(log) && NightlyOf(n, candidate.version)
            && ContentsOf(log)[n] == candidate.fingerprint
            && forall v <- VersionsOf(log) | NightlyOf(v, candidate.version) :: v == n || Below(v, n)
  {
    BaselineIsPublished(VersionsOf(log[..reviewed]), candidate.version, candidate.channel);
    BaselineIsPublished(VersionsOf(log), candidate.version, candidate.channel);
    ContentsOfPrefix(log, reviewed, candidate.baseline.value);
    forall v | v in VersionsOf(log) && NightlyOf(v, candidate.version) ensures Below(v, candidate.version) {
      NightlyBelowStable(v);
    }
  }

  lemma {:induction false} NightlyBelowStable(v: Version)
    requires !v.channel.Stable?
    ensures Below(v, StableOf(v))
  {
  }

  // ----- invariants of every run -----

  /** From position `start` on, every publication is above everything published before on its channel and line. */
  ghost predicate IncreasingFrom(start: nat, log: seq<Entry>) {
    forall i, j | 0 <= i < j < |log| && start <= j && SameStream(log[i].version, log[j].version) ::
      Below(log[i].version, log[j].version)
  }

  ghost predicate FaithfulAt(start: nat, prepared: Prepared, log: seq<Entry>) {
    start <= prepared.reviewed <= |log| && Faithful(prepared.candidate, log[..prepared.reviewed])
  }

  ghost predicate Inv(start: nat, state: State) {
    var log := state.registry.log;
    && start <= |log| && Distinct(log) && IncreasingFrom(start, log)
    && forall p <- state.prepared :: FaithfulAt(start, p, log)
  }

  /** A registry as the pipeline finds it: any history of distinct versions and no candidates yet. */
  predicate Begins(start: nat, state: State) {
    start == |state.registry.log| && state.prepared == {}
  }

  lemma {:induction false} ReleaseChannel(build: Build, published: seq<Version>)
    requires ReleaseOf(build, published).Ok?
    ensures var channel := ReleaseOf(build, published).value.channel; channel.Nightly? || channel.Stable?
  {
  }

  lemma {:induction false} PrepareKeepsInv(start: nat, state: State, step: Step)
    requires Inv(start, state) && step.Prepare?
    ensures Inv(start, Do(start, state, step)) && Do(start, state, step).registry == state.registry
  {
    var log := state.registry.log;
    var next := Do(start, state, step);
    if next != state {
      var release := ReleaseOf(step.build, VersionsOf(log[..step.planned])).value;
      ReleaseChannel(step.build, VersionsOf(log[..step.planned]));
      PreparedIsFaithful(release, log[..step.reviewed], step.fingerprint, step.tarball);
    }
  }

  /** The entry an upload stores. */
  function EntryOf(candidate: Candidate, time: int): Entry {
    Entry(candidate.version, candidate.fingerprint, candidate.tarball, Some(time))
  }

  /** A publish run changes the registry only by storing a missing candidate that may proceed. */
  ghost predicate Uploads(registry: Registry, candidate: Candidate, budget: nat) {
    && candidate.version !in VersionsOf(registry.log)
    && AssertPublishBaseline(candidate, VersionsOf(registry.log), ContentsOf(registry.log), budget) == Ok(Proceed)
  }

  lemma {:induction false} PublishStores(registry: Registry, candidate: Candidate, budget: nat, effect: Effect, time: int)
    ensures var next := PublishRun(registry, candidate, budget, effect, time).0;
            if Uploads(registry, candidate, budget) && effect.Stored? then
              next == Store(registry, candidate, UploadTag(candidate, registry.tags), time)
            else next == registry
  {
    FindSound(registry.log, candidate.version);
    if Find(registry.log, candidate.version).Some? {
      var e := Find(registry.log, candidate.version).value;
      var i :| 0 <= i < |registry.log| && registry.log[i] == e;
      assert VersionsOf(registry.log)[i] == candidate.version;
    }
  }

  /** Every upload is the greatest version of its channel and line at that moment. */
  lemma {:induction false} UploadIsNewest(registry: Registry, candidate: Candidate, budget: nat, e: Entry)
    requires Uploads(registry, candidate, budget)
    requires e in registry.log && SameStream(e.version, candidate.version)
    ensures Below(e.version, candidate.version)
  {
    var i :| 0 <= i < |registry.log| && registry.log[i] == e;
    assert VersionsOf(registry.log)[i] == e.version;
    ProceedIsNewest(candidate, VersionsOf(registry.log), ContentsOf(registry.log), budget, e.version);
  }

  lemma {:induction false} StoreKeepsInv(start: nat, state: State, p: Prepared, budget: nat, time: int)
    requires Inv(start, state) && p in state.prepared && Uploads(state.registry, p.candidate, budget)
    ensures Inv(start, state.(registry := Store(state.registry, p.candidate, UploadTag(p.candidate, state.registry.tags), time)))
  {
    var log := state.registry.log;
    var grown := log + [EntryOf(p.candidate, time)];
    forall i | 0 <= i < |log| ensures log[i].version != p.candidate.version {
      assert VersionsOf(log)[i] == log[i].version;
    }
    forall i | 0 <= i < |log| && SameStream(log[i].version, p.candidate.version)
      ensures Below(log[i].version, p.candidate.version)
    {
      UploadIsNewest(state.registry, p.candidate, budget, log[i]);
    }
    forall q | q in state.prepared ensures FaithfulAt(start, q, grown) {
      assert FaithfulAt(start, q, log);
      assert grown[..q.reviewed] == log[..q.reviewed];
    }
  }

  lemma {:induction false} StepKeepsInv(start: nat, state: State, step: Step)
    requires Inv(start, state)
    ensures Inv(start, Do(start, state, step))
    ensures state.registry.log <= Do(start, state, step).registry.log
  {
    match step {
      case Prepare(_, _, _, _, _) =>
        PrepareKeepsInv(start, state, step);
      case Publish(p, budget, effect, time) =>
        PublishStores(state.registry, p.candidate, budget, effect, time);
        if p in state.prepared && Uploads(state.registry, p.candidate, budget) {
          StoreKeepsInv(start, state, p, budget, time);
        }
    }
  }

  lemma {:induction false} RunKeepsInv(start: nat, state: State, steps: seq<Step>)
    requires Begins(start, state) && Distinct(state.registry.log)
    ensures Inv(start, Run(start, state, steps))
  {
    if steps != [] {
      var last := |steps| - 1;
      RunKeepsInv(start, state, steps[..last]);
      StepKeepsInv(start, Run(start, state, steps[..last]), steps[last]);
    }
  }

  // ----- adjacent nightlies -----

  /** `a` and `b` are nightlies of one line with no nightly of that line between them in version order. */
  ghost predicate Adjacent(log: seq<Entry>, a: Entry, b: Entry) {
    && a in log && b in log && a.version.channel.Nightly? && SameStream(a.version, b.version)
    && Below(a.version, b.version)
    && forall e <- log | SameStream(e.version, b.version) :: !(Below(a.version, e.version) && Below(e.version, b.version))
  }

  ghost predicate AdjacentDiffer(log: seq<Entry>) {
    forall a, b | Adjacent(log, a, b) :: a.fingerprint != b.fingerprint
  }

  /** In a log that ends with an upload, only the pair with its predecessor is new. */
  lemma {:induction false} UploadDiffersFromNeighbour(start: nat, state: State, p: Prepared, budget: nat, a: Entry)
    requires Inv(start, state) && p in state.prepared && Uploads(state.registry, p.candidate, budget)
    requires a in state.registry.log && a.version.channel.Nightly? && SameStream(a.version, p.candidate.version)
    requires forall e <- state.registry.log | SameStream(e.version, p.candidate.version) :: !Below(a.version, e.version)
    ensures a.fingerprint != p.candidate.fingerprint
  {
    var log := state.registry.log;
    assert FaithfulAt(start, p, log);
    UploadIsNewest(state.registry, p.candidate, budget, a);
    GreatestIsPredecessor(log, p.candidate.version, a);
    var i :| 0 <= i < |log| && log[i] == a;
    ContentsAt(log, i);
    ProceedDiffersFromPredecessor(p.candidate, log, p.reviewed, budget, a.version);
  }

  lemma {:induction false} GreatestIsPredecessor(log: seq<Entry>, version: Version, a: Entry)
    requires a in log && SameStream(a.version, version) && Below(a.version, version)
    requires forall e <- log | SameStream(e.version, version) :: !Below(a.version, e.version)
    ensures IsPredecessor(VersionsOf(log), version, a.version)
  {
    var published := VersionsOf(log);
    var i :| 0 <= i < |log| && log[i] == a;
    assert published[i] == a.version;
    forall v | v in published && SameStream(v, version) ensures v == a.version || Below(v, a.version) {
      var k :| 0 <= k < |log| && published[k] == v;
      assert log[k] in log;
      Trichotomy(a.version, v);
    }
  }

  lemma {:induction false} StoreKeepsAdjacent(start: nat, state: State, p: Prepared, budget: nat, time: int)
    requires Inv(start, state) && p in state.prepared && Uploads(state.registry, p.candidate, budget)
    requires AdjacentDiffer(state.registry.log)
    ensures AdjacentDiffer(state.registry.log + [EntryOf(p.candidate, time)])
  {
    var log := state.registry.log;
    var stored := EntryOf(p.candidate, time);
    var grown := log + [stored];
    forall a, b | Adjacent(grown, a, b) ensures a.fingerprint != b.fingerprint {
      forall e | e in log && SameStream(e.version, stored.version) ensures Below(e.version, stored.version) {
        UploadIsNewest(state.registry, p.candidate, budget, e);
      }
      if a !in log {
        Trichotomy(a.version, b.version);
        assert false;
      } else if b in log {
        assert forall e <- log :: e in grown;
        assert Adjacent(log, a, b);
      } else {
        forall e | e in log && SameStream(e.version, stored.version) ensures !Below(a.version, e.version) {
          assert e in grown;
        }
        UploadDiffersFromNeighbour(start, state, p, budget, a);
      }
    }
  }

  /**
   * Overlapping preparations and publications in any order never leave two neighbouring nightlies of a line with the
   * same content, unless the history had such a pair.
   */
  lemma {:induction false} RunKeepsAdjacentDifferent(start: nat, state: State, steps: seq<Step>)
    requires Begins(start, state) && Distinct(state.registry.log) && AdjacentDiffer(state.registry.log)
    ensures AdjacentDiffer(Run(start, state, steps).registry.log)
  {
    if steps != [] {
      var last := |steps| - 1;
      var before := Run(start, state, steps[..last]);
      RunKeepsAdjacentDifferent(start, state, steps[..last]);
      RunKeepsInv(start, state, steps[..last]);
      match steps[last] {
        case Prepare(_, _, _, _, _) =>
          PrepareKeepsInv(start, before, steps[last]);
        case Publish(p, budget, effect, time) =>
          PublishStores(before.registry, p.candidate, budget, effect, time);
          if p in before.prepared && Uploads(before.registry, p.candidate, budget) {
            StoreKeepsAdjacent(start, before, p, budget, time);
          }
      }
    }
  }

  // ----- Stable promotion -----

  /**
   * A Stable uploaded in any run carries, at that moment, exactly the content of the newest published nightly of its
   * core, however old the registry state was that it was prepared against.
   */
  lemma {:induction false} StablePromotesNewestNightly(start: nat, state: State, steps: seq<Step>, p: Prepared, budget: nat)
    requires Begins(start, state) && Distinct(state.registry.log)
    requires var now := Run(start, state, steps);
             p in now.prepared && p.candidate.channel.Stable? && Uploads(now.registry, p.candidate, budget)
    ensures var log := Run(start, state, steps).registry.log;
            exists n <- log ::
              && NightlyOf(n.version, p.candidate.version) && n.fingerprint == p.candidate.fingerprint
              && forall e <- log | NightlyOf(e.version, p.candidate.version) :: e == n || Below(e.version, n.version)
  {
    var now := Run(start, state, steps);
    var log := now.registry.log;
    RunKeepsInv(start, state, steps);
    assert FaithfulAt(start, p, log);
    ProceedPromotesNewestNightly(p.candidate, log, p.reviewed, budget);
    NewestNightlyEntry(log, p.candidate.version, p.candidate.baseline.value);
  }

  lemma {:induction false} NewestNightlyEntry(log: seq<Entry>, stable: Version, n: Version)
    requires Distinct(log) && n in VersionsOf(log) && NightlyOf(n, stable)
    requires forall v <- VersionsOf(log) | NightlyOf(v, stable) :: v == n || Below(v, n)
    ensures exists e <- log ::
              && e.version == n && e.fingerprint == ContentsOf(log)[n]
              && forall other <- log | NightlyOf(other.version, stable) :: other == e || Below(other.version, e.version)
  {
    var i :| 0 <= i < |log| && VersionsOf(log)[i] == n;
    ContentsAt(log, i);
    forall e | e in log && NightlyOf(e.version, stable) ensures e == log[i] || Below(e.version, log[i].version) {
      var k :| 0 <= k < |log| && log[k] == e;
      assert VersionsOf(log)[k] == e.version;
    }
    assert log[i] in log;
  }

  // ----- distribution tags -----

  /** A channel tag names the greatest published version of its channel, and is absent exactly when there is none. */
  ghost predicate TagIsGreatest(registry: Registry, channel: Channel) {
    var tag := ChannelTag(channel);
    var published := VersionsOf(registry.log);
    && (tag in registry.tags <==> exists v <- published :: v.channel == channel)
    && (tag in registry.tags ==>
          && registry.tags[tag] in published && registry.tags[tag].channel == channel
          && forall v <- published | v.channel == channel :: v == registry.tags[tag] || Below(v, registry.tags[tag]))
  }

  ghost predicate TagsAreGreatest(registry: Registry) {
    forall channel :: TagIsGreatest(registry, channel)
  }

  lemma {:induction false} StoreKeepsTag(registry: Registry, candidate: Candidate, time: int, channel: Channel)
    requires TagIsGreatest(registry, channel) && candidate.version.channel == candidate.channel
    ensures TagIsGreatest(Store(registry, candidate, UploadTag(candidate, registry.tags), time), channel)
  {
    var tag := UploadTag(candidate, registry.tags);
    var next := Store(registry, candidate, tag, time);
    var published := VersionsOf(registry.log);
    assert VersionsOf(next.log) == published + [candidate.version];
    assert candidate.version in VersionsOf(next.log);
    if channel == candidate.channel {
      var channelTag := ChannelTag(channel);
      assert channelTag in next.tags;
      forall v | v in VersionsOf(next.log) && v.channel == channel
        ensures v == next.tags[channelTag] || Below(v, next.tags[channelTag])
      {
        if channelTag in registry.tags {
          Trichotomy(registry.tags[channelTag], candidate.version);
          if v in published && tag == channelTag && v != registry.tags[channelTag] {
            Transitive(v, registry.tags[channelTag], candidate.version);
          }
        }
      }
    } else {
      assert forall v <- VersionsOf(next.log) | v.channel == channel :: v in published;
      assert forall v <- published :: v in VersionsOf(next.log);
    }
  }

  lemma {:induction false} RunKeepsTags(start: nat, state: State, steps: seq<Step>)
    requires Begins(start, state) && Distinct(state.registry.log) && TagsAreGreatest(state.registry)
    ensures TagsAreGreatest(Run(start, state, steps).registry)
  {
    if steps != [] {
      var last := |steps| - 1;
      var before := Run(start, state, steps[..last]);
      RunKeepsTags(start, state, steps[..last]);
      RunKeepsInv(start, state, steps[..last]);
      match steps[last] {
        case Prepare(_, _, _, _, _) =>
          PrepareKeepsInv(start, before, steps[last]);
        case Publish(p, budget, effect, time) =>
          PublishStores(before.registry, p.candidate, budget, effect, time);
          if p in before.prepared && Uploads(before.registry, p.candidate, budget) {
            assert FaithfulAt(start, p, before.registry.log);
            forall channel
              ensures TagIsGreatest(Store(before.registry, p.candidate, UploadTag(p.candidate, before.registry.tags), time), channel)
            {
              StoreKeepsTag(before.registry, p.candidate, time, channel);
            }
          }
      }
    }
  }

  /** A tag never moves back: whatever it named before a step, it names that or a higher version afterwards. */
  lemma {:induction false} StepNeverMovesTagBack(start: nat, state: State, step: Step, tag: Tag)
    requires Inv(start, state) && tag in state.registry.tags
    requires tag.StagingTag? ==> StagingIsPublished(state.registry, tag)
    ensures var next := Do(start, state, step).registry.tags;
            tag in next && (next[tag] == state.registry.tags[tag] || Below(state.registry.tags[tag], next[tag]))
  {
    if step.Publish? {
      var p := step.prepared;
      PublishStores(state.registry, p.candidate, step.budget, step.effect, step.time);
      if p in state.prepared && Uploads(state.registry, p.candidate, step.budget) && tag.StagingTag? {
        assert FaithfulAt(start, p, state.registry.log);
        var i :| 0 <= i < |state.registry.log| && VersionsOf(state.registry.log)[i] == state.registry.tags[tag];
        if tag == UploadTag(p.candidate, state.registry.tags) {
          UploadIsNewest(state.registry, p.candidate, step.budget, state.registry.log[i]);
        }
      }
    } else {
      PrepareKeepsInv(start, state, step);
    }
  }

  /** A staging tag names a published version of its channel and line. */
  predicate StagingIsPublished(registry: Registry, tag: Tag)
    requires tag.StagingTag? && tag in registry.tags
  {
    var v := registry.tags[tag];
    v in VersionsOf(registry.log) && v.channel == tag.channel && Line(v) == tag.line
  }

  lemma {:induction false} StepKeepsStaging(start: nat, before: State, step: Step, tag: Tag)
    requires Inv(start, before) && tag.StagingTag?
    requires tag in before.registry.tags ==> StagingIsPublished(before.registry, tag)
    requires tag in Do(start, before, step).registry.tags
    ensures StagingIsPublished(Do(start, before, step).registry, tag)
  {
    hide PublishRun, IncreasingFrom, Distinct, AssertPublishBaseline;
    if step.Prepare? {
      PrepareKeepsInv(start, before, step);
    } else {
      var p := step.prepared;
      PublishStores(before.registry, p.candidate, step.budget, step.effect, step.time);
      if p in before.prepared && Uploads(before.registry, p.candidate, step.budget) {
        assert FaithfulAt(start, p, before.registry.log);
        var next := Store(before.registry, p.candidate, UploadTag(p.candidate, before.registry.tags), step.time);
        assert VersionsOf(next.log) == VersionsOf(before.registry.log) + [p.candidate.version];
      }
    }
  }

  lemma {:induction false} RunKeepsStaging(start: nat, state: State, steps: seq<Step>, tag: Tag)
    requires Begins(start, state) && Distinct(state.registry.log) && tag.StagingTag?
    requires tag in state.registry.tags ==> StagingIsPublished(state.registry, tag)
    requires tag in Run(start, state, steps).registry.tags
    ensures StagingIsPublished(Run(start, state, steps).registry, tag)
  {
    hide StagingIsPublished, Inv, Do, Begins, Distinct;
    if steps != [] {
      var last := |steps| - 1;
      var before := Run(start, state, steps[..last]);
      if tag in before.registry.tags {
        RunKeepsStaging(start, state, steps[..last], tag);
      }
      RunKeepsInv(start, state, steps[..last]);
      StepKeepsStaging(start, before, steps[last], tag);
    }
  }

  /** Whichever tag an upload chose, channel or staging, the confirmation that follows expects and finds that tag. */
  lemma {:induction false} UploadedTagIsConfirmed(registry: Registry, candidate: Candidate, budget: nat, time: int)
    requires TagIsGreatest(registry, candidate.channel) && candidate.version.channel == candidate.channel
    requires Uploads(registry, candidate, budget)
    ensures var tag := UploadTag(candidate, registry.tags);
            ChannelTagState(candidate, Store(registry, candidate, tag, time).tags) == TagState(tag, true)
  {
    var channelTag := ChannelTag(candidate.channel);
    if UploadTag(candidate, registry.tags) != channelTag {
      var previous := registry.tags[channelTag];
      if Line(previous) == Line(candidate.version) {
        var i :| 0 <= i < |registry.log| && VersionsOf(registry.log)[i] == previous;
        UploadIsNewest(registry, candidate, budget, registry.log[i]);
      }
      Trichotomy(previous, candidate.version);
    } else {
      Trichotomy(candidate.version, candidate.version);
    }
  }

  // ----- what publication decides -----

  /** The entries of the candidate's line published after its baseline was selected, other than its own version. */
  ghost predicate PublishedSince(p: Prepared, log: seq<Entry>, e: Entry) {
    && p.reviewed <= |log| && e in log[p.reviewed..]
    && e.version.channel.Nightly? && Line(e.version) == Line(p.candidate.version) && e.version != p.candidate.version
  }

  /** At preparation nothing of the line is above the candidate, and everything else of the line is at most the baseline. */
  lemma {:induction false} ReviewedIsBelowBaseline(candidate: Candidate, log: seq<Entry>, v: Version)
    requires Faithful(candidate, log) && candidate.channel.Nightly?
    requires v in VersionsOf(log) && SameStream(v, candidate.version)
    ensures candidate.baseline.Some? && !Below(candidate.baseline.value, v)
  {
    BaselineIsPublished(VersionsOf(log), candidate.version, Nightly);
    Trichotomy(v, candidate.version);
    if candidate.baseline.Some? {
      Trichotomy(v, candidate.baseline.value);
    }
  }

  lemma {:induction false} LaterIsAboveBaseline(start: nat, candidate: Candidate, reviewed: nat, log: seq<Entry>, k: nat)
    requires start <= reviewed <= k < |log| && IncreasingFrom(start, log)
    requires Faithful(candidate, log[..reviewed]) && candidate.channel.Nightly?
    requires SameStream(log[k].version, candidate.version) && candidate.baseline.Some?
    ensures Below(candidate.baseline.value, log[k].version)
  {
    var earlier := VersionsOf(log[..reviewed]);
    BaselineIsPublished(earlier, candidate.version, Nightly);
    var i :| 0 <= i < reviewed && earlier[i] == candidate.baseline.value;
    assert log[i].version == candidate.baseline.value;
  }

  /** The version window of a nightly is exactly what its line published after the preparation, in every run. */
  lemma {:induction false} WindowIsPublishedSince(start: nat, state: State, p: Prepared, k: nat)
    requires Inv(start, state) && p in state.prepared && p.candidate.channel.Nightly? && k < |state.registry.log|
    ensures InWindow(p.candidate, state.registry.log[k].version) <==>
            PublishedSince(p, state.registry.log, state.registry.log[k])
  {
    var log := state.registry.log;
    var v := log[k].version;
    assert FaithfulAt(start, p, log);
    if SameStream(v, p.candidate.version) && v != p.candidate.version {
      if k < p.reviewed {
        assert VersionsOf(log[..p.reviewed])[k] == v;
        ReviewedIsBelowBaseline(p.candidate, log[..p.reviewed], v);
        forall m | p.reviewed <= m < |log| ensures log[m] != log[k] {
          assert log[k].version != log[m].version;
        }
      } else {
        assert log[p.reviewed..][k - p.reviewed] == log[k];
        if p.candidate.baseline.Some? {
          LaterIsAboveBaseline(start, p.candidate, p.reviewed, log, k);
        }
      }
    }
  }

  lemma {:induction false} BaselineStays(start: nat, state: State, p: Prepared)
    requires Inv(start, state) && p in state.prepared
    ensures BaselineStillPublished(p.candidate, VersionsOf(state.registry.log))
  {
    var log := state.registry.log;
    assert FaithfulAt(start, p, log);
    var earlier := VersionsOf(log[..p.reviewed]);
    BaselineIsPublished(earlier, p.candidate.version, p.candidate.channel);
    if p.candidate.baseline.Some? {
      var i :| 0 <= i < p.reviewed && earlier[i] == p.candidate.baseline.value;
      assert VersionsOf(log)[i] == earlier[i];
    }
  }

  ghost predicate SameContent(p: Prepared, e: Entry) {
    e.fingerprint == p.candidate.fingerprint
  }

  /** `e` is the newest nightly of the line since the preparation, among all or among those with the candidate's content. */
  ghost predicate NewestSince(p: Prepared, log: seq<Entry>, e: Entry, sameOnly: bool) {
    && PublishedSince(p, log, e) && (sameOnly ==> SameContent(p, e))
    && forall other | PublishedSince(p, log, other) && (sameOnly ==> SameContent(p, other)) ::
         other.version == e.version || Below(other.version, e.version)
  }

  /** The version window and its contents describe what the line published since the preparation. */
  ghost predicate WindowIsHistory(p: Prepared, log: seq<Entry>) {
    && (forall e | PublishedSince(p, log, e) ::
          && e.version in VersionsOf(log) && InWindow(p.candidate, e.version)
          && ContentsOf(log)[e.version] == e.fingerprint)
    && (forall v <- VersionsOf(log) | InWindow(p.candidate, v) ::
          exists e :: PublishedSince(p, log, e) && e.version == v && e.fingerprint == ContentsOf(log)[v])
  }

  lemma {:induction false} WindowHistory(start: nat, state: State, p: Prepared)
    requires Inv(start, state) && p in state.prepared && p.candidate.channel.Nightly?
    ensures WindowIsHistory(p, state.registry.log)
  {
    var log := state.registry.log;
    forall e | PublishedSince(p, log, e)
      ensures e.version in VersionsOf(log) && InWindow(p.candidate, e.version) && ContentsOf(log)[e.version] == e.fingerprint
    {
      var m :| 0 <= m < |log| - p.reviewed && log[p.reviewed..][m] == e;
      var k := p.reviewed + m;
      assert VersionsOf(log)[k] == e.version;
      ContentsAt(log, k);
      WindowIsPublishedSince(start, state, p, k);
    }
    forall v | v in VersionsOf(log) && InWindow(p.candidate, v)
      ensures exists e :: PublishedSince(p, log, e) && e.version == v && e.fingerprint == ContentsOf(log)[v]
    {
      var k :| 0 <= k < |log| && VersionsOf(log)[k] == v;
      ContentsAt(log, k);
      WindowIsPublishedSince(start, state, p, k);
    }
  }

  lemma {:induction false} BlockedDecision(p: Prepared, log: seq<Entry>, verdict: Result<Verdict, PublishError>)
    requires WindowIsHistory(p, log)
    requires IsBlockedVerdict(p.candidate, VersionsOf(log), ContentsOf(log), verdict)
    ensures match verdict
            case Ok(Superseded(x)) => exists e: Entry :: e.version == x && SameContent(p, e) && NewestSince(p, log, e, true)
            case Ok(Proceed) => false
            case Err(_) => forall e | PublishedSince(p, log, e) :: !SameContent(p, e)
  {
    if verdict.Ok? {
      var e :| PublishedSince(p, log, e) && e.version == verdict.value.nightly
               && e.fingerprint == ContentsOf(log)[verdict.value.nightly];
      assert NewestSince(p, log, e, true);
    }
  }

  lemma {:induction false} OpenDecision(p: Prepared, log: seq<Entry>, predecessor: Option<Version>,
                                        verdict: Result<Verdict, PublishError>)
    requires WindowIsHistory(p, log) && !HasNewer(VersionsOf(log), p.candidate.version)
    requires p.candidate.version.channel.Nightly?
    requires predecessor == NewestBelow(VersionsOf(log), p.candidate.version, StreamOf(p.candidate.version))
    requires IsOpenVerdict(p.candidate, ContentsOf(log), predecessor, verdict)
    ensures match verdict
            case Ok(Superseded(x)) => exists e: Entry :: e.version == x && SameContent(p, e) && NewestSince(p, log, e, false)
            case Ok(Proceed) => forall e | NewestSince(p, log, e, false) :: !SameContent(p, e)
            case Err(_) => false
  {
    hide Compare, NewestBelow;
    var version := p.candidate.version;
    NewestBelowIsGreatest(VersionsOf(log), version, StreamOf(version));
    forall e | PublishedSince(p, log, e) ensures predecessor.Some? && !Below(predecessor.value, e.version) {
      Trichotomy(e.version, version);
      Trichotomy(e.version, predecessor.value);
    }
    if predecessor.Some? && InWindow(p.candidate, predecessor.value) {
      var top :| PublishedSince(p, log, top) && top.version == predecessor.value
                 && top.fingerprint == ContentsOf(log)[predecessor.value];
      forall e | PublishedSince(p, log, e) ensures e.version == top.version || Below(e.version, top.version) {
        Trichotomy(e.version, top.version);
      }
      assert NewestSince(p, log, top, false);
      forall e | NewestSince(p, log, e, false) ensures e.fingerprint == top.fingerprint {
        Trichotomy(e.version, top.version);
      }
    } else {
      forall e | PublishedSince(p, log, e) ensures false {
        Trichotomy(e.version, predecessor.value);
        if e.version != predecessor.value {
          Transitive(p.candidate.baseline.value, e.version, predecessor.value);
        }
      }
    }
  }

  /**
   * The decision about a nightly in the terms of its history, in every run. Below a newer nightly of its line it is
   * superseded by the newest nightly published since its preparation that has its content, and fails when there is
   * none. Otherwise it is superseded exactly when the newest nightly published since has its content, and proceeds.
   */
  lemma {:induction false} NightlyDecision(start: nat, state: State, p: Prepared, budget: nat)
    requires Inv(start, state) && p in state.prepared && p.candidate.channel.Nightly?
    requires budget > |Window(p.candidate, VersionsOf(state.registry.log))|
    ensures var log := state.registry.log;
            var newer := HasNewer(VersionsOf(log), p.candidate.version);
            match AssertPublishBaseline(p.candidate, VersionsOf(log), ContentsOf(log), budget)
            case Ok(Superseded(x)) =>
              exists e: Entry :: e.version == x && SameContent(p, e) && NewestSince(p, log, e, newer)
            case Ok(Proceed) => !newer && forall e | NewestSince(p, log, e, false) :: !SameContent(p, e)
            case Err(_) => newer && forall e | PublishedSince(p, log, e) :: !SameContent(p, e)
  {
    var log := state.registry.log;
    var published, version := VersionsOf(log), p.candidate.version;
    assert FaithfulAt(start, p, log);
    BaselineStays(start, state, p);
    WindowHistory(start, state, p);
    var verdict := AssertPublishBaseline(p.candidate, published, ContentsOf(log), budget);
    if HasNewer(published, version) {
      BlockedNightlyVerdict(p.candidate, published, ContentsOf(log), budget);
      BlockedDecision(p, log, verdict);
    } else {
      OpenNightlyVerdict(p.candidate, published, ContentsOf(log), budget);
      OpenDecision(p, log, NewestBelow(published, version, StreamOf(version)), verdict);
    }
  }
}
