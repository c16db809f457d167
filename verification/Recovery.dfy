/**
 * Publishing one candidate: at most one upload in a run, then polling until npm serves the reviewed bytes under the
 * expected tag. Runs can be repeated after any interruption.
 */
module Recovery {
  import opened Wrappers
  import opened Versions
  import opened Publication
  import opened Protocol
  import opened Clocks

  datatype Served = Published | Missing | Different

  datatype Status = Status(npm: Served, tag: TagState) {
    predicate Complete() {
      npm.Published?
    }

    predicate Confirmed() {
      npm.Published? && tag.confirmed
    }
  }

  datatype Failure =
    | NotPublishable | BadDeadline | ReadFailed | OtherBytes | BaselineRefused(reason: PublishError)
    | ChangedDuringReadback | TagElsewhere(tag: Tag) | Unconfirmed(providerFailed: bool)

  datatype Success = Confirmed(tag: Tag, now: bool) | SupersededBy(nightly: Version)

  /** What a read of the registry says about a candidate. */
  function StatusIn(registry: Registry, candidate: Candidate): Status {
    var served := Find(registry.log, candidate.version);
    Status(if served.None? then Missing else if served.value.tarball == candidate.tarball then Published else Different,
           ChannelTagState(candidate, registry.tags))
  }

  predicate Publishable(candidate: Candidate) {
    && candidate.version.major >= 1000 && candidate.version.channel == candidate.channel
    && (candidate.channel.Nightly? || candidate.channel.Stable?)
  }

  /** Other writers may add versions and move tags, published versions stay. */
  predicate Grows(before: Registry, after: Registry) {
    before.log <= after.log && Distinct(after.log)
  }

  /** npm as one run sees it. A reliable one has no failing request and no other writer. */
  class Npm {
    var registry: Registry
    const reliable: bool
    /** The registry states the successful inspections saw. */
    ghost var observed: seq<Registry>
    /** Publisher calls, and how many of them stored the package. */
    ghost var submissions: nat
    ghost var stores: nat

    constructor (registry: Registry, reliable: bool)
      requires Distinct(registry.log)
      ensures this.registry == registry && this.reliable == reliable
      ensures observed == [] && submissions == 0 && stores == 0
    {
      this.registry, this.reliable := registry, reliable;
      observed, submissions, stores := [], 0, 0;
    }

    /** Between two requests the registry may change. */
    method Drift()
      requires Distinct(registry.log)
      modifies this`registry
      ensures Grows(old(registry), registry)
      ensures reliable ==> registry == old(registry)
    {
      var next: Registry := *;
      if !reliable && Grows(registry, next) {
        registry := next;
      }
    }

    /** Reads the inventory and, when the version is there, its tarball. Any request can fail. */
    method Inspect(candidate: Candidate) returns (status: Result<Status, Failure>)
      requires Distinct(registry.log)
      modifies this`registry, this`observed
      ensures Grows(old(registry), registry) && (reliable ==> registry == old(registry))
      ensures if status.Ok?
              then observed == old(observed) + [registry] && status.value == StatusIn(registry, candidate)
              else observed == old(observed)
      ensures status.Err? ==> status.error == if Publishable(candidate) then ReadFailed else NotPublishable
      ensures Publishable(candidate) && reliable ==> status.Ok?
      ensures status.Ok? ==> Publishable(candidate)
    {
      if !Publishable(candidate) {
        return Err(NotPublishable);
      }
      Drift();
      var fails: bool := *;
      if fails && !reliable {
        return Err(ReadFailed);
      }
      observed := observed + [registry];
      return Ok(StatusIn(registry, candidate));
    }

    /** Uploads a version npm does not have. The upload can be lost, and it can fail after it was stored. */
    method Publish(candidate: Candidate, tag: Tag) returns (ok: bool, ghost effect: Effect, ghost time: int)
      requires Distinct(registry.log) && candidate.version !in VersionsOf(registry.log)
      modifies this`registry, this`submissions, this`stores
      ensures submissions == old(submissions) + 1
      ensures registry == if effect.Stored? then Store(old(registry), candidate, tag, time) else old(registry)
      ensures stores == old(stores) + if effect.Stored? then 1 else 0
      ensures Distinct(registry.log)
      ensures reliable ==> ok && effect.Stored?
    {
      submissions := submissions + 1;
      var lost: bool, failed: bool := *, *;
      var stamp: int := *;
      time := stamp;
      effect := Lost;
      if reliable || !lost {
        forall i | 0 <= i < |registry.log| ensures registry.log[i].version != candidate.version {
          assert VersionsOf(registry.log)[i] == registry.log[i].version;
        }
        registry := Store(registry, candidate, tag, stamp);
        stores := stores + 1;
        effect := Effect.Stored;
      }
      ok := reliable || !failed;
    }
  }

  datatype Upload = Skip(nightly: Version) | Upload(submitted: bool, providerFailed: bool)

  /**
   * Uploads a missing candidate unless a nightly supersedes it or its own version appeared meanwhile. The registry
   * changes exactly as the one publish step of the protocol does. A refused baseline wins over an own version that
   * appeared meanwhile.
   */
  method UploadMissing(npm: Npm, candidate: Candidate, budget: nat)
    returns (r: Result<Upload, Failure>, ghost before: Registry, ghost effect: Effect, ghost time: int)
    requires Distinct(npm.registry.log)
    modifies npm`registry, npm`submissions, npm`stores
    ensures Distinct(npm.registry.log)
    ensures Grows(old(npm.registry), before) && (npm.reliable ==> before == old(npm.registry) && effect.Stored?)
    ensures npm.registry == PublishRun(before, candidate, budget, effect, time).0
    ensures npm.stores == old(npm.stores) + |npm.registry.log| - |before.log|
    ensures npm.submissions == old(npm.submissions) + if r.Ok? && r.value.Upload? && r.value.submitted then 1 else 0
    ensures r.Ok? && r.value.Upload? && !r.value.submitted ==> candidate.version in VersionsOf(before.log)
    ensures var verdict := AssertPublishBaseline(candidate, VersionsOf(before.log), ContentsOf(before.log), budget);
            if verdict.Err? then r == Err(BaselineRefused(verdict.error)) else r.Ok?
    ensures r.Ok? && r.value.Upload? && npm.reliable ==> !r.value.providerFailed
    ensures candidate.version !in VersionsOf(before.log) ==>
              PublishRun(before, candidate, budget, effect, time).1 ==
              match r
              case Err(e) => RefusedFor(e.reason)
              case Ok(Skip(nightly)) => Protocol.SupersededBy(nightly)
              case Ok(Upload(_, _)) => Submitted(UploadTag(candidate, before.tags))
  {
    npm.Drift();
    before, effect, time := npm.registry, Effect.Stored, 0;
    var published := VersionsOf(npm.registry.log);
    FindSound(before.log, candidate.version);
    if candidate.version in published {
      var i :| 0 <= i < |published| && published[i] == candidate.version;
      FindComplete(before.log, before.log[i]);
    }
    match AssertPublishBaseline(candidate, published, ContentsOf(npm.registry.log), budget) {
      case Err(reason) =>
        r := Err(BaselineRefused(reason));
      case Ok(verdict) =>
        if verdict.Superseded? && candidate.version !in published {
          r := Ok(Skip(verdict.nightly));
        } else if candidate.version in published {
          r := Ok(Upload(false, false));
        } else {
          var tag := UploadTag(candidate, npm.registry.tags);
          var ok;
          ok, effect, time := npm.Publish(candidate, tag);
          r := Ok(Upload(true, !ok));
        }
    }
  }

  /**
   * Given time, a refused baseline is a newer nightly without the candidate's content in the window, or for a Stable a
   * newer Stable or a reviewed nightly that is no longer the newest. That the own version is listed changes nothing.
   */
  lemma {:induction false} RefusedExactly(candidate: Candidate, published: seq<Version>,
                                          contents: map<Version, Fingerprint>, budget: nat)
    requires forall v <- published :: v in contents
    requires Publishable(candidate) && BaselineStillPublished(candidate, published)
    requires |Window(candidate, published)| <= budget && budget > 0
    requires candidate.channel.Stable? ==> candidate.baseline.Some?
    ensures AssertPublishBaseline(candidate, published, contents, budget).Err? <==>
            if candidate.channel.Nightly?
            then && HasNewer(published, candidate.version)
                 && forall v <- published | InWindow(candidate, v) :: contents[v] != candidate.fingerprint
            else HasNewer(published, candidate.version) ||
                 !IsNewestBelow(published, candidate.version, NightliesOf(candidate.version), candidate.baseline.value)
  {
    if candidate.channel.Stable? {
      StableVerdict(candidate, published, contents, budget);
    } else if HasNewer(published, candidate.version) {
      BlockedNightlyVerdict(candidate, published, contents, budget);
    } else {
      OpenNightlyVerdict(candidate, published, contents, budget);
    }
  }

  /** A candidate that is listed with its own content, and still refused for a newer nightly. */
  lemma ListedVersionRefused()
    ensures var own, newer := Version(1000, 0, 0, Nightly, [1]), Version(1000, 0, 0, Nightly, [2]);
            var candidate := Candidate(own, Nightly, 7, 70, None);
            var contents := map[own := 7, newer := 8];
            && Publishable(candidate) && own in [own, newer]
            && AssertPublishBaseline(candidate, [own, newer], contents, 2) == Err(NewerPublished)
  {
    var own, newer := Version(1000, 0, 0, Nightly, [1]), Version(1000, 0, 0, Nightly, [2]);
    var candidate := Candidate(own, Nightly, 7, 70, None);
    assert CompareIdentifiers([1], [2]) < 0;
    WindowNewestFirst(candidate, [own, newer]);
    assert newer in [own, newer];
    BlockedNightlyVerdict(candidate, [own, newer], map[own := 7, newer := 8], 2);
  }

  /** The last two inspections both saw the reviewed bytes under a confirmed tag. */
  ghost predicate TwiceConfirmed(observed: seq<Registry>, candidate: Candidate) {
    && |observed| >= 2
    && StatusIn(observed[|observed| - 1], candidate).Confirmed()
    && StatusIn(observed[|observed| - 2], candidate).Confirmed()
  }

  /** A number of polls that fits `ceil(timeout / delay) + 1`. */
  ghost predicate WithinDeadline(polls: nat, timeout: int, delay: int) {
    polls >= 2 ==> (polls - 2) * delay < timeout
  }

  /** Re-reads a confirmed publication once more, as the status that ends the confirmation or none to keep polling. */
  method ReadbackPublished(npm: Npm, candidate: Candidate) returns (r: Result<Option<Status>, Failure>)
    requires Distinct(npm.registry.log) && Publishable(candidate)
    modifies npm`registry, npm`observed
    ensures Grows(old(npm.registry), npm.registry) && (npm.reliable ==> npm.registry == old(npm.registry))
    ensures old(npm.observed) <= npm.observed && |npm.observed| <= |old(npm.observed)| + 1
    ensures r.Ok? && r.value.Some? ==>
              && npm.observed == old(npm.observed) + [npm.registry]
              && r.value.value == StatusIn(npm.registry, candidate) && r.value.value.Confirmed()
    ensures r.Err? ==> r.error.ChangedDuringReadback?
    ensures npm.reliable && StatusIn(old(npm.registry), candidate).Confirmed() ==> r.Ok? && r.value.Some?
  {
    var final := npm.Inspect(candidate);
    if final.Err? {
      return Ok(None);
    }
    if !final.value.Complete() {
      return Err(ChangedDuringReadback);
    }
    return Ok(if final.value.tag.confirmed then Some(final.value) else None);
  }

  datatype Poll = Done(status: Status) | Failed(failure: Failure) | Again(seen: Option<Status>)

  /** One round of polling. A failed read is no observation. */
  method PollOnce(npm: Npm, candidate: Candidate) returns (poll: Poll)
    requires Distinct(npm.registry.log) && Publishable(candidate)
    modifies npm`registry, npm`observed
    ensures Grows(old(npm.registry), npm.registry) && (npm.reliable ==> npm.registry == old(npm.registry))
    ensures |npm.observed| <= |old(npm.observed)| + 2
    ensures poll.Done? ==> TwiceConfirmed(npm.observed, candidate)
                           && poll.status == StatusIn(npm.observed[|npm.observed| - 1], candidate)
    ensures poll.Failed? ==> poll.failure.ChangedDuringReadback? || poll.failure.OtherBytes?
    ensures poll.Failed? && poll.failure.OtherBytes? ==>
              npm.observed != [] && StatusIn(npm.observed[|npm.observed| - 1], candidate).npm.Different?
    ensures npm.reliable && StatusIn(old(npm.registry), candidate).Confirmed() ==> poll.Done?
  {
    var read := npm.Inspect(candidate);
    if read.Ok? && read.value.npm.Different? {
      return Failed(OtherBytes);
    }
    if read.Ok? && read.value.Confirmed() {
      var final := ReadbackPublished(npm, candidate);
      if final.Err? {
        return Failed(final.error);
      }
      if final.value.Some? {
        return Done(final.value.value);
      }
    }
    return Again(if read.Ok? then Some(read.value) else None);
  }

  /** Waits before the next round, or reports that the deadline passed. */
  method AwaitRound(clock: Clock, started: int, timeout: int, delay: int, nextProgress: int)
    returns (expired: bool, progressAt: int)
    requires delay > 0
    modifies clock
    ensures old(clock.time) <= clock.time
    ensures !expired ==>
              && old(clock.time) - started < timeout
              && (old(clock.time) + delay <= clock.time || timeout <= clock.time - started)
  {
    progressAt := nextProgress;
    var now := clock.Now();
    var remaining := timeout - (now - started);
    if remaining <= 0 {
      return true, progressAt;
    }
    now := clock.Now();
    if now >= progressAt {
      now := clock.Now();
      progressAt := now + 60000;
    }
    clock.Wait(if delay < remaining then delay else remaining);
    return false, progressAt;
  }

  /** Polls until the reviewed bytes and the tag are confirmed by two reads in a row, or the deadline passes. */
  method ConfirmPublication(npm: Npm, clock: Clock, candidate: Candidate, upload: Upload, timeout: int, delay: int)
    returns (r: Result<Success, Failure>, ghost polls: nat)
    requires Distinct(npm.registry.log) && upload.Upload? && timeout >= 0 && delay > 0 && Publishable(candidate)
    modifies clock, npm`registry, npm`observed
    ensures Grows(old(npm.registry), npm.registry) && (npm.reliable ==> npm.registry == old(npm.registry))
    ensures WithinDeadline(polls, timeout, delay)
    ensures |npm.observed| <= |old(npm.observed)| + 2 * polls
    ensures r.Ok? ==>
              && TwiceConfirmed(npm.observed, candidate)
              && r.value == Confirmed(StatusIn(npm.observed[|npm.observed| - 1], candidate).tag.tag, upload.submitted)
    ensures npm.reliable && StatusIn(old(npm.registry), candidate).Confirmed() ==> r.Ok? && polls == 1
    ensures r.Err? && r.error.OtherBytes? ==>
              npm.observed != [] && StatusIn(npm.observed[|npm.observed| - 1], candidate).npm.Different?
    ensures r.Err? && r.error.Unconfirmed? ==> r.error.providerFailed == upload.providerFailed
  {
    ghost var confirmed := npm.reliable && StatusIn(npm.registry, candidate).Confirmed();
    var started := clock.Now();
    var nextProgress := started;
    polls := 0;
    while true
      invariant Grows(old(npm.registry), npm.registry) && (npm.reliable ==> npm.registry == old(npm.registry))
      invariant polls * delay <= clock.time - started || timeout <= clock.time - started
      invariant polls >= 1 ==> (polls - 1) * delay < timeout && !confirmed
      invariant |npm.observed| <= |old(npm.observed)| + 2 * polls
      decreases timeout - (clock.time - started)
    {
      var poll := PollOnce(npm, candidate);
      polls := polls + 1;
      match poll {
        case Failed(failure) => return Err(failure), polls;
        case Done(status) => return Ok(Confirmed(status.tag.tag, upload.submitted)), polls;
        case Again(status) =>
          var expired;
          expired, nextProgress := AwaitRound(clock, started, timeout, delay, nextProgress);
          if expired {
            return Err(if status.Some? && status.value.Complete() then TagElsewhere(status.value.tag.tag)
                       else Unconfirmed(upload.providerFailed)), polls;
          }
          assert polls * delay == (polls - 1) * delay + delay;
      }
    }
  }

  /** What a reliable registry answers after an upload that may proceed: the reviewed bytes under the chosen tag. */
  lemma {:induction false} UploadIsConfirmed(before: Registry, candidate: Candidate, budget: nat, time: int)
    requires Distinct(before.log) && candidate.version.channel == candidate.channel
    requires Uploads(before, candidate, budget) && TagIsGreatest(before, candidate.channel)
    ensures var tag := UploadTag(candidate, before.tags);
            && PublishRun(before, candidate, budget, Effect.Stored, time) == (Store(before, candidate, tag, time), Submitted(tag))
            && StatusIn(Store(before, candidate, tag, time), candidate) == Status(Published, TagState(tag, true))
  {
    FindSound(before.log, candidate.version);
    UploadedTagIsConfirmed(before, candidate, budget, time);
    StoredIsServed(before, candidate, UploadTag(candidate, before.tags), time);
  }

  /** A reliable publication that may upload, in the terms of its final state. */
  ghost predicate MayUpload(npm: Registry, candidate: Candidate, budget: nat) {
    Uploads(npm, candidate, budget) && TagIsGreatest(npm, candidate.channel)
  }

  /** The first half of a run: it inspects npm and submits a missing version that may be published. */
  method SubmitMissing(npm: Npm, candidate: Candidate, budget: nat) returns (r: Result<Upload, Failure>)
    requires Distinct(npm.registry.log) && Publishable(candidate)
    modifies npm`registry, npm`observed, npm`submissions, npm`stores
    ensures Distinct(npm.registry.log) && old(npm.registry).log <= npm.registry.log
    ensures npm.submissions == old(npm.submissions) + if r.Ok? && r.value.Upload? && r.value.submitted then 1 else 0
    ensures old(npm.stores) <= npm.stores <= old(npm.stores) + 1
    ensures candidate.version in VersionsOf(old(npm.registry).log) ==>
              npm.submissions == old(npm.submissions) && npm.stores == old(npm.stores)
    ensures npm.stores > old(npm.stores) ==> candidate.version in VersionsOf(npm.registry.log)
    ensures npm.reliable && StatusIn(old(npm.registry), candidate).npm.Different? ==> r == Err(OtherBytes)
    ensures npm.reliable && StatusIn(old(npm.registry), candidate).npm.Published? ==>
              r == Ok(Upload(false, false)) && npm.registry == old(npm.registry)
    ensures npm.reliable && MayUpload(old(npm.registry), candidate, budget) ==>
              && r == Ok(Upload(true, false)) && candidate.version in VersionsOf(npm.registry.log)
              && StatusIn(npm.registry, candidate) ==
                 Status(Published, TagState(UploadTag(candidate, old(npm.registry).tags), true))
  {
    hide AssertPublishBaseline, ChannelTagState, UploadTag, ContentsOf, Find;
    var initial := npm.Inspect(candidate);
    FindSound(npm.registry.log, candidate.version);
    if candidate.version in VersionsOf(old(npm.registry).log) {
      LaterStillListed(old(npm.registry).log, npm.registry.log, candidate.version);
    }
    ListedIsFound(npm.registry.log, candidate.version);
    if initial.Err? {
      return Err(initial.error);
    }
    if initial.value.npm.Different? {
      return Err(OtherBytes);
    }
    if initial.value.npm.Published? {
      return Ok(Upload(false, false));
    }
    ghost var before, effect, time;
    r, before, effect, time := UploadMissing(npm, candidate, budget);
    PublishStores(before, candidate, budget, effect, time);
    if candidate.version !in VersionsOf(before.log) && effect.Stored? {
      StoredIsServed(before, candidate, UploadTag(candidate, before.tags), time);
    }
    if npm.reliable && MayUpload(before, candidate, budget) {
      UploadIsConfirmed(before, candidate, budget, time);
    }
  }

  lemma {:induction false} ListedIsFound(log: seq<Entry>, version: Version)
    requires Distinct(log)
    ensures Find(log, version).Some? <==> version in VersionsOf(log)
  {
    FindSound(log, version);
    if version in VersionsOf(log) {
      var i :| 0 <= i < |log| && VersionsOf(log)[i] == version;
      FindComplete(log, log[i]);
    }
  }

  /**
   * Publishes a reviewed candidate. It submits at most once, never when npm has the version, and reports success only
   * after two reads in a row confirmed the reviewed bytes and the tag.
   */
  method PublishCandidate(npm: Npm, clock: Clock, candidate: Candidate, budget: nat, timeout: int, delay: int)
    returns (r: Result<Success, Failure>, ghost polls: nat)
    requires Distinct(npm.registry.log)
    modifies clock, npm`registry, npm`observed, npm`submissions, npm`stores
    ensures Distinct(npm.registry.log) && old(npm.registry).log <= npm.registry.log
    ensures npm.submissions <= old(npm.submissions) + 1
    ensures old(npm.stores) <= npm.stores <= old(npm.stores) + 1
    ensures candidate.version in VersionsOf(old(npm.registry).log) ==>
              npm.submissions == old(npm.submissions) && npm.stores == old(npm.stores)
    ensures npm.stores > old(npm.stores) ==> candidate.version in VersionsOf(npm.registry.log)
    ensures WithinDeadline(polls, timeout, delay)
    ensures r.Ok? && r.value.Confirmed? ==>
              && TwiceConfirmed(npm.observed, candidate)
              && r.value.tag == StatusIn(npm.observed[|npm.observed| - 1], candidate).tag.tag
              && (r.value.now <==> npm.submissions == old(npm.submissions) + 1)
    ensures r.Ok? && r.value.SupersededBy? ==> npm.submissions == old(npm.submissions) && polls == 0
    ensures timeout < 0 || delay <= 0 || !Publishable(candidate) ==>
              r.Err? && npm.registry == old(npm.registry) && npm.submissions == old(npm.submissions)
    ensures npm.reliable && Publishable(candidate) && timeout >= 0 && delay > 0 ==>
              && (StatusIn(old(npm.registry), candidate).npm.Different? ==> r == Err(OtherBytes))
              && (StatusIn(old(npm.registry), candidate).Confirmed() ==> r.Ok? && r.value.Confirmed? && !r.value.now)
              && (MayUpload(old(npm.registry), candidate, budget) ==>
                    && r.Ok? && r.value.Confirmed? && r.value.now && polls == 1
                    && candidate.version in VersionsOf(npm.registry.log))
  {
    polls := 0;
    if !Publishable(candidate) {
      return Err(NotPublishable), polls;
    }
    if timeout < 0 || delay <= 0 {
      return Err(BadDeadline), polls;
    }
    var upload := SubmitMissing(npm, candidate, budget);
    if upload.Err? {
      return Err(upload.error), polls;
    }
    if upload.value.Skip? {
      return Ok(Success.SupersededBy(upload.value.nightly)), polls;
    }
    ghost var listed := npm.registry.log;
    r, polls := ConfirmPublication(npm, clock, candidate, upload.value, timeout, delay);
    if candidate.version in VersionsOf(listed) {
      LaterStillListed(listed, npm.registry.log, candidate.version);
    }
  }

  lemma {:induction false} StoredIsServed(registry: Registry, candidate: Candidate, tag: Tag, time: int)
    requires Distinct(registry.log) && candidate.version !in VersionsOf(registry.log)
    ensures var next := Store(registry, candidate, tag, time);
            && Find(next.log, candidate.version) == Some(EntryOf(candidate, time))
            && StatusIn(next, candidate).npm.Published?
            && candidate.version in VersionsOf(next.log)
  {
    var next := Store(registry, candidate, tag, time);
    forall i | 0 <= i < |registry.log| ensures registry.log[i].version != candidate.version {
      assert VersionsOf(registry.log)[i] == registry.log[i].version;
    }
    FindComplete(next.log, EntryOf(candidate, time));
    assert VersionsOf(next.log)[|registry.log|] == candidate.version;
  }

  /** However often a publication is rerun, its bytes are set at most once, and never when npm already had the version. */
  method Rerun(npm: Npm, clock: Clock, candidate: Candidate, budget: nat, timeout: int, delay: int, times: nat)
    requires Distinct(npm.registry.log)
    modifies npm, clock
    ensures Distinct(npm.registry.log) && old(npm.registry).log <= npm.registry.log
    ensures npm.stores <= old(npm.stores) + if candidate.version in VersionsOf(old(npm.registry).log) then 0 else 1
  {
    for run := 0 to times
      invariant Distinct(npm.registry.log) && old(npm.registry).log <= npm.registry.log
      invariant old(npm.stores) <= npm.stores <= old(npm.stores) + 1
      invariant npm.stores > old(npm.stores) ==> candidate.version in VersionsOf(npm.registry.log)
      invariant candidate.version in VersionsOf(old(npm.registry).log) ==>
                  npm.stores == old(npm.stores) && candidate.version in VersionsOf(npm.registry.log)
    {
      ghost var listed := npm.registry.log;
      var _, _ := PublishCandidate(npm, clock, candidate, budget, timeout, delay);
      if candidate.version in VersionsOf(listed) {
        LaterStillListed(listed, npm.registry.log, candidate.version);
      }
    }
  }

  lemma {:induction false} LaterStillListed(before: seq<Entry>, after: seq<Entry>, version: Version)
    requires before <= after && version in VersionsOf(before)
    ensures version in VersionsOf(after)
  {
    var i :| 0 <= i < |before| && VersionsOf(before)[i] == version;
    assert VersionsOf(after)[i] == version;
  }
}
