/** The release state a source commit records, and the runs of version changes over it. */
module Source {
  import opened Wrappers
  import opened Versions
  import opened Planning

  /** `.changeset/pre.json` */
  datatype PreState = PreState(mode: string, tag: Channel, releaseBase: ReleaseBase)

  /** The manifest version and the prerelease state beside it. */
  datatype Source = Source(version: Version, pre: Option<PreState>)

  datatype SourceError = Unparsable | LeftoverState | StateDisagrees | Refused(reason: PlanError)

  predicate StateAgrees(source: Source) {
    if source.version.channel.Stable? then source.pre.None?
    else
      && source.pre.Some? && source.pre.value.mode == "pre" && source.pre.value.tag == source.version.channel
      && ReleaseBaseFor(source.version, source.pre.value.releaseBase).Ok?
  }

  function RecordedBase(source: Source): ReleaseBase {
    if source.pre.None? then Unrecorded else source.pre.value.releaseBase
  }

  /** Plans a source's next version and records it: a Stable removes the prerelease state, any other channel writes it. */
  function Apply(source: Source, request: Request): Result<Source, SourceError> {
    var parses := Valid(source.version);
    :- Need(parses, Unparsable);
    :- Need(StateAgrees(source), if source.version.channel.Stable? then LeftoverState else StateDisagrees);
    match PlanVersion(source.version, request, RecordedBase(source))
    case Err(reason) => Err(Refused(reason))
    case Ok(plan) =>
      var pre := if request.channel.Stable? then None else Some(PreState("pre", request.channel, Recorded(plan)));
      Ok(Source(plan.version, pre))
  }

  /** Consecutive sources of successful version changes. */
  predicate IsRun(sources: seq<Source>, requests: seq<Request>) {
    && |sources| == |requests| + 1
    && forall i | 0 <= i < |requests| :: Apply(sources[i], requests[i]) == Ok(sources[i + 1])
  }

  /** What the repository holds: an undated version from 1000.0.0 on with agreeing state. */
  predicate WellFormed(source: Source) {
    Valid(source.version) && !Dated(source.version) && source.version.major >= 1000 && StateAgrees(source)
  }

  /** The one way a change leaves the accepted versions: continuing the largest run number. */
  predicate Exhausts(source: Source, request: Request) {
    Number(source.version) == Some(MAX_SAFE) && KeepsNumbering(source.version, request, RecordedBase(source))
  }

  lemma StepKeepsSource(source: Source, request: Request)
    requires WellFormed(source) && Apply(source, request).Ok?
    ensures var next := Apply(source, request).value;
            && (WellFormed(next) <==> Valid(next.version)) && (Valid(next.version) <==> !Exhausts(source, request))
            && (WellFormed(next) ==> Below(source.version, next.version))
            && next.version.channel == request.channel
  {
    var next := Apply(source, request).value;
    PlanAdvances(source.version, request, RecordedBase(source));
    NumberingKept(source.version, request, RecordedBase(source));
    PlanLeavesUsableBase(source.version, request, RecordedBase(source));
    PlanTarget(source.version, request, RecordedBase(source));
    if Continues(source.version, next.version) {
      assert Number(source.version).value in source.version.identifiers;
      assert Number(source.version).value + 1 in next.version.identifiers;
    }
  }

  /** Every source of a run is well-formed, except a last one that continued the largest run number. */
  lemma {:induction false} RunKeepsSources(sources: seq<Source>, requests: seq<Request>)
    requires IsRun(sources, requests) && WellFormed(sources[0])
    ensures forall i | 0 <= i < |requests| :: WellFormed(sources[i])
    ensures WellFormed(sources[|requests|]) <==>
            !(requests != [] && Exhausts(sources[|requests| - 1], requests[|requests| - 1]))
  {
    hide Apply, WellFormed, Exhausts, Valid;
    if requests != [] {
      var last := |requests| - 1;
      RunKeepsSources(sources[..last + 1], requests[..last]);
      assert Apply(sources[last], requests[last]) == Ok(sources[last + 1]);
      AppliedParses(sources[last], requests[last]);
      if last > 0 {
        assert Apply(sources[last - 1], requests[last - 1]) == Ok(sources[last]);
        StepKeepsSource(sources[last - 1], requests[last - 1]);
      }
      StepKeepsSource(sources[last], requests[last]);
    }
  }

  lemma {:induction false} AppliedParses(source: Source, request: Request)
    requires Apply(source, request).Ok?
    ensures Valid(source.version)
  {
  }

  /** Versions strictly increase along a run. */
  lemma {:induction false} RunIncreases(sources: seq<Source>, requests: seq<Request>, i: nat, j: nat)
    requires IsRun(sources, requests) && WellFormed(sources[0])
    requires i < j < |sources| && WellFormed(sources[j])
    ensures Below(sources[i].version, sources[j].version)
    decreases j - i
  {
    hide Apply, WellFormed, Compare, Exhausts;
    RunKeepsSources(sources, requests);
    assert Apply(sources[j - 1], requests[j - 1]) == Ok(sources[j]);
    StepKeepsSource(sources[j - 1], requests[j - 1]);
    if i < j - 1 {
      RunIncreases(sources, requests, i, j - 1);
      Transitive(sources[i].version, sources[j - 1].version, sources[j].version);
    }
  }

  /** Without an explicit epoch no run leaves the thousand of the first major. */
  lemma {:induction false} RunKeepsThousand(sources: seq<Source>, requests: seq<Request>)
    requires IsRun(sources, requests) && WellFormed(sources[0])
    requires forall request <- requests :: request.epoch.None?
    ensures Thousand(sources[|requests|].version) == Thousand(sources[0].version)
  {
    if requests != [] {
      var last := |requests| - 1;
      RunKeepsThousand(sources[..last + 1], requests[..last]);
      RunKeepsSources(sources, requests);
      assert requests[last].epoch.None?;
      ThousandNeedsEpoch(sources[last].version, requests[last], RecordedBase(sources[last]));
    }
  }

  /** Through a whole prerelease cycle the recorded base stays the Stable version the cycle started from. */
  lemma {:induction false} CycleKeepsBase(sources: seq<Source>, requests: seq<Request>)
    requires IsRun(sources, requests) && WellFormed(sources[0]) && sources[0].version.channel.Stable?
    requires forall i | 0 < i < |sources| :: !sources[i].version.channel.Stable?
    requires requests != []
    ensures RecordedBase(sources[|requests|]) == Base(sources[0].version)
  {
    var last := |requests| - 1;
    RunKeepsSources(sources, requests);
    StepKeepsSource(sources[last], requests[last]);
    assert Apply(sources[last], requests[last]) == Ok(sources[last + 1]);
    if last > 0 {
      CycleKeepsBase(sources[..last + 1], requests[..last]);
    }
  }

  /** A Stable ends its cycle at the very target the cycle had selected, unless later notes raised it. */
  lemma StableEndsCycle(source: Source, request: Request)
    requires WellFormed(source) && !source.version.channel.Stable?
    requires request.channel.Stable? && request.epoch.None? && Apply(source, request).Ok?
    ensures var next := Apply(source, request).value;
            && next.pre.None?
            && Below(source.version, next.version)
            && (next.version == StableOf(source.version) ||
                (RecordedBase(source).Base? &&
                 next.version == NextCore(RecordedBase(source).version, HighestBump(request.releaseTypes).value)))
  {
    PlanTarget(source.version, request, RecordedBase(source));
    StepKeepsSource(source, request);
  }

  // ----- Changesets notes -----

  /** Changesets moves a pending note into `pre/` under the same ID. */
  function CanonicalId(id: string): string {
    if "pre/" <= id then id[4..] else id
  }

  /** Refuses notes of which one would replace another when it moves into `pre/`. */
  method CheckNotes(ids: seq<string>) returns (collision: Option<string>)
    ensures collision.None? <==> forall i, j | 0 <= i < j < |ids| :: CanonicalId(ids[i]) != CanonicalId(ids[j])
    ensures collision.Some? ==>
              exists i, j | 0 <= i < j < |ids| :: CanonicalId(ids[i]) == CanonicalId(ids[j]) == collision.value
  {
    var canonical: set<string> := {};
    for k := 0 to |ids|
      invariant canonical == set i | 0 <= i < k :: CanonicalId(ids[i])
      invariant forall i, j | 0 <= i < j < k :: CanonicalId(ids[i]) != CanonicalId(ids[j])
    {
      var id := CanonicalId(ids[k]);
      if id in canonical {
        ghost var i :| 0 <= i < k && CanonicalId(ids[i]) == id;
        return Some(id);
      }
      canonical := canonical + {id};
    }
    return None;
  }
}
