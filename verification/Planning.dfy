/** Planning the next source version and the nightly builds of a source. */
module Planning {
  import opened Wrappers
  import opened Versions

  datatype Bump = Patch | Minor | Major

  /** The `releaseBase` of pre.json: absent or malformed, null for the initial cycle, or a version. */
  datatype ReleaseBase = Unrecorded | Initial | Base(version: Version)

  datatype Request = Request(channel: Channel, pendingTypes: seq<string>, releaseTypes: seq<string>,
                             epoch: Option<int>, allowNoChanges: bool)

  datatype Plan = Plan(version: Version, bump: Bump, promotion: bool, releaseBase: Option<Version>)

  datatype PlanError =
    | UnknownChannel | UnknownBump | NotEpochVersion | NoReleaseBase | BadReleaseBase
    | EpochInInitialCycle | BadEpoch | EpochNeedsMajor | NeedsFragment | UnsafeTarget
    | RangeExhausted | NothingToRelease | PromotionGoesBack
    | NoBuildDate | NoRunNumber | BelowPublished(newest: Version)

  function HighestBump(types: seq<string>): Result<Option<Bump>, PlanError> {
    var known := forall t <- types :: t in {"patch", "minor", "major"};
    :- Need(known, UnknownBump);
    Ok(if "major" in types then Some(Major) else if "minor" in types then Some(Minor)
       else if "patch" in types then Some(Patch) else None)
  }

  const FIRST := Version(1000, 0, 0, Stable, [])

  /** The Stable version a release cycle starts from, or none for the initial cycle towards 1000.0.0. */
  function ReleaseBaseFor(current: Version, recorded: ReleaseBase): Result<Option<Version>, PlanError> {
    if current.channel.Stable? then Ok(Some(StableOf(current)))
    else if recorded.Initial? && StableOf(current) == FIRST then Ok(None)
    else
      :- Need(recorded.Base? && Valid(recorded.version), NoReleaseBase);
      var base := recorded.version;
      :- Need(base.channel.Stable? && base.major >= 1000 && Below(base, StableOf(current)), BadReleaseBase);
      Ok(Some(base))
  }

  function NextCore(base: Version, bump: Option<Bump>): Version {
    match bump
    case Some(Major) => Version(base.major + 1, 0, 0, Stable, [])
    case Some(Minor) => Version(base.major, base.minor + 1, 0, Stable, [])
    case _ => Version(base.major, base.minor, base.patch + 1, Stable, [])
  }

  /** The numeric target of a release, as the Stable version of its core. */
  function SelectCore(current: Version, base: Option<Version>, epoch: Option<int>, bump: Option<Bump>,
                      cycleBump: Option<Bump>, allowNoChanges: bool): Result<Version, PlanError>
  {
    if epoch.Some? then
      :- Need(base.Some?, EpochInInitialCycle);
      var e := epoch.value;
      :- Need(1000 <= e <= MAX_SAFE && e % 1000 == 0 && e > current.major, BadEpoch);
      :- Need(bump == Some(Major), EpochNeedsMajor);
      Ok(Version(e, 0, 0, Stable, []))
    else if base.None? then Ok(FIRST)
    else
      :- Need(!current.channel.Stable? || bump.Some? || allowNoChanges, NeedsFragment);
      var core := NextCore(base.value, cycleBump);
      :- Need(Valid(core), UnsafeTarget);
      // An already selected target, including an explicit epoch, survives later reduced notes
      Ok(if !current.channel.Stable? && Below(core, StableOf(current)) then StableOf(current) else core)
  }

  function Thousand(v: Version): nat {
    v.major / 1000
  }

  function NextNumber(current: Version, channel: Channel, core: Version): nat {
    if current.channel == channel && StableOf(current) == core && Number(current).Some?
    then Number(current).value + 1 else 0
  }

  function OnChannel(core: Version, channel: Channel, number: nat): Version {
    if channel.Stable? then core else core.(channel := channel, identifiers := [number])
  }

  function PlanVersion(current: Version, request: Request, recorded: ReleaseBase): Result<Plan, PlanError> {
    var channel := request.channel;
    :- Need(channel.Nightly? || channel.Stable?, UnknownChannel);
    var bump :- HighestBump(request.pendingTypes);
    var cycleBump :- HighestBump(request.releaseTypes);
    :- Need(current.major >= 1000, NotEpochVersion);
    var base :- ReleaseBaseFor(current, recorded);
    var core :- SelectCore(current, base, request.epoch, bump, cycleBump, request.allowNoChanges);
    :- Need(Valid(core), UnsafeTarget);
    :- Need(Thousand(core) <= Thousand(current) || request.epoch.Some?, RangeExhausted);
    var promotion := StableOf(current) == core && current.channel != channel;
    :- Need(request.allowNoChanges || bump.Some? || promotion, NothingToRelease);
    :- Need(!promotion || Below(current, OnChannel(core, channel, 0)), PromotionGoesBack);
    var version := OnChannel(core, channel, NextNumber(current, channel, core));
    Ok(Plan(version, if bump.Some? then bump.value else Patch, promotion, base))
  }

  // ----- one plan -----

  /** A release type moves to the least core above the base that has no lower part. */
  predicate AtLevel(core: Version, bump: Option<Bump>) {
    && core.channel.Stable? && core.identifiers == []
    && (bump == Some(Major) ==> core.minor == 0 && core.patch == 0)
    && (bump == Some(Minor) ==> core.patch == 0)
  }

  lemma NextCoreIsLeast(base: Version, bump: Option<Bump>)
    requires base.channel.Stable?
    ensures AtLevel(NextCore(base, bump), bump) && Below(base, NextCore(base, bump))
    ensures forall core: Version | AtLevel(core, bump) && Below(base, core) :: Compare(NextCore(base, bump), core) <= 0
  {
  }

  /** Without an epoch the target is the later of the base's next core and the target already selected. */
  lemma PlanTarget(current: Version, request: Request, recorded: ReleaseBase)
    requires Valid(current) && PlanVersion(current, request, recorded).Ok?
    ensures var core := StableOf(PlanVersion(current, request, recorded).value.version);
            && Compare(StableOf(current), core) <= 0
            && (current.channel.Stable? ==> Below(current, core))
            && match (request.epoch, ReleaseBaseFor(current, recorded).value)
               case (Some(e), Some(_)) => core == Version(e, 0, 0, Stable, [])
               case (Some(_), None) => false
               case (None, None) => core == FIRST == StableOf(current)
               case (None, Some(base)) =>
                 var next := NextCore(base, HighestBump(request.releaseTypes).value);
                 Below(base, core) && Compare(next, core) <= 0 && core in {next, StableOf(current)}
  {
    var base := ReleaseBaseFor(current, recorded).value;
    if base.Some? {
      var next := NextCore(base.value, HighestBump(request.releaseTypes).value);
      NextCoreIsLeast(base.value, HighestBump(request.releaseTypes).value);
      Trichotomy(next, StableOf(current));
    }
  }

  /** The new version continues the run numbers of the current one. */
  predicate Continues(current: Version, target: Version) {
    current.channel == target.channel && StableOf(current) == StableOf(target)
  }

  /** Seen before planning: the prerelease channel stays, without an epoch, and the notes do not raise the target. */
  predicate KeepsNumbering(current: Version, request: Request, recorded: ReleaseBase) {
    && current.channel == request.channel && !current.channel.Stable? && request.epoch.None?
    && match (ReleaseBaseFor(current, recorded), HighestBump(request.releaseTypes))
       case (Ok(None), _) => true
       case (Ok(Some(base)), Ok(bump)) => !Below(StableOf(current), NextCore(base, bump))
       case _ => false
  }

  lemma NumberingKept(current: Version, request: Request, recorded: ReleaseBase)
    requires Valid(current) && PlanVersion(current, request, recorded).Ok?
    ensures Continues(current, PlanVersion(current, request, recorded).value.version) <==>
            KeepsNumbering(current, request, recorded)
  {
    var version := PlanVersion(current, request, recorded).value.version;
    PlanTarget(current, request, recorded);
    var base := ReleaseBaseFor(current, recorded).value;
    if base.Some? {
      Trichotomy(NextCore(base.value, HighestBump(request.releaseTypes).value), StableOf(current));
      Trichotomy(StableOf(current), StableOf(version));
    }
  }

  /**
   * A plan is an accepted version above the current one exactly when it starts new run numbers, or continues an
   * undated number below the safe integer bound, or a dated number that already reached the date.
   */
  lemma PlanAdvances(current: Version, request: Request, recorded: ReleaseBase)
    requires Valid(current) && PlanVersion(current, request, recorded).Ok?
    ensures var version := PlanVersion(current, request, recorded).value.version;
            && version.channel == request.channel && !Dated(version)
            && (KeepsNumbering(current, request, recorded) ==> version.identifiers == [Number(current).value + 1])
            && ((Valid(version) && Below(current, version)) <==>
                (KeepsNumbering(current, request, recorded) ==>
                   && Number(current).value < MAX_SAFE
                   && (Dated(current) ==> current.identifiers[0] <= Number(current).value)))
  {
    var version := PlanVersion(current, request, recorded).value.version;
    NumberingKept(current, request, recorded);
    PlanTarget(current, request, recorded);
    Trichotomy(StableOf(current), StableOf(version));
    if Continues(current, version) {
      assert !current.channel.Stable? && Number(current).Some?;
      assert version.identifiers == [Number(current).value + 1];
      ContinuedNumber(current, version);
      assert Valid(version) <==> Number(current).value < MAX_SAFE by {
        assert Number(current).value + 1 in version.identifiers;
      }
    } else if StableOf(current) == StableOf(version) {
      assert Below(current, version);
    } else {
      assert Below(current, version) && Valid(version);
    }
  }

  lemma ContinuedNumber(current: Version, version: Version)
    requires Valid(current) && current.identifiers != []
    requires Continues(current, version) && version.identifiers == [Number(current).value + 1]
    ensures Below(current, version) <==> (Dated(current) ==> current.identifiers[0] <= Number(current).value)
  {
    var a, b := current.identifiers, version.identifiers;
    assert a[0] == b[0] ==> CompareIdentifiers(a, b) == CompareIdentifiers(a[1..], b[1..]) == |a| - 1;
  }

  /** A dated source version is not always left behind: its next undated plan sorts below it. */
  lemma DatedSourceGoesBack()
    ensures var current := Version(1000, 0, 0, Nightly, [20261019, 16]);
            var plan := PlanVersion(current, Request(Nightly, [], [], None, true), Initial);
            Valid(current) && plan.Ok? && Valid(plan.value.version) && Below(plan.value.version, current)
  {
    var current := Version(1000, 0, 0, Nightly, [20261019, 16]);
    assert IsDate(20261019);
    assert HighestBump([]) == Ok(None);
    assert ReleaseBaseFor(current, Initial) == Ok(None);
    assert NextNumber(current, Nightly, FIRST) == 17;
    assert CompareIdentifiers([17], [20261019, 16]) < 0;
  }

  /** Only an explicit epoch, which must be a higher multiple of 1000, leaves the thousand of the current major. */
  lemma ThousandNeedsEpoch(current: Version, request: Request, recorded: ReleaseBase)
    requires Valid(current) && PlanVersion(current, request, recorded).Ok?
    ensures var version := PlanVersion(current, request, recorded).value.version;
            && (request.epoch.None? ==> Thousand(version) == Thousand(current))
            && (request.epoch.Some? ==> Thousand(current) < Thousand(version) && version.major == request.epoch.value)
  {
    PlanTarget(current, request, recorded);
  }

  /** What a plan needs besides a usable source: something to release, or a promotion of the selected target. */
  lemma PlanNeedsChanges(current: Version, request: Request, recorded: ReleaseBase)
    requires Valid(current) && request.pendingTypes == [] && !request.allowNoChanges
    requires request.releaseTypes == [] && request.epoch.None?
    requires request.channel.Nightly? || request.channel.Stable?
    requires current.major >= 1000 && ReleaseBaseFor(current, recorded).Ok?
    ensures PlanVersion(current, request, recorded).Ok? <==>
              && !current.channel.Stable? && current.channel != request.channel
              && (request.channel.Stable? || current.channel.Canary?)
              && (ReleaseBaseFor(current, recorded).value.Some? ==>
                  Valid(NextCore(ReleaseBaseFor(current, recorded).value.value, None)))
  {
    var base := ReleaseBaseFor(current, recorded).value;
    if base.Some? && !current.channel.Stable? {
      NextCoreIsLeast(base.value, None);
      Trichotomy(NextCore(base.value, None), StableOf(current));
      assert AtLevel(StableOf(current), None);
    }
  }

  /** The base a plan records is one the next plan of the same cycle accepts unchanged. */
  lemma PlanLeavesUsableBase(current: Version, request: Request, recorded: ReleaseBase)
    requires Valid(current) && PlanVersion(current, request, recorded).Ok?
    ensures var plan := PlanVersion(current, request, recorded).value;
            !plan.version.channel.Stable? ==> ReleaseBaseFor(plan.version, Recorded(plan)) == Ok(plan.releaseBase)
  {
    var plan := PlanVersion(current, request, recorded).value;
    PlanTarget(current, request, recorded);
    if plan.releaseBase.Some? {
      var base := plan.releaseBase.value;
      Trichotomy(StableOf(current), StableOf(plan.version));
      if request.epoch.Some? && StableOf(current) != base {
        Transitive(base, StableOf(current), StableOf(plan.version));
      }
    }
  }

  function Recorded(plan: Plan): ReleaseBase {
    if plan.releaseBase.None? then Initial else Base(plan.releaseBase.value)
  }

  // ----- nightly builds -----

  /** A nightly of the version the next Stable would have, above every published nightly of that core. */
  function PlanNightly(current: Version, pendingTypes: seq<string>, releaseTypes: seq<string>, recorded: ReleaseBase,
                       published: seq<Version>, date: nat, number: nat): Result<Version, PlanError>
  {
    var dated := IsDate(date);
    :- Need(dated, NoBuildDate);
    :- Need(1 <= number <= MAX_SAFE, NoRunNumber);
    var plan :- PlanVersion(current, Request(Nightly, pendingTypes, releaseTypes, None, true), recorded);
    :- Need(Valid(plan.version), UnsafeTarget);
    var version := plan.version.(identifiers := [date, number]);
    var newest := Newest(NightliesOf(published, version));
    if newest.Some? && Compare(version, newest.value) <= 0 then Err(BelowPublished(newest.value)) else Ok(version)
  }

  predicate SameCore(a: Version, b: Version) {
    StableOf(a) == StableOf(b)
  }

  /** The published nightlies of the version's core. */
  function NightliesOf(published: seq<Version>, version: Version): (found: seq<Version>)
    ensures forall v :: v in found <==> v in published && v.channel.Nightly? && SameCore(v, version)
  {
    if published == [] then []
    else
      var rest := NightliesOf(published[1..], version);
      if published[0].channel.Nightly? && SameCore(published[0], version) then [published[0]] + rest else rest
  }

  /** A planned nightly is a valid dated nightly above every published nightly of its core. */
  lemma NightlyIsNewest(current: Version, pendingTypes: seq<string>, releaseTypes: seq<string>, recorded: ReleaseBase,
                        published: seq<Version>, date: nat, number: nat)
    requires Valid(current)
    requires PlanNightly(current, pendingTypes, releaseTypes, recorded, published, date, number).Ok?
    ensures var version := PlanNightly(current, pendingTypes, releaseTypes, recorded, published, date, number).value;
            && Valid(version) && version.channel.Nightly? && version.identifiers == [date, number]
            && forall v <- published | v.channel.Nightly? && SameCore(v, version) :: Below(v, version)
  {
    var version := PlanNightly(current, pendingTypes, releaseTypes, recorded, published, date, number).value;
    PlanTarget(current, Request(Nightly, pendingTypes, releaseTypes, None, true), recorded);
    var found := NightliesOf(published, version);
    NewestIsGreatest(found);
    forall v | v in published && v.channel.Nightly? && SameCore(v, version) ensures Below(v, version) {
      var newest := Newest(found).value;
      Trichotomy(newest, version);
      if v != newest {
        Transitive(v, newest, version);
      }
    }
  }

  /** A nightly build is refused for its order exactly when a published nightly of its core is not below it. */
  lemma NightlyRefusal(current: Version, pendingTypes: seq<string>, releaseTypes: seq<string>, recorded: ReleaseBase,
                       published: seq<Version>, date: nat, number: nat)
    requires Valid(current) && IsDate(date) && 1 <= number <= MAX_SAFE
    requires var plan := PlanVersion(current, Request(Nightly, pendingTypes, releaseTypes, None, true), recorded);
             plan.Ok? && Valid(plan.value.version)
    ensures PlanNightly(current, pendingTypes, releaseTypes, recorded, published, date, number).Err? <==>
              var plan := PlanVersion(current, Request(Nightly, pendingTypes, releaseTypes, None, true), recorded).value;
              var version := plan.version.(identifiers := [date, number]);
              exists v <- published :: v.channel.Nightly? && SameCore(v, version) && !Below(v, version)
  {
    var plan := PlanVersion(current, Request(Nightly, pendingTypes, releaseTypes, None, true), recorded).value;
    var version := plan.version.(identifiers := [date, number]);
    var found := NightliesOf(published, version);
    NewestIsGreatest(found);
    if Newest(found).Some? {
      var newest := Newest(found).value;
      Trichotomy(newest, version);
      forall v | v in found && Below(newest, version) ensures Below(v, version) {
        if v != newest {
          Transitive(v, newest, version);
        }
      }
    }
  }

  /** Builds of one core sort by day first and then by run number, so different runs never share a version. */
  lemma NightlyOrder(core: Version, date: nat, number: nat, otherDate: nat, otherNumber: nat)
    ensures var a := core.(channel := Nightly, identifiers := [date, number]);
            var b := core.(channel := Nightly, identifiers := [otherDate, otherNumber]);
            && (Below(a, b) <==> date < otherDate || (date == otherDate && number < otherNumber))
            && (a == b <==> date == otherDate && number == otherNumber)
  {
    var a, b := [date, number], [otherDate, otherNumber];
    assert a[1..] == [number] && b[1..] == [otherNumber];
    assert CompareIdentifiers([number], [otherNumber]) < 0 <==> number < otherNumber by {
      assert [number][1..] == [] && [otherNumber][1..] == [];
    }
    assert a[0] == date && b[0] == otherDate && a[1] == number && b[1] == otherNumber;
  }
}
