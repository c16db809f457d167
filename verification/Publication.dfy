/** Decisions that compare a candidate with the published versions: its baseline, its supersession and its tag. */
module Publication {
  import opened Wrappers
  import opened Versions

  /** Content fingerprints and tarball digests only matter up to equality. */
  type Fingerprint = nat
  type Digest = nat

  datatype Candidate = Candidate(version: Version, channel: Channel, fingerprint: Fingerprint, tarball: Digest,
                                 baseline: Option<Version>)

  datatype Tag = ChannelTag(channel: Channel) | StagingTag(channel: Channel, line: (nat, nat))

  datatype PublishError =
    | WrongChannel | NewerPublished | NoNightlyOfCore | ContentDiffers | BaselineChanged | ReadsTimedOut

  function Filter(items: seq<Version>, keep: Version -> bool): (kept: seq<Version>)
    ensures forall x :: x in kept <==> x in items && keep(x)
    ensures |kept| <= |items|
  {
    if items == [] then []
    else if keep(items[0]) then [items[0]] + Filter(items[1..], keep) else Filter(items[1..], keep)
  }

  predicate SameStream(a: Version, b: Version) {
    a.channel == b.channel && Line(a) == Line(b)
  }

  /** The newest published version below a version that matches. */
  function NewestBelow(published: seq<Version>, version: Version, matches: Version -> bool): Option<Version> {
    Newest(Filter(published, (v: Version) => matches(v) && Below(v, version)))
  }

  /** The versions of a version's channel and line. */
  function StreamOf(version: Version): Version -> bool {
    v => SameStream(v, version)
  }

  predicate NightlyOf(v: Version, stable: Version) {
    v.channel.Nightly? && StableOf(v) == stable
  }

  /** The nightlies of a Stable version's core. */
  function NightliesOf(stable: Version): Version -> bool {
    v => NightlyOf(v, stable)
  }

  predicate HasNewer(published: seq<Version>, version: Version) {
    exists v <- published :: SameStream(v, version) && Below(version, v)
  }

  /** The published version a candidate is compared with. */
  function SelectBaseline(published: seq<Version>, version: Version, channel: Channel): Result<Option<Version>, PublishError> {
    var matches := version.channel == channel;
    :- Need(matches, WrongChannel);
    :- Need(!HasNewer(published, version), NewerPublished);
    if !channel.Stable? then Ok(NewestBelow(published, version, StreamOf(version)))
    else
      var checkpoint := NewestBelow(published, version, NightliesOf(version));
      :- Need(checkpoint.Some?, NoNightlyOfCore);
      Ok(checkpoint)
  }

  /** `b` is the greatest member of `published` that matches and lies below `version`. */
  ghost predicate IsNewestBelow(published: seq<Version>, version: Version, matches: Version -> bool, b: Version) {
    && b in published && matches(b) && Below(b, version)
    && forall v <- published | matches(v) && Below(v, version) :: v == b || Below(v, b)
  }

  lemma NewestBelowIsGreatest(published: seq<Version>, version: Version, matches: Version -> bool)
    ensures match NewestBelow(published, version, matches)
            case Some(b) => IsNewestBelow(published, version, matches, b)
            case None => forall v <- published :: !(matches(v) && Below(v, version))
  {
    NewestIsGreatest(Filter(published, (v: Version) => matches(v) && Below(v, version)));
  }

  /** The newest version below is unique, so it depends on the published set and not on its order. */
  lemma NewestBelowUnique(published: seq<Version>, version: Version, matches: Version -> bool, b: Version)
    requires IsNewestBelow(published, version, matches, b)
    ensures NewestBelow(published, version, matches) == Some(b)
  {
    NewestBelowIsGreatest(published, version, matches);
    var found := NewestBelow(published, version, matches).value;
    Trichotomy(found, b);
  }

  // ----- supersession at publication -----

  /** Nightlies of the candidate's line above its reviewed baseline, newest first. */
  function Window(candidate: Candidate, published: seq<Version>): seq<Version> {
    Reverse(Sort(Filter(published, (v: Version) => InWindow(candidate, v))))
  }

  predicate InWindow(candidate: Candidate, v: Version) {
    && Line(v) == Line(candidate.version) && v.channel.Nightly? && v != candidate.version
    && (candidate.baseline.Some? ==> Below(candidate.baseline.value, v))
  }

  function Reverse<T>(items: seq<T>): (reversed: seq<T>)
    ensures |reversed| == |items|
    ensures forall i | 0 <= i < |items| :: reversed[i] == items[|items| - 1 - i]
  {
    if items == [] then [] else Reverse(items[1..]) + [items[0]]
  }

  lemma {:induction false} ReverseKeepsMembers(items: seq<Version>)
    ensures forall v :: v in Reverse(items) <==> v in items
  {
    if items != [] {
      ReverseKeepsMembers(items[1..]);
      assert items == [items[0]] + items[1..];
    }
  }

  predicate NewestFirst(versions: seq<Version>) {
    forall i, j | 0 <= i < j < |versions| :: Compare(versions[j], versions[i]) <= 0
  }

  lemma WindowNewestFirst(candidate: Candidate, published: seq<Version>)
    ensures forall v :: v in Window(candidate, published) <==> v in published && InWindow(candidate, v)
    ensures NewestFirst(Window(candidate, published)) && |Window(candidate, published)| <= |published|
  {
    var found := Filter(published, (v: Version) => InWindow(candidate, v));
    SortSorts(found);
    SortKeepsMembers(found);
    ReverseKeepsMembers(Sort(found));
  }

  /**
   * The first window member with the candidate's content. The shared deadline passes before read number `budget`,
   * and then the scan fails.
   */
  function FirstMatch(window: seq<Version>, contents: map<Version, Fingerprint>, wanted: Fingerprint, budget: nat)
    : (r: Result<Option<Version>, PublishError>)
    requires forall v <- window :: v in contents
  {
    if window == [] then Ok(None)
    else
      :- Need(budget > 0, ReadsTimedOut);
      if contents[window[0]] == wanted then Ok(Some(window[0]))
      else FirstMatch(window[1..], contents, wanted, budget - 1)
  }

  datatype Verdict = Superseded(nightly: Version) | Proceed

  /** Whether a candidate may still publish over what was published since its preparation. */
  function AssertPublishBaseline(candidate: Candidate, published: seq<Version>, contents: map<Version, Fingerprint>,
                                 budget: nat): Result<Verdict, PublishError>
    requires forall v <- published :: v in contents
  {
    WindowNewestFirst(candidate, published);
    var window := if candidate.channel.Nightly? then Window(candidate, published) else [];
    var blocked := exists v <- window :: Below(candidate.version, v);
    var read := if blocked || window == [] then window else window[..1];
    var matching :- FirstMatch(read, contents, candidate.fingerprint, budget);
    if matching.Some? then Ok(Superseded(matching.value))
    else
      var version :- SelectBaseline(published, candidate.version, candidate.channel);
      var reviewed := candidate.baseline;
      if version == reviewed then Ok(Proceed)
      else
        var advanced := version.Some? && (reviewed.None? || Below(reviewed.value, version.value));
        :- Need(candidate.channel.Nightly? && advanced, BaselineChanged);
        Ok(Proceed)
  }

  lemma {:induction false} FirstMatchIsNewest(window: seq<Version>, contents: map<Version, Fingerprint>,
                                              wanted: Fingerprint, budget: nat)
    requires forall v <- window :: v in contents
    requires NewestFirst(window)
    ensures match FirstMatch(window, contents, wanted, budget)
            case Ok(Some(x)) =>
              && x in window && contents[x] == wanted
              && forall v <- window | contents[v] == wanted :: v == x || Below(v, x)
            case Ok(None) => forall v <- window :: contents[v] != wanted
            case Err(e) => e == ReadsTimedOut && budget < |window|
    ensures (exists v <- window :: contents[v] == wanted) && |window| <= budget ==>
              FirstMatch(window, contents, wanted, budget).Ok?
  {
    if window != [] && budget > 0 {
      if contents[window[0]] == wanted {
        forall v | v in window ensures v == window[0] || Below(v, window[0]) {
          Trichotomy(v, window[0]);
        }
      } else {
        FirstMatchIsNewest(window[1..], contents, wanted, budget - 1);
        assert window == [window[0]] + window[1..];
      }
    }
  }

  ghost predicate IsPredecessor(published: seq<Version>, version: Version, p: Version) {
    IsNewestBelow(published, version, StreamOf(version), p)
  }

  /** A candidate that may proceed is newer than every other published version of its channel and line. */
  lemma {:induction false} ProceedIsNewest(candidate: Candidate, published: seq<Version>,
                                           contents: map<Version, Fingerprint>, budget: nat, v: Version)
    requires forall v <- published :: v in contents
    requires AssertPublishBaseline(candidate, published, contents, budget) == Ok(Proceed)
    requires v in published && SameStream(v, candidate.version) && v != candidate.version
    ensures Below(v, candidate.version)
  {
    assert !HasNewer(published, candidate.version);
    Trichotomy(v, candidate.version);
  }

  /** Without a newer nightly the predecessor leads the window, or the window is empty. */
  lemma {:induction false} PredecessorLeadsWindow(candidate: Candidate, published: seq<Version>, p: Version)
    requires candidate.version.channel.Nightly? && !HasNewer(published, candidate.version)
    requires IsPredecessor(published, candidate.version, p)
    ensures var window := Window(candidate, published);
            if InWindow(candidate, p) then window != [] && window[..1] == [p] else window == []
  {
    var window := Window(candidate, published);
    WindowNewestFirst(candidate, published);
    forall v | v in window ensures v == p || Below(v, p) {
      Trichotomy(v, candidate.version);
    }
    if InWindow(candidate, p) {
      var i :| 0 <= i < |window| && window[i] == p;
      assert window[0] in window;
      Trichotomy(window[0], p);
      assert window[..1] == [window[0]];
    } else if window != [] {
      var v := window[0];
      assert v in window;
      if v != p {
        Transitive(candidate.baseline.value, v, p);
      }
      assert false;
    }
  }

  /** A proceeding nightly read its predecessor in the window and found other content. */
  lemma {:induction false} ProceedReadsPredecessor(candidate: Candidate, published: seq<Version>,
                                                   contents: map<Version, Fingerprint>, budget: nat, p: Version)
    requires forall v <- published :: v in contents
    requires candidate.channel.Nightly? && candidate.version.channel.Nightly?
    requires AssertPublishBaseline(candidate, published, contents, budget) == Ok(Proceed)
    requires IsPredecessor(published, candidate.version, p) && InWindow(candidate, p)
    ensures contents[p] != candidate.fingerprint
  {
    var window := Window(candidate, published);
    WindowNewestFirst(candidate, published);
    assert !HasNewer(published, candidate.version);
    PredecessorLeadsWindow(candidate, published, p);
    assert !(exists v <- window :: Below(candidate.version, v));
  }

  /** The reviewed baseline is still published and below the candidate, as it is in an append-only registry. */
  ghost predicate BaselineStillPublished(candidate: Candidate, published: seq<Version>) {
    candidate.baseline.Some? ==>
      var b := candidate.baseline.value;
      && b in published
      && (candidate.channel.Nightly? ==> SameStream(b, candidate.version) && Below(b, candidate.version))
  }

  /** Without a newer nightly: the predecessor supersedes the candidate when it counts and matches, or it proceeds. */
  ghost predicate IsOpenVerdict(candidate: Candidate, contents: map<Version, Fingerprint>, predecessor: Option<Version>,
                                verdict: Result<Verdict, PublishError>)
  {
    match predecessor
    case Some(p) =>
      && p in contents
      && verdict == Ok(if InWindow(candidate, p) && contents[p] == candidate.fingerprint then Superseded(p) else Proceed)
    case None => verdict == Ok(Proceed)
  }

  lemma {:induction false} OpenNightlyVerdict(candidate: Candidate, published: seq<Version>,
                                              contents: map<Version, Fingerprint>, budget: nat)
    requires forall v <- published :: v in contents
    requires candidate.channel.Nightly? && candidate.version.channel.Nightly?
    requires BaselineStillPublished(candidate, published) && !HasNewer(published, candidate.version) && budget > 0
    ensures IsOpenVerdict(candidate, contents, NewestBelow(published, candidate.version, StreamOf(candidate.version)),
                          AssertPublishBaseline(candidate, published, contents, budget))
  {
    var window := Window(candidate, published);
    WindowNewestFirst(candidate, published);
    NewestBelowIsGreatest(published, candidate.version, StreamOf(candidate.version));
    assert !(exists v <- window :: Below(candidate.version, v));
    var predecessor := NewestBelow(published, candidate.version, StreamOf(candidate.version));
    if predecessor.Some? {
      PredecessorLeadsWindow(candidate, published, predecessor.value);
      if candidate.baseline.Some? {
        Trichotomy(candidate.baseline.value, predecessor.value);
      }
      assert SelectBaseline(published, candidate.version, Nightly) == Ok(predecessor);
      if InWindow(candidate, predecessor.value) {
        assert window[..1][1..] == [];
        assert FirstMatch(window[..1], contents, candidate.fingerprint, budget) ==
               Ok(if contents[predecessor.value] == candidate.fingerprint then predecessor else None);
      } else {
        assert candidate.baseline == predecessor;
        assert FirstMatch(window, contents, candidate.fingerprint, budget) == Ok(None);
      }
    } else if window != [] {
      assert window[0] in window;
      Trichotomy(window[0], candidate.version);
      assert false;
    }
  }

  /** Below a newer nightly: the newest window member with the candidate's content supersedes it, or it fails. */
  ghost predicate IsBlockedVerdict(candidate: Candidate, published: seq<Version>, contents: map<Version, Fingerprint>,
                                   verdict: Result<Verdict, PublishError>)
    requires forall v <- published :: v in contents
  {
    match verdict
    case Ok(Superseded(x)) =>
      && x in published && InWindow(candidate, x) && contents[x] == candidate.fingerprint
      && forall v <- published | InWindow(candidate, v) && contents[v] == candidate.fingerprint :: v == x || Below(v, x)
    case Ok(Proceed) => false
    case Err(e) =>
      && e == NewerPublished
      && forall v <- published | InWindow(candidate, v) :: contents[v] != candidate.fingerprint
  }

  lemma {:induction false} BlockedNightlyVerdict(candidate: Candidate, published: seq<Version>,
                                                 contents: map<Version, Fingerprint>, budget: nat)
    requires forall v <- published :: v in contents
    requires candidate.channel.Nightly? && candidate.version.channel.Nightly?
    requires BaselineStillPublished(candidate, published) && HasNewer(published, candidate.version)
    requires |Window(candidate, published)| <= budget
    ensures IsBlockedVerdict(candidate, published, contents, AssertPublishBaseline(candidate, published, contents, budget))
  {
    var window := Window(candidate, published);
    WindowNewestFirst(candidate, published);
    var v :| v in published && SameStream(v, candidate.version) && Below(candidate.version, v);
    if candidate.baseline.Some? {
      Transitive(candidate.baseline.value, candidate.version, v);
    }
    Trichotomy(v, candidate.version);
    assert v in window;
    FirstMatchIsNewest(window, contents, candidate.fingerprint, budget);
  }

  /** What a Stable does: it proceeds exactly while its reviewed nightly is still the newest of its core. */
  lemma {:induction false} StableVerdict(candidate: Candidate, published: seq<Version>,
                                         contents: map<Version, Fingerprint>, budget: nat)
    requires forall v <- published :: v in contents
    requires candidate.channel.Stable? && candidate.version.channel.Stable? && candidate.baseline.Some?
    ensures AssertPublishBaseline(candidate, published, contents, budget) == Ok(Proceed) <==>
              && !HasNewer(published, candidate.version)
              && IsNewestBelow(published, candidate.version,
                               NightliesOf(candidate.version), candidate.baseline.value)
  {
    var matches := NightliesOf(candidate.version);
    NewestBelowIsGreatest(published, candidate.version, matches);
    if IsNewestBelow(published, candidate.version, matches, candidate.baseline.value) {
      NewestBelowUnique(published, candidate.version, matches, candidate.baseline.value);
    }
  }

  /** A passed deadline only turns an answer into a failure, it never changes the answer. */
  lemma {:induction false} DeadlineOnlyFails(candidate: Candidate, published: seq<Version>,
                                             contents: map<Version, Fingerprint>, budget: nat, ample: nat)
    requires forall v <- published :: v in contents
    requires budget <= ample
    ensures AssertPublishBaseline(candidate, published, contents, budget) in
              {Err(ReadsTimedOut), AssertPublishBaseline(candidate, published, contents, ample)}
  {
    WindowNewestFirst(candidate, published);
    var window := if candidate.channel.Nightly? then Window(candidate, published) else [];
    BudgetOnlyFails(window, contents, candidate.fingerprint, budget, ample);
    if window != [] {
      BudgetOnlyFails(window[..1], contents, candidate.fingerprint, budget, ample);
    }
  }

  lemma {:induction false} BudgetOnlyFails(window: seq<Version>, contents: map<Version, Fingerprint>,
                                           wanted: Fingerprint, budget: nat, ample: nat)
    requires (forall v <- window :: v in contents) && budget <= ample
    ensures FirstMatch(window, contents, wanted, budget) in
              {Err(ReadsTimedOut), FirstMatch(window, contents, wanted, ample)}
  {
    if window != [] && budget > 0 {
      BudgetOnlyFails(window[1..], contents, wanted, budget - 1, ample - 1);
    }
  }

  // ----- distribution tags -----

  datatype TagChoice = TagChoice(tag: Tag, advance: bool)

  /** The channel tag moves only to a higher version. */
  function NpmChannelTag(candidate: Candidate, tags: map<Tag, Version>): TagChoice {
    var tag := ChannelTag(candidate.channel);
    TagChoice(tag, tag !in tags || Below(tags[tag], candidate.version))
  }

  function UploadTag(candidate: Candidate, tags: map<Tag, Version>): Tag {
    if NpmChannelTag(candidate, tags).advance then ChannelTag(candidate.channel)
    else StagingTag(candidate.channel, Line(candidate.version))
  }

  datatype TagState = TagState(tag: Tag, confirmed: bool)

  function ChannelTagState(candidate: Candidate, tags: map<Tag, Version>): TagState {
    var choice := NpmChannelTag(candidate, tags);
    if choice.tag in tags && tags[choice.tag] == candidate.version then TagState(choice.tag, true)
    else if choice.advance then TagState(choice.tag, false)
    else if Line(tags[choice.tag]) == Line(candidate.version) then TagState(choice.tag, true)
    else
      var staging := StagingTag(candidate.channel, Line(candidate.version));
      TagState(staging, staging in tags && tags[staging] == candidate.version)
  }
}
