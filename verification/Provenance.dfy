/** Every passed Check traces back to a tree that passed the full checks. */
module Provenance {
  import opened Wrappers
  import opened Clocks
  import opened Reuse
  import Versions
  import opened VersionChange

  datatype File = File(mode: string, blob: string)

  /** A commit's tree: its files by path. */
  type Tree = map<string, File>

  function FileAt(tree: Tree, path: string): Option<File> {
    if path in tree then Some(tree[path]) else None
  }

  /** The raw change list from one tree to another: an entry for every path that differs, with what was and is there. */
  ghost predicate IsDiff(entries: seq<Entry>, before: Tree, after: Tree) {
    && (forall path :: FileAt(before, path) != FileAt(after, path) ==> exists entry <- entries :: entry.path == path)
    && (forall entry <- entries ::
          && (entry.status != 'A' ==> FileAt(before, entry.path) == Some(File(entry.srcMode, entry.srcBlob)))
          && (entry.status != 'D' ==> FileAt(after, entry.path) == Some(File(entry.dstMode, entry.dstBlob))))
  }

  predicate IsReleasePath(path: string) {
    path == MANIFEST || path == CHANGELOG || CHANGESETS <= path
  }

  /** Trees that agree on everything but the files a release writes. */
  ghost predicate SameSource(one: Tree, other: Tree) {
    forall path :: !IsReleasePath(path) ==> FileAt(one, path) == FileAt(other, path)
  }

  /** What the repository reads out of a blob. */
  datatype Contents = Contents(blob: BlobReader, versionOf: VersionReader)

  function VersionOfTree(tree: Tree, contents: Contents): Option<string> {
    if MANIFEST !in tree then None
    else
      var version := (contents.versionOf)((contents.blob)(tree[MANIFEST].blob));
      if version.Ok? then version.value else None
  }

  /** A change that the detection calls version-only. */
  ghost predicate IsVersionOnly(entries: seq<Entry>, before: Tree, after: Tree, contents: Contents) {
    && IsDiff(entries, before, after) && AreReleaseChanges(entries, |entries|)
    && var manifest, changelog := LastModified(entries, MANIFEST), LastModified(entries, CHANGELOG);
    && manifest.Some? && changelog.Some?
    && var change :=
         VersionChange.Contents(manifest.value, changelog.value, contents.blob, contents.versionOf);
       change.Ok? && change.value.VersionOnly?
  }

  lemma {:induction false} ReleaseChangePath(entries: seq<Entry>, i: nat)
    requires i < |entries| && IsReleaseChange(entries, i)
    ensures IsReleasePath(entries[i].path)
  {
    hide NoteAt;
    assert CHANGESETS <= PRE_STATE;
  }

  /** A version-only change keeps the source and raises the version. */
  lemma {:induction false} VersionOnlyRaises(entries: seq<Entry>, before: Tree, after: Tree, contents: Contents)
    requires IsVersionOnly(entries, before, after, contents)
    ensures SameSource(before, after)
    ensures var from, to := VersionOfTree(before, contents), VersionOfTree(after, contents);
      from.Some? && to.Some? && IsHigher(to.value, from.value)
  {
    hide IsReleaseChange, AddsOnlySection, IsHigher;
    forall path | !IsReleasePath(path) ensures FileAt(before, path) == FileAt(after, path) {
      if entry :| entry in entries && entry.path == path {
        var i :| 0 <= i < |entries| && entries[i] == entry;
        ReleaseChangePath(entries, i);
      }
    }
    var manifest := LastModified(entries, MANIFEST).value;
    var was, now := (contents.blob)(manifest.srcBlob), (contents.blob)(manifest.dstBlob);
    var head, tail, line := FoundIsBump(was, now, contents.versionOf);
    assert FileAt(before, MANIFEST) == Some(File(manifest.srcMode, manifest.srcBlob));
    assert FileAt(after, MANIFEST) == Some(File(manifest.dstMode, manifest.dstBlob));
  }

  // ---------------------------------------------------------------- what the checks of an attempt come to

  /** What does not change: the tree of each run's commit, the files of each tree and what blobs hold. */
  datatype Repository = Repository(treeOf: int -> string, store: string -> Tree, contents: Contents)

  /** The three ways to a certificate, with the lookup that leads to the last two. */
  datatype Mode =
    | FullChecks
    | Reused(lookup: Lookup)
    | ReleaseChecks(lookup: Lookup, entries: seq<Entry>)

  /** What entitles an attempt on a tree to skip checks. */
  ghost predicate Justifies(mode: Mode, tree: string, world: World, repository: Repository) {
    match mode
    case FullChecks => true
    case Reused(lookup) =>
      FindsReference(lookup) && RestsOn(lookup, world, repository.treeOf) && lookup.search.tree == tree
    case ReleaseChecks(lookup, entries) =>
      && FindsReference(lookup) && RestsOn(lookup, world, repository.treeOf)
      && IsVersionOnly(
           entries, repository.store(lookup.search.tree), repository.store(tree), repository.contents)
  }

  /** A justification found earlier still holds when the attempt comes to pass. */
  lemma {:induction false} JustifiesOn(mode: Mode, tree: string, before: World, after: World, repository: Repository)
    requires Justifies(mode, tree, before, repository) && Evolves(before, after)
    ensures Justifies(mode, tree, after, repository)
  {
    hide Stands, Evolves, IsVersionOnly, FindsReference;
    if !mode.FullChecks? {
      forall seen <- mode.lookup.all ensures Stands(after, seen.run.id, seen.evidence, false) {
        StandsOn(before, after, seen.run.id, seen.evidence, false);
      }
    }
  }

  datatype Decision = RunChecks | ReuseCheck(reference: Reference) | RunReleaseChecks(parent: Reference)

  const WAIT_BOUND := 40 * 60000

  /** Whether the changes from the parent's tree are of release version files only. */
  method Detect(entries: Result<seq<Entry>, Thrown>, contents: Contents) returns (versionOnly: bool)
    ensures versionOnly ==> entries.Ok?
    ensures versionOnly ==> forall before, after | IsDiff(entries.value, before, after) ::
      IsVersionOnly(entries.value, before, after, contents)
  {
    hide AreReleaseChanges, LastModified, IsDiff, VersionChange.Contents;
    if entries.Err? || entries.value == [] {
      return false;
    }
    var change := ClassifyVersionChange(entries.value, contents.blob, contents.versionOf);
    return change.Ok? && change.value.VersionOnly?;
  }

  /**
   * The two lookups of one attempt, for its tree and then for its parent's, within one wait bound.
   * Any failure runs the checks, and whatever is decided instead is justified.
   */
  method DecideChecks(
      checks: Checks, clock: Clock, search: Search, entries: Result<seq<Entry>, Thrown>, parentTree: string,
      ghost repository: Repository, contents: Contents)
    returns (decision: Decision, ghost mode: Mode)
    requires checks.treeOf == repository.treeOf && contents == repository.contents
    requires entries.Ok? ==> IsDiff(entries.value, repository.store(parentTree), repository.store(search.tree))
    modifies checks, clock
    ensures Evolves(old(checks.world), checks.world)
    ensures Justifies(mode, search.tree, checks.world, repository)
    ensures match decision
      case RunChecks => mode == FullChecks
      case ReuseCheck(reference) => mode.Reused? && ReferenceOf(mode.lookup) == reference
      case RunReleaseChecks(parent) =>
        mode.ReleaseChecks? && ReferenceOf(mode.lookup) == parent && mode.lookup.search.tree == parentTree
  {
    hide Decide, Stands, Evolves, IsDiff, IsVersionOnly, Concerning, TellsTrees, AreMoments;
    mode := FullChecks;
    var start := clock.Now();
    var deadline := start + WAIT_BOUND;
    var now := clock.Now();
    var own, all, moments := FindReusableCheck(checks, clock, search, Max(0, deadline - now));
    if own.Err? {
      return RunChecks, mode;
    }
    if own.value.Some? {
      mode := Reused(Lookup(all, checks.listed.value, search));
      StandAlone(all, checks.world, checks.atomic, checks.readings);
      return ReuseCheck(own.value.value), mode;
    }
    var versionOnly := Detect(entries, contents);
    if !versionOnly {
      return RunChecks, mode;
    }
    ghost var between := checks.world;
    now := clock.Now();
    var parentSearch := search.(tree := parentTree);
    var parent;
    parent, all, moments := FindReusableCheck(checks, clock, parentSearch, Max(0, deadline - now));
    EvolvesOn(old(checks.world), between, checks.world);
    if parent.Err? || parent.value.None? {
      return RunChecks, mode;
    }
    mode := ReleaseChecks(Lookup(all, checks.listed.value, parentSearch), entries.value);
    StandAlone(all, checks.world, checks.atomic, checks.readings);
    return RunReleaseChecks(parent.value.value), mode;
  }

  lemma StandAlone(all: seq<Seen>, world: World, atomic: bool, readings: set<(int, Evidence.Evidence)>)
    requires AllStand(all, world, atomic, readings)
    ensures forall seen <- all :: Stands(world, seen.run.id, seen.evidence, false)
  {}

  // ---------------------------------------------------------------- the history of passes

  /** Why a certificate passed, with the certificate it rests on. */
  datatype Origin =
    | Full
    | SameTree(reference: Reference)
    | VersionOnlyOver(reference: Reference, entries: seq<Entry>)

  datatype Pass = Pass(reference: Reference, tree: string, origin: Origin)

  /** The certificates that have passed, in that order, in a world that goes on. */
  datatype State = State(world: World, history: seq<Pass>)

  /** One certificate passes, or anything else happens. */
  datatype Step = Quiet(world: World) | Certify(world: World, reference: Reference, mode: Mode)

  function OriginOf(mode: Mode): Origin
    requires !mode.FullChecks? ==> FindsReference(mode.lookup)
  {
    match mode
    case FullChecks => Full
    case Reused(lookup) => SameTree(ReferenceOf(lookup))
    case ReleaseChecks(lookup, entries) => VersionOnlyOver(ReferenceOf(lookup), entries)
  }

  /** Only a certified attempt passes, and it skips checks only with a lookup in the world it finds. */
  ghost predicate Allowed(state: State, step: Step, repository: Repository) {
    && Evolves(state.world, step.world)
    && match step
       case Quiet(world) => forall reference | Passed(world, reference) :: Passed(state.world, reference)
       case Certify(world, certified, mode) =>
         && !Passed(state.world, certified) && Passed(world, certified)
         && (forall reference | Passed(world, reference) :: reference == certified || Passed(state.world, reference))
         && Justifies(mode, repository.treeOf(certified.runId), state.world, repository)
  }

  function Do(state: State, step: Step, repository: Repository): State
    requires step.Certify? && !step.mode.FullChecks? ==> FindsReference(step.mode.lookup)
  {
    match step
    case Quiet(world) => State(world, state.history)
    case Certify(world, reference, mode) =>
      State(world, state.history + [Pass.Pass(reference, repository.treeOf(reference.runId), OriginOf(mode))])
  }

  /** The states of a run, each by an allowed step from the one before, from a start without passes. */
  ghost predicate IsRun(states: seq<State>, steps: seq<Step>, repository: Repository) {
    && |states| == |steps| + 1
    && states[0].history == [] && (forall reference :: !Passed(states[0].world, reference))
    && forall i | 0 <= i < |steps| ::
         Allowed(states[i], steps[i], repository) && states[i + 1] == Do(states[i], steps[i], repository)
  }

  /** A pass needs the full checks, an earlier pass of its tree, or a version-only change over an earlier pass. */
  ghost predicate IsAdmissible(history: seq<Pass>, i: nat, repository: Repository)
    requires i < |history|
  {
    match history[i].origin
    case Full => true
    case SameTree(reference) =>
      exists of: nat :: of < i && history[of].reference == reference && history[of].tree == history[i].tree
    case VersionOnlyOver(reference, entries) =>
      exists of: nat :: of < i && history[of].reference == reference && IsVersionOnly(
        entries, repository.store(history[of].tree), repository.store(history[i].tree), repository.contents)
  }

  ghost predicate IsHistory(history: seq<Pass>, repository: Repository) {
    forall i: nat | i < |history| :: IsAdmissible(history, i, repository)
  }

  predicate IsRecorded(history: seq<Pass>, reference: Reference) {
    exists i | 0 <= i < |history| :: history[i].reference == reference
  }

  /** Whatever passed is recorded, with the tree of its run. */
  ghost predicate Records(state: State, repository: Repository) {
    && (forall reference | Passed(state.world, reference) :: IsRecorded(state.history, reference))
    && (forall pass <- state.history :: pass.tree == repository.treeOf(pass.reference.runId))
  }

  /** The certificate that a lookup found passed before, for the tree it searched. */
  lemma {:induction false} FoundIsRecorded(state: State, lookup: Lookup, repository: Repository) returns (of: nat)
    requires Records(state, repository)
    requires FindsReference(lookup) && RestsOn(lookup, state.world, repository.treeOf)
    ensures of < |state.history| && state.history[of].reference == ReferenceOf(lookup)
    ensures state.history[of].tree == lookup.search.tree
  {
    hide Decide, Stands, Passed, RestsOn;
    LookupPassed(lookup, state.world, repository.treeOf);
    ReferenceHasTree(lookup, state.world, repository.treeOf);
    of :| 0 <= of < |state.history| && state.history[of].reference == ReferenceOf(lookup);
    assert state.history[of] in state.history;
  }

  lemma LookupPassed(lookup: Lookup, world: World, treeOf: int -> string)
    requires FindsReference(lookup) && RestsOn(lookup, world, treeOf)
    ensures Passed(world, ReferenceOf(lookup))
  {
    hide Decide, Stands, Passed;
    ReferencePassed(lookup.all, lookup.search.startedAt.time, world, false);
  }

  /** A step records what passes, and keeps every pass admissible. */
  lemma {:induction false} StepKeepsHistory(state: State, step: Step, repository: Repository)
    requires Records(state, repository) && IsHistory(state.history, repository)
    requires Allowed(state, step, repository)
    ensures Records(Do(state, step, repository), repository)
    ensures IsHistory(Do(state, step, repository).history, repository)
  {
    hide Passed, Evolves, RestsOn, FindsReference, ReferenceOf, IsVersionOnly;
    var after := Do(state, step, repository);
    if step.Certify? {
      var n := |state.history|;
      var pass := after.history[n];
      forall reference | Passed(after.world, reference) ensures IsRecorded(after.history, reference) {
        if reference == step.reference {
          assert after.history[n].reference == reference;
        } else {
          var i :| 0 <= i < n && state.history[i].reference == reference;
          assert after.history[i].reference == reference;
        }
      }
      assert IsAdmissible(after.history, n, repository) by {
        if !step.mode.FullChecks? {
          var of := FoundIsRecorded(state, step.mode.lookup, repository);
          assert after.history[of] == state.history[of];
        }
      }
      forall i: nat | i < n ensures IsAdmissible(after.history, i, repository) {
        AdmissibleStays(state.history, pass, i, repository);
      }
    }
  }

  lemma AdmissibleStays(history: seq<Pass>, pass: Pass, i: nat, repository: Repository)
    requires i < |history| && IsAdmissible(history, i, repository)
    ensures IsAdmissible(history + [pass], i, repository)
  {
    hide IsVersionOnly;
    var more := history + [pass];
    assert forall k | 0 <= k < |history| :: more[k] == history[k];
  }

  /** In every run, each pass that rests on another has one that did pass before, for the right tree. */
  lemma {:induction false} RunKeepsHistory(states: seq<State>, steps: seq<Step>, repository: Repository)
    requires IsRun(states, steps, repository)
    ensures var last := states[|steps|];
      Records(last, repository) && IsHistory(last.history, repository)
    decreases |steps|
  {
    hide Passed, Allowed, Do, Records, IsHistory;
    if steps == [] {
      EmptyHistory(states[0], repository);
    } else {
      var n := |steps| - 1;
      RunKeepsHistory(states[..n + 1], steps[..n], repository);
      assert states[..n + 1][n] == states[n];
      StepKeepsHistory(states[n], steps[n], repository);
    }
  }

  lemma EmptyHistory(state: State, repository: Repository)
    requires state.history == [] && forall reference :: !Passed(state.world, reference)
    ensures Records(state, repository) && IsHistory(state.history, repository)
  {}

  // ---------------------------------------------------------------- chains of passes

  /** One link of a chain, from a pass to the earlier one it rests on. */
  predicate IsLink(history: seq<Pass>, from: nat, to: nat)
    requires from < |history| && to < |history|
  {
    && to < from && !history[from].origin.Full?
    && history[from].origin.reference == history[to].reference
  }

  /** A link keeps the tree, or keeps its source and raises its version. */
  ghost predicate LinkHolds(history: seq<Pass>, from: nat, to: nat, repository: Repository)
    requires from < |history| && to < |history|
  {
    && IsLink(history, from, to)
    && if history[from].origin.SameTree? then history[to].tree == history[from].tree
       else Raises(history[to].tree, history[from].tree, repository)
  }

  ghost predicate Raises(from: string, to: string, repository: Repository) {
    && SameSource(repository.store(from), repository.store(to))
    && var was := VersionOfTree(repository.store(from), repository.contents);
       var now := VersionOfTree(repository.store(to), repository.contents);
       was.Some? && now.Some? && IsHigher(now.value, was.value)
  }

  /** A chain of passes down to one that ran the full checks. */
  ghost predicate IsTrace(history: seq<Pass>, trace: seq<nat>, repository: Repository) {
    && trace != [] && (forall k | 0 <= k < |trace| :: trace[k] < |history|)
    && (forall k | 0 <= k < |trace| - 1 :: LinkHolds(history, trace[k], trace[k + 1], repository))
    && history[trace[|trace| - 1]].origin.Full?
  }

  predicate HasBump(history: seq<Pass>, trace: seq<nat>)
    requires forall k | 0 <= k < |trace| :: trace[k] < |history|
  {
    exists k | 0 <= k < |trace| :: history[trace[k]].origin.VersionOnlyOver?
  }

  /** The tree that passes is the one that was checked, or its source with a strictly higher version. */
  ghost predicate Follows(tree: string, checked: string, bumped: bool, repository: Repository) {
    if bumped then Raises(checked, tree, repository) else tree == checked
  }

  lemma HigherIsTransitive(a: string, b: string, c: string)
    requires IsHigher(b, a) && IsHigher(c, b)
    ensures IsHigher(c, a)
  {
    var x, y, z := Versions.ParseVersion(a).value, Versions.ParseVersion(b).value, Versions.ParseVersion(c).value;
    Versions.Trichotomy(x, y);
    Versions.Trichotomy(y, z);
    Versions.Transitive(x, y, z);
    Versions.Trichotomy(x, z);
  }

  lemma RaisesOn(a: string, b: string, c: string, repository: Repository)
    requires Raises(a, b, repository) && Raises(b, c, repository)
    ensures Raises(a, c, repository)
  {
    hide IsHigher, SameSource, VersionOfTree;
    SameSourceOn(repository.store(a), repository.store(b), repository.store(c));
    HigherIsTransitive(
      VersionOfTree(repository.store(a), repository.contents).value,
      VersionOfTree(repository.store(b), repository.contents).value,
      VersionOfTree(repository.store(c), repository.contents).value);
  }

  /**
   * Every pass has a finite chain of earlier passes back to one of the full checks. Each link keeps
   * the tree or, with a version-only change, the source under a strictly higher version.
   */
  lemma {:induction false} PassTraces(history: seq<Pass>, i: nat, repository: Repository) returns (trace: seq<nat>)
    requires IsHistory(history, repository) && i < |history|
    ensures IsTrace(history, trace, repository) && trace[0] == i
    ensures Follows(history[i].tree, history[trace[|trace| - 1]].tree, HasBump(history, trace), repository)
    decreases i
  {
    hide IsVersionOnly, Raises;
    assert IsAdmissible(history, i, repository);
    var pass := history[i];
    match pass.origin
    case Full =>
      trace := [i];
    case SameTree(reference) =>
      var of: nat :| of < i && history[of].reference == reference && history[of].tree == pass.tree;
      var rest := PassTraces(history, of, repository);
      trace := [i] + rest;
      TraceOn(history, i, rest, repository);
    case VersionOnlyOver(reference, entries) =>
      var of: nat :| of < i && history[of].reference == reference && IsVersionOnly(
        entries, repository.store(history[of].tree), repository.store(pass.tree), repository.contents);
      var rest := PassTraces(history, of, repository);
      trace := [i] + rest;
      LinkRaises(entries, history[of].tree, pass.tree, repository);
      TraceOn(history, i, rest, repository);
      if HasBump(history, rest) {
        RaisesOn(history[rest[|rest| - 1]].tree, history[of].tree, pass.tree, repository);
      }
  }

  lemma LinkRaises(entries: seq<Entry>, before: string, after: string, repository: Repository)
    requires IsVersionOnly(entries, repository.store(before), repository.store(after), repository.contents)
    ensures Raises(before, after, repository)
  {
    hide IsVersionOnly;
    VersionOnlyRaises(entries, repository.store(before), repository.store(after), repository.contents);
  }

  /** So in every run, whatever passed traces back to the full checks. */
  lemma {:induction false} PassedTraces(
      states: seq<State>, steps: seq<Step>, repository: Repository, reference: Reference)
    returns (trace: seq<nat>)
    requires IsRun(states, steps, repository) && Passed(states[|steps|].world, reference)
    ensures var history := states[|steps|].history;
      && IsTrace(history, trace, repository)
      && history[trace[0]].reference == reference
      && history[trace[0]].tree == repository.treeOf(reference.runId)
      && Follows(history[trace[0]].tree, history[trace[|trace| - 1]].tree, HasBump(history, trace), repository)
  {
    hide Passed, IsHistory, Follows;
    RunKeepsHistory(states, steps, repository);
    var history := states[|steps|].history;
    var i :| 0 <= i < |history| && history[i].reference == reference;
    assert history[i] in history;
    trace := PassTraces(history, i, repository);
  }

  lemma SameSourceOn(a: Tree, b: Tree, c: Tree)
    requires SameSource(a, b) && SameSource(b, c)
    ensures SameSource(a, c)
  {}

  lemma {:induction false} TraceOn(history: seq<Pass>, i: nat, rest: seq<nat>, repository: Repository)
    requires i < |history| && IsTrace(history, rest, repository) && LinkHolds(history, i, rest[0], repository)
    ensures IsTrace(history, [i] + rest, repository)
    ensures HasBump(history, [i] + rest) <==> history[i].origin.VersionOnlyOver? || HasBump(history, rest)
  {
    hide LinkHolds;
    var trace := [i] + rest;
    assert trace[0] == i && forall k | 0 < k < |trace| :: trace[k] == rest[k - 1];
    if HasBump(history, rest) {
      var k :| 0 <= k < |rest| && history[rest[k]].origin.VersionOnlyOver?;
      assert trace[k + 1] == rest[k];
    }
  }
}
