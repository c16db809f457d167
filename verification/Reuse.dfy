/** Finds a passed Check for the same content, while other attempts of the same Check are at work. */
module Reuse {
  import opened Wrappers
  import opened Clocks
  import opened Evidence

  const WORKFLOW_PATH := ".github/workflows/ci.yml"
  const EVIDENCE_EVENTS: set<string> := {"push", "workflow_dispatch"}
  const INCONCLUSIVE: set<string> := {"cancelled", "skipped", "stale"}
  const LONGEST_SLEEP := 30000

  datatype Time = Missing | Invalid | At(time: int)

  /** A run as the list of runs shows it. */
  datatype Listed = Listed(
    id: int, attempt: int, path: string, workflowId: int, event: string, repository: string,
    headRepository: string, headSha: string, commitId: string, tree: string, startedAt: Time, createdAt: Time)

  /** What one attempt looks for. */
  datatype Search = Search(
    scope: string, tree: string, runId: int, startedAt: Time, repository: string, workflowId: Option<int>)

  datatype Seen = Seen(run: Listed, evidence: Evidence)

  datatype Reference = Reference(runId: int, runAttempt: int)

  datatype Verdict = Await(runs: seq<Listed>) | NoReuse | Reuse(reference: Reference)

  datatype Failure =
    | BadSearch | BadList | ReadFailed(fault: Fault) | UnfinishedInFinishedRun | NoStartTime | NoCompletionTime

  predicate Concerns(run: Listed, search: Search) {
    && PositiveInteger(run.id) && run.id != search.runId
    && run.path == WORKFLOW_PATH
    && (search.workflowId.Some? ==> run.workflowId == search.workflowId.value)
    && run.event in EVIDENCE_EVENTS
    && run.repository == search.repository && run.headRepository == search.repository
    && run.commitId == run.headSha && run.tree == search.tree
  }

  function Concerning(runs: seq<Listed>, search: Search): (matching: seq<Listed>)
    ensures forall run :: run in matching <==> run in runs && Concerns(run, search)
  {
    if runs == [] then []
    else (if Concerns(runs[0], search) then [runs[0]] else []) + Concerning(runs[1..], search)
  }

  // ---------------------------------------------------------------- the decision

  predicate IsDone(evidence: Evidence) {
    evidence.job.Some? && evidence.job.value.Job? && evidence.job.value.status == "completed"
  }

  function StartOf(run: Listed): Time {
    if !run.startedAt.Missing? then run.startedAt else if run.attempt == 1 then run.createdAt else Missing
  }

  /** Whether a certificate must be awaited: unfinished, and of an attempt that started first. */
  function IsPending(seen: Seen, startedAt: int): Result<bool, Failure> {
    if IsDone(seen.evidence) then Ok(false)
    else if seen.evidence.runStatus == "completed" then
      if seen.evidence.job.Some? then Err(UnfinishedInFinishedRun) else Ok(false)
    else
      match StartOf(seen.run)
      case At(start) => Ok(start < startedAt)
      case _ => Err(NoStartTime)
  }

  function Pending(all: seq<Seen>, startedAt: int): Result<seq<Listed>, Failure> {
    if all == [] then Ok([])
    else
      var first :- IsPending(all[0], startedAt);
      var rest :- Pending(all[1..], startedAt);
      Ok((if first then [all[0].run] else []) + rest)
  }

  predicate IsConclusive(seen: Seen) {
    IsDone(seen.evidence) &&
    (seen.evidence.job.value.conclusion.Some? ==> seen.evidence.job.value.conclusion.value !in INCONCLUSIVE)
  }

  function Conclusive(all: seq<Seen>): (conclusive: seq<Seen>)
    ensures forall seen :: seen in conclusive <==> seen in all && IsConclusive(seen)
  {
    if all == [] then []
    else (if IsConclusive(all[0]) then [all[0]] else []) + Conclusive(all[1..])
  }

  predicate HasCompletion(seen: Seen) {
    IsConclusive(seen) && seen.evidence.job.value.completedAt.Some?
  }

  function CompletionOf(seen: Seen): int
    requires HasCompletion(seen)
  {
    seen.evidence.job.value.completedAt.value
  }

  predicate IsSuccess(seen: Seen) {
    seen.evidence.job.Some? && seen.evidence.job.value.Job? && seen.evidence.job.value.conclusion == Some("success")
  }

  /** Later completion first, then the higher run ID. */
  predicate IsNewer(a: Seen, b: Seen)
    requires HasCompletion(a) && HasCompletion(b)
  {
    CompletionOf(a) > CompletionOf(b) || (CompletionOf(a) == CompletionOf(b) && a.run.id > b.run.id)
  }

  /** The first of the list once it is sorted: no other is newer. */
  function Newest(list: seq<Seen>): (newest: Seen)
    requires list != [] && forall seen <- list :: HasCompletion(seen)
    ensures newest in list
    ensures forall seen <- list :: !IsNewer(seen, newest)
  {
    if |list| == 1 then list[0]
    else
      var earlier, last := list[..|list| - 1], list[|list| - 1];
      assert list == earlier + [last];
      var newest := Newest(earlier);
      if IsNewer(last, newest) then last else newest
  }

  /** The newest conclusive result decides, and any failure completed with it decides against it. */
  function Choose(conclusive: seq<Seen>): Result<Verdict, Failure> {
    if exists seen <- conclusive :: !HasCompletion(seen) then Err(NoCompletionTime)
    else if conclusive == [] then Ok(NoReuse)
    else
      var newest := Newest(conclusive);
      if exists seen <- conclusive :: CompletionOf(seen) == CompletionOf(newest) && !IsSuccess(seen) then Ok(NoReuse)
      else Ok(Reuse(Reference(newest.run.id, newest.evidence.attempt)))
  }

  function Decide(all: seq<Seen>, startedAt: int): Result<Verdict, Failure> {
    var pending :- Pending(all, startedAt);
    if pending != [] then Ok(Await(pending)) else Choose(Conclusive(all))
  }

  lemma {:induction false} PendingRuns(all: seq<Seen>, startedAt: int)
    ensures Pending(all, startedAt).Ok? <==> forall seen <- all :: IsPending(seen, startedAt).Ok?
    ensures Pending(all, startedAt).Ok? ==>
      forall run :: run in Pending(all, startedAt).value
        <==> exists seen :: seen in all && seen.run == run && IsPending(seen, startedAt) == Ok(true)
    ensures Pending(all, startedAt) == Ok([]) <==> forall seen <- all :: IsPending(seen, startedAt) == Ok(false)
  {
    if all != [] {
      PendingRuns(all[1..], startedAt);
      assert all == [all[0]] + all[1..];
      assert Pending(all, startedAt).Ok? ==>
        |Pending(all, startedAt).value| >= |Pending(all[1..], startedAt).value|;
    }
  }

  /** A conclusive result that no other outlives, and that every other of that moment agrees with. */
  ghost predicate IsLatestSuccess(decisive: Seen, all: seq<Seen>) {
    && decisive in all && HasCompletion(decisive)
    && (forall other <- all | HasCompletion(other) ::
          && CompletionOf(other) <= CompletionOf(decisive)
          && (CompletionOf(other) == CompletionOf(decisive) ==> IsSuccess(other) && other.run.id <= decisive.run.id))
  }

  /**
   * A reference is returned exactly when nothing that started first is pending and the latest
   * conclusive result, at its moment without exception, is success.
   */
  lemma {:induction false} ReuseIsLatestSuccess(all: seq<Seen>, startedAt: int)
    ensures (Decide(all, startedAt).Ok? && Decide(all, startedAt).value.Reuse?) <==>
      (&& (forall seen <- all :: IsPending(seen, startedAt) == Ok(false))
       && (forall seen <- all | IsConclusive(seen) :: HasCompletion(seen))
       && exists decisive :: IsLatestSuccess(decisive, all))
    ensures Decide(all, startedAt).Ok? && Decide(all, startedAt).value.Reuse? ==>
      exists decisive :: IsLatestSuccess(decisive, all)
        && Decide(all, startedAt).value.reference == Reference(decisive.run.id, decisive.evidence.attempt)
  {
    hide IsPending, Pending, IsConclusive, IsSuccess;
    PendingRuns(all, startedAt);
    var conclusive := Conclusive(all);
    if Pending(all, startedAt) == Ok([]) && forall seen <- conclusive :: HasCompletion(seen) {
      if conclusive != [] {
        var newest := Newest(conclusive);
        if decisive :| IsLatestSuccess(decisive, all) {
          ConclusiveHasCompletion(decisive);
          assert !IsNewer(decisive, newest);
        }
        if forall seen <- conclusive | CompletionOf(seen) == CompletionOf(newest) :: IsSuccess(seen) {
          NewestIsLatest(all, newest);
        }
      } else {
        assert forall decisive :: HasCompletion(decisive) ==> decisive !in all by {
          forall decisive | HasCompletion(decisive) ensures decisive !in all { ConclusiveHasCompletion(decisive); }
        }
      }
    }
  }

  lemma ConclusiveHasCompletion(seen: Seen)
    requires HasCompletion(seen)
    ensures IsConclusive(seen)
  {}

  lemma {:induction false} NewestIsLatest(all: seq<Seen>, newest: Seen)
    requires Conclusive(all) != [] && forall seen <- Conclusive(all) :: HasCompletion(seen)
    requires newest == Newest(Conclusive(all))
    requires forall seen <- Conclusive(all) | CompletionOf(seen) == CompletionOf(newest) :: IsSuccess(seen)
    ensures IsLatestSuccess(newest, all)
  {
    hide IsSuccess, IsConclusive;
    forall other <- all | HasCompletion(other)
      ensures CompletionOf(other) <= CompletionOf(newest)
      ensures CompletionOf(other) == CompletionOf(newest) ==> IsSuccess(other) && other.run.id <= newest.run.id
    {
      ConclusiveHasCompletion(other);
      assert other in Conclusive(all);
      assert !IsNewer(other, newest);
    }
  }

  // ---------------------------------------------------------------- the server over time

  /** The certificate of one attempt, and the status of the run while that attempt was the last. */
  datatype Attempt = Attempt(status: string, job: Option<Job>)

  /** The attempts of each run, the first at index 0. */
  type World = map<int, seq<Attempt>>

  predicate JobDone(job: Option<Job>) {
    job.Some? && job.value.Job? && job.value.status == "completed"
  }

  /** A certificate that finished, or whose run finished, never changes. */
  predicate AttemptEvolves(before: Attempt, after: Attempt) {
    && (JobDone(before.job) ==> after.job == before.job)
    && (before.status == "completed" ==> after.status == "completed" && after.job == before.job)
  }

  predicate Evolves(before: World, after: World) {
    forall id <- before ::
      && id in after && |before[id]| <= |after[id]|
      && (forall i | 0 <= i < |before[id]| :: AttemptEvolves(before[id][i], after[id][i]))
  }

  lemma EvolvesOn(a: World, b: World, c: World)
    requires Evolves(a, b) && Evolves(b, c)
    ensures Evolves(a, c)
  {
    forall id <- a, i | 0 <= i < |a[id]| ensures AttemptEvolves(a[id][i], c[id][i]) {
      assert AttemptEvolves(a[id][i], b[id][i]) && AttemptEvolves(b[id][i], c[id][i]);
    }
  }

  /** What evidence claims of the attempt it names, for as long as it stands. */
  predicate Stands(world: World, id: int, evidence: Evidence, atomic: bool) {
    && id in world && 1 <= evidence.attempt <= |world[id]|
    && var attempt := world[id][evidence.attempt - 1];
    && (IsDone(evidence) ==> attempt.job == evidence.job)
    && (evidence.runStatus == "completed" ==>
          attempt.status == "completed" && (atomic ==> attempt.job == evidence.job))
  }

  lemma StandsOn(before: World, after: World, id: int, evidence: Evidence, atomic: bool)
    requires Stands(before, id, evidence, atomic) && Evolves(before, after)
    ensures Stands(after, id, evidence, atomic)
  {
    assert AttemptEvolves(before[id][evidence.attempt - 1], after[id][evidence.attempt - 1]);
  }

  /** What a read of a run finds now. */
  function Fresh(world: World, id: int): Evidence
    requires id in world && world[id] != []
  {
    var last := world[id][|world[id]| - 1];
    Evidence(|world[id]|, last.job, last.status)
  }

  /** A run's entry tells the tree of its own commit, however late the list is about its attempts. */
  predicate TellsTrees(runs: seq<Listed>, treeOf: int -> string) {
    forall run <- runs | run.commitId == run.headSha :: run.tree == treeOf(run.id)
  }

  /**
   * The Checks of the repository, which go on while they are read. When reads are atomic, a
   * certificate and its run's status are of one moment; else the run is read a while after the jobs.
   */
  class Checks {
    const atomic: bool
    /** The tree of each run's commit, by the run's ID. */
    const treeOf: int -> string
    var world: World
    /** What the last list showed, and what was read of each run so far. */
    ghost var listed: Option<seq<Listed>>
    ghost var readings: set<(int, Evidence)>

    constructor (atomic: bool, treeOf: int -> string, world: World)
      ensures this.atomic == atomic && this.treeOf == treeOf && this.world == world && listed == None && readings == {}
    {
      this.atomic, this.treeOf, this.world, listed, readings := atomic, treeOf, world, None, {};
    }

    method Progress()
      modifies this`world
      ensures Evolves(old(world), world)
    {
      var next: World := *;
      if Evolves(world, next) {
        world := next;
      }
    }

    method ListRuns() returns (runs: Option<seq<Listed>>)
      modifies this`world, this`listed
      ensures Evolves(old(world), world) && listed == runs
      ensures runs.Some? ==> TellsTrees(runs.value, treeOf)
    {
      Progress();
      runs := *;
      if runs.Some? && !TellsTrees(runs.value, treeOf) {
        runs := None;
      }
      listed := runs;
    }

    method ReadCertificate(run: Listed) returns (result: Result<Evidence, Fault>)
      modifies this`world, this`readings
      ensures Evolves(old(world), world)
      ensures readings == old(readings) + if result.Ok? then {(run.id, result.value)} else {}
      ensures result.Ok? ==>
        && Stands(world, run.id, result.value, atomic)
        && result.value.attempt == |world[run.id]| && result.value.runStatus == Fresh(world, run.id).runStatus
        && (atomic ==> result.value == Fresh(world, run.id))
    {
      Progress();
      var jobsRead := world;
      Progress();
      EvolvesOn(old(world), jobsRead, world);
      var fault: Fault := *;
      var fails: bool := *;
      if fails || run.id !in jobsRead || jobsRead[run.id] == [] || |world[run.id]| != |jobsRead[run.id]| {
        return Err(fault);
      }
      var now := Fresh(world, run.id);
      assert AttemptEvolves(jobsRead[run.id][now.attempt - 1], world[run.id][now.attempt - 1]);
      result := Ok(if atomic then now else now.(job := Fresh(jobsRead, run.id).job));
      readings := readings + {(run.id, result.value)};
    }
  }

  // ---------------------------------------------------------------- the lookup

  type Settled = map<(int, int), Evidence>

  predicate IsSettled(evidence: Evidence) {
    IsDone(evidence) || evidence.runStatus == "completed"
  }

  /** Every kept evidence was read, is of the attempt it is kept for, settled, and still stands. */
  predicate AreSettled(settled: Settled, world: World, atomic: bool, readings: set<(int, Evidence)>) {
    forall key <- settled ::
      && (key.0, settled[key]) in readings
      && settled[key].attempt == key.1 && IsSettled(settled[key])
      && Stands(world, key.0, settled[key], atomic)
  }

  lemma SettledOn(
      settled: Settled, before: World, after: World, atomic: bool, readings: set<(int, Evidence)>,
      more: set<(int, Evidence)>)
    requires AreSettled(settled, before, atomic, readings)
    requires Evolves(before, after) && readings <= more
    ensures AreSettled(settled, after, atomic, more)
  {
    forall key <- settled ensures Stands(after, key.0, settled[key], atomic) {
      StandsOn(before, after, key.0, settled[key], atomic);
    }
  }

  /** What an evidence is to a decision. */
  datatype Role =
    | Broken
    | Waiting
    | Silent
    | Undated
    | Succeeded(at: int, attempt: int)
    | FailedAt(at: int)

  function RoleOf(evidence: Evidence): Role {
    if IsDone(evidence) then
      var job := evidence.job.value;
      if job.conclusion.Some? && job.conclusion.value in INCONCLUSIVE then Silent
      else if job.completedAt.None? then Undated
      else if job.conclusion == Some("success") then Succeeded(job.completedAt.value, evidence.attempt)
      else FailedAt(job.completedAt.value)
    else if evidence.runStatus != "completed" then Waiting
    else if evidence.job.Some? then Broken
    else Silent
  }

  /** Two evidences for a run that no decision tells apart, whatever else was seen and whenever the search started. */
  ghost predicate DecideAlike(run: Listed, one: Evidence, other: Evidence) {
    forall before, after, startedAt ::
      Decide(before + [Seen(run, one)] + after, startedAt) == Decide(before + [Seen(run, other)] + after, startedAt)
  }

  /** A later attempt whose certificate says what was kept of an earlier one that did not succeed. */
  predicate Repeats(role: Role, last: Attempt) {
    match role
    case Silent => if JobDone(last.job) then IsInconclusive(last.job) else last.job.None? && last.status == "completed"
    case Broken => last.job.Some? && !JobDone(last.job) && last.status == "completed"
    case Undated => JobDone(last.job) && !IsInconclusive(last.job) && last.job.value.completedAt.None?
    case FailedAt(at) =>
      && JobDone(last.job) && !IsInconclusive(last.job)
      && last.job.value.completedAt == Some(at) && last.job.value.conclusion != Some("success")
    case _ => false
  }

  predicate IsInconclusive(job: Option<Job>)
    requires JobDone(job)
  {
    job.value.conclusion.Some? && job.value.conclusion.value in INCONCLUSIVE
  }

  /**
   * With atomic reads, kept evidence is exactly as good as a fresh read while its attempt is the last, or when the
   * last attempt repeats it. A kept success is never repeated.
   */
  lemma {:induction false} KeptDecides(world: World, run: Listed, kept: Evidence)
    requires Stands(world, run.id, kept, true) && IsSettled(kept) && kept.attempt == run.attempt
    ensures var attempts := world[run.id];
      DecideAlike(run, kept, Fresh(world, run.id))
      <==> run.attempt == |attempts| || Repeats(RoleOf(kept), attempts[|attempts| - 1])
  {
    hide DecideAlike;
    RolesDecide(run, kept, Fresh(world, run.id));
  }

  /** Whether the read of a finished run tells what the jobs, read before, left unfinished. */
  predicate Bears(was: Option<Job>, now: Option<Job>) {
    || JobDone(was)
    || (if was.Some? then now.Some? && !JobDone(now) else if JobDone(now) then IsInconclusive(now) else now.None?)
  }

  /**
   * Reads that are not atomic: kept evidence of the last attempt is exactly as good as a fresh read if its
   * certificate had finished when the jobs were read, or when the run was read was unfinished as before, or missing
   * as before or inconclusive.
   */
  lemma {:induction false} TornDecides(jobsRead: World, runRead: World, later: World, run: Listed, kept: Evidence)
    requires Evolves(jobsRead, runRead) && Evolves(runRead, later)
    requires run.id in jobsRead && jobsRead[run.id] != []
    requires |jobsRead[run.id]| == |runRead[run.id]| == |later[run.id]|
    requires kept == Fresh(runRead, run.id).(job := Fresh(jobsRead, run.id).job) && IsSettled(kept)
    ensures DecideAlike(run, kept, Fresh(later, run.id))
      <==> Bears(Fresh(jobsRead, run.id).job, Fresh(runRead, run.id).job)
  {
    hide DecideAlike;
    var n := |later[run.id]| - 1;
    assert AttemptEvolves(jobsRead[run.id][n], runRead[run.id][n]);
    assert AttemptEvolves(runRead[run.id][n], later[run.id][n]);
    RolesDecide(run, kept, Fresh(later, run.id));
  }

  /**
   * The evidence for a run, kept from an earlier look where that is settled. With atomic reads, kept evidence is
   * as good as a fresh read exactly where the list names the run's last attempt, or that attempt repeats it.
   */
  method EvidenceOf(checks: Checks, settled: Settled, run: Listed)
    returns (result: Result<Evidence, Failure>, kept: Settled)
    requires AreSettled(settled, checks.world, checks.atomic, checks.readings)
    modifies checks`world, checks`readings
    ensures Evolves(old(checks.world), checks.world) && old(checks.readings) <= checks.readings
    ensures AreSettled(kept, checks.world, checks.atomic, checks.readings)
    ensures result.Ok? ==>
      && (run.id, result.value) in checks.readings
      && Stands(checks.world, run.id, result.value, checks.atomic)
      && checks.world[run.id] != []
      && (checks.atomic ==>
            if (run.id, run.attempt) in settled then
              var attempts := checks.world[run.id];
              DecideAlike(run, result.value, Fresh(checks.world, run.id))
              <==> run.attempt == |attempts| || Repeats(RoleOf(result.value), attempts[|attempts| - 1])
            else result.value == Fresh(checks.world, run.id))
  {
    var key := (run.id, run.attempt);
    if key in settled {
      if checks.atomic {
        KeptDecides(checks.world, run, settled[key]);
      }
      return Ok(settled[key]), settled;
    }
    var read := checks.ReadCertificate(run);
    SettledOn(settled, old(checks.world), checks.world, checks.atomic, old(checks.readings), checks.readings);
    if read.Err? {
      return Err(ReadFailed(read.error)), settled;
    }
    kept := settled;
    if read.value.attempt == run.attempt && IsSettled(read.value) {
      kept := kept[key := read.value];
    }
    return Ok(read.value), kept;
  }

  /** Every evidence was read, and what it claims still stands. */
  ghost predicate AllStand(all: seq<Seen>, world: World, atomic: bool, readings: set<(int, Evidence)>) {
    forall seen <- all ::
      (seen.run.id, seen.evidence) in readings && Stands(world, seen.run.id, seen.evidence, atomic)
  }

  lemma AllStandOn(
      all: seq<Seen>, before: World, after: World, atomic: bool, readings: set<(int, Evidence)>,
      more: set<(int, Evidence)>)
    requires AllStand(all, before, atomic, readings) && Evolves(before, after) && readings <= more
    ensures AllStand(all, after, atomic, more)
  {
    forall seen <- all ensures Stands(after, seen.run.id, seen.evidence, atomic) {
      StandsOn(before, after, seen.run.id, seen.evidence, atomic);
    }
  }

  /** One look at each run of a list, in its order. */
  predicate AreLooksAt(all: seq<Seen>, runs: seq<Listed>) {
    |all| == |runs| && forall i | 0 <= i < |runs| :: all[i].run == runs[i]
  }

  /** The worlds at the moments of the looks, each later than the one before, within a span. */
  ghost predicate AreMoments(moments: seq<World>, all: seq<Seen>, from: World, to: World) {
    && |moments| == |all|
    && (forall i | 0 <= i < |moments| :: Evolves(from, moments[i]) && Evolves(moments[i], to))
    && (forall i, j | 0 <= i < j < |moments| :: Evolves(moments[i], moments[j]))
    && (forall i | 0 <= i < |all| :: all[i].run.id in moments[i] && moments[i][all[i].run.id] != [])
  }

  /** What reads of the same runs at these moments would have seen. */
  function Anew(all: seq<Seen>, moments: seq<World>): (anew: seq<Seen>)
    requires |moments| == |all|
    requires forall i | 0 <= i < |all| :: all[i].run.id in moments[i] && moments[i][all[i].run.id] != []
    ensures |anew| == |all|
    ensures forall i | 0 <= i < |all| :: anew[i] == Seen(all[i].run, Fresh(moments[i], all[i].run.id))
  {
    seq(|all|, i requires 0 <= i < |all| => Seen(all[i].run, Fresh(moments[i], all[i].run.id)))
  }

  /** Each run was listed with the attempt that was its last when it was looked at. */
  predicate ListAgrees(all: seq<Seen>, moments: seq<World>)
    requires |moments| == |all| && forall i | 0 <= i < |all| :: all[i].run.id in moments[i]
  {
    forall i | 0 <= i < |all| :: all[i].run.attempt == |moments[i][all[i].run.id]|
  }

  lemma {:induction false} OneMoment(
      moments: seq<World>, all: seq<Seen>, from: World, to: World, now: World, seen: Seen)
    requires AreMoments(moments, all, from, to) && Evolves(from, to) && Evolves(to, now)
    requires seen.run.id in now && now[seen.run.id] != []
    ensures AreMoments(moments + [now], all + [seen], from, now)
  {
    hide Evolves;
    forall i | 0 <= i < |moments| ensures Evolves(moments[i], now) {
      EvolvesOn(moments[i], to, now);
    }
    EvolvesOn(from, to, now);
    EvolvesItself(now);
  }

  method ReadAll(checks: Checks, settled: Settled, runs: seq<Listed>)
    returns (result: Result<seq<Seen>, Failure>, kept: Settled, ghost moments: seq<World>)
    requires AreSettled(settled, checks.world, checks.atomic, checks.readings)
    modifies checks`world, checks`readings
    ensures Evolves(old(checks.world), checks.world) && AreSettled(kept, checks.world, checks.atomic, checks.readings)
    ensures result.Ok? ==>
      && AllStand(result.value, checks.world, checks.atomic, checks.readings)
      && AreLooksAt(result.value, runs)
      && AreMoments(moments, result.value, old(checks.world), checks.world)
      && (checks.atomic && ListAgrees(result.value, moments) ==> AreAlike(result.value, Anew(result.value, moments)))
  {
    hide Stands, Evolves, AreSettled, RoleOf, DecideAlike, Repeats, AreMoments;
    var all: seq<Seen> := [];
    kept, moments := settled, [];
    EvolvesItself(checks.world);
    NoMoments(checks.world);
    var i := 0;
    while i < |runs|
      invariant 0 <= i <= |runs|
      invariant Evolves(old(checks.world), checks.world)
      invariant AreSettled(kept, checks.world, checks.atomic, checks.readings)
      invariant AllStand(all, checks.world, checks.atomic, checks.readings)
      invariant AreLooksAt(all, runs[..i])
      invariant AreMoments(moments, all, old(checks.world), checks.world)
      invariant IsReadable(all, moments)
      invariant checks.atomic && ListAgrees(all, moments) ==> AreAlike(all, Anew(all, moments))
    {
      ghost var before, readings := checks.world, checks.readings;
      var evidence;
      evidence, kept := EvidenceOf(checks, kept, runs[i]);
      EvolvesOn(old(checks.world), before, checks.world);
      AllStandOn(all, before, checks.world, checks.atomic, readings, checks.readings);
      if evidence.Err? {
        return Err(evidence.error), kept, moments;
      }
      ghost var seen := Seen(runs[i], evidence.value);
      RolesDecide(runs[i], evidence.value, Fresh(checks.world, runs[i].id));
      StandsInWorld(checks.world, runs[i].id, evidence.value, checks.atomic);
      OneMoment(moments, all, old(checks.world), before, checks.world, seen);
      OneLook(all, moments, seen, checks.world, checks.atomic);
      all, moments := all + [Seen(runs[i], evidence.value)], moments + [checks.world];
      i := i + 1;
    }
    assert runs[..i] == runs;
    return Ok(all), kept, moments;
  }

  predicate IsReadable(all: seq<Seen>, moments: seq<World>) {
    |moments| == |all| && forall i | 0 <= i < |all| :: all[i].run.id in moments[i] && moments[i][all[i].run.id] != []
  }

  lemma NoMoments(world: World)
    ensures AreMoments([], [], world, world)
  {}

  lemma StandsInWorld(world: World, id: int, evidence: Evidence, atomic: bool)
    requires Stands(world, id, evidence, atomic)
    ensures id in world && world[id] != []
  {}

  /** One look more keeps the looks like fresh ones, where the list goes on to agree. */
  lemma {:induction false} OneLook(all: seq<Seen>, moments: seq<World>, seen: Seen, now: World, atomic: bool)
    requires IsReadable(all, moments) && seen.run.id in now && now[seen.run.id] != []
    requires atomic && ListAgrees(all, moments) ==> AreAlike(all, Anew(all, moments))
    requires atomic && seen.run.attempt == |now[seen.run.id]| ==>
      RoleOf(seen.evidence) == RoleOf(Fresh(now, seen.run.id))
    ensures IsReadable(all + [seen], moments + [now])
    ensures atomic && ListAgrees(all + [seen], moments + [now]) ==>
      AreAlike(all + [seen], Anew(all + [seen], moments + [now]))
  {
    hide RoleOf;
    var more, later := all + [seen], moments + [now];
    if atomic && ListAgrees(more, later) {
      assert forall i | 0 <= i < |all| :: more[i] == all[i] && later[i] == moments[i];
      assert more[|all|] == seen && later[|all|] == now;
      assert ListAgrees(all, moments);
    }
  }

  lemma EvolvesItself(world: World)
    ensures Evolves(world, world)
  {}

  /**
   * Looks until nothing that started first is pending, or the deadline. The answer is the decision
   * on what was read of every run of the last list that concerns the search.
   */
  method FindReusableCheck(checks: Checks, clock: Clock, search: Search, waitMs: nat)
    returns (result: Result<Option<Reference>, Failure>, ghost all: seq<Seen>, ghost moments: seq<World>)
    modifies checks, clock
    ensures Evolves(old(checks.world), checks.world)
    ensures result.Ok? ==>
      && search.startedAt.At? && checks.listed.Some? && TellsTrees(checks.listed.value, checks.treeOf)
      && AreLooksAt(all, Concerning(checks.listed.value, search))
      && AreMoments(moments, all, old(checks.world), checks.world)
      && (checks.atomic && ListAgrees(all, moments) ==>
            Decide(all, search.startedAt.time) == Decide(Anew(all, moments), search.startedAt.time))
      && AllStand(all, checks.world, checks.atomic, checks.readings)
      && var verdict := Decide(all, search.startedAt.time);
      && verdict.Ok?
      && (if result.value.Some? then verdict.value == Reuse(result.value.value) else !verdict.value.Reuse?)
      && (verdict.value.Await? ==> old(clock.time) + waitMs <= clock.time)
  {
    hide Stands, Evolves, AreSettled, AllStand, Decide, Concerns, Concerning, AreAlike, AreMoments, TellsTrees;
    all, moments := [], [];
    EvolvesItself(checks.world);
    if CertificateName(search.scope).None? || !IsSha(search.tree) || !PositiveInteger(search.runId)
       || !search.startedAt.At? {
      return Err(BadSearch), all, moments;
    }
    var start := clock.Now();
    var deadline := start + waitMs;
    var settled: Settled := map[];
    NothingSettled(checks.world, checks.atomic, checks.readings);
    while true
      invariant Evolves(old(checks.world), checks.world)
      invariant AreSettled(settled, checks.world, checks.atomic, checks.readings)
      invariant old(clock.time) <= start <= clock.time
      decreases deadline - clock.time
    {
      ghost var before := checks.world;
      var runs := checks.ListRuns();
      EvolvesOn(old(checks.world), before, checks.world);
      SettledOn(settled, before, checks.world, checks.atomic, checks.readings, checks.readings);
      if runs.None? {
        return Err(BadList), all, moments;
      }
      before := checks.world;
      var looks;
      looks, settled, moments := ReadAll(checks, settled, Concerning(runs.value, search));
      EvolvesOn(old(checks.world), before, checks.world);
      if looks.Err? {
        return Err(looks.error), all, moments;
      }
      all := looks.value;
      MomentsSince(moments, all, old(checks.world), before, checks.world);
      if checks.atomic && ListAgrees(all, moments) {
        AlikeDecide(all, Anew(all, moments), search.startedAt.time);
      }
      var verdict := Decide(looks.value, search.startedAt.time);
      if verdict.Err? {
        return Err(verdict.error), all, moments;
      }
      match verdict.value
      case Reuse(reference) => return Ok(Some(reference)), all, moments;
      case NoReuse => return Ok(None), all, moments;
      case Await(_) =>
        var now := clock.Now();
        if now >= deadline {
          return Ok(None), all, moments;
        }
        now := clock.Now();
        clock.Wait(Min(LONGEST_SLEEP, Max(1, deadline - now)));
    }
  }

  lemma {:induction false} MomentsSince(moments: seq<World>, all: seq<Seen>, start: World, from: World, to: World)
    requires AreMoments(moments, all, from, to) && Evolves(start, from)
    ensures AreMoments(moments, all, start, to) && IsReadable(all, moments)
  {
    hide Evolves;
    forall i | 0 <= i < |moments| ensures Evolves(start, moments[i]) {
      EvolvesOn(start, from, moments[i]);
    }
  }

  lemma NothingSettled(world: World, atomic: bool, readings: set<(int, Evidence)>)
    ensures AreSettled(map[], world, atomic, readings)
  {}

  // ---------------------------------------------------------------- what a lookup relies on

  /** A certificate that finished with success. */
  predicate Passed(world: World, reference: Reference) {
    && reference.runId in world && 1 <= reference.runAttempt <= |world[reference.runId]|
    && var job := world[reference.runId][reference.runAttempt - 1].job;
       JobDone(job) && job.value.conclusion == Some("success")
  }

  /** What the answer of a lookup rests on: the looks at every listed run that concerns the search. */
  datatype Lookup = Lookup(all: seq<Seen>, listed: seq<Listed>, search: Search)

  predicate FindsReference(lookup: Lookup) {
    && lookup.search.startedAt.At?
    && var verdict := Decide(lookup.all, lookup.search.startedAt.time);
       verdict.Ok? && verdict.value.Reuse?
  }

  function ReferenceOf(lookup: Lookup): Reference
    requires FindsReference(lookup)
  {
    Decide(lookup.all, lookup.search.startedAt.time).value.reference
  }

  /** The looks are at the runs of a truthful list, and what they saw still stands. */
  ghost predicate RestsOn(lookup: Lookup, world: World, treeOf: int -> string) {
    && TellsTrees(lookup.listed, treeOf)
    && AreLooksAt(lookup.all, Concerning(lookup.listed, lookup.search))
    && forall seen <- lookup.all :: Stands(world, seen.run.id, seen.evidence, false)
  }

  /** A returned reference is to another run, of the tree that was searched. */
  lemma {:induction false} ReferenceHasTree(lookup: Lookup, world: World, treeOf: int -> string)
    requires FindsReference(lookup) && RestsOn(lookup, world, treeOf)
    ensures var reference := ReferenceOf(lookup);
      treeOf(reference.runId) == lookup.search.tree && reference.runId != lookup.search.runId
  {
    hide Decide, Stands;
    var startedAt := lookup.search.startedAt.time;
    ReuseIsLatestSuccess(lookup.all, startedAt);
    var decisive :| IsLatestSuccess(decisive, lookup.all)
      && ReferenceOf(lookup) == Reference(decisive.run.id, decisive.evidence.attempt);
    var matching := Concerning(lookup.listed, lookup.search);
    var i :| 0 <= i < |lookup.all| && lookup.all[i] == decisive;
    assert matching[i] in matching && matching[i] == decisive.run;
  }

  /** A returned reference is to a certificate that passed, in the attempt it names. */
  lemma {:induction false} ReferencePassed(all: seq<Seen>, startedAt: int, world: World, atomic: bool)
    requires forall seen <- all :: Stands(world, seen.run.id, seen.evidence, atomic)
    requires Decide(all, startedAt).Ok? && Decide(all, startedAt).value.Reuse?
    ensures Passed(world, Decide(all, startedAt).value.reference)
  {
    hide Decide, Evolves;
    ReuseIsLatestSuccess(all, startedAt);
    var decisive :| IsLatestSuccess(decisive, all)
      && Decide(all, startedAt).value.reference == Reference(decisive.run.id, decisive.evidence.attempt);
    assert IsSuccess(decisive);
    assert Stands(world, decisive.run.id, decisive.evidence, atomic);
  }

  predicate AreAlike(one: seq<Seen>, other: seq<Seen>) {
    && |one| == |other|
    && forall i | 0 <= i < |one| :: one[i].run == other[i].run && RoleOf(one[i].evidence) == RoleOf(other[i].evidence)
  }

  lemma {:induction false} PendingAlike(one: seq<Seen>, other: seq<Seen>, startedAt: int)
    requires AreAlike(one, other)
    ensures Pending(one, startedAt) == Pending(other, startedAt)
  {
    if one != [] {
      PendingAlike(one[1..], other[1..], startedAt);
      assert IsPending(one[0], startedAt) == IsPending(other[0], startedAt);
    }
  }

  lemma {:induction false} ConclusiveAlike(one: seq<Seen>, other: seq<Seen>)
    requires AreAlike(one, other)
    ensures AreAlike(Conclusive(one), Conclusive(other))
  {
    hide RoleOf, IsConclusive;
    if one != [] {
      ConclusiveAlike(one[1..], other[1..]);
      CompletionAlike(one[0], other[0]);
    }
  }

  lemma {:induction false} NewestAlike(one: seq<Seen>, other: seq<Seen>)
    requires one != [] && AreAlike(one, other)
    requires (forall seen <- one :: HasCompletion(seen)) && forall seen <- other :: HasCompletion(seen)
    ensures Newest(one).run == Newest(other).run && RoleOf(Newest(one).evidence) == RoleOf(Newest(other).evidence)
  {
    hide RoleOf, HasCompletion, IsConclusive, CompletionOf;
    if |one| > 1 {
      var last := |one| - 1;
      NewestAlike(one[..last], other[..last]);
      CompletionAlike(one[last], other[last]);
      CompletionAlike(Newest(one[..last]), Newest(other[..last]));
    }
  }

  lemma CompletionAlike(one: Seen, other: Seen)
    requires RoleOf(one.evidence) == RoleOf(other.evidence)
    ensures IsConclusive(one) == IsConclusive(other)
    ensures HasCompletion(one) == HasCompletion(other)
    ensures HasCompletion(one) ==> CompletionOf(one) == CompletionOf(other) && IsSuccess(one) == IsSuccess(other)
  {}

  /** Looks at the same runs with evidence of the same roles lead to the same decision. */
  lemma {:induction false} AlikeDecide(one: seq<Seen>, other: seq<Seen>, startedAt: int)
    requires AreAlike(one, other)
    ensures Decide(one, startedAt) == Decide(other, startedAt)
  {
    hide AreAlike, Choose;
    PendingAlike(one, other, startedAt);
    ConclusiveAlike(one, other);
    ChooseAlike(Conclusive(one), Conclusive(other));
  }

  lemma {:induction false} ChooseAlike(one: seq<Seen>, other: seq<Seen>)
    requires AreAlike(one, other)
    ensures Choose(one) == Choose(other)
  {
    hide IsConclusive, HasCompletion, IsSuccess, RoleOf, AreAlike, CompletionOf;
    AllComplete(one, other);
    AllComplete(other, one);
    if one != [] && forall seen <- one :: HasCompletion(seen) {
      NewestAlike(one, other);
      CompletionAlike(Newest(one), Newest(other));
      FailureAlike(one, other, CompletionOf(Newest(one)));
      if IsSuccess(Newest(one)) {
        AttemptAlike(Newest(one), Newest(other));
      }
    }
  }

  lemma AttemptAlike(one: Seen, other: Seen)
    requires RoleOf(one.evidence) == RoleOf(other.evidence) && HasCompletion(one) && IsSuccess(one)
    ensures one.evidence.attempt == other.evidence.attempt
  {}

  lemma {:induction false} AllComplete(one: seq<Seen>, other: seq<Seen>)
    requires AreAlike(one, other) || AreAlike(other, one)
    ensures |one| == |other|
    ensures (forall seen <- one :: HasCompletion(seen)) ==> forall seen <- other :: HasCompletion(seen)
  {
    hide HasCompletion, RoleOf;
    if forall seen <- one :: HasCompletion(seen) {
      forall seen <- other ensures HasCompletion(seen) {
        var i :| 0 <= i < |other| && other[i] == seen;
        if AreAlike(one, other) {
          CompletionAlike(one[i], other[i]);
        } else {
          CompletionAlike(other[i], one[i]);
        }
      }
    }
  }

  lemma {:induction false} FailureAlike(one: seq<Seen>, other: seq<Seen>, completion: int)
    requires AreAlike(one, other)
    requires (forall seen <- one :: HasCompletion(seen)) && forall seen <- other :: HasCompletion(seen)
    ensures (exists seen <- one :: CompletionOf(seen) == completion && !IsSuccess(seen))
      <==> (exists seen <- other :: CompletionOf(seen) == completion && !IsSuccess(seen))
  {
    hide HasCompletion, IsSuccess, RoleOf;
    forall i | 0 <= i < |one| {
      CompletionAlike(one[i], other[i]);
    }
    if seen :| seen in one && CompletionOf(seen) == completion && !IsSuccess(seen) {
      var i :| 0 <= i < |one| && one[i] == seen;
      assert other[i] in other;
    }
    if seen :| seen in other && CompletionOf(seen) == completion && !IsSuccess(seen) {
      var i :| 0 <= i < |other| && other[i] == seen;
      assert one[i] in one;
    }
  }

  /** A passed or failed certificate of the first run, for the examples below. */
  function ExampleJob(conclusion: string): Job {
    Job(1, 1, "", "check", "completed", Some(conclusion), Some(5), None)
  }

  function ExampleRun(id: int, attempt: int, startedAt: int): Listed {
    Listed(id, attempt, WORKFLOW_PATH, 1, "push", "", "", "", "", "", At(startedAt), Missing)
  }

  lemma PendingOne(seen: Seen, startedAt: int)
    ensures Pending([seen], startedAt) == match IsPending(seen, startedAt)
      case Err(error) => Err(error)
      case Ok(pending) => Ok(if pending then [seen.run] else [])
  {
    assert [seen][0] == seen && [seen][1..] == [];
    assert Pending([seen][1..], startedAt) == Ok([]);
    var none: seq<Listed> := [];
    assert [seen.run] + none == [seen.run] && none + none == none;
  }

  lemma {:induction false} DecideOne(seen: Seen, startedAt: int)
    ensures IsPending(seen, startedAt) == Ok(true) ==> Decide([seen], startedAt) == Ok(Await([seen.run]))
    ensures IsPending(seen, startedAt) == Ok(false) && !IsConclusive(seen) ==>
      Decide([seen], startedAt) == Ok(NoReuse)
    ensures IsPending(seen, startedAt) == Ok(false) && HasCompletion(seen) && !IsSuccess(seen) ==>
      Decide([seen], startedAt) == Ok(NoReuse)
    ensures IsPending(seen, startedAt) == Ok(false) && HasCompletion(seen) && IsSuccess(seen) ==>
      Decide([seen], startedAt) == Ok(Reuse(Reference(seen.run.id, seen.evidence.attempt)))
  {
    hide IsPending, IsSuccess;
    var all := [seen];
    PendingOne(seen, startedAt);
    assert Conclusive(all[1..]) == [];
    assert Conclusive(all) == if IsConclusive(seen) then [seen] else [];
  }

  /** One look on its own. */
  lemma {:induction false} DecideAlone(seen: Seen, startedAt: int)
    ensures Decide([seen], startedAt) ==
      match RoleOf(seen.evidence)
      case Broken => Err(UnfinishedInFinishedRun)
      case Waiting =>
        (match StartOf(seen.run)
         case At(start) => Ok(if start < startedAt then Await([seen.run]) else NoReuse)
         case _ => Err(NoStartTime))
      case Undated => Err(NoCompletionTime)
      case Succeeded(_, attempt) => Ok(Reuse(Reference(seen.run.id, attempt)))
      case _ => Ok(NoReuse)
  {
    DecideOne(seen, startedAt);
    PendingOne(seen, startedAt);
    if RoleOf(seen.evidence).Undated? {
      assert IsConclusive(seen) && !HasCompletion(seen) && seen in Conclusive([seen]);
    }
  }

  /** A dated result seen together with one that takes part, or with one that is silent. */
  lemma {:induction false} DecideTwo(first: Seen, second: Seen, startedAt: int)
    requires HasCompletion(first)
    requires !RoleOf(second.evidence).Waiting? && !RoleOf(second.evidence).Broken?
    ensures RoleOf(second.evidence).Silent? ==> Decide([first, second], startedAt) == Choose([first])
    ensures !RoleOf(second.evidence).Silent? ==> Decide([first, second], startedAt) == Choose([first, second])
  {
    var all := [first, second];
    assert all[0] == first && all[1..] == [second] && [second][0] == second && [second][1..] == [];
    PendingOne(second, startedAt);
    var none: seq<Listed> := [];
    assert none + none == none;
    assert Conclusive([]) == [];
    assert Conclusive([second]) == if IsConclusive(second) then [second] else [];
    assert Conclusive(all) == [first] + Conclusive([second]);
  }

  lemma {:induction false} ChooseTwo(first: Seen, second: Seen)
    requires HasCompletion(first) && HasCompletion(second)
    ensures var a, b := CompletionOf(first), CompletionOf(second);
      if a == b && !(IsSuccess(first) && IsSuccess(second)) then Choose([first, second]) == Ok(NoReuse)
      else a != b ==>
        var newest := if a > b then first else second;
        Choose([first, second])
        == Ok(if IsSuccess(newest) then Reuse(Reference(newest.run.id, newest.evidence.attempt)) else NoReuse)
  {
    var list := [first, second];
    assert first in list && second in list;
    assert forall seen <- list :: seen == first || seen == second;
    var newest := Newest(list);
    assert !IsNewer(first, newest) && !IsNewer(second, newest);
  }

  lemma ChooseFirst(first: Seen)
    requires HasCompletion(first)
    ensures Choose([first]) ==
      Ok(if IsSuccess(first) then Reuse(Reference(first.run.id, first.evidence.attempt)) else NoReuse)
  {
    assert first in [first] && forall seen <- [first] :: seen == first;
  }

  function Rival(at: int, conclusion: string): Seen {
    Seen(ExampleRun(1, 1, 0),
         Evidence(1, Some(Job(1, 1, "", "check", "completed", Some(conclusion), Some(at), None)), "completed"))
  }

  /** A look beside another, given the roles of both. */
  lemma {:induction false} DecideBeside(rival: Seen, seen: Seen, startedAt: int)
    ensures RoleOf(rival.evidence).Succeeded? && RoleOf(seen.evidence).Silent? ==>
      Decide([rival, seen], startedAt) == Ok(Reuse(Reference(rival.run.id, rival.evidence.attempt)))
    ensures RoleOf(rival.evidence).Succeeded? && RoleOf(seen.evidence).FailedAt? ==>
      Decide([rival, seen], startedAt) ==
      Ok(if RoleOf(seen.evidence).at < RoleOf(rival.evidence).at
         then Reuse(Reference(rival.run.id, rival.evidence.attempt)) else NoReuse)
    ensures RoleOf(rival.evidence).FailedAt? && RoleOf(seen.evidence).Succeeded? ==>
      Decide([rival, seen], startedAt) ==
      Ok(if RoleOf(rival.evidence).at < RoleOf(seen.evidence).at
         then Reuse(Reference(seen.run.id, seen.evidence.attempt)) else NoReuse)
  {
    hide Decide, Choose;
    if HasCompletion(rival) && !RoleOf(seen.evidence).Waiting? && !RoleOf(seen.evidence).Broken? {
      DecideTwo(rival, seen, startedAt);
      ChooseFirst(rival);
      if HasCompletion(seen) {
        ChooseTwo(rival, seen);
      }
    }
  }

  /** Evidence of different roles is told apart alone, or beside a result of the right moment. */
  lemma {:induction false} ToldApart(run: Listed, one: Evidence, other: Evidence)
    requires RoleOf(one) != RoleOf(other)
    ensures !DecideAlike(run, one, other)
  {
    hide Decide, RoleOf;
    var x, y := Seen(run, one), Seen(run, other);
    if DecideAlike(run, one, other) {
      var startedAt := if StartOf(run).At? then StartOf(run).time + 1 else 0;
      DecideAlone(x, startedAt);
      DecideAlone(y, startedAt);
      forall before
        ensures Decide(before + [x], startedAt) == Decide(before + [y], startedAt)
      {
        Context(run, one, other, before, startedAt);
      }
      var none: seq<Seen> := [];
      assert none + [x] == [x] && none + [y] == [y];
      ApartBeside(run, one, other, startedAt);
      ApartBeside(run, other, one, startedAt);
    }
  }

  lemma Context(run: Listed, one: Evidence, other: Evidence, before: seq<Seen>, startedAt: int)
    requires DecideAlike(run, one, other)
    ensures Decide(before + [Seen(run, one)], startedAt) == Decide(before + [Seen(run, other)], startedAt)
  {
    assert before + [Seen(run, one)] + [] == before + [Seen(run, one)];
    assert before + [Seen(run, other)] + [] == before + [Seen(run, other)];
  }

  /** The pairs that only another result tells apart. */
  lemma {:induction false} ApartBeside(run: Listed, one: Evidence, other: Evidence, startedAt: int)
    requires forall before ::
      Decide(before + [Seen(run, one)], startedAt) == Decide(before + [Seen(run, other)], startedAt)
    ensures !(RoleOf(one).FailedAt? && RoleOf(other).Silent?)
    ensures !(RoleOf(one).FailedAt? && RoleOf(other).FailedAt? && RoleOf(other).at < RoleOf(one).at)
    ensures !(RoleOf(one).Succeeded? && RoleOf(other).Succeeded? && RoleOf(one).at < RoleOf(other).at)
  {
    hide Decide, RoleOf;
    if RoleOf(one).FailedAt? || RoleOf(one).Succeeded? {
      var at := RoleOf(one).at;
      var rival := Rival(at, if RoleOf(one).FailedAt? then "success" else "failure");
      RivalRoles(at);
      var x, y := Seen(run, one), Seen(run, other);
      assert [rival] + [x] == [rival, x] && [rival] + [y] == [rival, y];
      DecideBeside(rival, x, startedAt);
      DecideBeside(rival, y, startedAt);
    }
  }

  lemma RivalRoles(at: int)
    ensures RoleOf(Rival(at, "success").evidence) == Succeeded(at, 1)
    ensures RoleOf(Rival(at, "failure").evidence) == FailedAt(at)
  {}

  /** Two evidences for a run lead to the same decisions always, exactly if they have the same role. */
  lemma {:induction false} RolesDecide(run: Listed, one: Evidence, other: Evidence)
    ensures DecideAlike(run, one, other) <==> RoleOf(one) == RoleOf(other)
  {
    hide Decide, RoleOf;
    if RoleOf(one) != RoleOf(other) {
      ToldApart(run, one, other);
    } else {
      forall before, after, startedAt
        ensures Decide(before + [Seen(run, one)] + after, startedAt)
             == Decide(before + [Seen(run, other)] + after, startedAt)
      {
        AlikeDecide(before + [Seen(run, one)] + after, before + [Seen(run, other)] + after, startedAt);
      }
    }
  }

  /** A list that still shows an attempt after its rerun keeps an answer that a fresh read would change. */
  lemma StaleListMisleads()
    ensures var run, kept := ExampleRun(1, 1, 0), Evidence(1, Some(ExampleJob("success")), "completed");
      var world: World :=
        map[1 := [Attempt("completed", kept.job), Attempt("completed", Some(ExampleJob("failure")))]];
      && Stands(world, 1, kept, true) && IsSettled(kept) && kept.attempt == run.attempt
      && Decide([Seen(run, kept)], 10) == Ok(Reuse(Reference(1, 1)))
      && Decide([Seen(run, Fresh(world, 1))], 10) == Ok(NoReuse)
  {
    var run, kept := ExampleRun(1, 1, 0), Evidence(1, Some(ExampleJob("success")), "completed");
    var anew := Evidence(2, Some(ExampleJob("failure")), "completed");
    DecideOne(Seen(run, kept), 10);
    DecideOne(Seen(run, anew), 10);
  }

  /** A run that finished between the read of its jobs and the read of the run keeps a missed certificate missed. */
  lemma TornReadMisleads()
    ensures var run, kept := ExampleRun(1, 1, 0), Evidence(1, None, "completed");
      var world: World := map[1 := [Attempt("completed", Some(ExampleJob("success")))]];
      && Stands(world, 1, kept, false) && !Stands(world, 1, kept, true)
      && IsSettled(kept) && kept.attempt == run.attempt == |world[1]|
      && Decide([Seen(run, kept)], 10) == Ok(NoReuse)
      && Decide([Seen(run, Fresh(world, 1))], 10) == Ok(Reuse(Reference(1, 1)))
  {
    var run, kept := ExampleRun(1, 1, 0), Evidence(1, None, "completed");
    var anew := Evidence(1, Some(ExampleJob("success")), "completed");
    DecideOne(Seen(run, kept), 10);
    DecideOne(Seen(run, anew), 10);
  }

  // ---------------------------------------------------------------- who waits for whom

  /** An attempt of a run, by both numbers. */
  type Party = (int, int)

  /** A list that tells the start of each attempt it shows. */
  predicate TellsStarts(all: seq<Seen>, starts: map<Party, int>) {
    forall seen <- all ::
      (seen.run.id, seen.run.attempt) in starts && StartOf(seen.run) == At(starts[(seen.run.id, seen.run.attempt)])
  }

  /** A list that shows the attempt the evidence is of. */
  predicate ShowsLastAttempts(all: seq<Seen>) {
    forall seen <- all :: seen.run.attempt == seen.evidence.attempt
  }

  /** One attempt, having seen `all`, waits for the certificate of another. */
  ghost predicate WaitsFor(waiter: Party, awaited: Party, all: seq<Seen>, starts: map<Party, int>) {
    && waiter in starts && TellsStarts(all, starts)
    && Decide(all, starts[waiter]).Ok? && Decide(all, starts[waiter]).value.Await?
    && exists seen <- all ::
         IsPending(seen, starts[waiter]) == Ok(true) && awaited == (seen.run.id, seen.evidence.attempt)
  }

  lemma WaitGoesBack(waiter: Party, awaited: Party, all: seq<Seen>, starts: map<Party, int>)
    requires WaitsFor(waiter, awaited, all, starts) && ShowsLastAttempts(all)
    ensures awaited in starts && starts[awaited] < starts[waiter]
  {
    hide Decide;
  }

  /** Attempts waiting for one another in turn, each on what it saw. */
  ghost predicate IsWaitChain(parties: seq<Party>, looks: seq<seq<Seen>>, starts: map<Party, int>) {
    && |parties| == |looks| + 1
    && forall i | 0 <= i < |looks| :: WaitsFor(parties[i], parties[i + 1], looks[i], starts)
  }

  lemma {:induction false} ChainGoesBack(parties: seq<Party>, looks: seq<seq<Seen>>, starts: map<Party, int>)
    requires IsWaitChain(parties, looks, starts) && looks != [] && forall all <- looks :: ShowsLastAttempts(all)
    ensures parties[0] in starts && parties[|looks|] in starts && starts[parties[|looks|]] < starts[parties[0]]
    decreases |looks|
  {
    hide WaitsFor;
    var n := |looks| - 1;
    WaitGoesBack(parties[n], parties[n + 1], looks[n], starts);
    if n > 0 {
      ChainGoesBack(parties[..n + 1], looks[..n], starts);
    } else {
      WaiterHasStarted(parties[0], parties[1], looks[0], starts);
    }
  }

  lemma WaiterHasStarted(waiter: Party, awaited: Party, all: seq<Seen>, starts: map<Party, int>)
    requires WaitsFor(waiter, awaited, all, starts)
    ensures waiter in starts
  {}

  /** No attempts wait for one another in a ring, while each list shows the last attempt of every run. */
  lemma NobodyWaitsInARing(parties: seq<Party>, looks: seq<seq<Seen>>, starts: map<Party, int>)
    requires IsWaitChain(parties, looks, starts) && looks != [] && forall all <- looks :: ShowsLastAttempts(all)
    ensures parties[0] != parties[|looks|]
  {
    ChainGoesBack(parties, looks, starts);
  }

  function Unfinished(id: int, listed: int, startedAt: int, attempt: int): Seen {
    Seen(ExampleRun(id, listed, startedAt), Evidence(attempt, None, "in_progress"))
  }

  /**
   * Wherever a list shows an older attempt of a run than the one that is read, that pairs the old
   * attempt's start with the new one's certificate: any attempt of another run that started between
   * the two waits for the new attempt, which waits for it.
   */
  lemma LaggingListWaitsInARing(id: int, other: int, listed: int, attempt: int, first: int, between: int, last: int)
    returns (parties: seq<Party>, looks: seq<seq<Seen>>, starts: map<Party, int>)
    requires id != other && 1 <= listed < attempt && first < between < last
    ensures starts == map[(id, listed) := first, (other, 1) := between, (id, attempt) := last]
    ensures looks == [[Unfinished(id, listed, first, attempt)], [Unfinished(other, 1, between, 1)]]
    ensures parties == [(other, 1), (id, attempt), (other, 1)]
    ensures IsWaitChain(parties, looks, starts)
  {
    var lagging, current := Unfinished(id, listed, first, attempt), Unfinished(other, 1, between, 1);
    starts := map[(id, listed) := first, (other, 1) := between, (id, attempt) := last];
    DecideOne(lagging, between);
    DecideOne(current, last);
    assert lagging in [lagging] && current in [current];
    parties, looks := [(other, 1), (id, attempt), (other, 1)], [[lagging], [current]];
    assert WaitsFor((other, 1), (id, attempt), [lagging], starts);
    assert WaitsFor((id, attempt), (other, 1), [current], starts);
  }
}
