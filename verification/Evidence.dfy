/** Reads the certificate of a Check run from the jobs of one attempt. */
module Evidence {
  import opened Wrappers
  import opened Clocks

  const PAGE_SIZE := 100
  const MAX_PAGES := 10
  const MAX_ATTEMPT_CHANGES := 5
  const MAX_SAFE := 9007199254740991

  /** A job as the API lists it. `Malformed` stands for a value without the fields or types of a job. */
  datatype Job =
    | Malformed
    | Job(
        id: int, runId: int, headSha: string, name: string, status: string, conclusion: Option<string>,
        completedAt: Option<int>, runAttempt: Option<int>)

  datatype Page = BadPage | Page(total: int, jobs: seq<Job>)

  datatype Run =
    | BadRun
    | Run(
        id: int, headSha: string, path: string, repository: string, headRepository: string, attempt: int,
        status: string)

  datatype Fault =
    | PaginationBound | TimedOut | BadInventory | InventoryChanged | WrongJob | RepeatedJob | TooManyJobs
    | UnknownScope | SeveralCertificates | UnknownState | BadNumbers | IdentityChanged | UnverifiedAttempt
    | KeptChanging

  predicate PositiveInteger(n: int) {
    0 < n <= MAX_SAFE
  }

  function CertificateName(scope: string): Option<string> {
    if scope == "npm" then Some("npm release checks") else if scope == "check" then Some("check") else None
  }

  predicate Matches(job: Job, runId: int, attempt: int, headSha: string) {
    && job.Job?
    && PositiveInteger(job.id)
    && job.runId == runId
    && job.headSha == headSha
    && job.name != ""
    && (job.runAttempt.Some? ==> job.runAttempt.value == attempt)
  }

  /** The complete job list of one attempt, each job once. */
  predicate IsInventory(jobs: seq<Job>, runId: int, attempt: int, headSha: string) {
    && (forall i | 0 <= i < |jobs| :: Matches(jobs[i], runId, attempt, headSha))
    && (forall i, j | 0 <= i < j < |jobs| :: jobs[i].id != jobs[j].id)
  }

  predicate HasId(jobs: seq<Job>, id: int) {
    exists i | 0 <= i < |jobs| :: jobs[i].Job? && jobs[i].id == id
  }

  lemma HasIdAfter(jobs: seq<Job>, job: Job, id: int)
    requires job.Job?
    ensures HasId(jobs + [job], id) <==> HasId(jobs, id) || id == job.id
  {
    var all := jobs + [job];
    assert all[|jobs|] == job;
    assert forall i | 0 <= i < |jobs| :: all[i] == jobs[i];
  }

  /** The page that a list which does not change answers with. */
  function PageOf(jobs: seq<Job>, page: int): Page
    requires page >= 1
  {
    Page(|jobs|, jobs[Min(PAGE_SIZE * (page - 1), |jobs|)..Min(PAGE_SIZE * page, |jobs|)])
  }

  datatype Event = JobsRead(attempt: int, page: Page) | RunRead(run: Run)

  /** One Check run behind the API. What it answers is free, except where `steady` parts fix it. */
  class Api {
    const steadyJobs: map<int, seq<Job>>
    const steadyRun: Option<Run>
    ghost var log: seq<Event>

    constructor (steadyJobs: map<int, seq<Job>>, steadyRun: Option<Run>)
      ensures this.steadyJobs == steadyJobs && this.steadyRun == steadyRun && log == []
    {
      this.steadyJobs, this.steadyRun, log := steadyJobs, steadyRun, [];
    }

    method ReadPage(attempt: int, page: int) returns (data: Page)
      requires page >= 1
      modifies this
      ensures log == old(log) + [JobsRead(attempt, data)]
      ensures attempt in steadyJobs ==> data == PageOf(steadyJobs[attempt], page)
    {
      data := *;
      if attempt in steadyJobs {
        data := PageOf(steadyJobs[attempt], page);
      }
      log := log + [JobsRead(attempt, data)];
    }

    method ReadRun() returns (run: Run)
      modifies this
      ensures log == old(log) + [RunRead(run)]
      ensures steadyRun.Some? ==> run == steadyRun.value
    {
      run := *;
      if steadyRun.Some? {
        run := steadyRun.value;
      }
      log := log + [RunRead(run)];
    }
  }

  // ---------------------------------------------------------------- the jobs of one attempt

  function JobsIn(pages: seq<Page>): seq<Job> {
    if pages == [] then []
    else JobsIn(pages[..|pages| - 1]) + (if pages[|pages| - 1].Page? then pages[|pages| - 1].jobs else [])
  }

  function PageEvents(attempt: int, pages: seq<Page>): seq<Event> {
    seq(|pages|, i requires 0 <= i < |pages| => JobsRead(attempt, pages[i]))
  }

  lemma OnePageMore(attempt: int, pages: seq<Page>, data: Page)
    ensures PageEvents(attempt, pages + [data]) == PageEvents(attempt, pages) + [JobsRead(attempt, data)]
    ensures JobsIn(pages + [data]) == JobsIn(pages) + if data.Page? then data.jobs else []
  {
    assert (pages + [data])[..|pages|] == pages;
  }

  /** Adds the jobs of one page, checking each. */
  method AddJobs(jobs: seq<Job>, data: seq<Job>, runId: int, attempt: int, headSha: string)
    returns (result: Result<seq<Job>, Fault>)
    requires IsInventory(jobs, runId, attempt, headSha)
    ensures result.Ok? <==> IsInventory(jobs + data, runId, attempt, headSha)
    ensures result.Ok? ==> result.value == jobs + data
    ensures result.Err? ==> result.error in {WrongJob, RepeatedJob}
  {
    var all := jobs;
    var ids := set i | 0 <= i < |jobs| && jobs[i].Job? :: jobs[i].id;
    var i := 0;
    while i < |data|
      invariant 0 <= i <= |data|
      invariant all == jobs + data[..i]
      invariant IsInventory(all, runId, attempt, headSha)
      invariant forall id :: id in ids <==> HasId(all, id)
    {
      var job := data[i];
      assert (jobs + data)[|jobs| + i] == job;
      assert forall k | 0 <= k < |all| :: all[k] == (jobs + data)[k];
      if !Matches(job, runId, attempt, headSha) {
        return Err(WrongJob);
      }
      if job.id in ids {
        return Err(RepeatedJob);
      }
      assert forall k | 0 <= k < |all| :: all[k].id != job.id;
      forall id ensures HasId(all + [job], id) <==> id in ids + {job.id} {
        HasIdAfter(all, job, id);
      }
      ids := ids + {job.id};
      all := all + [job];
      i := i + 1;
    }
    assert data[..i] == data;
    return Ok(all);
  }

  /** Reads every job of one attempt, page by page, until the declared number is complete. */
  method ReadJobs(api: Api, clock: Clock, runId: int, attempt: int, headSha: string, deadline: int)
    returns (result: Result<seq<Job>, Fault>, ghost pages: seq<Page>)
    modifies api, clock
    ensures |pages| <= MAX_PAGES && api.log == old(api.log) + PageEvents(attempt, pages)
    ensures result.Ok? ==>
      && IsInventory(result.value, runId, attempt, headSha)
      && result.value == JobsIn(pages) && pages != []
      && forall i | 0 <= i < |pages| :: pages[i].Page? && pages[i].total == |result.value|
    ensures result == Err(TimedOut) ==> deadline <= clock.time
    ensures attempt in api.steadyJobs && result != Err(TimedOut) ==>
      var jobs := api.steadyJobs[attempt];
      if |jobs| <= MAX_PAGES * PAGE_SIZE && IsInventory(jobs, runId, attempt, headSha) then result == Ok(jobs)
      else result.Err?
    ensures old(clock.time) <= clock.time
  {
    hide IsInventory, IsFirst, PageOf, PageEvents, JobsIn;
    var jobs: seq<Job> := [];
    var total: Option<int> := None;
    var page := 1;
    pages := [];
    NothingRead(api.steadyJobs, runId, attempt, headSha);
    while true
      invariant 1 <= page <= MAX_PAGES + 1 && |pages| == page - 1
      invariant api.log == old(api.log) + PageEvents(attempt, pages)
      invariant IsInventory(jobs, runId, attempt, headSha) && jobs == JobsIn(pages)
      invariant total.Some? <==> page > 1
      invariant |jobs| == PAGE_SIZE * (page - 1)
      invariant forall i | 0 <= i < |pages| :: pages[i].Page? && Some(pages[i].total) == total
      invariant total.Some? ==> |jobs| < total.value <= MAX_PAGES * PAGE_SIZE
      invariant attempt in api.steadyJobs ==>
        IsFirst(jobs, api.steadyJobs[attempt], page) && (total.Some? ==> total.value == |api.steadyJobs[attempt]|)
      invariant old(clock.time) <= clock.time
      decreases MAX_PAGES + 1 - page
    {
      if page > MAX_PAGES {
        return Err(PaginationBound), pages;
      }
      var now := clock.Now();
      if now >= deadline {
        return Err(TimedOut), pages;
      }
      var data := api.ReadPage(attempt, page);
      ghost var before := pages;
      if attempt in api.steadyJobs {
        PageExtends(jobs, api.steadyJobs[attempt], page, runId, attempt, headSha);
      }
      pages := pages + [data];
      OnePageMore(attempt, before, data);
      if data.BadPage? || data.total < 0 || data.total > MAX_PAGES * PAGE_SIZE || |data.jobs| > PAGE_SIZE {
        return Err(BadInventory), pages;
      }
      if total.None? {
        total := Some(data.total);
      } else if total.value != data.total {
        return Err(InventoryChanged), pages;
      }
      var added := AddJobs(jobs, data.jobs, runId, attempt, headSha);
      if added.Err? {
        return Err(added.error), pages;
      }
      jobs := added.value;
      if |jobs| > total.value {
        return Err(TooManyJobs), pages;
      }
      if |jobs| == total.value {
        return Ok(jobs), pages;
      }
      if |data.jobs| < PAGE_SIZE {
        return Err(BadInventory), pages;
      }
      page := page + 1;
    }
  }

  lemma NothingRead(steadyJobs: map<int, seq<Job>>, runId: int, attempt: int, headSha: string)
    ensures PageEvents(attempt, []) == [] && JobsIn([]) == []
    ensures IsInventory([], runId, attempt, headSha)
    ensures attempt in steadyJobs ==> IsFirst([], steadyJobs[attempt], 1)
  {}

  /** The jobs read before a page are the first ones of the list. */
  predicate IsFirst(jobs: seq<Job>, list: seq<Job>, page: int)
    requires page >= 1
  {
    PAGE_SIZE * (page - 1) <= |list| && jobs == list[..PAGE_SIZE * (page - 1)]
  }

  /** One more page of a list that does not change leads on to the next, or completes the list. */
  lemma {:induction false} PageExtends(
      jobs: seq<Job>, list: seq<Job>, page: int, runId: int, attempt: int, headSha: string)
    requires page >= 1 && IsFirst(jobs, list, page)
    ensures PageOf(list, page).Page?
    ensures var data := PageOf(list, page);
      var all := jobs + data.jobs;
      && data.total == |list| && |all| <= |list| && |data.jobs| <= PAGE_SIZE
      && (if |all| == |list| then all == list else |data.jobs| == PAGE_SIZE && IsFirst(all, list, page + 1))
      && (IsInventory(list, runId, attempt, headSha) ==> IsInventory(all, runId, attempt, headSha))
  {
    var all := jobs + PageOf(list, page).jobs;
    assert all == list[..Min(PAGE_SIZE * page, |list|)];
  }

  // ---------------------------------------------------------------- the certificate of a run

  const KNOWN_STATES: set<string> := {"queued", "in_progress", "completed", "waiting", "pending", "requested"}

  function JobsNamed(jobs: seq<Job>, name: string): (named: seq<Job>)
    ensures forall job :: job in named <==> job in jobs && job.Job? && job.name == name
  {
    if jobs == [] then []
    else (if jobs[0].Job? && jobs[0].name == name then [jobs[0]] else []) + JobsNamed(jobs[1..], name)
  }

  /** No two jobs of a name, and a known state of the one there is. */
  predicate IsCertain(jobs: seq<Job>, name: string) {
    && (forall i, j | 0 <= i < j < |jobs| && jobs[i].Job? && jobs[j].Job? ::
          jobs[i].name != name || jobs[j].name != name)
    && (forall job <- jobs | job.Job? && job.name == name ::
          job.status in KNOWN_STATES && (job.status == "completed" ==> job.conclusion.Some?))
  }

  lemma {:induction false} AtMostOneNamed(jobs: seq<Job>, name: string)
    ensures IsCertain(jobs, name) ==> |JobsNamed(jobs, name)| <= 1
  {
    if jobs != [] && IsCertain(jobs, name) {
      assert forall job <- jobs[1..] :: job in jobs;
      AtMostOneNamed(jobs[1..], name);
      if jobs[0].Job? && jobs[0].name == name {
        NoneNamed(jobs[1..], name);
      }
    }
  }

  lemma {:induction false} NoneNamed(jobs: seq<Job>, name: string)
    requires forall i | 0 <= i < |jobs| :: !jobs[i].Job? || jobs[i].name != name
    ensures JobsNamed(jobs, name) == []
  {
    if jobs != [] {
      NoneNamed(jobs[1..], name);
    }
  }

  /** The one job that certifies the scope, or none when the inventory lacks it. */
  function SelectCertificate(jobs: seq<Job>, scope: string): (certificate: Result<Option<Job>, Fault>)
    ensures certificate.Ok? && certificate.value.Some? ==>
      var job := certificate.value.value;
      && job in jobs && job.Job? && CertificateName(scope) == Some(job.name)
      && (forall other <- jobs | other.Job? && other.name == job.name :: other == job)
      && (job.status == "completed" ==> job.conclusion.Some?)
    ensures certificate == Ok(None) ==>
      CertificateName(scope).Some?
      && forall job <- jobs | job.Job? :: job.name != CertificateName(scope).value
    ensures certificate.Err? ==> certificate.error in {UnknownScope, SeveralCertificates, UnknownState}
    ensures CertificateName(scope).Some? && IsCertain(jobs, CertificateName(scope).value) ==> certificate.Ok?
  {
    var name := CertificateName(scope);
    if name.None? then Err(UnknownScope)
    else
      var matches := JobsNamed(jobs, name.value);
      AtMostOneNamed(jobs, name.value);
      if |matches| > 1 then Err(SeveralCertificates)
      else if matches == [] then
        assert forall job <- jobs :: job !in matches;
        Ok(None)
      else
        var job := matches[0];
        assert matches == [job];
        assert forall other <- jobs | other.Job? && other.name == job.name :: other in matches;
        if job.status !in KNOWN_STATES || (job.status == "completed" && job.conclusion.None?) then Err(UnknownState)
        else Ok(Some(job))
  }

  datatype Evidence = Evidence(attempt: int, job: Option<Job>, runStatus: string)

  /** One attempt's jobs, and the run as it was read after them. */
  datatype Look = Look(attempt: int, pages: seq<Page>, run: Run)

  function LookEvents(looks: seq<Look>): seq<Event> {
    if looks == [] then []
    else
      var last := looks[|looks| - 1];
      LookEvents(looks[..|looks| - 1]) + (PageEvents(last.attempt, last.pages) + [RunRead(last.run)])
  }

  lemma OneLookMore(looks: seq<Look>, look: Look)
    ensures LookEvents(looks + [look])
         == LookEvents(looks) + (PageEvents(look.attempt, look.pages) + [RunRead(look.run)])
  {
    assert (looks + [look])[..|looks|] == looks;
  }

  lemma NoLooks()
    ensures LookEvents([]) == []
  {}

  predicate IsShaDigit(c: char) {
    '0' <= c <= '9' || 'a' <= c <= 'f'
  }

  predicate IsSha(text: string) {
    |text| == 40 && forall i | 0 <= i < 40 :: IsShaDigit(text[i])
  }

  datatype Expected = Expected(
    runId: int, headSha: string, repository: Option<string>, workflowPath: Option<string>)

  predicate IsSameRun(run: Run, expected: Expected) {
    && run.Run? && run.id == expected.runId && run.headSha == expected.headSha
    && (expected.workflowPath.Some? ==> run.path == expected.workflowPath.value)
    && (expected.repository.Some? ==>
          run.repository == expected.repository.value && run.headRepository == expected.repository.value)
  }

  /**
   * The certificate comes from the complete jobs of one attempt, which a read of the run after them
   * still names as its current attempt.
   */
  ghost predicate IsBacked(evidence: Evidence, looks: seq<Look>, expected: Expected, scope: string) {
    && looks != []
    && var last := looks[|looks| - 1];
    && last.attempt == evidence.attempt
    && IsSameRun(last.run, expected) && last.run.attempt == evidence.attempt && last.run.status == evidence.runStatus
    && IsInventory(JobsIn(last.pages), expected.runId, evidence.attempt, expected.headSha)
    && SelectCertificate(JobsIn(last.pages), scope) == Ok(evidence.job)
  }

  method ReadOnce(api: Api, clock: Clock, scope: string, attempt: int, expected: Expected, deadline: int)
    returns (result: Result<Option<Job>, Fault>, run: Run, ghost pages: seq<Page>)
    modifies api, clock
    ensures |pages| <= MAX_PAGES
    ensures result.Ok? ==>
      && api.log == old(api.log) + (PageEvents(attempt, pages) + [RunRead(run)])
      && IsInventory(JobsIn(pages), expected.runId, attempt, expected.headSha)
      && SelectCertificate(JobsIn(pages), scope) == result
    ensures result == Err(TimedOut) ==> deadline <= clock.time
    ensures IsSteady(api, scope, attempt, expected) && result != Err(TimedOut) ==>
      result == SelectCertificate(api.steadyJobs[attempt], scope) && run == api.steadyRun.value
  {
    hide IsInventory, JobsIn, SelectCertificate, PageEvents, IsSameRun;
    var jobs;
    run := BadRun;
    jobs, pages := ReadJobs(api, clock, expected.runId, attempt, expected.headSha, deadline);
    if jobs.Err? {
      return Err(jobs.error), run, pages;
    }
    result := SelectCertificate(jobs.value, scope);
    if result.Err? {
      return;
    }
    var now := clock.Now();
    if now >= deadline {
      return Err(TimedOut), run, pages;
    }
    run := api.ReadRun();
  }

  method ReadRunCertificate(api: Api, clock: Clock, scope: string, attempt: int, expected: Expected, deadline: int)
    returns (result: Result<Evidence, Fault>, ghost looks: seq<Look>)
    modifies api, clock
    ensures |looks| <= MAX_ATTEMPT_CHANGES + 1
    ensures forall i, j | 0 <= i < j < |looks| :: looks[i].attempt < looks[j].attempt
    ensures forall i | 0 <= i < |looks| :: |looks[i].pages| <= MAX_PAGES
    ensures looks != [] ==> looks[0].attempt == attempt
    ensures result.Ok? ==>
      IsBacked(result.value, looks, expected, scope) && api.log == old(api.log) + LookEvents(looks)
    ensures result == Err(TimedOut) ==> deadline <= clock.time
    ensures IsSteady(api, scope, attempt, expected) && result != Err(TimedOut) ==>
      result == Ok(SteadyEvidence(api, scope, attempt))
  {
    hide IsInventory, JobsIn, SelectCertificate, PageEvents, LookEvents, IsSha;
    looks := [];
    if CertificateName(scope).None? {
      return Err(UnknownScope), looks;
    }
    if !PositiveInteger(expected.runId) || !PositiveInteger(attempt) {
      return Err(BadNumbers), looks;
    }
    if !IsSha(expected.headSha) {
      return Err(BadNumbers), looks;
    }
    var current := attempt;
    var changes := 0;
    assert LookEvents(looks) == [] by { NoLooks(); }
    while true
      invariant 0 <= changes == |looks| <= MAX_ATTEMPT_CHANGES
      invariant api.log == old(api.log) + LookEvents(looks)
      invariant forall i, j | 0 <= i < j < |looks| :: looks[i].attempt < looks[j].attempt
      invariant forall i | 0 <= i < |looks| :: looks[i].attempt < current && |looks[i].pages| <= MAX_PAGES
      invariant looks != [] ==> looks[0].attempt == attempt
      invariant looks == [] ==> current == attempt
      invariant IsSteady(api, scope, attempt, expected) ==> changes == 0
      decreases MAX_ATTEMPT_CHANGES - changes
    {
      var certificate, run, pages := ReadOnce(api, clock, scope, current, expected, deadline);
      if certificate.Err? {
        return Err(certificate.error), looks;
      }
      OneLookMore(looks, Look(current, pages, run));
      looks := looks + [Look(current, pages, run)];
      if !IsSameRun(run, expected) {
        return Err(IdentityChanged), looks;
      }
      if !PositiveInteger(run.attempt) || run.attempt < current {
        return Err(UnverifiedAttempt), looks;
      }
      if run.attempt == current {
        return Ok(Evidence(current, certificate.value, run.status)), looks;
      }
      if changes >= MAX_ATTEMPT_CHANGES {
        return Err(KeptChanging), looks;
      }
      current := run.attempt;
      changes := changes + 1;
    }
  }

  /** A run whose attempt and jobs stay as they are while they are read. */
  ghost predicate IsSteady(api: Api, scope: string, attempt: int, expected: Expected) {
    && PositiveInteger(expected.runId) && PositiveInteger(attempt) && IsSha(expected.headSha)
    && api.steadyRun.Some? && IsSameRun(api.steadyRun.value, expected) && api.steadyRun.value.attempt == attempt
    && attempt in api.steadyJobs && |api.steadyJobs[attempt]| <= MAX_PAGES * PAGE_SIZE
    && IsInventory(api.steadyJobs[attempt], expected.runId, attempt, expected.headSha)
    && SelectCertificate(api.steadyJobs[attempt], scope).Ok?
  }

  ghost function SteadyEvidence(api: Api, scope: string, attempt: int): Evidence
    requires attempt in api.steadyJobs && SelectCertificate(api.steadyJobs[attempt], scope).Ok?
    requires api.steadyRun.Some? && api.steadyRun.value.Run?
  {
    Evidence(attempt, SelectCertificate(api.steadyJobs[attempt], scope).value, api.steadyRun.value.status)
  }
}
