/** What a certificate read page by page, and the run read after it, say of the Checks as they go on. */
module Readings {
  import opened Wrappers
  import opened Evidence
  import opened Reuse

  predicate Certifies(job: Job, scope: string) {
    job.Job? && CertificateName(scope) == Some(job.name)
  }

  predicate HasAttempt(world: World, id: int, attempt: int) {
    id in world && 1 <= attempt <= |world[id]|
  }

  /**
   * Every answer tells of its moment: a page shows the certificate as it is then, pages without one show that it was
   * missing at one of them, and the run tells its last attempt.
   */
  ghost predicate AnswersFrom(look: Look, moments: seq<World>, after: World, id: int, scope: string) {
    && |moments| == |look.pages| && (forall i | 0 <= i < |moments| :: Evolves(moments[i], after))
    && (forall i, job |
          0 <= i < |moments| && look.pages[i].Page? && job in look.pages[i].jobs && Certifies(job, scope) ::
          HasAttempt(moments[i], id, look.attempt) && moments[i][id][look.attempt - 1].job == Some(job))
    && ((forall job <- JobsIn(look.pages) :: !Certifies(job, scope)) ==>
          exists i | 0 <= i < |moments| ::
            HasAttempt(moments[i], id, look.attempt) && moments[i][id][look.attempt - 1].job == None)
    && (look.run.Run? ==>
          && id in after && after[id] != [] && look.run.attempt == |after[id]|
          && look.run.status == after[id][|after[id]| - 1].status)
  }

  lemma {:induction false} OnSomePage(pages: seq<Page>, job: Job) returns (i: nat)
    requires job in JobsIn(pages)
    ensures i < |pages| && pages[i].Page? && job in pages[i].jobs
  {
    var last := |pages| - 1;
    if job in JobsIn(pages[..last]) {
      i := OnSomePage(pages[..last], job);
    } else {
      i := last;
    }
  }

  /** The moment at which the certificate was as it was read. */
  lemma {:induction false} JobMoment(
      job: Option<Job>, look: Look, moments: seq<World>, after: World, id: int, scope: string) returns (i: nat)
    requires AnswersFrom(look, moments, after, id, scope)
    requires SelectCertificate(JobsIn(look.pages), scope) == Ok(job)
    ensures i < |moments| && HasAttempt(moments[i], id, look.attempt)
    ensures moments[i][id][look.attempt - 1].job == job
  {
    hide JobsIn, SelectCertificate, Evolves;
    if job.Some? {
      i := OnSomePage(look.pages, job.value);
    } else {
      i :| 0 <= i < |moments| && HasAttempt(moments[i], id, look.attempt)
           && moments[i][id][look.attempt - 1].job == None;
    }
  }

  /**
   * A certificate that was read is the one of some moment before the run was read, with the run as it was then. It
   * goes on to stand, and where nothing changed while it was read it is the fresh one.
   */
  lemma {:induction false} ReadingStands(
      evidence: Evidence, looks: seq<Look>, expected: Expected, scope: string, moments: seq<World>, after: World,
      now: World)
    requires IsBacked(evidence, looks, expected, scope)
    requires AnswersFrom(looks[|looks| - 1], moments, after, expected.runId, scope) && Evolves(after, now)
    ensures var id := expected.runId;
      && Stands(now, id, evidence, false)
      && id in after && after[id] != []
      && (exists i | 0 <= i < |moments| ::
            && id in moments[i] && moments[i][id] != [] && |moments[i][id]| == |after[id]|
            && evidence == Fresh(after, id).(job := Fresh(moments[i], id).job))
      && ((forall i | 0 <= i < |moments| :: moments[i] == after) ==>
            evidence == Fresh(after, id) && Stands(now, id, evidence, true))
  {
    hide IsInventory, JobsIn, SelectCertificate, IsSameRun;
    var look, id := looks[|looks| - 1], expected.runId;
    RunIsRead(look, expected);
    var i := JobMoment(evidence.job, look, moments, after, id, scope);
    assert Evolves(moments[i], after);
    assert AttemptEvolves(moments[i][id][evidence.attempt - 1], after[id][evidence.attempt - 1]);
    assert AttemptEvolves(after[id][evidence.attempt - 1], now[id][evidence.attempt - 1]);
    assert evidence == Fresh(after, id).(job := Fresh(moments[i], id).job);
  }

  lemma RunIsRead(look: Look, expected: Expected)
    requires IsSameRun(look.run, expected)
    ensures look.run.Run? && look.run.id == expected.runId
  {}
}
