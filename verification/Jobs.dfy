/** Batch jobs: UpsertJob and the job part of reconcileJobsAndCron in internal/service/features.go. */
module Jobs {
  import opened Tables
  import opened Types
  import Text

  const SECOND := 1_000_000_000

  datatype JobPhase = Pending | Running | Succeeded | Failed

  datatype Job = Job(
    id: string, namespace: string, backoffLimit: int, ttlSeconds: int, status: JobPhase, deployment: string,
    succeeded: int, failed: int, runCount: int, completedAt: Option<int>)
  {
    predicate Active() {
      status.Pending? || status.Running?
    }
  }

  /** The defaults UpsertJob fills in; the identifier is given. */
  function Submitted(j: Job): Job {
    j.(namespace := if Text.IsBlank(j.namespace) then "default" else j.namespace,
       backoffLimit := if j.backoffLimit < 0 then 0 else j.backoffLimit)
  }

  /**
   * What a visit meets outside the job record: the deployment that CreateDeployment makes, if it makes one,
   * and the statuses of the workloads of the job's deployment in store order.
   */
  datatype Observation = Observation(created: Option<string>, statuses: seq<WorkloadStatus>)

  predicate Decides(s: WorkloadStatus) {
    s.Running? || s.Failed?
  }

  function FirstDecided(statuses: seq<WorkloadStatus>): Option<WorkloadStatus> {
    if statuses == [] then None
    else if Decides(statuses[0]) then Some(statuses[0])
    else FirstDecided(statuses[1..])
  }

  /** What a visit does to the stored record. */
  datatype Effect = Keep | Store(job: Job) | Drop

  function Judge(j: Job, o: Observation, now: int): Effect {
    match j.status
    case Pending =>
      if Text.IsBlank(j.deployment) && o.created.Some?
      then Store(j.(deployment := o.created.value, status := JobPhase.Running))
      else Keep
    case Running =>
      if Text.IsBlank(j.deployment) then Keep
      else
        (match FirstDecided(o.statuses)
         case None => Keep
         case Some(s) => if s.Running? then Store(Completed(j, now)) else Store(FailedOnce(j, now)))
    case _ =>
      if j.ttlSeconds > 0 && j.completedAt.Some? && now - j.completedAt.value >= j.ttlSeconds * SECOND then Drop else Keep
  }

  function Completed(j: Job, now: int): Job {
    j.(succeeded := j.succeeded + 1, runCount := j.runCount + 1, status := Succeeded, completedAt := Some(now))
  }

  function FailedOnce(j: Job, now: int): Job {
    var k := j.(failed := j.failed + 1);
    if k.failed > k.backoffLimit then k.(status := JobPhase.Failed, completedAt := Some(now))
    else k.(status := JobPhase.Pending, deployment := "")
  }

  datatype Visit = Visit(job: Job, seen: Observation)

  function Applied(t: seq<Entry<Job>>, id: string, e: Effect): seq<Entry<Job>> {
    match e
    case Keep => t
    case Store(j) => Put(t, id, j)
    case Drop => Remove(t, id)
  }

  /** Every visit works on the copy listed at the start of the pass. */
  function Pass(t: seq<Entry<Job>>, visits: seq<Visit>, now: int): seq<Entry<Job>> {
    if visits == [] then t
    else
      var n := |visits| - 1;
      Applied(Pass(t, visits[..n], now), visits[n].job.id, Judge(visits[n].job, visits[n].seen, now))
  }

  // ----- one pass -----

  ghost predicate Keyed(t: seq<Entry<Job>>) {
    Ordered(t) && forall k | 0 <= k < |t| :: t[k].rec.id == t[k].id
  }

  /** The visits hold copies of the stored records. */
  ghost predicate CopiesOf(visits: seq<Visit>, t: seq<Entry<Job>>) {
    forall k | 0 <= k < |visits| :: Get(t, visits[k].job.id) == Some(visits[k].job)
  }

  function Outcome(e: Effect, was: Option<Job>): Option<Job> {
    match e
    case Keep => was
    case Store(j) => Some(j)
    case Drop => None
  }

  lemma AppliedAt(t: seq<Entry<Job>>, key: string, e: Effect, id: string)
    requires Ordered(t)
    ensures Ordered(Applied(t, key, e))
    ensures Get(Applied(t, key, e), id) == if id == key then Outcome(e, Get(t, id)) else Get(t, id)
  {
    match e
    case Keep =>
    case Store(j) =>
      PutOrdered(t, key, j);
      GetPut(t, key, j, id);
    case Drop =>
      RemoveOrdered(t, key);
      GetRemove(t, key, id);
  }

  /** The last visit that changes anything. */
  function LastEffect(visits: seq<Visit>, id: string, now: int): Effect {
    if visits == [] then Keep
    else
      var n := |visits| - 1;
      var e := Judge(visits[n].job, visits[n].seen, now);
      if visits[n].job.id == id && !e.Keep? then e else LastEffect(visits[..n], id, now)
  }

  /** However often a job is visited from stale copies, a pass comes to one visit of the record it began with. */
  lemma {:induction false} PassIsOneVisit(t: seq<Entry<Job>>, visits: seq<Visit>, now: int, id: string)
    requires Ordered(t)
    ensures Ordered(Pass(t, visits, now))
    ensures Get(Pass(t, visits, now), id) == Outcome(LastEffect(visits, id, now), Get(t, id))
  {
    if visits != [] {
      var n := |visits| - 1;
      PassIsOneVisit(t, visits[..n], now, id);
      AppliedAt(Pass(t, visits[..n], now), visits[n].job.id, Judge(visits[n].job, visits[n].seen, now), id);
    }
  }

  lemma {:induction false} LastEffectIsJudgement(t: seq<Entry<Job>>, visits: seq<Visit>, now: int, id: string)
    requires CopiesOf(visits, t) && !LastEffect(visits, id, now).Keep?
    ensures Get(t, id).Some? && exists o :: LastEffect(visits, id, now) == Judge(Get(t, id).value, o, now)
  {
    var n := |visits| - 1;
    if !(visits[n].job.id == id && !Judge(visits[n].job, visits[n].seen, now).Keep?) {
      LastEffectIsJudgement(t, visits[..n], now, id);
    }
  }

  // ----- bounded retries -----

  /** The bound on failures: exceeded by one exactly in phase Failed, never while the job is active; a finished job says when. */
  predicate Bounded(j: Job) {
    && 0 <= j.failed <= j.backoffLimit + 1
    && (j.failed == j.backoffLimit + 1 <==> j.status.Failed?)
    && (j.Active() ==> j.failed <= j.backoffLimit)
    && (!j.Active() ==> j.completedAt.Some?)
  }

  /** Retries left, and the phase within a retry. */
  function Rank(j: Job): int {
    match j.status
    case Pending => 2 * (j.backoffLimit + 1 - j.failed)
    case Running => 2 * (j.backoffLimit + 1 - j.failed) - 1
    case _ => 0
  }

  /** A visit that stores anything finds the job active, keeps the bound and uses up rank; only a terminal job is dropped. */
  lemma VisitMakesProgress(j: Job, o: Observation, now: int)
    requires Bounded(j)
    ensures var e := Judge(j, o, now);
            && (e.Store? ==> j.Active() && e.job.id == j.id && Bounded(e.job) && 0 <= Rank(e.job) < Rank(j))
            && (e.Drop? ==> !j.Active() && j.ttlSeconds > 0)
    ensures Rank(j) >= 0
  {
    if j.status.Running? && !Text.IsBlank(j.deployment) {
      FirstDecidedDecides(o.statuses);
    }
  }

  lemma {:induction false} FirstDecidedDecides(statuses: seq<WorkloadStatus>)
    ensures FirstDecided(statuses).Some? ==> Decides(FirstDecided(statuses).value) && FirstDecided(statuses).value in statuses
    ensures FirstDecided(statuses).None? ==> forall s | s in statuses :: !s.Running? && !s.Failed?
  {
    if statuses != [] && !Decides(statuses[0]) {
      FirstDecidedDecides(statuses[1..]);
    }
  }

  /** The first Running or Failed workload decides: those listed before it are neither. */
  lemma {:induction false} FirstDecidedExactly(statuses: seq<WorkloadStatus>, k: nat)
    requires k < |statuses| && (statuses[k].Running? || statuses[k].Failed?)
    requires forall j | 0 <= j < k :: !statuses[j].Running? && !statuses[j].Failed?
    ensures FirstDecided(statuses) == Some(statuses[k])
  {
    if k > 0 {
      FirstDecidedExactly(statuses[1..], k - 1);
    }
  }

  /** What a decided attempt stores: a success is counted and final; a failure is counted, and final once it exceeds the limit. */
  lemma AttemptDecided(j: Job, o: Observation, now: int)
    requires j.status.Running? && Text.TrimSpace(j.deployment) != "" && FirstDecided(o.statuses).Some?
    ensures Judge(j, o, now).Store?
    ensures var k := Judge(j, o, now).job;
            && k.id == j.id && k.namespace == j.namespace && k.backoffLimit == j.backoffLimit && k.ttlSeconds == j.ttlSeconds
            && (FirstDecided(o.statuses).value.Running? ==>
                  && k.status == Succeeded && k.succeeded == j.succeeded + 1 && k.runCount == j.runCount + 1 && k.failed == j.failed
                  && k.completedAt == Some(now) && k.deployment == j.deployment)
            && (FirstDecided(o.statuses).value.Failed? ==>
                  && k.failed == j.failed + 1 && k.succeeded == j.succeeded && k.runCount == j.runCount
                  && (if j.failed >= j.backoffLimit
                      then k.status == JobPhase.Failed && k.completedAt == Some(now) && k.deployment == j.deployment
                      else k.status == JobPhase.Pending && k.completedAt == j.completedAt && k.deployment == ""))
  {
  }

  /** A new attempt names the deployment that was created for it and is Running; without one the job waits. */
  lemma AttemptStarts(j: Job, o: Observation, now: int)
    requires j.status.Pending?
    ensures Judge(j, o, now) ==
              if Text.TrimSpace(j.deployment) == "" && o.created.Some?
              then Store(j.(deployment := o.created.value, status := JobPhase.Running)) else Keep
  {
  }

  // ----- every run -----

  /** A pass over copies of the stored jobs, or the submission of any job, which replaces a stored one of its identifier. */
  datatype Event =
    | Reconcile(visits: seq<Visit>, now: int)
    | Submit(job: Job)

  function After(t: seq<Entry<Job>>, e: Event): seq<Entry<Job>> {
    match e
    case Reconcile(visits, now) => Pass(t, visits, now)
    case Submit(j) => Put(t, j.id, Submitted(j))
  }

  ghost predicate Allowed(t: seq<Entry<Job>>, e: Event) {
    e.Reconcile? ==> CopiesOf(e.visits, t)
  }

  function Run(t: seq<Entry<Job>>, evs: seq<Event>): seq<Entry<Job>> {
    if evs == [] then t else After(Run(t, evs[..|evs| - 1]), evs[|evs| - 1])
  }

  ghost predicate Admissible(t: seq<Entry<Job>>, evs: seq<Event>) {
    evs == [] || (Admissible(t, evs[..|evs| - 1]) && Allowed(Run(t, evs[..|evs| - 1]), evs[|evs| - 1]))
  }

  lemma RunExtends(t: seq<Entry<Job>>, evs: seq<Event>, e: Event)
    requires Admissible(t, evs) && Allowed(Run(t, evs), e)
    ensures Admissible(t, evs + [e]) && Run(t, evs + [e]) == After(Run(t, evs), e)
  {
    assert (evs + [e])[..|evs|] == evs;
  }

  predicate BoundedAt(t: seq<Entry<Job>>, id: string) {
    Get(t, id).Some? ==> Bounded(Get(t, id).value)
  }

  /** What a pass does to one job: nothing, a step that uses up rank, or removal of a terminal job past its TTL. */
  lemma PassOnJob(t: seq<Entry<Job>>, visits: seq<Visit>, now: int, id: string)
    requires Ordered(t) && BoundedAt(t, id) && CopiesOf(visits, t)
    ensures var before, after := Get(t, id), Get(Pass(t, visits, now), id);
            || after == before
            || (&& before.Some? && before.value.Active()
                && after.Some? && Bounded(after.value) && 0 <= Rank(after.value) < Rank(before.value))
            || (before.Some? && !before.value.Active() && before.value.ttlSeconds > 0 && after.None?)
  {
    PassIsOneVisit(t, visits, now, id);
    if !LastEffect(visits, id, now).Keep? {
      LastEffectIsJudgement(t, visits, now, id);
      var o :| LastEffect(visits, id, now) == Judge(Get(t, id).value, o, now);
      VisitMakesProgress(Get(t, id).value, o, now);
    }
  }

  lemma {:induction false} RunIsOrdered(t: seq<Entry<Job>>, evs: seq<Event>)
    requires Ordered(t)
    ensures Ordered(Run(t, evs))
  {
    if evs != [] {
      var s, e := Run(t, evs[..|evs| - 1]), evs[|evs| - 1];
      RunIsOrdered(t, evs[..|evs| - 1]);
      match e
      case Reconcile(visits, now) => PassIsOneVisit(s, visits, now, "");
      case Submit(j) => PutOrdered(s, j.id, Submitted(j));
    }
  }

  /** Whenever this job is submitted, it is Pending and has not failed. */
  predicate SubmittedAfresh(evs: seq<Event>, id: string) {
    forall i | 0 <= i < |evs| && evs[i].Submit? && evs[i].job.id == id :: evs[i].job.status.Pending? && evs[i].job.failed == 0
  }

  /** In every run, whatever else is submitted, a job submitted afresh keeps the bound on its failures. */
  lemma {:induction false} RetriesAreBounded(t: seq<Entry<Job>>, evs: seq<Event>, id: string)
    requires Ordered(t) && BoundedAt(t, id) && Admissible(t, evs) && SubmittedAfresh(evs, id)
    ensures BoundedAt(Run(t, evs), id)
  {
    if evs != [] {
      var s, e := Run(t, evs[..|evs| - 1]), evs[|evs| - 1];
      RetriesAreBounded(t, evs[..|evs| - 1], id);
      RunIsOrdered(t, evs[..|evs| - 1]);
      match e
      case Reconcile(visits, now) => PassOnJob(s, visits, now, id);
      case Submit(j) => GetPut(s, j.id, Submitted(j), id);
    }
  }

  /** Nobody submits this job again during the run. */
  predicate NotResubmitted(evs: seq<Event>, id: string) {
    forall i | 0 <= i < |evs| && evs[i].Submit? :: evs[i].job.id != id
  }

  lemma OtherEvent(t: seq<Entry<Job>>, e: Event, id: string)
    requires e.Submit? && e.job.id != id
    ensures Get(After(t, e), id) == Get(t, id)
  {
    GetPut(t, e.job.id, Submitted(e.job), id);
  }

  /** Succeeded and Failed are final: from then on the record is that very record, or removed. */
  lemma {:induction false} TerminalIsFinal(t: seq<Entry<Job>>, evs: seq<Event>, id: string)
    requires Ordered(t) && BoundedAt(t, id) && Admissible(t, evs) && NotResubmitted(evs, id)
    requires Get(t, id).Some? && !Get(t, id).value.Active()
    ensures Get(Run(t, evs), id) == Get(t, id) || Get(Run(t, evs), id).None?
  {
    if evs != [] {
      var s, e := Run(t, evs[..|evs| - 1]), evs[|evs| - 1];
      TerminalIsFinal(t, evs[..|evs| - 1], id);
      RetriesAreBounded(t, evs[..|evs| - 1], id);
      RunIsOrdered(t, evs[..|evs| - 1]);
      if e.Submit? {
        OtherEvent(s, e, id);
      } else {
        PassOnJob(s, e.visits, e.now, id);
      }
    }
  }

  lemma {:induction false} TerminalEffect(t: seq<Entry<Job>>, visits: seq<Visit>, now: int, id: string)
    requires CopiesOf(visits, t) && Get(t, id).Some? && !Get(t, id).value.Active()
    ensures var j := Get(t, id).value;
            var overdue := j.ttlSeconds > 0 && j.completedAt.Some? && now - j.completedAt.value >= j.ttlSeconds * SECOND;
            LastEffect(visits, id, now) == if overdue && exists k | 0 <= k < |visits| :: visits[k].job.id == id then Drop else Keep
  {
    if visits != [] {
      var n := |visits| - 1;
      TerminalEffect(t, visits[..n], now, id);
      assert forall k | 0 <= k < n :: visits[..n][k] == visits[k];
      assert Get(t, visits[n].job.id) == Some(visits[n].job);
    }
  }

  /** A finished job with a TTL is removed by exactly those passes that visit it once the TTL has run out. */
  lemma TtlRemovesExactly(t: seq<Entry<Job>>, visits: seq<Visit>, now: int, id: string)
    requires Ordered(t) && BoundedAt(t, id) && CopiesOf(visits, t) && Get(t, id).Some? && !Get(t, id).value.Active()
    ensures Get(t, id).value.completedAt.Some?
    ensures var j := Get(t, id).value;
            Get(Pass(t, visits, now), id).None? <==>
              && j.ttlSeconds > 0 && now >= j.completedAt.value + j.ttlSeconds * SECOND
              && exists k | 0 <= k < |visits| :: visits[k].job.id == id
  {
    PassIsOneVisit(t, visits, now, id);
    TerminalEffect(t, visits, now, id);
  }

  function RankAt(t: seq<Entry<Job>>, id: string): int {
    match Get(t, id)
    case None => 0
    case Some(j) => Rank(j)
  }

  /** The passes that changed the record of an active job. */
  function Changes(t: seq<Entry<Job>>, evs: seq<Event>, id: string): nat {
    if evs == [] then 0
    else
      var s := Run(t, evs[..|evs| - 1]);
      var j := Get(s, id);
      Changes(t, evs[..|evs| - 1], id)
      + if j.Some? && j.value.Active() && Get(After(s, evs[|evs| - 1]), id) != j then 1 else 0
  }

  /** So a job changes at most 2 * (BackoffLimit + 1) times, whatever the workloads do and however often it is visited. */
  lemma {:induction false} ChangesAreBounded(t: seq<Entry<Job>>, evs: seq<Event>, id: string)
    requires Ordered(t) && BoundedAt(t, id) && Admissible(t, evs) && NotResubmitted(evs, id)
    ensures Changes(t, evs, id) + RankAt(Run(t, evs), id) <= RankAt(t, id)
    ensures RankAt(Run(t, evs), id) >= 0
    ensures Get(t, id).None? ==> Get(Run(t, evs), id).None?
  {
    RetriesAreBounded(t, evs, id);
    if evs != [] {
      var s, e := Run(t, evs[..|evs| - 1]), evs[|evs| - 1];
      ChangesAreBounded(t, evs[..|evs| - 1], id);
      RetriesAreBounded(t, evs[..|evs| - 1], id);
      RunIsOrdered(t, evs[..|evs| - 1]);
      if e.Submit? {
        OtherEvent(s, e, id);
      } else {
        PassOnJob(s, e.visits, e.now, id);
      }
    }
  }

  // ----- what the code does besides -----

  /** The deployment each visit asks DeleteDeployment to remove, after it has stored the job. */
  function DeleteRequest(j: Job, o: Observation, now: int): Option<string> {
    if j.status.Running? && Judge(j, o, now).Store? then Some(Judge(j, o, now).job.deployment) else None
  }

  /**
   * A visit asks for a removal exactly when a workload has decided the attempt. The request names the job's deployment
   * exactly when the attempt ran or no retry is left; a retry clears the deployment first and names nothing.
   */
  lemma RemovalNamesDeploymentExactly(j: Job, o: Observation, now: int)
    requires j.status.Running? && !Text.IsBlank(j.deployment)
    ensures DeleteRequest(j, o, now).Some? <==> FirstDecided(o.statuses).Some?
    ensures FirstDecided(o.statuses).Some? ==>
              && (DeleteRequest(j, o, now) == Some(j.deployment) <==>
                    FirstDecided(o.statuses).value.Running? || j.failed >= j.backoffLimit)
              && (DeleteRequest(j, o, now) != Some(j.deployment) ==> DeleteRequest(j, o, now) == Some(""))
  {
    FirstDecidedDecides(o.statuses);
    assert j.deployment != "";
  }

  const ATTEMPT := Job("job", "default", 1, 0, JobPhase.Running, "dep", 0, 0, 0, None)

  /** For instance the first of two attempts: its workload fails, and the removal is asked for nothing. */
  lemma FailedAttemptIsForgotten(now: int)
    ensures DeleteRequest(ATTEMPT, Observation(None, [WorkloadStatus.Failed]), now) == Some("")
    ensures Judge(ATTEMPT, Observation(None, [WorkloadStatus.Failed]), now).Store?
    ensures Judge(ATTEMPT, Observation(None, [WorkloadStatus.Failed]), now).job.deployment == ""
  {
    Text.WordNotBlank("dep");
    assert FirstDecided([WorkloadStatus.Failed]) == Some(WorkloadStatus.Failed);
    RemovalNamesDeploymentExactly(ATTEMPT, Observation(None, [WorkloadStatus.Failed]), now);
  }

  // ----- successes inside one pass -----

  /** The last decision that the visits of a job met. */
  function LastDecided(visits: seq<Visit>, id: string): Option<WorkloadStatus> {
    if visits == [] then None
    else
      var n := |visits| - 1;
      var here := FirstDecided(visits[n].seen.statuses);
      if visits[n].job.id == id && here.Some? then here else LastDecided(visits[..n], id)
  }

  lemma {:induction false} LastEffectOfRunning(t: seq<Entry<Job>>, visits: seq<Visit>, now: int, id: string)
    requires CopiesOf(visits, t) && Get(t, id).Some?
    requires Get(t, id).value.status.Running? && !Text.IsBlank(Get(t, id).value.deployment)
    ensures LastEffect(visits, id, now) ==
              match LastDecided(visits, id)
              case None => Keep
              case Some(s) => Store(if s.Running? then Completed(Get(t, id).value, now) else FailedOnce(Get(t, id).value, now))
  {
    if visits != [] {
      var n := |visits| - 1;
      LastEffectOfRunning(t, visits[..n], now, id);
      assert Get(t, visits[n].job.id) == Some(visits[n].job);
    }
  }

  ghost predicate SawSuccess(visits: seq<Visit>, id: string) {
    exists k | 0 <= k < |visits| :: visits[k].job.id == id && FirstDecided(visits[k].seen.statuses) == Some(WorkloadStatus.Running)
  }

  /** A pass that saw a running attempt succeed ends without the success exactly when the last decision it met was a failure. */
  lemma SuccessUndoneExactly(t: seq<Entry<Job>>, visits: seq<Visit>, now: int, id: string)
    requires Ordered(t) && CopiesOf(visits, t) && Get(t, id).Some? && SawSuccess(visits, id)
    requires Get(t, id).value.status.Running? && !Text.IsBlank(Get(t, id).value.deployment)
    ensures Get(Pass(t, visits, now), id).Some?
    ensures !Get(Pass(t, visits, now), id).value.status.Succeeded? <==> LastDecided(visits, id) == Some(WorkloadStatus.Failed)
  {
    PassIsOneVisit(t, visits, now, id);
    LastEffectOfRunning(t, visits, now, id);
    LastDecidedDecides(visits, id);
  }

  lemma {:induction false} LastDecidedDecides(visits: seq<Visit>, id: string)
    ensures LastDecided(visits, id).Some? ==> Decides(LastDecided(visits, id).value)
    ensures SawSuccess(visits, id) ==> LastDecided(visits, id).Some?
  {
    if visits != [] {
      var n := |visits| - 1;
      LastDecidedDecides(visits[..n], id);
      FirstDecidedDecides(visits[n].seen.statuses);
      assert forall k | 0 <= k < n :: visits[..n][k] == visits[k];
    }
  }

  /** Inside one pass a second visit of a stale copy can take a success back. */
  lemma SecondVisitUndoesSuccess(j: Job, now: int)
    requires j.status.Running? && !Text.IsBlank(j.deployment) && j.failed < j.backoffLimit
    ensures var t := [Entry(j.id, j)];
            var first := Visit(j, Observation(None, [WorkloadStatus.Running]));
            var second := Visit(j, Observation(None, [WorkloadStatus.Failed]));
            && Get(Pass(t, [first], now), j.id) == Some(Completed(j, now))
            && Get(Pass(t, [first, second], now), j.id) == Some(FailedOnce(j, now))
            && FailedOnce(j, now).status.Pending?
  {
    var t := [Entry(j.id, j)];
    var first := Visit(j, Observation(None, [WorkloadStatus.Running]));
    var second := Visit(j, Observation(None, [WorkloadStatus.Failed]));
    assert [first, second][..1] == [first] && [first][..0] == [];
    PassIsOneVisit(t, [first], now, j.id);
    PassIsOneVisit(t, [first, second], now, j.id);
  }

  /** For instance the attempt above: its workload is seen Running, then Failed. */
  lemma AttemptLosesItsSuccess(now: int)
    ensures var t := [Entry("job", ATTEMPT)];
            var visits := [Visit(ATTEMPT, Observation(None, [WorkloadStatus.Running])), Visit(ATTEMPT, Observation(None, [WorkloadStatus.Failed]))];
            Get(Pass(t, visits, now), "job") == Some(FailedOnce(ATTEMPT, now))
  {
    Text.WordNotBlank("dep");
    SecondVisitUndoesSuccess(ATTEMPT, now);
  }

  /** A pending job visited twice makes two deployments, and its record names only the second. */
  lemma SecondVisitOrphansDeployment(j: Job, one: string, two: string, now: int)
    requires j.status.Pending? && Text.IsBlank(j.deployment) && one != two
    ensures var t := [Entry(j.id, j)];
            var visits := [Visit(j, Observation(Some(one), [])), Visit(j, Observation(Some(two), []))];
            Get(Pass(t, visits, now), j.id) == Some(j.(status := JobPhase.Running, deployment := two))
  {
    PassIsOneVisit([Entry(j.id, j)], [Visit(j, Observation(Some(one), [])), Visit(j, Observation(Some(two), []))], now, j.id);
  }

  // ----- which jobs a pass visits -----

  predicate InNamespace(j: Job, namespace: string) {
    Text.IsBlank(namespace) || Text.EqualFold(Text.TrimSpace(j.namespace), Text.TrimSpace(namespace))
  }

  function Selected(t: seq<Entry<Job>>, namespace: string): seq<Job> {
    if t == [] then []
    else
      var n := |t| - 1;
      Selected(t[..n], namespace) + if InNamespace(t[n].rec, namespace) then [t[n].rec] else []
  }

  /** A listing holds exactly the stored jobs whose namespace is the given one, without regard to case and outer space. */
  lemma {:induction false} SelectedExactly(t: seq<Entry<Job>>, namespace: string, j: Job)
    ensures j in Selected(t, namespace) <==>
              && (exists e :: e in t && e.rec == j)
              && (Text.TrimSpace(namespace) == "" || Text.ToLower(Text.TrimSpace(j.namespace)) == Text.ToLower(Text.TrimSpace(namespace)))
  {
    if t != [] {
      var n := |t| - 1;
      SelectedExactly(t[..n], namespace, j);
      assert t == t[..n] + [t[n]];
    }
  }

  /** The default namespace first, then every stored namespace. */
  function Listing(t: seq<Entry<Job>>, namespaces: seq<string>): seq<Job> {
    if namespaces == [] then Selected(t, "default")
    else Listing(t, namespaces[..|namespaces| - 1]) + Selected(t, namespaces[|namespaces| - 1])
  }

  function Occurrences(list: seq<Job>, id: string): nat {
    if list == [] then 0
    else Occurrences(list[..|list| - 1], id) + if list[|list| - 1].id == id then 1 else 0
  }

  lemma {:induction false} OccurrencesAdd(a: seq<Job>, b: seq<Job>, id: string)
    ensures Occurrences(a + b, id) == Occurrences(a, id) + Occurrences(b, id)
  {
    if b == [] {
      assert a + b == a;
    } else {
      assert (a + b)[..|a| + |b| - 1] == a + b[..|b| - 1];
      OccurrencesAdd(a, b[..|b| - 1], id);
    }
  }

  lemma PrefixKeyed(t: seq<Entry<Job>>)
    requires Keyed(t) && t != []
    ensures Keyed(t[..|t| - 1]) && Get(t[..|t| - 1], t[|t| - 1].id).None?
  {
    var n := |t| - 1;
    assert forall i, j | 0 <= i < j < n :: Text.Less(t[i].id, t[j].id);
    GetMember(t[..n], t[n].id);
    Text.LessTotal(t[n].id, t[n].id);
    assert forall i | 0 <= i < n :: Text.Less(t[i].id, t[n].id);
  }

  lemma {:induction false} GetLast(t: seq<Entry<Job>>, id: string)
    requires t != []
    ensures var n := |t| - 1;
            Get(t, id) == if Get(t[..n], id).Some? then Get(t[..n], id) else if t[n].id == id then Some(t[n].rec) else None
  {
    if |t| > 1 {
      assert t[1..][..|t| - 2] == t[..|t| - 1][1..];
      GetLast(t[1..], id);
    }
  }

  /** A listing of one namespace holds each of its jobs once, as stored. */
  lemma {:induction false} SelectedOnce(t: seq<Entry<Job>>, namespace: string, id: string)
    requires Keyed(t)
    ensures Occurrences(Selected(t, namespace), id) ==
              if Get(t, id).Some? && InNamespace(Get(t, id).value, namespace) then 1 else 0
  {
    if t != [] {
      var n := |t| - 1;
      PrefixKeyed(t);
      SelectedOnce(t[..n], namespace, id);
      GetLast(t, id);
      OccurrencesAdd(Selected(t[..n], namespace), [t[n].rec], id);
      assert [t[n].rec][..0] == [] && Occurrences([t[n].rec], id) == if t[n].id == id then 1 else 0;
      assert Selected(t[..n], namespace) + [] == Selected(t[..n], namespace);
    }
  }

  function MatchingNamespaces(j: Job, namespaces: seq<string>): nat {
    if namespaces == [] then 0
    else
      MatchingNamespaces(j, namespaces[..|namespaces| - 1])
      + if InNamespace(j, namespaces[|namespaces| - 1]) then 1 else 0
  }

  /** A job of the default namespace is visited once more than the stored namespaces that match it. */
  lemma {:induction false} VisitsExactly(t: seq<Entry<Job>>, namespaces: seq<string>, id: string)
    requires Keyed(t)
    ensures Occurrences(Listing(t, namespaces), id) ==
              match Get(t, id)
              case None => 0
              case Some(j) => MatchingNamespaces(j, namespaces) + if InNamespace(j, "default") then 1 else 0
  {
    if namespaces == [] {
      SelectedOnce(t, "default", id);
    } else {
      var n := |namespaces| - 1;
      VisitsExactly(t, namespaces[..n], id);
      SelectedOnce(t, namespaces[n], id);
      OccurrencesAdd(Listing(t, namespaces[..n]), Selected(t, namespaces[n]), id);
    }
  }

  // ----- which deployments a pass asks for -----

  /** A visit asks for a deployment when the job is Pending and names none. */
  predicate WantsDeployment(j: Job) {
    j.status.Pending? && Text.IsBlank(j.deployment)
  }

  /** The jobs whose visits ask for a deployment, in order. */
  function Creations(list: seq<Job>): seq<string> {
    if list == [] then []
    else
      var n := |list| - 1;
      Creations(list[..n]) + if WantsDeployment(list[n]) then [list[n].id] else []
  }

  lemma {:induction false} CreationsCount(list: seq<Job>, t: seq<Entry<Job>>, id: string)
    requires AreCopies(list, t)
    ensures multiset(Creations(list))[id] ==
              if Get(t, id).Some? && WantsDeployment(Get(t, id).value) then Occurrences(list, id) else 0
  {
    if list != [] {
      var n := |list| - 1;
      CreationsCount(list[..n], t, id);
      assert Get(t, list[n].id) == Some(list[n]);
    }
  }

  /** The listings that hold a job: the matching stored namespaces, and the default one on top. */
  function Visitings(j: Job, namespaces: seq<string>): nat {
    MatchingNamespaces(j, namespaces) + if InNamespace(j, "default") then 1 else 0
  }

  /** A pass asks for one deployment per visit of a stored job that wants one: at most once exactly when it is listed at most once. */
  lemma CreatesOnceExactly(t: seq<Entry<Job>>, namespaces: seq<string>, id: string)
    requires Keyed(t) && Get(t, id).Some?
    ensures var j, asked := Get(t, id).value, multiset(Creations(Listing(t, namespaces)))[id];
            && asked == (if WantsDeployment(j) then Visitings(j, namespaces) else 0)
            && (asked <= 1 <==> !WantsDeployment(j) || Visitings(j, namespaces) <= 1)
  {
    ListingAreCopies(t, namespaces);
    CreationsCount(Listing(t, namespaces), t, id);
    VisitsExactly(t, namespaces, id);
  }

  const FRESH := Job("job", "default", 1, 0, JobPhase.Pending, "", 0, 0, 0, None)

  /** For instance a new job of the default namespace where that namespace is stored too: two deployments are asked for. */
  lemma DefaultJobCreatesTwo()
    ensures multiset(Creations(Listing([Entry("job", FRESH)], ["default"])))["job"] == 2
  {
    var t := [Entry("job", FRESH)];
    assert Get(t, "job") == Some(FRESH);
    assert ["default"][..0] == [] && MatchingNamespaces(FRESH, []) == 0;
    assert MatchingNamespaces(FRESH, ["default"]) == 1;
    CreatesOnceExactly(t, ["default"], "job");
  }

  ghost predicate AreCopies(list: seq<Job>, t: seq<Entry<Job>>) {
    forall k | 0 <= k < |list| :: Get(t, list[k].id) == Some(list[k])
  }

  lemma {:induction false} SelectedAreCopies(t: seq<Entry<Job>>, namespace: string)
    requires Keyed(t)
    ensures AreCopies(Selected(t, namespace), t)
  {
    if t != [] {
      var n := |t| - 1;
      PrefixKeyed(t);
      SelectedAreCopies(t[..n], namespace);
      var rest := Selected(t[..n], namespace);
      forall k | 0 <= k < |rest| ensures Get(t, rest[k].id) == Some(rest[k]) {
        GetLast(t, rest[k].id);
      }
      GetLast(t, t[n].id);
    }
  }

  lemma {:induction false} ListingAreCopies(t: seq<Entry<Job>>, namespaces: seq<string>)
    requires Keyed(t)
    ensures AreCopies(Listing(t, namespaces), t)
  {
    if namespaces == [] {
      SelectedAreCopies(t, "default");
    } else {
      ListingAreCopies(t, namespaces[..|namespaces| - 1]);
      SelectedAreCopies(t, namespaces[|namespaces| - 1]);
    }
  }

  // ----- the code -----

  method ListJobs(t: seq<Entry<Job>>, namespace: string) returns (out: seq<Job>)
    ensures out == Selected(t, namespace)
  {
    out := [];
    for i := 0 to |t|
      invariant out == Selected(t[..i], namespace)
    {
      if Text.IsBlank(namespace) || Text.EqualFold(Text.TrimSpace(t[i].rec.namespace), Text.TrimSpace(namespace)) {
        out := out + [t[i].rec];
      }
      assert t[..i + 1][..i] == t[..i];
    }
    assert t[..|t|] == t;
  }

  method ListAll(t: seq<Entry<Job>>, namespaces: seq<string>) returns (jobs: seq<Job>)
    ensures jobs == Listing(t, namespaces)
  {
    jobs := ListJobs(t, "default");
    for i := 0 to |namespaces|
      invariant jobs == Listing(t, namespaces[..i])
    {
      var items := ListJobs(t, namespaces[i]);
      jobs := jobs + items;
      assert namespaces[..i + 1][..i] == namespaces[..i];
    }
    assert namespaces[..|namespaces|] == namespaces;
  }

  method FindDecided(statuses: seq<WorkloadStatus>) returns (r: Option<WorkloadStatus>)
    ensures r == FirstDecided(statuses)
  {
    for i := 0 to |statuses|
      invariant FirstDecided(statuses) == FirstDecided(statuses[i..])
    {
      if statuses[i].Running? || statuses[i].Failed? {
        return Some(statuses[i]);
      }
      assert statuses[i..][1..] == statuses[i + 1..];
    }
    return None;
  }

  /** The switch on the phase of one listed copy: what to do with the record, which deployment to have removed, and whether to ask for one. */
  method Examine(listed: Job, seen: Observation, now: int) returns (e: Effect, removal: Option<string>, creation: bool)
    ensures e == Judge(listed, seen, now) && removal == DeleteRequest(listed, seen, now) && creation == WantsDeployment(listed)
  {
    var job := listed;
    e, removal, creation := Keep, None, false;
    if job.status.Pending? {
      if Text.TrimSpace(job.deployment) == "" {
        creation := true;
        if seen.created.Some? {
          job := job.(deployment := seen.created.value);
          job := job.(status := JobPhase.Running);
          e := Store(job);
        }
      }
    } else if job.status.Running? {
      if Text.TrimSpace(job.deployment) == "" {
        return;
      }
      var decided := FindDecided(seen.statuses);
      if decided.Some? && decided.value.Running? {
        job := job.(succeeded := job.succeeded + 1, runCount := job.runCount + 1);
        job := job.(status := Succeeded, completedAt := Some(now));
        e, removal := Store(job), Some(job.deployment);
      } else if decided.Some? {
        job := job.(failed := job.failed + 1);
        if job.failed > job.backoffLimit {
          job := job.(status := JobPhase.Failed, completedAt := Some(now));
        } else {
          job := job.(status := JobPhase.Pending, deployment := "");
        }
        e, removal := Store(job), Some(job.deployment);
      }
    } else if job.ttlSeconds > 0 && job.completedAt.Some? && now - job.completedAt.value >= job.ttlSeconds * SECOND {
      e := Drop;
    }
  }

  /** The deployments a pass asks to have removed, in order. */
  function Removals(visits: seq<Visit>, now: int): seq<string> {
    if visits == [] then []
    else
      var n := |visits| - 1;
      var r := DeleteRequest(visits[n].job, visits[n].seen, now);
      Removals(visits[..n], now) + if r.Some? then [r.value] else []
  }

  lemma PutKeyed(t: seq<Entry<Job>>, id: string, j: Job)
    requires Keyed(t) && j.id == id
    ensures Keyed(Put(t, id, j))
  {
    PutOrdered(t, id, j);
    PutMembers(t, id, j);
    var u := Put(t, id, j);
    forall k | 0 <= k < |u| ensures u[k].rec.id == u[k].id {
      assert u[k] in u;
    }
  }

  lemma {:induction false} RunIsKeyed(evs: seq<Event>)
    requires Admissible([], evs)
    ensures Keyed(Run([], evs))
  {
    if evs != [] {
      var s, e := Run([], evs[..|evs| - 1]), evs[|evs| - 1];
      RunIsKeyed(evs[..|evs| - 1]);
      match e
      case Reconcile(visits, now) => PassIsKeyed(s, visits, now);
      case Submit(j) =>
        PutKeyed(s, j.id, Submitted(j));
    }
  }

  lemma {:induction false} PassIsKeyed(t: seq<Entry<Job>>, visits: seq<Visit>, now: int)
    requires Keyed(t)
    ensures Keyed(Pass(t, visits, now))
  {
    if visits != [] {
      var n := |visits| - 1;
      PassIsKeyed(t, visits[..n], now);
      var s, id, e := Pass(t, visits[..n], now), visits[n].job.id, Judge(visits[n].job, visits[n].seen, now);
      match e
      case Keep =>
      case Store(j) => PutKeyed(s, id, j);
      case Drop =>
        RemoveOrdered(s, id);
        RemoveMembers(s, id);
        assert forall x | x in Remove(s, id) :: x in s;
    }
  }

  function VisitsOf(list: seq<Job>, seen: nat -> Observation): seq<Visit> {
    seq(|list|, i requires 0 <= i < |list| => Visit(list[i], seen(i)))
  }

  class JobController {
    var jobs: seq<Entry<Job>>
    ghost var trace: seq<Event>

    ghost predicate Valid()
      reads this
    {
      Admissible([], trace) && jobs == Run([], trace)
    }

    constructor ()
      ensures Valid() && trace == []
    {
      jobs, trace := [], [];
    }

    method Submit(j: Job)
      requires Valid()
      modifies this
      ensures Valid() && trace == old(trace) + [Event.Submit(j)]
      ensures Get(jobs, j.id).Some?
      ensures var k := Get(jobs, j.id).value;
              && k == j.(namespace := k.namespace, backoffLimit := k.backoffLimit)
              && k.namespace == (if Text.TrimSpace(j.namespace) == "" then "default" else j.namespace)
              && k.backoffLimit == if j.backoffLimit > 0 then j.backoffLimit else 0
      ensures forall id | id != j.id :: Get(jobs, id) == Get(old(jobs), id)
    {
      AllPut(jobs, j.id, Submitted(j));
      RunExtends([], trace, Event.Submit(j));
      trace := trace + [Event.Submit(j)];
      jobs := Put(jobs, j.id, Submitted(j));
    }

    /** One pass; `seen(i)` is what the i-th visit meets in the cluster. */
    method ReconcileJobs(namespaces: seq<string>, seen: nat -> Observation, now: int) returns (removals: seq<string>, creations: seq<string>)
      requires Valid()
      modifies this
      ensures Valid()
      ensures var visits := VisitsOf(Listing(old(jobs), namespaces), seen);
              trace == old(trace) + [Reconcile(visits, now)] && removals == Removals(visits, now)
      ensures creations == Creations(Listing(old(jobs), namespaces))
    {
      var list := ListAll(jobs, namespaces);
      ghost var visits := VisitsOf(list, seen);
      RunIsKeyed(trace);
      ListingAreCopies(jobs, namespaces);
      removals, creations := [], [];
      for i := 0 to |list|
        invariant trace == old(trace) && jobs == Pass(old(jobs), visits[..i], now)
        invariant removals == Removals(visits[..i], now) && creations == Creations(list[..i])
      {
        var e, removal, creation := Examine(list[i], seen(i), now);
        match e {
          case Keep =>
          case Store(job) => jobs := Put(jobs, list[i].id, job);
          case Drop => jobs := Remove(jobs, list[i].id);
        }
        if removal.Some? {
          removals := removals + [removal.value];
        }
        if creation {
          creations := creations + [list[i].id];
        }
        assert list[..i + 1][..i] == list[..i];
        assert visits[..i + 1][..i] == visits[..i];
      }
      assert visits[..|list|] == visits && list[..|list|] == list;
      RunExtends([], trace, Reconcile(visits, now));
      trace := trace + [Reconcile(visits, now)];
    }
  }
}
