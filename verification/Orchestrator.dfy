/** The service methods of internal/service/orchestrator.go, updating the store in place. */
module Orchestration {
  import opened Tables
  import opened Types
  import opened Cluster
  import opened Reconciliation
  import Draining
  import History
  import Preemption
  import Protocol
  import Revisions
  import Rollout
  import Scheduler
  import Sorting
  import Text

  // ----- identifiers -----

  function WorkloadId(t: nat, salt: string): string {
    "wk-" + Text.Decimal(t) + "-" + salt
  }

  ghost predicate IssuedBefore(ids: set<string>, clock: nat) {
    forall id | id in ids :: exists t: nat, salt: string :: t <= clock && id == WorkloadId(t, salt)
  }

  lemma WorkloadIdCarriesTime(t: nat, salt: string, u: nat, pepper: string)
    requires WorkloadId(t, salt) == WorkloadId(u, pepper)
    ensures t == u
  {
    var a, b := Text.Decimal(t), Text.Decimal(u);
    var x, y := WorkloadId(t, salt), WorkloadId(u, pepper);
    assert forall i :: 0 <= i < |a| ==> x[3 + i] == a[i] && a[i] in a;
    assert forall i :: 0 <= i < |b| ==> y[3 + i] == b[i] && b[i] in b;
    assert x[3 + |a|] == '-' && y[3 + |b|] == '-';
    assert |a| == |b|;
    assert a == x[3..3 + |a|] == b;
    Text.DecimalOrder(t, u);
  }

  /** Clock readings that move on give identifiers that were never issued. */
  lemma LaterIdIsNew(ids: set<string>, clock: nat, t: nat, salt: string)
    requires IssuedBefore(ids, clock) && t > clock
    ensures WorkloadId(t, salt) !in ids
    ensures IssuedBefore(ids + {WorkloadId(t, salt)}, t)
  {
    if WorkloadId(t, salt) in ids {
      var u: nat, pepper: string :| u <= clock && WorkloadId(t, salt) == WorkloadId(u, pepper);
      WorkloadIdCarriesTime(t, salt, u, pepper);
    }
    forall id | id in ids + {WorkloadId(t, salt)} ensures exists u: nat, pepper: string :: u <= t && id == WorkloadId(u, pepper) {
      if id in ids {
        var u: nat, pepper: string :| u <= clock && id == WorkloadId(u, pepper);
      } else {
        assert t <= t && id == WorkloadId(t, salt);
      }
    }
  }

  lemma IssuedBeforeLater(ids: set<string>, clock: nat, t: nat)
    requires IssuedBefore(ids, clock) && t >= clock
    ensures IssuedBefore(ids, t)
  {
    forall id | id in ids ensures exists u: nat, pepper: string :: u <= t && id == WorkloadId(u, pepper) {
      var u: nat, pepper: string :| u <= clock && id == WorkloadId(u, pepper);
    }
  }

  // ----- records a pass writes -----

  ghost predicate AllWellFormed(deps: seq<Entry<Deployment>>) {
    forall id | Has(deps, id) :: Revisions.WellFormed(Get(deps, id).value)
  }

  /** The record is stored and marked for deletion. */
  predicate Marked(deps: seq<Entry<Deployment>>, id: string) {
    Has(deps, id) && Get(deps, id).value.deletionMarked
  }

  predicate InProgress(p: Phase) {
    p == Progressing || p == Phase.Canary || p == CanaryPromoting || p == Autoscaling || p == Rollback
  }

  const SECOND := 1_000_000_000

  predicate Overdue(d: Deployment, now: int) {
    && InProgress(d.phase)
    && Rollout.Normalize(d.spec.rollout).progressDeadlineSeconds > 0
    && d.startedAt.Some?
    && now > d.startedAt.value + Rollout.Normalize(d.spec.rollout).progressDeadlineSeconds * SECOND
  }

  function Normalized(d: Deployment): Deployment {
    d.(spec := d.spec.(rollout := Rollout.Normalize(d.spec.rollout)))
  }

  function DeadlineFailed(d: Deployment, now: int): Deployment {
    var failed := Normalized(d).(status := DeploymentFailed, phase := RolloutFailed);
    if failed.spec.rollout.autoRollbackOnFailure && failed.currentRevision > 1
    then Revisions.AutoRolledBack(failed, now) else failed
  }

  function Concluded(d: Deployment, stable: bool, phase: Phase, updated: nat, ready: nat): Deployment {
    Normalized(d).(
      status := if stable then DeploymentRunning else DeploymentPending,
      phase := if stable then Stable else phase,
      observedGeneration := d.generation,
      updatedReplicas := updated, readyReplicas := ready,
      unavailableReplicas := if d.spec.replicas - ready < 0 then 0 else d.spec.replicas - ready)
  }

  /** What a Terminated report writes into its deployment when few enough workloads are active. */
  function AfterTermination(d: Deployment, active: nat, ready: nat): Deployment {
    if active <= d.spec.replicas then
      d.(status := DeploymentRunning, phase := Stable, readyReplicas := ready, updatedReplicas := active,
         unavailableReplicas := Rollout.MaxInt(0, d.spec.replicas - ready), observedGeneration := d.generation)
    else d
  }

  lemma StatusWritesStayWellFormed(d: Deployment, now: int)
    requires Revisions.WellFormed(d)
    ensures Normalized(d) == d && Revisions.WellFormed(DeadlineFailed(d, now)) && d.history <= DeadlineFailed(d, now).history
  {
    Revisions.AutoRollbackIsWellFormed(Normalized(d).(status := DeploymentFailed, phase := RolloutFailed), now);
  }

  /** The deadline, on the fields of the record: a rollout that is under way, has a deadline and has run for longer than it. */
  lemma OverdueExactly(d: Deployment, now: int)
    ensures Overdue(d, now) <==>
              && d.phase != Stable && d.phase != RolloutFailed && d.startedAt.Some?
              && d.spec.rollout.progressDeadlineSeconds > 0
              && now - d.startedAt.value > d.spec.rollout.progressDeadlineSeconds * 1_000_000_000
  {
  }

  /** What a missed deadline writes: back to the previous revision where that is asked for and there is one, else a failure. */
  lemma DeadlineOutcome(d: Deployment, now: int)
    requires Revisions.WellFormed(d)
    ensures var e := DeadlineFailed(d, now);
            if d.spec.rollout.autoRollbackOnFailure && d.currentRevision >= 2 then
              && e.spec == d.history[d.currentRevision - 2].spec && e.history == d.history + [Revision(d.currentRevision + 1, e.spec)]
              && e.phase == Rollback && e.status == DeploymentPending && e.startedAt == Some(now)
            else e == d.(status := DeploymentFailed, phase := RolloutFailed)
  {
    StatusWritesStayWellFormed(d, now);
    Revisions.AutoRollbackIsWellFormed(d.(status := DeploymentFailed, phase := RolloutFailed), now);
  }

  lemma ConcludedIsWellFormed(d: Deployment, stable: bool, phase: Phase, updated: nat, ready: nat)
    requires Revisions.WellFormed(d)
    ensures Revisions.WellFormed(Concluded(d, stable, phase, updated, ready))
  {
  }

  // ----- the weaker stability test of status reports -----

  /** A Terminated report writes Stable too early exactly when fewer than `replicas` current-revision workloads are Running. */
  lemma ReportSaysStableTooEarly(ws: seq<Entry<Workload>>, id: string, d: Deployment)
    requires |Filter(ws, ActiveOf(id))| <= d.spec.replicas
    ensures var written := AfterTermination(d, |Filter(ws, ActiveOf(id))|, |Filter(ws, RunningActiveOf(id))|);
            && written.phase == Stable
            && (!ExactlyStable(ws, id, d.currentRevision, d.spec.replicas)
                <==> |Filter(ws, LatestRunningOf(id, d.currentRevision))| < d.spec.replicas)
  {
    AllSatisfy(ws, ActiveOf(id), LatestRunningOf(id, d.currentRevision));
  }

  /** For instance: the last workload of a deployment terminates and its rollout is called complete. */
  lemma StableWithNothingRunning(d: Deployment)
    requires d.spec.replicas >= 1
    ensures AfterTermination(d, 0, 0).phase == Stable && !ExactlyStable([], "dep-1", d.currentRevision, d.spec.replicas)
  {
    assert Filter<Workload>([], ActiveOf("dep-1")) == [];
  }

  // ----- what placements do -----

  /** The creation loop has stored `created` of the `n` workloads asked for, and nothing else of this deployment changed. */
  ghost predicate Placements(before: seq<Entry<Workload>>, placed: seq<Entry<Workload>>, id: string, rev: int, n: nat, created: nat) {
    var c := CountsOf(before, id, rev);
    && created <= n && (n == 0 ==> placed == before)
    && OnlyPlaced(before, placed, id, rev)
    && CountsOf(placed, id, rev) == Rollout.Counts(c.prior, c.latest + created)
  }

  /** Own workloads are kept as they are, others are kept or gone, and new ones are Pending workloads of the current revision. */
  ghost predicate OnlyPlaced(before: seq<Entry<Workload>>, after: seq<Entry<Workload>>, dep: string, rev: int) {
    && (forall k | Has(before, k) && Get(before, k).value.deploymentId == dep :: Get(after, k) == Get(before, k))
    && (forall k | Has(before, k) && Has(after, k) :: Get(after, k) == Get(before, k))
    && (forall k | Has(after, k) && !Has(before, k) ::
          var w := Get(after, k).value; w.deploymentId == dep && w.status == Pending && w.version == rev)
  }

  datatype PassResult = NotFound | DeadlineExceeded | Unschedulable(plan: Rollout.Plan) | Completed(plan: Rollout.Plan)

  datatype DeletionResult = NoSuchDeployment | WorkloadsRemain | FinalizersRemain | Removed

  predicate NeedsMark(w: Workload) {
    w.status != Terminating && w.status != WorkloadStatus.Terminated
  }

  function ActiveOn(node: string): Workload -> bool {
    (w: Workload) => w.nodeId == node && IsActive(w)
  }

  /** One Mark per victim, in order. */
  ghost predicate MarksOf(steps: seq<Step>, victims: seq<Entry<Workload>>) {
    && |steps| == |victims|
    && forall i | 0 <= i < |victims| :: steps[i].Mark? && steps[i].wid == victims[i].id
  }

  lemma MarkOneMore(before: seq<Step>, steps: seq<Step>, victims: seq<Entry<Workload>>, i: nat, m: Step)
    requires i < |victims| && MarksOf(steps, victims[..i]) && m.Mark? && m.wid == victims[i].id
    ensures MarksOf(steps + [m], victims[..i + 1])
    ensures (before + steps) + [m] == before + (steps + [m])
  {
  }

  lemma OneStepMore(before: seq<Step>, steps: seq<Step>, step: Step)
    ensures (before + steps) + [step] == before + (steps + [step])
  {
  }

  ghost predicate Listed(vs: seq<Entry<Workload>>, k: string) {
    exists v | v in vs :: v.id == k
  }

  /** A run of marks adds a delete for exactly the workloads it marks. */
  lemma {:induction false} MarksAnnounce(trace: seq<Step>, steps: seq<Step>, victims: seq<Entry<Workload>>, k: string)
    requires MarksOf(steps, victims) && Admissible(trace + steps)
    ensures Protocol.HasDelete(Run(trace + steps), k) <==> Protocol.HasDelete(Run(trace), k) || Listed(victims, k)
    decreases victims
  {
    if victims == [] {
      assert steps == [] && trace + steps == trace;
    } else {
      var n := |victims| - 1;
      var before := trace + steps[..n];
      LastStep(trace, steps);
      assert MarksOf(steps[..n], victims[..n]);
      MarksAnnounce(trace, steps[..n], victims[..n], k);
      MarkAnnouncesOne(Run(before), steps[n], k);
      ListedOneMore(victims, k);
    }
  }

  lemma ListedOneMore(victims: seq<Entry<Workload>>, k: string)
    requires victims != []
    ensures var n := |victims| - 1; Listed(victims, k) <==> Listed(victims[..n], k) || victims[n].id == k
  {
    var n := |victims| - 1;
    assert victims == victims[..n] + [victims[n]];
  }

  lemma MarkAnnouncesOne(s: State, m: Step, k: string)
    requires m.Mark? && Enabled(s, m)
    ensures Protocol.HasDelete(Apply(s, m), k) <==> Protocol.HasDelete(s, k) || k == m.wid
  {
    Protocol.DeletesPersist(s, m);
    Protocol.MarkAnnounces(s, m.wid, m.stamp);
    var a := DeleteAssignment(Get(s.workloads, m.wid).value, m.wid, m.stamp);
    assert Apply(s, m).log == s.log + [a];
  }

  /** Which workloads of a deployment a deletion pass lists for marking. */
  lemma ListedForDeletion(ws: seq<Entry<Workload>>, id: string, k: string)
    requires Ordered(ws) && Has(ws, k) && Get(ws, k).value.deploymentId == id
    ensures Listed(Filter(ws, NeedsMarkOf(id)), k) <==> NeedsMark(Get(ws, k).value)
  {
    FilterMembers(ws, NeedsMarkOf(id));
    GetMember(ws, k);
    forall v | v in Filter(ws, NeedsMarkOf(id)) && v.id == k ensures NeedsMark(Get(ws, k).value) {
      GetEntry(ws, v);
    }
    if NeedsMark(Get(ws, k).value) {
      assert Entry(k, Get(ws, k).value) in Filter(ws, NeedsMarkOf(id));
    }
  }

  /** After a deletion pass a remaining workload has a delete unless it was Terminating without one before. */
  ghost predicate DeletesFollow(before: State, after: State, id: string) {
    forall k | Has(before.workloads, k) && Get(before.workloads, k).value.deploymentId == id ::
      Protocol.HasDelete(after, k) <==> Protocol.HasDelete(before, k) || Get(before.workloads, k).value.status != Terminating
  }

  lemma DeletionAnnounces(trace: seq<Step>, steps: seq<Step>, id: string)
    requires Admissible(trace) && Admissible(trace + steps)
    requires MarksOf(steps, Filter(Run(trace).workloads, NeedsMarkOf(id)))
    ensures DeletesFollow(Run(trace), Run(trace + steps), id)
  {
    var s := Run(trace);
    RecordsHold(trace);
    forall k | Has(s.workloads, k) && Get(s.workloads, k).value.deploymentId == id
      ensures Protocol.HasDelete(Run(trace + steps), k) <==>
                Protocol.HasDelete(s, k) || Get(s.workloads, k).value.status != Terminating
    {
      MarksAnnounce(trace, steps, Filter(s.workloads, NeedsMarkOf(id)), k);
      ListedForDeletion(s.workloads, id, k);
    }
  }

  ghost function EvictSteps(s: State, id: string, spec: DeploymentSpec, score: Scheduler.Score): seq<Step> {
    match Preemption.EvictedFor(s, id, spec, score)
    case None => []
    case Some(v) => [Evict(v.id)]
  }

  predicate PlacesOn(step: Step, id: string, node: string, secrets: bool) {
    step.Place? && step.dep == id && step.node == node && (step.createStamp.Some? <==> secrets)
  }

  /** The steps of one placement and where they lead: the eviction a first failure causes, then the placement if a node was found. */
  ghost predicate PlacementSteps(s: State, t: State, steps: seq<Step>, id: string, spec: DeploymentSpec, score: Scheduler.Score, secrets: bool) {
    var node := Preemption.PlacementNode(s, id, spec, score);
    if node.None? then
      steps == EvictSteps(s, id, spec, score) && t == Preemption.Relieved(s, id, spec, score)
    else
      && steps != [] && steps[..|steps| - 1] == EvictSteps(s, id, spec, score)
      && var p := steps[|steps| - 1];
         && PlacesOn(p, id, node.value.id, secrets)
         && Enabled(Preemption.Relieved(s, id, spec, score), p)
         && t == Apply(Preemption.Relieved(s, id, spec, score), p)
  }

  lemma PlacementFails(s: State, id: string, spec: DeploymentSpec, score: Scheduler.Score, secrets: bool)
    requires Preemption.PlacementNode(s, id, spec, score).None?
    ensures PlacementSteps(s, Preemption.Relieved(s, id, spec, score), EvictSteps(s, id, spec, score), id, spec, score, secrets)
  {
  }

  lemma PlacementEnds(s: State, id: string, spec: DeploymentSpec, score: Scheduler.Score, secrets: bool, steps: seq<Step>, p: Step)
    requires Preemption.PlacementNode(s, id, spec, score).Some?
    requires steps == EvictSteps(s, id, spec, score)
    requires PlacesOn(p, id, Preemption.PlacementNode(s, id, spec, score).value.id, secrets)
    requires Enabled(Preemption.Relieved(s, id, spec, score), p)
    ensures PlacementSteps(s, Apply(Preemption.Relieved(s, id, spec, score), p), steps + [p], id, spec, score, secrets)
  {
    assert (steps + [p])[..|steps|] == steps;
  }

  /** The tables after a placement, field by field. */
  lemma PlaceEffect(s: State, id: string, wid: string, node: Entry<Node>, created: int, stamp: Option<nat>)
    requires Has(s.deployments, id) && Get(s.nodes, node.id) == Some(node.rec)
    ensures var d := Get(s.deployments, id).value;
            var w := NewWorkload(d, id, node.id, created);
            var t := Apply(s, Place(id, wid, node.id, created, stamp));
            && t.workloads == Put(s.workloads, wid, w)
            && t.nodes == Put(s.nodes, node.id, node.rec.(used := node.rec.used.Plus(w.resources)))
            && t.deployments == s.deployments && t.issued == s.issued + {wid}
            && t.clock == (if stamp.Some? then stamp.value else s.clock)
            && t.queue == if stamp.Some?
                          then Put(s.queue, AssignmentKey(CreateAssignment(w, wid, stamp.value)), CreateAssignment(w, wid, stamp.value))
                          else s.queue
  {
  }

  /** The stored tables are what the steps lead to. */
  ghost predicate Consistent(trace: seq<Step>, nodes: seq<Entry<Node>>, workloads: seq<Entry<Workload>>,
                             deployments: seq<Entry<Deployment>>, queue: seq<Entry<Assignment>>, clock: nat) {
    && Admissible(trace) && History.Kept(trace)
    && Run(trace).nodes == nodes && Run(trace).workloads == workloads
    && Run(trace).deployments == deployments && Run(trace).queue == queue
    && Run(trace).clock <= clock && IssuedBefore(Run(trace).issued, clock)
    && AllWellFormed(deployments)
  }

  /** Taking one more enabled step. */
  lemma Advance(trace: seq<Step>, step: Step, clock: nat)
    requires Admissible(trace) && Enabled(Run(trace), step) && History.Kept(trace) && History.Extends(Run(trace), step)
    requires var t := Apply(Run(trace), step);
             t.clock <= clock && IssuedBefore(t.issued, clock) && AllWellFormed(t.deployments)
    ensures var t := Apply(Run(trace), step);
            && Run(trace + [step]) == t
            && Consistent(trace + [step], t.nodes, t.workloads, t.deployments, t.queue, clock)
  {
    RunExtends(trace, step);
    History.KeptExtends(trace, step);
  }

  function QueueAfterPlace(queue: seq<Entry<Assignment>>, w: Workload, wid: string, stamp: Option<nat>): seq<Entry<Assignment>> {
    match stamp
    case None => queue
    case Some(t) => Put(queue, AssignmentKey(CreateAssignment(w, wid, t)), CreateAssignment(w, wid, t))
  }

  /** A placement step, on the tables. */
  lemma PlaceAdvances(trace: seq<Step>, nodes: seq<Entry<Node>>, workloads: seq<Entry<Workload>>,
                      deployments: seq<Entry<Deployment>>, queue: seq<Entry<Assignment>>, clock: nat,
                      step: Step, node: Node)
    requires Consistent(trace, nodes, workloads, deployments, queue, clock)
    requires step.Place? && Has(deployments, step.dep) && Get(nodes, step.node) == Some(node)
    requires Scheduler.Fits(node, Get(deployments, step.dep).value.spec.resources)
    requires step.wid !in Run(trace).issued && IssuedBefore(Run(trace).issued + {step.wid}, clock)
    requires step.createStamp.Some? ==> Run(trace).clock < step.createStamp.value <= clock
    ensures var w := NewWorkload(Get(deployments, step.dep).value, step.dep, step.node, step.created);
            && Enabled(Run(trace), step) && Run(trace + [step]) == Apply(Run(trace), step)
            && Consistent(trace + [step], Put(nodes, step.node, node.(used := node.used.Plus(w.resources))),
                          Put(workloads, step.wid, w), deployments, QueueAfterPlace(queue, w, step.wid, step.createStamp), clock)
  {
    PlaceEffect(Run(trace), step.dep, step.wid, Entry(step.node, node), step.created, step.createStamp);
    Advance(trace, step, clock);
  }

  /** One placement, on the workload table: at most another deployment's record goes, at most one new record comes. */
  lemma PlacementOnRecords(s: State, t: State, steps: seq<Step>, id: string, score: Scheduler.Score, secrets: bool)
    requires Tidy(s) && Lifecycle(s) && Has(s.deployments, id)
    requires PlacementSteps(s, t, steps, id, Get(s.deployments, id).value.spec, score, secrets)
    ensures t.deployments == s.deployments && s.issued <= t.issued
    ensures var d := Get(s.deployments, id).value;
            var gone := Preemption.EvictedFor(s, id, d.spec, score);
            var kept := if gone.Some? then Remove(s.workloads, gone.value.id) else s.workloads;
            && (gone.Some? ==> Get(s.workloads, gone.value.id) == Some(gone.value.rec) && gone.value.rec.deploymentId != id)
            && Ordered(kept)
            && (Preemption.PlacementNode(s, id, d.spec, score).None? ==> t.workloads == kept)
            && (Preemption.PlacementNode(s, id, d.spec, score).Some? ==>
                  var p := steps[|steps| - 1];
                  && p.wid !in s.issued && !Has(kept, p.wid)
                  && t.workloads == Put(kept, p.wid, NewWorkload(d, id, p.node, p.created)))
  {
    var d := Get(s.deployments, id).value;
    var gone := Preemption.EvictedFor(s, id, d.spec, score);
    if gone.Some? {
      Preemption.EvictionIsEnabled(s, id, d.spec, score);
      RemoveOrdered(s.workloads, gone.value.id);
      AllRemove(s.workloads, gone.value.id);
    }
    var r := Preemption.Relieved(s, id, d.spec, score);
    var node := Preemption.PlacementNode(s, id, d.spec, score);
    if node.Some? {
      var p := steps[|steps| - 1];
      PlaceEffect(r, id, p.wid, Entry(p.node, Get(r.nodes, p.node).value), p.created, p.createStamp);
      assert !Has(s.workloads, p.wid);
    }
  }

  lemma PlacementCounts(s: State, t: State, steps: seq<Step>, id: string, score: Scheduler.Score, secrets: bool)
    requires Tidy(s) && Lifecycle(s) && Has(s.deployments, id)
    requires PlacementSteps(s, t, steps, id, Get(s.deployments, id).value.spec, score, secrets)
    ensures var d := Get(s.deployments, id).value;
            var c := CountsOf(s.workloads, id, d.currentRevision);
            CountsOf(t.workloads, id, d.currentRevision)
            == if Preemption.PlacementNode(s, id, d.spec, score).Some? then Rollout.Counts(c.prior, c.latest + 1) else c
  {
    PlacementOnRecords(s, t, steps, id, score, secrets);
    var d := Get(s.deployments, id).value;
    var gone := Preemption.EvictedFor(s, id, d.spec, score);
    var kept := if gone.Some? then Remove(s.workloads, gone.value.id) else s.workloads;
    if gone.Some? {
      EvictCounts(s.workloads, gone.value.id, id, d.currentRevision);
    }
    if Preemption.PlacementNode(s, id, d.spec, score).Some? {
      var p := steps[|steps| - 1];
      PlaceCounts(kept, p.wid, NewWorkload(d, id, p.node, p.created), id, d.currentRevision);
    }
  }

  lemma EvictOnlyPlaces(ws: seq<Entry<Workload>>, now: seq<Entry<Workload>>, k: string, id: string, rev: int)
    requires OnlyPlaced(ws, now, id, rev) && Has(now, k) && Get(now, k).value.deploymentId != id
    ensures OnlyPlaced(ws, Remove(now, k), id, rev)
  {
    AllRemove(now, k);
  }

  lemma PlaceOnlyPlaces(ws: seq<Entry<Workload>>, now: seq<Entry<Workload>>, k: string, w: Workload, id: string, rev: int)
    requires OnlyPlaced(ws, now, id, rev) && !Has(ws, k)
    requires w.deploymentId == id && w.status == Pending && w.version == rev
    ensures OnlyPlaced(ws, Put(now, k, w), id, rev)
  {
    AllPut(now, k, w);
  }

  lemma PlacementOnlyPlaces(ws: seq<Entry<Workload>>, s: State, t: State, steps: seq<Step>, id: string, score: Scheduler.Score, secrets: bool)
    requires Tidy(s) && Lifecycle(s) && Has(s.deployments, id)
    requires PlacementSteps(s, t, steps, id, Get(s.deployments, id).value.spec, score, secrets)
    requires OnlyPlaced(ws, s.workloads, id, Get(s.deployments, id).value.currentRevision)
    requires forall k | Has(ws, k) :: k in s.issued
    ensures OnlyPlaced(ws, t.workloads, id, Get(s.deployments, id).value.currentRevision)
  {
    PlacementOnRecords(s, t, steps, id, score, secrets);
    var d := Get(s.deployments, id).value;
    var gone := Preemption.EvictedFor(s, id, d.spec, score);
    var kept := if gone.Some? then Remove(s.workloads, gone.value.id) else s.workloads;
    if gone.Some? {
      EvictOnlyPlaces(ws, s.workloads, gone.value.id, id, d.currentRevision);
    }
    if Preemption.PlacementNode(s, id, d.spec, score).Some? {
      var p := steps[|steps| - 1];
      PlaceOnlyPlaces(ws, kept, p.wid, NewWorkload(d, id, p.node, p.created), id, d.currentRevision);
    }
  }

  /** After i placements of a pass that began with the table ws and the counts c. */
  ghost predicate PlacedSoFar(ws: seq<Entry<Workload>>, s: State, id: string, rev: int, c: Rollout.Counts, i: nat) {
    && CountsOf(s.workloads, id, rev) == Rollout.Counts(c.prior, c.latest + i)
    && OnlyPlaced(ws, s.workloads, id, rev)
    && forall k | Has(ws, k) :: k in s.issued
  }

  lemma OneMorePlacement(ws: seq<Entry<Workload>>, trace: seq<Step>, t: State, steps: seq<Step>, id: string, score: Scheduler.Score,
                         secrets: bool, c: Rollout.Counts, i: nat)
    requires Admissible(trace) && Has(Run(trace).deployments, id)
    requires PlacementSteps(Run(trace), t, steps, id, Get(Run(trace).deployments, id).value.spec, score, secrets)
    requires PlacedSoFar(ws, Run(trace), id, Get(Run(trace).deployments, id).value.currentRevision, c, i)
    ensures var d := Get(Run(trace).deployments, id).value;
            var found := Preemption.PlacementNode(Run(trace), id, d.spec, score).Some?;
            PlacedSoFar(ws, t, id, d.currentRevision, c, if found then i + 1 else i)
  {
    RecordsHold(trace);
    PlacementCounts(Run(trace), t, steps, id, score, secrets);
    PlacementOnlyPlaces(ws, Run(trace), t, steps, id, score, secrets);
    PlacementOnRecords(Run(trace), t, steps, id, score, secrets);
  }

  predicate SanePlan(plan: Rollout.Plan, c: Rollout.Counts, b: Rollout.Budget) {
    && b.Valid() && 1 <= plan.target <= b.replicas && plan.phase != Stable
    && (if plan.phase == Phase.Canary then c.prior > 0 else plan.target == b.replicas)
  }

  /** The counts, budget and plan a pass starts from. */
  method PlanPass(ws: seq<Entry<Workload>>, id: string, d: Deployment) returns (c: Rollout.Counts, b: Rollout.Budget, plan: Rollout.Plan)
    requires d.spec.replicas >= 1
    ensures c == CountsOf(ws, id, d.currentRevision) && b == Rollout.BudgetOf(d.spec.replicas, d.spec.rollout)
    ensures plan == Rollout.PlanOf(d.spec.replicas, d.spec.rollout, c, |Filter(ws, LatestRunningOf(id, d.currentRevision))|)
    ensures SanePlan(plan, c, b)
  {
    var running;
    c, running := CountActive(ws, id, d.currentRevision);
    b := Rollout.BudgetOf(d.spec.replicas, d.spec.rollout);
    plan := Rollout.PlanOf(d.spec.replicas, d.spec.rollout, c, running);
    Rollout.PlanIsSane(d.spec.replicas, d.spec.rollout, c, running);
  }

  /** The workload table after the scale-down steps, which phase Canary skips. */
  function Settled(placed: seq<Entry<Workload>>, id: string, rev: int, b: Rollout.Budget, plan: Rollout.Plan): seq<Entry<Workload>> {
    if plan.phase == Phase.Canary then placed else ScaledDown(placed, id, rev, b)
  }

  /**
   * What a pass does to the workload table: it first only places up to the planned number of
   * workloads; if every placement succeeded it then, outside phase Canary, marks exactly the
   * two groups of victims, and both counts end where the plan says.
   */
  ghost predicate PassOutcome(id: string, d: Deployment, before: seq<Entry<Workload>>, placed: seq<Entry<Workload>>, created: nat,
                              after: seq<Entry<Workload>>, r: PassResult) {
    && d.spec.replicas >= 1
    && var rev := d.currentRevision;
    var c := CountsOf(before, id, rev);
    var b := Rollout.BudgetOf(d.spec.replicas, d.spec.rollout);
    var plan := Rollout.PlanOf(d.spec.replicas, d.spec.rollout, c, |Filter(before, LatestRunningOf(id, rev))|);
    && SanePlan(plan, c, b)
    && (r == Unschedulable(plan) || r == Completed(plan))
    && Ordered(placed)
    && Placements(before, placed, id, rev, Rollout.ToCreate(c, b, plan.target), created)
    && (r.Unschedulable? ==> after == placed)
    && (r.Completed? ==>
          && created == Rollout.ToCreate(c, b, plan.target)
          && after == Settled(placed, id, rev, b, plan)
          && CountsOf(after, id, rev) == Rollout.PlannedPass(c, b, plan))
  }

  lemma OutcomeOf(id: string, d: Deployment, before: seq<Entry<Workload>>, placed: seq<Entry<Workload>>, created: nat,
                  after: seq<Entry<Workload>>, ok: bool, c: Rollout.Counts, b: Rollout.Budget, plan: Rollout.Plan)
    requires d.spec.replicas >= 1 && SanePlan(plan, c, b) && Ordered(placed)
    requires c == CountsOf(before, id, d.currentRevision) && b == Rollout.BudgetOf(d.spec.replicas, d.spec.rollout)
    requires plan == Rollout.PlanOf(d.spec.replicas, d.spec.rollout, c, |Filter(before, LatestRunningOf(id, d.currentRevision))|)
    requires Placements(before, placed, id, d.currentRevision, Rollout.ToCreate(c, b, plan.target), created)
    requires !ok ==> after == placed
    requires ok ==> && created == Rollout.ToCreate(c, b, plan.target)
                    && after == Settled(placed, id, d.currentRevision, b, plan)
                    && CountsOf(after, id, d.currentRevision) == Rollout.PlannedPass(c, b, plan)
    ensures PassOutcome(id, d, before, placed, created, after, if ok then Completed(plan) else Unschedulable(plan))
  {
  }

  /** The deployment record a pass writes; Completed, it is Stable exactly when the rollout is. */
  ghost function RecordAfter(id: string, d: Deployment, after: seq<Entry<Workload>>, r: PassResult): Deployment {
    match r
    case Unschedulable(plan) => Normalized(d).(status := DeploymentPending, phase := plan.phase)
    case Completed(plan) =>
      Concluded(d, ExactlyStable(after, id, d.currentRevision, d.spec.replicas), plan.phase,
                CountsOf(after, id, d.currentRevision).latest, |Filter(after, RunningActiveOf(id))|)
    case _ => d
  }

  /** The counts after a pass whose placements all succeeded. */
  lemma PassCounts(id: string, rev: int, c: Rollout.Counts, placed: seq<Entry<Workload>>, b: Rollout.Budget, plan: Rollout.Plan)
    requires Ordered(placed) && SanePlan(plan, c, b)
    requires CountsOf(placed, id, rev) == Rollout.AfterCreate(c, b, plan.target)
    ensures var after := Settled(placed, id, rev, b, plan);
            && CountsOf(after, id, rev) == Rollout.PlannedPass(c, b, plan)
            && (CountsOf(after, id, rev).Total() <= b.replicas || CountsOf(after, id, rev).prior > 0)
  {
    Rollout.ExcessMeetsOnlyLatest(c, b, plan.target);
    if plan.phase != Phase.Canary {
      ScaledDownCounts(placed, id, rev, b);
      Rollout.PlannedPassRolls(c, b, plan);
      Rollout.AvailabilityBound(c, b);
    }
  }

  function Without(finalizers: seq<string>, target: string): seq<string> {
    if finalizers == [] then []
    else if finalizers[0] != target then [finalizers[0]] + Without(finalizers[1..], target)
    else Without(finalizers[1..], target)
  }

  /** Every other finalizer stays, in order and as often, and the target goes. */
  lemma {:induction false} WithoutExactly(a: seq<string>, b: seq<string>, target: string, x: string)
    ensures Without(a + b, target) == Without(a, target) + Without(b, target)
    ensures Without([x], target) == if x == target then [] else [x]
    ensures x in Without(a, target) <==> x in a && x != target
  {
    if a == [] {
      assert a + b == b;
    } else {
      assert (a + b)[1..] == a[1..] + b;
      WithoutExactly(a[1..], b, target, x);
      assert a == [a[0]] + a[1..];
    }
  }

  /** removeFinalizer. */
  method RemoveFinalizer(finalizers: seq<string>, target: string) returns (out: seq<string>)
    ensures out == Without(finalizers, target)
  {
    out := [];
    for i := 0 to |finalizers|
      invariant out + Without(finalizers[i..], target) == Without(finalizers, target)
    {
      assert finalizers[i..] == [finalizers[i]] + finalizers[i + 1..];
      if finalizers[i] != target {
        out := out + [finalizers[i]];
      }
    }
  }

  function NeedsMarkOf(dep: string): Workload -> bool {
    (w: Workload) => w.deploymentId == dep && NeedsMark(w)
  }

  /** Entries of a filtered listing are stored as listed. */
  lemma ListedIsStored(ws: seq<Entry<Workload>>, p: Workload -> bool)
    requires Ordered(ws)
    ensures DistinctIds(Filter(ws, p))
    ensures forall i | 0 <= i < |Filter(ws, p)| :: Get(ws, Filter(ws, p)[i].id) == Some(Filter(ws, p)[i].rec) && p(Filter(ws, p)[i].rec)
  {
    FilterOrdered(ws, p);
    OrderedIsDistinct(Filter(ws, p));
    forall i | 0 <= i < |Filter(ws, p)|
      ensures Get(ws, Filter(ws, p)[i].id) == Some(Filter(ws, p)[i].rec) && p(Filter(ws, p)[i].rec)
    {
      assert Filter(ws, p)[i] in Filter(ws, p);
      FilterMembers(ws, p);
      GetEntry(ws, Filter(ws, p)[i]);
    }
  }

  /** Marking every workload that matches leaves none that matches. */
  lemma MarkedLeavesNone(ws: seq<Entry<Workload>>, p: Workload -> bool)
    requires Ordered(ws) && forall w: Workload :: !p(AsTerminating(w))
    ensures forall k | Has(MarkedTable(ws, Filter(ws, p)), k) :: !p(Get(MarkedTable(ws, Filter(ws, p)), k).value)
    ensures forall k :: Has(MarkedTable(ws, Filter(ws, p)), k) <==> Has(ws, k)
  {
    var vs := Filter(ws, p);
    ListedIsStored(ws, p);
    forall k ensures Has(MarkedTable(ws, vs), k) <==> Has(ws, k)
             ensures Has(MarkedTable(ws, vs), k) ==> !p(Get(MarkedTable(ws, vs), k).value) {
      MarkedGet(ws, vs, k);
      FilterMembers(ws, p);
      GetMember(ws, k);
      forall v | v in vs ensures Get(ws, v.id) == Some(v.rec) && p(v.rec) {
        GetEntry(ws, v);
      }
      if Has(ws, k) && p(Get(ws, k).value) {
        assert Entry(k, Get(ws, k).value) in vs;
      }
    }
  }

  predicate NotTerminated(w: Workload) {
    w.status != WorkloadStatus.Terminated
  }

  lemma NothingToMark(ws: seq<Entry<Workload>>, id: string)
    requires Filter(ws, OfDeployment(id)) == []
    ensures Filter(ws, NeedsMarkOf(id)) == [] && MarkedTable(ws, Filter(ws, NeedsMarkOf(id))) == ws
  {
    FilterFilter(ws, OfDeployment(id), NeedsMark, NeedsMarkOf(id));
  }

  // ----- a pass over all deployments -----

  /** Workloads of other deployments are kept as they are or gone, and none is new. */
  ghost predicate TouchesOnly(before: seq<Entry<Workload>>, after: seq<Entry<Workload>>, id: string) {
    forall k | Has(after, k) && Get(after, k).value.deploymentId != id :: Get(before, k) == Get(after, k)
  }

  ghost predicate KeepsOthers(before: seq<Entry<Deployment>>, after: seq<Entry<Deployment>>, id: string) {
    forall k | k != id :: Get(after, k) == Get(before, k)
  }

  lemma MarkingTouchesOnly(ws: seq<Entry<Workload>>, vs: seq<Entry<Workload>>, id: string)
    requires DistinctIds(vs) && forall v | v in vs :: Get(ws, v.id) == Some(v.rec) && v.rec.deploymentId == id
    ensures TouchesOnly(ws, MarkedTable(ws, vs), id)
    ensures forall k | Has(MarkedTable(ws, vs), k) ::
              Has(ws, k) && Get(ws, k).value.deploymentId == Get(MarkedTable(ws, vs), k).value.deploymentId
  {
    var t := MarkedTable(ws, vs);
    forall k | Has(t, k)
      ensures Has(ws, k) && Get(ws, k).value.deploymentId == Get(t, k).value.deploymentId
      ensures Get(t, k).value.deploymentId != id ==> Get(ws, k) == Get(t, k)
    {
      MarkedGet(ws, vs, k);
    }
  }

  lemma VictimsTouchOnly(ws: seq<Entry<Workload>>, p: Workload -> bool, n: int, id: string)
    requires Ordered(ws) && forall w: Workload | p(w) :: w.deploymentId == id
    ensures TouchesOnly(ws, MarkedTable(ws, Victims(Filter(ws, p), n)), id)
  {
    var vs := Victims(Filter(ws, p), n);
    VictimsStored(ws, p, n);
    forall v | v in vs ensures Get(ws, v.id) == Some(v.rec) && v.rec.deploymentId == id {
      VictimIsActive(Filter(ws, p), n, v);
      FilterMembers(ws, p);
      var i :| 0 <= i < |vs| && vs[i] == v;
    }
    MarkingTouchesOnly(ws, vs, id);
  }

  lemma ScaleDownTouchesOnly(ws: seq<Entry<Workload>>, id: string, rev: int, b: Rollout.Budget)
    requires Ordered(ws)
    ensures TouchesOnly(ws, ScaledDown(ws, id, rev, b), id)
  {
    var once := MarkedTable(ws, FirstVictims(ws, id, rev, b));
    VictimsTouchOnly(ws, PriorOf(id, rev), Rollout.OldToDelete(CountsOf(ws, id, rev), b), id);
    MarkedOrdered(ws, FirstVictims(ws, id, rev, b));
    VictimsTouchOnly(once, ActiveOf(id), Rollout.Excess(CountsOf(once, id, rev), b), id);
  }

  /** A reconcile pass leaves the workloads of other deployments alone, or evicts them. */
  lemma PassTouchesOnly(id: string, d: Deployment, before: seq<Entry<Workload>>, placed: seq<Entry<Workload>>, created: nat,
                        after: seq<Entry<Workload>>, r: PassResult)
    requires PassOutcome(id, d, before, placed, created, after, r)
    ensures TouchesOnly(before, after, id)
  {
    assert TouchesOnly(before, placed, id);
    ScaleDownTouchesOnly(placed, id, d.currentRevision, Rollout.BudgetOf(d.spec.replicas, d.spec.rollout));
  }

  ghost predicate AllTerminating(ws: seq<Entry<Workload>>, id: string) {
    forall k | Has(ws, k) && Get(ws, k).value.deploymentId == id :: Get(ws, k).value.status == Terminating
  }

  /** The workloads of a deployment are among those it had. */
  ghost predicate NoNewOnes(before: seq<Entry<Workload>>, after: seq<Entry<Workload>>, id: string) {
    forall k | Has(after, k) && Get(after, k).value.deploymentId == id ::
      Has(before, k) && Get(before, k).value.deploymentId == id
  }

  lemma NoNewOnesStays(ws: seq<Entry<Workload>>, before: seq<Entry<Workload>>, after: seq<Entry<Workload>>, id: string, other: string)
    requires NoNewOnes(ws, before, id) && TouchesOnly(before, after, other) && id != other
    ensures NoNewOnes(ws, after, id) && (AllTerminating(before, id) ==> AllTerminating(after, id))
  {
  }

  /** Nothing but the cleanup finalizer holds the record. */
  predicate HeldByCleanup(d: Deployment) {
    Without(d.finalizers, Revisions.CLEANUP_FINALIZER) == []
  }

  /** The first i listed deployments have been visited. */
  ghost predicate Swept(start: seq<Entry<Deployment>>, ws: seq<Entry<Workload>>, i: nat,
                        deps: seq<Entry<Deployment>>, now: seq<Entry<Workload>>)
    requires i <= |start|
  {
    && (forall j | 0 <= j < |start| && start[j].rec.deletionMarked :: NoNewOnes(ws, now, start[j].id))
    && (forall j | 0 <= j < i && start[j].rec.deletionMarked ::
          && AllTerminating(now, start[j].id)
          && (Filter(ws, OfDeployment(start[j].id)) == [] && HeldByCleanup(start[j].rec) ==> !Has(deps, start[j].id)))
    && (forall j | i <= j < |start| :: Get(deps, start[j].id) == Some(start[j].rec))
  }

  lemma SweptLive(start: seq<Entry<Deployment>>, ws: seq<Entry<Workload>>, i: nat,
                  deps: seq<Entry<Deployment>>, now: seq<Entry<Workload>>, deps': seq<Entry<Deployment>>, now': seq<Entry<Workload>>)
    requires DistinctIds(start) && i < |start| && !start[i].rec.deletionMarked && Swept(start, ws, i, deps, now)
    requires TouchesOnly(now, now', start[i].id) && KeepsOthers(deps, deps', start[i].id)
    ensures Swept(start, ws, i + 1, deps', now')
  {
    forall j | 0 <= j < |start| && start[j].rec.deletionMarked
      ensures NoNewOnes(ws, now', start[j].id) && (AllTerminating(now, start[j].id) ==> AllTerminating(now', start[j].id))
    {
      NoNewOnesStays(ws, now, now', start[j].id, start[i].id);
    }
  }

  lemma SweptMarked(start: seq<Entry<Deployment>>, ws: seq<Entry<Workload>>, i: nat,
                    deps: seq<Entry<Deployment>>, now: seq<Entry<Workload>>, deps': seq<Entry<Deployment>>, now': seq<Entry<Workload>>)
    requires DistinctIds(start) && i < |start| && start[i].rec.deletionMarked && Swept(start, ws, i, deps, now)
    requires TouchesOnly(now, now', start[i].id) && KeepsOthers(deps, deps', start[i].id)
    requires NoNewOnes(now, now', start[i].id) && AllTerminating(now', start[i].id)
    requires Filter(ws, OfDeployment(start[i].id)) == [] && HeldByCleanup(start[i].rec) ==> !Has(deps', start[i].id)
    ensures Swept(start, ws, i + 1, deps', now')
  {
    forall j | 0 <= j < |start| && start[j].rec.deletionMarked
      ensures NoNewOnes(ws, now', start[j].id) && (j != i && AllTerminating(now, start[j].id) ==> AllTerminating(now', start[j].id))
    {
      if j != i {
        NoNewOnesStays(ws, now, now', start[j].id, start[i].id);
      }
    }
  }

  lemma MarkingForDeletionTouchesOnly(ws: seq<Entry<Workload>>, id: string)
    requires Ordered(ws)
    ensures var after := MarkedTable(ws, Filter(ws, NeedsMarkOf(id)));
            TouchesOnly(ws, after, id) && NoNewOnes(ws, after, id)
  {
    var vs := Filter(ws, NeedsMarkOf(id));
    ListedIsStored(ws, NeedsMarkOf(id));
    forall v | v in vs ensures Get(ws, v.id) == Some(v.rec) && v.rec.deploymentId == id {
      var i :| 0 <= i < |vs| && vs[i] == v;
    }
    MarkingTouchesOnly(ws, vs, id);
  }

  lemma ListedDeployments(deps: seq<Entry<Deployment>>)
    requires Ordered(deps)
    ensures forall j | 0 <= j < |deps| :: Get(deps, deps[j].id) == Some(deps[j].rec)
  {
    forall j | 0 <= j < |deps| ensures Get(deps, deps[j].id) == Some(deps[j].rec) {
      GetIndex(deps, j);
    }
  }

  /** A deployment that had no workload and gained none has none. */
  lemma StillNone(ws: seq<Entry<Workload>>, now: seq<Entry<Workload>>, id: string)
    requires Ordered(now) && Filter(ws, OfDeployment(id)) == [] && NoNewOnes(ws, now, id)
    ensures Filter(now, OfDeployment(id)) == []
  {
    NoneLeft(ws, OfDeployment(id));
    FilterMembers(now, OfDeployment(id));
    if Filter(now, OfDeployment(id)) != [] {
      var e := Filter(now, OfDeployment(id))[0];
      assert e in Filter(now, OfDeployment(id));
      GetEntry(now, e);
      GetMember(ws, e.id);
    }
  }

  // ----- nodes -----

  /** What a registration grants: zero capacities and allocatables take their defaults. */
  function Granted(capacity: Resource, allocatable: Resource): Resource {
    Resource(
      if allocatable.milliCPU != 0 then allocatable.milliCPU else if capacity.milliCPU == 0 then 2000 else capacity.milliCPU,
      if allocatable.memoryMB != 0 then allocatable.memoryMB else if capacity.memoryMB == 0 then 4096 else capacity.memoryMB)
  }

  /** The allocatable amount if it is given, else the capacity if it is given, else the default. */
  predicate GivenOrDefault(granted: int, allocatable: int, capacity: int, default: int) {
    && (allocatable != 0 ==> granted == allocatable)
    && (allocatable == 0 && capacity != 0 ==> granted == capacity)
    && (allocatable == 0 && capacity == 0 ==> granted == default)
  }

  /** safeUtilization of CPU and memory taken together. */
  function Utilization(n: Node): real {
    var used, alloc := n.used.milliCPU + n.used.memoryMB, n.allocatable.milliCPU + n.allocatable.memoryMB;
    if alloc <= 0 then 0.0
    else
      var v := used as real / alloc as real;
      if v < 0.0 then 0.0 else if v > 1.0 then 1.0 else v
  }

  predicate Fuller(a: Entry<Node>, b: Entry<Node>) {
    Utilization(a.rec) > Utilization(b.rec)
  }

  /** What a node has placed on it and what it can give, CPU and memory together. */
  predicate Within(n: Node, used: int, total: int) {
    used == n.used.milliCPU + n.used.memoryMB && total == n.allocatable.milliCPU + n.allocatable.memoryMB && 0 <= used <= total && total > 0
  }

  lemma ScaledShare(u: real, t: real, s: real)
    requires t > 0.0
    ensures (u / t) * (t * s) == u * s
  {
    var x := u / t;
    assert x * t == u;
    assert x * (t * s) == (x * t) * s;
  }

  lemma RealShares(u: real, t: real, v: real, s: real)
    requires t > 0.0 && s > 0.0
    ensures u / t > v / s <==> u * s > v * t
    ensures u / t - v / s >= 0.25 <==> 4.0 * (u * s - v * t) >= t * s
  {
    ScaledShare(u, t, s);
    ScaledShare(v, s, t);
    assert t * s == s * t > 0.0;
    ScaledCompare(u / t, v / s, t * s);
  }

  lemma SharesCompare(u: int, t: int, v: int, s: int)
    requires t > 0 && s > 0
    ensures u as real / t as real > v as real / s as real <==> u * s > v * t
    ensures u as real / t as real - v as real / s as real >= 0.25 <==> 4 * (u * s - v * t) >= t * s
  {
    RealShares(u as real, t as real, v as real, s as real);
    Scheduler.ProductAsReal(u, s);
    Scheduler.ProductAsReal(v, t);
    Scheduler.ProductAsReal(t, s);
    WholeCompare(u * s, v * t, t * s);
  }

  lemma WholeCompare(a: int, b: int, c: int)
    ensures a as real > b as real <==> a > b
    ensures 4.0 * (a as real - b as real) >= c as real <==> 4 * (a - b) >= c
  {
    assert 4.0 * (a as real - b as real) == (4 * (a - b)) as real;
  }

  lemma ScaledCompare(x: real, y: real, k: real)
    requires k > 0.0
    ensures x > y <==> x * k > y * k
    ensures x - y >= 0.25 <==> 4.0 * (x * k - y * k) >= k
  {
    assert x * k - y * k == (x - y) * k;
    if x - y >= 0.25 {
      assert (x - y - 0.25) * k >= 0.0;
    } else {
      assert (0.25 - (x - y)) * k > 0.0;
    }
    if x > y {
      assert (x - y) * k > 0.0;
    } else {
      assert (y - x) * k >= 0.0;
    }
  }

  /** On nodes that are not overbooked: which is fuller, and whether by a quarter, in whole numbers. */
  lemma FullerExactly(a: Entry<Node>, b: Entry<Node>, u: int, t: int, v: int, s: int)
    requires Within(a.rec, u, t) && Within(b.rec, v, s)
    ensures Fuller(a, b) <==> u * s > v * t
    ensures Utilization(a.rec) - Utilization(b.rec) >= 0.25 <==> 4 * (u * s - v * t) >= t * s
  {
    SharesCompare(u, t, v, s);
    ShareInRange(u, t);
    ShareInRange(v, s);
  }

  lemma ShareInRange(u: int, t: int)
    requires 0 <= u <= t && t > 0
    ensures 0.0 <= u as real / t as real <= 1.0
  {
  }

  /** Some node is emptier than this one by a quarter. */
  predicate WideGap(nodes: seq<Entry<Node>>, heavy: Entry<Node>) {
    exists n | n in nodes :: Utilization(heavy.rec) - Utilization(n.rec) >= 0.25
  }

  function FirstRunningOn(ws: seq<Entry<Workload>>, node: string): Option<Entry<Workload>> {
    if ws == [] then None
    else if ws[0].rec.nodeId == node && ws[0].rec.status == Running then Some(ws[0])
    else FirstRunningOn(ws[1..], node)
  }

  /** Whom a rebalance evicts: across a wide gap, the first Running workload of the first of the fullest nodes. */
  function RebalanceVictim(nodes: seq<Entry<Node>>, ws: seq<Entry<Workload>>): Option<Entry<Workload>> {
    if nodes == [] then None
    else
      var heavy := Sorting.LeftmostMin(nodes, Fuller);
      if WideGap(nodes, heavy) then FirstRunningOn(ws, heavy.id) else None
  }

  function Rebalanced(nodes: seq<Entry<Node>>, ws: seq<Entry<Workload>>): seq<Entry<Workload>> {
    match RebalanceVictim(nodes, ws)
    case None => ws
    case Some(e) => Put(ws, e.id, AsTerminating(e.rec))
  }

  lemma {:induction false} FirstRunningIsStored(ws: seq<Entry<Workload>>, node: string)
    ensures FirstRunningOn(ws, node).Some? ==>
              FirstRunningOn(ws, node).value in ws && FirstRunningOn(ws, node).value.rec.status == Running
              && FirstRunningOn(ws, node).value.rec.nodeId == node
    ensures FirstRunningOn(ws, node).None? <==> forall e | e in ws :: !(e.rec.nodeId == node && e.rec.status == Running)
  {
    if ws != [] {
      FirstRunningIsStored(ws[1..], node);
      assert ws == [ws[0]] + ws[1..];
    }
  }

  lemma FullerIsOrder()
    ensures Sorting.StrictWeakOrder(Fuller)
  {
  }

  lemma LastIsEmptiest(nodes: seq<Entry<Node>>)
    requires nodes != []
    ensures var sorted := Sorting.StableSort(nodes, Fuller);
            && |sorted| == |nodes| && sorted[|sorted| - 1] in nodes
            && forall n | n in nodes :: !Fuller(sorted[|sorted| - 1], n)
  {
    FullerIsOrder();
    Sorting.SortLast(nodes, Fuller);
  }

  /** The code compares the ends of the sorted nodes; that is a wide gap from the fullest node. */
  lemma EndsShowGap(nodes: seq<Entry<Node>>)
    requires nodes != []
    ensures var sorted := Sorting.StableSort(nodes, Fuller);
            && |sorted| == |nodes| && sorted[0] == Sorting.LeftmostMin(nodes, Fuller)
            && (Utilization(sorted[0].rec) - Utilization(sorted[|sorted| - 1].rec) >= 0.25 <==> WideGap(nodes, sorted[0]))
            && (|nodes| == 1 ==> !WideGap(nodes, sorted[0]))
  {
    Sorting.SortHead(nodes, Fuller);
    LastIsEmptiest(nodes);
  }

  /** The rebalance victim runs on a node that none is fuller than, across a gap of a quarter. */
  lemma RebalanceVictimMeans(nodes: seq<Entry<Node>>, ws: seq<Entry<Workload>>)
    requires nodes != []
    ensures var heavy := Sorting.LeftmostMin(nodes, Fuller);
            && heavy in nodes && (forall n | n in nodes :: !Fuller(n, heavy))
            && (RebalanceVictim(nodes, ws).Some? <==>
                  WideGap(nodes, heavy) && exists e | e in ws :: e.rec.nodeId == heavy.id && e.rec.status == Running)
  {
    var k := Sorting.LeftmostMinIndex(nodes, Fuller);
    FirstRunningIsStored(ws, Sorting.LeftmostMin(nodes, Fuller).id);
  }

  class Orchestrator {
    const score: Scheduler.Score

    var nodes: seq<Entry<Node>>
    var workloads: seq<Entry<Workload>>
    var deployments: seq<Entry<Deployment>>
    var queue: seq<Entry<Assignment>>
    var clock: nat

    /** The steps taken so far; the store is what they lead to. */
    ghost var trace: seq<Step>

    ghost function Store(): State
      reads this
    {
      Run(trace)
    }

    ghost predicate Valid()
      reads this
    {
      Consistent(trace, nodes, workloads, deployments, queue, clock)
    }

    /** `start` is the clock reading at start-up. */
    constructor (score: Scheduler.Score, start: nat)
      ensures Valid() && trace == [] && this.score == score && clock == start
    {
      this.score := score;
      nodes, workloads, deployments, queue := [], [], [], [];
      clock := start;
      trace := [];
    }

    /** time.Now().UnixNano(): readings strictly increase, by how much is open. */
    method Tick() returns (t: nat)
      requires Valid()
      modifies this`clock
      ensures Valid() && clock == t > old(clock)
    {
      var elapsed: int := *;
      t := if elapsed > 0 then clock + elapsed else clock + 1;
      IssuedBeforeLater(Store().issued, clock, t);
      clock := t;
    }

    /** The random four digits of an identifier; any text will do. */
    method Salt() returns (r: string)
    {
      r := "0000";
    }

    /** A write of one deployment record. */
    method WriteDeployment(id: string, d: Deployment)
      requires Valid() && Revisions.WellFormed(d)
      requires Has(deployments, id) ==> Get(deployments, id).value.history <= d.history
      modifies this`deployments, this`trace
      ensures Valid() && deployments == Put(old(deployments), id, d)
      ensures trace == old(trace) + [Step.WriteDeployment(id, d)]
    {
      AllPut(deployments, id, d);
      Advance(trace, Step.WriteDeployment(id, d), clock);
      trace := trace + [Step.WriteDeployment(id, d)];
      deployments := Put(deployments, id, d);
    }

    /** enqueueDeleteForWorkload: mark the victim Terminating and enqueue its delete. */
    method EnqueueDelete(victim: Entry<Workload>)
      requires Valid() && Get(workloads, victim.id) == Some(victim.rec) && victim.rec.status != Terminating
      modifies this`workloads, this`queue, this`clock, this`trace
      ensures Valid()
      ensures workloads == Put(old(workloads), victim.id, AsTerminating(victim.rec))
      ensures trace == old(trace) + [Mark(victim.id, clock)]
    {
      var t := Tick();
      Advance(trace, Mark(victim.id, t), t);
      workloads := Put(workloads, victim.id, victim.rec.(status := Terminating));
      var a := Assignment(Delete, victim.rec.nodeId, victim.id, "", victim.rec.containerId, victim.rec.resources, t);
      queue := Put(queue, AssignmentKey(a), a);
      trace := trace + [Mark(victim.id, t)];
    }

    /** The loops that enqueue a delete for every victim of a list. */
    method MarkAll(victims: seq<Entry<Workload>>) returns (ghost steps: seq<Step>)
      requires Valid() && DistinctIds(victims)
      requires forall i | 0 <= i < |victims| :: Get(workloads, victims[i].id) == Some(victims[i].rec) && victims[i].rec.status != Terminating
      modifies this`workloads, this`queue, this`clock, this`trace
      ensures Valid() && workloads == MarkedTable(old(workloads), victims)
      ensures trace == old(trace) + steps && MarksOf(steps, victims)
    {
      ghost var ws := workloads;
      steps := [];
      for i := 0 to |victims|
        invariant Valid() && workloads == MarkedTable(ws, victims[..i])
        invariant trace == old(trace) + steps && MarksOf(steps, victims[..i])
      {
        MarkedStep(ws, victims, i);
        EnqueueDelete(victims[i]);
        MarkOneMore(old(trace), steps, victims, i, Mark(victims[i].id, clock));
        steps := steps + [Mark(victims[i].id, clock)];
      }
      assert victims[..|victims|] == victims;
    }

    /** tryPreemptForPriority: evict the first candidate, in eviction order, that makes room on a Ready node. */
    method TryPreemptForPriority(id: string, spec: DeploymentSpec) returns (preempted: bool)
      requires Valid()
      modifies this`nodes, this`workloads, this`trace
      ensures Valid()
      ensures var v := Preemption.Victim(old(nodes), old(workloads), id, spec);
              && preempted == v.Some?
              && trace == (if v.Some? then old(trace) + [Evict(v.value.id)] else old(trace))
              && Store() == (if v.Some? then Apply(old(Store()), Evict(v.value.id)) else old(Store()))
              && (v.Some? ==> forall u | u in old(workloads) && u.rec.priority < spec.priority && u.rec.deploymentId != id
                                         && Preemption.MakesRoom(old(nodes), u, spec.resources) :: Preemption.NoLaterThan(v.value.rec, u.rec))
    {
      Preemption.VictimIsLowest(nodes, workloads, id, spec);
      var candidates := Keep(workloads, Preemption.Outranked(id, spec.priority));
      candidates := Sorting.StableSort(candidates, Preemption.EvictedBefore);
      var i := 0;
      while i < |candidates|
        invariant 0 <= i <= |candidates|
        invariant Preemption.FirstMakingRoom(nodes, candidates[i..], spec.resources)
               == Preemption.Victim(nodes, workloads, id, spec)
      {
        var victim := candidates[i];
        assert candidates[i..][1..] == candidates[i + 1..];
        i := i + 1;
        var found := Get(nodes, victim.rec.nodeId);
        if found.None? || found.value.status != Ready { continue; }
        var node := found.value;
        if || spec.resources.milliCPU > node.allocatable.milliCPU - node.used.milliCPU + victim.rec.resources.milliCPU
           || spec.resources.memoryMB > node.allocatable.memoryMB - node.used.memoryMB + victim.rec.resources.memoryMB {
          continue;
        }
        EvictNow(victim);
        return true;
      }
      return false;
    }

    /** Release the victim's share and delete its record. */
    method EvictNow(victim: Entry<Workload>)
      requires Valid() && victim in workloads && Has(nodes, victim.rec.nodeId)
      modifies this`nodes, this`workloads, this`trace
      ensures Valid() && trace == old(trace) + [Evict(victim.id)] && Store() == Apply(old(Store()), Evict(victim.id))
    {
      TidyHolds(trace);
      GetEntry(workloads, victim);
      Advance(trace, Evict(victim.id), clock);
      var node := Get(nodes, victim.rec.nodeId).value;
      nodes := Put(nodes, victim.rec.nodeId, node.(used := Release(node.used, victim.rec.resources)));
      workloads := Remove(workloads, victim.id);
      trace := trace + [Evict(victim.id)];
    }

    /** An identifier built from the next clock reading: it was never issued before. */
    method NewWorkloadId() returns (wid: string, t: nat)
      requires Valid()
      modifies this`clock
      ensures Valid() && t == clock && wid !in Store().issued && IssuedBefore(Store().issued + {wid}, clock) && Store().clock < clock
    {
      ghost var before := clock;
      t := Tick();
      var salt := Salt();
      wid := WorkloadId(t, salt);
      LaterIdIsNew(Store().issued, before, t, salt);
    }

    /** The clock readings of one placement: identifier, creation time and, unless the secrets fail to resolve, the create's stamp. */
    method ReadClock(secrets: bool) returns (wid: string, created: nat, stamp: Option<nat>)
      requires Valid()
      modifies this`clock
      ensures Valid() && wid !in Store().issued && IssuedBefore(Store().issued + {wid}, clock)
      ensures (stamp.Some? <==> secrets) && (stamp.Some? ==> Store().clock < stamp.value <= clock)
    {
      wid, created := NewWorkloadId();
      stamp := None;
      if secrets {
        var t := Tick();
        stamp := Some(t);
        IssuedBeforeLater(Store().issued + {wid}, created, t);
      }
    }

    /** Store the workload, charge the node and, once the secrets resolve, enqueue the create. */
    method PlaceNow(id: string, node: Entry<Node>, secrets: bool) returns (ghost step: Step)
      requires Valid() && Has(deployments, id) && Get(nodes, node.id) == Some(node.rec)
      requires Scheduler.Fits(node.rec, Get(deployments, id).value.spec.resources)
      modifies this`nodes, this`workloads, this`queue, this`clock, this`trace
      ensures Valid() && trace == old(trace) + [step] && Store() == Apply(old(Store()), step)
      ensures PlacesOn(step, id, node.id, secrets) && Enabled(old(Store()), step)
    {
      var d := Get(deployments, id).value;
      var wid, created, stamp := ReadClock(secrets);
      var w := Workload(id, d.spec.priority, node.id, d.spec.image, d.spec.resources, Pending, "", 0, d.currentRevision, created);
      step := Place(id, wid, node.id, created, stamp);
      PlaceAdvances(trace, nodes, workloads, deployments, queue, clock, step, node.rec);
      workloads := Put(workloads, wid, w);
      nodes := Put(nodes, node.id, node.rec.(used := node.rec.used.Plus(d.spec.resources)));
      if stamp.Some? {
        var a := Assignment(Create, node.id, wid, w.image, "", w.resources, stamp.value);
        queue := Put(queue, AssignmentKey(a), a);
      }
      trace := trace + [step];
    }

    /** The selection of createWorkloadForDeployment: when no node is eligible, preempt once and retry. */
    method SelectOrPreempt(id: string, spec: DeploymentSpec) returns (r: Option<Entry<Node>>)
      requires Valid()
      modifies this`nodes, this`workloads, this`trace
      ensures Valid() && trace == old(trace) + EvictSteps(old(Store()), id, spec, score)
      ensures Store() == Preemption.Relieved(old(Store()), id, spec, score)
      ensures r == Preemption.PlacementNode(old(Store()), id, spec, score)
    {
      r := Scheduler.SelectNode(nodes, spec.resources, spec.LabelMap(), spec.TolerationList(), score);
      if r.None? {
        var preempted := false;
        if spec.priority > 0 {
          preempted := TryPreemptForPriority(id, spec);
        }
        if preempted {
          r := Scheduler.SelectNode(nodes, spec.resources, spec.LabelMap(), spec.TolerationList(), score);
        }
      }
    }

    /** createWorkloadForDeployment: select a node, preempting if need be, then place. */
    method CreateWorkload(id: string, secrets: bool) returns (ok: bool, ghost steps: seq<Step>)
      requires Valid() && Has(deployments, id)
      modifies this`nodes, this`workloads, this`queue, this`clock, this`trace
      ensures Valid() && trace == old(trace) + steps
      ensures var spec := Get(deployments, id).value.spec;
              && PlacementSteps(old(Store()), Store(), steps, id, spec, score, secrets)
              && (ok <==> secrets && Preemption.PlacementNode(old(Store()), id, spec, score).Some?)
    {
      ghost var before := trace;
      var spec := Get(deployments, id).value.spec;
      var r := SelectOrPreempt(id, spec);
      steps := EvictSteps(Run(before), id, spec, score);
      if r.None? {
        PlacementFails(Run(before), id, spec, score, secrets);
        return false, steps;
      }
      ghost var step := PlaceOnSelected(id, r.value, secrets, before);
      OneStepMore(before, steps, step);
      steps := steps + [step];
      ok := secrets;
    }

    /** The placement itself, on the node that the selection returned after the steps before it. */
    method PlaceOnSelected(id: string, node: Entry<Node>, secrets: bool, ghost before: seq<Step>) returns (ghost step: Step)
      requires Valid() && Has(deployments, id) && Admissible(before)
      requires var spec := Get(deployments, id).value.spec;
               && Store() == Preemption.Relieved(Run(before), id, spec, score)
               && Preemption.PlacementNode(Run(before), id, spec, score) == Some(node)
      modifies this`nodes, this`workloads, this`queue, this`clock, this`trace
      ensures Valid() && trace == old(trace) + [step]
      ensures var spec := Get(deployments, id).value.spec;
              PlacementSteps(Run(before), Store(), EvictSteps(Run(before), id, spec, score) + [step], id, spec, score, secrets)
    {
      ghost var spec := Get(deployments, id).value.spec;
      TidyHolds(before);
      Preemption.PlacementNodeFits(Run(before), id, spec, score);
      step := PlaceNow(id, node, secrets);
      PlacementEnds(Run(before), id, spec, score, secrets, EvictSteps(Run(before), id, spec, score), step);
    }

    /** The creation loop of a pass: it stops at the first placement that fails. */
    method CreateAll(id: string, n: nat, secrets: bool) returns (ok: bool, ghost created: nat)
      requires Valid() && Has(deployments, id)
      modifies this`nodes, this`workloads, this`queue, this`clock, this`trace
      ensures Valid() && (ok ==> created == n) && (!ok ==> created < n || !secrets)
      ensures Placements(old(workloads), workloads, id, Get(deployments, id).value.currentRevision, n, created)
    {
      ghost var rev := Get(deployments, id).value.currentRevision;
      ghost var ws, c := workloads, CountsOf(workloads, id, rev);
      RecordsHold(trace);
      created := 0;
      for i := 0 to n
        invariant Valid() && created == i && (i == 0 ==> workloads == ws)
        invariant PlacedSoFar(ws, Store(), id, rev, c, i)
      {
        ghost var before := trace;
        ghost var steps;
        ok, steps := CreateWorkload(id, secrets);
        OneMorePlacement(ws, before, Store(), steps, id, score, secrets, c, i);
        if !ok {
          created := if Preemption.PlacementNode(Run(before), id, Get(deployments, id).value.spec, score).Some? then i + 1 else i;
          return;
        }
        created := i + 1;
      }
      ok := true;
    }

    /** The two scale-down steps of a pass: old-revision workloads within the availability budget, then any excess over the replica count. */
    method ScaleDown(id: string, rev: int, b: Rollout.Budget)
      requires Valid()
      modifies this`workloads, this`queue, this`clock, this`trace
      ensures Valid() && workloads == ScaledDown(old(workloads), id, rev, b)
    {
      TidyHolds(trace);
      var firsts := PickFirstVictims(workloads, id, rev, b);
      ghost var steps := MarkAll(firsts);
      TidyHolds(trace);
      var excess := PickExcessVictims(workloads, id, rev, b);
      steps := MarkAll(excess);
    }

    /** The end of a pass: count what is active and write down whether the rollout is complete. */
    method Conclude(id: string, phase: Phase)
      requires Valid() && Has(deployments, id) && phase != Stable
      requires var d := Get(deployments, id).value;
               var c := CountsOf(workloads, id, d.currentRevision);
               c.Total() <= d.spec.replicas || c.prior > 0
      modifies this`deployments, this`trace
      ensures Valid()
      ensures var d := Get(old(deployments), id).value;
              var stable := ExactlyStable(workloads, id, d.currentRevision, d.spec.replicas);
              var updated, ready := CountsOf(workloads, id, d.currentRevision).latest, |Filter(workloads, RunningActiveOf(id))|;
              deployments == Put(old(deployments), id, Concluded(d, stable, phase, updated, ready))
    {
      var d := Get(deployments, id).value;
      var stable, updated, ready := Assess(workloads, id, d.currentRevision, d.spec.replicas);
      ConcludedIsWellFormed(d, stable, phase, updated, ready);
      WriteDeployment(id, Concluded(d, stable, phase, updated, ready));
    }

    /** The second half of a pass, after every placement has succeeded. */
    method Finish(id: string, c: Rollout.Counts, b: Rollout.Budget, plan: Rollout.Plan)
      requires Valid() && Has(deployments, id)
      requires var d := Get(deployments, id).value;
               && b == Rollout.BudgetOf(d.spec.replicas, d.spec.rollout) && SanePlan(plan, c, b)
               && CountsOf(workloads, id, d.currentRevision) == Rollout.AfterCreate(c, b, plan.target)
      modifies this`workloads, this`deployments, this`queue, this`clock, this`trace
      ensures Valid()
      ensures var d := Get(old(deployments), id).value;
              && workloads == Settled(old(workloads), id, d.currentRevision, b, plan)
              && CountsOf(workloads, id, d.currentRevision) == Rollout.PlannedPass(c, b, plan)
              && deployments == Put(old(deployments), id, RecordAfter(id, d, workloads, Completed(plan)))
    {
      var rev := Get(deployments, id).value.currentRevision;
      ghost var placed := workloads;
      TidyHolds(trace);
      if plan.phase != Phase.Canary {
        ScaleDown(id, rev, b);
      }
      PassCounts(id, rev, c, placed, b, plan);
      Conclude(id, plan.phase);
    }

    /** A placement failed: the deployment waits for schedulable nodes in the phase it is in. */
    method Hold(id: string, plan: Rollout.Plan)
      requires Valid() && Has(deployments, id)
      modifies this`deployments, this`trace
      ensures Valid()
      ensures deployments == Put(old(deployments), id, RecordAfter(id, Get(old(deployments), id).value, workloads, Unschedulable(plan)))
    {
      var d := Get(deployments, id).value;
      StatusWritesStayWellFormed(d, 0);
      WriteDeployment(id, Normalized(d).(status := DeploymentPending, phase := plan.phase));
    }

    /** The creation loop and what follows it: finish if every placement succeeded, else write the waiting state. */
    method CarryOut(id: string, c: Rollout.Counts, b: Rollout.Budget, plan: Rollout.Plan, secrets: bool)
        returns (ok: bool, ghost placed: seq<Entry<Workload>>, ghost created: nat)
      requires Valid() && Has(deployments, id)
      requires var d := Get(deployments, id).value;
               b == Rollout.BudgetOf(d.spec.replicas, d.spec.rollout) && SanePlan(plan, c, b) && c == CountsOf(workloads, id, d.currentRevision)
      modifies this`nodes, this`workloads, this`deployments, this`queue, this`clock, this`trace
      ensures Valid() && Ordered(placed)
      ensures var d := Get(old(deployments), id).value;
              && Placements(old(workloads), placed, id, d.currentRevision, Rollout.ToCreate(c, b, plan.target), created)
              && (!ok ==> workloads == placed)
              && (ok ==> && created == Rollout.ToCreate(c, b, plan.target)
                         && workloads == Settled(placed, id, d.currentRevision, b, plan)
                         && CountsOf(workloads, id, d.currentRevision) == Rollout.PlannedPass(c, b, plan))
              && deployments == Put(old(deployments), id, RecordAfter(id, d, workloads, if ok then Completed(plan) else Unschedulable(plan)))
    {
      ok, created := CreateAll(id, Rollout.ToCreate(c, b, plan.target), secrets);
      placed := workloads;
      TidyHolds(trace);
      if ok {
        Finish(id, c, b, plan);
      } else {
        Hold(id, plan);
      }
    }

    /** A pass over an existing deployment that is not overdue. */
    method RollForward(id: string, secrets: bool) returns (r: PassResult, ghost placed: seq<Entry<Workload>>, ghost created: nat)
      requires Valid() && Has(deployments, id)
      modifies this`nodes, this`workloads, this`deployments, this`queue, this`clock, this`trace
      ensures Valid()
      ensures PassOutcome(id, Get(old(deployments), id).value, old(workloads), placed, created, workloads, r)
      ensures deployments == Put(old(deployments), id, RecordAfter(id, Get(old(deployments), id).value, workloads, r))
    {
      var d := Get(deployments, id).value;
      StatusWritesStayWellFormed(d, 0);
      ghost var ws := workloads;
      var c, b, plan := PlanPass(workloads, id, d);
      var ok;
      ok, placed, created := CarryOut(id, c, b, plan, secrets);
      OutcomeOf(id, d, ws, placed, created, workloads, ok, c, b, plan);
      r := if ok then Completed(plan) else Unschedulable(plan);
    }

    /** reconcileDeployment. */
    method ReconcileDeployment(id: string, now: int, secrets: bool)
        returns (r: PassResult, ghost placed: seq<Entry<Workload>>, ghost created: nat)
      requires Valid()
      modifies this`nodes, this`workloads, this`deployments, this`queue, this`clock, this`trace
      ensures Valid()
      ensures r.NotFound? <==> !Has(old(deployments), id)
      ensures r.NotFound? ==> trace == old(trace)
      ensures !r.NotFound? ==>
                var d := Get(old(deployments), id).value;
                && (r.DeadlineExceeded? <==>
                      && d.phase != Stable && d.phase != RolloutFailed && d.startedAt.Some?
                      && d.spec.rollout.progressDeadlineSeconds > 0
                      && now - d.startedAt.value > d.spec.rollout.progressDeadlineSeconds * 1_000_000_000)
                && (r.DeadlineExceeded? ==> trace == old(trace) + [Step.WriteDeployment(id, DeadlineFailed(d, now))])
                && (!r.DeadlineExceeded? ==>
                      && PassOutcome(id, d, old(workloads), placed, created, workloads, r)
                      && deployments == Put(old(deployments), id, RecordAfter(id, d, workloads, r)))
    {
      placed, created := workloads, 0;
      var found := Get(deployments, id);
      if found.None? {
        return NotFound, placed, created;
      }
      var d := found.value;
      OverdueExactly(d, now);
      if Overdue(d, now) {
        StatusWritesStayWellFormed(d, now);
        WriteDeployment(id, DeadlineFailed(d, now));
        return DeadlineExceeded, placed, created;
      }
      r, placed, created := RollForward(id, secrets);
    }

    // ----- status reports -----

    /** ReportWorkloadStatus: an unknown workload is ignored, Terminated releases and deletes, anything else is written down. */
    method ReportWorkloadStatus(wid: string, status: WorkloadStatus, container: string)
      requires Valid()
      modifies this`nodes, this`workloads, this`deployments, this`trace
      ensures Valid()
      ensures !Has(old(workloads), wid) ==> trace == old(trace)
      ensures Has(old(workloads), wid) && status != WorkloadStatus.Terminated ==>
                trace == old(trace) + [Report(wid, status, container)] && deployments == old(deployments)
      ensures Has(old(workloads), wid) && status == WorkloadStatus.Terminated ==>
                var dep := Get(old(workloads), wid).value.deploymentId;
                && workloads == Remove(old(workloads), wid)
                && Has(old(deployments), dep)
                && var active := |Filter(workloads, ActiveOf(dep))|;
                   var d := Get(old(deployments), dep).value;
                   deployments == if active <= d.spec.replicas
                     then Put(old(deployments), dep, AfterTermination(d, active, |Filter(workloads, RunningActiveOf(dep))|))
                     else old(deployments)
    {
      var found := Get(workloads, wid);
      if found.None? {
        return;
      }
      var w := found.value;
      DeploymentOf(wid);
      WriteReport(wid, status, container);
      if status == WorkloadStatus.Terminated {
        NoteTermination(w.deploymentId);
      }
    }

    /** The end of a Terminated report: with few enough workloads active the deployment is called stable. */
    method NoteTermination(dep: string)
      requires Valid() && Has(deployments, dep)
      modifies this`deployments, this`trace
      ensures Valid()
      ensures var active := |Filter(workloads, ActiveOf(dep))|;
              var d := Get(old(deployments), dep).value;
              deployments == if active <= d.spec.replicas
                then Put(old(deployments), dep, AfterTermination(d, active, |Filter(workloads, RunningActiveOf(dep))|))
                else old(deployments)
    {
      var d := Get(deployments, dep).value;
      var own := Keep(workloads, OfDeployment(dep));
      var ready := CountWhere(own, IsRunning);
      var active := CountWhere(own, IsActive);
      FilterFilter(workloads, OfDeployment(dep), IsActive, ActiveOf(dep));
      FilterFilter(workloads, OfDeployment(dep), IsRunning, RunningActiveOf(dep));
      if active <= d.spec.replicas {
        WriteDeployment(dep, AfterTermination(d, active, ready));
      }
    }

    lemma DeploymentOf(wid: string)
      requires Valid() && Has(workloads, wid)
      ensures Has(deployments, Get(workloads, wid).value.deploymentId)
      ensures Has(nodes, Get(workloads, wid).value.nodeId)
    {
      RecordsHold(trace);
    }

    method WriteReport(wid: string, status: WorkloadStatus, container: string)
      requires Valid() && Has(workloads, wid)
      modifies this`nodes, this`workloads, this`trace
      ensures Valid() && trace == old(trace) + [Report(wid, status, container)]
      ensures workloads == if status == WorkloadStatus.Terminated then Remove(old(workloads), wid)
                           else Put(old(workloads), wid, Reported(Get(old(workloads), wid).value, status, container))
    {
      var w := Get(workloads, wid).value;
      Advance(trace, Report(wid, status, container), clock);
      if status == WorkloadStatus.Terminated {
        var node := Get(nodes, w.nodeId);
        if node.Some? {
          nodes := Put(nodes, w.nodeId, node.value.(used := Release(node.value.used, w.resources)));
        }
        workloads := Remove(workloads, wid);
      } else {
        workloads := Put(workloads, wid, Reported(w, status, container));
      }
      trace := trace + [Report(wid, status, container)];
    }

    // ----- deletion -----

    /** DeleteDeployment: the record is only marked; the reconciler does the rest. */
    method DeleteDeployment(id: string) returns (ok: bool)
      requires Valid()
      modifies this`deployments, this`trace
      ensures Valid() && ok == Has(old(deployments), id)
      ensures deployments == if ok then Put(old(deployments), id, Get(old(deployments), id).value.(deletionMarked := true, status := DeploymentPending))
                             else old(deployments)
      ensures ok ==> && Marked(deployments, id)
                     && Get(deployments, id).value.spec == Get(old(deployments), id).value.spec
                     && Get(deployments, id).value.history == Get(old(deployments), id).value.history
                     && forall k | k != id :: Get(deployments, k) == Get(old(deployments), k)
    {
      var found := Get(deployments, id);
      if found.None? {
        return false;
      }
      AllPut(deployments, id, found.value.(deletionMarked := true, status := DeploymentPending));
      WriteDeployment(id, found.value.(deletionMarked := true, status := DeploymentPending));
      return true;
    }

    /** store.DeleteDeployment, reached only when no workload names the deployment. */
    method DropNow(id: string)
      requires Valid() && Has(deployments, id) && Filter(workloads, OfDeployment(id)) == []
      modifies this`workloads, this`deployments, this`trace
      ensures Valid() && deployments == Remove(old(deployments), id) && workloads == old(workloads)
      ensures trace == old(trace) + [DropDeployment(id)]
    {
      RecordsHold(trace);
      NoneLeft(workloads, OfDeployment(id));
      SweepRemovesNothing(Store(), id);
      AllRemove(deployments, id);
      Advance(trace, DropDeployment(id), clock);
      deployments := Remove(deployments, id);
      workloads := Keep(workloads, NotOf(id));
      trace := trace + [DropDeployment(id)];
    }

    /** The removal of a deployment none of whose workloads is left: drop the cleanup finalizer, then the record. */
    method FinishDeletion(id: string) returns (r: DeletionResult)
      requires Valid() && Has(deployments, id) && Filter(workloads, OfDeployment(id)) == []
      modifies this`workloads, this`deployments, this`trace
      ensures Valid() && workloads == old(workloads)
      ensures var d := Get(old(deployments), id).value;
              var rest := Without(d.finalizers, Revisions.CLEANUP_FINALIZER);
              && r == (if rest == [] then Removed else FinalizersRemain)
              && deployments == if rest == [] then Remove(old(deployments), id) else Put(old(deployments), id, d.(finalizers := rest))
    {
      var d := Get(deployments, id).value;
      var rest := RemoveFinalizer(d.finalizers, Revisions.CLEANUP_FINALIZER);
      if |rest| > 0 {
        WriteDeployment(id, d.(finalizers := rest));
        return FinalizersRemain;
      }
      DropNow(id);
      return Removed;
    }

    /** The marking loop of reconcileDeletion and its count of what remains. */
    method MarkForDeletion(id: string) returns (remaining: nat)
      requires Valid()
      modifies this`workloads, this`queue, this`clock, this`trace
      ensures Valid() && workloads == MarkedTable(old(workloads), Filter(old(workloads), NeedsMarkOf(id)))
      ensures remaining == |Filter(old(workloads), OfDeployment(id))|
      ensures forall k | Has(workloads, k) && Get(workloads, k).value.deploymentId == id :: Get(workloads, k).value.status == Terminating
      ensures DeletesFollow(old(Store()), Store(), id)
      ensures remaining == 0 ==> trace == old(trace)
    {
      var own := Keep(workloads, OfDeployment(id));
      var toMark := Keep(own, NeedsMark);
      TidyHolds(trace);
      FilterFilter(workloads, OfDeployment(id), NeedsMark, NeedsMarkOf(id));
      ListedIsStored(workloads, NeedsMarkOf(id));
      MarkedLeavesNone(workloads, NeedsMarkOf(id));
      NoneStoredTerminated(id);
      ghost var steps := MarkAll(toMark);
      DeletionAnnounces(old(trace), steps, id);
      NoneTerminated();
      remaining := CountWhere(own, NotTerminated);
      assert remaining == 0 ==> own == [] && toMark == [] && steps == [];
    }

    lemma NoneTerminated()
      requires Valid()
      ensures forall k | Has(workloads, k) :: Get(workloads, k).value.status != WorkloadStatus.Terminated
    {
      RecordsHold(trace);
    }

    lemma NoneStoredTerminated(id: string)
      requires Valid()
      ensures |Filter(Filter(workloads, OfDeployment(id)), NotTerminated)| == |Filter(workloads, OfDeployment(id))|
    {
      RecordsHold(trace);
      var own := Filter(workloads, OfDeployment(id));
      FilterMembers(workloads, OfDeployment(id));
      forall e | e in own ensures NotTerminated(e.rec) {
        GetEntry(workloads, e);
        assert Has(workloads, e.id);
      }
      FilterAll(own, NotTerminated);
    }

    /**
     * reconcileDeletion: every workload of the deployment ends up Terminating, those that were not
     * get a delete enqueued, and the record goes exactly when no workload names it and no other finalizer is left.
     */
    method ReconcileDeletion(id: string) returns (r: DeletionResult)
      requires Valid()
      modifies this`workloads, this`deployments, this`queue, this`clock, this`trace
      ensures Valid()
      ensures r.NoSuchDeployment? <==> !Has(old(deployments), id)
      ensures r.NoSuchDeployment? ==> trace == old(trace)
      ensures !r.NoSuchDeployment? ==>
                && workloads == MarkedTable(old(workloads), Filter(old(workloads), NeedsMarkOf(id)))
                && (forall k | Has(workloads, k) && Get(workloads, k).value.deploymentId == id :: Get(workloads, k).value.status == Terminating)
                && (r.WorkloadsRemain? <==> Filter(old(workloads), OfDeployment(id)) != [])
                && (r.WorkloadsRemain? ==> deployments == old(deployments) && DeletesFollow(old(Store()), Store(), id))
                && (!r.WorkloadsRemain? ==>
                      var d := Get(old(deployments), id).value;
                      var rest := Without(d.finalizers, Revisions.CLEANUP_FINALIZER);
                      && workloads == old(workloads)
                      && r == (if rest == [] then Removed else FinalizersRemain)
                      && deployments == if rest == [] then Remove(old(deployments), id) else Put(old(deployments), id, d.(finalizers := rest)))
    {
      if !Has(deployments, id) {
        return NoSuchDeployment;
      }
      ghost var ws := workloads;
      var remaining := MarkForDeletion(id);
      if remaining > 0 {
        return WorkloadsRemain;
      }
      NothingToMark(ws, id);
      r := FinishDeletion(id);
    }

    // ----- all deployments -----

    /** A live deployment is reconciled. */
    method VisitLive(id: string, now: int, secrets: bool)
      requires Valid()
      modifies this`nodes, this`workloads, this`deployments, this`queue, this`clock, this`trace
      ensures Valid() && TouchesOnly(old(workloads), workloads, id) && KeepsOthers(old(deployments), deployments, id)
    {
      ghost var deps, ws := deployments, workloads;
      var r, placed, created := ReconcileDeployment(id, now, secrets);
      if r.Unschedulable? || r.Completed? {
        ghost var d := Get(deps, id).value;
        PassTouchesOnly(id, d, ws, placed, created, workloads, r);
        AllPut(deps, id, RecordAfter(id, d, workloads, r));
      } else if r.DeadlineExceeded? {
        AllPut(deps, id, DeadlineFailed(Get(deps, id).value, now));
      }
    }

    /** A marked deployment is cleaned up. */
    method VisitMarked(id: string)
      requires Valid()
      modifies this`workloads, this`deployments, this`queue, this`clock, this`trace
      ensures Valid() && TouchesOnly(old(workloads), workloads, id) && KeepsOthers(old(deployments), deployments, id)
      ensures Has(old(deployments), id) ==> NoNewOnes(old(workloads), workloads, id) && AllTerminating(workloads, id)
      ensures Has(old(deployments), id) && Filter(old(workloads), OfDeployment(id)) == [] && HeldByCleanup(Get(old(deployments), id).value) ==>
                !Has(deployments, id)
    {
      ghost var deps, ws := deployments, workloads;
      TidyHolds(trace);
      var r := ReconcileDeletion(id);
      MarkingForDeletionTouchesOnly(ws, id);
      AllRemove(deps, id);
      if r.FinalizersRemain? {
        ghost var d := Get(deps, id).value;
        AllPut(deps, id, d.(finalizers := Without(d.finalizers, Revisions.CLEANUP_FINALIZER)));
      }
    }

    /**
     * The dispatch of ReconcileAll: a marked deployment gains no workload, what it has left ends up Terminating,
     * and its record goes once no workload names it and nothing but the cleanup finalizer holds it.
     */
    method ReconcileAll(now: int, resolved: set<string>)
      requires Valid()
      modifies this`nodes, this`workloads, this`deployments, this`queue, this`clock, this`trace
      ensures Valid()
      ensures forall id | Marked(old(deployments), id) ::
                && NoNewOnes(old(workloads), workloads, id) && AllTerminating(workloads, id)
                && (Filter(old(workloads), OfDeployment(id)) == [] && HeldByCleanup(Get(old(deployments), id).value) ==> !Has(deployments, id))
    {
      ghost var ws := workloads;
      var listed := deployments;
      TidyHolds(trace);
      OrderedIsDistinct(listed);
      ListedDeployments(listed);
      for i := 0 to |listed|
        invariant Valid() && Swept(listed, ws, i, deployments, workloads)
      {
        ghost var deps, before := deployments, workloads;
        TidyHolds(trace);
        if listed[i].rec.deletionMarked {
          if Filter(ws, OfDeployment(listed[i].id)) == [] {
            StillNone(ws, workloads, listed[i].id);
          }
          VisitMarked(listed[i].id);
          SweptMarked(listed, ws, i, deps, before, deployments, workloads);
        } else {
          VisitLive(listed[i].id, now, listed[i].id in resolved);
          SweptLive(listed, ws, i, deps, before, deployments, workloads);
        }
      }
      forall id | Marked(listed, id) ensures exists j :: 0 <= j < |listed| && listed[j] == Entry(id, Get(listed, id).value) {
        GetMember(listed, id);
      }
    }

    // ----- nodes -----

    /** RegisterNode, first or again: zero figures are filled in from the defaults, and the node's own Used is taken over. */
    method RegisterNode(id: string, labels: map<string, string>, taints: seq<Taint>, capacity: Resource, allocatable: Resource,
                        used: Resource) returns (ok: bool)
      requires Valid()
      modifies this`nodes, this`workloads, this`queue, this`clock, this`trace
      ensures Valid() && (ok <==> !Text.IsBlank(id))
      ensures !ok ==> trace == old(trace)
      ensures ok ==> nodes == Put(old(nodes), id, Node(labels, taints, Granted(capacity, allocatable), used, Ready))
      ensures ok ==> GivenOrDefault(Granted(capacity, allocatable).milliCPU, allocatable.milliCPU, capacity.milliCPU, 2000)
      ensures ok ==> GivenOrDefault(Granted(capacity, allocatable).memoryMB, allocatable.memoryMB, capacity.memoryMB, 4096)
      ensures ok ==> workloads == Rebalanced(nodes, old(workloads))
    {
      if Text.IsBlank(id) {
        return false;
      }
      var n := Node(labels, taints, Granted(capacity, allocatable), used, Ready);
      Advance(trace, Register(id, n), clock);
      nodes := Put(nodes, id, n);
      trace := trace + [Register(id, n)];
      RebalanceWorkloads();
      return true;
    }

    /** rebalanceWorkloads: when the utilisation gap is wide, one Running workload of the fullest node is evicted. */
    method RebalanceWorkloads()
      requires Valid()
      modifies this`workloads, this`queue, this`clock, this`trace
      ensures Valid() && workloads == Rebalanced(nodes, old(workloads))
    {
      if |nodes| > 0 {
        EndsShowGap(nodes);
      }
      if |nodes| < 2 {
        return;
      }
      var sorted := Sorting.StableSort(nodes, Fuller);
      var heavy, light := sorted[0], sorted[|sorted| - 1];
      if Utilization(heavy.rec) - Utilization(light.rec) < 0.25 {
        return;
      }
      EvictOneFrom(heavy.id);
    }

    /** The search loop of a rebalance. */
    method EvictOneFrom(node: string)
      requires Valid()
      modifies this`workloads, this`queue, this`clock, this`trace
      ensures Valid()
      ensures var e := FirstRunningOn(old(workloads), node);
              workloads == if e.Some? then Put(old(workloads), e.value.id, AsTerminating(e.value.rec)) else old(workloads)
    {
      TidyHolds(trace);
      for i := 0 to |workloads|
        invariant Valid() && workloads == old(workloads)
        invariant FirstRunningOn(workloads, node) == FirstRunningOn(workloads[i..], node)
      {
        assert workloads[i..][1..] == workloads[i + 1..];
        if workloads[i].rec.nodeId == node && workloads[i].rec.status == Running {
          GetIndex(workloads, i);
          EnqueueDelete(workloads[i]);
          return;
        }
      }
    }

    /** remediateUnhealthyNode: every active workload of the node is marked Terminating and its delete enqueued. */
    method RemediateUnhealthyNode(node: string) returns (ghost marks: seq<Step>)
      requires Valid()
      modifies this`workloads, this`queue, this`clock, this`trace
      ensures trace == old(trace) + marks && MarksOf(marks, Filter(old(workloads), ActiveOn(node)))
      ensures Valid() && workloads == MarkedTable(old(workloads), Filter(old(workloads), ActiveOn(node)))
      ensures forall k | Has(workloads, k) && Get(workloads, k).value.nodeId == node :: !IsActive(Get(workloads, k).value)
    {
      var victims := Keep(workloads, ActiveOn(node));
      TidyHolds(trace);
      ListedIsStored(workloads, ActiveOn(node));
      MarkedLeavesNone(workloads, ActiveOn(node));
      marks := MarkAll(victims);
    }

    /** A node's status changes; its figures do not. */
    method WriteNodeStatus(id: string, status: NodeStatus)
      requires Valid() && Has(nodes, id)
      modifies this`nodes, this`trace
      ensures Valid() && nodes == Put(old(nodes), id, Get(old(nodes), id).value.(status := status))
      ensures trace == old(trace) + [SetNodeStatus(id, status)]
    {
      Advance(trace, SetNodeStatus(id, status), clock);
      nodes := Put(nodes, id, Get(nodes, id).value.(status := status));
      trace := trace + [SetNodeStatus(id, status)];
    }

    /** HeartbeatNode: whatever the worker reports replaces Used, and the node is Ready again. */
    method HeartbeatNode(id: string, used: Resource) returns (ok: bool)
      requires Valid()
      modifies this`nodes, this`trace
      ensures Valid() && ok == Has(old(nodes), id)
      ensures !ok ==> trace == old(trace)
      ensures ok ==> && nodes == Put(old(nodes), id, Get(old(nodes), id).value.(used := used, status := Ready))
                     && trace == old(trace) + [Beat(id, used)]
    {
      var found := Get(nodes, id);
      if found.None? {
        return false;
      }
      Advance(trace, Beat(id, used), clock);
      nodes := Put(nodes, id, found.value.(used := used, status := Ready));
      trace := trace + [Beat(id, used)];
      return true;
    }

    /** DrainNode: the node stops being Ready, nothing on it stays active and nothing is placed on it. */
    method DrainNode(id: string) returns (ok: bool, ghost marks: seq<Step>)
      requires Valid()
      modifies this`nodes, this`workloads, this`queue, this`clock, this`trace
      ensures Valid() && ok == Has(old(nodes), id)
      ensures !ok ==> trace == old(trace)
      ensures ok ==> && nodes == Put(old(nodes), id, Get(old(nodes), id).value.(status := Unknown))
                     && workloads == MarkedTable(old(workloads), Filter(old(workloads), ActiveOn(id)))
                     && forall k | Has(workloads, k) && Get(workloads, k).value.nodeId == id :: !IsActive(Get(workloads, k).value)
      ensures ok ==> trace == old(trace) + [SetNodeStatus(id, Unknown)] + marks && forall i | 0 <= i < |marks| :: marks[i].Mark?
      ensures ok ==> && !Draining.IsReady(Store(), id)
                     && forall dep, spec | Preemption.PlacementNode(Store(), dep, spec, score).Some? ::
                          Preemption.PlacementNode(Store(), dep, spec, score).value.id != id
    {
      marks := [];
      if !Has(nodes, id) {
        return false, marks;
      }
      GetPut(nodes, id, Get(nodes, id).value.(status := Unknown), id);
      WriteNodeStatus(id, Unknown);
      marks := RemediateUnhealthyNode(id);
      TidyHolds(trace);
      forall dep, spec | Preemption.PlacementNode(Store(), dep, spec, score).Some?
        ensures Preemption.PlacementNode(Store(), dep, spec, score).value.id != id
      {
        Draining.NotReadyNotSelected(Store(), id, dep, spec, score);
      }
      return true, marks;
    }

    // ----- specifications -----

    /** CreateDeployment: store the record, reconcile it once, then write the accepted record back as Running. */
    method CreateDeployment(id: string, spec: DeploymentSpec, now: int, secrets: bool)
        returns (ok: bool, r: PassResult, ghost placed: seq<Entry<Workload>>, ghost created: nat)
      requires Valid()
      modifies this`nodes, this`workloads, this`deployments, this`queue, this`clock, this`trace
      ensures Valid()
      ensures ok <==> !Text.IsBlank(spec.name) && !Text.IsBlank(spec.image) && !Has(old(deployments), id)
      ensures !ok ==> trace == old(trace)
      ensures ok ==> PassOutcome(id, Revisions.NewDeployment(spec), old(workloads), placed, created, workloads, r)
      ensures ok ==> Get(deployments, id) == Some(Revisions.NewDeployment(spec).(status := DeploymentRunning))
      ensures ok ==> forall k | k != id :: Get(deployments, k) == Get(old(deployments), k)
    {
      r, placed, created := NotFound, [], 0;
      if Text.IsBlank(spec.name) || Text.IsBlank(spec.image) {
        return false, r, placed, created;
      }
      if Has(deployments, id) {
        return false, r, placed, created;
      }
      var dep := Revisions.NewDeployment(spec);
      Revisions.NewIsWellFormed(spec);
      WriteRecord(id, dep);
      r, placed, created := ReconcileFirst(id, dep, now, secrets);
      WriteRecord(id, dep.(status := DeploymentRunning));
      return true, r, placed, created;
    }

    /** A record is written; every other one stays. */
    method WriteRecord(id: string, dep: Deployment)
      requires Valid() && Revisions.WellFormed(dep)
      requires Has(deployments, id) ==> Get(deployments, id).value.history <= dep.history
      modifies this`deployments, this`trace
      ensures Valid() && Get(deployments, id) == Some(dep)
      ensures forall k | k != id :: Get(deployments, k) == Get(old(deployments), k)
    {
      AllPut(deployments, id, dep);
      WriteDeployment(id, dep);
    }

    /** The first pass over a new record; being Stable it cannot be overdue. */
    method ReconcileFirst(id: string, dep: Deployment, now: int, secrets: bool)
        returns (r: PassResult, ghost placed: seq<Entry<Workload>>, ghost created: nat)
      requires Valid() && Get(deployments, id) == Some(dep) && dep.phase == Stable
      modifies this`nodes, this`workloads, this`deployments, this`queue, this`clock, this`trace
      ensures Valid() && PassOutcome(id, dep, old(workloads), placed, created, workloads, r)
      ensures Has(deployments, id) && Get(deployments, id).value.history == dep.history
      ensures forall k | k != id :: Get(deployments, k) == Get(old(deployments), k)
    {
      ghost var before := deployments;
      r, placed, created := ReconcileDeployment(id, now, secrets);
      AllPut(before, id, RecordAfter(id, dep, workloads, r));
    }

    /** UpdateDeployment. */
    method UpdateDeployment(id: string, next: DeploymentSpec, now: int) returns (ok: bool)
      requires Valid()
      modifies this`deployments, this`trace
      ensures Valid() && ok == Has(old(deployments), id)
      ensures deployments == if ok then Put(old(deployments), id, Revisions.Updated(Get(old(deployments), id).value, next, now)) else old(deployments)
      ensures ok ==> && Has(deployments, id)
                     && Revisions.Succeeds(Get(old(deployments), id).value, Get(deployments, id).value)
                     && Revisions.TakesOver(Get(old(deployments), id).value.spec, next, Get(deployments, id).value.spec)
                     && forall k | k != id :: Get(deployments, k) == Get(old(deployments), k)
    {
      var found := Get(deployments, id);
      if found.None? {
        return false;
      }
      Revisions.UpdateIsWellFormed(found.value, next, now);
      Revisions.UpdateSucceeds(found.value, next, now);
      Revisions.UpdateTakesOver(found.value, next, now);
      AllPut(deployments, id, Revisions.Updated(found.value, next, now));
      WriteDeployment(id, Revisions.Updated(found.value, next, now));
      return true;
    }

    /** RollbackDeployment: fails for an unknown deployment or an unrecorded target. */
    method RollbackDeployment(id: string, target: int, now: int) returns (ok: bool)
      requires Valid()
      modifies this`deployments, this`trace
      ensures Valid()
      ensures ok <==> Has(old(deployments), id) && Revisions.RolledBack(Get(old(deployments), id).value, target, now).Some?
      ensures deployments == if ok then Put(old(deployments), id, Revisions.RolledBack(Get(old(deployments), id).value, target, now).value)
                             else old(deployments)
    {
      var found := Get(deployments, id);
      if found.None? {
        return false;
      }
      var d := found.value;
      if |d.history| == 0 {
        return false;
      }
      var entry := Revisions.FindRevision(d.history, Revisions.DefaultTarget(d, target));
      if entry.None? {
        return false;
      }
      Revisions.RollbackExactly(d, target, now);
      WriteDeployment(id, Revisions.Restored(d, entry.value, Progressing, now));
      return true;
    }

    /** Until its record is removed, a deployment's stored history only grows, whatever methods are called. */
    lemma StoredHistoryGrows(earlier: seq<Step>, since: seq<Step>, id: string)
      requires Valid() && trace == earlier + since && Has(Run(earlier).deployments, id) && DropDeployment(id) !in since
      ensures Has(deployments, id)
      ensures Get(Run(earlier).deployments, id).value.history <= Get(deployments, id).value.history
    {
      History.HistoryOnlyGrows(earlier, since, id);
    }

    // ----- the queue -----

    /** PollAssignments: pop the first assignments under the node's prefix. */
    method PollAssignments(node: string, max: int) returns (out: seq<Assignment>)
      requires Valid()
      modifies this`queue, this`trace
      ensures Valid()
      ensures var limit := if max <= 0 then 10 else max;
              && out == Recs(Popped(old(Store()), node, limit)) && |out| <= limit
              && trace == old(trace) + [Pop(node, limit)]
    {
      var limit := if max <= 0 then 10 else max;
      Protocol.PopTakesAsAsked(Store(), node, limit);
      RecsAt(Popped(Store(), node, limit));
      TidyHolds(trace);
      var taken := ScanPrefix(queue, AssignmentPrefix(node), limit);
      Advance(trace, Pop(node, limit), clock);
      queue := DeleteAll(queue, taken);
      out := Values(taken);
      trace := trace + [Pop(node, limit)];
    }
  }

  method DeleteAll<V>(t: seq<Entry<V>>, gone: seq<Entry<V>>) returns (out: seq<Entry<V>>)
    ensures out == RemoveAll(t, gone)
  {
    out := t;
    for i := 0 to |gone|
      invariant RemoveAll(out, gone[i..]) == RemoveAll(t, gone)
    {
      assert gone[i..][1..] == gone[i + 1..];
      out := Remove(out, gone[i].id);
    }
  }

  method Values<V>(t: seq<Entry<V>>) returns (out: seq<V>)
    ensures out == Recs(t)
  {
    out := [];
    for i := 0 to |t|
      invariant out + Recs(t[i..]) == Recs(t)
    {
      assert t[i..] == [t[i]] + t[i + 1..];
      out := out + [t[i].rec];
    }
  }
}
