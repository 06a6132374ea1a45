/** What the outcome of a reconcile pass means for the workloads of its deployment. */
module PassProperties {
  import opened Tables
  import opened Types
  import opened Reconciliation
  import opened Orchestration
  import Revisions
  import Rollout

  function PlanAt(id: string, d: Deployment, ws: seq<Entry<Workload>>): Rollout.Plan
    requires d.spec.replicas >= 1
  {
    Rollout.PlanOf(d.spec.replicas, d.spec.rollout, CountsOf(ws, id, d.currentRevision), |Filter(ws, LatestRunningOf(id, d.currentRevision))|)
  }

  function StillActive(id: string): Workload -> bool {
    (w: Workload) => w.deploymentId == id && (w.status == Running || w.status == Pending)
  }

  function CurrentActive(id: string, rev: int): Workload -> bool {
    (w: Workload) => w.deploymentId == id && (w.status == Running || w.status == Pending) && w.version == rev
  }

  function ActiveCount(ws: seq<Entry<Workload>>, id: string): nat {
    |Filter(ws, StillActive(id))|
  }

  function CurrentCount(ws: seq<Entry<Workload>>, id: string, rev: int): nat {
    |Filter(ws, CurrentActive(id, rev))|
  }

  lemma {:induction false} CountsMean(ws: seq<Entry<Workload>>, id: string, rev: int)
    ensures ActiveCount(ws, id) == CountsOf(ws, id, rev).Total()
    ensures CurrentCount(ws, id, rev) == CountsOf(ws, id, rev).latest
  {
    if ws != [] {
      CountsMean(ws[1..], id, rev);
    }
  }

  /** No workload of an older revision is Running or Pending. */
  ghost predicate OldGone(ws: seq<Entry<Workload>>, id: string, rev: int) {
    forall e | e in ws && e.rec.deploymentId == id && (e.rec.status == Running || e.rec.status == Pending) :: e.rec.version == rev
  }

  /**
   * Surge and availability on records: however far the placements get, the active count stays
   * within the surge budget; a completed pass outside phase Canary ends with at most `replicas`
   * active workloads and not below the floor it started above.
   */
  lemma PassKeepsBudgets(id: string, d: Deployment, before: seq<Entry<Workload>>, placed: seq<Entry<Workload>>, created: nat,
                         after: seq<Entry<Workload>>, r: PassResult)
    requires PassOutcome(id, d, before, placed, created, after, r)
    ensures var surge := if d.spec.rollout.maxSurge > 0 then d.spec.rollout.maxSurge else 0;
            ActiveCount(placed, id) <= ActiveCount(before, id) || ActiveCount(placed, id) <= d.spec.replicas + surge
    ensures var away := if d.spec.rollout.maxUnavailable > 0 then d.spec.rollout.maxUnavailable else 0;
            r.Completed? && r.plan.phase != Phase.Canary ==>
              && ActiveCount(after, id) <= d.spec.replicas
              && (ActiveCount(after, id) >= ActiveCount(before, id) || ActiveCount(after, id) >= d.spec.replicas - away)
  {
    var rev := d.currentRevision;
    var b := Rollout.BudgetOf(d.spec.replicas, d.spec.rollout);
    var c := CountsOf(before, id, rev);
    CountsMean(before, id, rev);
    CountsMean(placed, id, rev);
    CountsMean(after, id, rev);
    Rollout.SurgeBound(c, b, PlanAt(id, d, before).target);
    if r.Completed? && r.plan.phase != Phase.Canary {
      Rollout.PlannedPassRolls(c, b, r.plan);
      Rollout.AvailabilityBound(c, b);
    }
  }

  /**
   * And it uses them up: a completed pass has reached its target of current workloads or the surge ceiling, and
   * outside phase Canary no old workload is left active unless the active count is down to the floor.
   */
  lemma PassUsesBudgets(id: string, d: Deployment, before: seq<Entry<Workload>>, placed: seq<Entry<Workload>>, created: nat,
                        after: seq<Entry<Workload>>, r: PassResult)
    requires PassOutcome(id, d, before, placed, created, after, r) && r.Completed?
    ensures var surge := if d.spec.rollout.maxSurge > 0 then d.spec.rollout.maxSurge else 0;
            CurrentCount(placed, id, d.currentRevision) >= r.plan.target || ActiveCount(placed, id) >= d.spec.replicas + surge
    ensures var away := if d.spec.rollout.maxUnavailable > 0 then d.spec.rollout.maxUnavailable else 0;
            r.plan.phase != Phase.Canary ==>
              OldGone(after, id, d.currentRevision) || ActiveCount(after, id) <= d.spec.replicas - away
  {
    var rev := d.currentRevision;
    var b := Rollout.BudgetOf(d.spec.replicas, d.spec.rollout);
    var c := CountsOf(before, id, rev);
    CountsMean(placed, id, rev);
    CountsMean(after, id, rev);
    if r.plan.phase != Phase.Canary {
      Rollout.PlannedPassRolls(c, b, r.plan);
      Rollout.FloorIsReached(c, b);
      if CountsOf(after, id, rev).prior == 0 {
        NoneLeft(after, PriorOf(id, rev));
      }
    }
  }

  function UpAndRunning(id: string): Workload -> bool {
    (w: Workload) => w.deploymentId == id && w.status == Running
  }

  lemma {:induction false} RunningMeans(ws: seq<Entry<Workload>>, id: string)
    ensures |Filter(ws, UpAndRunning(id))| == |Filter(ws, RunningActiveOf(id))|
  {
    if ws != [] {
      RunningMeans(ws[1..], id);
    }
  }

  /** Exactly `replicas` workloads are Running or Pending, and all of them are Running and of this revision. */
  ghost predicate Done(ws: seq<Entry<Workload>>, id: string, rev: int, replicas: int) {
    && ActiveCount(ws, id) == replicas
    && forall e | e in ws && e.rec.deploymentId == id && (e.rec.status == Running || e.rec.status == Pending) ::
         e.rec.status == Running && e.rec.version == rev
  }

  /** The record a pass writes: its specification and history stay, the counts are those of the table, and it is Stable exactly when done. */
  lemma PassRecords(id: string, d: Deployment, before: seq<Entry<Workload>>, placed: seq<Entry<Workload>>, created: nat,
                    after: seq<Entry<Workload>>, r: PassResult)
    requires PassOutcome(id, d, before, placed, created, after, r) && Revisions.WellFormed(d)
    ensures var e := RecordAfter(id, d, after, r);
            && e.spec == d.spec && e.history == d.history && e.currentRevision == d.currentRevision && e.generation == d.generation
            && e.startedAt == d.startedAt && e.finalizers == d.finalizers && e.deletionMarked == d.deletionMarked
            && (r.Unschedulable? ==> e.status == DeploymentPending && e.phase == r.plan.phase)
            && (r.Completed? ==>
                  var ready := |Filter(after, UpAndRunning(id))|;
                  && e.updatedReplicas == CurrentCount(after, id, d.currentRevision) && e.readyReplicas == ready
                  && e.unavailableReplicas == (if ready < d.spec.replicas then d.spec.replicas - ready else 0)
                  && e.observedGeneration == d.generation
                  && (if Done(after, id, d.currentRevision, d.spec.replicas)
                      then e.phase == Stable && e.status == DeploymentRunning
                      else e.phase == r.plan.phase && e.phase != Stable && e.status == DeploymentPending))
  {
    StatusWritesStayWellFormed(d, 0);
    CountsMean(after, id, d.currentRevision);
    ActiveSplits(after, id, d.currentRevision);
    RunningMeans(after, id);
    assert ExactlyStable(after, id, d.currentRevision, d.spec.replicas) <==> Done(after, id, d.currentRevision, d.spec.replicas);
  }

  /** The record a Terminated report writes: it is called Stable whatever is ready, and the counts are those it was given. */
  lemma TerminationRecords(d: Deployment, active: nat, ready: nat)
    requires active <= d.spec.replicas
    ensures var e := AfterTermination(d, active, ready);
            && e.spec == d.spec && e.history == d.history && e.currentRevision == d.currentRevision && e.generation == d.generation
            && e.startedAt == d.startedAt && e.finalizers == d.finalizers && e.deletionMarked == d.deletionMarked
            && e.phase == Stable && e.status == DeploymentRunning && e.observedGeneration == d.generation
            && e.updatedReplicas == active && e.readyReplicas == ready
            && e.unavailableReplicas == if ready < d.spec.replicas then d.spec.replicas - ready else 0
  {
  }

  /** A completed pass outside phase Canary leaves the table as it is exactly at the goal, or with both budgets zero and the right total. */
  lemma PassLeavesTableExactly(id: string, d: Deployment, before: seq<Entry<Workload>>, placed: seq<Entry<Workload>>, created: nat,
                               after: seq<Entry<Workload>>, r: PassResult)
    requires PassOutcome(id, d, before, placed, created, after, r) && r.Completed? && r.plan.phase != Phase.Canary
    ensures var b := Rollout.BudgetOf(d.spec.replicas, d.spec.rollout);
            var c := CountsOf(before, id, d.currentRevision);
            after == before <==> (|| c == b.Goal()
                                  || (b.maxSurge == 0 && b.maxUnavailable == 0 && c.Total() == b.replicas))
  {
    var rev := d.currentRevision;
    var b := Rollout.BudgetOf(d.spec.replicas, d.spec.rollout);
    var c := CountsOf(before, id, rev);
    Rollout.PlannedPassRolls(c, b, r.plan);
    Rollout.PassIsIdleExactly(c, b);
    if Rollout.Pass(c, b) == c {
      assert placed == before;
      VictimsAreActive(Filter(before, PriorOf(id, rev)), 0);
      assert FirstVictims(before, id, rev, b) == [];
      assert ExcessVictims(before, id, rev, b) == [];
    }
  }

  /** A pass in phase Canary marks nothing: every workload of the deployment is as before, and the new ones stay within the target. */
  lemma CanaryPassMarksNothing(id: string, d: Deployment, before: seq<Entry<Workload>>, placed: seq<Entry<Workload>>, created: nat,
                               after: seq<Entry<Workload>>, r: PassResult)
    requires PassOutcome(id, d, before, placed, created, after, r) && r.plan.phase == Phase.Canary
    ensures forall k | Has(before, k) && Get(before, k).value.deploymentId == id :: Get(after, k) == Get(before, k)
    ensures forall k | Has(after, k) && !Has(before, k) :: Get(after, k).value.status == Pending
    ensures CountsOf(after, id, d.currentRevision).latest <= Rollout.MaxInt(CountsOf(before, id, d.currentRevision).latest, r.plan.target)
    ensures 1 <= r.plan.target <= d.spec.replicas
  {
  }

  /** The excess step only ever meets current-revision workloads, and only when there were too many of them to begin with. */
  lemma ExcessStepSparesOldRevisions(id: string, d: Deployment, before: seq<Entry<Workload>>, placed: seq<Entry<Workload>>, created: nat,
                                     after: seq<Entry<Workload>>, r: PassResult)
    requires PassOutcome(id, d, before, placed, created, after, r) && r.Completed? && r.plan.phase != Phase.Canary
    ensures var rev := d.currentRevision;
            var b := Rollout.BudgetOf(d.spec.replicas, d.spec.rollout);
            var once := MarkedTable(placed, FirstVictims(placed, id, rev, b));
            ExcessVictims(once, id, rev, b) != [] ==>
              && CountsOf(once, id, rev).prior == 0
              && CountsOf(before, id, rev).latest > d.spec.replicas
              && forall v | v in ExcessVictims(once, id, rev, b) :: v.rec.version == rev
  {
    var rev := d.currentRevision;
    var b := Rollout.BudgetOf(d.spec.replicas, d.spec.rollout);
    var c := CountsOf(before, id, rev);
    Rollout.ExcessMeetsOnlyLatest(c, b, r.plan.target);
    ScaledDownCounts(placed, id, rev, b);
    var once := MarkedTable(placed, FirstVictims(placed, id, rev, b));
    MarkedOrdered(placed, FirstVictims(placed, id, rev, b));
    if ExcessVictims(once, id, rev, b) != [] {
      ExcessDeletes(once, id, rev, Rollout.Excess(CountsOf(once, id, rev), b));
    }
  }

  /** A table before and after one completed pass outside phase Canary. */
  ghost predicate RollingPass(id: string, d: Deployment, before: seq<Entry<Workload>>, after: seq<Entry<Workload>>) {
    exists placed, created: nat, r ::
      PassOutcome(id, d, before, placed, created, after, r) && r.Completed? && r.plan.phase != Phase.Canary
  }

  lemma RollingPassCounts(id: string, d: Deployment, before: seq<Entry<Workload>>, after: seq<Entry<Workload>>)
    requires RollingPass(id, d, before, after)
    ensures var b := Rollout.BudgetOf(d.spec.replicas, d.spec.rollout);
            b.Valid() && CountsOf(after, id, d.currentRevision) == Rollout.Pass(CountsOf(before, id, d.currentRevision), b)
  {
    var placed, created: nat, r :|
      PassOutcome(id, d, before, placed, created, after, r) && r.Completed? && r.plan.phase != Phase.Canary;
    Rollout.PlannedPassRolls(CountsOf(before, id, d.currentRevision), Rollout.BudgetOf(d.spec.replicas, d.spec.rollout), r.plan);
  }

  /** Records that a pass cannot tell apart: it reads the specification and the revision, and nothing else. */
  predicate SamePlan(d: Deployment, e: Deployment) {
    d.spec == e.spec && d.currentRevision == e.currentRevision
  }

  lemma PassReadsPlan(id: string, d: Deployment, e: Deployment, before: seq<Entry<Workload>>, placed: seq<Entry<Workload>>,
                      created: nat, after: seq<Entry<Workload>>, r: PassResult)
    requires SamePlan(d, e)
    ensures PassOutcome(id, d, before, placed, created, after, r) <==> PassOutcome(id, e, before, placed, created, after, r)
  {
  }

  /** Between pass i - 1 and pass i no workload becomes active or inactive. */
  ghost predicate Linked(befores: seq<seq<Entry<Workload>>>, afters: seq<seq<Entry<Workload>>>, id: string, rev: int, i: nat)
    requires 1 <= i < |befores| == |afters|
  {
    CountsOf(befores[i], id, rev) == CountsOf(afters[i - 1], id, rev)
  }

  /** Pass i, and what may have happened since the pass before it. */
  ghost predicate PassAt(id: string, ds: seq<Deployment>, befores: seq<seq<Entry<Workload>>>, afters: seq<seq<Entry<Workload>>>, i: nat)
    requires i < |ds| == |befores| == |afters|
  {
    && SamePlan(ds[i], ds[0]) && RollingPass(id, ds[i], befores[i], afters[i])
    && (i > 0 ==> Linked(befores, afters, id, ds[0].currentRevision, i))
  }

  /** A run of passes over one deployment: pass i finds the record ds[i] and turns befores[i] into afters[i]. */
  ghost predicate PassRun(id: string, ds: seq<Deployment>, befores: seq<seq<Entry<Workload>>>, afters: seq<seq<Entry<Workload>>>) {
    && |ds| == |befores| == |afters| >= 1 && ds[0].spec.replicas >= 1
    && forall i: nat | i < |ds| :: PassAt(id, ds, befores, afters, i)
  }

  lemma RunPassCounts(id: string, ds: seq<Deployment>, befores: seq<seq<Entry<Workload>>>, afters: seq<seq<Entry<Workload>>>, n: nat)
    requires PassRun(id, ds, befores, afters) && n < |ds|
    ensures var b := Rollout.BudgetOf(ds[0].spec.replicas, ds[0].spec.rollout);
            b.Valid() && CountsOf(afters[n], id, ds[0].currentRevision) == Rollout.Pass(CountsOf(befores[n], id, ds[0].currentRevision), b)
    ensures n > 0 ==> Linked(befores, afters, id, ds[0].currentRevision, n)
  {
    assert PassAt(id, ds, befores, afters, n);
    RollingPassCounts(id, ds[n], befores[n], afters[n]);
  }

  lemma {:induction false} CountsFollowPasses(id: string, ds: seq<Deployment>, befores: seq<seq<Entry<Workload>>>,
                                              afters: seq<seq<Entry<Workload>>>, n: nat)
    requires PassRun(id, ds, befores, afters) && n < |ds|
    ensures var b := Rollout.BudgetOf(ds[0].spec.replicas, ds[0].spec.rollout);
            b.Valid() && CountsOf(afters[n], id, ds[0].currentRevision)
                      == Rollout.Passes(CountsOf(befores[0], id, ds[0].currentRevision), b, n + 1)
  {
    var b, first := Rollout.BudgetOf(ds[0].spec.replicas, ds[0].spec.rollout), CountsOf(befores[0], id, ds[0].currentRevision);
    RunPassCounts(id, ds, befores, afters, n);
    Rollout.PassesOneMore(first, b, n);
    if n > 0 {
      CountsFollowPasses(id, ds, befores, afters, n - 1);
    } else {
      assert Rollout.Passes(first, b, 0) == first;
    }
  }

  /**
   * Convergence on records: completed passes between which workloads may change status but none
   * becomes active or inactive end with no old and exactly `replicas` current workloads, once
   * there have been as many as the initial distance, unless both budgets are zero. The record may
   * change from pass to pass in everything but its specification and revision.
   */
  lemma RolloutConverges(id: string, ds: seq<Deployment>, befores: seq<seq<Entry<Workload>>>, afters: seq<seq<Entry<Workload>>>)
    requires PassRun(id, ds, befores, afters)
    ensures var d := ds[0];
            var b := Rollout.BudgetOf(d.spec.replicas, d.spec.rollout);
            var c := CountsOf(befores[0], id, d.currentRevision);
            && b.Valid()
            && (Rollout.CanFinish(c, b) && |befores| >= Rollout.Rank(c, b) ==> CountsOf(afters[|afters| - 1], id, d.currentRevision) == b.Goal())
            && (!Rollout.CanFinish(c, b) ==> CountsOf(afters[|afters| - 1], id, d.currentRevision) != b.Goal())
  {
    CountsFollowPasses(id, ds, befores, afters, |ds| - 1);
    var b := Rollout.BudgetOf(ds[0].spec.replicas, ds[0].spec.rollout);
    Rollout.ConvergedAfter(CountsOf(befores[0], id, ds[0].currentRevision), b, |befores|);
  }

  // ----- consecutive passes -----

  /** The next pass finds what the last one wrote, or what a Terminated report made of it. */
  ghost predicate NextRecord(id: string, d: Deployment, after: seq<Entry<Workload>>, e: Deployment) {
    exists plan, note: Option<(nat, nat)> ::
      e == Noted(RecordAfter(id, d, after, Completed(plan)), note)
  }

  function Noted(d: Deployment, note: Option<(nat, nat)>): Deployment {
    match note
    case None => d
    case Some(n) => AfterTermination(d, n.0, n.1)
  }

  lemma NextRecordKeepsPlan(id: string, d: Deployment, after: seq<Entry<Workload>>, e: Deployment)
    requires Revisions.WellFormed(d) && NextRecord(id, d, after, e)
    ensures SamePlan(e, d) && Revisions.WellFormed(e)
  {
    var plan, note: Option<(nat, nat)> :| e == Noted(RecordAfter(id, d, after, Completed(plan)), note);
    StatusWritesStayWellFormed(d, 0);
  }

  lemma {:induction false} ChainKeepsPlan(id: string, ds: seq<Deployment>, afters: seq<seq<Entry<Workload>>>, i: nat)
    requires |ds| == |afters| && i < |ds| && Revisions.WellFormed(ds[0])
    requires forall j | 1 <= j < |ds| :: NextRecord(id, ds[j - 1], afters[j - 1], ds[j])
    ensures SamePlan(ds[i], ds[0]) && Revisions.WellFormed(ds[i])
  {
    if i > 0 {
      ChainKeepsPlan(id, ds, afters, i - 1);
      NextRecordKeepsPlan(id, ds[i - 1], afters[i - 1], ds[i]);
    }
  }

  /** Consecutive passes, each over the record that the one before wrote, converge. */
  lemma ConsecutivePassesConverge(id: string, ds: seq<Deployment>, befores: seq<seq<Entry<Workload>>>, afters: seq<seq<Entry<Workload>>>)
    requires |ds| == |befores| == |afters| >= 1 && Revisions.WellFormed(ds[0])
    requires forall j | 1 <= j < |ds| :: NextRecord(id, ds[j - 1], afters[j - 1], ds[j])
    requires forall i | 0 <= i < |ds| :: RollingPass(id, ds[i], befores[i], afters[i])
    requires forall i: nat | 1 <= i < |ds| :: Linked(befores, afters, id, ds[0].currentRevision, i)
    ensures var d := ds[0];
            var b := Rollout.BudgetOf(d.spec.replicas, d.spec.rollout);
            var c := CountsOf(befores[0], id, d.currentRevision);
            && b.Valid()
            && (Rollout.CanFinish(c, b) && |befores| >= Rollout.Rank(c, b) ==> CountsOf(afters[|afters| - 1], id, d.currentRevision) == b.Goal())
            && (!Rollout.CanFinish(c, b) ==> CountsOf(afters[|afters| - 1], id, d.currentRevision) != b.Goal())
  {
    forall i: nat | i < |ds| ensures PassAt(id, ds, befores, afters, i) {
      ChainKeepsPlan(id, ds, afters, i);
    }
    RolloutConverges(id, ds, befores, afters);
  }
}
