/** Canary promotion on workload records: passes of reconcileDeployment and status reports of workers. */
module Promotion {
  import opened Tables
  import opened Types
  import opened Reconciliation
  import opened Orchestration
  import opened PassProperties
  import Cluster
  import Rollout

  type Table = seq<Entry<Workload>>

  /** The deployment rolls out by canary, and nothing has failed. */
  predicate ByCanary(d: Deployment) {
    d.spec.replicas >= 1 && d.spec.rollout.strategy == Rollout.CANARY
  }

  function Target(d: Deployment): int
    requires ByCanary(d)
  {
    Rollout.CanaryTarget(d.spec.replicas, Rollout.Normalize(d.spec.rollout).canaryPercentage)
  }

  function MaxSurge(d: Deployment): int {
    Rollout.Normalize(d.spec.rollout).maxSurge
  }

  /** The table after a worker reports an active workload Running. */
  function CameUp(ws: Table, wid: string, container: string): Table
    requires Has(ws, wid)
  {
    Put(ws, wid, Cluster.Reported(Get(ws, wid).value, Running, container))
  }

  /** A pass of this deployment, however far its placements get, or a report that an active workload is Running. */
  ghost predicate Move(id: string, d: Deployment, a: Table, b: Table) {
    || (exists placed, created: nat, r :: PassOutcome(id, d, a, placed, created, b, r))
    || (exists wid, container :: Has(a, wid) && IsActive(Get(a, wid).value) && b == CameUp(a, wid, container))
  }

  /** A failure-free run of tables. */
  ghost predicate CanaryRun(id: string, d: Deployment, tables: seq<Table>) {
    && tables != []
    && (forall i | 0 <= i < |tables| :: Ordered(tables[i]))
    && forall i | 0 <= i < |tables| - 1 :: Move(id, d, tables[i], tables[i + 1])
  }

  ghost predicate Promoted(id: string, d: Deployment, ws: Table) {
    d.spec.replicas >= 1 && PlanAt(id, d, ws).phase == CanaryPromoting
  }

  lemma TargetInRange(d: Deployment)
    requires ByCanary(d)
    ensures 1 <= Target(d) <= d.spec.replicas && MaxSurge(d) >= 0
  {
    Rollout.CanaryTargetRange(d.spec.replicas, Rollout.Normalize(d.spec.rollout).canaryPercentage);
  }

  lemma PromotedExactly(id: string, d: Deployment, ws: Table)
    requires ByCanary(d)
    ensures Promoted(id, d, ws) <==>
              && CountsOf(ws, id, d.currentRevision).prior > 0
              && |Filter(ws, LatestRunningOf(id, d.currentRevision))| >= Target(d)
  {
  }

  // ----- too little surge -----

  /** All old workloads are active and the surge is used up at most. */
  ghost predicate Starved(id: string, d: Deployment, ws: Table) {
    var c := CountsOf(ws, id, d.currentRevision);
    c.prior == d.spec.replicas && c.latest <= MaxSurge(d)
  }

  lemma RunningWithinLatest(ws: Table, id: string, rev: int)
    ensures |Filter(ws, LatestRunningOf(id, rev))| <= CountsOf(ws, id, rev).latest
  {
    AllSatisfy(ws, LatestOf(id, rev), LatestRunningOf(id, rev));
  }

  /** A report that an active workload is Running moves neither count. */
  lemma ComingUpCounts(ws: Table, wid: string, container: string, id: string, rev: int)
    requires Ordered(ws) && Has(ws, wid) && IsActive(Get(ws, wid).value)
    ensures CountsOf(CameUp(ws, wid, container), id, rev) == CountsOf(ws, id, rev)
  {
    var w := Cluster.Reported(Get(ws, wid).value, Running, container);
    PutCount(ws, wid, w, PriorOf(id, rev));
    PutCount(ws, wid, w, LatestOf(id, rev));
  }

  lemma StarvedPass(id: string, d: Deployment, a: Table, placed: Table, created: nat, b: Table, r: PassResult)
    requires ByCanary(d) && MaxSurge(d) < Target(d) && Starved(id, d, a) && PassOutcome(id, d, a, placed, created, b, r)
    ensures Starved(id, d, b)
  {
    TargetInRange(d);
    RunningWithinLatest(a, id, d.currentRevision);
    PromotedExactly(id, d, a);
  }

  lemma StarvedMove(id: string, d: Deployment, a: Table, b: Table)
    requires ByCanary(d) && MaxSurge(d) < Target(d) && Ordered(a) && Starved(id, d, a) && Move(id, d, a, b)
    ensures Starved(id, d, b)
  {
    if placed, created: nat, r :| PassOutcome(id, d, a, placed, created, b, r) {
      StarvedPass(id, d, a, placed, created, b, r);
    } else {
      var wid, container :| Has(a, wid) && IsActive(Get(a, wid).value) && b == CameUp(a, wid, container);
      ComingUpCounts(a, wid, container, id, d.currentRevision);
    }
  }

  lemma {:induction false} StaysStarved(id: string, d: Deployment, tables: seq<Table>, i: nat)
    requires ByCanary(d) && MaxSurge(d) < Target(d) && CanaryRun(id, d, tables) && Starved(id, d, tables[0]) && i < |tables|
    ensures Starved(id, d, tables[i]) && !Promoted(id, d, tables[i])
  {
    if i > 0 {
      StaysStarved(id, d, tables, i - 1);
      StarvedMove(id, d, tables[i - 1], tables[i]);
    }
    RunningWithinLatest(tables[i], id, d.currentRevision);
    PromotedExactly(id, d, tables[i]);
  }

  // ----- enough surge -----

  lemma {:induction false} SomeNotRunning(ws: Table, id: string, rev: int) returns (e: Entry<Workload>)
    requires Ordered(ws) && |Filter(ws, LatestRunningOf(id, rev))| < CountsOf(ws, id, rev).latest
    ensures e in ws && LatestOf(id, rev)(e.rec) && e.rec.status == WorkloadStatus.Pending && Get(ws, e.id) == Some(e.rec)
  {
    AllSatisfy(ws, LatestOf(id, rev), LatestRunningOf(id, rev));
    e :| e in ws && LatestOf(id, rev)(e.rec) && !LatestRunningOf(id, rev)(e.rec);
    GetEntry(ws, e);
  }

  /** Reports bring the new workloads up one after the other. */
  lemma {:induction false} AllComeUp(id: string, d: Deployment, ws: Table) returns (tables: seq<Table>)
    requires Ordered(ws)
    ensures CanaryRun(id, d, tables) && tables[0] == ws
    ensures var last := tables[|tables| - 1];
            && CountsOf(last, id, d.currentRevision) == CountsOf(ws, id, d.currentRevision)
            && |Filter(last, LatestRunningOf(id, d.currentRevision))| == CountsOf(ws, id, d.currentRevision).latest
    decreases CountsOf(ws, id, d.currentRevision).latest - |Filter(ws, LatestRunningOf(id, d.currentRevision))|
  {
    var rev := d.currentRevision;
    RunningWithinLatest(ws, id, rev);
    if |Filter(ws, LatestRunningOf(id, rev))| == CountsOf(ws, id, rev).latest {
      tables := [ws];
    } else {
      var e := SomeNotRunning(ws, id, rev);
      var next := CameUp(ws, e.id, "");
      ComingUpCounts(ws, e.id, "", id, rev);
      PutCount(ws, e.id, Cluster.Reported(e.rec, Running, ""), LatestRunningOf(id, rev));
      PutOrdered(ws, e.id, Cluster.Reported(e.rec, Running, ""));
      RunningWithinLatest(next, id, rev);
      assert Move(id, d, ws, next);
      var rest := AllComeUp(id, d, next);
      tables := Prepend(id, d, ws, rest);
    }
  }

  lemma Prepend(id: string, d: Deployment, ws: Table, rest: seq<Table>) returns (tables: seq<Table>)
    requires Ordered(ws) && CanaryRun(id, d, rest) && Move(id, d, ws, rest[0])
    ensures tables == [ws] + rest && CanaryRun(id, d, tables) && tables[|tables| - 1] == rest[|rest| - 1]
  {
    tables := [ws] + rest;
    forall i | 0 <= i < |tables| - 1 ensures Move(id, d, tables[i], tables[i + 1]) {
      if i > 0 {
        assert tables[i] == rest[i - 1] && tables[i + 1] == rest[i];
      }
    }
  }

  /** Some completed pass starts from this table: its placements all succeed. */
  ghost predicate CanComplete(id: string, d: Deployment, ws: Table) {
    exists placed, created: nat, after, r :: PassOutcome(id, d, ws, placed, created, after, r) && r.Completed? && Ordered(after)
  }

  ghost predicate Reaches(id: string, d: Deployment, ws: Table, tables: seq<Table>) {
    CanaryRun(id, d, tables) && tables[0] == ws && Promoted(id, d, tables[|tables| - 1])
  }

  lemma PromotionComes(id: string, d: Deployment, ws: Table) returns (tables: seq<Table>)
    requires ByCanary(d) && Ordered(ws) && CountsOf(ws, id, d.currentRevision) == Rollout.Counts(d.spec.replicas, 0)
    requires MaxSurge(d) >= Target(d) && CanComplete(id, d, ws)
    ensures Reaches(id, d, ws, tables)
  {
    var placed, created: nat, after, r :| PassOutcome(id, d, ws, placed, created, after, r) && r.Completed? && Ordered(after);
    TargetInRange(d);
    RunningWithinLatest(ws, id, d.currentRevision);
    PromotedExactly(id, d, ws);
    assert CountsOf(after, id, d.currentRevision) == Rollout.Counts(d.spec.replicas, Target(d));
    assert Move(id, d, ws, after);
    var rest := AllComeUp(id, d, after);
    tables := Prepend(id, d, ws, rest);
    PromotedExactly(id, d, tables[|tables| - 1]);
  }

  /**
   * From `replicas` old and no new active workloads, where the placements of a pass can succeed, passes and
   * Running reports can lead to promotion exactly when maxSurge is at least the canary target.
   */
  lemma PromotionReachableOnRecords(id: string, d: Deployment, ws: Table)
    requires ByCanary(d) && Ordered(ws) && CountsOf(ws, id, d.currentRevision) == Rollout.Counts(d.spec.replicas, 0)
    requires CanComplete(id, d, ws)
    ensures (exists tables :: Reaches(id, d, ws, tables)) <==> MaxSurge(d) >= Target(d)
  {
    TargetInRange(d);
    if MaxSurge(d) >= Target(d) {
      var tables := PromotionComes(id, d, ws);
    } else {
      forall tables ensures !Reaches(id, d, ws, tables) {
        if CanaryRun(id, d, tables) && tables[0] == ws {
          StaysStarved(id, d, tables, |tables| - 1);
        }
      }
    }
  }
}
