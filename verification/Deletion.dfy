/** What becomes of the workloads of a deployment that nothing is placed for any more. */
module Deletion {
  import opened Tables
  import opened Types
  import opened Cluster
  import opened Reconciliation

  /** A step that deletes the record of a workload: its Terminated report, or an eviction. */
  predicate Removes(step: Step, wid: string) {
    step == Evict(wid) || (step.Report? && step.wid == wid && step.reported == WorkloadStatus.Terminated)
  }

  predicate Owned(s: State, wid: string, dep: string) {
    Has(s.workloads, wid) && Get(s.workloads, wid).value.deploymentId == dep
  }

  ghost predicate NothingPlaced(more: seq<Step>, dep: string) {
    forall i | 0 <= i < |more| :: !(more[i].Place? && more[i].dep == dep)
  }

  ghost predicate Spared(more: seq<Step>, wid: string) {
    forall i | 0 <= i < |more| :: !Removes(more[i], wid)
  }

  lemma OneStepLess(more: seq<Step>, wid: string, dep: string)
    requires more != [] && NothingPlaced(more, dep)
    ensures NothingPlaced(more[..|more| - 1], dep) && !(more[|more| - 1].Place? && more[|more| - 1].dep == dep)
    ensures Spared(more, wid) <==> Spared(more[..|more| - 1], wid) && !Removes(more[|more| - 1], wid)
  {
    var n := |more| - 1;
    assert forall i | 0 <= i < n :: more[..n][i] == more[i];
  }

  /** Whether a workload is stored for the deployment after a step that places nothing for it. */
  lemma OwnedAfterStep(s: State, step: Step, wid: string, dep: string)
    requires Tidy(s) && Lifecycle(s) && Enabled(s, step) && !(step.Place? && step.dep == dep)
    ensures Owned(Apply(s, step), wid, dep) <==> Owned(s, wid, dep) && !Removes(step, wid)
  {
    StepStores(s, step, wid);
    match step
    case Place(d, k, node, created, stamp) => GetPut(s.workloads, k, NewWorkload(Get(s.deployments, d).value, d, node, created), wid);
    case Evict(k) => GetRemove(s.workloads, k, wid);
    case Mark(k, stamp) => GetPut(s.workloads, k, Get(s.workloads, k).value.(status := Terminating), wid);
    case Report(k, status, container) =>
      if Has(s.workloads, k) {
        GetRemove(s.workloads, k, wid);
        GetPut(s.workloads, k, Reported(Get(s.workloads, k).value, status, container), wid);
      }
    case DropDeployment(d) => SweepRemovesNothing(s, d);
    case _ =>
  }

  /** While nothing is placed for it, a deployment keeps exactly the workloads that no step has removed. */
  lemma {:induction false} OwnedAfterRun(trace: seq<Step>, more: seq<Step>, wid: string, dep: string)
    requires Admissible(trace) && Admissible(trace + more) && NothingPlaced(more, dep)
    ensures Owned(Run(trace + more), wid, dep) <==> Owned(Run(trace), wid, dep) && Spared(more, wid)
    decreases more
  {
    if more == [] {
      assert trace + more == trace;
    } else {
      var n := |more| - 1;
      LastStep(trace, more);
      OneStepLess(more, wid, dep);
      OwnedAfterRun(trace, more[..n], wid, dep);
      RecordsHold(trace + more[..n]);
      OwnedAfterStep(Run(trace + more[..n]), more[n], wid, dep);
    }
  }

  lemma NoneOwned(s: State, dep: string)
    requires Tidy(s)
    ensures Filter(s.workloads, OfDeployment(dep)) == [] <==> forall wid :: !Owned(s, wid, dep)
  {
    FilterMembers(s.workloads, OfDeployment(dep));
    if Filter(s.workloads, OfDeployment(dep)) == [] {
      NoneLeft(s.workloads, OfDeployment(dep));
      forall wid ensures !Owned(s, wid, dep) {
        GetMember(s.workloads, wid);
      }
    } else {
      var e := Filter(s.workloads, OfDeployment(dep))[0];
      assert e in Filter(s.workloads, OfDeployment(dep));
      GetEntry(s.workloads, e);
      assert Owned(s, e.id, dep);
    }
  }

  ghost predicate EachRemoved(s: State, more: seq<Step>, dep: string) {
    forall wid | Owned(s, wid, dep) :: exists i | 0 <= i < |more| :: Removes(more[i], wid)
  }

  /**
   * From any state of any run, while nothing is placed for a deployment, no workload names it any more
   * exactly when each one that did has been reported Terminated or evicted; duplicate and late reports change nothing.
   */
  lemma RemainderEmptiesExactly(trace: seq<Step>, more: seq<Step>, dep: string)
    requires Admissible(trace) && Admissible(trace + more) && NothingPlaced(more, dep)
    ensures Filter(Run(trace + more).workloads, OfDeployment(dep)) == [] <==> EachRemoved(Run(trace), more, dep)
  {
    TidyHolds(trace + more);
    NoneOwned(Run(trace + more), dep);
    forall wid ensures Owned(Run(trace + more), wid, dep) <==> Owned(Run(trace), wid, dep) && Spared(more, wid) {
      OwnedAfterRun(trace, more, wid, dep);
    }
    if EachRemoved(Run(trace), more, dep) {
      forall wid ensures !Owned(Run(trace + more), wid, dep) {
        if Owned(Run(trace), wid, dep) {
          var i :| 0 <= i < |more| && Removes(more[i], wid);
        }
      }
    }
  }

  /** Each Terminated report of a workload of the deployment leaves one fewer. */
  lemma ReportLeavesOneFewer(s: State, dep: string, wid: string, container: string)
    requires Tidy(s) && Owned(s, wid, dep)
    ensures |Filter(Apply(s, Report(wid, WorkloadStatus.Terminated, container)).workloads, OfDeployment(dep))|
         == |Filter(s.workloads, OfDeployment(dep))| - 1
  {
    RemoveCount(s.workloads, wid, OfDeployment(dep));
  }
}
