/** What happens to a deployment's revision history along runs of the control plane. */
module History {
  import opened Tables
  import opened Types
  import opened Cluster
  import Revisions

  /** A written record is well formed and keeps every entry of the record it replaces. */
  ghost predicate Extends(s: State, step: Step) {
    step.WriteDeployment? ==>
      && Revisions.WellFormed(step.deployment)
      && (Has(s.deployments, step.dep) ==> Get(s.deployments, step.dep).value.history <= step.deployment.history)
  }

  /** So does every record written in the run. */
  ghost predicate Kept(trace: seq<Step>) {
    trace == [] || (Kept(trace[..|trace| - 1]) && Extends(Run(trace[..|trace| - 1]), trace[|trace| - 1]))
  }

  lemma KeptExtends(trace: seq<Step>, step: Step)
    requires Kept(trace) && Extends(Run(trace), step)
    ensures Kept(trace + [step])
  {
    assert (trace + [step])[..|trace|] == trace;
  }

  /** Only a removal takes a record away, and only a write changes it. */
  lemma RecordAfterStep(s: State, step: Step, id: string)
    ensures Get(Apply(s, step).deployments, id) ==
              if step.WriteDeployment? && step.dep == id then Some(step.deployment)
              else if step == DropDeployment(id) then None
              else Get(s.deployments, id)
  {
    match step
    case WriteDeployment(k, d) => GetPut(s.deployments, k, d, id);
    case DropDeployment(k) => GetRemove(s.deployments, k, id);
    case _ =>
  }

  lemma {:induction false} RecordsAreWellFormed(trace: seq<Step>, id: string)
    requires Kept(trace) && Has(Run(trace).deployments, id)
    ensures Revisions.WellFormed(Get(Run(trace).deployments, id).value)
  {
    if trace != [] {
      var before, step := trace[..|trace| - 1], trace[|trace| - 1];
      RecordAfterStep(Run(before), step, id);
      if !(step.WriteDeployment? && step.dep == id) {
        RecordsAreWellFormed(before, id);
      }
    }
  }

  /**
   * Until its record is removed, a deployment's stored history only grows: entry i stays revision i + 1 with the
   * specification it was recorded with.
   */
  lemma {:induction false} HistoryOnlyGrows(trace: seq<Step>, more: seq<Step>, id: string)
    requires Kept(trace + more) && Has(Run(trace).deployments, id) && DropDeployment(id) !in more
    ensures Has(Run(trace + more).deployments, id)
    ensures Get(Run(trace).deployments, id).value.history <= Get(Run(trace + more).deployments, id).value.history
    ensures Revisions.WellFormed(Get(Run(trace + more).deployments, id).value)
    decreases more
  {
    if more == [] {
      assert trace + more == trace;
    } else {
      var n := |more| - 1;
      assert (trace + more)[..|trace| + n] == trace + more[..n];
      HistoryOnlyGrows(trace, more[..n], id);
      RecordAfterStep(Run(trace + more[..n]), more[n], id);
    }
    RecordsAreWellFormed(trace + more, id);
  }

  /** So the current revision never falls, and a rollback target that was recorded stays available with its specification. */
  lemma TargetsStay(trace: seq<Step>, more: seq<Step>, id: string, target: int)
    requires Kept(trace) && Kept(trace + more) && Has(Run(trace).deployments, id) && DropDeployment(id) !in more
    requires Revisions.Find(Get(Run(trace).deployments, id).value.history, target).Some?
    ensures Has(Run(trace + more).deployments, id)
    ensures var d, e := Get(Run(trace).deployments, id).value, Get(Run(trace + more).deployments, id).value;
            d.currentRevision <= e.currentRevision && Revisions.Find(e.history, target) == Revisions.Find(d.history, target)
  {
    HistoryOnlyGrows(trace, more, id);
    RecordsAreWellFormed(trace, id);
    Revisions.FindRecorded(Get(Run(trace).deployments, id).value, target);
    Revisions.FindRecorded(Get(Run(trace + more).deployments, id).value, target);
  }
}
