/** Where stored workloads and assignments come from: every field traced back to the step that set it. */
module Provenance {
  import opened Tables
  import opened Types
  import opened Cluster

  // ----- stored workloads -----

  /** What the steps so far say about one workload: its last status, its last reported container, its failures. */
  datatype Story = Story(status: WorkloadStatus, container: string, failures: int)

  function StoryOf(trace: seq<Step>, wid: string): Story {
    if trace == [] then Story(Pending, "", 0)
    else
      var before := StoryOf(trace[..|trace| - 1], wid);
      match trace[|trace| - 1]
      case Place(_, k, _, _, _) => if k == wid then Story(Pending, "", 0) else before
      case Mark(k, _) => if k == wid then before.(status := Terminating) else before
      case Report(k, status, container) =>
        if k != wid then before
        else Story(status, container, if status == Failed then before.failures + 1 else before.failures)
      case _ => before
  }

  /** Step j placed the workload, and these fields are those of the deployment record it read. */
  ghost predicate PlacedAt(trace: seq<Step>, j: nat, wid: string, w: Workload)
    requires j < |trace|
  {
    && trace[j].Place? && trace[j].wid == wid
    && w.deploymentId == trace[j].dep && w.nodeId == trace[j].node && w.createdAt == trace[j].created
    && var d := Get(Run(trace[..j]).deployments, trace[j].dep);
       && d.Some?
       && w.image == d.value.spec.image && w.priority == d.value.spec.priority
       && w.resources == d.value.spec.resources && w.version == d.value.currentRevision
  }

  ghost predicate Traced(trace: seq<Step>, wid: string, w: Workload) {
    && (exists j: nat | j < |trace| :: PlacedAt(trace, j, wid, w))
    && Story(w.status, w.containerId, w.restartCount) == StoryOf(trace, wid)
  }

  /** What a step does to the record of one workload. */
  lemma RecordAfter(s: State, step: Step, wid: string)
    requires Tidy(s) && Lifecycle(s) && Enabled(s, step)
    ensures var was, now := Get(s.workloads, wid), Get(Apply(s, step).workloads, wid);
            && (step.Place? && step.wid == wid ==>
                  now == Some(NewWorkload(Get(s.deployments, step.dep).value, step.dep, step.node, step.created)))
            && (step.Mark? && step.wid == wid ==> was.Some? && now == Some(was.value.(status := Terminating)))
            && (step.Report? && step.wid == wid && now.Some? ==>
                  was.Some? && now == Some(Reported(was.value, step.reported, step.container)))
            && (!(step.Place? || step.Mark? || step.Report?) || step.wid != wid ==> now.None? || now == was)
  {
    match step
    case Place(dep, k, node, created, stamp) =>
      GetPut(s.workloads, k, NewWorkload(Get(s.deployments, dep).value, dep, node, created), wid);
    case Evict(k) => GetRemove(s.workloads, k, wid);
    case Mark(k, stamp) => GetPut(s.workloads, k, Get(s.workloads, k).value.(status := Terminating), wid);
    case Report(k, status, container) =>
      if Has(s.workloads, k) {
        GetRemove(s.workloads, k, wid);
        GetPut(s.workloads, k, Reported(Get(s.workloads, k).value, status, container), wid);
      }
    case DropDeployment(dep) => SweepRemovesNothing(s, dep);
    case _ =>
  }

  lemma StillPlaced(before: seq<Step>, trace: seq<Step>, wid: string, w: Workload, v: Workload)
    requires |before| < |trace| && before == trace[..|before|] && (exists j: nat | j < |before| :: PlacedAt(before, j, wid, w))
    requires v == w.(status := v.status, containerId := v.containerId, restartCount := v.restartCount)
    ensures exists j: nat | j < |trace| :: PlacedAt(trace, j, wid, v)
  {
    var j: nat :| j < |before| && PlacedAt(before, j, wid, w);
    assert trace[..j] == before[..j];
    assert PlacedAt(trace, j, wid, v);
  }

  /**
   * In every run a stored workload carries the image, priority, resources and revision its deployment's record had when
   * it was placed, the status it was last given, the container last reported and the number of failures reported.
   */
  lemma {:induction false} RecordsAreTraced(trace: seq<Step>, wid: string)
    requires Admissible(trace) && Has(Run(trace).workloads, wid)
    ensures Traced(trace, wid, Get(Run(trace).workloads, wid).value)
  {
    var before, step := trace[..|trace| - 1], trace[|trace| - 1];
    RecordsHold(before);
    RecordAfter(Run(before), step, wid);
    if step.Place? && step.wid == wid {
      assert PlacedAt(trace, |trace| - 1, wid, Get(Run(trace).workloads, wid).value);
    } else {
      RecordsAreTraced(before, wid);
      StillPlaced(before, trace, wid, Get(Run(before).workloads, wid).value, Get(Run(trace).workloads, wid).value);
    }
  }

  // ----- assignments -----

  /** Step j placed the workload, and the create tells the node to run the image its deployment's record had then. */
  ghost predicate CreateFrom(trace: seq<Step>, j: nat, a: Assignment)
    requires j < |trace|
  {
    && trace[j].Place? && trace[j].wid == a.workloadId && trace[j].node == a.nodeId && trace[j].createStamp == Some(a.stamp)
    && a.containerId == ""
    && var d := Get(Run(trace[..j]).deployments, trace[j].dep);
       d.Some? && a.image == d.value.spec.image && a.resources == d.value.spec.resources
  }

  /** Step j marked the workload, and the delete names the container last reported for it by then. */
  ghost predicate DeleteFrom(trace: seq<Step>, j: nat, a: Assignment)
    requires j < |trace|
  {
    && trace[j] == Mark(a.workloadId, a.stamp)
    && a.image == "" && a.containerId == StoryOf(trace[..j], a.workloadId).container
    && var w := Get(Run(trace[..j]).workloads, a.workloadId);
       w.Some? && a.nodeId == w.value.nodeId && a.resources == w.value.resources
  }

  ghost predicate SentAt(trace: seq<Step>, j: nat, a: Assignment)
    requires j < |trace|
  {
    if a.action == Create then CreateFrom(trace, j, a) else DeleteFrom(trace, j, a)
  }

  /** In every run each create in the log carries the image of its deployment's record, and each delete the last reported container. */
  lemma {:induction false} AssignmentsAreTraced(trace: seq<Step>, a: Assignment)
    requires Admissible(trace) && a in Run(trace).log
    ensures exists j: nat | j < |trace| :: SentAt(trace, j, a)
  {
    var before, step := trace[..|trace| - 1], trace[|trace| - 1];
    if a in Run(before).log {
      AssignmentsAreTraced(before, a);
      var j: nat :| j < |before| && SentAt(before, j, a);
      assert trace[..j] == before[..j];
      assert SentAt(trace, j, a);
    } else {
      if step.Mark? {
        RecordsAreTraced(before, step.wid);
      }
      assert SentAt(trace, |trace| - 1, a);
    }
  }

  /** And each placement whose secrets resolve, and each mark, sends its assignment as the newest of the log. */
  lemma NewestIsSent(trace: seq<Step>, step: Step)
    requires Admissible(trace) && Enabled(Run(trace), step) && (step.Mark? || (step.Place? && step.createStamp.Some?))
    ensures var log := Run(trace + [step]).log;
            && Admissible(trace + [step]) && |log| == |Run(trace).log| + 1 && log[..|log| - 1] == Run(trace).log
            && log[|log| - 1].action == (if step.Mark? then Delete else Create)
            && SentAt(trace + [step], |trace|, log[|log| - 1])
  {
    RunExtends(trace, step);
    assert (trace + [step])[..|trace|] == trace;
    if step.Mark? {
      RecordsAreTraced(trace, step.wid);
    }
  }
}
