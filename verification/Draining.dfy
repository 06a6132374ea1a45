/** How long a drained node stays out of selection (internal/service/features.go, internal/service/orchestrator.go). */
module Draining {
  import opened Tables
  import opened Types
  import opened Cluster
  import Preemption
  import Scheduler

  predicate IsReady(s: State, id: string) {
    Has(s.nodes, id) && Get(s.nodes, id).value.status == Ready
  }

  /** A heartbeat, a registration or a health check that finds the node well. */
  predicate Readies(step: Step, id: string) {
    || (step.Beat? && step.node == id)
    || (step.SetNodeStatus? && step.node == id && step.status == Ready)
    || (step.Register? && step.node == id && step.record.status == Ready)
  }

  lemma FreeKeepsStatus(s: State, wid: string, w: Workload, id: string)
    ensures IsReady(Free(s, wid, w), id) <==> IsReady(s, id)
  {
    if Has(s.nodes, w.nodeId) {
      var n := Get(s.nodes, w.nodeId).value;
      GetPut(s.nodes, w.nodeId, n.(used := Release(n.used, w.resources)), id);
    }
  }

  /** A node that is not Ready becomes so by exactly these steps. */
  lemma BecomesReadyExactly(s: State, step: Step, id: string)
    requires Enabled(s, step) && !IsReady(s, id)
    ensures IsReady(Apply(s, step), id) <==> Readies(step, id)
  {
    match step
    case Register(k, n) => GetPut(s.nodes, k, n, id);
    case Beat(k, figure) => GetPut(s.nodes, k, Get(s.nodes, k).value.(used := figure, status := Ready), id);
    case SetNodeStatus(k, status) => GetPut(s.nodes, k, Get(s.nodes, k).value.(status := status), id);
    case Place(dep, wid, node, created, stamp) =>
      var n := Get(s.nodes, node).value;
      GetPut(s.nodes, node, n.(used := n.used.Plus(Get(s.deployments, dep).value.spec.resources)), id);
    case Evict(wid) => FreeKeepsStatus(s, wid, Get(s.workloads, wid).value, id);
    case Report(wid, status, container) =>
      if Has(s.workloads, wid) { FreeKeepsStatus(s, wid, Get(s.workloads, wid).value, id); }
    case _ =>
  }

  /** All along these steps the node is not Ready. */
  predicate OutThroughout(trace: seq<Step>, more: seq<Step>, id: string) {
    !IsReady(Run(trace + more), id) && (more == [] || OutThroughout(trace, more[..|more| - 1], id))
  }

  lemma OutNow(trace: seq<Step>, more: seq<Step>, id: string)
    requires OutThroughout(trace, more, id)
    ensures !IsReady(Run(trace + more), id)
  {
  }

  lemma OutOneMore(trace: seq<Step>, more: seq<Step>, id: string)
    requires more != [] && Admissible(trace + more)
    ensures OutThroughout(trace, more, id) <==>
              OutThroughout(trace, more[..|more| - 1], id) && !Readies(more[|more| - 1], id)
  {
    var before := more[..|more| - 1];
    if OutThroughout(trace, before, id) {
      OutNow(trace, before, id);
      LastStep(trace, more);
      BecomesReadyExactly(Run(trace + before), more[|more| - 1], id);
    }
  }

  /** No step readies the node. */
  predicate NeverReadied(steps: seq<Step>, id: string) {
    forall i | 0 <= i < |steps| :: !Readies(steps[i], id)
  }

  lemma NeverReadiedOneMore(steps: seq<Step>, id: string)
    requires steps != []
    ensures NeverReadied(steps, id) <==> NeverReadied(steps[..|steps| - 1], id) && !Readies(steps[|steps| - 1], id)
  {
    var before := steps[..|steps| - 1];
    assert forall i | 0 <= i < |before| :: before[i] == steps[i];
  }

  /** In every run a node that is not Ready stays so for exactly as long as no heartbeat, registration or health check readies it. */
  lemma {:induction false} OutLastsExactly(trace: seq<Step>, more: seq<Step>, id: string)
    requires Admissible(trace + more) && !IsReady(Run(trace), id)
    ensures OutThroughout(trace, more, id) <==> NeverReadied(more, id)
    decreases more
  {
    if more == [] {
      assert trace + more == trace;
    } else {
      var before := more[..|more| - 1];
      LastStep(trace, more);
      OutLastsExactly(trace, before, id);
      OutOneMore(trace, more, id);
      NeverReadiedOneMore(more, id);
    }
  }

  lemma DrainedIsOut(trace: seq<Step>, id: string)
    requires Admissible(trace) && Has(Run(trace).nodes, id)
    ensures var t := trace + [SetNodeStatus(id, Unknown)];
            && Admissible(t) && !IsReady(Run(t), id)
            && Get(Run(t).nodes, id) == Some(Get(Run(trace).nodes, id).value.(status := Unknown))
  {
    RunExtends(trace, SetNodeStatus(id, Unknown));
    GetPut(Run(trace).nodes, id, Get(Run(trace).nodes, id).value.(status := Unknown), id);
  }

  /** So a drained node is out until then. */
  lemma DrainLastsExactly(trace: seq<Step>, id: string, more: seq<Step>)
    requires Admissible(trace) && Has(Run(trace).nodes, id) && Admissible(trace + [SetNodeStatus(id, Unknown)] + more)
    ensures OutThroughout(trace + [SetNodeStatus(id, Unknown)], more, id) <==> NeverReadied(more, id)
  {
    DrainedIsOut(trace, id);
    OutLastsExactly(trace + [SetNodeStatus(id, Unknown)], more, id);
  }

  /** While a node is not Ready no deployment is placed on it, with or without preemption. */
  lemma NotReadyNotSelected(s: State, id: string, dep: string, spec: DeploymentSpec, score: Scheduler.Score)
    requires Tidy(s) && !IsReady(s, id)
    ensures var node := Preemption.PlacementNode(s, dep, spec, score); node.Some? ==> node.value.id != id
  {
    var r := Preemption.Relieved(s, dep, spec, score);
    var gone := Preemption.EvictedFor(s, dep, spec, score);
    if gone.Some? {
      PutStaysOrdered(s, Evict(gone.value.id));
      if Has(s.workloads, gone.value.id) {
        FreeKeepsStatus(s, gone.value.id, Get(s.workloads, gone.value.id).value, id);
      }
    }
    if Preemption.SelectFor(r.nodes, spec, score).Some? {
      var i := Scheduler.SelectIsLeftmostCheapest(r.nodes, spec.resources, spec.LabelMap(), spec.TolerationList(), score);
      GetIndex(r.nodes, i);
    }
  }

  lemma ReadyIsEligible(n: Node, spec: DeploymentSpec)
    ensures Scheduler.Eligible(n.(status := Ready), spec.resources, spec.LabelMap(), spec.TolerationList())
       <==> Scheduler.Fits(n, spec.resources) && Scheduler.Admits(n, spec.LabelMap(), spec.TolerationList())
  {
  }

  /** The next heartbeat of a drained node makes it eligible again for everything that fits and is admitted. */
  lemma HeartbeatUndoesDrain(trace: seq<Step>, id: string, figure: Resource, spec: DeploymentSpec)
    requires Admissible(trace) && Has(Run(trace).nodes, id)
    ensures var n := Get(Run(trace).nodes, id).value.(used := figure);
            var t := trace + [SetNodeStatus(id, Unknown)] + [Beat(id, figure)];
            && Admissible(t) && Has(Run(t).nodes, id)
            && (Scheduler.Eligible(Get(Run(t).nodes, id).value, spec.resources, spec.LabelMap(), spec.TolerationList())
                <==> Scheduler.Fits(n, spec.resources) && Scheduler.Admits(n, spec.LabelMap(), spec.TolerationList()))
  {
    var n := Get(Run(trace).nodes, id).value;
    ReadyIsEligible(n.(used := figure), spec);
    var drained := trace + [SetNodeStatus(id, Unknown)];
    DrainedIsOut(trace, id);
    RunExtends(drained, Beat(id, figure));
    GetPut(Run(drained).nodes, id, n.(used := figure, status := Ready), id);
  }
}
