/**
 * The control plane as a state machine. A step is one action of a service method of
 * internal/service/orchestrator.go: the writes that belong together, such as storing a workload,
 * charging its node and enqueuing its create, are one step. What holds after any sequence of steps
 * holds for every interleaving of the methods between their actions.
 */
module Cluster {
  import opened Tables
  import opened Types
  import Scheduler
  import Text

  /** `clock`, `log`, `delivered` and `issued` record the past: the last stamp, every assignment
      ever enqueued, every assignment ever popped, every workload identifier ever used. */
  datatype State = State(
    nodes: seq<Entry<Node>>, workloads: seq<Entry<Workload>>,
    deployments: seq<Entry<Deployment>>, queue: seq<Entry<Assignment>>,
    clock: nat, log: seq<Assignment>, delivered: seq<Assignment>, issued: set<string>)

  const INIT := State([], [], [], [], 0, [], [], {})

  datatype Step =
    | Register(node: string, record: Node)
    | Beat(node: string, figure: Resource)
    | SetNodeStatus(node: string, status: NodeStatus)
    | WriteDeployment(dep: string, deployment: Deployment)
    | Place(dep: string, wid: string, node: string, created: int, createStamp: Option<nat>)
    | Evict(wid: string)
    | Mark(wid: string, stamp: nat)
    | Report(wid: string, reported: WorkloadStatus, container: string)
    | DropDeployment(dep: string)
    | Pop(node: string, max: int)

  // ----- keys -----

  function AssignmentPrefix(node: string): string {
    "assignment:" + node + ":"
  }

  function AssignmentKey(a: Assignment): string {
    AssignmentPrefix(a.nodeId) + (a.workloadId + "-" + Text.Decimal(a.stamp))
  }

  // ----- effects -----

  function NewWorkload(d: Deployment, dep: string, node: string, created: int): Workload {
    Workload(dep, d.spec.priority, node, d.spec.image, d.spec.resources, Pending, "", 0, d.currentRevision, created)
  }

  function CreateAssignment(w: Workload, wid: string, stamp: nat): Assignment {
    Assignment(Create, w.nodeId, wid, w.image, "", w.resources, stamp)
  }

  function DeleteAssignment(w: Workload, wid: string, stamp: nat): Assignment {
    Assignment(Delete, w.nodeId, wid, "", w.containerId, w.resources, stamp)
  }

  function Enqueue(s: State, a: Assignment): State {
    s.(queue := Put(s.queue, AssignmentKey(a), a), log := s.log + [a], clock := a.stamp)
  }

  /** The record goes away and its node's Used shrinks by what the record was charged. */
  function Free(s: State, wid: string, w: Workload): State {
    s.(workloads := Remove(s.workloads, wid),
       nodes := match Get(s.nodes, w.nodeId)
         case None => s.nodes
         case Some(n) => Put(s.nodes, w.nodeId, n.(used := Release(n.used, w.resources))))
  }

  function Placed(s: State, wid: string, w: Workload, n: Node): State {
    s.(workloads := Put(s.workloads, wid, w),
       nodes := Put(s.nodes, w.nodeId, n.(used := n.used.Plus(w.resources))),
       issued := s.issued + {wid})
  }

  function Reported(w: Workload, status: WorkloadStatus, container: string): Workload {
    w.(status := status, containerId := container,
       restartCount := if status == Failed then w.restartCount + 1 else w.restartCount)
  }

  function NotOf(dep: string): Workload -> bool {
    (w: Workload) => w.deploymentId != dep
  }

  function RemoveAll<V>(t: seq<Entry<V>>, gone: seq<Entry<V>>): seq<Entry<V>>
    decreases gone
  {
    if gone == [] then t else RemoveAll(Remove(t, gone[0].id), gone[1..])
  }

  function Popped(s: State, node: string, max: int): seq<Entry<Assignment>> {
    Take(WithPrefix(s.queue, AssignmentPrefix(node)), max)
  }

  function Apply(s: State, step: Step): State {
    match step
    case Register(id, n) => s.(nodes := Put(s.nodes, id, n))
    case Beat(id, figure) =>
      (match Get(s.nodes, id)
       case None => s
       case Some(n) => s.(nodes := Put(s.nodes, id, n.(used := figure, status := Ready))))
    case SetNodeStatus(id, status) =>
      (match Get(s.nodes, id)
       case None => s
       case Some(n) => s.(nodes := Put(s.nodes, id, n.(status := status))))
    case WriteDeployment(id, d) => s.(deployments := Put(s.deployments, id, d))
    case Place(dep, wid, node, created, stamp) =>
      (match (Get(s.deployments, dep), Get(s.nodes, node))
       case (Some(d), Some(n)) =>
         var w := NewWorkload(d, dep, node, created);
         var placed := Placed(s, wid, w, n);
         if stamp.Some? then Enqueue(placed, CreateAssignment(w, wid, stamp.value)) else placed
       case _ => s)
    case Evict(wid) =>
      (match Get(s.workloads, wid)
       case None => s
       case Some(w) => Free(s, wid, w))
    case Mark(wid, stamp) =>
      (match Get(s.workloads, wid)
       case None => s
       case Some(w) =>
         Enqueue(s.(workloads := Put(s.workloads, wid, w.(status := Terminating))), DeleteAssignment(w, wid, stamp)))
    case Report(wid, status, container) =>
      (match Get(s.workloads, wid)
       case None => s
       case Some(w) =>
         if status == Terminated then Free(s, wid, w)
         else s.(workloads := Put(s.workloads, wid, Reported(w, status, container))))
    case DropDeployment(dep) =>
      s.(deployments := Remove(s.deployments, dep), workloads := Filter(s.workloads, NotOf(dep)))
    case Pop(node, max) =>
      s.(queue := RemoveAll(s.queue, Popped(s, node, max)), delivered := s.delivered + Recs(Popped(s, node, max)))
  }

  /** When a step may be taken: what the code checks before it, and clock readings that move on. */
  predicate Enabled(s: State, step: Step) {
    match step
    case Register(_, _) => true
    case Beat(id, _) => Has(s.nodes, id)
    case SetNodeStatus(id, _) => Has(s.nodes, id)
    case WriteDeployment(_, _) => true
    case Place(dep, wid, node, _, stamp) =>
      && Has(s.deployments, dep) && Has(s.nodes, node) && wid !in s.issued
      && Scheduler.Fits(Get(s.nodes, node).value, Get(s.deployments, dep).value.spec.resources)
      && (stamp.Some? ==> stamp.value > s.clock)
    case Evict(wid) => Has(s.workloads, wid)
    case Mark(wid, stamp) => Has(s.workloads, wid) && Get(s.workloads, wid).value.status != Terminating && stamp > s.clock
    case Report(_, _, _) => true
    case DropDeployment(dep) =>
      Has(s.deployments, dep) && forall e | e in s.workloads :: e.rec.deploymentId == dep ==> e.rec.status == Terminated
    case Pop(_, _) => true
  }

  function Run(trace: seq<Step>): State {
    if trace == [] then INIT else Apply(Run(trace[..|trace| - 1]), trace[|trace| - 1])
  }

  predicate Admissible(trace: seq<Step>) {
    trace == [] || (Admissible(trace[..|trace| - 1]) && Enabled(Run(trace[..|trace| - 1]), trace[|trace| - 1]))
  }

  lemma RunExtends(trace: seq<Step>, step: Step)
    requires Admissible(trace) && Enabled(Run(trace), step)
    ensures Admissible(trace + [step]) && Run(trace + [step]) == Apply(Run(trace), step)
  {
    assert (trace + [step])[..|trace|] == trace;
  }

  /** A run that ends in some more steps, seen from its last step. */
  lemma LastStep(trace: seq<Step>, steps: seq<Step>)
    requires steps != [] && Admissible(trace + steps)
    ensures var n := |steps| - 1;
            && Admissible(trace + steps[..n]) && Enabled(Run(trace + steps[..n]), steps[n])
            && Run(trace + steps) == Apply(Run(trace + steps[..n]), steps[n])
  {
    assert (trace + steps)[..|trace| + |steps| - 1] == trace + steps[..|steps| - 1];
  }

  // ----- invariants -----

  ghost predicate Tidy(s: State) {
    Ordered(s.nodes) && Ordered(s.workloads) && Ordered(s.deployments) && Ordered(s.queue)
  }

  function CpuOn(node: string): Workload -> int {
    (w: Workload) => if w.nodeId == node then w.resources.milliCPU else 0
  }

  function MemOn(node: string): Workload -> int {
    (w: Workload) => if w.nodeId == node then w.resources.memoryMB else 0
  }

  /** What the stored workloads on a node add up to. */
  function Load(ws: seq<Entry<Workload>>, node: string): Resource {
    Resource(Sum(ws, CpuOn(node)), Sum(ws, MemOn(node)))
  }

  /** Used is exactly the load, and never more than the node can give. */
  ghost predicate Ledger(s: State) {
    forall id | Has(s.nodes, id) ::
      var n := Get(s.nodes, id).value;
      n.used == Load(s.workloads, id) && n.used.AtMost(n.allocatable)
  }

  /** No stored workload or specification asks for a negative amount. */
  ghost predicate Modest(s: State) {
    && (forall id | Has(s.workloads, id) :: Get(s.workloads, id).value.resources.NonNegative())
    && (forall id | Has(s.deployments, id) :: Get(s.deployments, id).value.spec.resources.NonNegative())
  }

  /** Stored workloads have a node and a deployment, were issued, and are never in status Terminated. */
  ghost predicate Lifecycle(s: State) {
    forall id | Has(s.workloads, id) ::
      var w := Get(s.workloads, id).value;
      Has(s.nodes, w.nodeId) && Has(s.deployments, w.deploymentId) && w.status != Terminated && id in s.issued
  }

  /** Nodes are never forgotten. */
  lemma NodesStay(s: State, step: Step)
    ensures forall id | Has(s.nodes, id) :: Has(Apply(s, step).nodes, id)
  {
    match step
    case Register(id, n) => AllPut(s.nodes, id, n);
    case Beat(id, figure) =>
      if Has(s.nodes, id) { AllPut(s.nodes, id, Get(s.nodes, id).value.(used := figure, status := Ready)); }
    case SetNodeStatus(id, status) =>
      if Has(s.nodes, id) { AllPut(s.nodes, id, Get(s.nodes, id).value.(status := status)); }
    case Place(dep, wid, node, created, stamp) =>
      if Has(s.deployments, dep) && Has(s.nodes, node) {
        var n := Get(s.nodes, node).value;
        AllPut(s.nodes, node, n.(used := n.used.Plus(Get(s.deployments, dep).value.spec.resources)));
      }
    case Evict(wid) => if Has(s.workloads, wid) { FreeKeepsNodes(s, wid, Get(s.workloads, wid).value); }
    case Report(wid, status, container) => if Has(s.workloads, wid) { FreeKeepsNodes(s, wid, Get(s.workloads, wid).value); }
    case _ =>
  }

  lemma FreeKeepsNodes(s: State, wid: string, w: Workload)
    ensures forall id | Has(s.nodes, id) :: Has(Free(s, wid, w).nodes, id)
  {
    if Has(s.nodes, w.nodeId) {
      var n := Get(s.nodes, w.nodeId).value;
      AllPut(s.nodes, w.nodeId, n.(used := Release(n.used, w.resources)));
    }
  }

  lemma PutStaysOrdered(s: State, step: Step)
    requires Tidy(s)
    ensures Tidy(Apply(s, step))
  {
    match step
    case Register(id, n) => PutOrdered(s.nodes, id, n);
    case Beat(id, figure) =>
      if Has(s.nodes, id) { PutOrdered(s.nodes, id, Get(s.nodes, id).value.(used := figure, status := Ready)); }
    case SetNodeStatus(id, status) =>
      if Has(s.nodes, id) { PutOrdered(s.nodes, id, Get(s.nodes, id).value.(status := status)); }
    case WriteDeployment(id, d) => PutOrdered(s.deployments, id, d);
    case Place(dep, wid, node, created, stamp) =>
      if Has(s.deployments, dep) && Has(s.nodes, node) {
        var w := NewWorkload(Get(s.deployments, dep).value, dep, node, created);
        var n := Get(s.nodes, node).value;
        PutOrdered(s.workloads, wid, w);
        PutOrdered(s.nodes, node, n.(used := n.used.Plus(w.resources)));
        if stamp.Some? {
          var a := CreateAssignment(w, wid, stamp.value);
          PutOrdered(s.queue, AssignmentKey(a), a);
        }
      }
    case Evict(wid) => if Has(s.workloads, wid) { FreeStaysOrdered(s, wid, Get(s.workloads, wid).value); }
    case Mark(wid, stamp) =>
      if Has(s.workloads, wid) {
        var w := Get(s.workloads, wid).value;
        PutOrdered(s.workloads, wid, w.(status := Terminating));
        var a := DeleteAssignment(w, wid, stamp);
        PutOrdered(s.queue, AssignmentKey(a), a);
      }
    case Report(wid, status, container) =>
      if Has(s.workloads, wid) {
        var w := Get(s.workloads, wid).value;
        if status == Terminated { FreeStaysOrdered(s, wid, w); }
        else { PutOrdered(s.workloads, wid, Reported(w, status, container)); }
      }
    case DropDeployment(dep) => RemoveOrdered(s.deployments, dep); FilterOrdered(s.workloads, NotOf(dep));
    case Pop(node, max) => RemoveAllOrdered(s.queue, Popped(s, node, max));
  }

  lemma FreeStaysOrdered(s: State, wid: string, w: Workload)
    requires Tidy(s)
    ensures Tidy(Free(s, wid, w))
  {
    RemoveOrdered(s.workloads, wid);
    if Has(s.nodes, w.nodeId) {
      var n := Get(s.nodes, w.nodeId).value;
      PutOrdered(s.nodes, w.nodeId, n.(used := Release(n.used, w.resources)));
    }
  }

  lemma {:induction false} RemoveAllOrdered<V>(t: seq<Entry<V>>, gone: seq<Entry<V>>)
    requires Ordered(t)
    ensures Ordered(RemoveAll(t, gone))
    decreases gone
  {
    if gone != [] {
      RemoveOrdered(t, gone[0].id);
      RemoveAllOrdered(Remove(t, gone[0].id), gone[1..]);
    }
  }

  // ----- the ledger -----

  lemma LoadPut(ws: seq<Entry<Workload>>, wid: string, w: Workload, node: string)
    requires Ordered(ws)
    ensures Load(Put(ws, wid, w), node).milliCPU == Load(ws, node).milliCPU - At(ws, wid, CpuOn(node)) + CpuOn(node)(w)
    ensures Load(Put(ws, wid, w), node).memoryMB == Load(ws, node).memoryMB - At(ws, wid, MemOn(node)) + MemOn(node)(w)
  {
    SumPut(ws, wid, w, CpuOn(node));
    SumPut(ws, wid, w, MemOn(node));
  }

  /** A rewrite that keeps node and resources leaves every load alone. */
  lemma LoadRewrite(ws: seq<Entry<Workload>>, wid: string, w: Workload)
    requires Ordered(ws) && Has(ws, wid)
    requires Get(ws, wid).value.nodeId == w.nodeId && Get(ws, wid).value.resources == w.resources
    ensures forall node :: Load(Put(ws, wid, w), node) == Load(ws, node)
  {
    forall node ensures Load(Put(ws, wid, w), node) == Load(ws, node) {
      LoadPut(ws, wid, w, node);
    }
  }

  /** A stored workload's share is part of its node's Used, so a release never reaches the stop at zero. */
  lemma ShareWithinUsed(s: State, wid: string)
    requires Tidy(s) && Ledger(s) && Modest(s) && Has(s.workloads, wid) && Has(s.nodes, Get(s.workloads, wid).value.nodeId)
    ensures var w := Get(s.workloads, wid).value;
            w.resources.AtMost(Get(s.nodes, w.nodeId).value.used)
  {
    var w := Get(s.workloads, wid).value;
    forall e | e in s.workloads ensures CpuOn(w.nodeId)(e.rec) >= 0 && MemOn(w.nodeId)(e.rec) >= 0 {
      GetEntry(s.workloads, e);
      assert Has(s.workloads, e.id);
    }
    SumBounds(s.workloads, wid, CpuOn(w.nodeId));
    SumBounds(s.workloads, wid, MemOn(w.nodeId));
  }

  /** A release of this workload stays clear of zero and of what the node can give. */
  predicate Releasable(s: State, wid: string) {
    Has(s.workloads, wid) && Has(s.nodes, Get(s.workloads, wid).value.nodeId) ==>
      var w := Get(s.workloads, wid).value;
      var n := Get(s.nodes, w.nodeId).value;
      w.resources.AtMost(n.used) && n.used.AtMost(n.allocatable.Plus(w.resources))
  }

  lemma ModestIsReleasable(s: State, wid: string)
    requires Tidy(s) && Ledger(s) && Modest(s)
    ensures Releasable(s, wid)
  {
    if Has(s.workloads, wid) && Has(s.nodes, Get(s.workloads, wid).value.nodeId) {
      ShareWithinUsed(s, wid);
    }
  }

  /** A release keeps the ledger exactly when neither stop at zero nor the node's limit is reached. */
  lemma FreeKeepsLedgerExactly(s: State, wid: string)
    requires Tidy(s) && Ledger(s) && Lifecycle(s) && Has(s.workloads, wid)
    ensures Ledger(Free(s, wid, Get(s.workloads, wid).value)) <==> Releasable(s, wid)
  {
    var w := Get(s.workloads, wid).value;
    var t := Free(s, wid, w);
    var n := Get(s.nodes, w.nodeId).value;
    AllPut(s.nodes, w.nodeId, n.(used := Release(n.used, w.resources)));
    LoadWithout(s.workloads, wid);
    assert Has(t.nodes, w.nodeId);
    if Releasable(s, wid) {
      forall id | Has(t.nodes, id)
        ensures Get(t.nodes, id).value.used == Load(t.workloads, id)
        ensures Get(t.nodes, id).value.used.AtMost(Get(t.nodes, id).value.allocatable)
      {
        assert Has(s.nodes, id);
      }
    }
  }

  /** Deleting a record takes its share out of its node's load and no other. */
  lemma LoadWithout(ws: seq<Entry<Workload>>, wid: string)
    requires Ordered(ws) && Has(ws, wid)
    ensures var w := Get(ws, wid).value;
            && Load(Remove(ws, wid), w.nodeId).Plus(w.resources) == Load(ws, w.nodeId)
            && forall id | id != w.nodeId :: Load(Remove(ws, wid), id) == Load(ws, id)
  {
    var w := Get(ws, wid).value;
    forall id ensures id == w.nodeId ==> Load(Remove(ws, wid), id).Plus(w.resources) == Load(ws, id)
              ensures id != w.nodeId ==> Load(Remove(ws, wid), id) == Load(ws, id) {
      SumRemove(ws, wid, CpuOn(id));
      SumRemove(ws, wid, MemOn(id));
    }
  }

  lemma PlaceKeepsLedger(s: State, step: Step)
    requires Tidy(s) && Ledger(s) && Lifecycle(s) && step.Place? && Enabled(s, step)
    ensures Ledger(Apply(s, step))
  {
    var d, n := Get(s.deployments, step.dep).value, Get(s.nodes, step.node).value;
    var w := NewWorkload(d, step.dep, step.node, step.created);
    var t := Apply(s, step);
    assert !Has(s.workloads, step.wid);
    AllPut(s.workloads, step.wid, w);
    AllPut(s.nodes, step.node, n.(used := n.used.Plus(w.resources)));
    forall id | Has(t.nodes, id)
      ensures Get(t.nodes, id).value.used == Load(t.workloads, id)
      ensures Get(t.nodes, id).value.used.AtMost(Get(t.nodes, id).value.allocatable)
    {
      LoadPut(s.workloads, step.wid, w, id);
      assert Has(s.nodes, id);
    }
  }

  lemma RewriteKeepsLedger(s: State, wid: string, w: Workload)
    requires Tidy(s) && Ledger(s) && Has(s.workloads, wid)
    requires Get(s.workloads, wid).value.nodeId == w.nodeId && Get(s.workloads, wid).value.resources == w.resources
    ensures Ledger(s.(workloads := Put(s.workloads, wid, w)))
  {
    LoadRewrite(s.workloads, wid, w);
    AllPut(s.workloads, wid, w);
  }

  /** Registering a node keeps the ledger exactly when its record brings the load it already carries, and room for it. */
  lemma RegisterKeepsLedgerExactly(s: State, id: string, n: Node)
    requires Tidy(s) && Ledger(s)
    ensures Ledger(Apply(s, Register(id, n))) <==> n.used == Load(s.workloads, id) && n.used.AtMost(n.allocatable)
  {
    var t := Apply(s, Register(id, n));
    AllPut(s.nodes, id, n);
    assert Has(t.nodes, id) && Get(t.nodes, id).value == n;
    if n.used == Load(s.workloads, id) && n.used.AtMost(n.allocatable) {
      forall k | Has(t.nodes, k) ensures
          Get(t.nodes, k).value.used == Load(t.workloads, k) && Get(t.nodes, k).value.used.AtMost(Get(t.nodes, k).value.allocatable) {
        assert k == id || Has(s.nodes, k);
      }
    }
  }

  /** A node that is not registered carries nothing, so a first registration must report nothing used. */
  lemma NewNodeIsEmpty(s: State, id: string)
    requires Tidy(s) && Lifecycle(s) && !Has(s.nodes, id)
    ensures Load(s.workloads, id) == Resource(0, 0)
  {
    forall e | e in s.workloads ensures CpuOn(id)(e.rec) == 0 && MemOn(id)(e.rec) == 0 {
      GetEntry(s.workloads, e);
      assert Has(s.workloads, e.id);
    }
    SumZero(s.workloads, CpuOn(id));
    SumZero(s.workloads, MemOn(id));
  }

  lemma {:induction false} SumZero<V>(t: seq<Entry<V>>, f: V -> int)
    requires forall e | e in t :: f(e.rec) == 0
    ensures Sum(t, f) == 0
  {
    if t != [] {
      assert t[0] in t;
      SumZero(t[1..], f);
    }
  }

  lemma {:induction false} FilterAll<V>(t: seq<Entry<V>>, p: V -> bool)
    requires forall e | e in t :: p(e.rec)
    ensures Filter(t, p) == t
  {
    if t != [] {
      assert t[0] in t;
      FilterAll(t[1..], p);
    }
  }

  /** Removing a deployment record: no stored workload names it, so the store's sweep removes nothing. */
  lemma SweepRemovesNothing(s: State, dep: string)
    requires Tidy(s) && Lifecycle(s) && Enabled(s, DropDeployment(dep))
    ensures forall e | e in s.workloads :: e.rec.deploymentId != dep
    ensures Apply(s, DropDeployment(dep)).workloads == s.workloads
  {
    forall e | e in s.workloads ensures e.rec.deploymentId != dep {
      GetEntry(s.workloads, e);
      assert Has(s.workloads, e.id);
    }
    FilterAll(s.workloads, NotOf(dep));
  }

  /** A heartbeat keeps the ledger exactly when it reports the load that is placed. */
  lemma HeartbeatKeepsLedgerExactly(s: State, id: string, figure: Resource)
    requires Tidy(s) && Ledger(s) && Has(s.nodes, id)
    ensures Ledger(Apply(s, Beat(id, figure))) <==> figure == Load(s.workloads, id)
  {
    var n := Get(s.nodes, id).value;
    var t := Apply(s, Beat(id, figure));
    AllPut(s.nodes, id, n.(used := figure, status := Ready));
    assert Has(t.nodes, id) && Get(t.nodes, id).value.used == figure;
    if figure == n.used {
      forall k | Has(t.nodes, k) ensures
          Get(t.nodes, k).value.used == Load(t.workloads, k) && Get(t.nodes, k).value.used.AtMost(Get(t.nodes, k).value.allocatable) {
        assert Has(s.nodes, k);
      }
    }
  }

  /** A registration and a heartbeat report the load that is placed. */
  predicate Accountable(s: State, step: Step) {
    match step
    case Register(id, n) => n.used == Load(s.workloads, id) && n.used.AtMost(n.allocatable)
    case Beat(id, figure) => figure == Load(s.workloads, id)
    case _ => true
  }

  /** An eviction and a Terminated report give back no more than is used, and no less than nothing. */
  predicate Covered(s: State, step: Step) {
    match step
    case Evict(wid) => Releasable(s, wid)
    case Report(wid, status, _) => status == Terminated ==> Releasable(s, wid)
    case _ => true
  }

  /** A step keeps the ledger exactly when it reports the load that is placed and its release stays clear of the stops. */
  lemma StepKeepsLedgerExactly(s: State, step: Step)
    requires Tidy(s) && Ledger(s) && Lifecycle(s) && Enabled(s, step)
    ensures Ledger(Apply(s, step)) <==> Accountable(s, step) && Covered(s, step)
  {
    match step
    case Register(id, n) => RegisterKeepsLedgerExactly(s, id, n);
    case Beat(id, figure) => HeartbeatKeepsLedgerExactly(s, id, figure);
    case SetNodeStatus(id, status) => AllPut(s.nodes, id, Get(s.nodes, id).value.(status := status));
    case WriteDeployment(id, d) =>
    case Place(_, _, _, _, _) => PlaceKeepsLedger(s, step);
    case Evict(wid) => FreeKeepsLedgerExactly(s, wid);
    case Mark(wid, stamp) => RewriteKeepsLedger(s, wid, Get(s.workloads, wid).value.(status := Terminating));
    case Report(wid, status, container) =>
      if Has(s.workloads, wid) {
        if status == Terminated { FreeKeepsLedgerExactly(s, wid); }
        else { RewriteKeepsLedger(s, wid, Reported(Get(s.workloads, wid).value, status, container)); }
      }
    case DropDeployment(dep) => SweepRemovesNothing(s, dep);
    case Pop(_, _) =>
  }

  /** The written specification, if any, asks for nothing negative. */
  predicate AsksModestly(step: Step) {
    step.WriteDeployment? ==> step.deployment.spec.resources.NonNegative()
  }

  lemma StepStaysModest(s: State, step: Step)
    requires Tidy(s) && Lifecycle(s) && Modest(s) && Enabled(s, step) && AsksModestly(step)
    ensures Modest(Apply(s, step))
  {
    match step
    case WriteDeployment(id, d) => AllPut(s.deployments, id, d);
    case Place(dep, wid, node, created, stamp) =>
      AllPut(s.workloads, wid, NewWorkload(Get(s.deployments, dep).value, dep, node, created));
    case Evict(wid) => AllRemove(s.workloads, wid);
    case Mark(wid, stamp) => AllPut(s.workloads, wid, Get(s.workloads, wid).value.(status := Terminating));
    case Report(wid, status, container) =>
      if Has(s.workloads, wid) {
        AllRemove(s.workloads, wid);
        AllPut(s.workloads, wid, Reported(Get(s.workloads, wid).value, status, container));
      }
    case DropDeployment(dep) => SweepRemovesNothing(s, dep); AllRemove(s.deployments, dep);
    case _ =>
  }

  lemma StepKeepsLifecycle(s: State, step: Step)
    requires Tidy(s) && Lifecycle(s) && Enabled(s, step)
    ensures Lifecycle(Apply(s, step))
  {
    NodesStay(s, step);
    match step
    case Register(id, n) =>
    case Beat(id, figure) =>
    case SetNodeStatus(id, status) =>
    case WriteDeployment(id, d) => AllPut(s.deployments, id, d);
    case Place(dep, wid, node, created, stamp) =>
      AllPut(s.workloads, wid, NewWorkload(Get(s.deployments, dep).value, dep, node, created));
    case Evict(wid) => AllRemove(s.workloads, wid);
    case Mark(wid, stamp) => AllPut(s.workloads, wid, Get(s.workloads, wid).value.(status := Terminating));
    case Report(wid, status, container) =>
      if Has(s.workloads, wid) {
        AllRemove(s.workloads, wid);
        AllPut(s.workloads, wid, Reported(Get(s.workloads, wid).value, status, container));
      }
    case DropDeployment(dep) =>
      SweepRemovesNothing(s, dep);
      AllRemove(s.deployments, dep);
      forall id | Has(s.workloads, id) ensures Get(s.workloads, id).value.deploymentId != dep {
        GetMember(s.workloads, id);
      }
    case Pop(_, _) =>
  }

  /** In every run, stored workloads have a node and a deployment, were issued and are never in status Terminated. */
  lemma {:induction false} RecordsHold(trace: seq<Step>)
    requires Admissible(trace)
    ensures Tidy(Run(trace)) && Lifecycle(Run(trace))
  {
    if trace != [] {
      var before, step := trace[..|trace| - 1], trace[|trace| - 1];
      RecordsHold(before);
      PutStaysOrdered(Run(before), step);
      StepKeepsLifecycle(Run(before), step);
    }
  }

  lemma TidyHolds(trace: seq<Step>)
    requires Admissible(trace)
    ensures Tidy(Run(trace))
  {
    RecordsHold(trace);
  }

  /** Every registration and heartbeat of the run reports the load that is placed. */
  predicate Truthful(trace: seq<Step>) {
    trace == [] || (Truthful(trace[..|trace| - 1]) && Accountable(Run(trace[..|trace| - 1]), trace[|trace| - 1]))
  }

  /** Every release of the run stays clear of zero and of the node's limit. */
  predicate WellCovered(trace: seq<Step>) {
    trace == [] || (WellCovered(trace[..|trace| - 1]) && Covered(Run(trace[..|trace| - 1]), trace[|trace| - 1]))
  }

  /** No specification of the run asks for a negative amount. */
  predicate AllModest(trace: seq<Step>) {
    trace == [] || (AllModest(trace[..|trace| - 1]) && AsksModestly(trace[|trace| - 1]))
  }

  lemma {:induction false} ModestHolds(trace: seq<Step>)
    requires Admissible(trace) && AllModest(trace)
    ensures Modest(Run(trace))
  {
    if trace != [] {
      var before := trace[..|trace| - 1];
      ModestHolds(before);
      RecordsHold(before);
      StepStaysModest(Run(before), trace[|trace| - 1]);
    }
  }

  /** The ledger holds all along a run. */
  ghost predicate LedgerThroughout(trace: seq<Step>) {
    Ledger(Run(trace)) && (trace == [] || LedgerThroughout(trace[..|trace| - 1]))
  }

  lemma LedgerNow(trace: seq<Step>)
    requires LedgerThroughout(trace)
    ensures Ledger(Run(trace))
  {
  }

  /** In every run: the ledger holds all along it exactly when its reports are truthful and its releases are covered. */
  lemma {:induction false} LedgerHoldsExactly(trace: seq<Step>)
    requires Admissible(trace)
    ensures LedgerThroughout(trace) <==> Truthful(trace) && WellCovered(trace)
  {
    if trace != [] {
      var before := trace[..|trace| - 1];
      LedgerHoldsExactly(before);
      RecordsHold(before);
      if LedgerThroughout(before) {
        LedgerNow(before);
        StepKeepsLedgerExactly(Run(before), trace[|trace| - 1]);
      }
    }
  }

  /** Without negative specifications every release of a run in which the ledger holds is covered. */
  lemma {:induction false} ModestIsCovered(trace: seq<Step>)
    requires Admissible(trace) && AllModest(trace) && Truthful(trace)
    ensures WellCovered(trace) && LedgerThroughout(trace)
  {
    if trace != [] {
      var before, step := trace[..|trace| - 1], trace[|trace| - 1];
      ModestIsCovered(before);
      LedgerNow(before);
      ModestHolds(before);
      RecordsHold(before);
      if step.Evict? || step.Report? {
        ModestIsReleasable(Run(before), step.wid);
      }
    }
    LedgerHoldsExactly(trace);
  }

  /** Without negative specifications the ledger holds all along a run exactly when its reports are truthful. */
  lemma LedgerFollowsReportsExactly(trace: seq<Step>)
    requires Admissible(trace) && AllModest(trace)
    ensures LedgerThroughout(trace) <==> Truthful(trace)
  {
    LedgerHoldsExactly(trace);
    if Truthful(trace) {
      ModestIsCovered(trace);
    }
  }

  /** In such a run Used equals the load of the stored workloads and stays within Allocatable. */
  lemma LedgerHolds(trace: seq<Step>)
    requires Admissible(trace) && AllModest(trace) && Truthful(trace)
    ensures Ledger(Run(trace)) && Modest(Run(trace))
  {
    ModestIsCovered(trace);
    LedgerNow(trace);
    ModestHolds(trace);
  }

  /** In such a run the two stops at zero are never reached: a release gives back exactly what was charged. */
  lemma ClampsNeverFire(trace: seq<Step>, wid: string)
    requires Admissible(trace) && AllModest(trace) && Truthful(trace) && Has(Run(trace).workloads, wid)
    ensures var s := Run(trace);
            var w := Get(s.workloads, wid).value;
            && Has(s.nodes, w.nodeId)
            && Release(Get(s.nodes, w.nodeId).value.used, w.resources).Plus(w.resources) == Get(s.nodes, w.nodeId).value.used
  {
    RecordsHold(trace);
    LedgerHolds(trace);
    ShareWithinUsed(Run(trace), wid);
  }

  // ----- charged once, released once -----

  function Charges(trace: seq<Step>, wid: string): nat {
    if trace == [] then 0
    else
      var step := trace[|trace| - 1];
      Charges(trace[..|trace| - 1], wid) + if step.Place? && step.wid == wid then 1 else 0
  }

  /** Steps that gave a stored workload's resources back; late and duplicate reports find nothing. */
  function Releases(trace: seq<Step>, wid: string): nat {
    if trace == [] then 0
    else
      var before, step := trace[..|trace| - 1], trace[|trace| - 1];
      Releases(before, wid)
      + if (step == Evict(wid) || (step.Report? && step.wid == wid && step.reported == Terminated))
           && Has(Run(before).workloads, wid) then 1 else 0
  }

  /** In every run each workload is charged at most once and released at most once, and it is stored exactly in between. */
  lemma {:induction false} ChargedAndReleasedOnce(trace: seq<Step>, wid: string)
    requires Admissible(trace)
    ensures Releases(trace, wid) <= Charges(trace, wid) <= 1
    ensures wid in Run(trace).issued <==> Charges(trace, wid) == 1
    ensures Has(Run(trace).workloads, wid) <==> Charges(trace, wid) == 1 && Releases(trace, wid) == 0
  {
    if trace != [] {
      var before, step := trace[..|trace| - 1], trace[|trace| - 1];
      ChargedAndReleasedOnce(before, wid);
      RecordsHold(before);
      StepStores(Run(before), step, wid);
    }
  }

  /** Which steps store or delete the record of a given workload. */
  lemma StepStores(s: State, step: Step, wid: string)
    requires Tidy(s) && Lifecycle(s) && Enabled(s, step)
    ensures Has(Apply(s, step).workloads, wid) <==>
              || (step.Place? && step.wid == wid)
              || (Has(s.workloads, wid) && step != Evict(wid) && !(step.Report? && step.wid == wid && step.reported == Terminated))
    ensures wid in Apply(s, step).issued <==> wid in s.issued || (step.Place? && step.wid == wid)
  {
    match step
    case Place(dep, k, node, created, stamp) =>
      AllPut(s.workloads, k, NewWorkload(Get(s.deployments, dep).value, dep, node, created));
    case Evict(k) => AllRemove(s.workloads, k);
    case Mark(k, stamp) => AllPut(s.workloads, k, Get(s.workloads, k).value.(status := Terminating));
    case Report(k, status, container) =>
      if Has(s.workloads, k) {
        AllRemove(s.workloads, k);
        AllPut(s.workloads, k, Reported(Get(s.workloads, k).value, status, container));
      }
    case DropDeployment(dep) => SweepRemovesNothing(s, dep);
    case _ =>
  }
}
