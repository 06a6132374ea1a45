/** tryPreemptForPriority and the placement retry of internal/service/orchestrator.go. */
module Preemption {
  import opened Tables
  import opened Types
  import opened Cluster
  import Scheduler
  import Sorting

  function Outranked(dep: string, priority: int): Workload -> bool {
    (w: Workload) => w.priority < priority && w.deploymentId != dep
  }

  /** Lower priority first, the newer one on ties. */
  predicate EvictedBefore(a: Entry<Workload>, b: Entry<Workload>) {
    if a.rec.priority != b.rec.priority then a.rec.priority < b.rec.priority
    else a.rec.createdAt > b.rec.createdAt
  }

  lemma EvictedBeforeIsOrder()
    ensures Sorting.StrictWeakOrder(EvictedBefore)
  {
  }

  /** Evicting v alone would make the request fit on v's node, and that node is Ready. */
  predicate MakesRoom(nodes: seq<Entry<Node>>, v: Entry<Workload>, req: Resource) {
    match Get(nodes, v.rec.nodeId)
    case None => false
    case Some(n) =>
      && n.status == Ready
      && req.milliCPU <= n.allocatable.milliCPU - n.used.milliCPU + v.rec.resources.milliCPU
      && req.memoryMB <= n.allocatable.memoryMB - n.used.memoryMB + v.rec.resources.memoryMB
  }

  function FirstMakingRoom(nodes: seq<Entry<Node>>, vs: seq<Entry<Workload>>, req: Resource): Option<Entry<Workload>> {
    if vs == [] then None
    else if MakesRoom(nodes, vs[0], req) then Some(vs[0])
    else FirstMakingRoom(nodes, vs[1..], req)
  }

  function Victim(nodes: seq<Entry<Node>>, ws: seq<Entry<Workload>>, dep: string, spec: DeploymentSpec): Option<Entry<Workload>> {
    FirstMakingRoom(nodes, Sorting.StableSort(Filter(ws, Outranked(dep, spec.priority)), EvictedBefore), spec.resources)
  }

  lemma {:induction false} FirstMakingRoomIndex(nodes: seq<Entry<Node>>, vs: seq<Entry<Workload>>, req: Resource) returns (k: nat)
    ensures FirstMakingRoom(nodes, vs, req).None? ==> forall v | v in vs :: !MakesRoom(nodes, v, req)
    ensures FirstMakingRoom(nodes, vs, req).Some? ==>
              && k < |vs| && FirstMakingRoom(nodes, vs, req).value == vs[k] && MakesRoom(nodes, vs[k], req)
              && forall j :: 0 <= j < k ==> !MakesRoom(nodes, vs[j], req)
  {
    k := 0;
    if vs != [] && !MakesRoom(nodes, vs[0], req) {
      var m := FirstMakingRoomIndex(nodes, vs[1..], req);
      k := m + 1;
      assert vs == [vs[0]] + vs[1..];
    }
  }

  /** The fields of v put it at or before u in the order of eviction: lower priority, then newer. */
  predicate NoLaterThan(v: Workload, u: Workload) {
    v.priority < u.priority || (v.priority == u.priority && v.createdAt >= u.createdAt)
  }

  /**
   * There is a victim exactly when some strictly lower-priority workload of another deployment
   * makes room on its own; the victim is such a workload of the lowest priority, and the newest of those.
   */
  lemma VictimIsLowest(nodes: seq<Entry<Node>>, ws: seq<Entry<Workload>>, dep: string, spec: DeploymentSpec)
    ensures Victim(nodes, ws, dep, spec).None? <==>
              forall u | u in ws && u.rec.priority < spec.priority && u.rec.deploymentId != dep :: !MakesRoom(nodes, u, spec.resources)
    ensures Victim(nodes, ws, dep, spec).Some? ==>
              var v := Victim(nodes, ws, dep, spec).value;
              && v in ws && v.rec.priority < spec.priority && v.rec.deploymentId != dep
              && MakesRoom(nodes, v, spec.resources)
              && forall u | u in ws && u.rec.priority < spec.priority && u.rec.deploymentId != dep && MakesRoom(nodes, u, spec.resources) ::
                   NoLaterThan(v.rec, u.rec)
  {
    var cs := Filter(ws, Outranked(dep, spec.priority));
    var vs := Sorting.StableSort(cs, EvictedBefore);
    FilterMembers(ws, Outranked(dep, spec.priority));
    Sorting.SortElements(cs, EvictedBefore);
    EvictedBeforeIsOrder();
    Sorting.SortOrders(cs, EvictedBefore);
    var k := FirstMakingRoomIndex(nodes, vs, spec.resources);
    if Victim(nodes, ws, dep, spec).Some? {
      forall u | u in cs && MakesRoom(nodes, u, spec.resources) ensures NoLaterThan(vs[k].rec, u.rec) {
        assert u in vs;
        var j :| 0 <= j < |vs| && vs[j] == u;
        assert j >= k && !EvictedBefore(u, vs[k]);
      }
      assert vs[k] in vs && vs[k] in cs;
    }
    forall u | u in ws && u.rec.priority < spec.priority && u.rec.deploymentId != dep ensures u in cs && u in vs {
    }
  }

  /** The eligible nodes of a listing, by membership. */
  lemma SelectByMembers(nodes: seq<Entry<Node>>, req: Resource, labels: map<string, string>,
                        tols: seq<Toleration>, score: Scheduler.Score)
    ensures Scheduler.Select(nodes, req, labels, tols, score).None? <==>
              forall e | e in nodes :: !Scheduler.Eligible(e.rec, req, labels, tols)
    ensures Scheduler.Select(nodes, req, labels, tols, score).Some? ==>
              var e := Scheduler.Select(nodes, req, labels, tols, score).value;
              e in nodes && Scheduler.Eligible(e.rec, req, labels, tols)
  {
    Scheduler.SelectFails(nodes, req, labels, tols, score);
    if Scheduler.Select(nodes, req, labels, tols, score).Some? {
      var i := Scheduler.SelectIsLeftmostCheapest(nodes, req, labels, tols, score);
    }
  }

  /** The victim's node after the eviction: only Used has changed, by exactly the victim's share. */
  lemma EvictionFreesNode(s: State, v: Entry<Workload>, req: Resource)
    requires Tidy(s) && Ledger(s) && Modest(s) && v in s.workloads && MakesRoom(s.nodes, v, req)
    ensures Has(s.nodes, v.rec.nodeId)
    ensures var n := Get(s.nodes, v.rec.nodeId).value;
            var freed := n.(used := Release(n.used, v.rec.resources));
            && Apply(s, Evict(v.id)).nodes == Put(s.nodes, v.rec.nodeId, freed)
            && freed.status == Ready && Scheduler.Fits(freed, req)
  {
    GetEntry(s.workloads, v);
    ShareWithinUsed(s, v.id);
  }

  /** Replacing one node of a listing in which nothing was eligible leaves at most that node to select. */
  lemma SelectAfterReplace(nodes: seq<Entry<Node>>, id: string, n: Node, req: Resource, labels: map<string, string>,
                           tols: seq<Toleration>, score: Scheduler.Score)
    requires Scheduler.Select(nodes, req, labels, tols, score).None?
    ensures Scheduler.Select(Put(nodes, id, n), req, labels, tols, score)
         == if Scheduler.Eligible(n, req, labels, tols) then Some(Entry(id, n)) else None
  {
    GetPut(nodes, id, n, id);
    GetMember(Put(nodes, id, n), id);
    PutMembers(nodes, id, n);
    SelectByMembers(nodes, req, labels, tols, score);
    SelectByMembers(Put(nodes, id, n), req, labels, tols, score);
  }

  /** Whatever Used says, the retry after an eviction can only return the victim's node, as the eviction leaves it. */
  lemma RetryReturnsOnlyVictimNode(s: State, dep: string, spec: DeploymentSpec, score: Scheduler.Score)
    requires Tidy(s)
    requires Scheduler.Select(s.nodes, spec.resources, spec.LabelMap(), spec.TolerationList(), score).None?
    requires Victim(s.nodes, s.workloads, dep, spec).Some?
    ensures var v := Victim(s.nodes, s.workloads, dep, spec).value;
            && Has(s.nodes, v.rec.nodeId)
            && var n := Get(s.nodes, v.rec.nodeId).value;
               var freed := n.(used := Release(n.used, v.rec.resources));
               Scheduler.Select(Apply(s, Evict(v.id)).nodes, spec.resources, spec.LabelMap(), spec.TolerationList(), score)
               == if Scheduler.Eligible(freed, spec.resources, spec.LabelMap(), spec.TolerationList())
                  then Some(Entry(v.rec.nodeId, freed)) else None
  {
    VictimIsLowest(s.nodes, s.workloads, dep, spec);
    var v := Victim(s.nodes, s.workloads, dep, spec).value;
    GetEntry(s.workloads, v);
    var n := Get(s.nodes, v.rec.nodeId).value;
    var freed := n.(used := Release(n.used, v.rec.resources));
    SelectAfterReplace(s.nodes, v.rec.nodeId, freed, spec.resources, spec.LabelMap(), spec.TolerationList(), score);
  }

  /**
   * After a failed selection and an eviction, the retry can only return the victim's node,
   * and returns it exactly when that node's taints and affinity admit the deployment.
   */
  lemma RetryLandsOnVictimNode(s: State, dep: string, spec: DeploymentSpec, score: Scheduler.Score)
    requires Tidy(s) && Ledger(s) && Modest(s)
    requires Scheduler.Select(s.nodes, spec.resources, spec.LabelMap(), spec.TolerationList(), score).None?
    requires Victim(s.nodes, s.workloads, dep, spec).Some?
    ensures var v := Victim(s.nodes, s.workloads, dep, spec).value;
            var t := Apply(s, Evict(v.id));
            && Has(s.nodes, v.rec.nodeId) && Has(t.nodes, v.rec.nodeId)
            && var n := Get(s.nodes, v.rec.nodeId).value;
               Scheduler.Select(t.nodes, spec.resources, spec.LabelMap(), spec.TolerationList(), score)
               == if Scheduler.Admits(n, spec.LabelMap(), spec.TolerationList())
                  then Some(Entry(v.rec.nodeId, Get(t.nodes, v.rec.nodeId).value)) else None
  {
    VictimIsLowest(s.nodes, s.workloads, dep, spec);
    var v := Victim(s.nodes, s.workloads, dep, spec).value;
    EvictionFreesNode(s, v, spec.resources);
    var n := Get(s.nodes, v.rec.nodeId).value;
    var freed := n.(used := Release(n.used, v.rec.resources));
    GetPut(s.nodes, v.rec.nodeId, freed, v.rec.nodeId);
    SelectAfterReplace(s.nodes, v.rec.nodeId, freed, spec.resources, spec.LabelMap(), spec.TolerationList(), score);
  }

  // ----- one placement -----

  function SelectFor(nodes: seq<Entry<Node>>, spec: DeploymentSpec, score: Scheduler.Score): Option<Entry<Node>> {
    Scheduler.Select(nodes, spec.resources, spec.LabelMap(), spec.TolerationList(), score)
  }

  /** The eviction that a failed first selection causes, at most one per placement. */
  function EvictedFor(s: State, dep: string, spec: DeploymentSpec, score: Scheduler.Score): Option<Entry<Workload>> {
    if SelectFor(s.nodes, spec, score).None? && spec.priority > 0 then Victim(s.nodes, s.workloads, dep, spec) else None
  }

  /** A placement preempts exactly when no node is eligible, the deployment's priority is positive and some outranked workload makes room. */
  lemma PreemptsExactly(s: State, dep: string, spec: DeploymentSpec, score: Scheduler.Score)
    ensures EvictedFor(s, dep, spec, score).Some? <==>
              && (forall e | e in s.nodes :: !Scheduler.Eligible(e.rec, spec.resources, spec.LabelMap(), spec.TolerationList()))
              && spec.priority >= 1
              && exists u | u in s.workloads ::
                   u.rec.priority < spec.priority && u.rec.deploymentId != dep && MakesRoom(s.nodes, u, spec.resources)
  {
    SelectByMembers(s.nodes, spec.resources, spec.LabelMap(), spec.TolerationList(), score);
    VictimIsLowest(s.nodes, s.workloads, dep, spec);
  }

  function Relieved(s: State, dep: string, spec: DeploymentSpec, score: Scheduler.Score): State {
    match EvictedFor(s, dep, spec, score)
    case None => s
    case Some(v) => Apply(s, Evict(v.id))
  }

  /** The node a placement ends on, if any. */
  function PlacementNode(s: State, dep: string, spec: DeploymentSpec, score: Scheduler.Score): Option<Entry<Node>> {
    SelectFor(Relieved(s, dep, spec, score).nodes, spec, score)
  }

  lemma EvictionIsEnabled(s: State, dep: string, spec: DeploymentSpec, score: Scheduler.Score)
    requires Tidy(s) && EvictedFor(s, dep, spec, score).Some?
    ensures var v := EvictedFor(s, dep, spec, score).value;
            Get(s.workloads, v.id) == Some(v.rec) && Enabled(s, Evict(v.id)) && v.rec.deploymentId != dep
  {
    VictimIsLowest(s.nodes, s.workloads, dep, spec);
    GetEntry(s.workloads, EvictedFor(s, dep, spec, score).value);
  }

  lemma PlacementNodeFits(s: State, dep: string, spec: DeploymentSpec, score: Scheduler.Score)
    requires Tidy(s) && PlacementNode(s, dep, spec, score).Some?
    ensures var e := PlacementNode(s, dep, spec, score).value;
            Get(Relieved(s, dep, spec, score).nodes, e.id) == Some(e.rec) && Scheduler.Fits(e.rec, spec.resources)
  {
    var t := Relieved(s, dep, spec, score);
    if EvictedFor(s, dep, spec, score).Some? {
      PutStaysOrdered(s, Evict(EvictedFor(s, dep, spec, score).value.id));
    }
    SelectByMembers(t.nodes, spec.resources, spec.LabelMap(), spec.TolerationList(), score);
    GetEntry(t.nodes, PlacementNode(s, dep, spec, score).value);
  }

  // ----- an eviction in vain -----

  const UNIT := Resource(1, 1)
  const TAINTED := Node(map[], [Taint("gpu", "yes", "NoSchedule")], UNIT, UNIT, Ready)
  const MINOR := Workload("low", 0, "n1", "img", UNIT, Running, "", 0, 1, 0)
  const MAJOR := DeploymentSpec("default", "high", "img", 1, 5, UNIT, None, None, "",
                                RolloutSpec("RollingUpdate", 0, 0, false, 0, 0, false, 0, 0.0, 0))

  /** The only node is tainted: a lower-priority workload is evicted from it and the retry still fails. */
  lemma EvictionInVain(score: Scheduler.Score)
    ensures var nodes, ws := [Entry("n1", TAINTED)], [Entry("w1", MINOR)];
            var freed := TAINTED.(used := Release(UNIT, UNIT));
            && Victim(nodes, ws, "high", MAJOR) == Some(Entry("w1", MINOR))
            && Scheduler.Select(nodes, UNIT, MAJOR.LabelMap(), MAJOR.TolerationList(), score).None?
            && Scheduler.Select(Put(nodes, "n1", freed), UNIT, MAJOR.LabelMap(), MAJOR.TolerationList(), score).None?
  {
    var nodes, ws := [Entry("n1", TAINTED)], [Entry("w1", MINOR)];
    VictimIsLowest(nodes, ws, "high", MAJOR);
    assert ws[0] in ws && MakesRoom(nodes, ws[0], UNIT);
    Scheduler.SelectFails(nodes, UNIT, map[], [], score);
    var freed := TAINTED.(used := Release(UNIT, UNIT));
    assert !Scheduler.Tolerates(freed, []) by { assert freed.taints[0] in freed.taints; }
    SelectAfterReplace(nodes, "n1", freed, UNIT, map[], [], score);
  }
}
