/** Deployment specifications and their revision history (internal/service/orchestrator.go). */
module Revisions {
  import opened Tables
  import opened Types
  import Rollout
  import Text

  const CLEANUP_FINALIZER := "workloads.cleanup"

  /** The defaults CreateDeployment fills in. */
  function Complete(spec: DeploymentSpec): DeploymentSpec {
    spec.(
      replicas := if spec.replicas <= 0 then 1 else spec.replicas,
      resources := Resource(
        if spec.resources.milliCPU == 0 then 250 else spec.resources.milliCPU,
        if spec.resources.memoryMB == 0 then 256 else spec.resources.memoryMB),
      namespace := if Text.IsBlank(spec.namespace) then "default" else spec.namespace,
      labels := if spec.labels.None? then Some(map[]) else spec.labels,
      tolerations := if spec.tolerations.None? then Some([]) else spec.tolerations,
      rollout := Rollout.Normalize(spec.rollout))
  }

  function NewDeployment(spec: DeploymentSpec): Deployment {
    Deployment(
      Complete(spec), 1, 1, 1, [Revision(1, Complete(spec))],
      Stable, None, 0, 0, 0, [CLEANUP_FINALIZER], false, DeploymentPending)
  }

  /** What an update leaves unset is taken from the live specification. */
  function Inherit(live: DeploymentSpec, next: DeploymentSpec): DeploymentSpec {
    next.(
      rollout := Rollout.Normalize(next.rollout),
      replicas := if next.replicas <= 0 then live.replicas else next.replicas,
      resources := Resource(
        if next.resources.milliCPU == 0 then live.resources.milliCPU else next.resources.milliCPU,
        if next.resources.memoryMB == 0 then live.resources.memoryMB else next.resources.memoryMB),
      labels := if next.labels.None? then live.labels else next.labels,
      tolerations := if next.tolerations.None? then live.tolerations else next.tolerations)
  }

  function Updated(d: Deployment, next: DeploymentSpec, now: int): Deployment {
    var spec := Inherit(d.spec, next);
    var base := d.(spec := spec, generation := d.generation + 1, status := DeploymentPending, phase := Progressing, startedAt := Some(now));
    if spec != d.spec
    then base.(currentRevision := d.currentRevision + 1, history := d.history + [Revision(d.currentRevision + 1, spec)])
    else base
  }

  function Find(history: seq<Revision>, target: int): Option<Revision> {
    if history == [] then None
    else if history[0].revision == target then Some(history[0])
    else Find(history[1..], target)
  }

  /** The lookup loop of both rollbacks: the first entry that carries the target revision. */
  method FindRevision(history: seq<Revision>, target: int) returns (r: Option<Revision>)
    ensures r == Find(history, target)
  {
    for i := 0 to |history|
      invariant Find(history, target) == Find(history[i..], target)
    {
      if history[i].revision == target { return Some(history[i]); }
    }
    return None;
  }

  function Restored(d: Deployment, entry: Revision, phase: Phase, now: int): Deployment {
    var spec := entry.spec.(rollout := Rollout.Normalize(entry.spec.rollout));
    d.(spec := spec, generation := d.generation + 1, currentRevision := d.currentRevision + 1,
       history := d.history + [Revision(d.currentRevision + 1, spec)],
       status := DeploymentPending, phase := phase, startedAt := Some(now))
  }

  function DefaultTarget(d: Deployment, target: int): int {
    if target <= 0 then d.currentRevision - 1 else target
  }

  /** RollbackDeployment on the record it has read; None is the error return. */
  function RolledBack(d: Deployment, target: int, now: int): Option<Deployment> {
    match Find(d.history, DefaultTarget(d, target))
    case None => None
    case Some(entry) => Some(Restored(d, entry, Progressing, now))
  }

  /** rollbackDeploymentLocked, as the progress deadline calls it. */
  function AutoRolledBack(d: Deployment, now: int): Deployment {
    match Find(d.history, d.currentRevision - 1)
    case None => d
    case Some(entry) => Restored(d, entry, Rollback, now)
  }

  function Scaled(d: Deployment, replicas: int, now: int): Deployment {
    d.(spec := d.spec.(replicas := replicas), generation := d.generation + 1, status := DeploymentPending,
       phase := Autoscaling, startedAt := if d.startedAt.None? then Some(now) else d.startedAt)
  }

  // ----- invariant -----

  /** A specification as the control plane stores it. */
  predicate Settled(spec: DeploymentSpec) {
    spec.replicas >= 1 && spec.rollout == Rollout.Normalize(spec.rollout)
  }

  /** Entry i is revision i + 1, the last one is live up to the replica count, and everything stored is settled. */
  ghost predicate WellFormed(d: Deployment) {
    && d.currentRevision == |d.history| >= 1
    && (forall i :: 0 <= i < |d.history| ==> d.history[i].revision == i + 1 && Settled(d.history[i].spec))
    && Settled(d.spec)
    && d.history[|d.history| - 1].spec.(replicas := d.spec.replicas) == d.spec
  }

  lemma NormalizeIsIdempotent(r: RolloutSpec)
    ensures Rollout.Normalize(Rollout.Normalize(r)) == Rollout.Normalize(r)
  {
  }

  lemma {:induction false} FindInOrder(history: seq<Revision>, first: int, target: int)
    requires forall i :: 0 <= i < |history| ==> history[i].revision == first + i
    ensures Find(history, target)
         == if first <= target < first + |history| then Some(history[target - first]) else None
  {
    if history != [] {
      FindInOrder(history[1..], first + 1, target);
    }
  }

  /** A lookup succeeds exactly for recorded revisions. */
  lemma FindRecorded(d: Deployment, target: int)
    requires WellFormed(d)
    ensures Find(d.history, target) == if 1 <= target <= d.currentRevision then Some(d.history[target - 1]) else None
  {
    FindInOrder(d.history, 1, target);
  }

  lemma NewIsWellFormed(spec: DeploymentSpec)
    ensures WellFormed(NewDeployment(spec))
  {
    NormalizeIsIdempotent(spec.rollout);
  }

  lemma UpdateIsWellFormed(d: Deployment, next: DeploymentSpec, now: int)
    requires WellFormed(d)
    ensures WellFormed(Updated(d, next, now)) && d.history <= Updated(d, next, now).history
  {
    NormalizeIsIdempotent(next.rollout);
  }

  /** A record after a change of specification: recorded entries stay, the revision rises exactly when the specification changes. */
  ghost predicate Succeeds(d: Deployment, e: Deployment) {
    && d.history <= e.history
    && e.currentRevision == d.currentRevision + (if e.spec == d.spec then 0 else 1)
    && (e.spec != d.spec ==> e.history == d.history + [Revision(e.currentRevision, e.spec)])
    && e.generation == d.generation + 1 && e.deletionMarked == d.deletionMarked && e.finalizers == d.finalizers
    && e.phase == Progressing && e.status == DeploymentPending
  }

  /** Limits and counts below zero count as zero. */
  predicate Clipped(stored: int, given: int) {
    stored == if given > 0 then given else 0
  }

  /** The stored rollout settings are the given ones, with negative numbers and a missing strategy filled in. */
  predicate SettingsOf(stored: RolloutSpec, given: RolloutSpec) {
    && (given.strategy != "" ==> stored.strategy == given.strategy)
    && (given.strategy == "" ==> stored.strategy == "RollingUpdate")
    && Clipped(stored.maxUnavailable, given.maxUnavailable) && Clipped(stored.maxSurge, given.maxSurge)
    && Clipped(stored.progressDeadlineSeconds, given.progressDeadlineSeconds)
    && Clipped(stored.maxFailedWorkloads, given.maxFailedWorkloads) && Clipped(stored.sloWindowSeconds, given.sloWindowSeconds)
    && stored.autoRollbackOnFailure == given.autoRollbackOnFailure
    && (given.sloErrorRateThreshold >= 0.0 ==> stored.sloErrorRateThreshold == given.sloErrorRateThreshold)
    && (given.sloErrorRateThreshold < 0.0 ==> stored.sloErrorRateThreshold == 0.0)
    && (if given.strategy != "Canary"
        then stored.canaryEnabled == given.canaryEnabled && stored.canaryPercentage == given.canaryPercentage
        else && stored.canaryEnabled && 1 <= stored.canaryPercentage <= 100
             && (1 <= given.canaryPercentage <= 100 ==> stored.canaryPercentage == given.canaryPercentage)
             && (given.canaryPercentage < 1 ==> stored.canaryPercentage == 20)
             && (given.canaryPercentage > 100 ==> stored.canaryPercentage == 100))
  }

  /** Whatever the submitted specification sets is stored, and whatever it leaves unset is as it was. */
  predicate TakesOver(live: DeploymentSpec, given: DeploymentSpec, stored: DeploymentSpec) {
    && stored.namespace == given.namespace && stored.name == given.name && stored.image == given.image
    && stored.priority == given.priority && stored.extras == given.extras && SettingsOf(stored.rollout, given.rollout)
    && (given.replicas >= 1 ==> stored.replicas == given.replicas) && (given.replicas < 1 ==> stored.replicas == live.replicas)
    && (given.resources.milliCPU != 0 ==> stored.resources.milliCPU == given.resources.milliCPU)
    && (given.resources.milliCPU == 0 ==> stored.resources.milliCPU == live.resources.milliCPU)
    && (given.resources.memoryMB != 0 ==> stored.resources.memoryMB == given.resources.memoryMB)
    && (given.resources.memoryMB == 0 ==> stored.resources.memoryMB == live.resources.memoryMB)
    && (given.labels.Some? ==> stored.labels == given.labels) && (given.labels.None? ==> stored.labels == live.labels)
    && (given.tolerations.Some? ==> stored.tolerations == given.tolerations)
    && (given.tolerations.None? ==> stored.tolerations == live.tolerations)
  }

  lemma NormalizeKeepsSettings(r: RolloutSpec)
    ensures SettingsOf(Rollout.Normalize(r), r)
  {
  }

  lemma InheritTakesOver(live: DeploymentSpec, next: DeploymentSpec)
    ensures TakesOver(live, next, Inherit(live, next))
  {
    NormalizeKeepsSettings(next.rollout);
    assert Inherit(live, next).rollout == Rollout.Normalize(next.rollout);
  }

  lemma UpdateTakesOver(d: Deployment, next: DeploymentSpec, now: int)
    ensures TakesOver(d.spec, next, Updated(d, next, now).spec)
  {
    InheritTakesOver(d.spec, next);
    assert Updated(d, next, now).spec == Inherit(d.spec, next);
  }

  /** A created deployment stores what was submitted, with the defaults of the control plane for what was not. */
  lemma CreateTakesOver(spec: DeploymentSpec)
    ensures var defaults := spec.(replicas := 1, resources := Resource(250, 256), labels := Some(map[]), tolerations := Some([]));
            var stored := NewDeployment(spec).spec;
            && TakesOver(defaults, spec.(namespace := stored.namespace), stored)
            && stored.namespace == (if Text.TrimSpace(spec.namespace) == "" then "default" else spec.namespace)
    ensures var d := NewDeployment(spec);
            && d.generation == d.observedGeneration == d.currentRevision == 1 && d.history == [Revision(1, d.spec)]
            && d.phase == Stable && d.startedAt.None? && d.status == DeploymentPending
            && d.finalizers == ["workloads.cleanup"] && !d.deletionMarked
  {
    NormalizeKeepsSettings(spec.rollout);
  }

  lemma UpdateSucceeds(d: Deployment, next: DeploymentSpec, now: int)
    ensures Succeeds(d, Updated(d, next, now)) && Updated(d, next, now).startedAt == Some(now)
  {
  }

  lemma RestoreIsWellFormed(d: Deployment, k: int, phase: Phase, now: int)
    requires WellFormed(d) && 1 <= k <= d.currentRevision
    ensures var r := Restored(d, d.history[k - 1], phase, now);
            WellFormed(r) && r.spec == d.history[k - 1].spec && r.history == d.history + [Revision(d.currentRevision + 1, r.spec)]
  {
  }

  /** A rollback succeeds exactly for recorded targets, restores that specification and records it as a new revision. */
  lemma RollbackExactly(d: Deployment, target: int, now: int)
    requires WellFormed(d)
    ensures var t := if target >= 1 then target else d.currentRevision - 1;
            && (RolledBack(d, target, now).Some? <==> 1 <= t <= d.currentRevision)
            && (RolledBack(d, target, now).Some? ==>
                  var r := RolledBack(d, target, now).value;
                  && WellFormed(r) && r.spec == d.history[t - 1].spec
                  && r.history == d.history + [Revision(d.currentRevision + 1, r.spec)]
                  && r.generation == d.generation + 1 && r.deletionMarked == d.deletionMarked && r.finalizers == d.finalizers
                  && r.phase == Progressing && r.status == DeploymentPending && r.startedAt == Some(now))
  {
    var t := DefaultTarget(d, target);
    FindRecorded(d, t);
    if 1 <= t <= d.currentRevision {
      RestoreIsWellFormed(d, t, Progressing, now);
    }
  }

  lemma AutoRollbackIsWellFormed(d: Deployment, now: int)
    requires WellFormed(d)
    ensures WellFormed(AutoRolledBack(d, now)) && d.history <= AutoRolledBack(d, now).history
    ensures d.currentRevision > 1 ==>
              var r := AutoRolledBack(d, now);
              && r.spec == d.history[d.currentRevision - 2].spec && r.history == d.history + [Revision(d.currentRevision + 1, r.spec)]
              && r.generation == d.generation + 1 && r.deletionMarked == d.deletionMarked && r.finalizers == d.finalizers
              && r.phase == Rollback && r.status == DeploymentPending && r.startedAt == Some(now)
  {
    FindRecorded(d, d.currentRevision - 1);
    if d.currentRevision > 1 {
      RestoreIsWellFormed(d, d.currentRevision - 1, Rollback, now);
    }
  }

  // ----- runs -----

  datatype Change =
    | Update(next: DeploymentSpec, at: int)
    | RollbackTo(target: int, at: int)
    | DeadlineRollback(at: int)
    | Autoscale(replicas: int, at: int)
    | Reconcile(phase: Phase, status: DeploymentStatus)

  /** An autoscaler writes the replica counts of a normalised policy; every other change is free. */
  predicate Allowed(c: Change) {
    c.Autoscale? ==> c.replicas >= 1
  }

  function After(d: Deployment, c: Change): Deployment {
    match c
    case Update(next, at) => Updated(d, next, at)
    case RollbackTo(target, at) => (match RolledBack(d, target, at) case None => d case Some(r) => r)
    case DeadlineRollback(at) => AutoRolledBack(d, at)
    case Autoscale(r, at) => Scaled(d, r, at)
    case Reconcile(phase, status) => d.(phase := phase, status := status, spec := d.spec.(rollout := Rollout.Normalize(d.spec.rollout)))
  }

  function AfterAll(d: Deployment, cs: seq<Change>): Deployment {
    if cs == [] then d else After(AfterAll(d, cs[..|cs| - 1]), cs[|cs| - 1])
  }

  lemma ChangeIsWellFormed(d: Deployment, c: Change)
    requires WellFormed(d) && Allowed(c)
    ensures WellFormed(After(d, c)) && d.history <= After(d, c).history
  {
    match c
    case Update(next, at) => UpdateIsWellFormed(d, next, at);
    case RollbackTo(target, at) => RollbackExactly(d, target, at);
    case DeadlineRollback(at) => AutoRollbackIsWellFormed(d, at);
    case Autoscale(r, at) =>
    case Reconcile(phase, status) =>
  }

  lemma {:induction false} RunIsWellFormed(d: Deployment, cs: seq<Change>)
    requires WellFormed(d) && forall i :: 0 <= i < |cs| ==> Allowed(cs[i])
    ensures WellFormed(AfterAll(d, cs))
  {
    if cs != [] {
      RunIsWellFormed(d, cs[..|cs| - 1]);
      ChangeIsWellFormed(AfterAll(d, cs[..|cs| - 1]), cs[|cs| - 1]);
    }
  }

  lemma {:induction false} RunKeepsEntries(d: Deployment, cs: seq<Change>, n: nat)
    requires WellFormed(d) && n <= |cs| && forall i :: 0 <= i < |cs| ==> Allowed(cs[i])
    ensures AfterAll(d, cs[..n]).history <= AfterAll(d, cs).history
    decreases cs
  {
    if n == |cs| {
      assert cs[..n] == cs;
    } else {
      var before := cs[..|cs| - 1];
      RunKeepsEntries(d, before, n);
      assert before[..n] == cs[..n];
      RunIsWellFormed(d, before);
      ChangeIsWellFormed(AfterAll(d, before), cs[|cs| - 1]);
    }
  }

  /** Over any run the history stays in step with the revision counter, and no recorded entry ever changes. */
  lemma HistoryHolds(spec: DeploymentSpec, cs: seq<Change>, n: nat)
    requires n <= |cs| && forall i :: 0 <= i < |cs| ==> Allowed(cs[i])
    ensures WellFormed(AfterAll(NewDeployment(spec), cs))
    ensures AfterAll(NewDeployment(spec), cs[..n]).history <= AfterAll(NewDeployment(spec), cs).history
  {
    NewIsWellFormed(spec);
    RunIsWellFormed(NewDeployment(spec), cs);
    RunKeepsEntries(NewDeployment(spec), cs, n);
  }

  /** Two default rollbacks in a row bring back the specification that was recorded first. */
  lemma TwoRollbacksUndoEachOther(d: Deployment, t1: int, t2: int)
    requires WellFormed(d) && d.currentRevision >= 2
    ensures RolledBack(d, 0, t1).Some?
    ensures RolledBack(RolledBack(d, 0, t1).value, 0, t2).Some?
    ensures RolledBack(RolledBack(d, 0, t1).value, 0, t2).value.spec == d.history[d.currentRevision - 1].spec
  {
    RollbackExactly(d, 0, t1);
    RollbackExactly(RolledBack(d, 0, t1).value, 0, t2);
  }
}
