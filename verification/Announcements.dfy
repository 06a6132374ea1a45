/** Whether a worker is told to start a workload, and how often it is told to stop it. */
module Announcements {
  import opened Tables
  import opened Types
  import opened Cluster
  import Protocol

  /** The deletes ever enqueued for a workload. */
  function Deletes(log: seq<Assignment>, wid: string): nat {
    if log == [] then 0
    else
      var a := log[|log| - 1];
      Deletes(log[..|log| - 1], wid) + if a.action == Delete && a.workloadId == wid then 1 else 0
  }

  lemma DeletesAppend(log: seq<Assignment>, a: Assignment, wid: string)
    ensures Deletes(log + [a], wid) == Deletes(log, wid) + if a.action == Delete && a.workloadId == wid then 1 else 0
  {
    assert (log + [a])[..|log|] == log;
  }

  lemma {:induction false} HasDeleteCounts(log: seq<Assignment>, wid: string)
    ensures (exists a :: a in log && a.action == Delete && a.workloadId == wid) <==> Deletes(log, wid) > 0
  {
    if log != [] {
      HasDeleteCounts(log[..|log| - 1], wid);
      assert log == log[..|log| - 1] + [log[|log| - 1]];
    }
  }

  /** Only a mark enqueues a delete, one for the workload it marks. */
  lemma StepAddsDelete(s: State, step: Step, wid: string)
    requires Enabled(s, step)
    ensures Deletes(Apply(s, step).log, wid) == Deletes(s.log, wid) + if step.Mark? && step.wid == wid then 1 else 0
  {
    match step
    case Place(dep, k, node, created, stamp) =>
      var w := NewWorkload(Get(s.deployments, dep).value, dep, node, created);
      if stamp.Some? {
        DeletesAppend(s.log, CreateAssignment(w, k, stamp.value), wid);
      }
    case Mark(k, stamp) => DeletesAppend(s.log, DeleteAssignment(Get(s.workloads, k).value, k, stamp), wid);
    case _ =>
  }

  // ----- workloads that get no further delete -----

  predicate IsTerminating(s: State, wid: string) {
    Has(s.workloads, wid) && Get(s.workloads, wid).value.status == Terminating
  }

  /** The record is gone: evicted, or reported Terminated. */
  predicate IsGone(s: State, wid: string) {
    wid in s.issued && !Has(s.workloads, wid)
  }

  /** A report that would take a Terminating workload back. */
  predicate TakesBack(step: Step, wid: string) {
    step.Report? && step.wid == wid && step.reported != Terminating && step.reported != Terminated
  }

  /** What a step does to the status of one stored workload. */
  lemma StatusAfter(s: State, step: Step, wid: string)
    requires Tidy(s) && Lifecycle(s) && Enabled(s, step) && Has(s.workloads, wid) && Has(Apply(s, step).workloads, wid)
    ensures Get(Apply(s, step).workloads, wid).value.status ==
              if step.Mark? && step.wid == wid then Terminating
              else if step.Report? && step.wid == wid then step.reported
              else Get(s.workloads, wid).value.status
  {
    match step
    case Place(dep, k, node, created, stamp) => GetPut(s.workloads, k, NewWorkload(Get(s.deployments, dep).value, dep, node, created), wid);
    case Evict(k) => GetRemove(s.workloads, k, wid);
    case Mark(k, stamp) => GetPut(s.workloads, k, Get(s.workloads, k).value.(status := Terminating), wid);
    case Report(k, status, container) =>
      if Has(s.workloads, k) {
        GetRemove(s.workloads, k, wid);
        GetPut(s.workloads, k, Reported(Get(s.workloads, k).value, status, container), wid);
      }
    case DropDeployment(dep) => SweepRemovesNothing(s, dep);
    case _ =>
  }

  lemma QuietStep(s: State, step: Step, wid: string)
    requires Tidy(s) && Lifecycle(s) && Enabled(s, step) && !TakesBack(step, wid)
    requires IsTerminating(s, wid) || IsGone(s, wid)
    ensures IsTerminating(Apply(s, step), wid) || IsGone(Apply(s, step), wid)
    ensures IsGone(s, wid) ==> IsGone(Apply(s, step), wid)
    ensures Deletes(Apply(s, step).log, wid) == Deletes(s.log, wid)
  {
    StepStores(s, step, wid);
    StepAddsDelete(s, step, wid);
    if Has(s.workloads, wid) && Has(Apply(s, step).workloads, wid) {
      StatusAfter(s, step, wid);
    }
  }

  /** In every run, a workload that is Terminating gets no delete, and no further one, until a report takes it back. */
  lemma {:induction false} NoDeleteWhileTerminating(trace: seq<Step>, more: seq<Step>, wid: string)
    requires Admissible(trace) && Admissible(trace + more)
    requires IsTerminating(Run(trace), wid) || IsGone(Run(trace), wid)
    requires forall i | 0 <= i < |more| :: !TakesBack(more[i], wid)
    ensures IsTerminating(Run(trace + more), wid) || IsGone(Run(trace + more), wid)
    ensures Deletes(Run(trace + more).log, wid) == Deletes(Run(trace).log, wid)
    decreases more
  {
    if more == [] {
      assert trace + more == trace;
    } else {
      var n := |more| - 1;
      LastStep(trace, more);
      NoDeleteWhileTerminating(trace, more[..n], wid);
      RecordsHold(trace + more[..n]);
      QuietStep(Run(trace + more[..n]), more[n], wid);
    }
  }

  /** In every run, a workload whose record is gone never gets another delete, whatever is reported. */
  lemma {:induction false} NoDeleteOnceGone(trace: seq<Step>, more: seq<Step>, wid: string)
    requires Admissible(trace) && Admissible(trace + more) && IsGone(Run(trace), wid)
    ensures IsGone(Run(trace + more), wid) && Deletes(Run(trace + more).log, wid) == Deletes(Run(trace).log, wid)
    decreases more
  {
    if more == [] {
      assert trace + more == trace;
    } else {
      var n := |more| - 1;
      LastStep(trace, more);
      NoDeleteOnceGone(trace, more[..n], wid);
      RecordsHold(trace + more[..n]);
      GoneStep(Run(trace + more[..n]), more[n], wid);
    }
  }

  lemma GoneStep(s: State, step: Step, wid: string)
    requires Tidy(s) && Lifecycle(s) && Enabled(s, step) && IsGone(s, wid)
    ensures IsGone(Apply(s, step), wid) && Deletes(Apply(s, step).log, wid) == Deletes(s.log, wid)
  {
    StepStores(s, step, wid);
    StepAddsDelete(s, step, wid);
  }

  /** An evicted workload is told to stop after its eviction only if it had been told before: the eviction enqueues nothing. */
  lemma EvictedIsNeverTold(trace: seq<Step>, wid: string, more: seq<Step>)
    requires Admissible(trace) && Enabled(Run(trace), Evict(wid)) && Admissible(trace + [Evict(wid)] + more)
    ensures Deletes(Run(trace + [Evict(wid)] + more).log, wid) == Deletes(Run(trace).log, wid)
    ensures Protocol.HasDelete(Run(trace + [Evict(wid)] + more), wid) <==> Protocol.HasDelete(Run(trace), wid)
  {
    RunExtends(trace, Evict(wid));
    RecordsHold(trace);
    StepStores(Run(trace), Evict(wid), wid);
    StepAddsDelete(Run(trace), Evict(wid), wid);
    NoDeleteOnceGone(trace + [Evict(wid)], more, wid);
    HasDeleteCounts(Run(trace).log, wid);
    HasDeleteCounts(Run(trace + [Evict(wid)] + more).log, wid);
  }

  // ----- how many deletes -----

  /** The reports that took this workload out of Terminating. */
  function Revivals(trace: seq<Step>, wid: string): nat {
    if trace == [] then 0
    else
      var n := |trace| - 1;
      Revivals(trace[..n], wid) + if IsTerminating(Run(trace[..n]), wid) && TakesBack(trace[n], wid) then 1 else 0
  }

  /** In every run a workload gets at most one delete more than reports took it out of Terminating. */
  lemma {:induction false} DeletesAreBounded(trace: seq<Step>, wid: string)
    requires Admissible(trace)
    ensures wid !in Run(trace).issued ==> Deletes(Run(trace).log, wid) == 0
    ensures Has(Run(trace).workloads, wid) && !IsTerminating(Run(trace), wid) ==> Deletes(Run(trace).log, wid) <= Revivals(trace, wid)
    ensures Deletes(Run(trace).log, wid) <= Revivals(trace, wid) + 1
  {
    if trace != [] {
      var n := |trace| - 1;
      var s, step := Run(trace[..n]), trace[n];
      DeletesAreBounded(trace[..n], wid);
      RecordsHold(trace[..n]);
      StepStores(s, step, wid);
      StepAddsDelete(s, step, wid);
      if Has(s.workloads, wid) && Has(Run(trace).workloads, wid) {
        StatusAfter(s, step, wid);
      }
    }
  }

  /** So at most one, where no report takes a Terminating workload back. */
  lemma {:induction false} AtMostOneDelete(trace: seq<Step>, wid: string)
    requires Admissible(trace) && forall i | 0 <= i < |trace| :: !TakesBack(trace[i], wid) || !IsTerminating(Run(trace[..i]), wid)
    ensures Deletes(Run(trace).log, wid) <= 1
  {
    NoRevivals(trace, wid);
    DeletesAreBounded(trace, wid);
  }

  lemma {:induction false} NoRevivals(trace: seq<Step>, wid: string)
    requires forall i | 0 <= i < |trace| :: !TakesBack(trace[i], wid) || !IsTerminating(Run(trace[..i]), wid)
    ensures Revivals(trace, wid) == 0
  {
    if trace != [] {
      var before := trace[..|trace| - 1];
      assert forall i | 0 <= i < |before| :: before[..i] == trace[..i] && before[i] == trace[i];
      NoRevivals(before, wid);
    }
  }

  // ----- a silent termination -----

  lemma ReportedTerminating(trace: seq<Step>, wid: string, container: string)
    requires Admissible(trace) && Has(Run(trace).workloads, wid)
    ensures var t := trace + [Report(wid, Terminating, container)];
            Admissible(t) && IsTerminating(Run(t), wid) && Run(t).log == Run(trace).log
  {
    var s := Run(trace);
    RunExtends(trace, Report(wid, Terminating, container));
    GetPut(s.workloads, wid, Reported(Get(s.workloads, wid).value, Terminating, container), wid);
  }

  /** A worker reports Terminating of a workload it was not told to stop: nothing tells it until it reports something else. */
  lemma SilenceLasts(trace: seq<Step>, wid: string, container: string, more: seq<Step>)
    requires Admissible(trace) && Has(Run(trace).workloads, wid) && !Protocol.HasDelete(Run(trace), wid)
    requires Admissible(trace + [Report(wid, Terminating, container)] + more)
    requires forall i | 0 <= i < |more| :: !TakesBack(more[i], wid)
    ensures !Protocol.Announced(Run(trace + [Report(wid, Terminating, container)]))
    ensures !Protocol.HasDelete(Run(trace + [Report(wid, Terminating, container)] + more), wid)
  {
    var t := trace + [Report(wid, Terminating, container)];
    ReportedTerminating(trace, wid, container);
    assert !Protocol.HasDelete(Run(t), wid);
    NoDeleteWhileTerminating(t, more, wid);
    HasDeleteCounts(Run(t).log, wid);
    HasDeleteCounts(Run(t + more).log, wid);
  }

  // ----- two deletes -----

  lemma MarkedOnce(trace: seq<Step>, wid: string, stamp: nat)
    requires Admissible(trace) && Enabled(Run(trace), Mark(wid, stamp))
    ensures var t := trace + [Mark(wid, stamp)];
            && Admissible(t) && IsTerminating(Run(t), wid) && Run(t).clock == stamp
            && Deletes(Run(t).log, wid) == Deletes(Run(trace).log, wid) + 1
  {
    var s := Run(trace);
    RunExtends(trace, Mark(wid, stamp));
    StepAddsDelete(s, Mark(wid, stamp), wid);
    GetPut(s.workloads, wid, Get(s.workloads, wid).value.(status := Terminating), wid);
  }

  lemma TakenBack(trace: seq<Step>, wid: string, container: string)
    requires Admissible(trace) && IsTerminating(Run(trace), wid)
    ensures var t := trace + [Report(wid, Running, container)];
            && Admissible(t) && Has(Run(t).workloads, wid) && !IsTerminating(Run(t), wid)
            && Run(t).clock == Run(trace).clock && Run(t).log == Run(trace).log
  {
    var s := Run(trace);
    RunExtends(trace, Report(wid, Running, container));
    GetPut(s.workloads, wid, Reported(Get(s.workloads, wid).value, Running, container), wid);
  }

  /** A late Running report takes a marked workload back, and it can be marked and told again. */
  lemma RevivedIsToldAgain(trace: seq<Step>, wid: string, container: string, t1: nat, t2: nat)
    requires Admissible(trace) && Enabled(Run(trace), Mark(wid, t1)) && t2 > t1
    ensures var t := trace + [Mark(wid, t1)] + [Report(wid, Running, container)] + [Mark(wid, t2)];
            Admissible(t) && Deletes(Run(t).log, wid) == Deletes(Run(trace).log, wid) + 2
  {
    MarkedOnce(trace, wid, t1);
    TakenBack(trace + [Mark(wid, t1)], wid, container);
    MarkedOnce(trace + [Mark(wid, t1)] + [Report(wid, Running, container)], wid, t2);
  }

  // ----- creates -----

  ghost predicate HasCreate(s: State, wid: string) {
    exists a :: a in s.log && a.action == Create && a.workloadId == wid
  }

  /** A placement whose secrets resolve. */
  predicate SendsCreate(step: Step, wid: string) {
    step.Place? && step.wid == wid && step.createStamp.Some?
  }

  lemma StepCreates(s: State, step: Step, wid: string)
    requires Enabled(s, step)
    ensures HasCreate(Apply(s, step), wid) <==> HasCreate(s, wid) || SendsCreate(step, wid)
  {
    var t := Apply(s, step);
    if |t.log| == |s.log| + 1 {
      var a := t.log[|s.log|];
      assert t.log == s.log + [a];
      assert a in t.log;
      assert forall b | b in s.log :: b in t.log;
    }
  }

  /** In every run a worker is told to start a workload exactly when the secrets resolved at its placement. */
  lemma {:induction false} CreatedExactly(trace: seq<Step>, wid: string)
    requires Admissible(trace)
    ensures HasCreate(Run(trace), wid) <==> exists i | 0 <= i < |trace| :: SendsCreate(trace[i], wid)
  {
    if trace != [] {
      var before, last := trace[..|trace| - 1], trace[|trace| - 1];
      CreatedExactly(before, wid);
      StepCreates(Run(before), last, wid);
      assert forall i | 0 <= i < |before| :: before[i] == trace[i];
    }
  }

  lemma IssuedOnce(s: State, step: Step, wid: string)
    requires Enabled(s, step) && wid in s.issued
    ensures wid in Apply(s, step).issued && !SendsCreate(step, wid)
  {
  }

  /** A placement whose secrets do not resolve is never made up for: the workload is charged, and nothing later starts it. */
  lemma {:induction false} UnresolvedIsNeverStarted(trace: seq<Step>, place: Step, more: seq<Step>)
    requires Admissible(trace) && place.Place? && place.createStamp.None? && Enabled(Run(trace), place)
    requires Admissible(trace + [place] + more)
    ensures var s := Run(trace + [place] + more);
            && place.wid in s.issued && !HasCreate(s, place.wid)
            && (Has(s.workloads, place.wid) <==> Releases(trace + [place] + more, place.wid) == 0)
    decreases more
  {
    if more == [] {
      assert trace + [place] + more == trace + [place];
      RunExtends(trace, place);
      Protocol.ProtocolHolds(trace);
      StepCreates(Run(trace), place, place.wid);
    } else {
      var n := |more| - 1;
      LastStep(trace + [place], more);
      UnresolvedIsNeverStarted(trace, place, more[..n]);
      StepCreates(Run(trace + [place] + more[..n]), more[n], place.wid);
      IssuedOnce(Run(trace + [place] + more[..n]), more[n], place.wid);
    }
    ChargedAndReleasedOnce(trace + [place] + more, place.wid);
  }
}
