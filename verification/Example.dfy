/** Small runs from one placement: a node, a deployment, a workload, and what its worker may report. */
module Example {
  import opened Tables
  import opened Types
  import opened Cluster
  import opened Announcements
  import Draining
  import Protocol
  import Scheduler

  const ONE := Resource(1, 1)
  const WORKER := Node(map[], [], Resource(10, 10), Resource(0, 0), Ready)
  const SPEC := DeploymentSpec("default", "web", "img", 1, 0, ONE, None, None, "",
                               RolloutSpec("RollingUpdate", 0, 0, false, 0, 0, false, 0, 0.0, 0))
  const WEB := Deployment(SPEC, 1, 1, 1, [Revision(1, SPEC)], Stable, None, 0, 0, 0, [], false, DeploymentPending)

  /** One node, one deployment and one workload placed on it. */
  const PLACED := [Register("n1", WORKER), WriteDeployment("dep-1", WEB), Place("dep-1", "wk-1", "n1", 0, Some(1))]

  const FIRST := NewWorkload(WEB, "dep-1", "n1", 0)
  const READY := INIT.(nodes := [Entry("n1", WORKER)], deployments := [Entry("dep-1", WEB)])

  lemma ReadyRuns()
    ensures Admissible(PLACED[..2]) && Truthful(PLACED[..2]) && AllModest(PLACED[..2]) && Run(PLACED[..2]) == READY
  {
    var s1 := INIT.(nodes := [Entry("n1", WORKER)]);
    RunExtends([], PLACED[0]);
    RunExtends([PLACED[0]], PLACED[1]);
    assert PLACED[..2] == [PLACED[0]] + [PLACED[1]] && PLACED[..2][..1] == [] + [PLACED[0]];
    assert Run([PLACED[0]]) == s1;
    assert AllModest([]) && Truthful([]) && Accountable(INIT, PLACED[0]) && Accountable(s1, PLACED[1]);
  }

  lemma FirstLoad()
    ensures Load([Entry("wk-1", FIRST)], "n1") == ONE
  {
    var ws := [Entry("wk-1", FIRST)];
    assert ws[1..] == [];
    assert Sum(ws, CpuOn("n1")) == CpuOn("n1")(ws[0].rec) + Sum(ws[1..], CpuOn("n1"));
    assert Sum(ws, MemOn("n1")) == MemOn("n1")(ws[0].rec) + Sum(ws[1..], MemOn("n1"));
  }

  lemma PlacedRuns()
    ensures Admissible(PLACED) && Truthful(PLACED) && AllModest(PLACED)
    ensures var s := Run(PLACED);
            && Get(s.nodes, "n1") == Some(WORKER.(used := ONE)) && s.issued == {"wk-1"} && Has(s.deployments, "dep-1")
            && Get(s.workloads, "wk-1") == Some(FIRST) && s.clock == 1
            && s.log == [CreateAssignment(FIRST, "wk-1", 1)]
            && Load(s.workloads, "n1") == ONE
  {
    ReadyRuns();
    RunExtends(PLACED[..2], PLACED[2]);
    assert PLACED == PLACED[..2] + [PLACED[2]];
    assert Run(PLACED).workloads == [Entry("wk-1", FIRST)];
    FirstLoad();
  }

  /** A worker that has not started the workload yet reports nothing used, and the ledger is gone. */
  lemma LaggingHeartbeatBreaksLedger()
    ensures Admissible(PLACED + [Beat("n1", Resource(0, 0))])
    ensures Ledger(Run(PLACED)) && !Ledger(Run(PLACED + [Beat("n1", Resource(0, 0))]))
  {
    PlacedRuns();
    RecordsHold(PLACED);
    LedgerHolds(PLACED);
    RunExtends(PLACED, Beat("n1", Resource(0, 0)));
    HeartbeatKeepsLedgerExactly(Run(PLACED), "n1", Resource(0, 0));
  }

  // ----- a negative request -----

  const DEBT := WEB.(spec := SPEC.(resources := Resource(-1, -1)))
  const REWRITE := WriteDeployment("dep-1", DEBT)
  const PLACE_DEBT := Place("dep-1", "wk-2", "n1", 0, None)
  const OWING := PLACED + [REWRITE] + [PLACE_DEBT]

  lemma RewriteRuns()
    ensures Admissible(PLACED + [REWRITE]) && Truthful(PLACED + [REWRITE]) && Ledger(Run(PLACED + [REWRITE]))
    ensures var s := Run(PLACED + [REWRITE]);
            s == Run(PLACED).(deployments := s.deployments) && Get(s.deployments, "dep-1") == Some(DEBT)
  {
    PlacedRuns();
    RecordsHold(PLACED);
    LedgerHolds(PLACED);
    RunExtends(PLACED, REWRITE);
    TruthfulExtends(PLACED, REWRITE);
    GetPut(Run(PLACED).deployments, "dep-1", DEBT, "dep-1");
  }

  lemma TruthfulExtends(trace: seq<Step>, step: Step)
    requires Truthful(trace) && Accountable(Run(trace), step)
    ensures Truthful(trace + [step])
  {
    assert (trace + [step])[..|trace|] == trace;
  }

  lemma OwingRuns()
    ensures Admissible(OWING) && Truthful(OWING) && Ledger(Run(OWING))
    ensures Get(Run(OWING).workloads, "wk-1") == Some(FIRST)
    ensures Has(Run(OWING).nodes, "n1") && Get(Run(OWING).nodes, "n1").value.used == Resource(0, 0)
  {
    PlacedRuns();
    RewriteRuns();
    var before := PLACED + [REWRITE];
    var s := Run(before);
    assert "wk-2"[3] != "wk-1"[3];
    RecordsHold(before);
    RunExtends(before, PLACE_DEBT);
    TruthfulExtends(before, PLACE_DEBT);
    StepKeepsLedgerExactly(s, PLACE_DEBT);
    GetPut(s.workloads, "wk-2", NewWorkload(DEBT, "dep-1", "n1", 0), "wk-1");
    GetPut(s.nodes, "n1", WORKER.(used := ONE.Plus(Resource(-1, -1))), "n1");
  }

  /** A workload of minus one beside a workload of one: every report is true, and the release of the second stops at zero. */
  lemma NegativeRequestBreaksLedger()
    ensures Admissible(OWING + [Evict("wk-1")]) && Truthful(OWING + [Evict("wk-1")])
    ensures Ledger(Run(OWING)) && !Ledger(Run(OWING + [Evict("wk-1")]))
  {
    OwingRuns();
    RecordsHold(OWING);
    RunExtends(OWING, Evict("wk-1"));
    TruthfulExtends(OWING, Evict("wk-1"));
    StepKeepsLedgerExactly(Run(OWING), Evict("wk-1"));
  }

  // ----- a heartbeat after a drain -----

  /** The drained node's worker reports its load, which is true, and the node is eligible again. */
  lemma DrainedNodeComesBack()
    ensures var t := PLACED + [SetNodeStatus("n1", Unknown)] + [Beat("n1", ONE)];
            && Admissible(t) && Has(Run(t).nodes, "n1")
            && Scheduler.Eligible(Get(Run(t).nodes, "n1").value, SPEC.resources, SPEC.LabelMap(), SPEC.TolerationList())
  {
    PlacedRuns();
    Draining.HeartbeatUndoesDrain(PLACED, "n1", ONE, SPEC);
  }

  // ----- what workers are told -----

  const UNRESOLVED := Place("dep-1", "wk-1", "n1", 0, None)

  lemma UnresolvedRuns()
    ensures var t := PLACED[..2] + [UNRESOLVED];
            && Enabled(READY, UNRESOLVED) && Admissible(t)
            && Run(t) == READY.(workloads := [Entry("wk-1", FIRST)], nodes := [Entry("n1", WORKER.(used := ONE))], issued := {"wk-1"})
  {
    ReadyRuns();
    RunExtends(PLACED[..2], UNRESOLVED);
  }

  /** Placed without its secrets: stored, charged, and no worker is told. */
  lemma UnresolvedWorkloadWaits()
    ensures var s := Run(PLACED[..2] + [UNRESOLVED]);
            && Admissible(PLACED[..2] + [UNRESOLVED])
            && s.workloads == [Entry("wk-1", FIRST)] && s.nodes == [Entry("n1", WORKER.(used := ONE))]
            && !HasCreate(s, "wk-1")
  {
    UnresolvedRuns();
    assert forall a :: a !in READY.log;
  }

  lemma PlacedIsUntold()
    ensures Admissible(PLACED) && Has(Run(PLACED).workloads, "wk-1") && Deletes(Run(PLACED).log, "wk-1") == 0
    ensures !Protocol.HasDelete(Run(PLACED), "wk-1") && Run(PLACED).clock == 1 && !IsTerminating(Run(PLACED), "wk-1")
  {
    PlacedRuns();
    var log := Run(PLACED).log;
    assert log[..0] == [] && Deletes(log, "wk-1") == 0;
    HasDeleteCounts(log, "wk-1");
  }

  /** The worker reports Terminating unasked: a Terminating workload without a delete. */
  lemma SilentTerminatingReport()
    ensures Admissible(PLACED + [Report("wk-1", Terminating, "")])
    ensures !Protocol.Announced(Run(PLACED + [Report("wk-1", Terminating, "")]))
  {
    PlacedIsUntold();
    var t := PLACED + [Report("wk-1", Terminating, "")];
    ReportedTerminating(PLACED, "wk-1", "");
    assert t + [] == t;
    SilenceLasts(PLACED, "wk-1", "", []);
  }

  /** The workload is marked, reported Running late, and marked again. */
  lemma RevivedWorkloadGetsTwoDeletes()
    ensures var t := PLACED + [Mark("wk-1", 2)] + [Report("wk-1", Running, "c")] + [Mark("wk-1", 3)];
            Admissible(t) && Deletes(Run(t).log, "wk-1") == 2
  {
    PlacedIsUntold();
    RevivedIsToldAgain(PLACED, "wk-1", "c", 2, 3);
  }
}
