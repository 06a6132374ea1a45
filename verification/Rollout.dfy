/**
 * The counting core of reconcileDeployment (internal/service/orchestrator.go): how many
 * workloads of the old and of the current revision are active, and what one pass does to
 * those two numbers.
 */
module Rollout {
  import opened Types

  function MinInt(a: int, b: int): int {
    if a < b then a else b
  }

  function MaxInt(a: int, b: int): int {
    if a > b then a else b
  }

  const ROLLING_UPDATE := "RollingUpdate"
  const CANARY := "Canary"

  function AtLeastZero(n: int): int {
    if n < 0 then 0 else n
  }

  function Normalize(spec: RolloutSpec): RolloutSpec {
    var s := spec.(
      strategy := if spec.strategy == "" then ROLLING_UPDATE else spec.strategy,
      progressDeadlineSeconds := AtLeastZero(spec.progressDeadlineSeconds),
      maxFailedWorkloads := AtLeastZero(spec.maxFailedWorkloads),
      sloErrorRateThreshold := if spec.sloErrorRateThreshold < 0.0 then 0.0 else spec.sloErrorRateThreshold,
      sloWindowSeconds := AtLeastZero(spec.sloWindowSeconds),
      maxSurge := AtLeastZero(spec.maxSurge),
      maxUnavailable := AtLeastZero(spec.maxUnavailable));
    if s.strategy == CANARY then
      s.(canaryPercentage := if s.canaryPercentage <= 0 then 20 else if s.canaryPercentage > 100 then 100 else s.canaryPercentage,
         canaryEnabled := true)
    else s
  }

  /** Active workloads of older revisions and of the current one. */
  datatype Counts = Counts(prior: nat, latest: nat) {
    function Total(): nat { prior + latest }
  }

  /** The numbers a normalised specification gives the reconciler. */
  datatype Budget = Budget(replicas: int, maxSurge: int, maxUnavailable: int) {
    predicate Valid() {
      replicas >= 1 && maxSurge >= 0 && maxUnavailable >= 0
    }

    function MaxTotal(): int {
      if replicas + maxSurge < replicas then replicas else replicas + maxSurge
    }

    function MinAvailable(): int {
      if replicas - maxUnavailable < 0 then 0 else replicas - maxUnavailable
    }

    function Goal(): Counts
      requires Valid()
    {
      Counts(0, replicas)
    }
  }

  function ToCreate(c: Counts, b: Budget, target: int): nat {
    var needed := if target - c.latest < 0 then 0 else target - c.latest;
    var room := if b.MaxTotal() - c.Total() < 0 then 0 else b.MaxTotal() - c.Total();
    MinInt(needed, room)
  }

  function AfterCreate(c: Counts, b: Budget, target: int): Counts {
    c.(latest := c.latest + ToCreate(c, b, target))
  }

  function OldToDelete(c: Counts, b: Budget): nat {
    var spare := c.Total() - b.MinAvailable();
    if spare > 0 then MinInt(c.prior, spare) else 0
  }

  function AfterOldDeletes(c: Counts, b: Budget): Counts {
    c.(prior := c.prior - OldToDelete(c, b))
  }

  function Excess(c: Counts, b: Budget): nat {
    if c.Total() - b.replicas > 0 then c.Total() - b.replicas else 0
  }

  /** What the excess step leaves: it only ever meets current-revision workloads. */
  function AfterExcess(c: Counts, b: Budget): Counts
    requires c.Total() > b.replicas ==> c.prior == 0 && b.replicas >= 0
  {
    c.(latest := c.latest - Excess(c, b))
  }

  /** When the excess step has work, no old workload is active, so its victims are of the current revision. */
  lemma ExcessMeetsOnlyLatest(c: Counts, b: Budget, target: int)
    requires b.Valid() && target <= b.replicas
    ensures var d := AfterOldDeletes(AfterCreate(c, b, target), b);
            d.Total() > b.replicas ==> d.prior == 0 && c.latest > b.replicas && d.latest == c.latest
  {
  }

  function Pass(c: Counts, b: Budget): Counts
    requires b.Valid()
  {
    ExcessMeetsOnlyLatest(c, b, b.replicas);
    AfterExcess(AfterOldDeletes(AfterCreate(c, b, b.replicas), b), b)
  }

  // ----- surge and availability -----

  /** Creation never lifts the active count above the larger of its start and replicas + maxSurge. */
  lemma SurgeBound(c: Counts, b: Budget, target: int)
    requires b.Valid()
    ensures AfterCreate(c, b, target).Total() <= MaxInt(c.Total(), b.replicas + b.maxSurge)
    ensures AfterCreate(c, b, target).Total() >= c.Total()
  {
  }

  /** A full pass ends with at most `replicas` active workloads and never below the availability floor it started above. */
  lemma AvailabilityBound(c: Counts, b: Budget)
    requires b.Valid()
    ensures Pass(c, b).Total() <= b.replicas
    ensures Pass(c, b).Total() >= MinInt(c.Total(), MaxInt(0, b.replicas - b.maxUnavailable))
  {
  }

  /** A full pass leaves old workloads only when the total is down to the floor. */
  lemma FloorIsReached(c: Counts, b: Budget)
    requires b.Valid()
    ensures Pass(c, b).prior == 0 || Pass(c, b).Total() <= b.replicas - b.maxUnavailable
  {
  }

  // ----- convergence -----

  /** A pass changes nothing exactly at the goal, or when both budgets are zero and the total is right. */
  lemma PassIsIdleExactly(c: Counts, b: Budget)
    requires b.Valid()
    ensures (&& ToCreate(c, b, b.replicas) == 0
             && OldToDelete(c, b) == 0
             && Excess(c, b) == 0)
       <==> (|| c == b.Goal()
             || (b.maxSurge == 0 && b.maxUnavailable == 0 && c.Total() == b.replicas))
    ensures Pass(c, b) == c <==> (|| c == b.Goal()
                                  || (b.maxSurge == 0 && b.maxUnavailable == 0 && c.Total() == b.replicas))
  {
  }

  /** The distance to the goal in passes. */
  function Rank(c: Counts, b: Budget): nat
    requires b.Valid()
  {
    if c.latest > b.replicas then 1 else c.prior + (b.replicas - c.latest)
  }

  lemma PassTrims(c: Counts, b: Budget)
    requires b.Valid() && c.latest > b.replicas
    ensures Pass(c, b) == b.Goal()
  {
    assert ToCreate(c, b, b.replicas) == 0;
    assert OldToDelete(c, b) == c.prior;
  }

  lemma PassAdvances(c: Counts, b: Budget)
    requires b.Valid() && c != b.Goal() && c.latest <= b.replicas && (b.maxSurge >= 1 || b.maxUnavailable >= 1)
    ensures Pass(c, b).latest <= b.replicas && Pass(c, b).prior <= c.prior && Pass(c, b).latest >= c.latest
    ensures Pass(c, b).prior < c.prior || Pass(c, b).latest > c.latest
  {
    var made := ToCreate(c, b, b.replicas);
    var d := AfterCreate(c, b, b.replicas);
    assert d.prior == c.prior && d.latest == c.latest + made <= b.replicas;
    ExcessMeetsOnlyLatest(c, b, b.replicas);
    var e := AfterOldDeletes(d, b);
    assert e.latest == d.latest && e.prior == d.prior - OldToDelete(d, b);
    assert Pass(c, b) == e;
    if made == 0 {
      assert c.prior > 0 && d.Total() - b.MinAvailable() > 0;
    }
  }

  /** Every pass that changes anything gets closer to the goal. */
  lemma PassApproaches(c: Counts, b: Budget)
    requires b.Valid() && Pass(c, b) != c
    ensures Rank(Pass(c, b), b) < Rank(c, b)
    ensures c.latest > b.replicas ==> Pass(c, b) == b.Goal()
    ensures c.latest <= b.replicas ==> Pass(c, b).latest <= b.replicas
  {
    if c.latest > b.replicas {
      PassTrims(c, b);
    } else if b.maxSurge >= 1 || b.maxUnavailable >= 1 {
      PassIsIdleExactly(c, b);
      PassAdvances(c, b);
    }
  }

  function Passes(c: Counts, b: Budget, n: nat): Counts
    requires b.Valid()
    decreases n
  {
    if n == 0 then c else Passes(Pass(c, b), b, n - 1)
  }

  lemma {:induction false} PassesOneMore(c: Counts, b: Budget, n: nat)
    requires b.Valid()
    ensures Passes(c, b, n + 1) == Pass(Passes(c, b, n), b)
    decreases n
  {
    if n > 0 {
      PassesOneMore(Pass(c, b), b, n - 1);
    } else {
      assert Passes(Pass(c, b), b, 0) == Pass(c, b);
    }
  }

  lemma {:induction false} GoalStays(b: Budget, n: nat)
    requires b.Valid()
    ensures Passes(b.Goal(), b, n) == b.Goal()
  {
    if n > 0 {
      GoalStays(b, n - 1);
    }
  }

  /** Whether repeated passes can finish the rollout at all. */
  predicate CanFinish(c: Counts, b: Budget) {
    b.maxSurge >= 1 || b.maxUnavailable >= 1 || c.prior == 0 || c.latest >= b.replicas
  }

  lemma {:induction false} ReachesGoal(c: Counts, b: Budget, n: nat)
    requires b.Valid() && CanFinish(c, b) && n >= Rank(c, b)
    ensures Passes(c, b, n) == b.Goal()
    decreases n
  {
    if c == b.Goal() {
      GoalStays(b, n);
    } else if b.maxSurge >= 1 || b.maxUnavailable >= 1 || c.latest > b.replicas {
      PassIsIdleExactly(c, b);
      PassApproaches(c, b);
      ReachesGoal(Pass(c, b), b, n - 1);
    } else {
      assert Pass(c, b) == b.Goal();
      GoalStays(b, n - 1);
    }
  }

  lemma {:induction false} StaysStuck(c: Counts, b: Budget, n: nat)
    requires b.Valid() && !CanFinish(c, b)
    ensures Passes(c, b, n) != b.Goal() && !CanFinish(Passes(c, b, n), b)
    decreases n
  {
    if n > 0 {
      StaysStuck(Pass(c, b), b, n - 1);
    }
  }

  /** Repeated passes reach zero old and `replicas` current workloads exactly when CanFinish holds at the start. */
  lemma ConvergesExactly(c: Counts, b: Budget)
    requires b.Valid()
    ensures (exists n: nat :: Passes(c, b, n) == b.Goal()) <==> CanFinish(c, b)
    ensures CanFinish(c, b) ==> forall n: nat | n >= Rank(c, b) :: Passes(c, b, n) == b.Goal()
  {
    if CanFinish(c, b) {
      forall n: nat | n >= Rank(c, b) ensures Passes(c, b, n) == b.Goal() {
        ReachesGoal(c, b, n);
      }
      assert Passes(c, b, Rank(c, b)) == b.Goal();
    } else {
      forall n: nat ensures Passes(c, b, n) != b.Goal() {
        StaysStuck(c, b, n);
      }
    }
  }

  lemma ConvergedAfter(c: Counts, b: Budget, n: nat)
    requires b.Valid()
    ensures CanFinish(c, b) && n >= Rank(c, b) ==> Passes(c, b, n) == b.Goal()
    ensures !CanFinish(c, b) ==> Passes(c, b, n) != b.Goal()
  {
    if !CanFinish(c, b) {
      StaysStuck(c, b, n);
    } else if n >= Rank(c, b) {
      ReachesGoal(c, b, n);
    }
  }

  /** For instance one old workload, one replica and no budget: no number of passes replaces it. */
  lemma ZeroBudgetsNeverFinish(n: nat)
    ensures Passes(Counts(1, 0), Budget(1, 0, 0), n) != Budget(1, 0, 0).Goal()
  {
    StaysStuck(Counts(1, 0), Budget(1, 0, 0), n);
  }

  // ----- canary -----

  function CanaryTarget(replicas: int, percentage: int): int
    requires replicas >= 1 && percentage >= 0
  {
    var t := (replicas * percentage) / 100;
    var atLeastOne := if t <= 0 then 1 else t;
    if atLeastOne > replicas then replicas else atLeastOne
  }

  /** t is the whole number of replicas in the percentage, or one when there is none. */
  predicate IsShare(t: int, replicas: int, percentage: int) {
    if replicas * percentage < 100 then t == 1 else 100 * t <= replicas * percentage < 100 * (t + 1)
  }

  lemma CanaryTargetExactly(replicas: int, percentage: int, t: int)
    requires replicas >= 1 && 0 <= percentage <= 100
    ensures IsShare(t, replicas, percentage) <==> t == CanaryTarget(replicas, percentage)
  {
    var all := replicas * percentage;
    assert all <= replicas * 100 by { assert replicas * (100 - percentage) >= 0; }
  }

  lemma CanaryTargetRange(replicas: int, percentage: int)
    requires replicas >= 1 && percentage >= 0
    ensures 1 <= CanaryTarget(replicas, percentage) <= replicas
  {
  }

  /** What the canary gate has let through so far; `running` counts current-revision workloads reported Running. */
  datatype CanaryState = CanaryState(c: Counts, running: nat)

  datatype CanaryEvent = ReconcilePass | NewWorkloadRuns

  predicate Promoted(s: CanaryState, target: int) {
    s.running >= target
  }

  /** A failure-free run up to promotion: passes in phase Canary, and new workloads coming up. */
  function CanaryStep(s: CanaryState, b: Budget, target: int, e: CanaryEvent): CanaryState {
    if Promoted(s, target) then s
    else match e
      case ReconcilePass => s.(c := AfterCreate(s.c, b, target))
      case NewWorkloadRuns => if s.running < s.c.latest then s.(running := s.running + 1) else s
  }

  function CanaryRun(s: CanaryState, b: Budget, target: int, es: seq<CanaryEvent>): CanaryState
    decreases es
  {
    if es == [] then s else CanaryRun(CanaryStep(s, b, target, es[0]), b, target, es[1..])
  }

  /** A pass in phase Canary removes nothing and never exceeds the target. */
  lemma CanaryGate(c: Counts, b: Budget, target: int)
    ensures AfterCreate(c, b, target).prior == c.prior
    ensures AfterCreate(c, b, target).latest <= MaxInt(c.latest, target)
  {
  }

  lemma {:induction false} CanaryStarves(s: CanaryState, b: Budget, target: int, es: seq<CanaryEvent>)
    requires b.Valid() && b.maxSurge < target <= b.replicas
    requires s.c.prior == b.replicas && s.running <= s.c.latest <= b.maxSurge
    ensures !Promoted(CanaryRun(s, b, target, es), target)
    decreases es
  {
    if es != [] {
      CanaryStarves(CanaryStep(s, b, target, es[0]), b, target, es[1..]);
    }
  }

  function Repeat(n: nat): seq<CanaryEvent> {
    if n == 0 then [] else [NewWorkloadRuns] + Repeat(n - 1)
  }

  lemma {:induction false} CanaryComesUp(s: CanaryState, b: Budget, target: int, n: nat)
    requires s.c.latest == target && s.running + n == target
    ensures Promoted(CanaryRun(s, b, target, Repeat(n)), target)
    decreases n
  {
    if n > 0 {
      assert Repeat(n)[0] == NewWorkloadRuns && Repeat(n)[1..] == Repeat(n - 1);
      CanaryComesUp(CanaryStep(s, b, target, NewWorkloadRuns), b, target, n - 1);
    }
  }

  /** A failure-free run from `replicas` old and no current workloads that ends promoted. */
  predicate PromotedBy(b: Budget, target: int, es: seq<CanaryEvent>)
    requires b.Valid()
  {
    Promoted(CanaryRun(CanaryState(Counts(b.replicas, 0), 0), b, target, es), target)
  }

  /** From a full old revision, promotion is reachable exactly when maxSurge covers the canary target. */
  lemma PromotionReachableExactly(b: Budget, percentage: int)
    requires b.Valid() && percentage >= 0
    ensures var target := CanaryTarget(b.replicas, percentage);
            (exists es :: PromotedBy(b, target, es)) <==> b.maxSurge >= target
  {
    var target := CanaryTarget(b.replicas, percentage);
    var start := CanaryState(Counts(b.replicas, 0), 0);
    CanaryTargetRange(b.replicas, percentage);
    if b.maxSurge >= target {
      var es := [ReconcilePass] + Repeat(target);
      assert es[1..] == Repeat(target);
      CanaryComesUp(CanaryStep(start, b, target, ReconcilePass), b, target, target);
      assert PromotedBy(b, target, es);
    } else {
      forall es ensures !PromotedBy(b, target, es) {
        CanaryStarves(start, b, target, es);
      }
    }
  }

  /** For instance ten replicas at twenty percent with a surge of one: no run promotes the canary. */
  lemma CanaryNeverPromoted(es: seq<CanaryEvent>)
    ensures !PromotedBy(Budget(10, 1, 0), CanaryTarget(10, 20), es)
  {
    PromotionReachableExactly(Budget(10, 1, 0), 20);
  }

  // ----- the plan of a pass -----

  function BudgetOf(replicas: int, spec: RolloutSpec): Budget {
    Budget(replicas, Normalize(spec).maxSurge, Normalize(spec).maxUnavailable)
  }

  /** The phase a pass works in and how many current-revision workloads it aims for. */
  datatype Plan = Plan(phase: Phase, target: int)

  function PlanOf(replicas: int, spec: RolloutSpec, c: Counts, running: nat): Plan
    requires replicas >= 1
  {
    var s := Normalize(spec);
    if s.strategy == CANARY && s.canaryEnabled && c.prior > 0 then
      var target := CanaryTarget(replicas, s.canaryPercentage);
      if running >= target then Plan(CanaryPromoting, replicas) else Plan(Phase.Canary, target)
    else Plan(Progressing, replicas)
  }

  lemma PlanIsSane(replicas: int, spec: RolloutSpec, c: Counts, running: nat)
    requires replicas >= 1
    ensures var p := PlanOf(replicas, spec, c, running);
            && 1 <= p.target <= replicas
            && (p.phase == Phase.Canary ==> c.prior > 0)
            && (p.phase != Phase.Canary ==> p.target == replicas)
            && p.phase != Stable
  {
    if Normalize(spec).strategy == CANARY {
      CanaryTargetRange(replicas, Normalize(spec).canaryPercentage);
    }
  }

  /**
   * The plan, on the fields of the specification: a canary strategy works towards its share of the replicas, twenty
   * percent unless a percentage is given, as long as old workloads are active and fewer than that share run.
   */
  lemma PlanExactly(replicas: int, spec: RolloutSpec, c: Counts, running: nat, share: int)
    requires replicas >= 1
    requires var given := spec.canaryPercentage;
             IsShare(share, replicas, if given <= 0 then 20 else if given > 100 then 100 else given)
    ensures PlanOf(replicas, spec, c, running) ==
              if spec.strategy != "Canary" || c.prior == 0 then Plan(Progressing, replicas)
              else if running < share then Plan(Phase.Canary, share)
              else Plan(CanaryPromoting, replicas)
  {
    if spec.strategy == "Canary" {
      CanaryTargetExactly(replicas, Normalize(spec).canaryPercentage, share);
    }
  }

  /** What a pass whose placements all succeed does to the two counts. */
  function PlannedPass(c: Counts, b: Budget, p: Plan): Counts
    requires b.Valid() && p.target <= b.replicas
  {
    ExcessMeetsOnlyLatest(c, b, p.target);
    if p.phase == Phase.Canary then AfterCreate(c, b, p.target)
    else AfterExcess(AfterOldDeletes(AfterCreate(c, b, p.target), b), b)
  }

  /** Outside phase Canary the planned pass is the rolling-update pass. */
  lemma PlannedPassRolls(c: Counts, b: Budget, p: Plan)
    requires b.Valid() && p.phase != Phase.Canary && p.target == b.replicas
    ensures PlannedPass(c, b, p) == Pass(c, b)
  {
  }
}
