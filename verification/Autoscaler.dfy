/** Horizontal autoscaling: policies, metric windows and the autoscaling pass of internal/service/orchestrator.go. */
module Autoscaling {
  import opened Tables
  import opened Types
  import Revisions
  import Rollout
  import Sorting
  import Text

  const SECOND := 1_000_000_000

  datatype Sample = Sample(at: int, cpu: real, memory: real, custom: map<string, real>)

  datatype Policy = Policy(
    id: string, deploymentId: string, minReplicas: int, maxReplicas: int,
    targetCpu: real, targetMemory: real, customName: string, targetCustom: real,
    predictive: bool, lookback: int, factor: real,
    windowSec: int, upCooldownSec: int, downCooldownSec: int,
    lastScaleAt: Option<int>)

  /** The defaults UpsertAutoscalerPolicy fills in. */
  function Normalize(p: Policy): Policy {
    var min := if p.minReplicas <= 0 then 1 else p.minReplicas;
    p.(minReplicas := min,
       maxReplicas := if p.maxReplicas <= 0 || p.maxReplicas < min then min else p.maxReplicas,
       windowSec := if p.windowSec <= 0 then 30 else p.windowSec,
       upCooldownSec := if p.upCooldownSec <= 0 then 20 else p.upCooldownSec,
       downCooldownSec := if p.downCooldownSec <= 0 then 40 else p.downCooldownSec,
       lookback := if p.predictive && p.lookback <= 1 then 6 else p.lookback,
       factor := if p.predictive && p.factor <= 0.0 then 2.0 else p.factor)
  }

  predicate Normal(p: Policy) {
    && 1 <= p.minReplicas <= p.maxReplicas
    && p.windowSec > 0 && p.upCooldownSec > 0 && p.downCooldownSec > 0
  }

  /** A number that is given and positive is stored; otherwise its default is. */
  predicate PositiveOr(stored: int, given: int, default: int) {
    (given > 0 ==> stored == given) && (given <= 0 ==> stored == default)
  }

  /** What an accepted policy stores of the one submitted. */
  lemma NormalizeFills(p: Policy)
    ensures var q := Normalize(p);
            && PositiveOr(q.minReplicas, p.minReplicas, 1)
            && (p.maxReplicas >= q.minReplicas ==> q.maxReplicas == p.maxReplicas)
            && (p.maxReplicas < q.minReplicas ==> q.maxReplicas == q.minReplicas)
            && PositiveOr(q.windowSec, p.windowSec, 30)
            && PositiveOr(q.upCooldownSec, p.upCooldownSec, 20) && PositiveOr(q.downCooldownSec, p.downCooldownSec, 40)
            && q.lookback == (if p.predictive && p.lookback < 2 then 6 else p.lookback)
            && q.factor == (if p.predictive && p.factor <= 0.0 then 2.0 else p.factor)
            && q.id == p.id && q.deploymentId == p.deploymentId && q.predictive == p.predictive && q.lastScaleAt == p.lastScaleAt
            && q.targetCpu == p.targetCpu && q.targetMemory == p.targetMemory
            && q.customName == p.customName && q.targetCustom == p.targetCustom
  {
  }

  lemma NormalizeIsNormal(p: Policy)
    ensures Normal(Normalize(p)) && Normalize(Normalize(p)) == Normalize(p)
  {
  }

  // ----- the load -----

  datatype Load = Load(cpu: real, memory: real, custom: real)

  /** One metric of a sample; a custom metric that is not named or not reported counts as zero. */
  type Metric = Sample -> real

  function Cpu(s: Sample): real {
    s.cpu
  }

  function Memory(s: Sample): real {
    s.memory
  }

  function CustomValue(s: Sample, name: string): real {
    if name == "" || name !in s.custom then 0.0 else s.custom[name]
  }

  function Custom(name: string): Metric {
    (s: Sample) => CustomValue(s, name)
  }

  function Total(samples: seq<Sample>, m: Metric): real {
    if samples == [] then 0.0 else Total(samples[..|samples| - 1], m) + m(samples[|samples| - 1])
  }

  function Mean(samples: seq<Sample>, m: Metric): real {
    if samples == [] then 0.0 else Total(samples, m) / |samples| as real
  }

  function Average(samples: seq<Sample>, name: string): Load {
    Load(Mean(samples, Cpu), Mean(samples, Memory), Mean(samples, Custom(name)))
  }

  /** aggregateMetrics. */
  method Aggregate(samples: seq<Sample>, name: string) returns (l: Load)
    ensures l == Average(samples, name)
  {
    if |samples| == 0 {
      return Load(0.0, 0.0, 0.0);
    }
    var cpu, memory, custom := 0.0, 0.0, 0.0;
    for i := 0 to |samples|
      invariant cpu == Total(samples[..i], Cpu) && memory == Total(samples[..i], Memory)
      invariant custom == Total(samples[..i], Custom(name))
    {
      cpu := cpu + samples[i].cpu;
      memory := memory + samples[i].memory;
      if name != "" {
        custom := custom + CustomValue(samples[i], name);
      }
      assert samples[..i + 1][..i] == samples[..i];
    }
    assert samples[..|samples|] == samples;
    var count := |samples| as real;
    l := Load(cpu / count, memory / count, custom / count);
  }

  function Within(samples: seq<Sample>, start: int): seq<Sample> {
    if samples == [] then []
    else
      var n := |samples| - 1;
      Within(samples[..n], start) + if samples[n].at >= start then [samples[n]] else []
  }

  /** The samples of the stabilisation window, or all of them when the window is empty. */
  function Window(p: Policy, samples: seq<Sample>, now: int): seq<Sample> {
    var recent := Within(samples, now - p.windowSec * SECOND);
    if recent == [] then samples else recent
  }

  method SelectWindow(p: Policy, samples: seq<Sample>, now: int) returns (w: seq<Sample>)
    ensures w == Window(p, samples, now)
  {
    var start := now - p.windowSec * SECOND;
    w := [];
    for i := 0 to |samples|
      invariant w == Within(samples[..i], start)
    {
      if samples[i].at >= start {
        w := w + [samples[i]];
      }
      assert samples[..i + 1][..i] == samples[..i];
    }
    assert samples[..|samples|] == samples;
    if |w| == 0 {
      w := samples;
    }
  }

  predicate Earlier(a: Sample, b: Sample) {
    a.at < b.at
  }

  function AtLeastZero(x: real): real {
    if x < 0.0 then 0.0 else x
  }

  /** The newest samples, oldest first. */
  function Latest(samples: seq<Sample>, lookback: int): seq<Sample> {
    var back := if lookback <= 1 then 2 else lookback;
    var ordered := InTime(samples);
    if |ordered| > back then ordered[|ordered| - back..] else ordered
  }

  /** The line through the first and the last sample, continued. */
  function Trend(latest: seq<Sample>, m: Metric, factor: real): real {
    if |latest| < 2 then 0.0
    else
      var first, last := m(latest[0]), m(latest[|latest| - 1]);
      var slope := (last - first) / (|latest| - 1) as real;
      AtLeastZero(last + slope * factor)
  }

  /** predictMetrics. */
  function Predicted(samples: seq<Sample>, name: string, lookback: int, factor: real): Load {
    var f := if factor <= 0.0 then 1.0 else factor;
    var latest := Latest(samples, lookback);
    Load(Trend(latest, Cpu, f), Trend(latest, Memory, f), if name == "" then 0.0 else Trend(latest, Custom(name), f))
  }

  /** Each metric is predicted from its own values in the look-back; a custom metric only where it is named and reported. */
  lemma PredictedExactly(samples: seq<Sample>, name: string, lookback: int, factor: real, s: Sample)
    ensures var latest, f := Latest(samples, lookback), if factor > 0.0 then factor else 1.0;
            var l := Predicted(samples, name, lookback, factor);
            && l.cpu == Trend(latest, Cpu, f) && l.memory == Trend(latest, Memory, f)
            && (name != "" ==> l.custom == Trend(latest, Custom(name), f)) && (name == "" ==> l.custom == 0.0)
    ensures Cpu(s) == s.cpu && Memory(s) == s.memory
    ensures name != "" && name in s.custom ==> Custom(name)(s) == s.custom[name]
    ensures name == "" || name !in s.custom ==> Custom(name)(s) == 0.0
  {
  }

  function InTime(samples: seq<Sample>): seq<Sample> {
    Sorting.StableSort(samples, Earlier)
  }

  lemma TimeOrder(samples: seq<Sample>, i: nat, j: nat)
    requires i < j < |InTime(samples)|
    ensures InTime(samples)[i].at <= InTime(samples)[j].at
  {
    Sorting.SortOrders(samples, Earlier);
    assert !Earlier(InTime(samples)[j], InTime(samples)[i]);
  }

  /** The look-back is the end of the samples in time order, so nothing it leaves out is newer than anything in it. */
  lemma LatestAreNewest(samples: seq<Sample>, lookback: int, i: nat, j: nat)
    requires i < j < |InTime(samples)|
    ensures multiset(InTime(samples)) == multiset(samples) && |Latest(samples, lookback)| <= |InTime(samples)|
    ensures var back := if lookback > 2 then lookback else 2;
            |Latest(samples, lookback)| == if |InTime(samples)| > back then back else |InTime(samples)|
    ensures Latest(samples, lookback) == InTime(samples)[|InTime(samples)| - |Latest(samples, lookback)|..]
    ensures InTime(samples)[i].at <= InTime(samples)[j].at
  {
    Sorting.SortPermutes(samples, Earlier);
    TimeOrder(samples, i, j);
  }

  /** A metric that changes by the same amount from sample to sample is continued by `factor` more samples. */
  lemma PredictionContinuesLine(latest: seq<Sample>, m: Metric, factor: real, a: real, b: real)
    requires |latest| >= 2 && forall i | 0 <= i < |latest| :: m(latest[i]) == a + b * i as real
    ensures Trend(latest, m, factor) == AtLeastZero(a + b * ((|latest| - 1) as real + factor))
  {
    var steps := (|latest| - 1) as real;
    var first, last := m(latest[0]), m(latest[|latest| - 1]);
    assert first == a && last == a + b * steps;
    SlopeOfLine(b, steps);
    assert (last - first) / steps == b;
    assert a + b * steps + b * factor == a + b * (steps + factor);
  }

  lemma SlopeOfLine(b: real, steps: real)
    requires steps > 0.0
    ensures (b * steps) / steps == b
  {
  }

  function Greater(a: real, b: real): real {
    if b > a then b else a
  }

  /** The load a policy acts on. */
  function Effective(p: Policy, samples: seq<Sample>, now: int): Load {
    var w := Window(p, samples, now);
    var mean := Average(w, p.customName);
    if !p.predictive then mean
    else
      var ahead := Predicted(w, p.customName, p.lookback, p.factor);
      Load(Greater(mean.cpu, ahead.cpu), Greater(mean.memory, ahead.memory), Greater(mean.custom, ahead.custom))
  }

  method Measure(p: Policy, samples: seq<Sample>, now: int) returns (l: Load)
    ensures l == Effective(p, samples, now)
  {
    var w := SelectWindow(p, samples, now);
    l := Aggregate(w, p.customName);
    if p.predictive {
      var ahead := Predicted(w, p.customName, p.lookback, p.factor);
      if ahead.cpu > l.cpu { l := l.(cpu := ahead.cpu); }
      if ahead.memory > l.memory { l := l.(memory := ahead.memory); }
      if ahead.custom > l.custom { l := l.(custom := ahead.custom); }
    }
  }

  // ----- the recommendation -----

  function Ceil(x: real): int {
    -((-x).Floor)
  }

  predicate Active(value: real, target: real) {
    target > 0.0 && value > 0.0
  }

  function Candidate(current: int, value: real, target: real): int
    requires Active(value, target)
  {
    Ceil(current as real * (value / target))
  }

  predicate Low(value: real, target: real) {
    Active(value, target) && value < target * 0.65
  }

  predicate Above(value: real, target: real) {
    Active(value, target) && value > target
  }

  /** One utilisation metric: raise to the candidate, then give one replica back when it is low. */
  function Consider(r: int, current: int, value: real, target: real): int {
    if !Active(value, target) then r
    else
      var raised := Rollout.MaxInt(r, Candidate(current, value, target));
      if Low(value, target) then Rollout.MinInt(raised, current - 1) else raised
  }

  predicate CustomActive(p: Policy, l: Load) {
    !Text.IsBlank(p.customName) && Active(l.custom, p.targetCustom)
  }

  function Wanted(p: Policy, current: int, l: Load): int {
    var byCpu := Consider(current, current, l.cpu, p.targetCpu);
    var byMemory := Consider(byCpu, current, l.memory, p.targetMemory);
    if CustomActive(p, l) then Rollout.MaxInt(byMemory, Candidate(current, l.custom, p.targetCustom)) else byMemory
  }

  function Recommended(p: Policy, current: int, l: Load): int {
    Rollout.MaxInt(p.minReplicas, Rollout.MinInt(p.maxReplicas, Wanted(p, current, l)))
  }

  lemma CeilAbove(x: real, n: int)
    ensures Ceil(x) > n <==> x > n as real
  {
    var f := (-x).Floor;
    assert f as real <= -x < f as real + 1.0;
    if x > n as real {
      assert (f as real) < (-n) as real;
    } else {
      assert (f as real) + 1.0 > (-n) as real;
      assert f + 1 > -n;
    }
  }

  /** A candidate asks for more than the current count exactly when its metric is above target. */
  lemma CandidateGrows(current: int, value: real, target: real)
    requires current >= 1 && Active(value, target)
    ensures Candidate(current, value, target) > current <==> value > target
  {
    var ratio, c := value / target, current as real;
    CeilAbove(c * ratio, current);
    assert ratio * target == value;
    if value > target {
      assert ratio > 1.0 by { QuotientAboveOne(value, target); }
      ProductAbove(c, ratio);
    } else {
      assert ratio <= 1.0 by { QuotientAtMostOne(value, target); }
      ProductAtMost(c, ratio);
    }
  }

  lemma QuotientAboveOne(value: real, target: real)
    requires target > 0.0 && value > target
    ensures value / target > 1.0
  {
  }

  lemma QuotientAtMostOne(value: real, target: real)
    requires target > 0.0 && value <= target
    ensures value / target <= 1.0
  {
  }

  lemma ProductAbove(c: real, ratio: real)
    requires c >= 1.0 && ratio > 1.0
    ensures c * ratio > c
  {
    assert c * ratio == c + c * (ratio - 1.0);
  }

  lemma ProductAtMost(c: real, ratio: real)
    requires c >= 0.0 && ratio <= 1.0
    ensures c * ratio <= c
  {
    assert c * ratio == c - c * (1.0 - ratio);
  }

  /** The load of a metric leaves room for one replica less. */
  predicate Spares(current: int, value: real, target: real) {
    current as real * value <= (current - 1) as real * target
  }

  lemma ScaledQuotient(c: real, n: real, value: real, target: real)
    requires target > 0.0
    ensures c * (value / target) <= n <==> c * value <= n * target
  {
    var x := c * (value / target);
    assert x * target == c * value;
    if x <= n {
      assert (n - x) * target >= 0.0;
    } else {
      assert (x - n) * target > 0.0;
    }
  }

  /** n replicas at the target carry what the current ones carry. */
  predicate Enough(n: int, current: int, value: real, target: real) {
    n as real * target >= current as real * value
  }

  /** A candidate is the least count that is enough. */
  lemma CandidateIsLeast(current: int, value: real, target: real, n: int)
    requires Active(value, target)
    ensures Candidate(current, value, target) <= n <==> Enough(n, current, value, target)
  {
    CeilAbove(current as real * (value / target), n);
    ScaledQuotient(current as real, n as real, value, target);
  }

  /** A candidate asks for less than the current count exactly when the load of its metric leaves room for one less. */
  lemma CandidateSpares(current: int, value: real, target: real)
    requires Active(value, target)
    ensures Candidate(current, value, target) <= current - 1 <==> Spares(current, value, target)
  {
    CeilAbove(current as real * (value / target), current - 1);
    ScaledQuotient(current as real, (current - 1) as real, value, target);
  }

  /** The metric is in use and below 65 percent of its target. */
  predicate Slack(value: real, target: real) {
    target > 0.0 && value > 0.0 && 100.0 * value < 65.0 * target
  }

  /** Growth, exactly: custom or memory above target, or CPU above target with memory not low. */
  lemma GrowsExactly(p: Policy, current: int, l: Load)
    requires current >= 1
    ensures Wanted(p, current, l) > current <==>
              || (CustomActive(p, l) && l.custom > p.targetCustom)
              || Above(l.memory, p.targetMemory)
              || (Above(l.cpu, p.targetCpu) && !Slack(l.memory, p.targetMemory))
  {
    if Active(l.cpu, p.targetCpu) { CandidateGrows(current, l.cpu, p.targetCpu); }
    if Active(l.memory, p.targetMemory) { CandidateGrows(current, l.memory, p.targetMemory); }
    if CustomActive(p, l) { CandidateGrows(current, l.custom, p.targetCustom); }
  }

  /**
   * How far the count grows: it is covered by n exactly when n replicas are enough for memory, for the custom metric
   * and, unless memory is low, for CPU. So a growing count is the least that is enough for those.
   */
  lemma WantedIsLeast(p: Policy, current: int, l: Load, n: int)
    requires 1 <= current <= n
    ensures Wanted(p, current, l) <= n <==>
              && (Active(l.memory, p.targetMemory) ==> Enough(n, current, l.memory, p.targetMemory))
              && (CustomActive(p, l) ==> Enough(n, current, l.custom, p.targetCustom))
              && (Active(l.cpu, p.targetCpu) && !Slack(l.memory, p.targetMemory) ==> Enough(n, current, l.cpu, p.targetCpu))
  {
    if Active(l.cpu, p.targetCpu) {
      CandidateIsLeast(current, l.cpu, p.targetCpu, n);
      CandidateGrows(current, l.cpu, p.targetCpu);
    }
    if Active(l.memory, p.targetMemory) {
      CandidateIsLeast(current, l.memory, p.targetMemory, n);
      CandidateGrows(current, l.memory, p.targetMemory);
    }
    if CustomActive(p, l) { CandidateIsLeast(current, l.custom, p.targetCustom, n); }
  }

  /** Shrinking, exactly, and then by one: low memory or, when memory can spare a replica, low CPU; and custom can spare one. */
  lemma ShrinksExactly(p: Policy, current: int, l: Load)
    ensures Wanted(p, current, l) >= current - 1
    ensures Wanted(p, current, l) < current <==>
              && (|| Slack(l.memory, p.targetMemory)
                  || (&& Slack(l.cpu, p.targetCpu)
                      && (Active(l.memory, p.targetMemory) ==> Spares(current, l.memory, p.targetMemory))))
              && (CustomActive(p, l) ==> Spares(current, l.custom, p.targetCustom))
  {
    if Active(l.memory, p.targetMemory) { CandidateSpares(current, l.memory, p.targetMemory); }
    if CustomActive(p, l) { CandidateSpares(current, l.custom, p.targetCustom); }
  }

  /** Low memory takes a replica away however far the CPU is above its target. */
  lemma LowMemoryOverrulesCpu(p: Policy, current: int, l: Load)
    requires current >= 1 && Above(l.cpu, p.targetCpu) && Low(l.memory, p.targetMemory) && !CustomActive(p, l)
    ensures Wanted(p, current, l) == current - 1
    ensures Wanted(p.(targetMemory := 0.0), current, l) > current
  {
    CandidateGrows(current, l.cpu, p.targetCpu);
  }

  /** For instance 10 replicas at five times the CPU target shrink to 9. */
  lemma BusyDeploymentShrinks(p: Policy)
    requires p.targetCpu == 50.0 && p.targetMemory == 50.0 && Text.IsBlank(p.customName)
    requires p.minReplicas == 1 && p.maxReplicas == 100
    ensures Recommended(p, 10, Load(250.0, 20.0, 0.0)) == 9
  {
    LowMemoryOverrulesCpu(p, 10, Load(250.0, 20.0, 0.0));
  }

  /** Every used metric is at or below its target. */
  predicate AtOrBelowTargets(p: Policy, l: Load) {
    && !Above(l.cpu, p.targetCpu)
    && !Above(l.memory, p.targetMemory)
    && !(CustomActive(p, l) && l.custom > p.targetCustom)
  }

  /** The written count stays in range, gives up at most one replica and grows only when a metric is above target. */
  lemma RecommendationIsSafe(p: Policy, current: int, l: Load)
    requires Normal(p) && current >= 1
    ensures p.minReplicas <= Recommended(p, current, l) <= p.maxReplicas
    ensures Recommended(p, current, l) >= Rollout.MinInt(p.maxReplicas, current - 1)
    ensures AtOrBelowTargets(p, l) ==> Recommended(p, current, l) <= Rollout.MaxInt(p.minReplicas, current)
    ensures p.minReplicas <= Wanted(p, current, l) <= p.maxReplicas ==> Recommended(p, current, l) == Wanted(p, current, l)
    ensures Wanted(p, current, l) > p.maxReplicas ==> Recommended(p, current, l) == p.maxReplicas
    ensures Wanted(p, current, l) < p.minReplicas ==> Recommended(p, current, l) == p.minReplicas
  {
    ShrinksExactly(p, current, l);
    GrowsExactly(p, current, l);
  }

  lemma {:induction false} TotalBetween(samples: seq<Sample>, m: Metric, low: real, high: real)
    requires forall i | 0 <= i < |samples| :: low <= m(samples[i]) <= high
    ensures |samples| as real * low <= Total(samples, m) <= |samples| as real * high
  {
    if samples != [] {
      var n := |samples| - 1;
      TotalBetween(samples[..n], m, low, high);
      OneMore(n, low);
      OneMore(n, high);
    }
  }

  lemma OneMore(n: nat, x: real)
    ensures (n + 1) as real * x == n as real * x + x
  {
    assert (n + 1) as real == n as real + 1.0;
  }

  lemma QuotientBetween(total: real, n: real, low: real, high: real)
    requires n > 0.0 && n * low <= total <= n * high
    ensures low <= total / n <= high
  {
  }

  /** The mean lies where the samples lie. */
  lemma MeanBetween(samples: seq<Sample>, m: Metric, low: real, high: real)
    requires samples != [] && forall i | 0 <= i < |samples| :: low <= m(samples[i]) <= high
    ensures low <= Mean(samples, m) <= high
  {
    TotalBetween(samples, m, low, high);
    QuotientBetween(Total(samples, m), |samples| as real, low, high);
  }

  function Least(samples: seq<Sample>, m: Metric): real
    requires samples != []
    ensures forall i | 0 <= i < |samples| :: Least(samples, m) <= m(samples[i])
  {
    var n := |samples| - 1;
    if n == 0 then m(samples[0])
    else
      var rest := Least(samples[..n], m);
      assert forall i | 0 <= i < n :: rest <= m(samples[..n][i]) && samples[..n][i] == samples[i];
      if m(samples[n]) < rest then m(samples[n]) else rest
  }

  lemma MeanAtMost(samples: seq<Sample>, m: Metric, high: real)
    requires samples != [] && forall i | 0 <= i < |samples| :: m(samples[i]) <= high
    ensures Mean(samples, m) <= high
  {
    MeanBetween(samples, m, Least(samples, m), high);
  }

  /** The window holds the samples that are no older than it. */
  lemma {:induction false} WithinExactly(samples: seq<Sample>, start: int, s: Sample)
    ensures s in Within(samples, start) <==> s in samples && s.at >= start
  {
    if samples != [] {
      var n := |samples| - 1;
      WithinExactly(samples[..n], start, s);
      assert samples == samples[..n] + [samples[n]];
    }
  }

  /** The window, by time: the samples of the last windowSec seconds, or all of them when there is none. */
  lemma WindowExactly(p: Policy, samples: seq<Sample>, now: int, s: Sample)
    ensures s in Window(p, samples, now) <==>
              && s in samples
              && (s.at >= now - p.windowSec * 1_000_000_000 || forall o | o in samples :: o.at < now - p.windowSec * 1_000_000_000)
  {
    var start := now - p.windowSec * 1_000_000_000;
    WithinExactly(samples, start, s);
    forall o | o in samples ensures o in Within(samples, start) <==> o.at >= start {
      WithinExactly(samples, start, o);
    }
    if Within(samples, start) != [] {
      WithinExactly(samples, start, Within(samples, start)[0]);
    }
  }

  lemma {:induction false} TotalJoins(a: seq<Sample>, b: seq<Sample>, m: Metric)
    ensures Total(a + b, m) == Total(a, m) + Total(b, m)
  {
    if b == [] {
      assert a + b == a;
    } else {
      assert (a + b)[..|a| + |b| - 1] == a + b[..|b| - 1];
      TotalJoins(a, b[..|b| - 1], m);
    }
  }

  /** The mean of one sample is its value, and the mean of two lists weighs theirs by length. */
  lemma MeanJoins(a: seq<Sample>, b: seq<Sample>, m: Metric, s: Sample)
    ensures Mean([s], m) == m(s)
    ensures (|a| + |b|) as real * Mean(a + b, m) == |a| as real * Mean(a, m) + |b| as real * Mean(b, m)
  {
    assert [s][..0] == [] && Total([s][..0], m) == 0.0 && Total([s], m) == m(s);
    TotalJoins(a, b, m);
    MeanTimesCount(a, m);
    MeanTimesCount(b, m);
    MeanTimesCount(a + b, m);
  }

  lemma MeanTimesCount(a: seq<Sample>, m: Metric)
    ensures |a| as real * Mean(a, m) == Total(a, m)
  {
  }

  /** With prediction, each metric counts at the greater of its mean and its prediction. */
  lemma EffectiveIsGreater(p: Policy, samples: seq<Sample>, now: int)
    ensures var w, l := Window(p, samples, now), Effective(p, samples, now);
            var mean := Average(w, p.customName);
            var ahead := Predicted(w, p.customName, p.lookback, p.factor);
            && (!p.predictive ==> l == mean)
            && (p.predictive ==> l.cpu >= mean.cpu && l.cpu >= ahead.cpu && (l.cpu == mean.cpu || l.cpu == ahead.cpu))
            && (p.predictive ==> l.memory >= mean.memory && l.memory >= ahead.memory && (l.memory == mean.memory || l.memory == ahead.memory))
            && (p.predictive ==> l.custom >= mean.custom && l.custom >= ahead.custom && (l.custom == mean.custom || l.custom == ahead.custom))
  {
  }

  /** Without prediction, samples at or below the targets in use never raise a deployment above its count or the minimum. */
  lemma SteadyLoadDoesNotGrow(p: Policy, samples: seq<Sample>, now: int, current: int)
    requires Normal(p) && current >= 1 && !p.predictive && samples != []
    requires forall i | 0 <= i < |Window(p, samples, now)| ::
               var s := Window(p, samples, now)[i];
               && (p.targetCpu > 0.0 ==> s.cpu <= p.targetCpu)
               && (p.targetMemory > 0.0 ==> s.memory <= p.targetMemory)
               && (p.targetCustom > 0.0 && !Text.IsBlank(p.customName) ==> CustomValue(s, p.customName) <= p.targetCustom)
    ensures Recommended(p, current, Effective(p, samples, now)) <= Rollout.MaxInt(p.minReplicas, current)
  {
    var w := Window(p, samples, now);
    if p.targetCpu > 0.0 { MeanAtMost(w, Cpu, p.targetCpu); }
    if p.targetMemory > 0.0 { MeanAtMost(w, Memory, p.targetMemory); }
    if p.targetCustom > 0.0 && !Text.IsBlank(p.customName) { MeanAtMost(w, Custom(p.customName), p.targetCustom); }
    RecommendationIsSafe(p, current, Effective(p, samples, now));
  }

  // ----- every run of passes -----

  datatype Scaling = Scaling(policy: Policy, from: int, to: int, at: int, load: Load)
  {
    function CooldownSec(): int {
      if to > from then policy.upCooldownSec else policy.downCooldownSec
    }
  }

  /** The two stored tables and the history of every scaling written. */
  datatype Fleet = Fleet(policies: seq<Entry<Policy>>, deployments: seq<Entry<Deployment>>, log: seq<Scaling>)

  function Samples(metrics: map<string, seq<Sample>>, deploymentId: string): seq<Sample> {
    if deploymentId in metrics then metrics[deploymentId] else []
  }

  predicate Cooling(p: Policy, cooldownSec: int, now: int) {
    p.lastScaleAt.Some? && now - p.lastScaleAt.value < cooldownSec * SECOND
  }

  /** What one policy decides in a pass: a scaling, or nothing. */
  function Decision(f: Fleet, p: Policy, metrics: map<string, seq<Sample>>, now: int): Option<Scaling> {
    match Get(f.deployments, p.deploymentId)
    case None => None
    case Some(d) =>
      var samples := Samples(metrics, p.deploymentId);
      if samples == [] then None
      else
        var l := Effective(p, samples, now);
        var s := Scaling(p, d.spec.replicas, Recommended(p, d.spec.replicas, l), now, l);
        if s.to == s.from || Cooling(p, s.CooldownSec(), now) then None else Some(s)
  }

  /** A policy scales exactly when the recommendation differs from the count and the cooldown of that direction is over. */
  lemma DecisionExactly(f: Fleet, p: Policy, metrics: map<string, seq<Sample>>, now: int)
    requires Get(f.deployments, p.deploymentId).Some? && p.deploymentId in metrics && metrics[p.deploymentId] != []
    ensures var current := Get(f.deployments, p.deploymentId).value.spec.replicas;
            var l := Effective(p, metrics[p.deploymentId], now);
            var to := Recommended(p, current, l);
            var wait := (if to > current then p.upCooldownSec else p.downCooldownSec) * 1_000_000_000;
            Decision(f, p, metrics, now) ==
              if to != current && (p.lastScaleAt.None? || p.lastScaleAt.value + wait <= now)
              then Some(Scaling(p, current, to, now, l)) else None
  {
  }

  function Written(f: Fleet, s: Scaling): Fleet {
    match Get(f.deployments, s.policy.deploymentId)
    case None => f
    case Some(d) =>
      Fleet(Put(f.policies, s.policy.id, s.policy.(lastScaleAt := Some(s.at))),
            Put(f.deployments, s.policy.deploymentId, Revisions.Scaled(d, s.to, s.at)),
            f.log + [s])
  }

  /** A scaling writes its count into the deployment's record and its time into the policy, and nothing else. */
  lemma ScalingIsWritten(f: Fleet, s: Scaling, id: string)
    requires Get(f.deployments, s.policy.deploymentId).Some?
    ensures var g, d := Written(f, s), Get(f.deployments, s.policy.deploymentId).value;
            && Get(g.policies, id) == (if id == s.policy.id then Some(s.policy.(lastScaleAt := Some(s.at))) else Get(f.policies, id))
            && (id != s.policy.deploymentId ==> Get(g.deployments, id) == Get(f.deployments, id))
            && (id == s.policy.deploymentId ==>
                  && Get(g.deployments, id).Some?
                  && var e := Get(g.deployments, id).value;
                     && e.spec == d.spec.(replicas := s.to) && e.history == d.history && e.currentRevision == d.currentRevision
                     && e.generation == d.generation + 1 && e.phase == Phase.Autoscaling && e.status == DeploymentPending
                     && e.startedAt == if d.startedAt.Some? then d.startedAt else Some(s.at))
            && g.log == f.log + [s]
  {
    var d := Get(f.deployments, s.policy.deploymentId).value;
    GetPut(f.policies, s.policy.id, s.policy.(lastScaleAt := Some(s.at)), id);
    GetPut(f.deployments, s.policy.deploymentId, Revisions.Scaled(d, s.to, s.at), id);
  }

  function Visit(f: Fleet, p: Policy, metrics: map<string, seq<Sample>>, now: int): Fleet {
    match Decision(f, p, metrics, now)
    case None => f
    case Some(s) => Written(f, s)
  }

  /** The policies are listed once; each is then judged by that copy. */
  function Pass(f: Fleet, listed: seq<Policy>, metrics: map<string, seq<Sample>>, now: int): Fleet {
    if listed == [] then f
    else Visit(Pass(f, listed[..|listed| - 1], metrics, now), listed[|listed| - 1], metrics, now)
  }

  /** A pass, a policy written through the API, or any other change of the deployments. */
  datatype Event =
    | Reconcile(metrics: map<string, seq<Sample>>, now: int)
    | Upsert(policy: Policy)
    | Others(deployments: seq<Entry<Deployment>>)

  function After(f: Fleet, e: Event): Fleet {
    match e
    case Reconcile(metrics, now) => Pass(f, Recs(f.policies), metrics, now)
    case Upsert(p) => f.(policies := Put(f.policies, p.id, Normalize(p)))
    case Others(ds) => f.(deployments := ds)
  }

  ghost predicate Populated(ds: seq<Entry<Deployment>>) {
    Ordered(ds) && forall k | 0 <= k < |ds| :: ds[k].rec.spec.replicas >= 1
  }

  /** The other parts of the control plane keep replica counts positive. */
  ghost predicate Allowed(e: Event) {
    e.Others? ==> Populated(e.deployments)
  }

  function Run(evs: seq<Event>): Fleet {
    if evs == [] then Fleet([], [], []) else After(Run(evs[..|evs| - 1]), evs[|evs| - 1])
  }

  ghost predicate Admissible(evs: seq<Event>) {
    evs == [] || (Admissible(evs[..|evs| - 1]) && Allowed(evs[|evs| - 1]))
  }

  lemma RunExtends(evs: seq<Event>, e: Event)
    requires Admissible(evs) && Allowed(e)
    ensures Admissible(evs + [e]) && Run(evs + [e]) == After(Run(evs), e)
  {
    assert (evs + [e])[..|evs|] == evs;
  }

  /** The policy remembers a scaling at or after this one. */
  predicate Since(p: Policy, s: Scaling) {
    p.lastScaleAt.Some? && p.lastScaleAt.value >= s.at
  }

  ghost predicate Listed(policies: seq<Entry<Policy>>) {
    Ordered(policies) && forall k | 0 <= k < |policies| :: policies[k].rec.id == policies[k].id && Normal(policies[k].rec)
  }

  /** Every scaling so far was safe. */
  predicate Safe(s: Scaling) {
    && Normal(s.policy)
    && s.from != s.to
    && s.policy.minReplicas <= s.to <= s.policy.maxReplicas
    && s.to >= Rollout.MinInt(s.policy.maxReplicas, s.from - 1)
    && (AtOrBelowTargets(s.policy, s.load) ==> s.to <= Rollout.MaxInt(s.policy.minReplicas, s.from))
  }

  /** Two scalings by one policy are at least the cooldown of the later one's direction apart. */
  predicate Apart(a: Scaling, b: Scaling) {
    a.policy.id == b.policy.id ==>
      b.at - a.at >= (if b.to > b.from then b.policy.upCooldownSec else b.policy.downCooldownSec) * 1_000_000_000
  }

  ghost predicate Spaced(log: seq<Scaling>, id: string) {
    forall i, j | 0 <= i < j < |log| && log[i].policy.id == id :: Apart(log[i], log[j])
  }

  /** This policy, if it is stored, remembers every scaling it has made. */
  ghost predicate Remembers(p: Policy, log: seq<Scaling>) {
    forall i | 0 <= i < |log| && log[i].policy.id == p.id :: Since(p, log[i])
  }

  ghost predicate Timed(f: Fleet, id: string) {
    && Spaced(f.log, id)
    && (Get(f.policies, id).Some? ==> Get(f.policies, id).value.id == id && Remembers(Get(f.policies, id).value, f.log))
  }

  /** Policies are normal, replica counts positive and all scalings safe. */
  ghost predicate Sound(f: Fleet) {
    Listed(f.policies) && Populated(f.deployments) && forall i | 0 <= i < |f.log| :: Safe(f.log[i])
  }

  lemma PutListed(policies: seq<Entry<Policy>>, p: Policy)
    requires Listed(policies) && Normal(p)
    ensures Listed(Put(policies, p.id, p))
  {
    PutOrdered(policies, p.id, p);
    PutMembers(policies, p.id, p);
  }

  lemma PutPopulated(ds: seq<Entry<Deployment>>, id: string, d: Deployment)
    requires Populated(ds) && d.spec.replicas >= 1
    ensures Populated(Put(ds, id, d))
  {
    PutOrdered(ds, id, d);
    PutMembers(ds, id, d);
  }

  lemma PopulatedAt(ds: seq<Entry<Deployment>>, id: string)
    requires Populated(ds)
    ensures Get(ds, id).Some? ==> Get(ds, id).value.spec.replicas >= 1
  {
    GetMember(ds, id);
  }

  lemma DecisionIsSafe(f: Fleet, p: Policy, metrics: map<string, seq<Sample>>, now: int)
    requires Populated(f.deployments) && Normal(p) && Decision(f, p, metrics, now).Some?
    ensures var s := Decision(f, p, metrics, now).value;
            Safe(s) && s.to >= 1 && s.policy == p && s.at == now && !Cooling(p, s.CooldownSec(), now)
    ensures Get(f.deployments, p.deploymentId).Some?
  {
    PopulatedAt(f.deployments, p.deploymentId);
    RecommendationIsSafe(p, Get(f.deployments, p.deploymentId).value.spec.replicas,
                         Effective(p, Samples(metrics, p.deploymentId), now));
  }

  lemma VisitIsSound(f: Fleet, p: Policy, metrics: map<string, seq<Sample>>, now: int)
    requires Sound(f) && Normal(p)
    ensures Sound(Visit(f, p, metrics, now))
  {
    if Decision(f, p, metrics, now).Some? {
      var s := Decision(f, p, metrics, now).value;
      DecisionIsSafe(f, p, metrics, now);
      PutListed(f.policies, p.(lastScaleAt := Some(now)));
      var d := Get(f.deployments, p.deploymentId).value;
      PutPopulated(f.deployments, p.deploymentId, Revisions.Scaled(d, s.to, now));
    }
  }

  lemma WrittenIsTimed(f: Fleet, s: Scaling, id: string)
    requires Timed(f, id) && Get(f.policies, s.policy.id) == Some(s.policy) && Get(f.deployments, s.policy.deploymentId).Some?
    requires Normal(s.policy) && !Cooling(s.policy, s.CooldownSec(), s.at)
    ensures Timed(Written(f, s), id)
  {
    var g := Written(f, s);
    GetPut(f.policies, s.policy.id, s.policy.(lastScaleAt := Some(s.at)), id);
    if s.policy.id == id {
      forall i | 0 <= i < |f.log| && f.log[i].policy.id == id ensures Apart(f.log[i], s) && f.log[i].at <= s.at {
        assert Since(s.policy, f.log[i]);
      }
    }
  }

  lemma VisitIsTimed(f: Fleet, p: Policy, metrics: map<string, seq<Sample>>, now: int, id: string)
    requires Sound(f) && Timed(f, id) && Normal(p) && Get(f.policies, p.id) == Some(p)
    ensures Timed(Visit(f, p, metrics, now), id)
  {
    if Decision(f, p, metrics, now).Some? {
      DecisionIsSafe(f, p, metrics, now);
      WrittenIsTimed(f, Decision(f, p, metrics, now).value, id);
    }
  }

  lemma {:induction false} OthersUntouched(f: Fleet, listed: seq<Policy>, metrics: map<string, seq<Sample>>, now: int, id: string)
    requires forall k | 0 <= k < |listed| :: listed[k].id != id
    ensures Get(Pass(f, listed, metrics, now).policies, id) == Get(f.policies, id)
  {
    if listed != [] {
      var n := |listed| - 1;
      OthersUntouched(f, listed[..n], metrics, now, id);
      var g := Pass(f, listed[..n], metrics, now);
      var p := listed[n];
      if Decision(g, p, metrics, now).Some? {
        GetPut(g.policies, p.id, p.(lastScaleAt := Some(now)), id);
      }
    }
  }

  /** When a pass reaches a listed policy, the stored record is still the listed copy. */
  lemma {:induction false} PassIsSound(f: Fleet, n: nat, metrics: map<string, seq<Sample>>, now: int)
    requires Sound(f) && n <= |Recs(f.policies)|
    ensures var g := Pass(f, Recs(f.policies)[..n], metrics, now);
            Sound(g) && (n < |Recs(f.policies)| ==> var p := Recs(f.policies)[n]; Normal(p) && Get(g.policies, p.id) == Some(p))
  {
    var all := Recs(f.policies);
    RecsAt(f.policies);
    if n > 0 {
      PassIsSound(f, n - 1, metrics, now);
      assert all[..n][..n - 1] == all[..n - 1];
      VisitIsSound(Pass(f, all[..n - 1], metrics, now), all[n - 1], metrics, now);
    } else {
      assert all[..0] == [];
    }
    if n < |all| {
      var p, before := all[n], all[..n];
      forall k | 0 <= k < n ensures before[k].id != p.id {
        Text.LessTotal(f.policies[k].id, f.policies[n].id);
      }
      OthersUntouched(f, before, metrics, now, p.id);
      GetIndex(f.policies, n);
    }
  }

  lemma {:induction false} PassIsTimed(f: Fleet, n: nat, metrics: map<string, seq<Sample>>, now: int, id: string)
    requires Sound(f) && Timed(f, id) && n <= |Recs(f.policies)|
    ensures Timed(Pass(f, Recs(f.policies)[..n], metrics, now), id)
  {
    var all := Recs(f.policies);
    if n > 0 {
      PassIsTimed(f, n - 1, metrics, now, id);
      PassIsSound(f, n - 1, metrics, now);
      assert all[..n][..n - 1] == all[..n - 1];
      VisitIsTimed(Pass(f, all[..n - 1], metrics, now), all[n - 1], metrics, now, id);
    } else {
      assert all[..0] == [];
    }
  }

  lemma {:induction false} SoundHolds(evs: seq<Event>)
    requires Admissible(evs)
    ensures Sound(Run(evs))
  {
    if evs != [] {
      var f, e := Run(evs[..|evs| - 1]), evs[|evs| - 1];
      SoundHolds(evs[..|evs| - 1]);
      match e
      case Reconcile(metrics, now) =>
        PassIsSound(f, |Recs(f.policies)|, metrics, now);
        assert Recs(f.policies)[..|Recs(f.policies)|] == Recs(f.policies);
      case Upsert(p) =>
        NormalizeIsNormal(p);
        PutListed(f.policies, Normalize(p));
      case Others(_) =>
    }
  }

  /** In every run every scaling is in range, gives up at most one replica and grows only when a metric is above target. */
  lemma ScalingsAreSafe(evs: seq<Event>, i: nat)
    requires Admissible(evs) && i < |Run(evs).log|
    ensures Safe(Run(evs).log[i])
  {
    SoundHolds(evs);
  }

  /** Whenever this policy is written through the API, it keeps the time of its last scaling. */
  ghost predicate KeepsTime(evs: seq<Event>, id: string) {
    evs == [] ||
    (&& KeepsTime(evs[..|evs| - 1], id)
     && (evs[|evs| - 1].Upsert? && evs[|evs| - 1].policy.id == id ==> Remembers(evs[|evs| - 1].policy, Run(evs[..|evs| - 1]).log)))
  }

  lemma {:induction false} TimedHolds(evs: seq<Event>, id: string)
    requires Admissible(evs) && KeepsTime(evs, id)
    ensures Timed(Run(evs), id)
  {
    if evs != [] {
      var f, e := Run(evs[..|evs| - 1]), evs[|evs| - 1];
      TimedHolds(evs[..|evs| - 1], id);
      SoundHolds(evs[..|evs| - 1]);
      match e
      case Reconcile(metrics, now) =>
        PassIsTimed(f, |Recs(f.policies)|, metrics, now, id);
        assert Recs(f.policies)[..|Recs(f.policies)|] == Recs(f.policies);
      case Upsert(p) => GetPut(f.policies, p.id, Normalize(p), id);
      case Others(_) =>
    }
  }

  /** In every run, two scalings by a policy whose API writes keep its last time are the later one's cooldown apart. */
  lemma ScalingsAreSpaced(evs: seq<Event>, id: string, i: nat, j: nat)
    requires Admissible(evs) && KeepsTime(evs, id) && i < j < |Run(evs).log| && Run(evs).log[i].policy.id == id
    ensures Apart(Run(evs).log[i], Run(evs).log[j])
  {
    TimedHolds(evs, id);
  }

  // ----- a policy that forgets -----

  /** No scaling of this policy is later than this moment. */
  ghost predicate NotBefore(log: seq<Scaling>, id: string, now: int) {
    forall i | 0 <= i < |log| && log[i].policy.id == id :: log[i].at <= now
  }

  /** The next visit of this policy, over these deployments and metrics. */
  function NextVisit(f: Fleet, p: Policy, ds: seq<Entry<Deployment>>, metrics: map<string, seq<Sample>>, now: int): Fleet {
    Visit(After(After(f, Upsert(p)), Others(ds)), Normalize(p), metrics, now)
  }

  /** Whatever the deployments and metrics are by then, the next visit after this write keeps the policy's scalings spaced. */
  ghost predicate SpacedNext(f: Fleet, p: Policy) {
    forall ds, metrics, now | Populated(ds) && NotBefore(f.log, p.id, now) :: Spaced(NextVisit(f, p, ds, metrics, now).log, p.id)
  }

  lemma RememberingIsSpaced(f: Fleet, p: Policy, ds: seq<Entry<Deployment>>, metrics: map<string, seq<Sample>>, now: int)
    requires Sound(f) && Spaced(f.log, p.id) && Remembers(p, f.log) && Populated(ds)
    ensures Spaced(NextVisit(f, p, ds, metrics, now).log, p.id)
  {
    var q, g := Normalize(p), After(After(f, Upsert(p)), Others(ds));
    NormalizeIsNormal(p);
    PutListed(f.policies, q);
    GetPut(f.policies, p.id, q, p.id);
    forall i | 0 <= i < |f.log| && f.log[i].policy.id == p.id ensures Since(q, f.log[i]) {
      assert Since(p, f.log[i]);
    }
    VisitIsTimed(g, q, metrics, now, p.id);
  }

  /** The latest scaling of a policy that has made one. */
  lemma {:induction false} LatestOf(log: seq<Scaling>, id: string, i: nat) returns (j: nat)
    requires i < |log| && log[i].policy.id == id
    ensures j < |log| && log[j].policy.id == id && log[j].at >= log[i].at && NotBefore(log, id, log[j].at)
  {
    var n := |log| - 1;
    j := n;
    if i < n {
      j := LatestOf(log[..n], id, i);
      if log[n].policy.id == id && log[n].at > log[j].at { j := n; }
    } else if exists k :: 0 <= k < n && log[k].policy.id == id {
      var k :| 0 <= k < n && log[k].policy.id == id;
      j := LatestOf(log[..n], id, k);
      if log[n].at > log[j].at { j := n; }
    }
    forall k | 0 <= k < |log| && log[k].policy.id == id ensures log[k].at <= log[j].at {
      assert k < n ==> log[..n][k] == log[k];
    }
  }

  /** A deployment above its policy's maximum is scaled down to it whenever the policy is not cooling. */
  lemma TrimmedNow(f: Fleet, q: Policy, metrics: map<string, seq<Sample>>, now: int)
    requires Normal(q) && Get(f.deployments, q.deploymentId).Some? && Samples(metrics, q.deploymentId) != []
    requires Get(f.deployments, q.deploymentId).value.spec.replicas == q.maxReplicas + 1
    requires !Cooling(q, q.downCooldownSec, now)
    ensures Decision(f, q, metrics, now).Some?
    ensures var s := Decision(f, q, metrics, now).value;
            s.policy == q && s.at == now && s.CooldownSec() == q.downCooldownSec && Visit(f, q, metrics, now).log == f.log + [s]
  {
    RecommendationIsSafe(q, q.maxReplicas + 1, Effective(q, Samples(metrics, q.deploymentId), now));
  }

  /** A policy that forgot a scaling can shrink its deployment just before that scaling's cooldown is over. */
  lemma ForgettingIsNotSpaced(f: Fleet, p: Policy, d: Deployment, i: nat)
    requires i < |f.log| && f.log[i].policy.id == p.id && !Since(p, f.log[i])
    ensures !SpacedNext(f, p)
  {
    var q := Normalize(p);
    NormalizeIsNormal(p);
    var j := LatestOf(f.log, p.id, i);
    var now := f.log[j].at + q.downCooldownSec * SECOND - 1;
    var ds := [Entry(p.deploymentId, d.(spec := d.spec.(replicas := q.maxReplicas + 1)))];
    var metrics := map[p.deploymentId := [Sample(now, 0.0, 0.0, map[])]];
    var g := After(After(f, Upsert(p)), Others(ds));
    TrimmedNow(g, q, metrics, now);
    var log := NextVisit(f, p, ds, metrics, now).log;
    assert !Apart(log[j], log[|f.log|]);
    assert Populated(ds) && NotBefore(f.log, p.id, now);
    assert !Spaced(NextVisit(f, p, ds, metrics, now).log, p.id);
  }

  /** Any deployment will do. */
  const BLANK := Revisions.NewDeployment(DeploymentSpec("", "", "", 1, 0, Resource(0, 0), None, None, "",
                                                        RolloutSpec("", 0, 0, false, 0, 0, false, 0, 0.0, 0)))

  /** After an API write, the next visit keeps a policy's scalings spaced exactly when the write brings a time no earlier than any of them. */
  lemma UpsertKeepsSpacingExactly(f: Fleet, p: Policy)
    requires Sound(f) && Spaced(f.log, p.id)
    ensures SpacedNext(f, p) <==> Remembers(p, f.log)
  {
    if Remembers(p, f.log) {
      forall ds, metrics, now | Populated(ds) && NotBefore(f.log, p.id, now) ensures Spaced(NextVisit(f, p, ds, metrics, now).log, p.id) {
        RememberingIsSpaced(f, p, ds, metrics, now);
      }
    } else {
      var i :| 0 <= i < |f.log| && f.log[i].policy.id == p.id && !Since(p, f.log[i]);
      ForgettingIsNotSpaced(f, p, BLANK, i);
    }
  }

  lemma GrowsNow(f: Fleet, p: Policy, metrics: map<string, seq<Sample>>, now: int)
    requires Normal(p) && p.lastScaleAt.None? && Get(f.deployments, p.deploymentId).Some?
    requires 1 <= Get(f.deployments, p.deploymentId).value.spec.replicas < p.maxReplicas
    requires Samples(metrics, p.deploymentId) != []
    requires var l := Effective(p, Samples(metrics, p.deploymentId), now);
             Above(l.cpu, p.targetCpu) && !Low(l.memory, p.targetMemory)
    ensures var current, l := Get(f.deployments, p.deploymentId).value.spec.replicas, Effective(p, Samples(metrics, p.deploymentId), now);
            && Recommended(p, current, l) > current
            && Decision(f, p, metrics, now) == Some(Scaling(p, current, Recommended(p, current, l), now, l))
  {
    GrowsExactly(p, Get(f.deployments, p.deploymentId).value.spec.replicas, Effective(p, Samples(metrics, p.deploymentId), now));
  }

  lemma OnePolicyPass(f: Fleet, p: Policy, metrics: map<string, seq<Sample>>, now: int)
    requires f.policies == [Entry(p.id, p)]
    ensures After(f, Reconcile(metrics, now)) == Visit(f, p, metrics, now)
  {
    assert f.policies[1..] == [] && Recs(f.policies) == [p] && [p][..0] == [];
    assert Pass(f, [p][..0], metrics, now) == f;
    assert Pass(f, [p], metrics, now) == Visit(Pass(f, [p][..0], metrics, now), p, metrics, now);
  }

  /** A busy deployment is scaled; its policy is written again without the time; and it is scaled again in the same instant. */
  lemma ForgetfulPolicyScalesTwice(f: Fleet, p: Policy, metrics: map<string, seq<Sample>>, now: int)
    requires f.policies == [Entry(p.id, p)] && f.log == [] && Normal(p) && Normalize(p) == p && p.lastScaleAt.None?
    requires Get(f.deployments, p.deploymentId).Some? && Samples(metrics, p.deploymentId) != []
    requires var l := Effective(p, Samples(metrics, p.deploymentId), now);
             var current := Get(f.deployments, p.deploymentId).value.spec.replicas;
             && Above(l.cpu, p.targetCpu) && !Low(l.memory, p.targetMemory)
             && current >= 1 && Recommended(p, current, l) < p.maxReplicas && current < p.maxReplicas
    ensures var g := After(After(After(f, Reconcile(metrics, now)), Upsert(p)), Reconcile(metrics, now));
            |g.log| == 2 && g.log[0].at == g.log[1].at == now && !Apart(g.log[0], g.log[1])
  {
    GrowsNow(f, p, metrics, now);
    OnePolicyPass(f, p, metrics, now);
    var s := Decision(f, p, metrics, now).value;
    var f1 := After(f, Reconcile(metrics, now));
    var f2 := After(f1, Upsert(p));
    GetPut(f.deployments, p.deploymentId, Revisions.Scaled(Get(f.deployments, p.deploymentId).value, s.to, now), p.deploymentId);
    assert f2.policies == [Entry(p.id, p)] by {
      Text.LessTotal(p.id, p.id);
    }
    GrowsNow(f2, p, metrics, now);
    OnePolicyPass(f2, p, metrics, now);
  }

  const BUSY := Policy("as", "dep", 1, 10, 50.0, 0.0, "", 0.0, false, 0, 0.0, 30, 20, 40, None)

  /** For instance one replica at twice its CPU target: two scalings, no time apart. */
  lemma BusyPolicyScalesTwice(d: Deployment)
    requires d.spec.replicas == 1
    ensures var metrics := map["dep" := [Sample(0, 100.0, 0.0, map[])]];
            var f := Fleet([Entry("as", BUSY)], [Entry("dep", d)], []);
            var g := After(After(After(f, Reconcile(metrics, 0)), Upsert(BUSY)), Reconcile(metrics, 0));
            |g.log| == 2 && g.log[0].at == g.log[1].at == 0 && !Apart(g.log[0], g.log[1])
  {
    var s := Sample(0, 100.0, 0.0, map[]);
    var metrics := map["dep" := [s]];
    var f := Fleet([Entry("as", BUSY)], [Entry("dep", d)], []);
    var start := 0 - 30 * SECOND;
    assert [s][..0] == [] && Within([s][..0], start) == [];
    assert Within([s], start) == [] + [s] && Window(BUSY, [s], 0) == [s];
    assert Total([s][..0], Cpu) == 0.0 && Total([s], Cpu) == 0.0 + Cpu(s);
    assert Total([s][..0], Memory) == 0.0 && Total([s], Memory) == 0.0 + Memory(s);
    var l := Effective(BUSY, [s], 0);
    assert l.cpu == 100.0 && l.memory == 0.0;
    CeilAbove(2.0, 1);
    CeilAbove(2.0, 2);
    assert Candidate(1, 100.0, 50.0) == 2;
    assert Text.IsBlank("");
    ForgetfulPolicyScalesTwice(f, BUSY, metrics, 0);
    GrowsNow(f, BUSY, metrics, 0);
  }

  // ----- the code -----

  class Autoscaler {
    var policies: seq<Entry<Policy>>
    var deployments: seq<Entry<Deployment>>
    ghost var trace: seq<Event>

    ghost predicate Valid()
      reads this
    {
      Admissible(trace) && Fleet(policies, deployments, Run(trace).log) == Run(trace)
    }

    constructor ()
      ensures Valid() && trace == []
    {
      policies, deployments, trace := [], [], [];
    }

    /** The body of the loop over policies. */
    method ScaleOne(p: Policy, metrics: map<string, seq<Sample>>, now: int, ghost log: seq<Scaling>) returns (ghost extended: seq<Scaling>)
      modifies this`policies, this`deployments
      ensures Fleet(policies, deployments, extended) == Visit(old(Fleet(policies, deployments, log)), p, metrics, now)
    {
      extended := log;
      var found := Get(deployments, p.deploymentId);
      if found.None? {
        return;
      }
      var dep := found.value;
      var samples := Samples(metrics, p.deploymentId);
      if |samples| == 0 {
        return;
      }
      var load := Measure(p, samples, now);
      var current := dep.spec.replicas;
      var recommended := Recommended(p, current, load);
      if recommended == current {
        return;
      }
      var cooldown := p.downCooldownSec;
      if recommended > current {
        cooldown := p.upCooldownSec;
      }
      if p.lastScaleAt.Some? && now - p.lastScaleAt.value < cooldown * SECOND {
        return;
      }
      deployments := Put(deployments, p.deploymentId, Revisions.Scaled(dep, recommended, now));
      policies := Put(policies, p.id, p.(lastScaleAt := Some(now)));
      extended := log + [Scaling(p, current, recommended, now, load)];
    }

    method ReconcileAutoscaling(metrics: map<string, seq<Sample>>, now: int)
      requires Valid()
      modifies this
      ensures Valid() && trace == old(trace) + [Reconcile(metrics, now)]
    {
      var listed := Recs(policies);
      ghost var start := Run(trace);
      ghost var log := start.log;
      RunExtends(trace, Reconcile(metrics, now));
      trace := trace + [Reconcile(metrics, now)];
      ghost var after := trace;
      for i := 0 to |listed|
        invariant trace == after
        invariant Fleet(policies, deployments, log) == Pass(start, listed[..i], metrics, now)
      {
        log := ScaleOne(listed[i], metrics, now, log);
        assert listed[..i + 1][..i] == listed[..i];
      }
      assert listed[..|listed|] == listed;
    }

    method UpsertPolicy(p: Policy)
      requires Valid()
      modifies this
      ensures Valid() && trace == old(trace) + [Upsert(p)]
    {
      RunExtends(trace, Upsert(p));
      trace := trace + [Upsert(p)];
      policies := Put(policies, p.id, Normalize(p));
    }
  }
}
