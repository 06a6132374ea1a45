/** internal/scheduler/scheduler.go: filtering, scoring and choosing a node. */
module Scheduler {
  import opened Tables
  import opened Types
  import Sorting
  import Text

  // ----- filters -----

  predicate Fits(n: Node, req: Resource) {
    && req.milliCPU <= n.allocatable.milliCPU - n.used.milliCPU
    && req.memoryMB <= n.allocatable.memoryMB - n.used.memoryMB
  }

  predicate Matches(tol: Toleration, taint: Taint) {
    && !Text.IsBlank(tol.key)
    && tol.key == taint.key
    && (Text.IsBlank(tol.effect) || tol.effect == taint.effect)
    && (|| Text.ToLower(Text.TrimSpace(tol.operator)) == "exists"
        || Text.IsBlank(tol.value)
        || tol.value == taint.value)
  }

  predicate Tolerates(n: Node, tols: seq<Toleration>) {
    forall taint | taint in n.taints :: exists tol :: tol in tols && Matches(tol, taint)
  }

  function Label(n: Node, k: string): string {
    if k in n.labels then n.labels[k] else ""
  }

  const AFFINITY := "affinity."
  const ANTI_AFFINITY := "anti-affinity."

  predicate Affine(n: Node, labels: map<string, string>) {
    && (forall k | k in labels :: Text.HasPrefix(k, AFFINITY) ==> Label(n, Text.TrimPrefix(k, AFFINITY)) == labels[k])
    && (forall k | k in labels :: Text.HasPrefix(k, ANTI_AFFINITY) ==> Label(n, Text.TrimPrefix(k, ANTI_AFFINITY)) != labels[k])
  }

  predicate Admits(n: Node, labels: map<string, string>, tols: seq<Toleration>) {
    Tolerates(n, tols) && Affine(n, labels)
  }

  predicate Eligible(n: Node, req: Resource, labels: map<string, string>, tols: seq<Toleration>) {
    n.status == Ready && Fits(n, req) && Admits(n, labels, tols)
  }

  /** A toleration matches a taint of its key unless it names another effect, or another value without the operator exists. */
  lemma MatchesExactly(tol: Toleration, taint: Taint)
    ensures Matches(tol, taint) <==>
              && tol.key == taint.key && Text.TrimSpace(tol.key) != ""
              && !(Text.TrimSpace(tol.effect) != "" && tol.effect != taint.effect)
              && !(&& Text.ToLower(Text.TrimSpace(tol.operator)) != "exists"
                   && Text.TrimSpace(tol.value) != "" && tol.value != taint.value)
  {
  }

  /** A label affinity.x asks for the value under x, and anti-affinity.x for any other value; a missing label counts as empty. */
  lemma AffineExactly(n: Node, labels: map<string, string>)
    ensures Affine(n, labels) <==>
              && (forall x | "affinity." + x in labels :: labels["affinity." + x] == if x in n.labels then n.labels[x] else "")
              && (forall x | "anti-affinity." + x in labels :: labels["anti-affinity." + x] != if x in n.labels then n.labels[x] else "")
  {
    if Affine(n, labels) {
      forall x | "affinity." + x in labels ensures labels["affinity." + x] == if x in n.labels then n.labels[x] else "" {
        assert ("affinity." + x)[|AFFINITY|..] == x && Text.HasPrefix("affinity." + x, AFFINITY);
      }
      forall x | "anti-affinity." + x in labels ensures labels["anti-affinity." + x] != if x in n.labels then n.labels[x] else "" {
        assert ("anti-affinity." + x)[|ANTI_AFFINITY|..] == x && Text.HasPrefix("anti-affinity." + x, ANTI_AFFINITY);
      }
    }
    forall k | k in labels && Text.HasPrefix(k, AFFINITY) ensures k == "affinity." + Text.TrimPrefix(k, AFFINITY) {
    }
    forall k | k in labels && Text.HasPrefix(k, ANTI_AFFINITY) ensures k == "anti-affinity." + Text.TrimPrefix(k, ANTI_AFFINITY) {
    }
  }

  /** The nested taint and toleration loops accept exactly the nodes whose every taint is matched. */
  method ToleratesNodeTaints(n: Node, tols: seq<Toleration>) returns (ok: bool)
    ensures ok <==> Tolerates(n, tols)
  {
    for i := 0 to |n.taints|
      invariant forall a | 0 <= a < i :: exists tol :: tol in tols && Matches(tol, n.taints[a])
    {
      var taint := n.taints[i];
      var matched := false;
      var j := 0;
      while j < |tols| && !matched
        invariant 0 <= j <= |tols|
        invariant matched ==> exists tol :: tol in tols && Matches(tol, taint)
        invariant !matched ==> forall b | 0 <= b < j :: !Matches(tols[b], taint)
      {
        var tol := tols[j];
        j := j + 1;
        if Text.IsBlank(tol.key) || tol.key != taint.key { continue; }
        if !Text.IsBlank(tol.effect) && tol.effect != taint.effect { continue; }
        if Text.ToLower(Text.TrimSpace(tol.operator)) == "exists" {
          assert Matches(tol, taint);
          matched := true;
        } else if Text.IsBlank(tol.value) || tol.value == taint.value {
          assert Matches(tol, taint);
          matched := true;
        }
      }
      if !matched {
        assert taint in n.taints;
        return false;
      }
    }
    return true;
  }

  /** The two label loops, in whatever order the map is walked, accept exactly the affine nodes. */
  method MatchesAffinity(n: Node, labels: map<string, string>) returns (ok: bool)
    ensures ok <==> Affine(n, labels)
  {
    var todo := labels.Keys;
    while todo != {}
      invariant todo <= labels.Keys
      invariant forall k | k in labels.Keys - todo ::
                  Text.HasPrefix(k, AFFINITY) ==> Label(n, Text.TrimPrefix(k, AFFINITY)) == labels[k]
      decreases todo
    {
      var k :| k in todo;
      todo := todo - {k};
      if Text.HasPrefix(k, AFFINITY) && Label(n, Text.TrimPrefix(k, AFFINITY)) != labels[k] {
        return false;
      }
    }
    todo := labels.Keys;
    while todo != {}
      invariant todo <= labels.Keys
      invariant forall k | k in labels.Keys - todo ::
                  Text.HasPrefix(k, ANTI_AFFINITY) ==> Label(n, Text.TrimPrefix(k, ANTI_AFFINITY)) != labels[k]
      decreases todo
    {
      var k :| k in todo;
      todo := todo - {k};
      if Text.HasPrefix(k, ANTI_AFFINITY) && Label(n, Text.TrimPrefix(k, ANTI_AFFINITY)) == labels[k] {
        return false;
      }
    }
    return true;
  }

  // ----- choice -----

  datatype Candidate = Candidate(node: Entry<Node>, score: real)

  predicate Cheaper(a: Candidate, b: Candidate) {
    a.score < b.score
  }

  type Score = (Node, Resource) -> real

  function Candidates(nodes: seq<Entry<Node>>, req: Resource, labels: map<string, string>,
                      tols: seq<Toleration>, score: Score): seq<Candidate>
  {
    if nodes == [] then []
    else
      var rest := Candidates(nodes[1..], req, labels, tols, score);
      if Eligible(nodes[0].rec, req, labels, tols)
      then [Candidate(nodes[0], score(nodes[0].rec, req))] + rest
      else rest
  }

  /** The node a listing yields: the leftmost of the cheapest eligible ones. */
  function Select(nodes: seq<Entry<Node>>, req: Resource, labels: map<string, string>,
                  tols: seq<Toleration>, score: Score): Option<Entry<Node>>
  {
    var cs := Candidates(nodes, req, labels, tols, score);
    if cs == [] then None else Some(Sorting.LeftmostMin(cs, Cheaper).node)
  }

  lemma {:induction false} CandidatesSnoc(nodes: seq<Entry<Node>>, e: Entry<Node>, req: Resource,
                                          labels: map<string, string>, tols: seq<Toleration>, score: Score)
    ensures Candidates(nodes + [e], req, labels, tols, score)
         == Candidates(nodes, req, labels, tols, score)
            + if Eligible(e.rec, req, labels, tols) then [Candidate(e, score(e.rec, req))] else []
  {
    if nodes == [] {
      assert nodes + [e] == [e];
      assert [e][1..] == [];
    } else {
      assert (nodes + [e])[1..] == nodes[1..] + [e];
      CandidatesSnoc(nodes[1..], e, req, labels, tols, score);
    }
  }

  /** SelectNode: collect the nodes that pass the four filters, sort them stably by score, take the first. */
  method SelectNode(nodes: seq<Entry<Node>>, req: Resource, labels: map<string, string>,
                    tols: seq<Toleration>, score: Score) returns (r: Option<Entry<Node>>)
    ensures r == Select(nodes, req, labels, tols, score)
  {
    var candidates: seq<Candidate> := [];
    for i := 0 to |nodes|
      invariant candidates == Candidates(nodes[..i], req, labels, tols, score)
    {
      var n := nodes[i].rec;
      assert nodes[..i + 1] == nodes[..i] + [nodes[i]];
      CandidatesSnoc(nodes[..i], nodes[i], req, labels, tols, score);
      if n.status != Ready { continue; }
      if !Fits(n, req) { continue; }
      var tolerated := ToleratesNodeTaints(n, tols);
      if !tolerated { continue; }
      var affine := MatchesAffinity(n, labels);
      if !affine { continue; }
      candidates := candidates + [Candidate(nodes[i], score(n, req))];
    }
    assert nodes[..|nodes|] == nodes;
    if |candidates| == 0 { return None; }
    Sorting.SortHead(candidates, Cheaper);
    candidates := Sorting.StableSort(candidates, Cheaper);
    return Some(candidates[0].node);
  }

  // ----- what the choice means -----

  lemma {:induction false} CandidateAt(nodes: seq<Entry<Node>>, req: Resource, labels: map<string, string>,
                                       tols: seq<Toleration>, score: Score, k: nat) returns (i: nat)
    requires k < |Candidates(nodes, req, labels, tols, score)|
    ensures i < |nodes| && Eligible(nodes[i].rec, req, labels, tols)
    ensures Candidates(nodes, req, labels, tols, score)[k] == Candidate(nodes[i], score(nodes[i].rec, req))
    ensures Candidates(nodes[..i], req, labels, tols, score) == Candidates(nodes, req, labels, tols, score)[..k]
  {
    var here := Eligible(nodes[0].rec, req, labels, tols);
    if here && k == 0 {
      i := 0;
    } else {
      var m := CandidateAt(nodes[1..], req, labels, tols, score, if here then k - 1 else k);
      i := m + 1;
      assert nodes[..i][1..] == nodes[1..][..m];
    }
  }

  lemma {:induction false} EligibleIsCandidate(nodes: seq<Entry<Node>>, req: Resource, labels: map<string, string>,
                                               tols: seq<Toleration>, score: Score, i: nat)
    requires i < |nodes| && Eligible(nodes[i].rec, req, labels, tols)
    ensures Candidate(nodes[i], score(nodes[i].rec, req)) in Candidates(nodes, req, labels, tols, score)
  {
    if i > 0 {
      EligibleIsCandidate(nodes[1..], req, labels, tols, score, i - 1);
    }
  }

  lemma CheaperIsOrder()
    ensures Sorting.StrictWeakOrder(Cheaper)
  {
  }

  /** SelectNode fails exactly when no node passes all four filters. */
  lemma SelectFails(nodes: seq<Entry<Node>>, req: Resource, labels: map<string, string>,
                    tols: seq<Toleration>, score: Score)
    ensures Select(nodes, req, labels, tols, score).None?
       <==> forall i :: 0 <= i < |nodes| ==> !Eligible(nodes[i].rec, req, labels, tols)
  {
    var cs := Candidates(nodes, req, labels, tols, score);
    if cs != [] {
      var i := CandidateAt(nodes, req, labels, tols, score, 0);
    }
    forall i | 0 <= i < |nodes| && Eligible(nodes[i].rec, req, labels, tols) ensures cs != [] {
      EligibleIsCandidate(nodes, req, labels, tols, score, i);
    }
  }

  /** A chosen node is eligible, no eligible node is cheaper, and every earlier eligible node is dearer. */
  lemma SelectIsLeftmostCheapest(nodes: seq<Entry<Node>>, req: Resource, labels: map<string, string>,
                                 tols: seq<Toleration>, score: Score) returns (i: nat)
    requires Select(nodes, req, labels, tols, score).Some?
    ensures i < |nodes| && Select(nodes, req, labels, tols, score) == Some(nodes[i])
    ensures Eligible(nodes[i].rec, req, labels, tols)
    ensures forall j | 0 <= j < |nodes| && Eligible(nodes[j].rec, req, labels, tols) ::
              score(nodes[i].rec, req) <= score(nodes[j].rec, req)
    ensures forall j | 0 <= j < i && Eligible(nodes[j].rec, req, labels, tols) ::
              score(nodes[i].rec, req) < score(nodes[j].rec, req)
  {
    var cs := Candidates(nodes, req, labels, tols, score);
    CheaperIsOrder();
    var k := Sorting.LeftmostMinIndex(cs, Cheaper);
    i := CandidateAt(nodes, req, labels, tols, score, k);
    forall j | 0 <= j < |nodes| && Eligible(nodes[j].rec, req, labels, tols)
      ensures score(nodes[i].rec, req) <= score(nodes[j].rec, req)
    {
      EligibleIsCandidate(nodes, req, labels, tols, score, j);
      var m :| 0 <= m < |cs| && cs[m] == Candidate(nodes[j], score(nodes[j].rec, req));
      assert !Cheaper(cs[m], cs[k]);
    }
    forall j | 0 <= j < i && Eligible(nodes[j].rec, req, labels, tols)
      ensures score(nodes[i].rec, req) < score(nodes[j].rec, req)
    {
      EligibleIsCandidate(nodes[..i], req, labels, tols, score, j);
      var m :| 0 <= m < k && cs[..k][m] == Candidate(nodes[j], score(nodes[j].rec, req));
      assert Cheaper(cs[k], cs[m]);
    }
  }

  // ----- scores, over the reals -----

  function Max(a: real, b: real): real {
    if a < b then b else a
  }

  function Abs(a: real): real {
    if a < 0.0 then -a else a
  }

  function CpuAfter(n: Node, req: Resource): real {
    (n.used.milliCPU + req.milliCPU) as real / Max(1.0, n.allocatable.milliCPU as real)
  }

  function MemAfter(n: Node, req: Resource): real {
    (n.used.memoryMB + req.memoryMB) as real / Max(1.0, n.allocatable.memoryMB as real)
  }

  function LeastLoadedScore(n: Node, req: Resource): real {
    var cpu, mem := CpuAfter(n, req), MemAfter(n, req);
    (cpu + mem) * 0.5 + Abs(cpu - mem) * 0.15
  }

  function CpuLeft(n: Node, req: Resource): real {
    Max(0.0, ((n.allocatable.milliCPU - n.used.milliCPU) - req.milliCPU) as real) / Max(1.0, n.allocatable.milliCPU as real)
  }

  function MemLeft(n: Node, req: Resource): real {
    Max(0.0, ((n.allocatable.memoryMB - n.used.memoryMB) - req.memoryMB) as real) / Max(1.0, n.allocatable.memoryMB as real)
  }

  function BestFitScore(n: Node, req: Resource): real {
    var cpu, mem := CpuLeft(n, req), MemLeft(n, req);
    (cpu + mem) * 0.5 + Abs(cpu - mem) * 0.1
  }

  lemma PenaltyBelowRise(gain: real, rise: real, penalty: real)
    requires 0.0 <= penalty < 0.5 && gain <= rise && 0.0 < rise
    ensures gain * penalty < rise * 0.5
  {
    assert rise * penalty - gain * penalty == (rise - gain) * penalty >= 0.0;
    assert rise * 0.5 - rise * penalty == rise * (0.5 - penalty) > 0.0;
  }

  /** Both penalties are too small to reverse the order of the components they are taken from. */
  lemma PenaltyKeepsOrder(cpu: real, mem: real, cpu': real, mem': real, penalty: real)
    requires 0.0 <= penalty < 0.5
    requires cpu <= cpu' && mem <= mem' && (cpu < cpu' || mem < mem')
    ensures (cpu + mem) * 0.5 + Abs(cpu - mem) * penalty < (cpu' + mem') * 0.5 + Abs(cpu' - mem') * penalty
  {
    var d, d', rise := Abs(cpu - mem), Abs(cpu' - mem'), (cpu' - cpu) + (mem' - mem);
    PenaltyBelowRise(d - d', rise, penalty);
    assert d * penalty - d' * penalty == (d - d') * penalty;
  }

  // ----- what the scores mean, on the figures of a node -----

  /** a out of b is at most c out of d. */
  predicate NoMore(a: int, b: int, c: int, d: int) {
    a * (if d > 1 then d else 1) <= c * (if b > 1 then b else 1)
  }

  /** Filling node m with the request leaves it no fuller than filling n, in CPU and in memory. */
  predicate NoFuller(m: Node, n: Node, req: Resource) {
    && NoMore(m.used.milliCPU + req.milliCPU, m.allocatable.milliCPU, n.used.milliCPU + req.milliCPU, n.allocatable.milliCPU)
    && NoMore(m.used.memoryMB + req.memoryMB, m.allocatable.memoryMB, n.used.memoryMB + req.memoryMB, n.allocatable.memoryMB)
  }

  /** Filling node m leaves no more of it free than filling n, in CPU and in memory. */
  predicate NoFreer(m: Node, n: Node, req: Resource) {
    && NoMore(m.allocatable.milliCPU - m.used.milliCPU - req.milliCPU, m.allocatable.milliCPU,
              n.allocatable.milliCPU - n.used.milliCPU - req.milliCPU, n.allocatable.milliCPU)
    && NoMore(m.allocatable.memoryMB - m.used.memoryMB - req.memoryMB, m.allocatable.memoryMB,
              n.allocatable.memoryMB - n.used.memoryMB - req.memoryMB, n.allocatable.memoryMB)
  }

  lemma CrossMultiply(a: real, b: real, c: real, d: real)
    requires b > 0.0 && d > 0.0
    ensures a / b <= c / d <==> a * d <= c * b
  {
    var x, y := a / b, c / d;
    assert x * b == a && y * d == c;
    assert a * d == x * (b * d) && c * b == y * (b * d);
    assert b * d > 0.0;
    if x <= y {
      assert (y - x) * (b * d) >= 0.0;
    } else {
      assert (x - y) * (b * d) > 0.0;
    }
  }

  lemma ProductAsReal(a: int, b: int)
    ensures (a * b) as real == a as real * b as real
  {
  }

  lemma AtLeastOne(b: int)
    ensures Max(1.0, b as real) == (if b > 1 then b else 1) as real
  {
  }

  lemma WholeProducts(a: int, q: int, c: int, p: int)
    ensures a as real * q as real <= c as real * p as real <==> a * q <= c * p
  {
    ProductAsReal(a, q);
    ProductAsReal(c, p);
    assert (a * q) as real <= (c * p) as real <==> a * q <= c * p;
  }

  lemma QuotientsCompare(a: int, b: int, c: int, d: int)
    ensures a as real / Max(1.0, b as real) <= c as real / Max(1.0, d as real) <==> NoMore(a, b, c, d)
  {
    var p, q := if b > 1 then b else 1, if d > 1 then d else 1;
    AtLeastOne(b);
    AtLeastOne(d);
    CrossMultiply(a as real, p as real, c as real, q as real);
    WholeProducts(a, q, c, p);
  }

  lemma FullerExactly(m: Node, n: Node, req: Resource)
    ensures NoFuller(m, n, req) <==> CpuAfter(m, req) <= CpuAfter(n, req) && MemAfter(m, req) <= MemAfter(n, req)
  {
    QuotientsCompare(m.used.milliCPU + req.milliCPU, m.allocatable.milliCPU, n.used.milliCPU + req.milliCPU, n.allocatable.milliCPU);
    QuotientsCompare(m.used.memoryMB + req.memoryMB, m.allocatable.memoryMB, n.used.memoryMB + req.memoryMB, n.allocatable.memoryMB);
  }

  /** On nodes the request fits, nothing left over is negative. */
  lemma FreerExactly(m: Node, n: Node, req: Resource)
    requires Fits(m, req) && Fits(n, req)
    ensures NoFreer(m, n, req) <==> CpuLeft(m, req) <= CpuLeft(n, req) && MemLeft(m, req) <= MemLeft(n, req)
  {
    QuotientsCompare(m.allocatable.milliCPU - m.used.milliCPU - req.milliCPU, m.allocatable.milliCPU,
                     n.allocatable.milliCPU - n.used.milliCPU - req.milliCPU, n.allocatable.milliCPU);
    QuotientsCompare(m.allocatable.memoryMB - m.used.memoryMB - req.memoryMB, m.allocatable.memoryMB,
                     n.allocatable.memoryMB - n.used.memoryMB - req.memoryMB, n.allocatable.memoryMB);
  }

  /** least-loaded never picks a node when an eligible one would be no fuller in both dimensions and emptier in one. */
  lemma LeastLoadedIsUndominated(nodes: seq<Entry<Node>>, req: Resource, labels: map<string, string>,
                                 tols: seq<Toleration>, other: Entry<Node>)
    requires Select(nodes, req, labels, tols, LeastLoadedScore).Some?
    requires other in nodes && Eligible(other.rec, req, labels, tols)
    ensures var n := Select(nodes, req, labels, tols, LeastLoadedScore).value.rec;
            NoFuller(other.rec, n, req) ==> NoFuller(n, other.rec, req)
  {
    var i := SelectIsLeftmostCheapest(nodes, req, labels, tols, LeastLoadedScore);
    var n, m := nodes[i].rec, other.rec;
    FullerExactly(m, n, req);
    FullerExactly(n, m, req);
    if NoFuller(m, n, req) && !NoFuller(n, m, req) {
      PenaltyKeepsOrder(CpuAfter(m, req), MemAfter(m, req), CpuAfter(n, req), MemAfter(n, req), 0.15);
    }
  }

  /** best-fit never picks a node when an eligible one would be left no emptier in both dimensions and fuller in one. */
  lemma BestFitIsUndominated(nodes: seq<Entry<Node>>, req: Resource, labels: map<string, string>,
                             tols: seq<Toleration>, other: Entry<Node>)
    requires Select(nodes, req, labels, tols, BestFitScore).Some?
    requires other in nodes && Eligible(other.rec, req, labels, tols)
    ensures var n := Select(nodes, req, labels, tols, BestFitScore).value.rec;
            NoFreer(other.rec, n, req) ==> NoFreer(n, other.rec, req)
  {
    var i := SelectIsLeftmostCheapest(nodes, req, labels, tols, BestFitScore);
    var n, m := nodes[i].rec, other.rec;
    FreerExactly(m, n, req);
    FreerExactly(n, m, req);
    if NoFreer(m, n, req) && !NoFreer(n, m, req) {
      PenaltyKeepsOrder(CpuLeft(m, req), MemLeft(m, req), CpuLeft(n, req), MemLeft(n, req), 0.1);
    }
  }

  /** a out of b, as the larger or the smaller of two such shares. */
  function Share(a: int, b: int): real {
    a as real / (if b > 1 then b else 1) as real
  }

  /** The least-loaded score weighs the fuller dimension 65 to 35. */
  lemma LeastLoadedWeighs(n: Node, req: Resource)
    ensures var cpu := Share(n.used.milliCPU + req.milliCPU, n.allocatable.milliCPU);
            var mem := Share(n.used.memoryMB + req.memoryMB, n.allocatable.memoryMB);
            100.0 * LeastLoadedScore(n, req) == if cpu >= mem then 65.0 * cpu + 35.0 * mem else 35.0 * cpu + 65.0 * mem
  {
  }

  /** The best-fit score of a node that fits weighs the emptier dimension 60 to 40. */
  lemma BestFitWeighs(n: Node, req: Resource)
    requires Fits(n, req)
    ensures var cpu := Share(n.allocatable.milliCPU - n.used.milliCPU - req.milliCPU, n.allocatable.milliCPU);
            var mem := Share(n.allocatable.memoryMB - n.used.memoryMB - req.memoryMB, n.allocatable.memoryMB);
            100.0 * BestFitScore(n, req) == if cpu >= mem then 60.0 * cpu + 40.0 * mem else 40.0 * cpu + 60.0 * mem
  {
  }
}
