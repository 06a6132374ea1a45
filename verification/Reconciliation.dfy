/** What a reconcile pass reads and writes, on workload records (internal/service/orchestrator.go). */
module Reconciliation {
  import opened Tables
  import opened Types
  import Rollout
  import Sorting
  import Text

  // ----- listings -----

  predicate IsActive(w: Workload) {
    w.status == Running || w.status == Pending
  }

  predicate IsRunning(w: Workload) {
    w.status == Running
  }

  function OfDeployment(dep: string): Workload -> bool {
    (w: Workload) => w.deploymentId == dep
  }

  function OfRevision(rev: int): Workload -> bool {
    (w: Workload) => w.version == rev
  }

  function NotOfRevision(rev: int): Workload -> bool {
    (w: Workload) => w.version != rev
  }

  function ActiveOf(dep: string): Workload -> bool {
    (w: Workload) => w.deploymentId == dep && IsActive(w)
  }

  function PriorOf(dep: string, rev: int): Workload -> bool {
    (w: Workload) => w.deploymentId == dep && IsActive(w) && w.version != rev
  }

  function LatestOf(dep: string, rev: int): Workload -> bool {
    (w: Workload) => w.deploymentId == dep && IsActive(w) && w.version == rev
  }

  function LatestRunningOf(dep: string, rev: int): Workload -> bool {
    (w: Workload) => w.deploymentId == dep && w.version == rev && IsRunning(w)
  }

  function CountsOf(ws: seq<Entry<Workload>>, dep: string, rev: int): Rollout.Counts {
    Rollout.Counts(|Filter(ws, PriorOf(dep, rev))|, |Filter(ws, LatestOf(dep, rev))|)
  }

  /** The filter loops: activeWorkloads, activeForRevision, oldRevisionWorkloads, ListWorkloadsByDeployment. */
  method Keep<V>(t: seq<Entry<V>>, p: V -> bool) returns (out: seq<Entry<V>>)
    ensures out == Filter(t, p)
  {
    out := [];
    for i := 0 to |t|
      invariant out + Filter(t[i..], p) == Filter(t, p)
    {
      assert t[i..] == [t[i]] + t[i + 1..];
      if p(t[i].rec) {
        out := out + [t[i]];
      }
    }
  }

  /** The counting loops: runningCount, runningOrPendingCount. */
  method CountWhere<V>(t: seq<Entry<V>>, p: V -> bool) returns (n: nat)
    ensures n == |Filter(t, p)|
  {
    n := 0;
    for i := 0 to |t|
      invariant n + |Filter(t[i..], p)| == |Filter(t, p)|
    {
      assert t[i..] == [t[i]] + t[i + 1..];
      if p(t[i].rec) {
        n := n + 1;
      }
    }
  }

  /** The same split, on the three listings. */
  lemma ListingsSplit(active: seq<Entry<Workload>>, prior: seq<Entry<Workload>>, latest: seq<Entry<Workload>>,
                      ws: seq<Entry<Workload>>, dep: string, rev: int)
    requires active == Filter(ws, ActiveOf(dep))
    requires prior == Filter(ws, PriorOf(dep, rev)) && latest == Filter(ws, LatestOf(dep, rev))
    ensures |active| == |prior| + |latest| && CountsOf(ws, dep, rev) == Rollout.Counts(|prior|, |latest|)
  {
    ActiveSplits(ws, dep, rev);
  }

  /** The active workloads of a deployment are those of older revisions and those of the current one. */
  lemma {:induction false} ActiveSplits(ws: seq<Entry<Workload>>, dep: string, rev: int)
    ensures |Filter(ws, ActiveOf(dep))| == CountsOf(ws, dep, rev).Total()
  {
    if ws != [] {
      ActiveSplits(ws[1..], dep, rev);
    }
  }

  // ----- one record at a time -----

  /** How writing one record changes a count. */
  lemma PutCount(ws: seq<Entry<Workload>>, id: string, w: Workload, p: Workload -> bool)
    requires Ordered(ws)
    ensures |Filter(Put(ws, id, w), p)| == |Filter(ws, p)|
              - (if Has(ws, id) && p(Get(ws, id).value) then 1 else 0) + (if p(w) then 1 else 0)
  {
    FilterCount(ws, p);
    FilterCount(Put(ws, id, w), p);
    SumPut(ws, id, w, Indicator(p));
  }

  lemma RemoveCount(ws: seq<Entry<Workload>>, id: string, p: Workload -> bool)
    requires Ordered(ws)
    ensures |Filter(Remove(ws, id), p)| == |Filter(ws, p)| - (if Has(ws, id) && p(Get(ws, id).value) then 1 else 0)
  {
    FilterCount(ws, p);
    FilterCount(Remove(ws, id), p);
    SumRemove(ws, id, Indicator(p));
  }

  /** A workload of the current revision that becomes active adds one to the second count. */
  lemma PlaceCounts(ws: seq<Entry<Workload>>, id: string, w: Workload, dep: string, rev: int)
    requires Ordered(ws) && !Has(ws, id) && w.deploymentId == dep && w.status == Pending && w.version == rev
    ensures var c := CountsOf(ws, dep, rev);
            CountsOf(Put(ws, id, w), dep, rev) == Rollout.Counts(c.prior, c.latest + 1)
  {
    PutCount(ws, id, w, PriorOf(dep, rev));
    PutCount(ws, id, w, LatestOf(dep, rev));
  }

  /** Another deployment's workload going away leaves both counts alone. */
  lemma EvictCounts(ws: seq<Entry<Workload>>, id: string, dep: string, rev: int)
    requires Ordered(ws) && (Has(ws, id) ==> Get(ws, id).value.deploymentId != dep)
    ensures CountsOf(Remove(ws, id), dep, rev) == CountsOf(ws, dep, rev)
  {
    RemoveCount(ws, id, PriorOf(dep, rev));
    RemoveCount(ws, id, LatestOf(dep, rev));
  }

  // ----- victims -----

  /** Pending before Running, then the newer one; the candidates are only ever Pending or Running. */
  predicate GoesFirst(a: Entry<Workload>, b: Entry<Workload>) {
    if (a.rec.status == Pending) != (b.rec.status == Pending) then a.rec.status == Pending
    else a.rec.createdAt > b.rec.createdAt
  }

  lemma GoesFirstIsOrder()
    ensures Sorting.StrictWeakOrder(GoesFirst)
  {
  }

  function Victims(ws: seq<Entry<Workload>>, count: int): seq<Entry<Workload>> {
    Take(Sorting.StableSort(Filter(ws, IsActive), GoesFirst), count)
  }

  method PickScaleDownVictims(ws: seq<Entry<Workload>>, count: int) returns (victims: seq<Entry<Workload>>)
    ensures victims == Victims(ws, count)
  {
    if count <= 0 { return []; }
    var candidates := Keep(ws, IsActive);
    candidates := Sorting.StableSort(candidates, GoesFirst);
    if |candidates| > count { return candidates[..count]; }
    return candidates;
  }

  ghost predicate DistinctIds<V>(s: seq<Entry<V>>) {
    forall i, j :: 0 <= i < j < |s| ==> s[i].id != s[j].id
  }

  lemma OrderedIsDistinct<V>(t: seq<Entry<V>>)
    requires Ordered(t)
    ensures DistinctIds(t)
  {
    forall i, j | 0 <= i < j < |t| ensures t[i].id != t[j].id {
      Text.LessTotal(t[i].id, t[j].id);
    }
  }

  lemma {:induction false} InsertDistinct(x: Entry<Workload>, s: seq<Entry<Workload>>)
    requires DistinctIds(s) && forall e | e in s :: e.id != x.id
    ensures DistinctIds(Sorting.Insert(x, s, GoesFirst))
    ensures forall e | e in Sorting.Insert(x, s, GoesFirst) :: e == x || e in s
  {
    if s != [] {
      if GoesFirst(s[0], x) {
        assert forall e | e in s[1..] :: e in s;
        InsertDistinct(x, s[1..]);
        var r := Sorting.Insert(x, s[1..], GoesFirst);
        forall e | e in r ensures e.id != s[0].id {
          if e in s[1..] { var k :| 0 <= k < |s| - 1 && s[1..][k] == e; assert e == s[k + 1]; }
          else { assert s[0] in s; }
        }
      } else {
        forall k | 0 <= k < |s| ensures s[k].id != x.id { assert s[k] in s; }
      }
    }
  }

  lemma {:induction false} SortDistinct(s: seq<Entry<Workload>>)
    requires DistinctIds(s)
    ensures DistinctIds(Sorting.StableSort(s, GoesFirst))
  {
    if s != [] {
      SortDistinct(s[1..]);
      Sorting.SortElements(s[1..], GoesFirst);
      forall e | e in s[1..] ensures e.id != s[0].id {
        var k :| 0 <= k < |s| - 1 && s[1..][k] == e;
        assert e == s[k + 1];
      }
      InsertDistinct(s[0], Sorting.StableSort(s[1..], GoesFirst));
    }
  }

  lemma VictimsDistinct(ws: seq<Entry<Workload>>, count: int)
    requires Ordered(ws)
    ensures DistinctIds(Victims(ws, count))
  {
    var cs := Filter(ws, IsActive);
    FilterOrdered(ws, IsActive);
    OrderedIsDistinct(cs);
    SortDistinct(cs);
  }

  lemma TakeMembers<T>(s: seq<T>, n: int)
    ensures forall x | x in Take(s, n) :: x in s
  {
  }

  lemma VictimIsActive(ws: seq<Entry<Workload>>, count: int, v: Entry<Workload>)
    requires v in Victims(ws, count)
    ensures v in ws && IsActive(v.rec)
  {
    var cs := Filter(ws, IsActive);
    TakeMembers(Sorting.StableSort(cs, GoesFirst), count);
    Sorting.SortElements(cs, GoesFirst);
    FilterMembers(ws, IsActive);
  }

  lemma SortLength(s: seq<Entry<Workload>>)
    ensures |Sorting.StableSort(s, GoesFirst)| == |s|
  {
    Sorting.SortPermutes(s, GoesFirst);
  }

  /** Victims are active entries of the list, as many as asked for or all there are. */
  lemma VictimsAreActive(ws: seq<Entry<Workload>>, count: int)
    ensures |Victims(ws, count)| == Rollout.MinInt(if count < 0 then 0 else count, |Filter(ws, IsActive)|)
    ensures forall v | v in Victims(ws, count) :: v in ws && IsActive(v.rec)
  {
    SortLength(Filter(ws, IsActive));
    forall v | v in Victims(ws, count) ensures v in ws && IsActive(v.rec) {
      VictimIsActive(ws, count, v);
    }
  }

  /** A workload is spared only behind the victims: if it is Pending they all are, and those like it are no older. */
  lemma VictimsGoFirst(ws: seq<Entry<Workload>>, count: int, v: Entry<Workload>, spared: Entry<Workload>)
    requires v in Victims(ws, count) && spared in ws && IsActive(spared.rec) && spared !in Victims(ws, count)
    ensures spared.rec.status == Pending ==> v.rec.status == Pending
    ensures spared.rec.status == v.rec.status ==> v.rec.createdAt >= spared.rec.createdAt
  {
    var cs := Filter(ws, IsActive);
    var vs := Sorting.StableSort(cs, GoesFirst);
    FilterMembers(ws, IsActive);
    Sorting.SortElements(cs, GoesFirst);
    GoesFirstIsOrder();
    Sorting.SortOrders(cs, GoesFirst);
    assert spared in cs && spared in vs;
    var i :| 0 <= i < |Victims(ws, count)| && Victims(ws, count)[i] == v;
    var j :| 0 <= j < |vs| && vs[j] == spared;
    assert vs[i] == v;
    assert forall k :: 0 <= k < |Victims(ws, count)| ==> Victims(ws, count)[k] == vs[k];
    assert j >= |Victims(ws, count)|;
    assert !GoesFirst(spared, v);
    VictimIsActive(ws, count, v);
  }

  // ----- marking a list of workloads Terminating -----

  function AsTerminating(w: Workload): Workload {
    w.(status := Terminating)
  }

  function MarkedTable(ws: seq<Entry<Workload>>, vs: seq<Entry<Workload>>): seq<Entry<Workload>> {
    if vs == [] then ws
    else
      var v := vs[|vs| - 1];
      Put(MarkedTable(ws, vs[..|vs| - 1]), v.id, AsTerminating(v.rec))
  }

  lemma {:induction false} MarkedOrdered(ws: seq<Entry<Workload>>, vs: seq<Entry<Workload>>)
    requires Ordered(ws)
    ensures Ordered(MarkedTable(ws, vs))
  {
    if vs != [] {
      MarkedOrdered(ws, vs[..|vs| - 1]);
      PutOrdered(MarkedTable(ws, vs[..|vs| - 1]), vs[|vs| - 1].id, AsTerminating(vs[|vs| - 1].rec));
    }
  }

  /** Marking touches the listed workloads and nothing else. */
  lemma {:induction false} MarkedGet(ws: seq<Entry<Workload>>, vs: seq<Entry<Workload>>, k: string)
    requires DistinctIds(vs)
    ensures (forall v | v in vs :: v.id != k) ==> Get(MarkedTable(ws, vs), k) == Get(ws, k)
    ensures forall v | v in vs && v.id == k :: Get(MarkedTable(ws, vs), k) == Some(AsTerminating(v.rec))
  {
    if vs != [] {
      var v, rest := vs[|vs| - 1], vs[..|vs| - 1];
      MarkedGet(ws, rest, k);
      GetPut(MarkedTable(ws, rest), v.id, AsTerminating(v.rec), k);
      assert vs == rest + [v];
    }
  }

  /** In the middle of a marking loop the next victim is still as it was listed. */
  lemma MarkedStep(ws: seq<Entry<Workload>>, vs: seq<Entry<Workload>>, i: nat)
    requires DistinctIds(vs) && i < |vs| && Get(ws, vs[i].id) == Some(vs[i].rec)
    ensures Get(MarkedTable(ws, vs[..i]), vs[i].id) == Some(vs[i].rec)
    ensures MarkedTable(ws, vs[..i + 1]) == Put(MarkedTable(ws, vs[..i]), vs[i].id, AsTerminating(vs[i].rec))
  {
    MarkedGet(ws, vs[..i], vs[i].id);
    assert vs[..i + 1][..i] == vs[..i];
  }

  /** Marking takes exactly the marked workloads out of a count of active ones. */
  lemma {:induction false} MarkedCount(ws: seq<Entry<Workload>>, vs: seq<Entry<Workload>>, p: Workload -> bool)
    requires Ordered(ws) && DistinctIds(vs)
    requires forall v | v in vs :: Get(ws, v.id) == Some(v.rec) && p(v.rec)
    requires forall v | v in vs :: !p(AsTerminating(v.rec))
    ensures |Filter(MarkedTable(ws, vs), p)| == |Filter(ws, p)| - |vs|
  {
    if vs != [] {
      var v, rest := vs[|vs| - 1], vs[..|vs| - 1];
      assert v in vs && forall r | r in rest :: r in vs;
      assert forall r | r in rest :: r.id != v.id;
      MarkedCount(ws, rest, p);
      MarkedGet(ws, rest, v.id);
      MarkedOrdered(ws, rest);
      PutCount(MarkedTable(ws, rest), v.id, AsTerminating(v.rec), p);
    }
  }

  lemma {:induction false} MarkedCountOther(ws: seq<Entry<Workload>>, vs: seq<Entry<Workload>>, p: Workload -> bool)
    requires Ordered(ws) && DistinctIds(vs)
    requires forall v | v in vs :: Get(ws, v.id) == Some(v.rec) && !p(v.rec) && !p(AsTerminating(v.rec))
    ensures |Filter(MarkedTable(ws, vs), p)| == |Filter(ws, p)|
  {
    if vs != [] {
      var v, rest := vs[|vs| - 1], vs[..|vs| - 1];
      assert v in vs && forall r | r in rest :: r in vs;
      assert forall r | r in rest :: r.id != v.id;
      MarkedCountOther(ws, rest, p);
      MarkedGet(ws, rest, v.id);
      MarkedOrdered(ws, rest);
      PutCount(MarkedTable(ws, rest), v.id, AsTerminating(v.rec), p);
    }
  }

  // ----- the two scale-down steps -----

  /** Marking `n` victims among the old-revision workloads lowers the first count by that many. */
  lemma OldDeletes(ws: seq<Entry<Workload>>, dep: string, rev: int, n: nat)
    requires Ordered(ws) && n <= CountsOf(ws, dep, rev).prior
    ensures var vs := Victims(Filter(ws, PriorOf(dep, rev)), n);
            var c := CountsOf(ws, dep, rev);
            CountsOf(MarkedTable(ws, vs), dep, rev) == Rollout.Counts(c.prior - n, c.latest)
  {
    var old0 := Filter(ws, PriorOf(dep, rev));
    var vs := Victims(old0, n);
    FilterOrdered(ws, PriorOf(dep, rev));
    FilterMembers(ws, PriorOf(dep, rev));
    FilterFilter(ws, PriorOf(dep, rev), IsActive, PriorOf(dep, rev));
    VictimsAreActive(old0, n);
    VictimsDistinct(old0, n);
    forall v | v in vs ensures Get(ws, v.id) == Some(v.rec) { GetEntry(ws, v); }
    MarkedCount(ws, vs, PriorOf(dep, rev));
    MarkedCountOther(ws, vs, LatestOf(dep, rev));
  }

  /** With no old-revision workload active, marking `n` victims lowers the second count by that many. */
  lemma ExcessDeletes(ws: seq<Entry<Workload>>, dep: string, rev: int, n: nat)
    requires Ordered(ws) && CountsOf(ws, dep, rev).prior == 0 && n <= CountsOf(ws, dep, rev).latest
    ensures var vs := Victims(Filter(ws, ActiveOf(dep)), n);
            && CountsOf(MarkedTable(ws, vs), dep, rev) == Rollout.Counts(0, CountsOf(ws, dep, rev).latest - n)
            && forall v | v in vs :: v.rec.version == rev
  {
    var active := Filter(ws, ActiveOf(dep));
    var vs := Victims(active, n);
    NoneLeft(ws, PriorOf(dep, rev));
    FilterOrdered(ws, ActiveOf(dep));
    FilterMembers(ws, ActiveOf(dep));
    FilterFilter(ws, ActiveOf(dep), IsActive, ActiveOf(dep));
    VictimsAreActive(active, n);
    VictimsDistinct(active, n);
    ActiveSplits(ws, dep, rev);
    forall v | v in vs ensures Get(ws, v.id) == Some(v.rec) { GetEntry(ws, v); }
    MarkedCount(ws, vs, LatestOf(dep, rev));
    MarkedCountOther(ws, vs, PriorOf(dep, rev));
  }

  lemma {:induction false} NoneLeft<V>(t: seq<Entry<V>>, p: V -> bool)
    requires |Filter(t, p)| == 0
    ensures forall e | e in t :: !p(e.rec)
  {
    if t != [] {
      NoneLeft(t[1..], p);
      assert t == [t[0]] + t[1..];
    }
  }

  function FirstVictims(ws: seq<Entry<Workload>>, dep: string, rev: int, b: Rollout.Budget): seq<Entry<Workload>> {
    Victims(Filter(ws, PriorOf(dep, rev)), Rollout.OldToDelete(CountsOf(ws, dep, rev), b))
  }

  function ExcessVictims(ws: seq<Entry<Workload>>, dep: string, rev: int, b: Rollout.Budget): seq<Entry<Workload>> {
    Victims(Filter(ws, ActiveOf(dep)), Rollout.Excess(CountsOf(ws, dep, rev), b))
  }

  /** The table after both scale-down steps of a pass. */
  function ScaledDown(ws: seq<Entry<Workload>>, dep: string, rev: int, b: Rollout.Budget): seq<Entry<Workload>> {
    var once := MarkedTable(ws, FirstVictims(ws, dep, rev, b));
    MarkedTable(once, ExcessVictims(once, dep, rev, b))
  }

  /** Victims of a filtered listing are stored as they were listed. */
  lemma VictimsStored(ws: seq<Entry<Workload>>, p: Workload -> bool, n: int)
    requires Ordered(ws)
    ensures var vs := Victims(Filter(ws, p), n);
            DistinctIds(vs) && forall i | 0 <= i < |vs| :: Get(ws, vs[i].id) == Some(vs[i].rec) && IsActive(vs[i].rec)
  {
    var vs := Victims(Filter(ws, p), n);
    FilterOrdered(ws, p);
    VictimsDistinct(Filter(ws, p), n);
    forall i | 0 <= i < |vs| ensures Get(ws, vs[i].id) == Some(vs[i].rec) && IsActive(vs[i].rec) {
      VictimIsActive(Filter(ws, p), n, vs[i]);
      FilterMembers(ws, p);
      GetEntry(ws, vs[i]);
    }
  }

  /** The two scale-down steps change the counts as planned. */
  lemma ScaledDownCounts(ws: seq<Entry<Workload>>, dep: string, rev: int, b: Rollout.Budget)
    requires Ordered(ws) && b.Valid()
    requires var d := Rollout.AfterOldDeletes(CountsOf(ws, dep, rev), b); d.Total() > b.replicas ==> d.prior == 0
    ensures CountsOf(MarkedTable(ws, FirstVictims(ws, dep, rev, b)), dep, rev) == Rollout.AfterOldDeletes(CountsOf(ws, dep, rev), b)
    ensures CountsOf(ScaledDown(ws, dep, rev, b), dep, rev)
         == Rollout.AfterExcess(Rollout.AfterOldDeletes(CountsOf(ws, dep, rev), b), b)
  {
    var c := CountsOf(ws, dep, rev);
    OldDeletes(ws, dep, rev, Rollout.OldToDelete(c, b));
    var once := MarkedTable(ws, FirstVictims(ws, dep, rev, b));
    MarkedOrdered(ws, FirstVictims(ws, dep, rev, b));
    var excess := Rollout.Excess(CountsOf(once, dep, rev), b);
    if excess > 0 {
      ExcessDeletes(once, dep, rev, excess);
    }
  }

  // ----- stability -----

  /** Exactly `replicas` active workloads, all Running, all of the current revision. */
  ghost predicate ExactlyStable(ws: seq<Entry<Workload>>, dep: string, rev: int, replicas: int) {
    && |Filter(ws, ActiveOf(dep))| == replicas
    && forall e | e in ws && e.rec.deploymentId == dep && IsActive(e.rec) :: e.rec.status == Running && e.rec.version == rev
  }

  /** The code's test at the end of a pass. */
  predicate StableTest(remainingOld: nat, updated: nat, ready: nat, replicas: int) {
    && remainingOld == 0 && updated >= replicas
    && (if replicas - ready < 0 then 0 else replicas - ready) == 0
  }

  function RunningActiveOf(dep: string): Workload -> bool {
    (w: Workload) => w.deploymentId == dep && IsRunning(w)
  }

  lemma {:induction false} AllSatisfy<V>(t: seq<Entry<V>>, p: V -> bool, q: V -> bool)
    requires forall e | e in t :: q(e.rec) ==> p(e.rec)
    ensures |Filter(t, q)| <= |Filter(t, p)|
    ensures |Filter(t, q)| == |Filter(t, p)| <==> forall e | e in t :: p(e.rec) ==> q(e.rec)
  {
    if t != [] {
      assert t[0] in t;
      AllSatisfy(t[1..], p, q);
      assert t == [t[0]] + t[1..];
    }
  }

  /** With at most `replicas` active workloads, the code's test is exactly stability, and its second test never differs. */
  lemma StabilityIsExact(ws: seq<Entry<Workload>>, dep: string, rev: int, replicas: int)
    requires CountsOf(ws, dep, rev).Total() <= replicas || CountsOf(ws, dep, rev).prior > 0
    ensures var c := CountsOf(ws, dep, rev);
            var ready := |Filter(ws, RunningActiveOf(dep))|;
            && (StableTest(c.prior, c.latest, ready, replicas) <==> ExactlyStable(ws, dep, rev, replicas))
            && (ready >= replicas && c.prior == 0 ==> StableTest(c.prior, c.latest, ready, replicas))
  {
    var c := CountsOf(ws, dep, rev);
    ActiveSplits(ws, dep, rev);
    AllSatisfy(ws, ActiveOf(dep), RunningActiveOf(dep));
    if c.prior == 0 {
      NoneLeft(ws, PriorOf(dep, rev));
    } else {
      FilterMembers(ws, PriorOf(dep, rev));
      var e := Filter(ws, PriorOf(dep, rev))[0];
      assert e in Filter(ws, PriorOf(dep, rev));
    }
  }

  // ----- the reads of a pass -----

  /** activeWorkloads of ListWorkloadsByDeployment. */
  method ListActive(ws: seq<Entry<Workload>>, dep: string) returns (active: seq<Entry<Workload>>)
    ensures active == Filter(ws, ActiveOf(dep))
  {
    var own := Keep(ws, OfDeployment(dep));
    active := Keep(own, IsActive);
    FilterFilter(ws, OfDeployment(dep), IsActive, ActiveOf(dep));
  }

  /** oldRevisionWorkloads of the active ones. */
  method ListPrior(ws: seq<Entry<Workload>>, dep: string, rev: int) returns (prior: seq<Entry<Workload>>)
    ensures prior == Filter(ws, PriorOf(dep, rev))
  {
    var active := ListActive(ws, dep);
    prior := Keep(active, NotOfRevision(rev));
    FilterFilter(ws, ActiveOf(dep), NotOfRevision(rev), PriorOf(dep, rev));
  }

  /** activeForRevision of the active ones. */
  method ListLatest(ws: seq<Entry<Workload>>, dep: string, rev: int) returns (latest: seq<Entry<Workload>>)
    ensures latest == Filter(ws, LatestOf(dep, rev))
  {
    var active := ListActive(ws, dep);
    latest := Keep(active, OfRevision(rev));
    FilterFilter(ws, ActiveOf(dep), OfRevision(rev), LatestOf(dep, rev));
  }

  /** runningCount of the workloads of a revision. */
  method CountLatestRunning(ws: seq<Entry<Workload>>, dep: string, rev: int) returns (running: nat)
    ensures running == |Filter(ws, LatestRunningOf(dep, rev))|
  {
    var own := Keep(ws, OfDeployment(dep));
    var ofRevision := Keep(own, OfRevision(rev));
    running := CountWhere(ofRevision, IsRunning);
    FilterMembers(ws, OfDeployment(dep));
    FilterFilter(own, OfRevision(rev), IsRunning, LatestRunningOf(dep, rev));
    FilterFilter(ws, OfDeployment(dep), LatestRunningOf(dep, rev), LatestRunningOf(dep, rev));
  }

  /** Whom the first scale-down step deletes: old-revision workloads, within the availability budget. */
  method PickFirstVictims(ws: seq<Entry<Workload>>, dep: string, rev: int, b: Rollout.Budget) returns (victims: seq<Entry<Workload>>)
    requires Ordered(ws)
    ensures victims == FirstVictims(ws, dep, rev, b)
    ensures DistinctIds(victims)
    ensures forall i | 0 <= i < |victims| :: Get(ws, victims[i].id) == Some(victims[i].rec) && IsActive(victims[i].rec)
  {
    var active := ListActive(ws, dep);
    var candidates := ListPrior(ws, dep, rev);
    ListingsSplit(active, candidates, Filter(ws, LatestOf(dep, rev)), ws, dep, rev);
    var budget := |active| - b.MinAvailable();
    var toDelete := 0;
    if budget > 0 {
      toDelete := Rollout.MinInt(|candidates|, budget);
    }
    victims := PickScaleDownVictims(candidates, toDelete);
    VictimsStored(ws, PriorOf(dep, rev), toDelete);
  }

  /** Whom the second step deletes: whatever is active beyond the replica count. */
  method PickExcessVictims(ws: seq<Entry<Workload>>, dep: string, rev: int, b: Rollout.Budget) returns (victims: seq<Entry<Workload>>)
    requires Ordered(ws)
    ensures victims == ExcessVictims(ws, dep, rev, b)
    ensures DistinctIds(victims)
    ensures forall i | 0 <= i < |victims| :: Get(ws, victims[i].id) == Some(victims[i].rec) && IsActive(victims[i].rec)
  {
    var active := ListActive(ws, dep);
    ListingsSplit(active, Filter(ws, PriorOf(dep, rev)), Filter(ws, LatestOf(dep, rev)), ws, dep, rev);
    var excess := |active| - b.replicas;
    if excess < 0 {
      excess := 0;
    }
    victims := PickScaleDownVictims(active, excess);
    VictimsStored(ws, ActiveOf(dep), excess);
  }

  /** The counts a pass starts from. */
  method CountActive(ws: seq<Entry<Workload>>, dep: string, rev: int) returns (c: Rollout.Counts, running: nat)
    ensures c == CountsOf(ws, dep, rev) && running == |Filter(ws, LatestRunningOf(dep, rev))|
  {
    var active := ListActive(ws, dep);
    var latest := ListLatest(ws, dep, rev);
    ListingsSplit(active, Filter(ws, PriorOf(dep, rev)), latest, ws, dep, rev);
    c := Rollout.Counts(|active| - |latest|, |latest|);
    running := CountLatestRunning(ws, dep, rev);
  }

  /** The counts and the two tests a pass ends with: the code's availableNow never holds when `stable` does not. */
  method Assess(ws: seq<Entry<Workload>>, dep: string, rev: int, replicas: int) returns (stable: bool, updated: nat, ready: nat)
    requires CountsOf(ws, dep, rev).Total() <= replicas || CountsOf(ws, dep, rev).prior > 0
    ensures stable <==> ExactlyStable(ws, dep, rev, replicas)
    ensures updated == CountsOf(ws, dep, rev).latest && ready == |Filter(ws, RunningActiveOf(dep))|
    ensures !stable ==> !(ready >= replicas && CountsOf(ws, dep, rev).prior == 0)
  {
    var active := ListActive(ws, dep);
    var latest := ListLatest(ws, dep, rev);
    updated := |latest|;
    ready := CountWhere(active, IsRunning);
    var unavailable := replicas - ready;
    if unavailable < 0 {
      unavailable := 0;
    }
    var remainingOld := ListPrior(ws, dep, rev);
    stable := |remainingOld| == 0 && updated >= replicas && unavailable == 0;
    FilterFilter(ws, ActiveOf(dep), IsRunning, RunningActiveOf(dep));
    StabilityIsExact(ws, dep, rev, replicas);
  }
}
