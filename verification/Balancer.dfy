/** The service load balancer: internal/loadbalancer/balancer.go. */
module Balancing {
  import opened Tables
  import opened Sorting
  import Text

  datatype Endpoint = Endpoint(id: string, address: string, ready: bool)

  /** The two counters tables of a balancer; a missing key reads as zero. */
  datatype Counters = Counters(rrIndex: map<string, int>, inflight: map<string, int>)

  datatype Operation =
    | Select(service: string, strategy: string, endpoints: seq<Endpoint>)
    | Release(id: string)

  const FRESH := Counters(map[], map[])

  function Value(m: map<string, int>, k: string): int {
    if k in m then m[k] else 0
  }

  predicate IsRoundRobin(strategy: string) {
    strategy == "" || strategy == "round-robin"
  }

  predicate IsLeastConnections(strategy: string) {
    strategy == "least-connections"
  }

  function Ready(eps: seq<Endpoint>): seq<Endpoint> {
    if eps == [] then []
    else Ready(eps[..|eps| - 1]) + if eps[|eps| - 1].ready then [eps[|eps| - 1]] else []
  }

  function Ids(eps: seq<Endpoint>): seq<string> {
    seq(|eps|, i requires 0 <= i < |eps| => eps[i].id)
  }

  /** The identifiers of the ready endpoints, in the order of the sort. */
  function Slots(eps: seq<Endpoint>): seq<string> {
    StableSort(Ids(Ready(eps)), Before)
  }

  /** The index of the leftmost slot with the fewest requests in flight. */
  function LeastIndex(slots: seq<string>, inflight: map<string, int>): nat
    requires slots != []
    ensures LeastIndex(slots, inflight) < |slots|
  {
    var n := |slots| - 1;
    if n == 0 then 0
    else
      var k := LeastIndex(slots[..n], inflight);
      if Value(inflight, slots[n]) < Value(inflight, slots[k]) then n else k
  }

  lemma {:induction false} LeastIndexIsLeftmostMinimum(slots: seq<string>, inflight: map<string, int>)
    requires slots != []
    ensures var k := LeastIndex(slots, inflight);
            forall i | 0 <= i < |slots| ::
              && Value(inflight, slots[k]) <= Value(inflight, slots[i])
              && (i < k ==> Value(inflight, slots[k]) < Value(inflight, slots[i]))
  {
    var n := |slots| - 1;
    if n > 0 {
      LeastIndexIsLeftmostMinimum(slots[..n], inflight);
      assert forall i | 0 <= i < n :: slots[..n][i] == slots[i];
    }
  }

  /** The slot that a strategy chooses; none when nothing is ready or the strategy is unknown. */
  function Choice(c: Counters, service: string, strategy: string, slots: seq<string>): Option<string> {
    if slots == [] then None
    else if IsRoundRobin(strategy) then Some(slots[Value(c.rrIndex, service) % |slots|])
    else if IsLeastConnections(strategy) then Some(slots[LeastIndex(slots, c.inflight)])
    else None
  }

  function Chosen(c: Counters, op: Operation): Option<string> {
    match op
    case Release(_) => None
    case Select(service, strategy, eps) => Choice(c, service, strategy, Slots(eps))
  }

  function After(c: Counters, op: Operation): Counters {
    match op
    case Release(id) =>
      if Value(c.inflight, id) > 0 then c.(inflight := c.inflight[id := Value(c.inflight, id) - 1]) else c
    case Select(service, strategy, eps) =>
      var slots := Slots(eps);
      match Choice(c, service, strategy, slots)
      case None => c
      case Some(id) =>
        Counters(
          if IsRoundRobin(strategy)
          then c.rrIndex[service := (Value(c.rrIndex, service) % |slots| + 1) % |slots|]
          else c.rrIndex,
          c.inflight[id := Value(c.inflight, id) + 1])
  }

  function Run(c: Counters, ops: seq<Operation>): Counters {
    if ops == [] then c else After(Run(c, ops[..|ops| - 1]), ops[|ops| - 1])
  }

  lemma RunExtends(c: Counters, ops: seq<Operation>, op: Operation)
    ensures Run(c, ops + [op]) == After(Run(c, ops), op)
  {
    assert (ops + [op])[..|ops|] == ops;
  }

  ghost predicate NonNegative(c: Counters) {
    (forall k | k in c.rrIndex :: c.rrIndex[k] >= 0) && (forall k | k in c.inflight :: c.inflight[k] >= 0)
  }

  /** In-flight counts and positions never go below zero. */
  lemma {:induction false} NeverNegative(c: Counters, ops: seq<Operation>)
    requires NonNegative(c)
    ensures NonNegative(Run(c, ops))
  {
    if ops != [] {
      NeverNegative(c, ops[..|ops| - 1]);
    }
  }

  // ----- requests in flight -----

  function Selects(c: Counters, ops: seq<Operation>, id: string): nat {
    if ops == [] then 0
    else
      var n := |ops| - 1;
      Selects(c, ops[..n], id) + if Chosen(Run(c, ops[..n]), ops[n]) == Some(id) then 1 else 0
  }

  function Releases(ops: seq<Operation>, id: string): nat {
    if ops == [] then 0
    else Releases(ops[..|ops| - 1], id) + if ops[|ops| - 1] == Release(id) then 1 else 0
  }

  /** Every release of this endpoint follows a selection of it that no earlier release has matched. */
  predicate Matched(c: Counters, ops: seq<Operation>, id: string) {
    if ops == [] then true
    else
      var n := |ops| - 1;
      && Matched(c, ops[..n], id)
      && (ops[n] == Release(id) ==> Selects(c, ops[..n], id) > Releases(ops[..n], id))
  }

  /** From a fresh balancer: the count is selections minus releases exactly when every release had its selection. */
  lemma {:induction false} InflightIsBalanceExactly(ops: seq<Operation>, id: string)
    ensures var count := Value(Run(FRESH, ops).inflight, id);
            && count >= Selects(FRESH, ops, id) - Releases(ops, id)
            && (count == Selects(FRESH, ops, id) - Releases(ops, id) <==> Matched(FRESH, ops, id))
  {
    if ops != [] {
      InflightIsBalanceExactly(ops[..|ops| - 1], id);
      NeverNegative(FRESH, ops[..|ops| - 1]);
    }
  }

  // ----- least connections -----

  /** A release or a selection that leaves these endpoints alone, or a least-connections selection among exactly them. */
  predicate LeastOver(slots: seq<string>, op: Operation) {
    match op
    case Release(id) => id !in slots
    case Select(_, strategy, eps) =>
      if IsLeastConnections(strategy) && Slots(eps) == slots then true
      else forall id | id in Slots(eps) :: id !in slots
  }

  /** Without releases from a fresh balancer, least-connections keeps the counts of its endpoints within one. */
  lemma {:induction false} LeastConnectionsKeepsLevel(slots: seq<string>, ops: seq<Operation>, x: string, y: string)
    requires x in slots && y in slots
    requires forall i | 0 <= i < |ops| :: LeastOver(slots, ops[i])
    ensures Value(Run(FRESH, ops).inflight, x) <= Value(Run(FRESH, ops).inflight, y) + 1
  {
    if ops != [] {
      var n := |ops| - 1;
      var c := Run(FRESH, ops[..n]);
      LeastConnectionsKeepsLevel(slots, ops[..n], x, y);
      if ops[n].Select? {
        LeastStepKeepsLevel(slots, c, ops[n], x, y);
      }
    }
  }

  lemma LeastStepKeepsLevel(slots: seq<string>, c: Counters, op: Operation, x: string, y: string)
    requires x in slots && y in slots && op.Select? && LeastOver(slots, op)
    requires Value(c.inflight, x) <= Value(c.inflight, y) + 1
    ensures Value(After(c, op).inflight, x) <= Value(After(c, op).inflight, y) + 1
  {
    if IsLeastConnections(op.strategy) && Slots(op.endpoints) == slots {
      LeastIndexIsLeftmostMinimum(slots, c.inflight);
      var j :| 0 <= j < |slots| && slots[j] == y;
      assert Value(c.inflight, slots[LeastIndex(slots, c.inflight)]) <= Value(c.inflight, slots[j]);
    } else if Slots(op.endpoints) != [] && IsRoundRobin(op.strategy) {
      assert Slots(op.endpoints)[Value(c.rrIndex, op.service) % |Slots(op.endpoints)|] in Slots(op.endpoints);
    } else if Slots(op.endpoints) != [] {
      assert Slots(op.endpoints)[LeastIndex(Slots(op.endpoints), c.inflight)] in Slots(op.endpoints);
    }
  }

  // ----- round robin -----

  predicate IsTurn(op: Operation, service: string) {
    op.Select? && op.service == service && IsRoundRobin(op.strategy)
  }

  /** Every round-robin selection for the service sees exactly these ready endpoints, listed in any order. */
  ghost predicate SameReadySet(ops: seq<Operation>, service: string, slots: seq<string>) {
    forall i | 0 <= i < |ops| && IsTurn(ops[i], service) ::
      Distinct(Ids(Ready(ops[i].endpoints))) && forall x :: x in Ids(Ready(ops[i].endpoints)) <==> x in slots
  }

  /** Listing order does not matter: the sort brings every list of the same distinct endpoints to one order. */
  lemma OrderDoesNotMatter(eps: seq<Endpoint>, slots: seq<string>)
    requires StrictlySorted(slots) && Distinct(Ids(Ready(eps)))
    requires forall x :: x in Ids(Ready(eps)) <==> x in slots
    ensures Slots(eps) == slots
  {
    SortedListIsStrict(Ids(Ready(eps)));
    SortElements(Ids(Ready(eps)), Before);
    SortedListIsUnique(Slots(eps), slots);
  }

  function Turns(ops: seq<Operation>, service: string): nat {
    if ops == [] then 0
    else Turns(ops[..|ops| - 1], service) + if IsTurn(ops[|ops| - 1], service) then 1 else 0
  }

  function TurnsOf(c: Counters, ops: seq<Operation>, service: string, id: string): nat {
    if ops == [] then 0
    else
      var n := |ops| - 1;
      TurnsOf(c, ops[..n], service, id)
      + if IsTurn(ops[n], service) && Chosen(Run(c, ops[..n]), ops[n]) == Some(id) then 1 else 0
  }

  /** The place reached from `from` by r steps around n places. */
  function Around(from: nat, r: nat, n: nat): nat
    requires from < n && r <= n
  {
    if from + r < n then from + r else from + r - n
  }

  /** The steps needed around n places from `from` to `to`. */
  function Distance(from: nat, to: nat, n: nat): nat
    requires from < n && to < n
  {
    if to >= from then to - from else to + n - from
  }

  /** The whole rounds and the rest of k turns over n places. */
  function Rounds(k: nat, n: nat): nat
    requires n > 0
  {
    if k < n then 0 else Rounds(k - n, n) + 1
  }

  function Rest(k: nat, n: nat): nat
    requires n > 0
    ensures Rest(k, n) < n
  {
    if k < n then k else Rest(k - n, n)
  }

  lemma {:induction false} OneMoreTurn(k: nat, n: nat)
    requires n > 0
    ensures Rest(k, n) + 1 < n ==> Rounds(k + 1, n) == Rounds(k, n) && Rest(k + 1, n) == Rest(k, n) + 1
    ensures Rest(k, n) + 1 == n ==> Rounds(k + 1, n) == Rounds(k, n) + 1 && Rest(k + 1, n) == 0
  {
    if k >= n {
      OneMoreTurn(k - n, n);
    }
  }

  lemma {:induction false} RoundsAndRest(k: nat, n: nat)
    requires n > 0
    ensures k == Rounds(k, n) * n + Rest(k, n)
  {
    if k >= n {
      RoundsAndRest(k - n, n);
    }
  }

  lemma UniqueQuotient(q0: nat, r0: nat, q: nat, r: nat, n: nat)
    requires r0 < n && r < n && q0 * n + r0 == q * n + r
    ensures q0 == q && r0 == r
  {
    Apart(q0, q, n);
    Apart(q, q0, n);
  }

  lemma {:induction false} Apart(a: nat, b: nat, n: nat)
    ensures a > b ==> a * n >= b * n + n
  {
    if a > b + 1 {
      Apart(a - 1, b, n);
    }
    if a > 0 {
      assert a * n == (a - 1) * n + n;
    }
  }

  lemma RoundsIsQuotient(k: nat, n: nat)
    requires n > 0
    ensures Rounds(k, n) == k / n && Rest(k, n) == k % n
  {
    RoundsAndRest(k, n);
    UniqueQuotient(k / n, k % n, Rounds(k, n), Rest(k, n), n);
  }

  lemma AroundStep(from: nat, k: nat, n: nat)
    requires from < n
    ensures Around(Around(from, Rest(k, n), n), 1, n) == Around(from, Rest(k + 1, n), n)
  {
    OneMoreTurn(k, n);
  }

  /** The (k + 1)-st turn raises the share of exactly the place it falls on. */
  lemma ShareStep(from: nat, j: nat, k: nat, n: nat)
    requires from < n && j < n
    ensures Share(from, j, k + 1, n) == Share(from, j, k, n) + if Around(from, Rest(k, n), n) == j then 1 else 0
  {
    OneMoreTurn(k, n);
  }

  /** The turns that fall on place j among k turns that begin at `from`. */
  function Share(from: nat, j: nat, k: nat, n: nat): nat
    requires from < n && j < n
  {
    Rounds(k, n) + if Distance(from, j, n) < Rest(k, n) then 1 else 0
  }

  /** The place of the next turn. */
  function Place(c: Counters, service: string, n: nat): nat
    requires n > 0 && NonNegative(c)
  {
    Value(c.rrIndex, service) % n
  }

  /** The position after a run, whatever else the run did, is fixed by the number of turns. */
  lemma {:induction false} PlaceFollowsTurns(c: Counters, ops: seq<Operation>, service: string, slots: seq<string>)
    requires NonNegative(c) && slots != [] && StrictlySorted(slots) && SameReadySet(ops, service, slots)
    ensures NonNegative(Run(c, ops))
    ensures Place(Run(c, ops), service, |slots|) == Around(Place(c, service, |slots|), Rest(Turns(ops, service), |slots|), |slots|)
  {
    NeverNegative(c, ops);
    if ops != [] {
      var n := |ops| - 1;
      PlaceFollowsTurns(c, ops[..n], service, slots);
      AroundStep(Place(c, service, |slots|), Turns(ops[..n], service), |slots|);
      if IsTurn(ops[n], service) {
        OrderDoesNotMatter(ops[n].endpoints, slots);
        TurnMovesOn(Run(c, ops[..n]), ops[n], service, slots);
      } else {
        OthersKeepPlace(Run(c, ops[..n]), ops[n], service);
      }
    }
  }

  /** Releases, other services and other strategies leave the position of a service alone. */
  lemma OthersKeepPlace(c: Counters, op: Operation, service: string)
    requires !IsTurn(op, service)
    ensures Value(After(c, op).rrIndex, service) == Value(c.rrIndex, service)
  {
  }

  lemma TurnMovesOn(c: Counters, op: Operation, service: string, slots: seq<string>)
    requires NonNegative(c) && slots != [] && IsTurn(op, service) && Slots(op.endpoints) == slots
    ensures NonNegative(After(c, op))
    ensures Place(After(c, op), service, |slots|) == Around(Place(c, service, |slots|), 1, |slots|)
    ensures Chosen(c, op) == Some(slots[Place(c, service, |slots|)])
  {
    var p := Place(c, service, |slots|);
    RoundsIsQuotient(p + 1, |slots|);
    RoundsIsQuotient(Around(p, 1, |slots|), |slots|);
  }

  /**
   * Fairness: k turns of a service over n distinct ready endpoints give every endpoint k / n turns, and one more
   * to the k % n endpoints that come first from where the run began. Other operations may come between.
   */
  lemma {:induction false} RoundRobinIsFair(c: Counters, ops: seq<Operation>, service: string, slots: seq<string>, j: nat)
    requires NonNegative(c) && slots != [] && StrictlySorted(slots) && SameReadySet(ops, service, slots)
    requires j < |slots|
    ensures var k, n := Turns(ops, service), |slots|;
            TurnsOf(c, ops, service, slots[j]) == Share(Place(c, service, n), j, k, n)
  {
    if ops != [] {
      var last := |ops| - 1;
      RoundRobinIsFair(c, ops[..last], service, slots, j);
      if IsTurn(ops[last], service) {
        var k := Turns(ops[..last], service);
        ShareStep(Place(c, service, |slots|), j, k, |slots|);
        PlaceFollowsTurns(c, ops[..last], service, slots);
        OrderDoesNotMatter(ops[last].endpoints, slots);
        TurnMovesOn(Run(c, ops[..last]), ops[last], service, slots);
        var p := Around(Place(c, service, |slots|), Rest(k, |slots|), |slots|);
        StrictIsInjective(slots, p, j);
      }
    }
  }

  lemma StrictIsInjective(slots: seq<string>, i: nat, j: nat)
    requires StrictlySorted(slots) && i < |slots| && j < |slots|
    ensures slots[i] == slots[j] <==> i == j
  {
    Text.LessTotal(slots[i], slots[i]);
  }

  /** So each endpoint gets the floor or the ceiling of k / n turns. */
  lemma FloorOrCeiling(c: Counters, ops: seq<Operation>, service: string, slots: seq<string>, id: string)
    requires NonNegative(c) && slots != [] && StrictlySorted(slots) && SameReadySet(ops, service, slots)
    requires id in slots
    ensures var k, n := Turns(ops, service), |slots|;
            k / n <= TurnsOf(c, ops, service, id) <= (k + n - 1) / n
  {
    var j :| 0 <= j < |slots| && slots[j] == id;
    RoundRobinIsFair(c, ops, service, slots, j);
    Ceiling(Turns(ops, service), |slots|);
  }

  lemma Ceiling(k: nat, n: nat)
    requires n > 0
    ensures Rounds(k, n) == k / n && (k + n - 1) / n == Rounds(k, n) + if Rest(k, n) > 0 then 1 else 0
  {
    RoundsIsQuotient(k, n);
    RoundsIsQuotient(k + n - 1, n);
    if Rest(k, n) == 0 {
      CeilingOfRound(k, n);
    } else {
      assert Rounds(k + n - 1, n) == Rounds(k - 1, n) + 1;
      OneMoreTurn(k - 1, n);
    }
  }

  lemma {:induction false} CeilingOfRound(k: nat, n: nat)
    requires n > 0 && Rest(k, n) == 0
    ensures Rounds(k + n - 1, n) == Rounds(k, n)
  {
    if k >= n {
      CeilingOfRound(k - n, n);
    }
  }

  // ----- the code -----

  predicate ById(a: Endpoint, b: Endpoint) {
    Text.Less(a.id, b.id)
  }

  lemma {:induction false} InsertById(x: Endpoint, eps: seq<Endpoint>)
    ensures Ids(Insert(x, eps, ById)) == Insert(x.id, Ids(eps), Before)
  {
    if eps == [] {
    } else if ById(eps[0], x) {
      InsertById(x, eps[1..]);
      assert Ids(eps)[1..] == Ids(eps[1..]);
      assert Ids([eps[0]] + Insert(x, eps[1..], ById)) == [eps[0].id] + Ids(Insert(x, eps[1..], ById));
    } else {
      assert Ids([x] + eps) == [x.id] + Ids(eps);
    }
  }

  /** Sorting endpoints by identifier sorts their identifiers. */
  lemma {:induction false} SortById(eps: seq<Endpoint>)
    ensures Ids(StableSort(eps, ById)) == StableSort(Ids(eps), Before)
  {
    if eps != [] {
      SortById(eps[1..]);
      assert Ids(eps)[1..] == Ids(eps[1..]);
      InsertById(eps[0], StableSort(eps[1..], ById));
    }
  }

  datatype Selection = NoReadyEndpoints | UnsupportedStrategy | Selected(endpoint: Endpoint)

  lemma {:induction false} ReadyAreReady(eps: seq<Endpoint>, e: Endpoint)
    ensures e in Ready(eps) <==> e in eps && e.ready
  {
    if eps != [] {
      ReadyAreReady(eps[..|eps| - 1], e);
      assert eps == eps[..|eps| - 1] + [eps[|eps| - 1]];
    }
  }

  method FilterReady(eps: seq<Endpoint>) returns (ready: seq<Endpoint>)
    ensures ready == Ready(eps)
  {
    ready := [];
    for i := 0 to |eps|
      invariant ready == Ready(eps[..i])
    {
      if eps[i].ready {
        ready := ready + [eps[i]];
      }
      assert eps[..i + 1][..i] == eps[..i];
    }
    assert eps[..|eps|] == eps;
  }

  method SortedReady(eps: seq<Endpoint>) returns (sorted: seq<Endpoint>)
    ensures Ids(sorted) == Slots(eps)
    ensures sorted == [] <==> Ready(eps) == []
    ensures forall e :: e in sorted <==> e in eps && e.ready
  {
    var ready := FilterReady(eps);
    sorted := StableSort(ready, ById);
    SortById(ready);
    SortPermutes(ready, ById);
    SortElements(ready, ById);
    forall e ensures e in ready <==> e in eps && e.ready {
      ReadyAreReady(eps, e);
    }
  }

  /** The minimum loop of the least-connections strategy. */
  method FindLeast(ready: seq<Endpoint>, inflight: map<string, int>) returns (k: nat)
    requires ready != []
    ensures k == LeastIndex(Ids(ready), inflight) && k < |ready|
  {
    k := 0;
    var best := Value(inflight, ready[0].id);
    for i := 1 to |ready|
      invariant k < i && best == Value(inflight, ready[k].id)
      invariant k == LeastIndex(Ids(ready)[..i], inflight)
    {
      var count := Value(inflight, ready[i].id);
      if count < best {
        k, best := i, count;
      }
      assert Ids(ready)[..i + 1][..i] == Ids(ready)[..i];
    }
    assert Ids(ready)[..|ready|] == Ids(ready);
  }

  /** The strategy switch: the index to take, if any, and the new positions. */
  method Decide(c: Counters, service: string, strategy: string, ready: seq<Endpoint>)
    returns (k: Option<nat>, rrIndex: map<string, int>)
    requires ready != []
    ensures k.Some? <==> IsRoundRobin(strategy) || IsLeastConnections(strategy)
    ensures k.Some? ==> k.value < |ready|
    ensures Choice(c, service, strategy, Ids(ready)) == (if k.Some? then Some(ready[k.value].id) else None)
    ensures rrIndex == if IsRoundRobin(strategy)
                       then c.rrIndex[service := (Value(c.rrIndex, service) % |ready| + 1) % |ready|]
                       else c.rrIndex
  {
    rrIndex := c.rrIndex;
    if strategy == "" || strategy == "round-robin" {
      var idx := Value(rrIndex, service) % |ready|;
      rrIndex := rrIndex[service := (idx + 1) % |ready|];
      return Some(idx), rrIndex;
    } else if strategy == "least-connections" {
      var least := FindLeast(ready, c.inflight);
      return Some(least), rrIndex;
    } else {
      return None, rrIndex;
    }
  }

  /** Whom a selection returns and what it leaves in the two tables. */
  method SelectFrom(c: Counters, service: string, strategy: string, eps: seq<Endpoint>) returns (r: Selection, next: Counters)
    ensures next == After(c, Operation.Select(service, strategy, eps))
    ensures r.NoReadyEndpoints? <==> forall e | e in eps :: !e.ready
    ensures r.UnsupportedStrategy? <==>
              (exists e :: e in eps && e.ready) && strategy != "" && strategy != "round-robin" && strategy != "least-connections"
    ensures r.Selected? ==> r.endpoint in eps && r.endpoint.ready
    ensures (if r.Selected? then Some(r.endpoint.id) else None) == Chosen(c, Operation.Select(service, strategy, eps))
  {
    next := c;
    var ready := SortedReady(eps);
    if |ready| == 0 {
      return NoReadyEndpoints, next;
    }
    assert ready[0] in ready;
    var k, positions := Decide(c, service, strategy, ready);
    if k.None? {
      return UnsupportedStrategy, next;
    }
    var selected := ready[k.value];
    next := Counters(positions, c.inflight[selected.id := Value(c.inflight, selected.id) + 1]);
    return Selected(selected), next;
  }

  class Balancer {
    var rrIndex: map<string, int>
    var inflight: map<string, int>
    ghost var log: seq<Operation>

    /** The tables are what the operations so far make of a fresh balancer. */
    ghost predicate Valid()
      reads this
    {
      Counters(rrIndex, inflight) == Run(FRESH, log)
    }

    constructor ()
      ensures Valid() && log == []
    {
      rrIndex, inflight, log := map[], map[], [];
    }

    method Select(service: string, strategy: string, eps: seq<Endpoint>) returns (r: Selection)
      requires Valid()
      modifies this
      ensures Valid() && log == old(log) + [Operation.Select(service, strategy, eps)]
      ensures r.NoReadyEndpoints? <==> forall e | e in eps :: !e.ready
      ensures r.UnsupportedStrategy? <==>
              (exists e :: e in eps && e.ready) && strategy != "" && strategy != "round-robin" && strategy != "least-connections"
      ensures r.Selected? ==> r.endpoint in eps && r.endpoint.ready
      ensures (if r.Selected? then Some(r.endpoint.id) else None) ==
              Chosen(old(Counters(rrIndex, inflight)), Operation.Select(service, strategy, eps))
    {
      RunExtends(FRESH, log, Operation.Select(service, strategy, eps));
      var next;
      r, next := SelectFrom(Counters(rrIndex, inflight), service, strategy, eps);
      rrIndex, inflight := next.rrIndex, next.inflight;
      log := log + [Operation.Select(service, strategy, eps)];
    }

    method Release(id: string)
      requires Valid()
      modifies this
      ensures Valid() && log == old(log) + [Operation.Release(id)]
    {
      RunExtends(FRESH, log, Operation.Release(id));
      log := log + [Operation.Release(id)];
      if Value(inflight, id) > 0 {
        inflight := inflight[id := Value(inflight, id) - 1];
      }
    }
  }
}
