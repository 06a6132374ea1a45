/**
 * Lease-based leader election: TryAcquireControllerLeadership and ReleaseControllerLeadership of
 * internal/service/features.go, and the loop of internal/controller/manager.go that uses them.
 */
module Lease {
  import opened Tables
  import Text

  datatype Lease = Lease(leader: string, expiresAt: int, term: int)

  const SECOND := 1_000_000_000
  const DEFAULT_DURATION := 10 * SECOND

  function Duration(d: int): int {
    if d <= 0 then DEFAULT_DURATION else d
  }

  /** The guard of an acquisition: no lease, a blank leader, an expired lease, or one's own. */
  predicate MayTake(l: Option<Lease>, c: string, now: int) {
    l.None? || Text.IsBlank(l.value.leader) || now > l.value.expiresAt || l.value.leader == c
  }

  function NextTerm(l: Option<Lease>, c: string): int {
    match l
    case None => 1
    case Some(x) => if x.leader != c then x.term + 1 else x.term
  }

  function Taken(l: Option<Lease>, c: string, d: int, now: int): Lease {
    Lease(c, now + Duration(d), NextTerm(l, c))
  }

  datatype Acquisition = Rejected | Standby(leader: Lease) | Granted(lease: Lease)

  function Acquire(l: Option<Lease>, c: string, d: int, now: int): Acquisition {
    if Text.IsBlank(c) then Rejected
    else if MayTake(l, c, now) then Granted(Taken(l, c, d, now))
    else Standby(l.value)
  }

  function AfterAcquire(l: Option<Lease>, c: string, d: int, now: int): Option<Lease> {
    match Acquire(l, c, d, now)
    case Granted(x) => Some(x)
    case _ => l
  }

  function AfterRelease(l: Option<Lease>, c: string): Option<Lease> {
    if l.Some? && l.value.leader == c then None else l
  }

  // ----- every run of many controllers -----

  /** A manager ticks (acquire, then reconcile if leading) or shuts down (release). */
  datatype Event =
    | Tick(controller: string, duration: int, now: int)
    | Shutdown(controller: string, now: int)

  datatype Grant = Grant(controller: string, at: int, expiresAt: int, term: int, epoch: nat)

  /**
   * `held` is each controller's latest grant that it has not released; `grants` is every grant,
   * each of which started a reconcile pass; `epoch` counts the releases that removed a lease.
   */
  datatype Election = Election(lease: Option<Lease>, clock: int, held: map<string, int>, grants: seq<Grant>, epoch: nat)

  function After(e: Election, ev: Event): Election {
    match ev
    case Tick(c, d, now) =>
      (match Acquire(e.lease, c, d, now)
       case Granted(x) =>
         Election(Some(x), now, e.held[c := x.expiresAt], e.grants + [Grant(c, now, x.expiresAt, x.term, e.epoch)], e.epoch)
       case _ => e.(clock := now))
    case Shutdown(c, now) =>
      e.(lease := AfterRelease(e.lease, c), clock := now, held := e.held - {c},
         epoch := if e.lease.Some? && e.lease.value.leader == c then e.epoch + 1 else e.epoch)
  }

  const START := Election(None, 0, map[], [], 0)

  function Run(evs: seq<Event>): Election {
    if evs == [] then START else After(Run(evs[..|evs| - 1]), evs[|evs| - 1])
  }

  /** The clock never goes back. */
  predicate Timely(evs: seq<Event>) {
    evs == [] || (Timely(evs[..|evs| - 1]) && evs[|evs| - 1].now >= Run(evs[..|evs| - 1]).clock)
  }

  lemma RunExtends(evs: seq<Event>, ev: Event)
    ensures Run(evs + [ev]) == After(Run(evs), ev)
    ensures Timely(evs + [ev]) <==> Timely(evs) && ev.now >= Run(evs).clock
  {
    assert (evs + [ev])[..|evs|] == evs;
  }

  lemma TickExtends(evs: seq<Event>, c: string, d: int, now: int)
    requires Timely(evs) && now >= Run(evs).clock
    ensures Timely(evs + [Tick(c, d, now)])
    ensures Run(evs + [Tick(c, d, now)]).lease == AfterAcquire(Run(evs).lease, c, d, now)
  {
    RunExtends(evs, Tick(c, d, now));
  }

  /** Whether a controller has an unexpired grant that it has not released. */
  predicate Holds(e: Election, c: string, t: int) {
    c in e.held && t <= e.held[c]
  }

  /** The stored lease is its leader's latest grant, and an unexpired grant is the stored lease. */
  ghost predicate Exclusive(e: Election) {
    && (e.lease.Some? ==>
          var l := e.lease.value;
          !Text.IsBlank(l.leader) && l.leader in e.held && e.held[l.leader] == l.expiresAt)
    && forall c | c in e.held && e.clock <= e.held[c] ::
         e.lease.Some? && e.lease.value.leader == c && e.lease.value.expiresAt == e.held[c]
  }

  lemma {:induction false} ExclusiveHolds(evs: seq<Event>)
    requires Timely(evs)
    ensures Exclusive(Run(evs))
  {
    if evs != [] {
      ExclusiveHolds(evs[..|evs| - 1]);
    }
  }

  /** In every run, at every time from the last event on, at most one controller holds the lease, and the store names it. */
  lemma MutualExclusion(evs: seq<Event>, c1: string, c2: string, t: int)
    requires Timely(evs) && t >= Run(evs).clock
    requires Holds(Run(evs), c1, t) && Holds(Run(evs), c2, t)
    ensures c1 == c2 && Run(evs).lease.Some? && Run(evs).lease.value.leader == c1
  {
    ExclusiveHolds(evs);
  }

  /** A release by anyone but the stored leader leaves the lease alone. */
  lemma StaleReleaseIsHarmless(evs: seq<Event>, c: string, other: string, t: int, now: int)
    requires Timely(evs) && now >= Run(evs).clock && t >= now
    requires c != other && Holds(Run(evs), other, t)
    ensures Holds(Run(evs + [Shutdown(c, now)]), other, t) && Run(evs + [Shutdown(c, now)]).lease == Run(evs).lease
  {
    RunExtends(evs, Shutdown(c, now));
    ExclusiveHolds(evs);
  }

  /** A reconcile pass starts only under a grant: at that moment its controller holds the lease and nobody else does. */
  lemma ReconcilesOnlyAsLeader(evs: seq<Event>, c: string, d: int, now: int, other: string)
    requires Timely(evs) && now >= Run(evs).clock
    requires Acquire(Run(evs).lease, c, d, now).Granted?
    ensures var e := Run(evs + [Tick(c, d, now)]);
            Holds(e, c, now) && (Holds(e, other, now) ==> other == c)
  {
    RunExtends(evs, Tick(c, d, now));
    ExclusiveHolds(evs + [Tick(c, d, now)]);
  }

  /** A tick of a named controller is granted exactly when nobody else holds the lease; otherwise it is told who does. */
  lemma GrantedExactly(evs: seq<Event>, c: string, d: int, now: int)
    requires Timely(evs) && now >= Run(evs).clock && !Text.IsBlank(c)
    ensures var r := Acquire(Run(evs).lease, c, d, now);
            && (r.Granted? <==> forall other | Holds(Run(evs), other, now) :: other == c)
            && (!r.Granted? ==> r.Standby? && r.leader.leader != c && Holds(Run(evs), r.leader.leader, now))
  {
    ExclusiveHolds(evs);
    var l := Run(evs).lease;
    if l.Some? && l.value.leader != c && now <= l.value.expiresAt {
      assert Holds(Run(evs), l.value.leader, now);
    }
  }

  /** A granted tick leaves its controller holding for exactly the duration, ten seconds unless a positive one is given. */
  lemma GrantLastsExactly(evs: seq<Event>, c: string, d: int, now: int, t: int)
    requires Acquire(Run(evs).lease, c, d, now).Granted?
    ensures Holds(Run(evs + [Tick(c, d, now)]), c, t) <==> t <= now + if d <= 0 then 10_000_000_000 else d
  {
    RunExtends(evs, Tick(c, d, now));
  }

  /** A holder's tick is always granted and keeps its term. */
  lemma HolderRenews(evs: seq<Event>, c: string, d: int, now: int)
    requires Timely(evs) && now >= Run(evs).clock && Holds(Run(evs), c, now)
    ensures Acquire(Run(evs).lease, c, d, now).Granted?
    ensures Run(evs).lease.Some? && Acquire(Run(evs).lease, c, d, now).lease.term == Run(evs).lease.value.term
  {
    ExclusiveHolds(evs);
    forall other | Holds(Run(evs), other, now) ensures other == c {
      MutualExclusion(evs, c, other, now);
    }
    GrantedExactly(evs, c, d, now);
  }

  // ----- terms -----

  /** Within one epoch terms never fall, and rise whenever the controller changes; epochs never fall. */
  ghost predicate TermsRise(e: Election) {
    && (forall i, j | 0 <= i < j < |e.grants| ::
          && e.grants[i].epoch <= e.grants[j].epoch
          && (e.grants[i].epoch == e.grants[j].epoch ==>
                && e.grants[i].term <= e.grants[j].term
                && (e.grants[i].controller != e.grants[j].controller ==> e.grants[i].term < e.grants[j].term)))
    && (forall i | 0 <= i < |e.grants| :: e.grants[i].epoch <= e.epoch && e.grants[i].term >= 1)
    && (e.lease.None? ==> forall i | 0 <= i < |e.grants| :: e.grants[i].epoch < e.epoch)
    && (e.lease.Some? ==>
          && e.grants != []
          && var last := e.grants[|e.grants| - 1];
             last.epoch == e.epoch && last.controller == e.lease.value.leader && last.term == e.lease.value.term)
  }

  lemma GrantKeepsTerms(e: Election, ev: Event)
    requires TermsRise(e) && ev.Tick? && Acquire(e.lease, ev.controller, ev.duration, ev.now).Granted?
    ensures TermsRise(After(e, ev))
  {
    var t := After(e, ev);
    var n := |e.grants|;
    assert ev.controller != "";
    forall i, j | 0 <= i < j < |t.grants| ensures
        && t.grants[i].epoch <= t.grants[j].epoch
        && (t.grants[i].epoch == t.grants[j].epoch ==>
              && t.grants[i].term <= t.grants[j].term
              && (t.grants[i].controller != t.grants[j].controller ==> t.grants[i].term < t.grants[j].term)) {
      if j == n && e.lease.Some? && i < n - 1 {
        assert e.grants[i].epoch <= e.grants[n - 1].epoch;
      }
    }
  }

  lemma QuietKeepsTerms(e: Election, ev: Event)
    requires TermsRise(e) && !(ev.Tick? && Acquire(e.lease, ev.controller, ev.duration, ev.now).Granted?)
    ensures TermsRise(After(e, ev))
  {
  }

  lemma {:induction false} TermsHold(evs: seq<Event>)
    ensures TermsRise(Run(evs))
  {
    if evs != [] {
      var before, ev := Run(evs[..|evs| - 1]), evs[|evs| - 1];
      TermsHold(evs[..|evs| - 1]);
      if ev.Tick? && Acquire(before.lease, ev.controller, ev.duration, ev.now).Granted? {
        GrantKeepsTerms(before, ev);
      } else {
        QuietKeepsTerms(before, ev);
      }
    }
  }

  /** An epoch and a term together never belong to two controllers. */
  lemma EpochAndTermNameOneController(evs: seq<Event>, i: nat, j: nat)
    requires i < |Run(evs).grants| && j < |Run(evs).grants|
    requires Run(evs).grants[i].epoch == Run(evs).grants[j].epoch && Run(evs).grants[i].term == Run(evs).grants[j].term
    ensures Run(evs).grants[i].controller == Run(evs).grants[j].controller
  {
    TermsHold(evs);
  }

  lemma {:induction false} NoReleaseOneEpoch(evs: seq<Event>)
    requires forall i | 0 <= i < |evs| :: evs[i].Tick?
    ensures Run(evs).epoch == 0
  {
    if evs != [] {
      NoReleaseOneEpoch(evs[..|evs| - 1]);
    }
  }

  /** In runs without release, terms never fall, rise at each change of leader, and never belong to two controllers. */
  lemma TermsWithoutRelease(evs: seq<Event>, i: nat, j: nat)
    requires forall k | 0 <= k < |evs| :: evs[k].Tick?
    requires i < j < |Run(evs).grants|
    ensures var g := Run(evs).grants;
            && g[i].term <= g[j].term
            && (g[i].controller != g[j].controller ==> g[i].term < g[j].term)
            && (g[i].term == g[j].term ==> g[i].controller == g[j].controller)
  {
    TermsHold(evs);
    NoReleaseOneEpoch(evs);
  }

  /** The next grant has a lower term than the last one exactly when a release removed the lease in between and the last term was above one. */
  lemma TermFallsExactly(evs: seq<Event>, c: string, d: int, now: int)
    requires Run(evs).grants != [] && Acquire(Run(evs).lease, c, d, now).Granted?
    ensures var g := Run(evs).grants;
            Acquire(Run(evs).lease, c, d, now).lease.term < g[|g| - 1].term <==> Run(evs).lease.None? && g[|g| - 1].term > 1
  {
    TermsHold(evs);
    assert c != "";
  }

  /** A change of leader brings a higher term, by one, exactly when the lease was still stored, that is, not released in between. */
  lemma TermRisesExactly(evs: seq<Event>, c: string, d: int, now: int)
    requires Run(evs).grants != [] && Acquire(Run(evs).lease, c, d, now).Granted?
    requires c != Run(evs).grants[|Run(evs).grants| - 1].controller
    ensures var g := Run(evs).grants;
            && (Acquire(Run(evs).lease, c, d, now).lease.term > g[|g| - 1].term <==> Run(evs).lease.Some?)
            && Acquire(Run(evs).lease, c, d, now).lease.term == if Run(evs).lease.Some? then g[|g| - 1].term + 1 else 1
  {
    TermsHold(evs);
    assert c != "";
  }

  const A_LEADS := [Tick("a", 5, 1)]

  lemma FirstLeader()
    ensures Timely(A_LEADS)
    ensures Run(A_LEADS) == Election(Some(Lease("a", 6, 1)), 1, map["a" := 6], [Grant("a", 1, 6, 1, 0)], 0)
  {
    RunExtends([], A_LEADS[0]);
    assert [] + [A_LEADS[0]] == A_LEADS;
    Text.WordNotBlank("a");
  }

  /** For instance: a is released, and b leads under term 1 as well. */
  lemma TermsRepeatAfterRelease()
    ensures var evs := A_LEADS + [Shutdown("a", 2)];
            && Timely(evs + [Tick("b", 5, 3)])
            && Run(evs).lease.None? && |Run(evs).grants| == 1 && Run(evs).grants[0].controller == "a"
            && var g := Run(evs + [Tick("b", 5, 3)]).grants;
               |g| == 2 && g[0].controller == "a" && g[1].controller == "b" && g[0].term == g[1].term == 1
  {
    FirstLeader();
    RunExtends(A_LEADS, Shutdown("a", 2));
    RunExtends(A_LEADS + [Shutdown("a", 2)], Tick("b", 5, 3));
    Text.WordNotBlank("b");
  }

  /** For instance: b follows a under term 2 and is released, and a leads again under term 1. */
  lemma TermFallsAfterRelease()
    ensures var evs := A_LEADS + [Tick("b", 5, 10)] + [Shutdown("b", 11)];
            && Timely(evs + [Tick("a", 5, 12)])
            && Run(evs).lease.None? && |Run(evs).grants| == 2 && Run(evs).grants[1].term == 2
            && var g := Run(evs + [Tick("a", 5, 12)]).grants;
               |g| == 3 && g[0].term == 1 && g[1].term == 2 && g[2].term == 1
  {
    FirstLeader();
    RunExtends(A_LEADS, Tick("b", 5, 10));
    RunExtends(A_LEADS + [Tick("b", 5, 10)], Shutdown("b", 11));
    RunExtends(A_LEADS + [Tick("b", 5, 10)] + [Shutdown("b", 11)], Tick("a", 5, 12));
    Text.WordNotBlank("a");
    Text.WordNotBlank("b");
  }

  // ----- the code -----

  /** The stored lease. The ghost log holds every tick and shutdown so far, and explains the lease. */
  class LeaseStore {
    var lease: Option<Lease>
    ghost var log: seq<Event>

    ghost predicate Valid()
      reads this
    {
      Timely(log) && lease == Run(log).lease
    }

    constructor ()
      ensures Valid() && log == []
    {
      lease, log := None, [];
    }

    method TryAcquire(c: string, d: int, now: int) returns (r: Acquisition)
      requires Valid() && now >= Run(log).clock
      modifies this
      ensures Valid() && log == old(log) + [Tick(c, d, now)]
      ensures r == Acquire(old(lease), c, d, now)
      ensures r.Rejected? <==> Text.IsBlank(c)
      ensures !r.Rejected? ==> (r.Granted? <==> forall other | Holds(Run(old(log)), other, now) :: other == c)
      ensures r.Granted? ==> forall t :: Holds(Run(log), c, t) <==> t <= now + if d <= 0 then 10_000_000_000 else d
    {
      if !Text.IsBlank(c) {
        GrantedExactly(log, c, d, now);
      }
      forall t | Acquire(lease, c, d, now).Granted? ensures Holds(Run(log + [Tick(c, d, now)]), c, t) <==> t <= now + if d <= 0 then 10_000_000_000 else d {
        GrantLastsExactly(log, c, d, now, t);
      }
      TickExtends(log, c, d, now);
      log := log + [Tick(c, d, now)];
      if Text.IsBlank(c) {
        return Rejected;
      }
      var duration := d;
      if duration <= 0 {
        duration := DEFAULT_DURATION;
      }
      var current := if lease.Some? then lease.value else Lease("", 0, 0);
      if lease.None? || Text.IsBlank(current.leader) || now > current.expiresAt || current.leader == c {
        var term := current.term;
        if current.leader != c {
          term := term + 1;
        }
        lease := Some(Lease(c, now + duration, term));
        return Granted(lease.value);
      }
      return Standby(current);
    }

    method Release(c: string, ghost now: int)
      requires Valid() && now >= Run(log).clock
      modifies this
      ensures Valid() && log == old(log) + [Shutdown(c, now)]
      ensures lease == AfterRelease(old(lease), c)
    {
      RunExtends(log, Shutdown(c, now));
      log := log + [Shutdown(c, now)];
      if lease.None? {
        return;
      }
      if lease.value.leader != c {
        return;
      }
      lease := None;
    }

    /** One tick of a manager: it reconciles exactly when it now holds the lease, and then nobody else does. */
    method ManagerTick(c: string, d: int, now: int) returns (reconciles: bool)
      requires Valid() && now >= Run(log).clock
      modifies this
      ensures Valid() && log == old(log) + [Tick(c, d, now)]
      ensures reconciles <==> !Text.IsBlank(c) && forall other | Holds(Run(old(log)), other, now) :: other == c
      ensures reconciles ==> Holds(Run(log), c, now) && forall other | Holds(Run(log), other, now) :: other == c
    {
      ghost var before := log;
      var r := TryAcquire(c, d, now);
      reconciles := r.Granted?;
      if reconciles {
        forall other | Holds(Run(log), other, now) ensures other == c {
          ReconcilesOnlyAsLeader(before, c, d, now, other);
        }
        ReconcilesOnlyAsLeader(before, c, d, now, c);
      }
    }
  }
}
