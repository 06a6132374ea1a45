/**
 * The roles a subject holds through its bindings and the bindings they inherit:
 * EffectiveRolesForSubject of internal/service/features.go.
 */
module Roles {
  import opened Sorting
  import Text

  datatype Binding = Binding(name: string, subject: string, roles: seq<string>, inherits: seq<string>)

  type Graph = map<string, Binding>

  /** Later bindings replace earlier ones of the same name. */
  function ByName(all: seq<Binding>): Graph {
    if all == [] then map[] else ByName(all[..|all| - 1])[all[|all| - 1].name := all[|all| - 1]]
  }

  predicate Names(all: seq<Binding>, name: string) {
    exists b | b in all :: b.name == name
  }

  /** A binding of the namespace hides every global binding of its name; the other globals stay visible. */
  lemma {:induction false} NamespaceShadowsGlobal(globals: seq<Binding>, scoped: seq<Binding>, name: string)
    ensures name in ByName(globals + scoped) <==> Names(globals, name) || Names(scoped, name)
    ensures Names(scoped, name) ==> name in ByName(scoped) && ByName(globals + scoped)[name] == ByName(scoped)[name]
    ensures !Names(scoped, name) && Names(globals, name) ==>
              name in ByName(globals) && ByName(globals + scoped)[name] == ByName(globals)[name]
  {
    if scoped != [] {
      var n := |scoped| - 1;
      NamespaceShadowsGlobal(globals, scoped[..n], name);
      assert (globals + scoped)[..|globals| + n] == globals + scoped[..n];
      assert scoped == scoped[..n] + [scoped[n]];
    } else {
      assert globals + scoped == globals;
      NamesInMap(globals, name);
    }
  }

  lemma {:induction false} NamesInMap(all: seq<Binding>, name: string)
    ensures name in ByName(all) <==> Names(all, name)
    ensures name in ByName(all) ==> ByName(all)[name] in all && ByName(all)[name].name == name
  {
    if all != [] {
      var n := |all| - 1;
      NamesInMap(all[..n], name);
      assert all == all[..n] + [all[n]];
    }
  }

  /** Among bindings of one name the last one listed counts. */
  lemma {:induction false} LastWins(all: seq<Binding>, k: nat)
    requires k < |all| && forall j | k < j < |all| :: all[j].name != all[k].name
    ensures all[k].name in ByName(all) && ByName(all)[all[k].name] == all[k]
  {
    var n := |all| - 1;
    if k < n {
      assert forall j | k < j < n :: all[..n][j].name != all[..n][k].name;
      LastWins(all[..n], k);
    }
  }

  // ----- the inheritance graph -----

  /** A chain of bindings, each inherited by the one before it. */
  ghost predicate Chain(g: Graph, p: seq<string>) {
    && p != []
    && (forall i | 0 <= i < |p| :: p[i] in g)
    && (forall i | 0 <= i < |p| - 1 :: p[i + 1] in g[p[i]].inherits)
  }

  ghost predicate ChainFrom(g: Graph, name: string, p: seq<string>) {
    Chain(g, p) && p[0] == name
  }

  ghost predicate Repeats(p: seq<string>) {
    exists i, j :: 0 <= i < j < |p| && p[i] == p[j]
  }

  /** Some chain from this name meets a binding twice. */
  ghost predicate Cyclic(g: Graph, name: string) {
    exists p :: ChainFrom(g, name, p) && Repeats(p)
  }

  /** The recursive visit of a name returns within n levels. */
  ghost predicate Halts(g: Graph, name: string, n: nat)
    decreases n
  {
    name in g ==> n > 0 && forall k | 0 <= k < |g[name].inherits| :: Halts(g, g[name].inherits[k], n - 1)
  }

  /** A visit that goes deeper than n levels walks a chain of that length. */
  lemma {:induction false} DeepVisitIsChain(g: Graph, name: string, n: nat) returns (p: seq<string>)
    requires !Halts(g, name, n)
    ensures ChainFrom(g, name, p) && |p| == n + 1
    decreases n
  {
    p := [name];
    if n > 0 {
      var k :| 0 <= k < |g[name].inherits| && !Halts(g, g[name].inherits[k], n - 1);
      var q := DeepVisitIsChain(g, g[name].inherits[k], n - 1);
      p := [name] + q;
    }
  }

  lemma {:induction false} Pigeonhole(p: seq<string>, keys: set<string>)
    requires |p| > |keys| && forall x | x in p :: x in keys
    ensures Repeats(p)
  {
    var last := p[|p| - 1];
    var rest := p[..|p| - 1];
    if last in rest {
      var i :| 0 <= i < |rest| && rest[i] == last;
      assert p[i] == p[|p| - 1];
    } else {
      assert forall x | x in rest :: x in keys - {last};
      Pigeonhole(rest, keys - {last});
      var i, j :| 0 <= i < j < |rest| && rest[i] == rest[j];
      assert p[i] == p[j];
    }
  }

  /** A visit that halts is at least as deep as every chain it walks. */
  lemma {:induction false} ChainsAreShort(g: Graph, p: seq<string>, n: nat)
    requires Chain(g, p) && Halts(g, p[0], n)
    ensures |p| <= n && Halts(g, p[|p| - 1], n - |p| + 1)
  {
    if |p| > 1 {
      assert p[1] in g[p[0]].inherits;
      var q := p[1..];
      assert forall i | 0 <= i < |q| :: q[i] == p[i + 1];
      ChainsAreShort(g, q, n - 1);
    }
  }

  /** A binding that reaches itself is never left. */
  lemma {:induction false} LoopsNeverHalt(g: Graph, p: seq<string>, n: nat)
    requires Chain(g, p) && |p| > 1 && p[0] == p[|p| - 1]
    ensures !Halts(g, p[0], n)
    decreases n
  {
    if Halts(g, p[0], n) {
      ChainsAreShort(g, p, n);
      LoopsNeverHalt(g, p, n - |p| + 1);
    }
  }

  lemma CyclesNeverHalt(g: Graph, name: string, n: nat)
    requires Cyclic(g, name)
    ensures !Halts(g, name, n)
  {
    var p :| ChainFrom(g, name, p) && Repeats(p);
    var i, j :| 0 <= i < j < |p| && p[i] == p[j];
    var loop, stem := p[i..j + 1], p[..i + 1];
    assert forall k | 0 <= k < |loop| :: loop[k] == p[i + k];
    assert Chain(g, loop) && Chain(g, stem);
    if Halts(g, name, n) {
      ChainsAreShort(g, stem, n);
      LoopsNeverHalt(g, loop, n - |stem| + 1);
    }
  }

  lemma AcyclicHalts(g: Graph, name: string)
    requires !Cyclic(g, name)
    ensures Halts(g, name, |g.Keys|)
  {
    if !Halts(g, name, |g.Keys|) {
      var p := DeepVisitIsChain(g, name, |g.Keys|);
      Pigeonhole(p, g.Keys);
    }
  }

  ghost predicate EndsWithin(g: Graph, name: string, n: nat) {
    Halts(g, name, n)
  }

  /** The recursion ends exactly when no chain from the name meets a binding twice. */
  lemma VisitEndsExactly(g: Graph, name: string)
    ensures (exists n: nat :: EndsWithin(g, name, n)) <==> !Cyclic(g, name)
  {
    if Cyclic(g, name) {
      forall n: nat ensures !EndsWithin(g, name, n) {
        CyclesNeverHalt(g, name, n);
      }
    } else {
      AcyclicHalts(g, name);
      assert EndsWithin(g, name, |g.Keys|);
    }
  }

  /** For instance, a binding that inherits itself. */
  lemma SelfInheritanceNeverEnds(b: Binding, n: nat)
    requires b.name in b.inherits
    ensures Cyclic(map[b.name := b], b.name) && !Halts(map[b.name := b], b.name, n)
  {
    var g := map[b.name := b];
    var p := [b.name, b.name];
    assert ChainFrom(g, b.name, p) && Repeats(p) by { assert p[0] == p[1]; }
    LoopsNeverHalt(g, p, n);
  }

  // ----- the roles -----

  /** A binding gives its roles that are not blank, trimmed and in lower case. */
  ghost predicate Gives(roles: seq<string>, role: string) {
    exists k | 0 <= k < |roles| :: Text.TrimSpace(roles[k]) != "" && Text.ToLower(Text.TrimSpace(roles[k])) == role
  }

  /** The reference definition: the role is given by a binding at the end of a chain from this name. */
  ghost predicate Grants(g: Graph, name: string, role: string) {
    exists p :: ChainFrom(g, name, p) && Gives(g[p[|p| - 1]].roles, role)
  }

  /** The first k inherited names grant the role. */
  ghost predicate SomeGrants(g: Graph, names: seq<string>, k: nat, role: string)
    requires k <= |names|
  {
    exists i | 0 <= i < k :: Grants(g, names[i], role)
  }

  lemma ChainGoesOn(g: Graph, name: string, role: string)
    requires name in g && Grants(g, name, role)
    ensures Gives(g[name].roles, role) || SomeGrants(g, g[name].inherits, |g[name].inherits|, role)
  {
    var names := g[name].inherits;
    var p :| ChainFrom(g, name, p) && Gives(g[p[|p| - 1]].roles, role);
    if |p| > 1 {
      var q := p[1..];
      assert forall i | 0 <= i < |q| :: q[i] == p[i + 1];
      assert p[1] in g[p[0]].inherits;
      var i :| 0 <= i < |names| && names[i] == p[1];
      assert ChainFrom(g, names[i], q);
    }
  }

  lemma ChainGrows(g: Graph, name: string, i: nat, role: string)
    requires name in g && i < |g[name].inherits| && Grants(g, g[name].inherits[i], role)
    ensures Grants(g, name, role)
  {
    var q :| ChainFrom(g, g[name].inherits[i], q) && Gives(g[q[|q| - 1]].roles, role);
    var p := [name] + q;
    assert p[|p| - 1] == q[|q| - 1];
    assert ChainFrom(g, name, p);
  }

  /** A chain either stops at its first binding or goes on from an inherited one. */
  lemma GrantsUnfolds(g: Graph, name: string, role: string)
    requires name in g
    ensures Grants(g, name, role) <==>
              Gives(g[name].roles, role) || SomeGrants(g, g[name].inherits, |g[name].inherits|, role)
  {
    if Grants(g, name, role) {
      ChainGoesOn(g, name, role);
    } else {
      assert !Gives(g[name].roles, role) by {
        assert ChainFrom(g, name, [name]);
      }
      forall i | 0 <= i < |g[name].inherits| ensures !Grants(g, g[name].inherits[i], role) {
        if Grants(g, g[name].inherits[i], role) {
          ChainGrows(g, name, i, role);
        }
      }
    }
  }

  lemma InheritedHalt(g: Graph, name: string, n: nat, i: nat)
    requires Halts(g, name, n) && name in g && i < |g[name].inherits|
    ensures n > 0 && Halts(g, g[name].inherits[i], n - 1)
  {
  }

  lemma SomeGrantsOneMore(g: Graph, names: seq<string>, i: nat, role: string)
    requires i < |names|
    ensures SomeGrants(g, names, i + 1, role) <==> SomeGrants(g, names, i, role) || Grants(g, names[i], role)
  {
  }

  /** The recursive closure `visit` and the role set it fills. */
  class Visitor {
    const byName: Graph
    var roleSet: set<string>

    constructor (byName: Graph)
      ensures this.byName == byName && roleSet == {}
    {
      this.byName := byName;
      roleSet := {};
    }

    method AddRoles(roles: seq<string>)
      modifies this
      ensures forall r :: r in roleSet <==> r in old(roleSet) || Gives(roles, r)
    {
      for i := 0 to |roles|
        invariant forall r :: r in roleSet <==> r in old(roleSet) || Gives(roles[..i], r)
      {
        ghost var was := roleSet;
        if Text.TrimSpace(roles[i]) != "" {
          roleSet := roleSet + {Text.ToLower(Text.TrimSpace(roles[i]))};
        }
        forall r ensures Gives(roles[..i + 1], r) <==> Gives(roles[..i], r) || (Text.TrimSpace(roles[i]) != "" && Text.ToLower(Text.TrimSpace(roles[i])) == r) {
          GivesOneMore(roles, i, r);
        }
      }
      assert roles[..|roles|] == roles;
    }

    /** Adds the roles granted by a name: the union over every chain from it, and nothing else. */
    method Visit(name: string, ghost depth: nat)
      requires Halts(byName, name, depth)
      modifies this
      ensures forall r :: r in roleSet <==> r in old(roleSet) || Grants(byName, name, r)
      decreases depth
    {
      if name !in byName {
        return;
      }
      var rb := byName[name];
      AddRoles(rb.roles);
      for i := 0 to |rb.inherits|
        invariant forall r :: r in roleSet <==>
                    r in old(roleSet) || Gives(rb.roles, r) || SomeGrants(byName, rb.inherits, i, r)
      {
        InheritedHalt(byName, name, depth, i);
        Visit(rb.inherits[i], depth - 1);
        forall r ensures SomeGrants(byName, rb.inherits, i + 1, r) <==>
                           SomeGrants(byName, rb.inherits, i, r) || Grants(byName, rb.inherits[i], r) {
          SomeGrantsOneMore(byName, rb.inherits, i, r);
        }
      }
      forall r ensures Grants(byName, name, r) <==>
                         Gives(rb.roles, r) || SomeGrants(byName, rb.inherits, |rb.inherits|, r) {
        GrantsUnfolds(byName, name, r);
      }
    }
  }

  lemma GivesOneMore(roles: seq<string>, i: nat, r: string)
    requires i < |roles|
    ensures Gives(roles[..i + 1], r) <==> Gives(roles[..i], r) || (Text.TrimSpace(roles[i]) != "" && Text.ToLower(Text.TrimSpace(roles[i])) == r)
  {
    if Gives(roles[..i], r) {
      var k :| 0 <= k < i && Text.TrimSpace(roles[..i][k]) != "" && Text.ToLower(Text.TrimSpace(roles[..i][k])) == r;
      assert roles[..i + 1][k] == roles[..i][k];
    }
    if Text.TrimSpace(roles[i]) != "" && Text.ToLower(Text.TrimSpace(roles[i])) == r {
      assert roles[..i + 1][i] == roles[i];
    }
    if Gives(roles[..i + 1], r) {
      var k :| 0 <= k < i + 1 && Text.TrimSpace(roles[..i + 1][k]) != "" && Text.ToLower(Text.TrimSpace(roles[..i + 1][k])) == r;
      assert k < i ==> roles[..i][k] == roles[..i + 1][k];
    }
  }

  // ----- the whole query -----

  predicate ForSubject(b: Binding, subject: string) {
    Text.EqualFold(Text.TrimSpace(b.subject), Text.TrimSpace(subject))
  }

  /** The bindings in view: the global ones, and those of the namespace when one is named. */
  function InView(globals: seq<Binding>, namespace: string, scoped: seq<Binding>): seq<Binding> {
    if Text.IsBlank(namespace) then globals else globals + scoped
  }

  /** The bindings a name can lead to: those of the namespace, when one is named, before the global ones. */
  function View(globals: seq<Binding>, namespace: string, scoped: seq<Binding>): Graph {
    ByName(globals) + if Text.TrimSpace(namespace) == "" then map[] else ByName(scoped)
  }

  lemma ViewIsByName(globals: seq<Binding>, namespace: string, scoped: seq<Binding>)
    ensures ByName(InView(globals, namespace, scoped)) == View(globals, namespace, scoped)
  {
    var g, v := ByName(InView(globals, namespace, scoped)), View(globals, namespace, scoped);
    if !Text.IsBlank(namespace) {
      forall name ensures (name in g <==> name in v) && (name in g ==> g[name] == v[name]) {
        NamespaceShadowsGlobal(globals, scoped, name);
        NamesInMap(globals, name);
        NamesInMap(scoped, name);
      }
    }
  }

  /** A name that is bound in the namespace grants what that binding gives and what it inherits, and nothing of a global one. */
  lemma NamespaceDecides(globals: seq<Binding>, namespace: string, scoped: seq<Binding>, k: nat, role: string)
    requires !Text.IsBlank(namespace) && k < |scoped| && forall j | k < j < |scoped| :: scoped[j].name != scoped[k].name
    ensures var b, v := scoped[k], View(globals, namespace, scoped);
            Grants(v, b.name, role) <==> Gives(b.roles, role) || exists i | 0 <= i < |b.inherits| :: Grants(v, b.inherits[i], role)
  {
    LastWins(scoped, k);
    GrantsUnfolds(View(globals, namespace, scoped), scoped[k].name, role);
  }

  /** One of the subject's bindings in view grants the role. */
  ghost predicate Holds(globals: seq<Binding>, namespace: string, scoped: seq<Binding>, subject: string, role: string) {
    exists b | b in globals || (Text.TrimSpace(namespace) != "" && b in scoped) ::
      && Text.ToLower(Text.TrimSpace(b.subject)) == Text.ToLower(Text.TrimSpace(subject))
      && Grants(View(globals, namespace, scoped), b.name, role)
  }

  /** The subject has the role through the name of one of the first k bindings. */
  ghost predicate SubjectHas(all: seq<Binding>, k: nat, subject: string, role: string)
    requires k <= |all|
  {
    exists i | 0 <= i < k :: ForSubject(all[i], subject) && Grants(ByName(all), all[i].name, role)
  }

  lemma HoldsExactly(globals: seq<Binding>, namespace: string, scoped: seq<Binding>, subject: string, role: string)
    ensures var all := InView(globals, namespace, scoped);
            SubjectHas(all, |all|, subject, role) <==> Holds(globals, namespace, scoped, subject, role)
  {
    var all := InView(globals, namespace, scoped);
    ViewIsByName(globals, namespace, scoped);
    if Holds(globals, namespace, scoped, subject, role) {
      var b :| && (b in globals || (Text.TrimSpace(namespace) != "" && b in scoped))
               && Text.ToLower(Text.TrimSpace(b.subject)) == Text.ToLower(Text.TrimSpace(subject))
               && Grants(View(globals, namespace, scoped), b.name, role);
      assert b in all;
      var i :| 0 <= i < |all| && all[i] == b;
    }
  }

  method Index(all: seq<Binding>) returns (byName: Graph)
    ensures byName == ByName(all)
  {
    byName := map[];
    for i := 0 to |all|
      invariant byName == ByName(all[..i])
    {
      byName := byName[all[i].name := all[i]];
      assert all[..i + 1][..i] == all[..i];
    }
    assert all[..|all|] == all;
  }

  lemma SubjectHasOneMore(all: seq<Binding>, i: nat, subject: string, r: string)
    requires i < |all|
    ensures SubjectHas(all, i + 1, subject, r) <==>
              SubjectHas(all, i, subject, r) || (ForSubject(all[i], subject) && Grants(ByName(all), all[i].name, r))
  {
  }

  method Collect(all: seq<Binding>, subject: string) returns (roles: set<string>)
    requires forall b | b in all && ForSubject(b, subject) :: !Cyclic(ByName(all), b.name)
    ensures forall r :: r in roles <==> SubjectHas(all, |all|, subject, r)
  {
    var byName := Index(all);
    var v := new Visitor(byName);
    for i := 0 to |all|
      invariant v.byName == byName && fresh(v)
      invariant forall r :: r in v.roleSet <==> SubjectHas(all, i, subject, r)
    {
      VisitIfSubject(v, all, i, subject);
    }
    roles := v.roleSet;
  }

  method VisitIfSubject(v: Visitor, all: seq<Binding>, i: nat, subject: string)
    requires i < |all| && v.byName == ByName(all)
    requires ForSubject(all[i], subject) ==> !Cyclic(ByName(all), all[i].name)
    requires forall r :: r in v.roleSet <==> SubjectHas(all, i, subject, r)
    modifies v
    ensures forall r :: r in v.roleSet <==> SubjectHas(all, i + 1, subject, r)
  {
    if Text.EqualFold(Text.TrimSpace(all[i].subject), Text.TrimSpace(subject)) {
      AcyclicHalts(v.byName, all[i].name);
      v.Visit(all[i].name, |v.byName.Keys|);
    }
    forall r ensures r in v.roleSet <==> SubjectHas(all, i + 1, subject, r) {
      SubjectHasOneMore(all, i, subject, r);
    }
  }

  method SortedList(roles: set<string>) returns (out: seq<string>)
    ensures StrictlySorted(out)
    ensures forall r :: r in out <==> r in roles
  {
    var rest := roles;
    var list := [];
    while rest != {}
      invariant rest <= roles && Distinct(list)
      invariant forall r :: r in list <==> r in roles - rest
      decreases |rest|
    {
      var r :| r in rest;
      assert r !in list;
      list, rest := list + [r], rest - {r};
    }
    out := StableSort(list, Before);
    SortedListIsStrict(list);
    SortElements(list, Before);
  }

  /**
   * EffectiveRolesForSubject, for every input on which its recursion ends: the strictly sorted list of exactly
   * the roles granted along chains from the names of the subject's bindings.
   */
  method EffectiveRoles(globals: seq<Binding>, namespace: string, scoped: seq<Binding>, subject: string)
    returns (out: seq<string>)
    requires var all := InView(globals, namespace, scoped);
             forall b | b in all && ForSubject(b, subject) :: !Cyclic(ByName(all), b.name)
    ensures StrictlySorted(out)
    ensures var all := InView(globals, namespace, scoped);
            forall r :: r in out <==> SubjectHas(all, |all|, subject, r)
    ensures forall r :: r in out <==> Holds(globals, namespace, scoped, subject, r)
  {
    var all := globals;
    if Text.TrimSpace(namespace) != "" {
      all := all + scoped;
    }
    var roles := Collect(all, subject);
    out := SortedList(roles);
    forall r ensures r in out <==> Holds(globals, namespace, scoped, subject, r) {
      HoldsExactly(globals, namespace, scoped, subject, r);
    }
  }
}
