/** Binding persistent volume claims to volumes: reconcilePVCBindings of internal/service/features.go. */
module Claims {
  import opened Tables
  import Sorting
  import Text

  datatype VolumePhase = Available | Bound | Released

  datatype ClaimPhase = Pending | Bound | Lost

  /** Stored under its name. */
  datatype Volume = Volume(
    capacityMB: int, storageClass: string, accessMode: string,
    claimNamespace: string, claimName: string, phase: VolumePhase)

  datatype Claim = Claim(
    namespace: string, name: string, requested: int, storageClass: string, accessMode: string,
    volumeName: string, phase: ClaimPhase)

  type Volumes = seq<Entry<Volume>>

  type ClaimTable = seq<Entry<Claim>>

  function Prefix(namespace: string): string {
    namespace + ":"
  }

  function Key(c: Claim): string {
    Prefix(c.namespace) + c.name
  }

  predicate NeedsVolume(c: Claim) {
    !(c.phase.Bound? && !Text.IsBlank(c.volumeName))
  }

  /** Two attributes clash when both are set and differ. */
  predicate Clash(a: string, b: string) {
    !Text.IsBlank(a) && !Text.IsBlank(b) && a != b
  }

  predicate Suits(v: Volume, c: Claim) {
    && v.phase.Available?
    && v.capacityMB >= c.requested
    && !Clash(c.storageClass, v.storageClass)
    && !Clash(c.accessMode, v.accessMode)
  }

  predicate Smaller(a: Entry<Volume>, b: Entry<Volume>) {
    a.rec.capacityMB < b.rec.capacityMB
  }

  /** The volumes as the pass sorts them, once, at its start. */
  function BySize(volumes: Volumes): Volumes {
    Sorting.StableSort(volumes, Smaller)
  }

  function FirstSuiting(sorted: Volumes, c: Claim): Option<Entry<Volume>> {
    if sorted == [] then None
    else if Suits(sorted[0].rec, c) then Some(sorted[0])
    else FirstSuiting(sorted[1..], c)
  }

  /** The volume a claim takes in a pass over these volumes. */
  function Choice(sorted: Volumes, c: Claim): Option<Entry<Volume>> {
    if NeedsVolume(c) then FirstSuiting(sorted, c) else None
  }

  function Taken(v: Volume, c: Claim): Volume {
    v.(phase := VolumePhase.Bound, claimNamespace := c.namespace, claimName := c.name)
  }

  function Served(c: Claim, volume: string): Claim {
    c.(volumeName := volume, phase := ClaimPhase.Bound)
  }

  datatype Storage = Storage(volumes: Volumes, claims: ClaimTable)

  function Visit(s: Storage, sorted: Volumes, c: Claim): Storage {
    match Choice(sorted, c)
    case None => s
    case Some(v) => Storage(Put(s.volumes, v.id, Taken(v.rec, c)), Put(s.claims, Key(c), Served(c, v.id)))
  }

  /** Claims are visited from the copies listed at the start, and so are the volumes. */
  function Pass(s: Storage, sorted: Volumes, visits: seq<Claim>): Storage {
    if visits == [] then s
    else Visit(Pass(s, sorted, visits[..|visits| - 1]), sorted, visits[|visits| - 1])
  }

  // ----- best fit -----

  /** Smaller capacity first, then the order of the store. */
  predicate Preferred(a: Entry<Volume>, b: Entry<Volume>) {
    a.rec.capacityMB < b.rec.capacityMB || (a.rec.capacityMB == b.rec.capacityMB && Text.Less(a.id, b.id))
  }

  ghost predicate InPreference(s: Volumes) {
    forall i, j | 0 <= i < j < |s| :: Preferred(s[i], s[j])
  }

  lemma {:induction false} InsertInPreference(x: Entry<Volume>, s: Volumes)
    requires InPreference(s) && forall e | e in s :: Text.Less(x.id, e.id)
    ensures InPreference(Sorting.Insert(x, s, Smaller))
    ensures forall e | e in Sorting.Insert(x, s, Smaller) :: e == x || e in s
  {
    if s != [] {
      if Smaller(s[0], x) {
        InsertInPreference(x, s[1..]);
        var t := Sorting.Insert(x, s[1..], Smaller);
        forall j | 0 <= j < |t| ensures Preferred(s[0], t[j]) {
          assert t[j] == x || t[j] in s[1..];
        }
      } else {
        forall j | 0 <= j < |s| ensures Preferred(x, s[j]) {
          assert s[j] in s;
          assert j > 0 ==> Preferred(s[0], s[j]);
        }
      }
    }
  }

  /** A stable sort of the store's order by capacity leaves equals in the order of their names. */
  lemma {:induction false} SizeOrder(volumes: Volumes)
    requires Ordered(volumes)
    ensures InPreference(BySize(volumes))
    ensures forall e | e in BySize(volumes) :: e in volumes
  {
    if volumes != [] {
      SizeOrder(volumes[1..]);
      HeadBelow(volumes);
      InsertInPreference(volumes[0], BySize(volumes[1..]));
    }
  }

  lemma {:induction false} FirstSuitingIsPreferred(sorted: Volumes, c: Claim)
    requires InPreference(sorted)
    ensures FirstSuiting(sorted, c).None? ==> forall e | e in sorted :: !Suits(e.rec, c)
    ensures FirstSuiting(sorted, c).Some? ==>
              var v := FirstSuiting(sorted, c).value;
              v in sorted && Suits(v.rec, c) && forall e | e in sorted && Suits(e.rec, c) :: e == v || Preferred(v, e)
  {
    if sorted != [] && !Suits(sorted[0].rec, c) {
      FirstSuitingIsPreferred(sorted[1..], c);
    }
  }

  /** The volume is free and large enough, and class and mode agree wherever both name one. */
  predicate Serves(v: Volume, c: Claim) {
    && v.phase == Available && c.requested <= v.capacityMB
    && (Text.TrimSpace(c.storageClass) == "" || Text.TrimSpace(v.storageClass) == "" || v.storageClass == c.storageClass)
    && (Text.TrimSpace(c.accessMode) == "" || Text.TrimSpace(v.accessMode) == "" || v.accessMode == c.accessMode)
  }

  /** Best fit: the smallest volume that suits, the first by name among equals; none only when no volume suits. */
  lemma ChoiceIsBestFit(volumes: Volumes, c: Claim)
    requires Ordered(volumes)
    ensures Choice(BySize(volumes), c).None? <==>
              || (c.phase == ClaimPhase.Bound && Text.TrimSpace(c.volumeName) != "")
              || forall e | e in volumes :: !Serves(e.rec, c)
    ensures Choice(BySize(volumes), c).Some? ==>
              var v := Choice(BySize(volumes), c).value;
              v in volumes && Serves(v.rec, c) && forall e | e in volumes && Serves(e.rec, c) :: e == v || Preferred(v, e)
  {
    SizeOrder(volumes);
    Sorting.SortElements(volumes, Smaller);
    FirstSuitingIsPreferred(BySize(volumes), c);
  }

  // ----- the outcome of a pass -----

  ghost predicate Keyed(claims: ClaimTable) {
    Ordered(claims) && forall e | e in claims :: e.id == Key(e.rec)
  }

  ghost predicate CopiesOf(visits: seq<Claim>, claims: ClaimTable) {
    forall k | 0 <= k < |visits| :: Get(claims, Key(visits[k])) == Some(visits[k])
  }

  predicate Chooses(sorted: Volumes, c: Claim, volume: string) {
    Choice(sorted, c).Some? && Choice(sorted, c).value.id == volume
  }

  /** The last visited claim that chooses a volume. */
  function LastChooser(sorted: Volumes, visits: seq<Claim>, volume: string): Option<Claim> {
    if visits == [] then None
    else
      var c := visits[|visits| - 1];
      if Chooses(sorted, c, volume) then Some(c) else LastChooser(sorted, visits[..|visits| - 1], volume)
  }

  lemma ChoiceIsStored(volumes: Volumes, c: Claim)
    requires Ordered(volumes) && Choice(BySize(volumes), c).Some?
    ensures var v := Choice(BySize(volumes), c).value; Get(volumes, v.id) == Some(v.rec) && v.rec.phase.Available?
  {
    ChoiceIsBestFit(volumes, c);
    GetEntry(volumes, Choice(BySize(volumes), c).value);
  }

  /** Each volume ends with the last claim that chose it, and is untouched when none did. */
  lemma {:induction false} VolumesAfterPass(s: Storage, visits: seq<Claim>, volume: string)
    requires Ordered(s.volumes)
    ensures Ordered(Pass(s, BySize(s.volumes), visits).volumes)
    ensures Get(Pass(s, BySize(s.volumes), visits).volumes, volume) ==
              match LastChooser(BySize(s.volumes), visits, volume)
              case None => Get(s.volumes, volume)
              case Some(c) =>
                match Get(s.volumes, volume)
                case None => None
                case Some(v) => Some(Taken(v, c))
  {
    if visits != [] {
      var n, sorted := |visits| - 1, BySize(s.volumes);
      VolumesAfterPass(s, visits[..n], volume);
      if Choice(sorted, visits[n]).Some? {
        var v, t := Choice(sorted, visits[n]).value, Pass(s, sorted, visits[..n]);
        ChoiceIsStored(s.volumes, visits[n]);
        PutOrdered(t.volumes, v.id, Taken(v.rec, visits[n]));
        GetPut(t.volumes, v.id, Taken(v.rec, visits[n]), volume);
      }
    }
  }

  predicate Visited(visits: seq<Claim>, key: string) {
    exists k | 0 <= k < |visits| :: Key(visits[k]) == key
  }

  /** Each visited claim that needs a volume ends with its choice; every other claim is untouched. */
  lemma {:induction false} ClaimsAfterPass(s: Storage, sorted: Volumes, visits: seq<Claim>, key: string)
    requires CopiesOf(visits, s.claims)
    ensures Get(Pass(s, sorted, visits).claims, key) ==
              match Get(s.claims, key)
              case None => None
              case Some(c) =>
                if Visited(visits, key) && Choice(sorted, c).Some? then Some(Served(c, Choice(sorted, c).value.id)) else Some(c)
  {
    if visits != [] {
      var n := |visits| - 1;
      ClaimsAfterPass(s, sorted, visits[..n], key);
      assert Visited(visits, key) <==> Visited(visits[..n], key) || Key(visits[n]) == key by {
        assert forall k | 0 <= k < n :: visits[..n][k] == visits[k];
      }
      assert Get(s.claims, Key(visits[n])) == Some(visits[n]);
      if Choice(sorted, visits[n]).Some? {
        GetPut(Pass(s, sorted, visits[..n]).claims, Key(visits[n]), Served(visits[n], Choice(sorted, visits[n]).value.id), key);
      }
    }
  }

  /** Bound claims and volumes that are not available are left alone. */
  lemma SettledIsUntouched(s: Storage, visits: seq<Claim>, key: string, volume: string)
    requires Ordered(s.volumes) && CopiesOf(visits, s.claims)
    ensures Get(s.claims, key).Some? && !NeedsVolume(Get(s.claims, key).value) ==>
              Get(Pass(s, BySize(s.volumes), visits).claims, key) == Get(s.claims, key)
    ensures Get(s.volumes, volume).Some? && !Get(s.volumes, volume).value.phase.Available? ==>
              Get(Pass(s, BySize(s.volumes), visits).volumes, volume) == Get(s.volumes, volume)
  {
    ClaimsAfterPass(s, BySize(s.volumes), visits, key);
    VolumesAfterPass(s, visits, volume);
    LastChooserChooses(BySize(s.volumes), visits, volume);
    if LastChooser(BySize(s.volumes), visits, volume).Some? {
      ChoiceIsStored(s.volumes, LastChooser(BySize(s.volumes), visits, volume).value);
    }
  }

  lemma {:induction false} LastChooserChooses(sorted: Volumes, visits: seq<Claim>, volume: string)
    ensures var c := LastChooser(sorted, visits, volume);
            && (c.Some? ==> c.value in visits && Chooses(sorted, c.value, volume))
            && (c.None? ==> forall d | d in visits :: !Chooses(sorted, d, volume))
  {
    if visits != [] {
      var n := |visits| - 1;
      LastChooserChooses(sorted, visits[..n], volume);
      assert visits == visits[..n] + [visits[n]];
    }
  }

  // ----- the duplicated visit of the default namespace -----

  lemma {:induction false} LastChooserOfConcat(sorted: Volumes, a: seq<Claim>, b: seq<Claim>, volume: string)
    ensures LastChooser(sorted, a + b, volume) ==
              if LastChooser(sorted, b, volume).Some? then LastChooser(sorted, b, volume) else LastChooser(sorted, a, volume)
  {
    if b == [] {
      assert a + b == a;
    } else {
      var n := |b| - 1;
      assert (a + b)[..|a| + n] == a + b[..n];
      LastChooserOfConcat(sorted, a, b[..n], volume);
    }
  }

  /** Two visiting orders leave the same records. */
  ghost predicate SameOutcome(s: Storage, xs: seq<Claim>, ys: seq<Claim>) {
    var sorted := BySize(s.volumes);
    && (forall volume :: Get(Pass(s, sorted, xs).volumes, volume) == Get(Pass(s, sorted, ys).volumes, volume))
    && (forall key :: Get(Pass(s, sorted, xs).claims, key) == Get(Pass(s, sorted, ys).claims, key))
  }

  lemma ConcatIsCopies(a: seq<Claim>, b: seq<Claim>, claims: ClaimTable)
    requires CopiesOf(a, claims) && CopiesOf(b, claims)
    ensures CopiesOf(a + b, claims)
    ensures forall key :: Visited(a + b, key) <==> Visited(a, key) || Visited(b, key)
  {
    forall key ensures Visited(a + b, key) <==> Visited(a, key) || Visited(b, key) {
      if Visited(a, key) {
        var k :| 0 <= k < |a| && Key(a[k]) == key;
        assert Key((a + b)[k]) == key;
      }
      if Visited(b, key) {
        var k :| 0 <= k < |b| && Key(b[k]) == key;
        assert Key((a + b)[|a| + k]) == key;
      }
    }
  }

  /** The claims' own records depend only on which claims are visited. */
  lemma ClaimsIgnoreOrder(s: Storage, xs: seq<Claim>, ys: seq<Claim>)
    requires CopiesOf(xs, s.claims) && CopiesOf(ys, s.claims)
    requires forall key :: Visited(xs, key) <==> Visited(ys, key)
    ensures var sorted := BySize(s.volumes);
            forall key :: Get(Pass(s, sorted, xs).claims, key) == Get(Pass(s, sorted, ys).claims, key)
  {
    var sorted := BySize(s.volumes);
    forall key ensures Get(Pass(s, sorted, xs).claims, key) == Get(Pass(s, sorted, ys).claims, key) {
      ClaimsAfterPass(s, sorted, xs, key);
      ClaimsAfterPass(s, sorted, ys, key);
    }
  }

  /** With the default claims A listed first and again between B and C, the first of the two visits never matters. */
  lemma FirstVisitIsRedundant(s: Storage, a: seq<Claim>, b: seq<Claim>, c: seq<Claim>)
    requires Ordered(s.volumes) && CopiesOf(a, s.claims) && CopiesOf(b, s.claims) && CopiesOf(c, s.claims)
    ensures SameOutcome(s, a + (b + (a + c)), b + (a + c))
  {
    ConcatIsCopies(a, c, s.claims);
    ConcatIsCopies(b, a + c, s.claims);
    ConcatIsCopies(a, b + (a + c), s.claims);
    ClaimsIgnoreOrder(s, a + (b + (a + c)), b + (a + c));
    var sorted := BySize(s.volumes);
    forall volume ensures
        Get(Pass(s, sorted, a + (b + (a + c))).volumes, volume) == Get(Pass(s, sorted, b + (a + c)).volumes, volume) {
      VolumesAfterPass(s, a + (b + (a + c)), volume);
      VolumesAfterPass(s, b + (a + c), volume);
      LastChooserOfConcat(sorted, a, c, volume);
      LastChooserOfConcat(sorted, b, a + c, volume);
      LastChooserOfConcat(sorted, a, b + (a + c), volume);
    }
  }

  /** A volume chosen from A and from B, and not from C: the second visit of A takes it back from B. */
  ghost predicate TakenBack(s: Storage, a: seq<Claim>, b: seq<Claim>, c: seq<Claim>, volume: string) {
    var sorted := BySize(s.volumes);
    && LastChooser(sorted, a, volume).Some?
    && LastChooser(sorted, b, volume).Some?
    && LastChooser(sorted, c, volume).None?
  }

  ghost predicate DifferentClaims(a: seq<Claim>, b: seq<Claim>) {
    forall x, y | x in a && y in b :: x.namespace != y.namespace || x.name != y.name
  }

  lemma VolumeAgreesExactly(s: Storage, a: seq<Claim>, b: seq<Claim>, c: seq<Claim>, volume: string)
    requires Ordered(s.volumes) && DifferentClaims(a, b)
    ensures var sorted := BySize(s.volumes);
            Get(Pass(s, sorted, a + (b + (a + c))).volumes, volume) == Get(Pass(s, sorted, a + (b + c)).volumes, volume)
            <==> !TakenBack(s, a, b, c, volume)
  {
    var sorted := BySize(s.volumes);
    VolumesAfterPass(s, a + (b + (a + c)), volume);
    VolumesAfterPass(s, a + (b + c), volume);
    LastChooserOfConcat(sorted, a, c, volume);
    LastChooserOfConcat(sorted, b, a + c, volume);
    LastChooserOfConcat(sorted, a, b + (a + c), volume);
    LastChooserOfConcat(sorted, b, c, volume);
    LastChooserOfConcat(sorted, a, b + c, volume);
    LastChooserChooses(sorted, a, volume);
    LastChooserChooses(sorted, b, volume);
    if LastChooser(sorted, a, volume).Some? {
      ChoiceIsStored(s.volumes, LastChooser(sorted, a, volume).value);
    }
  }

  /** The second visit changes nothing exactly when no volume is chosen from A and from B and not from C. */
  lemma SecondVisitMattersExactly(s: Storage, a: seq<Claim>, b: seq<Claim>, c: seq<Claim>)
    requires Ordered(s.volumes) && DifferentClaims(a, b)
    requires CopiesOf(a, s.claims) && CopiesOf(b, s.claims) && CopiesOf(c, s.claims)
    ensures SameOutcome(s, a + (b + (a + c)), a + (b + c)) <==> forall volume :: !TakenBack(s, a, b, c, volume)
  {
    ConcatIsCopies(a, c, s.claims);
    ConcatIsCopies(b, a + c, s.claims);
    ConcatIsCopies(a, b + (a + c), s.claims);
    ConcatIsCopies(b, c, s.claims);
    ConcatIsCopies(a, b + c, s.claims);
    ClaimsIgnoreOrder(s, a + (b + (a + c)), a + (b + c));
    forall volume {
      VolumeAgreesExactly(s, a, b, c, volume);
    }
  }

  // ----- the listing of a pass -----

  function ListIn(claims: ClaimTable, namespace: string): seq<Claim> {
    Recs(WithPrefix(claims, Prefix(namespace)))
  }

  /** The default namespace first, then every stored namespace, the default one included. */
  function Visits(claims: ClaimTable, namespaces: seq<string>): seq<Claim> {
    if namespaces == [] then ListIn(claims, "default")
    else Visits(claims, namespaces[..|namespaces| - 1]) + ListIn(claims, namespaces[|namespaces| - 1])
  }

  lemma ListInIsCopies(claims: ClaimTable, namespace: string)
    requires Keyed(claims)
    ensures CopiesOf(ListIn(claims, namespace), claims)
  {
    var t := WithPrefix(claims, Prefix(namespace));
    RecsAt(t);
    WithPrefixMembers(claims, Prefix(namespace));
    forall k | 0 <= k < |t| ensures Get(claims, Key(t[k].rec)) == Some(t[k].rec) {
      assert t[k] in claims;
      GetEntry(claims, t[k]);
    }
  }

  lemma {:induction false} VisitsAreCopies(claims: ClaimTable, namespaces: seq<string>)
    requires Keyed(claims)
    ensures CopiesOf(Visits(claims, namespaces), claims)
  {
    if namespaces == [] {
      ListInIsCopies(claims, "default");
    } else {
      VisitsAreCopies(claims, namespaces[..|namespaces| - 1]);
      ListInIsCopies(claims, namespaces[|namespaces| - 1]);
    }
  }

  /** The listings of some namespaces, one after the other. */
  function ListEach(claims: ClaimTable, namespaces: seq<string>): seq<Claim> {
    if namespaces == [] then []
    else ListEach(claims, namespaces[..|namespaces| - 1]) + ListIn(claims, namespaces[|namespaces| - 1])
  }

  lemma {:induction false} VisitsListEach(claims: ClaimTable, namespaces: seq<string>)
    ensures Visits(claims, namespaces) == ListIn(claims, "default") + ListEach(claims, namespaces)
  {
    if namespaces == [] {
      assert ListIn(claims, "default") + [] == ListIn(claims, "default");
    } else {
      VisitsListEach(claims, namespaces[..|namespaces| - 1]);
    }
  }

  lemma JoinThree(p: seq<Claim>, q: seq<Claim>, r: seq<Claim>)
    ensures (p + q) + r == p + (q + r)
  {
  }

  lemma ListEachSnoc(claims: ClaimTable, x: seq<string>, namespace: string)
    ensures ListEach(claims, x + [namespace]) == ListEach(claims, x) + ListIn(claims, namespace)
  {
    assert (x + [namespace])[..|x|] == x;
  }

  lemma {:induction false} ListEachConcat(claims: ClaimTable, x: seq<string>, y: seq<string>)
    ensures ListEach(claims, x + y) == ListEach(claims, x) + ListEach(claims, y)
  {
    if y == [] {
      assert x + y == x;
    } else {
      var n := |y| - 1;
      assert x + y == (x + y[..n]) + [y[n]] && y == y[..n] + [y[n]];
      ListEachSnoc(claims, x + y[..n], y[n]);
      ListEachSnoc(claims, y[..n], y[n]);
      ListEachConcat(claims, x, y[..n]);
      JoinThree(ListEach(claims, x), ListEach(claims, y[..n]), ListIn(claims, y[n]));
    }
  }

  lemma {:induction false} ListEachIsCopies(claims: ClaimTable, namespaces: seq<string>)
    requires Keyed(claims)
    ensures CopiesOf(ListEach(claims, namespaces), claims)
  {
    if namespaces != [] {
      ListEachIsCopies(claims, namespaces[..|namespaces| - 1]);
      ListInIsCopies(claims, namespaces[|namespaces| - 1]);
    }
  }

  /** With the default namespace stored between others, its claims are visited first and again in its place. */
  lemma DefaultIsVisitedTwice(claims: ClaimTable, earlier: seq<string>, later: seq<string>)
    ensures var a, b, c := ListIn(claims, "default"), ListEach(claims, earlier), ListEach(claims, later);
            && Visits(claims, earlier + (["default"] + later)) == a + (b + (a + c))
            && Visits(claims, earlier + later) == a + (b + c)
  {
    VisitsListEach(claims, earlier + (["default"] + later));
    ListEachConcat(claims, earlier, ["default"] + later);
    ListEachConcat(claims, ["default"], later);
    ListEachOne(claims, "default");
    VisitsListEach(claims, earlier + later);
    ListEachConcat(claims, earlier, later);
  }

  lemma ListEachOne(claims: ClaimTable, namespace: string)
    ensures ListEach(claims, [namespace]) == ListIn(claims, namespace)
  {
    assert [namespace][..0] == [] && ListEach(claims, []) == [];
    assert [] + ListIn(claims, namespace) == ListIn(claims, namespace);
  }

  /** A key of a namespace listed before the default one is not a key of the default one, colons or not. */
  lemma NamespaceEndsKey(k: string, n: string)
    requires Text.Less(n, "default") && Text.HasPrefix(k, Prefix(n))
    ensures !Text.HasPrefix(k, Prefix("default"))
  {
    if Text.HasPrefix(k, Prefix("default")) {
      assert forall i | 0 <= i < |n| :: k[i] == Prefix(n)[i] == n[i];
      assert forall i | 0 <= i < 7 :: k[i] == Prefix("default")[i] == "default"[i];
      assert k[|n|] == Prefix(n)[|n|] == ':';
      if |n| >= 7 {
        assert Text.HasPrefix(n, "default");
        Text.PrefixNotBelow("default", n);
      }
    }
  }

  lemma ListedKey(claims: ClaimTable, namespace: string, x: Claim)
    requires Keyed(claims) && x in ListIn(claims, namespace)
    ensures Text.HasPrefix(Key(x), Prefix(namespace))
  {
    var t := WithPrefix(claims, Prefix(namespace));
    RecsAt(t);
    WithPrefixMembers(claims, Prefix(namespace));
    var i :| 0 <= i < |t| && Recs(t)[i] == x;
    assert t[i] in t;
  }

  /** Listed in key order, these come before the default namespace. */
  predicate BeforeDefault(namespaces: seq<string>) {
    forall i | 0 <= i < |namespaces| :: Text.Less(namespaces[i], "default")
  }

  lemma {:induction false} OthersDiffer(claims: ClaimTable, namespaces: seq<string>, x: Claim, y: Claim)
    requires Keyed(claims) && BeforeDefault(namespaces) && x in ListIn(claims, "default") && y in ListEach(claims, namespaces)
    ensures x.namespace != y.namespace || x.name != y.name
  {
    var n := |namespaces| - 1;
    if y in ListEach(claims, namespaces[..n]) {
      OthersDiffer(claims, namespaces[..n], x, y);
    } else {
      ListedKey(claims, "default", x);
      ListedKey(claims, namespaces[n], y);
      NamespaceEndsKey(Key(y), namespaces[n]);
    }
  }

  /**
   * For the listing of the code, with the default namespace stored after `earlier` and before `later`: its first visit
   * never matters, and its second changes nothing exactly when no volume is chosen from it and from an earlier
   * namespace and not from a later one.
   */
  lemma DuplicateVisitExactly(s: Storage, earlier: seq<string>, later: seq<string>)
    requires Ordered(s.volumes) && Keyed(s.claims) && BeforeDefault(earlier)
    ensures var a, b, c := ListIn(s.claims, "default"), ListEach(s.claims, earlier), ListEach(s.claims, later);
            && SameOutcome(s, Visits(s.claims, earlier + (["default"] + later)), b + (a + c))
            && (SameOutcome(s, Visits(s.claims, earlier + (["default"] + later)), Visits(s.claims, earlier + later))
                <==> forall volume :: !TakenBack(s, a, b, c, volume))
  {
    var a, b, c := ListIn(s.claims, "default"), ListEach(s.claims, earlier), ListEach(s.claims, later);
    ListInIsCopies(s.claims, "default");
    ListEachIsCopies(s.claims, earlier);
    ListEachIsCopies(s.claims, later);
    DefaultIsVisitedTwice(s.claims, earlier, later);
    forall x, y | x in a && y in b ensures x.namespace != y.namespace || x.name != y.name {
      OthersDiffer(s.claims, earlier, x, y);
    }
    FirstVisitIsRedundant(s, a, b, c);
    SecondVisitMattersExactly(s, a, b, c);
  }

  // ----- one claim to one volume -----

  predicate Refers(v: Volume, c: Claim) {
    v.phase.Bound? && v.claimNamespace == c.namespace && v.claimName == c.name
  }

  predicate Held(volumes: Volumes, c: Claim) {
    Get(volumes, c.volumeName).Some? && Refers(Get(volumes, c.volumeName).value, c)
  }

  /** Every bound claim names a volume that names it back; so no two claims share one. */
  ghost predicate OneToOne(s: Storage) {
    forall key :: Get(s.claims, key).Some? && !NeedsVolume(Get(s.claims, key).value) ==>
                    Held(s.volumes, Get(s.claims, key).value)
  }

  lemma NoSharedVolume(s: Storage, k1: string, k2: string)
    requires Keyed(s.claims) && OneToOne(s) && Get(s.claims, k1).Some? && Get(s.claims, k2).Some?
    requires !NeedsVolume(Get(s.claims, k1).value) && !NeedsVolume(Get(s.claims, k2).value)
    requires Get(s.claims, k1).value.volumeName == Get(s.claims, k2).value.volumeName
    ensures k1 == k2
  {
    KeyOf(s.claims, k1);
    KeyOf(s.claims, k2);
  }

  lemma KeyOf(claims: ClaimTable, key: string)
    requires Keyed(claims) && Get(claims, key).Some?
    ensures Key(Get(claims, key).value) == key
  {
    GetMember(claims, key);
  }

  /** Two different visited claims choose one volume. */
  ghost predicate Contended(s: Storage, visits: seq<Claim>) {
    exists x, y, volume :: Rivals(BySize(s.volumes), visits, x, y, volume)
  }

  predicate Rivals(sorted: Volumes, visits: seq<Claim>, x: Claim, y: Claim, volume: string) {
    x in visits && y in visits && Key(x) != Key(y) && Chooses(sorted, x, volume) && Chooses(sorted, y, volume)
  }

  ghost predicate NamedVolumes(volumes: Volumes) {
    forall e | e in volumes :: !Text.IsBlank(e.id)
  }

  /** Without contention a claim served by the pass holds its volume at the end. */
  lemma ServedHolds(s: Storage, visits: seq<Claim>, c: Claim)
    requires Ordered(s.volumes) && CopiesOf(visits, s.claims) && !Contended(s, visits)
    requires c in visits && Choice(BySize(s.volumes), c).Some?
    ensures Held(Pass(s, BySize(s.volumes), visits).volumes, Served(c, Choice(BySize(s.volumes), c).value.id))
  {
    var sorted := BySize(s.volumes);
    var volume := Choice(sorted, c).value.id;
    VolumesAfterPass(s, visits, volume);
    LastChooserChooses(sorted, visits, volume);
    ChoiceIsStored(s.volumes, c);
    var last := LastChooser(sorted, visits, volume).value;
    assert !Rivals(sorted, visits, c, last, volume);
    SameKeySameCopy(s.claims, visits, c, last);
  }

  lemma SameKeySameCopy(claims: ClaimTable, visits: seq<Claim>, x: Claim, y: Claim)
    requires CopiesOf(visits, claims) && x in visits && y in visits && Key(x) == Key(y)
    ensures x == y
  {
    var i :| 0 <= i < |visits| && visits[i] == x;
    var j :| 0 <= j < |visits| && visits[j] == y;
    assert Get(claims, Key(visits[i])) == Get(claims, Key(visits[j]));
  }

  lemma UncontendedKeepsMatching(s: Storage, visits: seq<Claim>)
    requires Ordered(s.volumes) && Keyed(s.claims) && CopiesOf(visits, s.claims) && OneToOne(s)
    requires !Contended(s, visits)
    ensures OneToOne(Pass(s, BySize(s.volumes), visits))
  {
    var sorted := BySize(s.volumes);
    var t := Pass(s, sorted, visits);
    forall key | Get(t.claims, key).Some? && !NeedsVolume(Get(t.claims, key).value)
      ensures Held(t.volumes, Get(t.claims, key).value)
    {
      ClaimsAfterPass(s, sorted, visits, key);
      var c := Get(s.claims, key).value;
      if Visited(visits, key) && Choice(sorted, c).Some? {
        var k :| 0 <= k < |visits| && Key(visits[k]) == key;
        assert visits[k] == c && c in visits;
        ServedHolds(s, visits, c);
      } else {
        SettledIsUntouched(s, visits, key, c.volumeName);
      }
    }
  }

  lemma ContentionBreaksMatching(s: Storage, visits: seq<Claim>)
    requires Ordered(s.volumes) && NamedVolumes(s.volumes) && Keyed(s.claims) && CopiesOf(visits, s.claims)
    requires Contended(s, visits)
    ensures !OneToOne(Pass(s, BySize(s.volumes), visits))
  {
    var sorted := BySize(s.volumes);
    var t := Pass(s, sorted, visits);
    var x, y, volume :| Rivals(sorted, visits, x, y, volume);
    ChoiceIsStored(s.volumes, x);
    GetMember(s.volumes, volume);
    ServedRecord(s, visits, x);
    ServedRecord(s, visits, y);
    assert Get(t.claims, Key(x)).value.volumeName == volume == Get(t.claims, Key(y)).value.volumeName;
  }

  lemma ServedRecord(s: Storage, visits: seq<Claim>, c: Claim)
    requires CopiesOf(visits, s.claims) && c in visits && Choice(BySize(s.volumes), c).Some?
    ensures Get(Pass(s, BySize(s.volumes), visits).claims, Key(c)) == Some(Served(c, Choice(BySize(s.volumes), c).value.id))
  {
    var k :| 0 <= k < |visits| && visits[k] == c;
    ClaimsAfterPass(s, BySize(s.volumes), visits, Key(c));
    assert Visited(visits, Key(c));
  }

  /** A pass keeps the matching exactly when no two different claims choose one volume. */
  lemma MatchingKeptExactly(s: Storage, visits: seq<Claim>)
    requires Ordered(s.volumes) && NamedVolumes(s.volumes) && Keyed(s.claims) && CopiesOf(visits, s.claims) && OneToOne(s)
    ensures OneToOne(Pass(s, BySize(s.volumes), visits)) <==> !Contended(s, visits)
  {
    if Contended(s, visits) {
      ContentionBreaksMatching(s, visits);
    } else {
      UncontendedKeepsMatching(s, visits);
    }
  }

  /** In particular when at most one claim needs a volume. */
  lemma SingleClaimIsSafe(s: Storage, visits: seq<Claim>)
    requires Ordered(s.volumes) && Keyed(s.claims) && CopiesOf(visits, s.claims) && OneToOne(s)
    requires forall x, y | x in visits && y in visits && NeedsVolume(x) && NeedsVolume(y) :: Key(x) == Key(y)
    ensures OneToOne(Pass(s, BySize(s.volumes), visits))
  {
    forall x, y, volume ensures !Rivals(BySize(s.volumes), visits, x, y, volume) {
    }
    UncontendedKeepsMatching(s, visits);
  }

  /** For instance: one volume, a default claim x and a claim y of an earlier namespace that it also suits. */
  lemma OneVolumeTwoClaims(v: Entry<Volume>, x: Claim, y: Claim, claims: ClaimTable)
    requires NeedsVolume(x) && NeedsVolume(y) && Suits(v.rec, x) && Suits(v.rec, y) && Key(x) != Key(y)
    ensures var s := Storage([v], claims);
            && Contended(s, [x] + ([y] + ([x] + [])))
            && TakenBack(s, [x], [y], [], v.id)
  {
    var s := Storage([v], claims);
    var sorted := BySize(s.volumes);
    assert [v][1..] == [] && Sorting.StableSort([v][1..], Smaller) == [];
    assert sorted == [v];
    assert Chooses(sorted, x, v.id) && Chooses(sorted, y, v.id);
    LastChooserChooses(sorted, [x], v.id);
    LastChooserChooses(sorted, [y], v.id);
    assert x in [x] && y in [y];
    assert Rivals(sorted, [x] + ([y] + ([x] + [])), x, y, v.id);
  }

  lemma {:induction false} PassIsKeyed(s: Storage, sorted: Volumes, visits: seq<Claim>)
    requires Keyed(s.claims)
    ensures Keyed(Pass(s, sorted, visits).claims)
  {
    if visits != [] {
      var n := |visits| - 1;
      PassIsKeyed(s, sorted, visits[..n]);
      if Choice(sorted, visits[n]).Some? {
        var t, r := Pass(s, sorted, visits[..n]), Served(visits[n], Choice(sorted, visits[n]).value.id);
        PutOrdered(t.claims, Key(visits[n]), r);
        PutMembers(t.claims, Key(visits[n]), r);
      }
    }
  }

  lemma {:induction false} PassKeepsNames(s: Storage, visits: seq<Claim>)
    requires Ordered(s.volumes) && NamedVolumes(s.volumes)
    ensures NamedVolumes(Pass(s, BySize(s.volumes), visits).volumes)
  {
    if visits != [] {
      var n, sorted := |visits| - 1, BySize(s.volumes);
      PassKeepsNames(s, visits[..n]);
      if Choice(sorted, visits[n]).Some? {
        var v := Choice(sorted, visits[n]).value;
        ChoiceIsBestFit(s.volumes, visits[n]);
        PutMembers(Pass(s, sorted, visits[..n]).volumes, v.id, Taken(v.rec, visits[n]));
      }
    }
  }

  ghost predicate WellKept(s: Storage) {
    Ordered(s.volumes) && NamedVolumes(s.volumes) && Keyed(s.claims)
  }

  lemma BindingOutcome(s: Storage, namespaces: seq<string>)
    requires WellKept(s)
    ensures var visits := Visits(s.claims, namespaces);
            var t := Pass(s, BySize(s.volumes), visits);
            WellKept(t) && (OneToOne(s) ==> (OneToOne(t) <==> !Contended(s, visits)))
  {
    var visits := Visits(s.claims, namespaces);
    VisitsAreCopies(s.claims, namespaces);
    PassIsKeyed(s, BySize(s.volumes), visits);
    PassKeepsNames(s, visits);
    VolumesAfterPass(s, visits, "");
    if OneToOne(s) {
      MatchingKeptExactly(s, visits);
    }
  }

  // ----- runs of passes -----

  /** One pass after the other, each with the namespaces stored by then. */
  function AfterPasses(s: Storage, rounds: seq<seq<string>>): Storage {
    if rounds == [] then s
    else
      var t := AfterPasses(s, rounds[..|rounds| - 1]);
      Pass(t, BySize(t.volumes), Visits(t.claims, rounds[|rounds| - 1]))
  }

  /** A pass never repairs a claim whose volume does not name it back. */
  lemma UnheldStays(s: Storage, visits: seq<Claim>, key: string)
    requires WellKept(s) && CopiesOf(visits, s.claims) && Get(s.claims, key).Some?
    requires !NeedsVolume(Get(s.claims, key).value) && !Held(s.volumes, Get(s.claims, key).value)
    ensures var t := Pass(s, BySize(s.volumes), visits);
            Get(t.claims, key) == Get(s.claims, key) && !Held(t.volumes, Get(s.claims, key).value)
  {
    var c, sorted := Get(s.claims, key).value, BySize(s.volumes);
    SettledIsUntouched(s, visits, key, c.volumeName);
    VolumesAfterPass(s, visits, c.volumeName);
    LastChooserChooses(sorted, visits, c.volumeName);
    KeyOf(s.claims, key);
  }

  /** The next pass leaves a matching exactly when there is one and the pass is not contended. */
  lemma OneMorePass(s: Storage, namespaces: seq<string>)
    requires WellKept(s)
    ensures var visits := Visits(s.claims, namespaces);
            && WellKept(Pass(s, BySize(s.volumes), visits))
            && (OneToOne(Pass(s, BySize(s.volumes), visits)) <==> OneToOne(s) && !Contended(s, visits))
  {
    var visits := Visits(s.claims, namespaces);
    BindingOutcome(s, namespaces);
    VisitsAreCopies(s.claims, namespaces);
    if !OneToOne(s) {
      var key :| Get(s.claims, key).Some? && !NeedsVolume(Get(s.claims, key).value) && !Held(s.volumes, Get(s.claims, key).value);
      UnheldStays(s, visits, key);
    }
  }

  /** In no pass of the run two different claims choose one volume. */
  ghost predicate NeverContended(s: Storage, rounds: seq<seq<string>>) {
    rounds == [] ||
    (&& NeverContended(s, rounds[..|rounds| - 1])
     && var t := AfterPasses(s, rounds[..|rounds| - 1]);
        !Contended(t, Visits(t.claims, rounds[|rounds| - 1])))
  }

  /** After any run of passes the matching holds exactly when it held at the start and no pass was contended: nothing is repaired. */
  lemma {:induction false} MatchingOverPassesExactly(s: Storage, rounds: seq<seq<string>>)
    requires WellKept(s)
    ensures WellKept(AfterPasses(s, rounds))
    ensures OneToOne(AfterPasses(s, rounds)) <==> OneToOne(s) && NeverContended(s, rounds)
  {
    if rounds != [] {
      MatchingOverPassesExactly(s, rounds[..|rounds| - 1]);
      OneMorePass(AfterPasses(s, rounds[..|rounds| - 1]), rounds[|rounds| - 1]);
    }
  }

  // ----- an instance -----

  const DISK := Entry("disk", Volume(10, "", "", "", "", Available))
  const LOGS := Claim("default", "logs", 5, "", "", "", Pending)
  const DATA := Claim("apps", "data", 5, "", "", "", Pending)
  const TWO_CLAIMS := [Entry("apps:data", DATA), Entry("default:logs", LOGS)]

  lemma ListedData()
    ensures ListIn(TWO_CLAIMS, "apps") == [DATA]
  {
    var t, p := TWO_CLAIMS, Prefix("apps");
    assert p[0] == 'a' && t[1].id[0] == 'd' && t[0].id[..5] == p;
    assert t[1..] == [t[1]] && [t[1]][1..] == [];
    assert WithPrefix([t[1]], p) == WithPrefix([t[1]][1..], p) == [];
    assert WithPrefix(t, p) == [t[0]];
    RecsAt([t[0]]);
  }

  lemma ListedLogs()
    ensures ListIn(TWO_CLAIMS, "default") == [LOGS]
  {
    var t, p := TWO_CLAIMS, Prefix("default");
    assert p[0] == 'd' && t[0].id[0] == 'a' && t[1].id[..8] == p;
    assert t[1..] == [t[1]] && [t[1]][1..] == [];
    assert WithPrefix([t[1]], p) == [t[1]] + WithPrefix([t[1]][1..], p) == [t[1]];
    assert WithPrefix(t, p) == [t[1]];
    RecsAt([t[1]]);
  }

  lemma TwoListings()
    ensures ListEach(TWO_CLAIMS, ["apps"]) == [DATA] && ListEach(TWO_CLAIMS, []) == []
    ensures Visits(TWO_CLAIMS, ["apps", "default"]) == [LOGS] + ([DATA] + ([LOGS] + []))
  {
    ListedData();
    ListedLogs();
    ListEachOne(TWO_CLAIMS, "apps");
    DefaultIsVisitedTwice(TWO_CLAIMS, ["apps"], []);
    assert ["apps"] + (["default"] + []) == ["apps", "default"];
  }

  lemma TwoClaimsAreKept()
    ensures WellKept(Storage([DISK], TWO_CLAIMS)) && OneToOne(Storage([DISK], TWO_CLAIMS))
    ensures NeedsVolume(LOGS) && NeedsVolume(DATA) && Suits(DISK.rec, LOGS) && Suits(DISK.rec, DATA)
  {
    var t := TWO_CLAIMS;
    assert t[0].id[0] == 'a' && t[1].id[0] == 'd';
    assert Text.IsBlank("");
    assert Key(DATA) == "apps:data" && Key(LOGS) == "default:logs";
    Text.WordNotBlank("disk");
    forall key | Get(t, key).Some? ensures NeedsVolume(Get(t, key).value) {
      GetMember(t, key);
    }
  }

  lemma SecondVisitChanges(s: Storage, volume: string)
    requires WellKept(s) && TakenBack(s, ListIn(s.claims, "default"), ListEach(s.claims, ["apps"]), ListEach(s.claims, []), volume)
    ensures !SameOutcome(s, Visits(s.claims, ["apps", "default"]), Visits(s.claims, ["apps"]))
  {
    assert ["apps"] + (["default"] + []) == ["apps", "default"] && ["apps"] + [] == ["apps"];
    assert "apps"[0] == 'a' && "default"[0] == 'd' && BeforeDefault(["apps"]);
    DuplicateVisitExactly(s, ["apps"], []);
  }

  /**
   * One disk of ten and two claims of five: the pass lets both take it, and visiting the default namespace again
   * changes which of them the disk names.
   */
  lemma LogsAndDataTakeOneDisk()
    ensures var s := Storage([DISK], TWO_CLAIMS);
            var visits := Visits(s.claims, ["apps", "default"]);
            && WellKept(s) && OneToOne(s)
            && !OneToOne(Pass(s, BySize(s.volumes), visits))
            && !SameOutcome(s, visits, Visits(s.claims, ["apps"]))
  {
    var s := Storage([DISK], TWO_CLAIMS);
    TwoClaimsAreKept();
    TwoListings();
    ListedData();
    ListedLogs();
    assert Key(LOGS)[0] == 'd' && Key(DATA)[0] == 'a';
    OneVolumeTwoClaims(DISK, LOGS, DATA, s.claims);
    OneMorePass(s, ["apps", "default"]);
    SecondVisitChanges(s, "disk");
  }

  // ----- the code -----

  /** The search loop over the sorted volumes. */
  method FindVolume(sorted: Volumes, c: Claim) returns (r: Option<Entry<Volume>>)
    ensures r == FirstSuiting(sorted, c)
  {
    for i := 0 to |sorted|
      invariant FirstSuiting(sorted, c) == FirstSuiting(sorted[i..], c)
    {
      assert sorted[i..][1..] == sorted[i + 1..];
      var v := sorted[i].rec;
      if !v.phase.Available? {
        continue;
      }
      if v.capacityMB < c.requested {
        continue;
      }
      if Clash(c.storageClass, v.storageClass) {
        continue;
      }
      if Clash(c.accessMode, v.accessMode) {
        continue;
      }
      return Some(sorted[i]);
    }
    return None;
  }

  /** What the body of the loop over claims writes. */
  method BindOne(s: Storage, sorted: Volumes, c: Claim) returns (t: Storage)
    ensures t == Visit(s, sorted, c)
  {
    t := s;
    if c.phase.Bound? && Text.TrimSpace(c.volumeName) != "" {
      return;
    }
    var found := FindVolume(sorted, c);
    if found.Some? {
      var v := found.value;
      var taken := v.rec.(phase := VolumePhase.Bound, claimNamespace := c.namespace, claimName := c.name);
      var served := c.(volumeName := v.id, phase := ClaimPhase.Bound);
      t := Storage(Put(s.volumes, v.id, taken), Put(s.claims, Key(c), served));
    }
  }

  class ClaimBinder {
    var volumes: Volumes
    var claims: ClaimTable

    ghost predicate Valid()
      reads this
    {
      WellKept(Storage(volumes, claims))
    }

    ghost function Contents(): Storage
      reads this
    {
      Storage(volumes, claims)
    }

    constructor ()
      ensures Valid() && Contents() == Storage([], [])
    {
      volumes, claims := [], [];
    }

    method ListAll(namespaces: seq<string>) returns (all: seq<Claim>)
      ensures all == Visits(claims, namespaces)
    {
      all := ListIn(claims, "default");
      for i := 0 to |namespaces|
        invariant all == Visits(claims, namespaces[..i])
      {
        all := all + ListIn(claims, namespaces[i]);
        assert namespaces[..i + 1][..i] == namespaces[..i];
      }
      assert namespaces[..|namespaces|] == namespaces;
    }

    /** A pass; it keeps a matching exactly when no two different claims choose one volume. */
    method ReconcileBindings(namespaces: seq<string>)
      requires Valid()
      modifies this
      ensures Valid()
      ensures Contents() == Pass(old(Contents()), BySize(old(volumes)), Visits(old(claims), namespaces))
      ensures old(OneToOne(Contents())) ==>
                (OneToOne(Contents()) <==> !Contended(old(Contents()), Visits(old(claims), namespaces)))
    {
      ghost var start := Contents();
      var all := ListAll(namespaces);
      var sorted := Sorting.StableSort(volumes, Smaller);
      for i := 0 to |all|
        invariant Contents() == Pass(start, sorted, all[..i])
      {
        assert all[..i + 1][..i] == all[..i];
        var next := BindOne(Storage(volumes, claims), sorted, all[i]);
        volumes, claims := next.volumes, next.claims;
      }
      assert all[..|all|] == all;
      BindingOutcome(start, namespaces);
    }
  }
}
