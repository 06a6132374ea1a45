/** One key prefix of the store: records in key order, each under its own identifier. */
module Tables {
  import Text

  datatype Option<+T> = None | Some(value: T)

  datatype Entry<+V> = Entry(id: string, rec: V)

  /** Identifiers strictly increase, so a listing is in key order and has no duplicates. */
  ghost predicate Ordered<V>(t: seq<Entry<V>>) {
    forall i, j :: 0 <= i < j < |t| ==> Text.Less(t[i].id, t[j].id)
  }

  function Get<V>(t: seq<Entry<V>>, k: string): Option<V> {
    if t == [] then None
    else if t[0].id == k then Some(t[0].rec)
    else Get(t[1..], k)
  }

  predicate Has<V>(t: seq<Entry<V>>, k: string) {
    Get(t, k).Some?
  }

  function Put<V>(t: seq<Entry<V>>, k: string, v: V): seq<Entry<V>> {
    if t == [] then [Entry(k, v)]
    else if t[0].id == k then [Entry(k, v)] + t[1..]
    else if Text.Less(k, t[0].id) then [Entry(k, v)] + t
    else [t[0]] + Put(t[1..], k, v)
  }

  function Remove<V>(t: seq<Entry<V>>, k: string): seq<Entry<V>> {
    if t == [] then []
    else if t[0].id == k then Remove(t[1..], k)
    else [t[0]] + Remove(t[1..], k)
  }

  function Filter<V>(t: seq<Entry<V>>, p: V -> bool): seq<Entry<V>> {
    if t == [] then []
    else if p(t[0].rec) then [t[0]] + Filter(t[1..], p)
    else Filter(t[1..], p)
  }

  function Sum<V>(t: seq<Entry<V>>, f: V -> int): int {
    if t == [] then 0 else f(t[0].rec) + Sum(t[1..], f)
  }

  function Indicator<V>(p: V -> bool): V -> int {
    v => if p(v) then 1 else 0
  }

  /** How many records satisfy p. */
  function Count<V>(t: seq<Entry<V>>, p: V -> bool): int {
    Sum(t, Indicator(p))
  }

  // ----- reading -----

  lemma {:induction false} GetMember<V>(t: seq<Entry<V>>, k: string)
    ensures Get(t, k).Some? ==> Entry(k, Get(t, k).value) in t
    ensures Get(t, k).None? ==> forall e | e in t :: e.id != k
  {
    if t != [] {
      GetMember(t[1..], k);
      assert t == [t[0]] + t[1..];
    }
  }

  lemma {:induction false} GetIndex<V>(t: seq<Entry<V>>, i: nat)
    requires Ordered(t) && i < |t|
    ensures Get(t, t[i].id) == Some(t[i].rec)
  {
    if i > 0 {
      Text.LessTotal(t[0].id, t[i].id);
      GetIndex(t[1..], i - 1);
    }
  }

  /** An ordered table holds exactly the entries its keys find. */
  lemma GetEntry<V>(t: seq<Entry<V>>, e: Entry<V>)
    requires Ordered(t)
    ensures e in t <==> Get(t, e.id) == Some(e.rec)
  {
    GetMember(t, e.id);
    if e in t {
      var i :| 0 <= i < |t| && t[i] == e;
      GetIndex(t, i);
    }
  }

  // ----- writing -----

  lemma {:induction false} GetPut<V>(t: seq<Entry<V>>, k: string, v: V, j: string)
    ensures Get(Put(t, k, v), j) == if j == k then Some(v) else Get(t, j)
  {
    if t != [] && t[0].id != k && !Text.Less(k, t[0].id) {
      GetPut(t[1..], k, v, j);
    }
  }

  lemma {:induction false} GetRemove<V>(t: seq<Entry<V>>, k: string, j: string)
    ensures Get(Remove(t, k), j) == if j == k then None else Get(t, j)
  {
    if t != [] {
      GetRemove(t[1..], k, j);
    }
  }

  lemma AllPut<V>(t: seq<Entry<V>>, k: string, v: V)
    ensures forall j :: Get(Put(t, k, v), j) == if j == k then Some(v) else Get(t, j)
  {
    forall j ensures Get(Put(t, k, v), j) == if j == k then Some(v) else Get(t, j) {
      GetPut(t, k, v, j);
    }
  }

  lemma AllRemove<V>(t: seq<Entry<V>>, k: string)
    ensures forall j :: Get(Remove(t, k), j) == if j == k then None else Get(t, j)
  {
    forall j ensures Get(Remove(t, k), j) == if j == k then None else Get(t, j) {
      GetRemove(t, k, j);
    }
  }

  lemma {:induction false} PutMembers<V>(t: seq<Entry<V>>, k: string, v: V)
    ensures forall e | e in Put(t, k, v) :: e == Entry(k, v) || e in t
  {
    if t != [] && t[0].id != k && !Text.Less(k, t[0].id) {
      PutMembers(t[1..], k, v);
    }
  }

  lemma {:induction false} RemoveMembers<V>(t: seq<Entry<V>>, k: string)
    ensures forall e | e in Remove(t, k) :: e in t && e.id != k
    ensures forall e | e in t && e.id != k :: e in Remove(t, k)
  {
    if t != [] {
      RemoveMembers(t[1..], k);
      assert t == [t[0]] + t[1..];
    }
  }

  lemma HeadBelow<V>(t: seq<Entry<V>>)
    requires Ordered(t) && t != []
    ensures forall e | e in t[1..] :: Text.Less(t[0].id, e.id) && e.id != t[0].id
  {
    forall e | e in t[1..] ensures Text.Less(t[0].id, e.id) && e.id != t[0].id {
      var i :| 0 <= i < |t| - 1 && t[1..][i] == e;
      assert e == t[i + 1];
      Text.LessTotal(t[0].id, e.id);
    }
  }

  lemma PrependOrdered<V>(e: Entry<V>, t: seq<Entry<V>>)
    requires Ordered(t) && forall x | x in t :: Text.Less(e.id, x.id)
    ensures Ordered([e] + t)
  {
    var r := [e] + t;
    forall i, j | 0 <= i < j < |r| ensures Text.Less(r[i].id, r[j].id) {
      assert r[j] == t[j - 1] && t[j - 1] in t;
    }
  }

  /** Writing a record keeps the table ordered. */
  lemma {:induction false} PutOrdered<V>(t: seq<Entry<V>>, k: string, v: V)
    requires Ordered(t)
    ensures Ordered(Put(t, k, v))
  {
    if t == [] {
    } else if t[0].id == k {
      PrependOrdered(Entry(k, v), t[1..]);
    } else if Text.Less(k, t[0].id) {
      forall x | x in t ensures Text.Less(k, x.id) {
        var i :| 0 <= i < |t| && t[i] == x;
        if i > 0 { Text.LessTransitive(k, t[0].id, x.id); }
      }
      PrependOrdered(Entry(k, v), t);
    } else {
      PutOrdered(t[1..], k, v);
      PutMembers(t[1..], k, v);
      Text.LessTotal(k, t[0].id);
      PrependOrdered(t[0], Put(t[1..], k, v));
    }
  }

  lemma {:induction false} RemoveOrdered<V>(t: seq<Entry<V>>, k: string)
    requires Ordered(t)
    ensures Ordered(Remove(t, k))
  {
    if t != [] {
      RemoveOrdered(t[1..], k);
      RemoveMembers(t[1..], k);
      if t[0].id != k {
        HeadBelow(t);
        PrependOrdered(t[0], Remove(t[1..], k));
      }
    }
  }

  // ----- totals -----

  function At<V>(t: seq<Entry<V>>, k: string, f: V -> int): int {
    match Get(t, k)
    case Some(v) => f(v)
    case None => 0
  }

  lemma BelowAll<V>(t: seq<Entry<V>>, k: string)
    requires Ordered(t) && t != [] && Text.Less(k, t[0].id)
    ensures Get(t, k) == None
  {
    GetMember(t, k);
    if Get(t, k).Some? {
      var e := Entry(k, Get(t, k).value);
      var i :| 0 <= i < |t| && t[i] == e;
      Text.LessTotal(k, t[0].id);
    }
  }

  /** A write changes a total by what it replaces. */
  lemma {:induction false} SumPut<V>(t: seq<Entry<V>>, k: string, v: V, f: V -> int)
    requires Ordered(t)
    ensures Sum(Put(t, k, v), f) == Sum(t, f) - At(t, k, f) + f(v)
  {
    if t == [] {
      assert Put(t, k, v)[1..] == [];
    } else if t[0].id == k {
      assert ([Entry(k, v)] + t[1..])[1..] == t[1..];
    } else if Text.Less(k, t[0].id) {
      BelowAll(t, k);
      assert ([Entry(k, v)] + t)[1..] == t;
    } else {
      SumPut(t[1..], k, v, f);
      assert ([t[0]] + Put(t[1..], k, v))[1..] == Put(t[1..], k, v);
    }
  }

  lemma {:induction false} RemoveAbsent<V>(t: seq<Entry<V>>, k: string)
    requires forall e | e in t :: e.id != k
    ensures Remove(t, k) == t
  {
    if t != [] {
      assert t[0] in t;
      assert forall e | e in t[1..] :: e in t;
      RemoveAbsent(t[1..], k);
    }
  }

  /** Deleting a record takes exactly its share out of a total. */
  lemma {:induction false} SumRemove<V>(t: seq<Entry<V>>, k: string, f: V -> int)
    requires Ordered(t)
    ensures Sum(Remove(t, k), f) == Sum(t, f) - At(t, k, f)
  {
    if t != [] {
      if t[0].id == k {
        HeadBelow(t);
        RemoveAbsent(t[1..], k);
      } else {
        SumRemove(t[1..], k, f);
        assert ([t[0]] + Remove(t[1..], k))[1..] == Remove(t[1..], k);
      }
    }
  }

  /** No single share exceeds a total of non-negative shares. */
  lemma {:induction false} SumBounds<V>(t: seq<Entry<V>>, k: string, f: V -> int)
    requires forall e | e in t :: f(e.rec) >= 0
    ensures 0 <= At(t, k, f) <= Sum(t, f)
  {
    if t != [] {
      assert t[0] in t;
      SumBounds(t[1..], k, f);
    }
  }

  // ----- listings -----

  lemma {:induction false} FilterMembers<V>(t: seq<Entry<V>>, p: V -> bool)
    ensures forall e | e in Filter(t, p) :: e in t && p(e.rec)
    ensures forall e | e in t && p(e.rec) :: e in Filter(t, p)
  {
    if t != [] {
      FilterMembers(t[1..], p);
      assert t == [t[0]] + t[1..];
    }
  }

  lemma {:induction false} FilterOrdered<V>(t: seq<Entry<V>>, p: V -> bool)
    requires Ordered(t)
    ensures Ordered(Filter(t, p))
  {
    if t != [] {
      FilterOrdered(t[1..], p);
      FilterMembers(t[1..], p);
      if p(t[0].rec) {
        HeadBelow(t);
        PrependOrdered(t[0], Filter(t[1..], p));
      }
    }
  }

  lemma {:induction false} FilterCount<V>(t: seq<Entry<V>>, p: V -> bool)
    ensures |Filter(t, p)| == Count(t, p)
  {
    if t != [] {
      FilterCount(t[1..], p);
    }
  }

  /** Filtering twice is filtering by both. */
  lemma {:induction false} FilterFilter<V>(t: seq<Entry<V>>, p: V -> bool, q: V -> bool, both: V -> bool)
    requires forall e | e in t :: both(e.rec) <==> p(e.rec) && q(e.rec)
    ensures Filter(Filter(t, p), q) == Filter(t, both)
  {
    if t != [] {
      assert t[0] in t;
      FilterFilter(t[1..], p, q, both);
      if p(t[0].rec) {
        assert ([t[0]] + Filter(t[1..], p))[1..] == Filter(t[1..], p);
      }
    }
  }

  // ----- contents -----

  function Recs<V>(t: seq<Entry<V>>): seq<V> {
    if t == [] then [] else [t[0].rec] + Recs(t[1..])
  }

  lemma {:induction false} RecsAt<V>(t: seq<Entry<V>>)
    ensures |Recs(t)| == |t|
    ensures forall i :: 0 <= i < |t| ==> Recs(t)[i] == t[i].rec
  {
    if t != [] {
      RecsAt(t[1..]);
    }
  }

  /** Writing under a new key adds one record to the contents. */
  lemma {:induction false} RecsPut<V>(t: seq<Entry<V>>, k: string, v: V)
    requires Get(t, k) == None
    ensures multiset(Recs(Put(t, k, v))) == multiset(Recs(t)) + multiset{v}
  {
    if t == [] {
      assert Recs([Entry(k, v)]) == [v] + Recs([]);
    } else if Text.Less(k, t[0].id) {
      assert ([Entry(k, v)] + t)[1..] == t;
    } else {
      RecsPut(t[1..], k, v);
      assert ([t[0]] + Put(t[1..], k, v))[1..] == Put(t[1..], k, v);
    }
  }

  /** Deleting a stored key takes one record out of the contents. */
  lemma {:induction false} RecsRemove<V>(t: seq<Entry<V>>, k: string)
    requires Ordered(t) && Get(t, k).Some?
    ensures multiset(Recs(t)) == multiset(Recs(Remove(t, k))) + multiset{Get(t, k).value}
  {
    if t[0].id == k {
      HeadBelow(t);
      RemoveAbsent(t[1..], k);
    } else {
      RecsRemove(t[1..], k);
      assert ([t[0]] + Remove(t[1..], k))[1..] == Remove(t[1..], k);
    }
  }

  // ----- prefix scans -----

  function WithPrefix<V>(t: seq<Entry<V>>, p: string): seq<Entry<V>> {
    if t == [] then []
    else if Text.HasPrefix(t[0].id, p) then [t[0]] + WithPrefix(t[1..], p)
    else WithPrefix(t[1..], p)
  }

  lemma {:induction false} WithPrefixMembers<V>(t: seq<Entry<V>>, p: string)
    ensures forall e | e in WithPrefix(t, p) :: e in t && Text.HasPrefix(e.id, p)
    ensures forall e | e in t && Text.HasPrefix(e.id, p) :: e in WithPrefix(t, p)
  {
    if t != [] {
      WithPrefixMembers(t[1..], p);
      assert t == [t[0]] + t[1..];
    }
  }

  lemma {:induction false} WithPrefixOrdered<V>(t: seq<Entry<V>>, p: string)
    requires Ordered(t)
    ensures Ordered(WithPrefix(t, p))
  {
    if t != [] {
      WithPrefixOrdered(t[1..], p);
      WithPrefixMembers(t[1..], p);
      if Text.HasPrefix(t[0].id, p) {
        HeadBelow(t);
        PrependOrdered(t[0], WithPrefix(t[1..], p));
      }
    }
  }

  lemma {:induction false} WithPrefixSplit<V>(t: seq<Entry<V>>, i: nat, p: string)
    requires i <= |t|
    ensures WithPrefix(t, p) == WithPrefix(t[..i], p) + WithPrefix(t[i..], p)
  {
    if i == 0 {
      assert t[i..] == t && t[..i] == [];
    } else {
      WithPrefixSplit(t[1..], i - 1, p);
      assert t[1..][..i - 1] == t[..i][1..] && t[1..][i - 1..] == t[i..];
    }
  }

  lemma {:induction false} WithPrefixNone<V>(t: seq<Entry<V>>, p: string)
    requires forall e | e in t :: !Text.HasPrefix(e.id, p)
    ensures WithPrefix(t, p) == []
  {
    if t != [] {
      assert t[0] in t;
      WithPrefixNone(t[1..], p);
    }
  }

  function Take<T>(s: seq<T>, n: int): seq<T> {
    if n <= 0 then [] else if n < |s| then s[..n] else s
  }

  /** it.Seek: the first position whose key is not below the prefix. */
  method Seek<V>(t: seq<Entry<V>>, p: string) returns (start: nat)
    ensures start <= |t|
    ensures start < |t| ==> !Text.Less(t[start].id, p)
    ensures WithPrefix(t, p) == WithPrefix(t[start..], p)
  {
    start := 0;
    while start < |t| && Text.Less(t[start].id, p)
      invariant start <= |t|
      invariant forall j :: 0 <= j < start ==> Text.Less(t[j].id, p)
    {
      start := start + 1;
    }
    BelowPrefix(t[..start], p);
    WithPrefixSplit(t, start, p);
  }

  /**
   * The iterator loop of the store: seek to the prefix, then read while the key still
   * carries it and the limit is not reached. It reads the first `max` of exactly the
   * entries under the prefix.
   */
  method ScanPrefix<V>(t: seq<Entry<V>>, p: string, max: int) returns (out: seq<Entry<V>>)
    requires Ordered(t)
    ensures out == Take(WithPrefix(t, p), max)
  {
    var start := Seek(t, p);
    var i := start;
    out := [];
    while i < |t| && Text.HasPrefix(t[i].id, p) && |out| < max
      invariant start <= i <= |t|
      invariant out == t[start..i] && (|out| <= max || out == [])
      invariant forall j :: start <= j < i ==> Text.HasPrefix(t[j].id, p)
    {
      out := out + [t[i]];
      i := i + 1;
    }
    ScanComplete(t, start, i, p);
    TakeOfPrefix(out, WithPrefix(t, p), max);
  }

  lemma TakeOfPrefix<T>(part: seq<T>, all: seq<T>, n: int)
    requires part <= all && (|part| <= n || part == [])
    requires part == all || |part| >= n
    ensures part == Take(all, n)
  {
  }

  lemma BelowPrefix<V>(t: seq<Entry<V>>, p: string)
    requires forall j :: 0 <= j < |t| ==> Text.Less(t[j].id, p)
    ensures WithPrefix(t, p) == []
  {
    forall e | e in t ensures !Text.HasPrefix(e.id, p) {
      if Text.HasPrefix(e.id, p) { Text.PrefixNotBelow(p, e.id); }
    }
    WithPrefixNone(t, p);
  }

  lemma {:induction false} WithPrefixAll<V>(t: seq<Entry<V>>, p: string)
    requires forall j :: 0 <= j < |t| ==> Text.HasPrefix(t[j].id, p)
    ensures WithPrefix(t, p) == t
  {
    if t != [] {
      WithPrefixAll(t[1..], p);
    }
  }

  /** From the seek position on, a scan that has stopped at a foreign key has seen the whole prefix. */
  lemma ScanComplete<V>(t: seq<Entry<V>>, start: nat, i: nat, p: string)
    requires Ordered(t) && start <= i <= |t|
    requires start < |t| ==> !Text.Less(t[start].id, p)
    requires forall j :: start <= j < i ==> Text.HasPrefix(t[j].id, p)
    ensures t[start..i] <= WithPrefix(t[start..], p)
    ensures i == |t| || !Text.HasPrefix(t[i].id, p) ==> WithPrefix(t[start..], p) == t[start..i]
  {
    var u := t[start..];
    WithPrefixSplit(u, i - start, p);
    assert u[..i - start] == t[start..i] && u[i - start..] == t[i..];
    WithPrefixAll(t[start..i], p);
    if i < |t| && !Text.HasPrefix(t[i].id, p) {
      forall e | e in t[i..] ensures !Text.HasPrefix(e.id, p) {
        var k :| i <= k < |t| && t[k] == e;
        AfterForeignKey(t, start, i, k, p);
      }
      WithPrefixNone(t[i..], p);
    }
  }

  lemma AfterForeignKey<V>(t: seq<Entry<V>>, start: nat, i: nat, k: nat, p: string)
    requires Ordered(t) && start <= i <= k < |t|
    requires !Text.Less(t[start].id, p)
    requires forall j :: start <= j < i ==> Text.HasPrefix(t[j].id, p)
    requires !Text.HasPrefix(t[i].id, p)
    ensures !Text.HasPrefix(t[k].id, p)
  {
    var b := t[i].id;
    if i == start {
      Text.LessTotal(b, p);
      Text.PrefixIsInterval(p, p, b);
    } else {
      Text.PrefixIsInterval(p, t[start].id, b);
    }
    Text.LessTotal(t[k].id, b);
  }
}
