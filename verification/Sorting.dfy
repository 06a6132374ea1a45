/** sort.SliceStable, as the stable rearrangement of a list by a strict weak order. */
module Sorting {
  import Text

  ghost predicate StrictWeakOrder<T(!new)>(less: (T, T) -> bool) {
    && (forall a, b :: less(a, b) ==> !less(b, a))
    && (forall a, b, c :: less(a, b) ==> less(a, c) || less(c, b))
  }

  function Insert<T>(x: T, s: seq<T>, less: (T, T) -> bool): seq<T> {
    if s == [] then [x]
    else if less(s[0], x) then [s[0]] + Insert(x, s[1..], less)
    else [x] + s
  }

  function StableSort<T>(s: seq<T>, less: (T, T) -> bool): seq<T> {
    if s == [] then [] else Insert(s[0], StableSort(s[1..], less), less)
  }

  ghost predicate SortedBy<T>(s: seq<T>, less: (T, T) -> bool) {
    forall i, j :: 0 <= i < j < |s| ==> !less(s[j], s[i])
  }

  lemma {:induction false} InsertPermutes<T>(x: T, s: seq<T>, less: (T, T) -> bool)
    ensures multiset(Insert(x, s, less)) == multiset{x} + multiset(s)
    ensures |Insert(x, s, less)| == |s| + 1
  {
    if s != [] && less(s[0], x) {
      InsertPermutes(x, s[1..], less);
      assert s == [s[0]] + s[1..];
    }
  }

  /** Sorting neither adds nor drops elements. */
  lemma {:induction false} SortPermutes<T>(s: seq<T>, less: (T, T) -> bool)
    ensures multiset(StableSort(s, less)) == multiset(s)
    ensures |StableSort(s, less)| == |s|
  {
    if s != [] {
      SortPermutes(s[1..], less);
      InsertPermutes(s[0], StableSort(s[1..], less), less);
      assert s == [s[0]] + s[1..];
    }
  }

  lemma SortElements<T>(s: seq<T>, less: (T, T) -> bool)
    ensures forall x :: x in StableSort(s, less) <==> x in s
  {
    SortPermutes(s, less);
    forall x ensures x in StableSort(s, less) <==> x in s {
      assert x in StableSort(s, less) <==> x in multiset(StableSort(s, less));
      assert x in s <==> x in multiset(s);
    }
  }

  lemma {:induction false} InsertOrders<T(!new)>(x: T, s: seq<T>, less: (T, T) -> bool)
    requires StrictWeakOrder(less) && SortedBy(s, less)
    ensures SortedBy(Insert(x, s, less), less)
  {
    if s != [] {
      if less(s[0], x) {
        InsertOrders(x, s[1..], less);
        InsertPermutes(x, s[1..], less);
        var t := Insert(x, s[1..], less);
        forall j | 0 <= j < |t| ensures !less(t[j], s[0]) {
          assert t[j] in multiset(t);
          assert t[j] == x || t[j] in s[1..];
        }
      } else {
        forall j | 0 <= j < |s| ensures !less(s[j], x) {
          assert j == 0 || !less(s[j], s[0]);
        }
      }
    }
  }

  /** The result is ordered. */
  lemma {:induction false} SortOrders<T(!new)>(s: seq<T>, less: (T, T) -> bool)
    requires StrictWeakOrder(less)
    ensures SortedBy(StableSort(s, less), less)
  {
    if s != [] {
      SortOrders(s[1..], less);
      InsertOrders(s[0], StableSort(s[1..], less), less);
    }
  }

  /** The first of the smallest elements. */
  function LeftmostMin<T>(s: seq<T>, less: (T, T) -> bool): T
    requires s != []
  {
    if |s| == 1 then s[0]
    else
      var m := LeftmostMin(s[1..], less);
      if less(m, s[0]) then m else s[0]
  }

  /** The position of the leftmost minimum: nothing is smaller, and everything before it is larger. */
  lemma {:induction false} LeftmostMinIndex<T(!new)>(s: seq<T>, less: (T, T) -> bool) returns (k: nat)
    requires s != [] && StrictWeakOrder(less)
    ensures k < |s| && LeftmostMin(s, less) == s[k]
    ensures forall j :: 0 <= j < |s| ==> !less(s[j], s[k])
    ensures forall j :: 0 <= j < k ==> less(s[k], s[j])
  {
    if |s| == 1 {
      k := 0;
    } else {
      var m := LeftmostMinIndex(s[1..], less);
      k := if less(s[1..][m], s[0]) then m + 1 else 0;
      forall j | 0 <= j < |s| ensures !less(s[j], s[k]) {
        if j > 0 {
          assert s[j] == s[1..][j - 1];
        }
      }
      forall j | 0 <= j < k ensures less(s[k], s[j]) {
        if j > 0 {
          assert s[j] == s[1..][j - 1];
        }
      }
    }
  }

  /** A stable sort puts the leftmost minimum first. */
  lemma {:induction false} SortHead<T>(s: seq<T>, less: (T, T) -> bool)
    requires s != []
    ensures StableSort(s, less) != [] && StableSort(s, less)[0] == LeftmostMin(s, less)
  {
    if |s| == 1 {
      assert StableSort(s[1..], less) == [];
    } else {
      SortHead(s[1..], less);
    }
  }

  /** The elements of a list that tie with x, in list order. */
  function Ties<T>(s: seq<T>, x: T, less: (T, T) -> bool): seq<T> {
    if s == [] then []
    else if !less(s[0], x) && !less(x, s[0]) then [s[0]] + Ties(s[1..], x, less)
    else Ties(s[1..], x, less)
  }

  lemma {:induction false} InsertKeepsTies<T(!new)>(y: T, s: seq<T>, x: T, less: (T, T) -> bool)
    requires StrictWeakOrder(less)
    ensures Ties(Insert(y, s, less), x, less) == Ties([y] + s, x, less)
  {
    assert ([y] + s)[1..] == s;
    if s != [] && less(s[0], y) {
      InsertKeepsTies(y, s[1..], x, less);
      assert ([y] + s[1..])[1..] == s[1..];
      var t := [s[0]] + Insert(y, s[1..], less);
      assert t[1..] == Insert(y, s[1..], less);
    }
  }

  /** Elements that tie keep their relative order. */
  lemma {:induction false} SortStable<T(!new)>(s: seq<T>, x: T, less: (T, T) -> bool)
    requires StrictWeakOrder(less)
    ensures Ties(StableSort(s, less), x, less) == Ties(s, x, less)
  {
    if s != [] {
      SortStable(s[1..], x, less);
      var t := StableSort(s[1..], less);
      InsertKeepsTies(s[0], t, x, less);
      assert ([s[0]] + t)[1..] == t;
    }
  }

  /** No element comes after the last of a sorted list. */
  lemma SortLast<T(!new)>(s: seq<T>, less: (T, T) -> bool)
    requires s != [] && StrictWeakOrder(less)
    ensures |StableSort(s, less)| == |s| && StableSort(s, less)[|s| - 1] in s
    ensures forall x | x in s :: !less(StableSort(s, less)[|s| - 1], x)
  {
    SortPermutes(s, less);
    SortElements(s, less);
    SortOrders(s, less);
    var t := StableSort(s, less);
    assert t[|t| - 1] in t;
    forall x | x in s ensures !less(t[|t| - 1], x) {
      assert x in t;
      var k :| 0 <= k < |t| && t[k] == x;
    }
  }

  // ----- sort.Strings -----

  /** The order of sort.Strings. */
  predicate Before(a: string, b: string) {
    Text.Less(a, b)
  }

  lemma BeforeIsOrder()
    ensures StrictWeakOrder(Before)
  {
    forall a, b | Before(a, b) ensures !Before(b, a) {
      Text.LessTotal(a, b);
    }
    forall a, b, c | Before(a, b) ensures Before(a, c) || Before(c, b) {
      Text.LessTotal(a, c);
      if Text.Less(c, a) {
        Text.LessTransitive(c, a, b);
      }
    }
  }

  ghost predicate Distinct(s: seq<string>) {
    forall x :: multiset(s)[x] <= 1
  }

  lemma DistinctDiffer(s: seq<string>, i: nat, j: nat)
    requires Distinct(s) && i < j < |s|
    ensures s[i] != s[j]
  {
    assert s == s[..i] + [s[i]] + s[i + 1..j] + [s[j]] + s[j + 1..];
    assert multiset(s)[s[i]] >= if s[i] == s[j] then 2 else 1;
  }

  ghost predicate StrictlySorted(s: seq<string>) {
    forall i, j | 0 <= i < j < |s| :: Text.Less(s[i], s[j])
  }

  lemma SortedListIsStrict(list: seq<string>)
    requires Distinct(list)
    ensures StrictlySorted(StableSort(list, Before))
  {
    var out := StableSort(list, Before);
    BeforeIsOrder();
    SortOrders(list, Before);
    SortPermutes(list, Before);
    forall i, j | 0 <= i < j < |out| ensures Text.Less(out[i], out[j]) {
      assert !Before(out[j], out[i]);
      DistinctDiffer(out, i, j);
      Text.LessTotal(out[i], out[j]);
    }
  }

  /** A strictly sorted list is fixed by its elements, so the random order of map iteration does not show. */
  lemma {:induction false} SortedListIsUnique(a: seq<string>, b: seq<string>)
    requires StrictlySorted(a) && StrictlySorted(b) && forall x :: x in a <==> x in b
    ensures a == b
  {
    if a == [] {
      if b != [] {
        SameLeast(b, a);
      }
    } else {
      assert a[0] in b;
      assert a[0] == b[0] by { SameLeast(a, b); }
      forall x ensures x in a[1..] <==> x in b[1..] {
        StrictTail(a, x);
        StrictTail(b, x);
      }
      SortedListIsUnique(a[1..], b[1..]);
    }
  }

  lemma StrictTail(a: seq<string>, x: string)
    requires a != [] && StrictlySorted(a)
    ensures x in a[1..] <==> x in a && x != a[0]
  {
    assert a == [a[0]] + a[1..];
    Text.LessTotal(a[0], a[0]);
    assert forall k | 0 < k < |a| :: Text.Less(a[0], a[k]);
  }

  lemma SameLeast(a: seq<string>, b: seq<string>)
    requires a != [] && StrictlySorted(a) && StrictlySorted(b) && forall x :: x in a <==> x in b
    ensures b != [] && a[0] == b[0]
  {
    assert a[0] in b;
    assert b[0] in a;
    var i :| 0 <= i < |b| && b[i] == a[0];
    var j :| 0 <= j < |a| && a[j] == b[0];
    Text.LessTotal(a[0], b[0]);
  }
}
