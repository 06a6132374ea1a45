/** Strings as the control plane compares, trims and prints them. */
module Text {

  /** The order of store keys and of sort.Strings: lexicographic, shorter first. */
  predicate Less(a: string, b: string) {
    if b == [] then false
    else if a == [] then true
    else a[0] < b[0] || (a[0] == b[0] && Less(a[1..], b[1..]))
  }

  lemma {:induction false} LessTransitive(a: string, b: string, c: string)
    requires Less(a, b) && Less(b, c)
    ensures Less(a, c)
  {
    if a != [] && a[0] == b[0] == c[0] {
      LessTransitive(a[1..], b[1..], c[1..]);
    }
  }

  lemma {:induction false} LessTotal(a: string, b: string)
    ensures Less(a, b) || Less(b, a) || a == b
    ensures !(Less(a, b) && Less(b, a))
    ensures !Less(a, a)
  {
    if a != [] && b != [] && a[0] == b[0] {
      LessTotal(a[1..], b[1..]);
      assert a == [a[0]] + a[1..] && b == [b[0]] + b[1..];
    } else if a != [] {
      LessTotal(a[1..], a[1..]);
    }
  }

  /** A common prefix does not change a comparison. */
  lemma {:induction false} LessSamePrefix(p: string, a: string, b: string)
    ensures Less(p + a, p + b) <==> Less(a, b)
  {
    if p == [] {
      assert p + a == a && p + b == b;
    } else {
      assert (p + a)[1..] == p[1..] + a && (p + b)[1..] == p[1..] + b;
      LessSamePrefix(p[1..], a, b);
    }
  }

  predicate HasPrefix(s: string, p: string) {
    p <= s
  }

  function TrimPrefix(s: string, p: string): string {
    if p <= s then s[|p|..] else s
  }

  /** The keys that carry a prefix form an interval that starts at the prefix itself. */
  lemma {:induction false} PrefixIsInterval(p: string, a: string, b: string)
    requires HasPrefix(a, p)
    requires b == a || Less(a, b)
    ensures !Less(a, p)
    ensures HasPrefix(b, p) || forall c: string | HasPrefix(c, p) :: Less(c, b)
  {
    if p == [] {
    } else {
      assert a[0] == p[0];
      assert HasPrefix(a[1..], p[1..]) by { assert a == p + a[|p|..]; }
      if b[0] == a[0] {
        PrefixIsInterval(p[1..], a[1..], b[1..]);
        if HasPrefix(b[1..], p[1..]) {
          assert b == [b[0]] + b[1..] && p == [p[0]] + p[1..];
        } else {
          forall c: string | HasPrefix(c, p) ensures Less(c, b) {
            assert c == p + c[|p|..];
            assert c[0] == p[0] && HasPrefix(c[1..], p[1..]);
          }
        }
      } else {
        LessTotal(a, p);
        PrefixNotBelow(p, a);
        forall c: string | HasPrefix(c, p) ensures Less(c, b) {
          assert c[0] == p[0];
        }
      }
    }
  }

  lemma {:induction false} PrefixNotBelow(p: string, a: string)
    requires HasPrefix(a, p)
    ensures !Less(a, p)
  {
    if p != [] {
      assert a == p + a[|p|..];
      PrefixNotBelow(p[1..], a[1..]);
    }
  }

  /** unicode.IsSpace. */
  predicate IsSpace(c: char) {
    || '\t' <= c <= '\r'
    || c == ' '
    || c == '\U{0085}' || c == '\U{00A0}' || c == '\U{1680}'
    || '\U{2000}' <= c <= '\U{200A}'
    || c == '\U{2028}' || c == '\U{2029}' || c == '\U{202F}' || c == '\U{205F}' || c == '\U{3000}'
  }

  function TrimLeft(s: string): string {
    if s != [] && IsSpace(s[0]) then TrimLeft(s[1..]) else s
  }

  function TrimRight(s: string): string {
    if s != [] && IsSpace(s[|s| - 1]) then TrimRight(s[..|s| - 1]) else s
  }

  /** strings.TrimSpace. */
  function TrimSpace(s: string): string {
    TrimRight(TrimLeft(s))
  }

  predicate IsBlank(s: string) {
    TrimSpace(s) == ""
  }

  lemma {:induction false} TrimLeftExactly(s: string) returns (n: nat)
    ensures n <= |s| && TrimLeft(s) == s[n..] && (forall i | 0 <= i < n :: IsSpace(s[i])) && (n < |s| ==> !IsSpace(s[n]))
  {
    n := 0;
    if s != [] && IsSpace(s[0]) {
      var m := TrimLeftExactly(s[1..]);
      n := m + 1;
    }
  }

  lemma {:induction false} TrimRightExactly(s: string)
    ensures var n := |TrimRight(s)|;
            n <= |s| && TrimRight(s) == s[..n] && (forall i | n <= i < |s| :: IsSpace(s[i])) && (n > 0 ==> !IsSpace(s[n - 1]))
  {
    if s != [] && IsSpace(s[|s| - 1]) {
      TrimRightExactly(s[..|s| - 1]);
    }
  }

  /** Trimming cuts white space off both ends and stops at the first other character. */
  lemma TrimSpaceExactly(s: string) returns (n: nat)
    ensures var t := TrimSpace(s);
            && n + |t| <= |s| && t == s[n..n + |t|]
            && (forall i | 0 <= i < n || n + |t| <= i < |s| :: IsSpace(s[i]))
            && (t != [] ==> !IsSpace(t[0]) && !IsSpace(t[|t| - 1]))
  {
    n := TrimLeftExactly(s);
    TrimRightExactly(s[n..]);
    var t := TrimSpace(s);
    forall i | n + |t| <= i < |s| ensures IsSpace(s[i]) {
      assert s[n..][i - n] == s[i];
    }
  }

  /** A word of lower-case letters has no space to trim. */
  lemma WordNotBlank(s: string)
    requires s != [] && forall c | c in s :: 'a' <= c <= 'z'
    ensures TrimSpace(s) == s && !IsBlank(s)
  {
    assert s[0] in s && s[|s| - 1] in s;
  }

  function LowerChar(c: char): char {
    if 'A' <= c <= 'Z' then c + ' ' else c
  }

  /** strings.ToLower on ASCII letters. */
  function ToLower(s: string): string {
    if s == [] then [] else [LowerChar(s[0])] + ToLower(s[1..])
  }

  /** Capitals become the small letters of the same place in the alphabet; everything else stays. */
  lemma {:induction false} ToLowerAt(s: string)
    ensures |ToLower(s)| == |s|
    ensures forall i | 0 <= i < |s| ::
              ToLower(s)[i] as int == if 'A' <= s[i] <= 'Z' then s[i] as int - 'A' as int + 'a' as int else s[i] as int
  {
    if s != [] {
      ToLowerAt(s[1..]);
    }
  }

  /** strings.EqualFold on ASCII letters. */
  predicate EqualFold(a: string, b: string) {
    ToLower(a) == ToLower(b)
  }

  function Digit(n: nat): char
    requires n < 10
  {
    '0' + n as char
  }

  /** The "%d" rendering of a non-negative number. */
  function Decimal(n: nat): string
    ensures Decimal(n) != []
    ensures forall c | c in Decimal(n) :: '0' <= c <= '9'
  {
    if n < 10 then [Digit(n)] else Decimal(n / 10) + [Digit(n % 10)]
  }

  function Pow10(k: nat): nat
    ensures Pow10(k) > 0
  {
    if k == 0 then 1 else 10 * Pow10(k - 1)
  }

  /** The width of a decimal rendering is fixed by the power of ten below it. */
  lemma {:induction false} DecimalWidth(n: nat, k: nat)
    requires Pow10(k) <= n < Pow10(k + 1)
    ensures |Decimal(n)| == k + 1
  {
    if k > 0 {
      DecimalWidth(n / 10, k - 1);
    }
  }

  lemma {:induction false} LessAppendSame(x: string, y: string, c: char, d: char)
    requires |x| == |y|
    ensures Less(x + [c], y + [d]) <==> Less(x, y) || (x == y && c < d)
  {
    if x == [] {
      assert x + [c] == [c] && y + [d] == [d];
    } else {
      assert (x + [c])[1..] == x[1..] + [c] && (y + [d])[1..] == y[1..] + [d];
      LessAppendSame(x[1..], y[1..], c, d);
      assert x == [x[0]] + x[1..] && y == [y[0]] + y[1..];
    }
  }

  /** Equal widths make the textual and the numeric order the same. */
  lemma {:induction false} DecimalOrder(a: nat, b: nat)
    requires |Decimal(a)| == |Decimal(b)|
    ensures Less(Decimal(a), Decimal(b)) <==> a < b
    ensures Decimal(a) == Decimal(b) <==> a == b
  {
    if a >= 10 { DecimalLong(a); }
    if b >= 10 { DecimalLong(b); }
    if a >= 10 && b >= 10 {
      DecimalOrder(a / 10, b / 10);
      LessAppendSame(Decimal(a / 10), Decimal(b / 10), Digit(a % 10), Digit(b % 10));
      assert Decimal(a)[|Decimal(a)| - 1] == Digit(a % 10);
      assert Decimal(b)[|Decimal(b)| - 1] == Digit(b % 10);
      if Decimal(a) == Decimal(b) {
        assert Decimal(a / 10) == Decimal(a)[..|Decimal(a)| - 1];
        assert Decimal(b / 10) == Decimal(b)[..|Decimal(b)| - 1];
      }
    }
  }

  lemma DecimalLong(n: nat)
    requires n >= 10
    ensures |Decimal(n)| >= 2
  {
  }

  lemma ShorterStemDiffers(a: string, b: string, m: nat, n: nat)
    requires |a| < |b|
    ensures a + "-" + Decimal(m) != b + "-" + Decimal(n)
  {
    var x, y := a + "-" + Decimal(m), b + "-" + Decimal(n);
    assert y[|b|] == '-';
    if |x| == |y| {
      assert x[|b|] == Decimal(m)[|b| - |a| - 1];
      assert x[|b|] in Decimal(m);
    }
  }

  /** Two texts that end in a dash and a number carry the same number when they are equal. */
  lemma DashedNumber(a: string, b: string, m: nat, n: nat)
    requires a + "-" + Decimal(m) == b + "-" + Decimal(n)
    ensures m == n && a == b
  {
    var x, y := a + "-" + Decimal(m), b + "-" + Decimal(n);
    assert |a| == |b| by {
      if |a| < |b| { ShorterStemDiffers(a, b, m, n); }
      if |b| < |a| { ShorterStemDiffers(b, a, n, m); }
    }
    assert a == x[..|a|] == b;
    assert Decimal(m) == x[|a| + 1..] == y[|b| + 1..] == Decimal(n);
    DecimalOrder(m, n);
  }
}
