/** Discovery (scripts/create_pdf.py:10-13): the notebook paths matched by the
    file-name pattern, in the order Python's `sorted` puts strings, which
    compares them character by character by code point. */
module Discovery {

  /** Python's `a <= b` on strings: `a` is a prefix of `b`, or at the first
      position where they differ `a` has the smaller character. */
  predicate LessEq(a: string, b: string)
    decreases |a|
  {
    a == [] || (b != [] && (a[0] < b[0] || (a[0] == b[0] && LessEq(a[1..], b[1..]))))
  }

  lemma {:induction false} LessEqTotal(a: string, b: string)
    ensures LessEq(a, b) || LessEq(b, a)
    decreases |a|
  {
    if a != [] && b != [] && a[0] == b[0] {
      LessEqTotal(a[1..], b[1..]);
    }
  }

  lemma {:induction false} LessEqTransitive(a: string, b: string, c: string)
    requires LessEq(a, b) && LessEq(b, c)
    ensures LessEq(a, c)
    decreases |a|
  {
    if a != [] && a[0] == b[0] && b[0] == c[0] {
      LessEqTransitive(a[1..], b[1..], c[1..]);
    }
  }

  lemma {:induction false} LessEqAntisymmetric(a: string, b: string)
    requires LessEq(a, b) && LessEq(b, a)
    ensures a == b
    decreases |a|
  {
    if a != [] {
      LessEqAntisymmetric(a[1..], b[1..]);
      assert a == [a[0]] + a[1..] && b == [b[0]] + b[1..];
    }
  }

  /** Each name is at most the next one. */
  predicate Sorted(s: seq<string>)
  {
    forall i :: 0 < i < |s| ==> LessEq(s[i - 1], s[i])
  }

  /** In a sorted list every name is at most every later one. */
  lemma {:induction false} SortedPairwise(s: seq<string>, i: nat, j: nat)
    requires Sorted(s) && i <= j < |s|
    ensures LessEq(s[i], s[j])
    decreases j - i
  {
    if i == j {
      LessEqTotal(s[i], s[i]);
    } else {
      SortedPairwise(s, i + 1, j);
      LessEqTransitive(s[i], s[i + 1], s[j]);
    }
  }

  /** Puts `x` into a sorted list before the first name it is at most. */
  function Insert(x: string, s: seq<string>): (r: seq<string>)
    requires Sorted(s)
    ensures Sorted(r)
    ensures multiset(r) == multiset(s) + multiset{x}
    ensures r[0] == x || (s != [] && r[0] == s[0])
  {
    if s == [] then [x]
    else if LessEq(x, s[0]) then [x] + s
    else
      LessEqTotal(x, s[0]);
      assert s == [s[0]] + s[1..];
      [s[0]] + Insert(x, s[1..])
  }

  /** `sorted(notebooks)` */
  function SortNames(names: seq<string>): (r: seq<string>)
    ensures Sorted(r)
    ensures multiset(r) == multiset(names)
    ensures |r| == |names|
  {
    if names == [] then []
    else
      assert names == [names[0]] + names[1..];
      Insert(names[0], SortNames(names[1..]))
  }

  /** Removing the first element removes one occurrence of it. */
  lemma MultisetTail(a: seq<string>)
    requires a != []
    ensures multiset(a[1..]) == multiset(a) - multiset{a[0]}
  {
    assert a == [a[0]] + a[1..];
  }

  /** Two sorted lists with the same elements start with the same element. */
  lemma SortedSameHead(a: seq<string>, b: seq<string>)
    requires Sorted(a) && Sorted(b) && multiset(a) == multiset(b) && a != []
    ensures b != [] && a[0] == b[0]
  {
    assert a[0] in multiset(b);
    var j :| 0 <= j < |b| && b[j] == a[0];
    assert b[0] in multiset(a);
    var i :| 0 <= i < |a| && a[i] == b[0];
    SortedPairwise(a, 0, i);
    SortedPairwise(b, 0, j);
    LessEqAntisymmetric(a[0], b[0]);
  }

  /** Two sorted lists holding the same names are the same list: whatever
      algorithm sorts the names, the result is `SortNames`. */
  lemma {:induction false} SortedUnique(a: seq<string>, b: seq<string>)
    requires Sorted(a) && Sorted(b) && multiset(a) == multiset(b)
    ensures a == b
    decreases |a|
  {
    if a != [] {
      SortedSameHead(a, b);
      MultisetTail(a);
      MultisetTail(b);
      SortedUnique(a[1..], b[1..]);
      assert a == [a[0]] + a[1..] && b == [b[0]] + b[1..];
    } else {
      assert |b| == |multiset(b)| == 0;
    }
  }

  predicate Distinct(s: seq<string>)
  {
    forall i, j :: 0 <= i < j < |s| ==> s[i] != s[j]
  }

  lemma {:induction false} DistinctIff(s: seq<string>)
    ensures Distinct(s) <==> forall x :: multiset(s)[x] <= 1
  {
    if s != [] {
      DistinctIff(s[1..]);
      assert s == [s[0]] + s[1..];
      assert multiset(s) == multiset{s[0]} + multiset(s[1..]);
      if Distinct(s) {
        assert s[0] !in s[1..];
        assert Distinct(s[1..]);
      } else {
        var i, j :| 0 <= i < j < |s| && s[i] == s[j];
        if i == 0 {
          assert s[j] in s[1..];
          assert multiset(s)[s[0]] >= 2;
        } else {
          assert s[1..][i - 1] == s[1..][j - 1];
          assert !Distinct(s[1..]);
          var x :| multiset(s[1..])[x] > 1;
          assert multiset(s)[x] > 1;
        }
      }
    }
  }

  /** Sorting names with no repetition gives a strictly increasing list. */
  lemma SortedDistinctStrict(names: seq<string>)
    requires Distinct(names)
    ensures Distinct(SortNames(names))
    ensures forall i, j :: 0 <= i < j < |SortNames(names)| ==>
      LessEq(SortNames(names)[i], SortNames(names)[j]) && SortNames(names)[i] != SortNames(names)[j]
  {
    var r := SortNames(names);
    DistinctIff(names);
    DistinctIff(r);
    forall i, j | 0 <= i < j < |r| ensures LessEq(r[i], r[j]) {
      SortedPairwise(r, i, j);
    }
  }

  predicate IsDigit(c: char) { '0' <= c <= '9' }

  function Pow10(n: nat): (p: nat)
    ensures p >= 1
  {
    if n == 0 then 1 else 10 * Pow10(n - 1)
  }

  /** The number a string of decimal digits spells. */
  function DigitsValue(d: string): (v: nat)
    requires forall k :: 0 <= k < |d| ==> IsDigit(d[k])
    ensures v < Pow10(|d|)
  {
    if d == [] then 0
    else
      assert IsDigit(d[0]);
      var a, p, t := d[0] as int - '0' as int, Pow10(|d| - 1), DigitsValue(d[1..]);
      MulMonotone(a, 9, p);
      assert a * p + t < 9 * p + p == Pow10(|d|);
      a * p + t
  }

  /** A common prefix does not change how two strings compare. */
  lemma {:induction false} LessEqCommonPrefix(p: string, a: string, b: string)
    ensures LessEq(a, b) <==> LessEq(p + a, p + b)
  {
    if p != [] {
      assert (p + a)[0] == p[0] == (p + b)[0];
      assert (p + a)[1..] == p[1..] + a && (p + b)[1..] == p[1..] + b;
      LessEqCommonPrefix(p[1..], a, b);
    } else {
      assert p + a == a && p + b == b;
    }
  }

  lemma MulMonotone(x: int, y: int, p: nat)
    requires 0 <= x <= y
    ensures 0 <= x * p <= y * p
  {
  }

  lemma LeadingTermDominates(v1: int, v2: int, a: nat, b: nat, p: nat, t1: nat, t2: nat)
    requires b < a && t2 < p
    requires v1 == a * p + t1 && v2 == b * p + t2
    ensures v2 < v1
  {
    MulMonotone(b + 1, a, p);
    assert (b + 1) * p == b * p + p;
  }

  /** A larger leading digit makes a larger number among digit strings of one width. */
  lemma LeadingDigitDominates(d1: string, d2: string)
    requires |d1| == |d2| > 0
    requires forall k :: 0 <= k < |d1| ==> IsDigit(d1[k]) && IsDigit(d2[k])
    requires d2[0] < d1[0]
    ensures DigitsValue(d2) < DigitsValue(d1)
  {
    assert IsDigit(d1[0]) && IsDigit(d2[0]);
    LeadingTermDominates(DigitsValue(d1), DigitsValue(d2),
      d1[0] as int - '0' as int, d2[0] as int - '0' as int,
      Pow10(|d1| - 1), DigitsValue(d1[1..]), DigitsValue(d2[1..]));
  }

  /** Zero-padded numbers of one width compare as strings the way they
      compare as numbers, whatever follows them. */
  lemma {:induction false} PaddedNumberOrder(d1: string, d2: string, r1: string, r2: string)
    requires |d1| == |d2|
    requires forall k :: 0 <= k < |d1| ==> IsDigit(d1[k]) && IsDigit(d2[k])
    requires DigitsValue(d1) < DigitsValue(d2)
    ensures LessEq(d1 + r1, d2 + r2) && d1 + r1 != d2 + r2
  {
    var s1, s2 := d1 + r1, d2 + r2;
    assert s1[0] == d1[0] && s2[0] == d2[0];
    if d2[0] < d1[0] {
      LeadingDigitDominates(d1, d2);
    }
    if d1[0] < d2[0] {
      assert s1 != s2 by { assert s1[0] != s2[0]; }
    } else {
      assert s1[1..] == d1[1..] + r1 && s2[1..] == d2[1..] + r2;
      PaddedNumberOrder(d1[1..], d2[1..], r1, r2);
      assert s1 != s2 by { assert s1[1..] != s2[1..]; }
    }
  }

  /** A notebook path `dir` + `width` digits + anything. */
  predicate Numbered(s: string, dir: string, width: nat)
  {
    |dir| + width <= |s| && s[..|dir|] == dir
    && forall k :: |dir| <= k < |dir| + width ==> IsDigit(s[k])
  }

  /** The number in a numbered path's prefix. */
  function Ordinal(s: string, dir: string, width: nat): nat
    requires Numbered(s, dir, width)
  {
    var d := s[|dir|..|dir| + width];
    assert forall k :: 0 <= k < |d| ==> d[k] == s[|dir| + k];
    DigitsValue(d)
  }

  /** A numbered path is the directory, its digits and the rest. */
  lemma NumberedParts(s: string, dir: string, width: nat)
    requires Numbered(s, dir, width)
    ensures var n := |dir| + width;
      s == dir + (s[|dir|..n] + s[n..])
      && (forall k :: 0 <= k < width ==> IsDigit(s[|dir|..n][k]))
      && Ordinal(s, dir, width) == DigitsValue(s[|dir|..n])
  {
    var n := |dir| + width;
    assert s == s[..|dir|] + s[|dir|..n] + s[n..];
    forall k | 0 <= k < width ensures IsDigit(s[|dir|..n][k]) {
      assert s[|dir|..n][k] == s[|dir| + k];
    }
  }

  /** Of two numbered paths, the one with the smaller number sorts first. */
  lemma OrdinalOrder(s1: string, s2: string, dir: string, width: nat)
    requires Numbered(s1, dir, width) && Numbered(s2, dir, width)
    requires Ordinal(s1, dir, width) < Ordinal(s2, dir, width)
    ensures LessEq(s1, s2) && s1 != s2
  {
    var n := |dir| + width;
    var d1, d2 := s1[|dir|..n], s2[|dir|..n];
    NumberedParts(s1, dir, width);
    NumberedParts(s2, dir, width);
    PaddedNumberOrder(d1, d2, s1[n..], s2[n..]);
    LessEqCommonPrefix(dir, d1 + s1[n..], d2 + s2[n..]);
  }

  /** With zero-padded numeric prefixes of one width and no number used twice,
      discovery lists the notebooks in strictly increasing number order. */
  lemma DiscoveryFollowsNumbers(names: seq<string>, dir: string, width: nat)
    requires forall k :: 0 <= k < |names| ==> Numbered(names[k], dir, width)
    requires forall k, l :: 0 <= k < l < |names| ==>
      Ordinal(names[k], dir, width) != Ordinal(names[l], dir, width)
    ensures forall i :: 0 <= i < |SortNames(names)| ==> Numbered(SortNames(names)[i], dir, width)
    ensures forall i, j :: 0 <= i < j < |SortNames(names)| ==>
      Ordinal(SortNames(names)[i], dir, width) < Ordinal(SortNames(names)[j], dir, width)
  {
    var r := SortNames(names);
    assert Distinct(names);
    SortedDistinctStrict(names);
    forall i | 0 <= i < |r| ensures Numbered(r[i], dir, width) {
      assert r[i] in multiset(names);
    }
    forall i, j | 0 <= i < j < |r|
      ensures Ordinal(r[i], dir, width) < Ordinal(r[j], dir, width)
    {
      assert r[i] in multiset(names) && r[j] in multiset(names);
      var k :| 0 <= k < |names| && names[k] == r[i];
      var l :| 0 <= l < |names| && names[l] == r[j];
      assert k != l;
      if Ordinal(r[j], dir, width) < Ordinal(r[i], dir, width) {
        OrdinalOrder(r[j], r[i], dir, width);
        LessEqAntisymmetric(r[i], r[j]);
      }
    }
  }

  /** The prefix is compared as text, not as a number: without zero-padding,
      a notebook numbered 10 is listed before one numbered 2. */
  lemma UnpaddedPrefixesSortAsText(dir: string)
    ensures SortNames([dir + "2_b.ipynb", dir + "10_a.ipynb"]) == [dir + "10_a.ipynb", dir + "2_b.ipynb"]
  {
    var ten, two := dir + "10_a.ipynb", dir + "2_b.ipynb";
    assert LessEq("10_a.ipynb", "2_b.ipynb");
    LessEqCommonPrefix(dir, "10_a.ipynb", "2_b.ipynb");
    var s := [ten, two];
    assert Sorted(s);
    assert multiset(s) == multiset([two, ten]);
    SortedUnique(SortNames([two, ten]), s);
  }
}
