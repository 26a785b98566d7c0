/** Go's ordering of strings and the sort `filepath.Glob` applies to the
    names of a directory before it matches them. */
module Order {

  // ---------------------------------------------------------------------------
  // The order
  // ---------------------------------------------------------------------------

  /** Go's `a < b` on strings: lexicographic, a proper prefix first. Go
      compares UTF-8 bytes, and UTF-8 preserves the order of code points, so
      comparing the chars gives the same answer. */
  predicate Less(a: string, b: string)
    decreases |a|
  {
    |b| > 0 && (|a| == 0 || a[0] < b[0] || (a[0] == b[0] && Less(a[1..], b[1..])))
  }

  predicate LessOrEqual(a: string, b: string) {
    a == b || Less(a, b)
  }

  lemma {:induction false} LessIrreflexive(a: string)
    ensures !Less(a, a)
    decreases |a|
  {
    if |a| > 0 {
      LessIrreflexive(a[1..]);
    }
  }

  lemma {:induction false} LessTransitive(a: string, b: string, c: string)
    requires Less(a, b) && Less(b, c)
    ensures Less(a, c)
    decreases |a|
  {
    if |a| > 0 && a[0] == b[0] && b[0] == c[0] {
      LessTransitive(a[1..], b[1..], c[1..]);
    }
  }

  /** Any two strings are comparable. */
  lemma {:induction false} LessTotal(a: string, b: string)
    ensures a == b || Less(a, b) || Less(b, a)
    decreases |a|
  {
    if |a| > 0 && |b| > 0 && a[0] == b[0] {
      LessTotal(a[1..], b[1..]);
      if a[1..] == b[1..] {
        assert a == [a[0]] + a[1..] && b == [b[0]] + b[1..];
      }
    }
  }

  lemma LessOrEqualTransitive(a: string, b: string, c: string)
    requires LessOrEqual(a, b) && LessOrEqual(b, c)
    ensures LessOrEqual(a, c)
  {
    if Less(a, b) && Less(b, c) {
      LessTransitive(a, b, c);
    }
  }

  lemma LessOrEqualAntisymmetric(a: string, b: string)
    requires LessOrEqual(a, b) && LessOrEqual(b, a)
    ensures a == b
  {
    if a != b {
      LessTransitive(a, b, a);
      LessIrreflexive(a);
    }
  }

  /** A common prefix does not change the order: why sorting the names of a
      directory sorts the paths built from them. */
  lemma {:induction false} LessUnderPrefix(p: string, a: string, b: string)
    ensures Less(p + a, p + b) <==> Less(a, b)
    decreases |p|
  {
    if |p| == 0 {
      assert p + a == a && p + b == b;
    } else {
      assert (p + a)[1..] == p[1..] + a && (p + b)[1..] == p[1..] + b;
      LessUnderPrefix(p[1..], a, b);
    }
  }

  // ---------------------------------------------------------------------------
  // Sorting
  // ---------------------------------------------------------------------------

  predicate Sorted(s: seq<string>) {
    forall i, j :: 0 <= i < j < |s| ==> LessOrEqual(s[i], s[j])
  }

  /** `y` is at most every element of `s`. */
  predicate LowerBound(y: string, s: seq<string>) {
    forall k :: 0 <= k < |s| ==> LessOrEqual(y, s[k])
  }

  lemma PrependSorted(y: string, s: seq<string>)
    requires Sorted(s) && LowerBound(y, s)
    ensures Sorted([y] + s)
  {
    var r := [y] + s;
    forall i, j | 0 <= i < j < |r|
      ensures LessOrEqual(r[i], r[j])
    {
      if i > 0 {
        assert r[i] == s[i - 1] && r[j] == s[j - 1];
      } else {
        assert r[j] == s[j - 1];
      }
    }
  }

  /** What is at most the first of a sorted sequence is at most all of it. */
  lemma BoundByFirst(x: string, s: seq<string>)
    requires Sorted(s) && |s| > 0 && LessOrEqual(x, s[0])
    ensures LowerBound(x, s)
  {
    forall k | 0 <= k < |s|
      ensures LessOrEqual(x, s[k])
    {
      LessOrEqualTransitive(x, s[0], s[k]);
    }
  }

  lemma BoundsOfTail(s: seq<string>)
    requires |s| > 0
    ensures forall y :: LowerBound(y, s) ==> LowerBound(y, s[1..]) && LessOrEqual(y, s[0])
  {
    forall y | LowerBound(y, s)
      ensures LowerBound(y, s[1..]) && LessOrEqual(y, s[0])
    {
      forall k | 0 <= k < |s| - 1
        ensures LessOrEqual(y, s[1..][k])
      {
        assert s[1..][k] == s[k + 1];
      }
    }
  }

  lemma PrependBound(y: string, z: string, s: seq<string>)
    requires LessOrEqual(y, z) && LowerBound(y, s)
    ensures LowerBound(y, [z] + s)
  {
    forall k | 0 <= k < |s| + 1
      ensures LessOrEqual(y, ([z] + s)[k])
    {
      if k > 0 {
        assert ([z] + s)[k] == s[k - 1];
      }
    }
  }

  /** The recursive step of `Insert`: `x` goes after the first element, into
      the rest, and `rest` is that insertion as its contract describes it. */
  lemma InsertAfterFirst(x: string, s: seq<string>, rest: seq<string>)
    requires Sorted(s) && |s| > 0 && !LessOrEqual(x, s[0])
    requires Sorted(rest) && multiset(rest) == multiset(s[1..]) + multiset{x}
    requires forall y :: LowerBound(y, s[1..]) && LessOrEqual(y, x) ==> LowerBound(y, rest)
    ensures Sorted([s[0]] + rest)
    ensures multiset([s[0]] + rest) == multiset(s) + multiset{x}
    ensures forall y :: LowerBound(y, s) && LessOrEqual(y, x) ==> LowerBound(y, [s[0]] + rest)
  {
    SortedTail(s);
    assert LessOrEqual(s[0], x) by {
      LessTotal(x, s[0]);
    }
    PrependSorted(s[0], rest);
    assert s == [s[0]] + s[1..];
    BoundsOfTail(s);
    forall y | LowerBound(y, s) && LessOrEqual(y, x)
      ensures LowerBound(y, [s[0]] + rest)
    {
      PrependBound(y, s[0], rest);
    }
  }

  /** `x` put in its place in the sorted `s`. */
  function Insert(x: string, s: seq<string>): (r: seq<string>)
    requires Sorted(s)
    ensures Sorted(r)
    ensures multiset(r) == multiset(s) + multiset{x}
    // whatever bounds both `x` and `s` from below bounds the result
    ensures forall y :: LowerBound(y, s) && LessOrEqual(y, x) ==> LowerBound(y, r)
    decreases |s|
  {
    if |s| == 0 then [x]
    else if LessOrEqual(x, s[0]) then
      BoundByFirst(x, s);
      PrependSorted(x, s);
      [x] + s
    else
      SortedTail(s);
      var rest := Insert(x, s[1..]);
      InsertAfterFirst(x, s, rest);
      [s[0]] + rest
  }

  /** Insertion sort: Go's `sort.Strings` as far as its result goes. */
  function Sort(s: seq<string>): (r: seq<string>)
    ensures Sorted(r)
    ensures multiset(r) == multiset(s)
  {
    if |s| == 0 then []
    else
      assert s == [s[0]] + s[1..];
      Insert(s[0], Sort(s[1..]))
  }

  lemma SortedTail(s: seq<string>)
    requires Sorted(s) && |s| > 0
    ensures Sorted(s[1..]) && LowerBound(s[0], s[1..])
  {
    forall i, j | 0 <= i < j < |s| - 1
      ensures LessOrEqual(s[1..][i], s[1..][j])
    {
      assert s[1..][i] == s[i + 1] && s[1..][j] == s[j + 1];
    }
    forall k | 0 <= k < |s| - 1
      ensures LessOrEqual(s[0], s[1..][k])
    {
      assert s[1..][k] == s[k + 1];
    }
  }

  /** Two sorted arrangements of one multiset start with the same string. */
  lemma SameFirst(a: seq<string>, b: seq<string>)
    requires Sorted(a) && Sorted(b) && multiset(a) == multiset(b) && |a| > 0
    ensures |b| > 0 && a[0] == b[0]
  {
    assert a[0] in multiset(b) && |b| > 0;
    assert b[0] in multiset(a);
    var i :| 0 <= i < |a| && a[i] == b[0];
    var j :| 0 <= j < |b| && b[j] == a[0];
    assert LessOrEqual(a[0], a[i]) && LessOrEqual(b[0], b[j]);
    LessOrEqualAntisymmetric(a[0], b[0]);
  }

  /** There is one sorted arrangement of a multiset of strings, so what a
      sort returns depends only on the elements, not on their order. */
  lemma {:induction false} SortedUnique(a: seq<string>, b: seq<string>)
    requires Sorted(a) && Sorted(b) && multiset(a) == multiset(b)
    ensures a == b
    decreases |a|
  {
    if |a| > 0 {
      SameFirst(a, b);
      assert a == [a[0]] + a[1..] && b == [b[0]] + b[1..];
      assert multiset(a[1..]) == multiset(a) - multiset{a[0]};
      assert multiset(b[1..]) == multiset(b) - multiset{b[0]};
      SortedTail(a);
      SortedTail(b);
      SortedUnique(a[1..], b[1..]);
    }
  }

  /** Two names come out of a sort in their order, whichever came first. */
  lemma SortPair(a: string, b: string)
    requires Less(a, b)
    ensures Sort([b, a]) == [a, b]
  {
    assert Sorted([a, b]);
    assert multiset([b, a]) == multiset([a, b]);
    SortedUnique(Sort([b, a]), [a, b]);
  }

  /** Sorting two listings of the same names gives the same sequence. */
  lemma SortIgnoresOrder(a: seq<string>, b: seq<string>)
    requires multiset(a) == multiset(b)
    ensures Sort(a) == Sort(b)
  {
    SortedUnique(Sort(a), Sort(b));
  }
}
