/**
 * Facts about sequences of keys shared by the two search-tree models:
 * a binary search tree is one whose in-order sequence is strictly increasing.
 */
module Sequences {

  /** Every element is smaller than the ones after it (so, no duplicates). */
  ghost predicate StrictlyIncreasing(s: seq<int>) {
    forall i, j :: 0 <= i < j < |s| ==> s[i] < s[j]
  }

  /** `s` with every occurrence of `x` taken out, order kept. */
  function Without(s: seq<int>, x: int): (r: seq<int>)
    ensures forall y :: y in r <==> y in s && y != x
    ensures |r| <= |s|
  {
    if s == [] then []
    else if s[0] == x then Without(s[1..], x)
    else [s[0]] + Without(s[1..], x)
  }

  /**
   * A strictly increasing sequence split around one element: the left part
   * lies strictly below it, the right part strictly above, and both parts are
   * themselves strictly increasing; and conversely.
   */
  lemma SplitIncreasing(a: seq<int>, k: int, b: seq<int>)
    ensures StrictlyIncreasing(a + [k] + b) <==>
      StrictlyIncreasing(a) && StrictlyIncreasing(b) &&
      (forall x :: x in a ==> x < k) && (forall y :: y in b ==> k < y)
  {
    var s := a + [k] + b;
    if StrictlyIncreasing(s) {
      forall x | x in a ensures x < k {
        var i :| 0 <= i < |a| && a[i] == x;
        assert s[i] == x && s[|a|] == k;
      }
      forall y | y in b ensures k < y {
        var j :| 0 <= j < |b| && b[j] == y;
        assert s[|a| + 1 + j] == y && s[|a|] == k;
      }
      forall i, j | 0 <= i < j < |a| ensures a[i] < a[j] {
        assert s[i] == a[i] && s[j] == a[j];
      }
      forall i, j | 0 <= i < j < |b| ensures b[i] < b[j] {
        assert s[|a| + 1 + i] == b[i] && s[|a| + 1 + j] == b[j];
      }
    }
    if StrictlyIncreasing(a) && StrictlyIncreasing(b) &&
       (forall x :: x in a ==> x < k) && (forall y :: y in b ==> k < y) {
      forall i, j | 0 <= i < j < |s| ensures s[i] < s[j] {
        if j < |a| {
          assert s[i] == a[i] && s[j] == a[j];
        } else if j == |a| {
          assert s[i] == a[i] && a[i] in a;
        } else if i > |a| {
          assert s[i] == b[i - |a| - 1] && s[j] == b[j - |a| - 1];
        } else if i == |a| {
          assert s[j] == b[j - |a| - 1] && b[j - |a| - 1] in b;
        } else {
          assert s[i] == a[i] && a[i] in a;
          assert s[j] == b[j - |a| - 1] && b[j - |a| - 1] in b;
        }
      }
    }
  }

  /** The first element of a non-empty strictly increasing sequence is its least. */
  lemma FirstIsLeast(s: seq<int>)
    requires StrictlyIncreasing(s) && |s| > 0
    ensures forall x :: x in s ==> s[0] <= x
  {
  }

  /** The last element of a non-empty strictly increasing sequence is its greatest. */
  lemma LastIsGreatest(s: seq<int>)
    requires StrictlyIncreasing(s) && |s| > 0
    ensures forall x :: x in s ==> x <= s[|s| - 1]
  {
  }

  /** Taking out an element that does not occur changes nothing. */
  lemma WithoutAbsent(s: seq<int>, x: int)
    requires x !in s
    ensures Without(s, x) == s
  {
  }

  /** Taking out an element that occurs only to the right of `k`. */
  lemma {:induction false} WithoutRight(a: seq<int>, k: int, b: seq<int>, x: int)
    requires x !in a && x != k
    ensures Without(a + [k] + b, x) == a + [k] + Without(b, x)
  {
    if a == [] {
      assert (a + [k] + b)[1..] == b;
    } else {
      assert (a + [k] + b)[1..] == a[1..] + [k] + b;
      WithoutRight(a[1..], k, b, x);
      assert a == [a[0]] + a[1..];
    }
  }

  /** Taking out an element that occurs only to the left of `k`. */
  lemma {:induction false} WithoutLeft(a: seq<int>, k: int, b: seq<int>, x: int)
    requires x !in b && x != k
    ensures Without(a + [k] + b, x) == Without(a, x) + [k] + b
  {
    if a == [] {
      assert (a + [k] + b)[1..] == b;
      WithoutAbsent(b, x);
    } else {
      assert (a + [k] + b)[1..] == a[1..] + [k] + b;
      WithoutLeft(a[1..], k, b, x);
    }
  }

  /** Taking out `k` itself, when it occurs nowhere else. */
  lemma {:induction false} WithoutCenter(a: seq<int>, k: int, b: seq<int>)
    requires k !in a && k !in b
    ensures Without(a + [k] + b, k) == a + b
  {
    if a == [] {
      assert (a + [k] + b)[1..] == b;
      WithoutAbsent(b, k);
    } else {
      assert (a + [k] + b)[1..] == a[1..] + [k] + b;
      WithoutCenter(a[1..], k, b);
      assert a + b == [a[0]] + (a[1..] + b);
    }
  }
}
