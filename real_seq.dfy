/**
 * Sums, means, medians and ascending sorting of real sequences: the
 * collaborators `ArrayUtils.mean`, `ArrayUtils.median` and `Arrays.sort`
 * that the clustering code relies on, given here by their definitions.
 */
module RealSeq {

  /** Sum of the elements, left to right. */
  function Sum(s: seq<real>): real
  {
    if s == [] then 0.0 else Sum(s[..|s| - 1]) + s[|s| - 1]
  }

  /** Arithmetic mean of a non-empty sequence. */
  function Mean(s: seq<real>): real
    requires |s| > 0
  {
    Sum(s) / (|s| as real)
  }

  predicate Sorted(s: seq<real>)
  {
    forall i, j :: 0 <= i < j < |s| ==> s[i] <= s[j]
  }

  /** Inserts `v` into a sorted sequence, before the first element not below it. */
  function Insert(s: seq<real>, v: real): (r: seq<real>)
    requires Sorted(s)
    ensures Sorted(r)
    ensures |r| == |s| + 1
    ensures forall x :: x in r ==> x in s || x == v
    ensures multiset(r) == multiset(s) + multiset{v}
  {
    if s == [] then [v]
    else if v <= s[0] then [v] + s
    else
      assert s == [s[0]] + s[1..];
      var t := Insert(s[1..], v);
      PrependSorted(s[0], t, s[1..], v);
      [s[0]] + t
  }

  lemma PrependSorted(h: real, t: seq<real>, rest: seq<real>, v: real)
    requires Sorted(t) && Sorted([h] + rest) && h < v
    requires forall x :: x in t ==> x in rest || x == v
    ensures Sorted([h] + t)
  {
    forall x | x in t ensures h <= x {
      if x in rest {
        var k :| 0 <= k < |rest| && rest[k] == x;
        assert ([h] + rest)[0] == h && ([h] + rest)[k + 1] == x;
      }
    }
    forall i, j | 0 <= i < j < |[h] + t| ensures ([h] + t)[i] <= ([h] + t)[j] {
      if i == 0 {
        assert ([h] + t)[j] == t[j - 1] && t[j - 1] in t;
      }
    }
  }

  /** Ascending sort: the result is ordered and a permutation of the input. */
  function SortAscending(s: seq<real>): (r: seq<real>)
    ensures Sorted(r)
    ensures multiset(r) == multiset(s)
    ensures |r| == |s|
  {
    if s == [] then []
    else
      assert s == s[..|s| - 1] + [s[|s| - 1]];
      Insert(SortAscending(s[..|s| - 1]), s[|s| - 1])
  }

  /**
   * Median of a non-empty sequence that is already sorted: the middle element,
   * or the mean of the two middle elements when the length is even.
   */
  function Median(s: seq<real>): real
    requires |s| > 0
  {
    if |s| % 2 == 1 then s[|s| / 2] else (s[|s| / 2 - 1] + s[|s| / 2]) / 2.0
  }

  /** The median lies between two values of the sequence, sorted or not. */
  lemma MedianBetween(s: seq<real>)
    ensures |s| > 0 ==> exists j, k :: 0 <= j < |s| && 0 <= k < |s| && s[j] <= Median(s) <= s[k]
  {
    if |s| > 0 {
      var h := |s| / 2;
      if |s| % 2 == 0 {
        if s[h - 1] <= s[h] {
          assert s[h - 1] <= Median(s) <= s[h];
        } else {
          assert s[h] <= Median(s) <= s[h - 1];
        }
      } else {
        assert s[h] <= Median(s) <= s[h];
      }
    }
  }

  /** The median of a sorted sequence lies between its first and last element. */
  lemma MedianWithinRange(s: seq<real>)
    requires |s| > 0 && Sorted(s)
    ensures s[0] <= Median(s) <= s[|s| - 1]
  {
  }

  /** A sum of |s| values within [lo, hi] lies between |s| * lo and |s| * hi. */
  lemma {:induction false} SumBounds(s: seq<real>, lo: real, hi: real)
    requires forall i :: 0 <= i < |s| ==> lo <= s[i] <= hi
    ensures (|s| as real) * lo <= Sum(s) <= (|s| as real) * hi
  {
    if s != [] {
      SumBounds(s[..|s| - 1], lo, hi);
    }
  }

  lemma MeanBounds(s: seq<real>, lo: real, hi: real)
    requires |s| > 0
    requires forall i :: 0 <= i < |s| ==> lo <= s[i] <= hi
    ensures lo <= Mean(s) <= hi
  {
    SumBounds(s, lo, hi);
  }
}
