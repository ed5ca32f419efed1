/**
 * The A-method knee/elbow detector.  For a curve (x, y) and a prefix length,
 * each split index i is scored by how far the angle between the regression
 * line of the points 0 .. i and the regression line of the points i .. length-1
 * is from 90 degrees; the detector picks the split with the smallest score and
 * then refines it by re-running on ever shorter prefixes.
 *
 * The score is left abstract: `metric(x, y, length, i)` stands for
 * `(90 - angle(lr(x, y, 0, 0, i + 1), lr(x, y, i, i, length - i)))^2`.
 */
module Amethod {
  /** Below this prefix length the refinement stops. */
  const MINCUTOFF: int := 20

  /** The score of the split at index i for the prefix of the given length. */
  type Metric = (seq<real>, seq<real>, int, int) -> real

  function Min(a: int, b: int): int
  {
    if a <= b then a else b
  }

  /** The split indices aMethod tries for a prefix of the given length: 1, then 2 .. length-2. */
  predicate IsCandidate(length: int, i: int)
  {
    i == 1 || (2 <= i < length - 1)
  }

  /** r is a candidate below m whose score is minimal among the candidates below m, and the first such. */
  ghost predicate IsFirstMinimizerBelow(x: seq<real>, y: seq<real>, metric: Metric, length: int, m: int, r: int)
  {
    && IsCandidate(length, r) && r < m
    && (forall i :: IsCandidate(length, i) && i < m ==> metric(x, y, length, r) <= metric(x, y, length, i))
    && (forall i :: IsCandidate(length, i) && i < r ==> metric(x, y, length, r) < metric(x, y, length, i))
  }

  /** The first index achieving the smallest score over all candidates. */
  ghost predicate IsFirstMinimizer(x: seq<real>, y: seq<real>, metric: Metric, length: int, r: int)
  {
    IsFirstMinimizerBelow(x, y, metric, length, if length - 1 < 2 then 2 else length - 1, r)
  }

  /** The first minimiser among the candidates below m, computed candidate by candidate. */
  function FirstMinBelow(x: seq<real>, y: seq<real>, metric: Metric, length: int, m: int): (r: int)
    requires 2 <= m
    ensures IsCandidate(length, r) && r < m
    decreases m
  {
    if m == 2 then 1
    else
      var best := FirstMinBelow(x, y, metric, length, m - 1);
      if IsCandidate(length, m - 1) && metric(x, y, length, m - 1) < metric(x, y, length, best) then m - 1
      else best
  }

  lemma {:induction false} FirstMinBelowIsFirstMinimizer(x: seq<real>, y: seq<real>, metric: Metric, length: int, m: int)
    requires 2 <= m
    ensures IsFirstMinimizerBelow(x, y, metric, length, m, FirstMinBelow(x, y, metric, length, m))
    decreases m
  {
    if m > 2 {
      FirstMinBelowIsFirstMinimizer(x, y, metric, length, m - 1);
    }
  }

  /** The index aMethod returns for a prefix of the given length. */
  function FirstMin(x: seq<real>, y: seq<real>, metric: Metric, length: int): int
  {
    FirstMinBelow(x, y, metric, length, if length - 1 < 2 then 2 else length - 1)
  }

  /** FirstMin is the first index achieving the smallest score over all candidates. */
  lemma FirstMinIsFirstMinimizer(x: seq<real>, y: seq<real>, metric: Metric, length: int)
    ensures IsFirstMinimizer(x, y, metric, length, FirstMin(x, y, metric, length))
  {
    FirstMinBelowIsFirstMinimizer(x, y, metric, length, if length - 1 < 2 then 2 else length - 1);
  }

  /** There is only one first minimiser: the specification determines aMethod's result. */
  lemma FirstMinimizerUnique(x: seq<real>, y: seq<real>, metric: Metric, length: int, r: int, s: int)
    requires IsFirstMinimizer(x, y, metric, length, r)
    requires IsFirstMinimizer(x, y, metric, length, s)
    ensures r == s
  {
  }

  /** aMethod's result: 1 when the loop never runs, otherwise within 1 .. length-2. */
  lemma FirstMinBounds(x: seq<real>, y: seq<real>, metric: Metric, length: int)
    ensures 1 <= FirstMin(x, y, metric, length)
    ensures length >= 3 ==> FirstMin(x, y, metric, length) <= length - 2
    ensures length <= 3 ==> FirstMin(x, y, metric, length) == 1
  {
  }

  /**
   * aMethod: scans the splits 1 .. length-2 and keeps the first one with the
   * smallest score; a later split replaces it only when strictly better.
   */
  method AMethod(x: seq<real>, y: seq<real>, metric: Metric, length: int) returns (idx: int)
    ensures IsFirstMinimizer(x, y, metric, length, idx)
    ensures idx == FirstMin(x, y, metric, length)
  {
    idx := 1;
    var lmetric := metric(x, y, length, idx);
    var i := 2;
    while i < length - 1
      invariant 2 <= i && (i <= length - 1 || i == 2)
      invariant lmetric == metric(x, y, length, idx)
      invariant IsFirstMinimizerBelow(x, y, metric, length, i, idx)
    {
      var clmetric := metric(x, y, length, i);
      if clmetric < lmetric {
        idx := i;
        lmetric := clmetric;
      }
      i := i + 1;
    }
    FirstMinIsFirstMinimizer(x, y, metric, length);
    FirstMinimizerUnique(x, y, metric, length, idx, FirstMin(x, y, metric, length));
  }

  /**
   * The refinement loop from the state after an aMethod call on `cutoff`
   * whose predecessor returned lastPoint: the next call is on the prefix of
   * twice the last point, while the point keeps shrinking and the prefix
   * stays at least MINCUTOFF long.
   */
  function RefineLoop(x: seq<real>, y: seq<real>, metric: Metric, cutoff: int, lastPoint: int): int
    requires lastPoint >= 0
    decreases lastPoint
  {
    var point := FirstMin(x, y, metric, cutoff);
    var next := Min(point * 2, |x|);
    if point < lastPoint && next >= MINCUTOFF then RefineLoop(x, y, metric, next, point) else point
  }

  /** itRefinement's result: the first call is on the whole curve. */
  function Refinement(x: seq<real>, y: seq<real>, metric: Metric): int
  {
    RefineLoop(x, y, metric, |x|, |x|)
  }

  /** One aMethod call of the refinement: the prefix length and the point found. */
  datatype Step = Step(cutoff: int, point: int)

  /** The aMethod calls the refinement loop makes, in order. */
  function Steps(x: seq<real>, y: seq<real>, metric: Metric, cutoff: int, lastPoint: int): (r: seq<Step>)
    requires lastPoint >= 0
    ensures |r| >= 1 && r[0] == Step(cutoff, FirstMin(x, y, metric, cutoff))
    decreases lastPoint
  {
    var point := FirstMin(x, y, metric, cutoff);
    var next := Min(point * 2, |x|);
    [Step(cutoff, point)]
      + (if point < lastPoint && next >= MINCUTOFF then Steps(x, y, metric, next, point) else [])
  }

  /**
   * Facts about the sequence of calls: each point is aMethod's answer on its
   * cutoff; every later cutoff is twice the previous point capped at the curve
   * length and at least MINCUTOFF; the points strictly decrease while the
   * loop goes on (the last one found, which stops it, need not be smaller);
   * and the refinement returns that last point.
   */
  lemma {:induction false} StepsFacts(x: seq<real>, y: seq<real>, metric: Metric, cutoff: int, lastPoint: int)
    requires lastPoint >= 0
    ensures var s := Steps(x, y, metric, cutoff, lastPoint);
      && (forall k :: 0 <= k < |s| ==> s[k].point == FirstMin(x, y, metric, s[k].cutoff))
      && (forall k :: 1 <= k < |s| ==> s[k].cutoff == Min(2 * s[k - 1].point, |x|))
      && (forall k :: 1 <= k < |s| ==> s[k].cutoff >= MINCUTOFF)
      && (forall k :: 1 <= k < |s| - 1 ==> s[k].point < s[k - 1].point)
      && s[|s| - 1].point == RefineLoop(x, y, metric, cutoff, lastPoint)
    decreases lastPoint
  {
    var point := FirstMin(x, y, metric, cutoff);
    var next := Min(point * 2, |x|);
    FirstMinBounds(x, y, metric, cutoff);
    if point < lastPoint && next >= MINCUTOFF {
      StepsFacts(x, y, metric, next, point);
      var t := Steps(x, y, metric, next, point);
      assert Steps(x, y, metric, cutoff, lastPoint) == [Step(cutoff, point)] + t;
    }
  }

  /** The cutoffs passed to aMethod never grow and never exceed the curve length. */
  lemma CutoffsNonIncreasing(x: seq<real>, y: seq<real>, metric: Metric)
    ensures var s := Steps(x, y, metric, |x|, |x|);
      && s[0].cutoff == |x|
      && (forall k :: 0 <= k < |s| ==> s[k].cutoff <= |x|)
      && (forall k :: 1 <= k < |s| ==> s[k].cutoff <= s[k - 1].cutoff)
  {
    var s := Steps(x, y, metric, |x|, |x|);
    StepsFacts(x, y, metric, |x|, |x|);
    forall k | 0 <= k < |s|
      ensures s[k].cutoff <= |x|
    {
      if k >= 1 {
        assert s[k].cutoff == Min(2 * s[k - 1].point, |x|);
      }
    }
    forall k | 1 <= k < |s|
      ensures s[k].cutoff <= s[k - 1].cutoff
    {
      if k >= 2 {
        assert s[k - 1].cutoff == Min(2 * s[k - 2].point, |x|);
      }
    }
  }

  /** The refinement returns a split index of the whole curve, never -1. */
  lemma {:induction false} RefineLoopBounds(x: seq<real>, y: seq<real>, metric: Metric, cutoff: int, lastPoint: int)
    requires lastPoint >= 0 && cutoff <= |x|
    ensures 1 <= RefineLoop(x, y, metric, cutoff, lastPoint)
    ensures |x| >= 3 ==> RefineLoop(x, y, metric, cutoff, lastPoint) <= |x| - 2
    decreases lastPoint
  {
    var point := FirstMin(x, y, metric, cutoff);
    var next := Min(point * 2, |x|);
    FirstMinBounds(x, y, metric, cutoff);
    if point < lastPoint && next >= MINCUTOFF {
      RefineLoopBounds(x, y, metric, next, point);
    }
  }

  lemma RefinementBounds(x: seq<real>, y: seq<real>, metric: Metric)
    ensures 1 <= Refinement(x, y, metric)
    ensures |x| >= 3 ==> Refinement(x, y, metric) <= |x| - 2
  {
    RefineLoopBounds(x, y, metric, |x|, |x|);
  }

  /**
   * itRefinement: a do-while loop that re-runs aMethod on the prefix of twice
   * the last point found, while the point strictly decreases and that prefix
   * is at least MINCUTOFF long.
   */
  method ItRefinement(x: seq<real>, y: seq<real>, metric: Metric) returns (point: int)
    ensures point == Refinement(x, y, metric)
    ensures 1 <= point
  {
    var cutoff := |x|;
    var lastPoint := |x|;
    point := AMethod(x, y, metric, cutoff);
    FirstMinBounds(x, y, metric, cutoff);
    cutoff := Min(point * 2, |x|);
    while point < lastPoint && cutoff >= MINCUTOFF
      invariant 1 <= point && lastPoint >= 0
      invariant cutoff == Min(point * 2, |x|)
      invariant Refinement(x, y, metric)
             == if point < lastPoint && cutoff >= MINCUTOFF then RefineLoop(x, y, metric, cutoff, point) else point
      decreases lastPoint
    {
      lastPoint := point;
      point := AMethod(x, y, metric, cutoff);
      FirstMinBounds(x, y, metric, cutoff);
      cutoff := Min(point * 2, |x|);
    }
  }

  /** find_knee: the refined A-method point. */
  method FindKnee(x: seq<real>, y: seq<real>, metric: Metric) returns (r: int)
    ensures r == Refinement(x, y, metric)
  {
    r := ItRefinement(x, y, metric);
  }

  /** find_elbow: the same refined A-method point as find_knee. */
  method FindElbow(x: seq<real>, y: seq<real>, metric: Metric) returns (r: int)
    ensures r == Refinement(x, y, metric)
  {
    r := ItRefinement(x, y, metric);
  }
}
