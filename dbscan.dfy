/**
 * DBSCAN density clustering over points that are known only through a
 * distance function.  Points are the indices 0 .. n-1 of the input list and
 * `dist(i, j)` is `dps.get(i).distanceTo(dps.get(j))`.
 *
 * The labelling state of the explicit-eps `clustering` method is kept as the
 * source keeps it: an int array whose entries are UNVISITED (-1), NOISE (-2)
 * or a cluster id (>= 0).
 */
module Dbscan {
  import opened Wrappers
  import opened RealSeq

  const UNVISITED: int := -1
  const NOISE: int := -2

  predicate StrictlyIncreasing(s: seq<nat>)
  {
    forall i, j :: 0 <= i < j < |s| ==> s[i] < s[j]
  }

  // ---------------------------------------------------------------------------
  // rangeQuery
  // ---------------------------------------------------------------------------

  /** The points among 0 .. m-1, other than idx, within eps of idx, in increasing order. */
  function NeighborsBelow(dist: (nat, nat) -> real, idx: nat, eps: real, m: nat): (r: seq<nat>)
    ensures forall q: nat :: q in r <==> q < m && q != idx && dist(idx, q) <= eps
    ensures StrictlyIncreasing(r)
    ensures |r| <= m
  {
    if m == 0 then []
    else
      var prev := NeighborsBelow(dist, idx, eps, m - 1);
      assert forall t :: 0 <= t < |prev| ==> prev[t] in prev;
      if m - 1 != idx && dist(idx, m - 1) <= eps then prev + [m - 1] else prev
  }

  /** The eps-neighbourhood of point idx among all n points; idx itself is never included. */
  function Neighbors(n: nat, dist: (nat, nat) -> real, idx: nat, eps: real): seq<nat>
  {
    NeighborsBelow(dist, idx, eps, n)
  }

  /** A core point has at least minPts points in its eps-neighbourhood. */
  predicate IsCore(n: nat, dist: (nat, nat) -> real, eps: real, minPts: int, p: nat)
  {
    |Neighbors(n, dist, p, eps)| >= minPts
  }

  /** Brute-force range search: every other point within eps of idx, in input order. */
  method RangeQuery(n: nat, dist: (nat, nat) -> real, idx: nat, eps: real) returns (rv: seq<nat>)
    requires idx < n
    ensures rv == Neighbors(n, dist, idx, eps)
    ensures forall q: nat :: q in rv <==> q < n && q != idx && dist(idx, q) <= eps
    ensures StrictlyIncreasing(rv)
  {
    rv := [];
    var i := 0;
    while i < n
      invariant 0 <= i <= n
      invariant rv == NeighborsBelow(dist, idx, eps, i)
    {
      if i != idx && dist(idx, i) <= eps {
        rv := rv + [i];
      }
      i := i + 1;
    }
  }

  // ---------------------------------------------------------------------------
  // kCloserPoints
  // ---------------------------------------------------------------------------

  /**
   * rv holds the distances from idx to the k distinct other points src, and
   * every point left out is at least as far from idx as every point kept.
   */
  ghost predicate IsKClosest(n: nat, dist: (nat, nat) -> real, idx: nat, k: nat,
                             rv: seq<real>, src: seq<nat>)
  {
    && |rv| == k && |src| == k
    && (forall t :: 0 <= t < k ==> src[t] < n && src[t] != idx && rv[t] == dist(idx, src[t]))
    && (forall t, u :: 0 <= t < u < k ==> src[t] != src[u])
    && (forall j, t :: 0 <= j < n && j != idx && j !in src && 0 <= t < k ==> rv[t] <= dist(idx, j))
  }

  /** m indexes a largest element of s. */
  ghost predicate MaxAt(s: seq<real>, m: nat)
  {
    m < |s| && forall t :: 0 <= t < |s| ==> s[t] <= s[m]
  }

  /** One pass of the scan loop: point i replaces the current maximum when it is strictly closer. */
  method ScanPoint(n: nat, dist: (nat, nat) -> real, idx: nat, k: nat, i: nat,
                   rv: array<real>, ghost src: seq<nat>, maxIdx: nat)
    returns (maxIdx': nat, ghost src': seq<nat>)
    requires rv.Length == k && MaxAt(rv[..], maxIdx)
    requires ScanInv(n, dist, idx, k, i, rv[..], src) && i < n
    modifies rv
    ensures MaxAt(rv[..], maxIdx')
    ensures ScanInv(n, dist, idx, k, i + 1, rv[..], src')
  {
    maxIdx', src' := maxIdx, src;
    if i != idx {
      var distance := dist(idx, i);
      if distance < rv[maxIdx] {
        ScanReplace(n, dist, idx, k, i, rv[..], src, maxIdx);
        ghost var replaced := rv[..][maxIdx := distance];
        rv[maxIdx] := distance;
        assert rv[..] == replaced;
        src' := src[maxIdx := i];
        maxIdx' := ArgMax(rv);
        assert MaxAt(rv[..], maxIdx');
        return;
      }
    }
    ScanKeep(n, dist, idx, k, i, rv[..], src, maxIdx);
  }

  /** Index of a largest element: the collaborator `ArrayUtils.max`. */
  method ArgMax(a: array<real>) returns (m: nat)
    requires a.Length > 0
    ensures m < a.Length
    ensures forall t :: 0 <= t < a.Length ==> a[t] <= a[m]
  {
    m := 0;
    var t := 1;
    while t < a.Length
      invariant 1 <= t <= a.Length
      invariant m < t
      invariant forall u :: 0 <= u < t ==> a[u] <= a[m]
    {
      if a[t] > a[m] {
        m := t;
      }
      t := t + 1;
    }
  }

  /**
   * The k smallest distances from point idx to the other points.  The buffer
   * is filled with the first k other points; then each further point that is
   * strictly closer than the current maximum replaces it.
   */
  method KCloserPoints(n: nat, dist: (nat, nat) -> real, idx: nat, k: nat) returns (r: seq<real>)
    requires idx < n
    requires 1 <= k < n
    ensures |r| == k
    ensures exists src :: IsKClosest(n, dist, idx, k, r, src)
  {
    var rv: array<real>, i: nat;
    ghost var src: seq<nat>;
    rv, i, src := FillBuffer(n, dist, idx, k);
    var maxIdx: nat := ArgMax(rv);
    assert MaxAt(rv[..], maxIdx);

    while i < n
      invariant rv.Length == k && MaxAt(rv[..], maxIdx)
      invariant ScanInv(n, dist, idx, k, i, rv[..], src)
    {
      maxIdx, src := ScanPoint(n, dist, idx, k, i, rv, src, maxIdx);
      i := i + 1;
    }

    r := rv[..];
    ScanDone(n, dist, idx, k, i, r, src);
  }

  /** The first loop of kCloserPoints: the distances to the first k other points. */
  method FillBuffer(n: nat, dist: (nat, nat) -> real, idx: nat, k: nat)
    returns (rv: array<real>, i: nat, ghost src: seq<nat>)
    requires idx < n
    requires 1 <= k < n
    ensures fresh(rv) && rv.Length == k
    ensures FillInv(n, dist, idx, i, k, rv[..], src) && i <= n
    ensures ScanInv(n, dist, idx, k, i, rv[..], src)
  {
    rv := new real[k];
    src := [];
    i := 0;
    var rvIdx := 0;
    while rvIdx < k
      invariant rvIdx <= k && rv.Length == k
      invariant FillInv(n, dist, idx, i, rvIdx, rv[..rvIdx], src)
      decreases k - rvIdx + (if idx < i then 0 else 1)
    {
      assert i < n;
      if i != idx {
        FillStep(n, dist, idx, i, rvIdx, rv[..rvIdx], src);
        rv[rvIdx] := dist(idx, i);
        assert rv[..rvIdx + 1] == rv[..rvIdx] + [dist(idx, i)];
        src := src + [i];
        rvIdx := rvIdx + 1;
      }
      i := i + 1;
    }
    assert rv[..rvIdx] == rv[..];
    FillDone(n, dist, idx, k, i, rv[..], src);
  }

  lemma ScanDone(n: nat, dist: (nat, nat) -> real, idx: nat, k: nat, i: nat,
                 rv: seq<real>, src: seq<nat>)
    requires ScanInv(n, dist, idx, k, i, rv, src) && i >= n
    ensures IsKClosest(n, dist, idx, k, rv, src)
  {
  }

  /**
   * The state of the initial fill of KCloserPoints once the points 0 .. i-1
   * have been seen: rv holds the distances to every one of them but idx, in order.
   */
  ghost predicate FillInv(n: nat, dist: (nat, nat) -> real, idx: nat, i: nat, filled: nat,
                          rv: seq<real>, src: seq<nat>)
  {
    && i == filled + (if idx < i then 1 else 0)
    && |rv| == filled && |src| == filled
    && StrictlyIncreasing(src)
    && (forall t :: 0 <= t < filled ==> src[t] < i && src[t] != idx && rv[t] == dist(idx, src[t]))
    && (forall j :: 0 <= j < i && j != idx ==> j in src)
  }

  lemma FillStep(n: nat, dist: (nat, nat) -> real, idx: nat, i: nat, filled: nat,
                 rv: seq<real>, src: seq<nat>)
    requires FillInv(n, dist, idx, i, filled, rv, src) && i != idx
    ensures FillInv(n, dist, idx, i + 1, filled + 1, rv + [dist(idx, i)], src + [i])
  {
  }

  lemma FillDone(n: nat, dist: (nat, nat) -> real, idx: nat, k: nat, i: nat,
                 rv: seq<real>, src: seq<nat>)
    requires FillInv(n, dist, idx, i, k, rv, src) && i <= n
    ensures ScanInv(n, dist, idx, k, i, rv, src)
  {
  }

  /**
   * The state of the replacement scan of KCloserPoints once the points
   * 0 .. i-1 have been seen: rv holds the distances to the distinct points
   * src and no point seen and left out is closer than any point kept.
   */
  ghost predicate ScanInv(n: nat, dist: (nat, nat) -> real, idx: nat, k: nat, i: nat,
                          rv: seq<real>, src: seq<nat>)
  {
    && |rv| == k && |src| == k && i <= n
    && (forall t :: 0 <= t < k ==> src[t] < i && src[t] != idx && rv[t] == dist(idx, src[t]))
    && (forall t, u :: 0 <= t < u < k ==> src[t] != src[u])
    && (forall j, t :: 0 <= j < i && j != idx && j !in src && 0 <= t < k ==> rv[t] <= dist(idx, j))
  }

  /** A point that is not strictly closer than the current maximum is left out. */
  lemma ScanKeep(n: nat, dist: (nat, nat) -> real, idx: nat, k: nat, i: nat,
                 rv: seq<real>, src: seq<nat>, m: nat)
    requires ScanInv(n, dist, idx, k, i, rv, src) && i < n && m < k
    requires MaxAt(rv, m)
    requires i == idx || rv[m] <= dist(idx, i)
    ensures ScanInv(n, dist, idx, k, i + 1, rv, src)
  {
  }

  /** A point strictly closer than the current maximum takes the maximum's place. */
  lemma ScanReplace(n: nat, dist: (nat, nat) -> real, idx: nat, k: nat, i: nat,
                    rv: seq<real>, src: seq<nat>, m: nat)
    requires ScanInv(n, dist, idx, k, i, rv, src) && i < n && i != idx && m < k
    requires MaxAt(rv, m)
    requires dist(idx, i) < rv[m]
    ensures ScanInv(n, dist, idx, k, i + 1, rv[m := dist(idx, i)], src[m := i])
  {
    var rv', src' := rv[m := dist(idx, i)], src[m := i];
    forall j, t | 0 <= j < i + 1 && j != idx && j !in src' && 0 <= t < k
      ensures rv'[t] <= dist(idx, j)
    {
      if j == src[m] {
        assert dist(idx, j) == rv[m];
      } else {
        assert src'[m] == i;
        assert j < i;
        forall u | 0 <= u < k
          ensures src[u] != j
        {
          if u != m {
            assert src'[u] == src[u];
          }
        }
        assert rv[m] <= dist(idx, j);
      }
    }
  }

  // ---------------------------------------------------------------------------
  // clustering(dps, eps, minPts): the labelling state machine
  // ---------------------------------------------------------------------------

  /** Every label is UNVISITED, NOISE or one of the cluster ids 0 .. cc. */
  ghost predicate WellLabelled(labels: seq<int>, cc: int)
  {
    forall p :: 0 <= p < |labels| ==>
      labels[p] == UNVISITED || labels[p] == NOISE || 0 <= labels[p] <= cc
  }

  /** A point is only ever marked as noise when it is not a core point. */
  ghost predicate NoiseNotCore(n: nat, dist: (nat, nat) -> real, eps: real, minPts: int, labels: seq<int>)
  {
    forall p :: 0 <= p < |labels| && labels[p] == NOISE ==> !IsCore(n, dist, eps, minPts, p)
  }

  /** Cluster c has a core point among its members. */
  ghost predicate HasCore(n: nat, dist: (nat, nat) -> real, eps: real, minPts: int, labels: seq<int>, c: int)
  {
    exists r :: 0 <= r < |labels| && labels[r] == c && IsCore(n, dist, eps, minPts, r)
  }

  ghost predicate EveryClusterHasCore(n: nat, dist: (nat, nat) -> real, eps: real, minPts: int,
                                      labels: seq<int>, cc: int)
  {
    forall c :: 0 <= c <= cc ==> HasCore(n, dist, eps, minPts, labels, c)
  }

  /** Point q is a neighbour of some core point of cluster c. */
  ghost predicate ReachedFrom(n: nat, dist: (nat, nat) -> real, eps: real, minPts: int,
                              labels: seq<int>, c: int, q: nat)
  {
    exists r :: 0 <= r < |labels| && labels[r] == c && IsCore(n, dist, eps, minPts, r)
                && q in Neighbors(n, dist, r, eps)
  }

  /** Every clustered point is a core point or a neighbour of a core point of its cluster. */
  ghost predicate MembersReached(n: nat, dist: (nat, nat) -> real, eps: real, minPts: int, labels: seq<int>)
  {
    forall p :: 0 <= p < |labels| && labels[p] >= 0 ==>
      IsCore(n, dist, eps, minPts, p) || ReachedFrom(n, dist, eps, minPts, labels, labels[p], p)
  }

  /**
   * A chain of density reachability: each point but the last is a core point
   * and the next one is in its eps-neighbourhood.
   */
  ghost predicate Chain(n: nat, dist: (nat, nat) -> real, eps: real, minPts: int, path: seq<nat>)
  {
    && |path| >= 1
    && forall k :: 0 <= k < |path| - 1 ==>
         IsCore(n, dist, eps, minPts, path[k]) && path[k + 1] in Neighbors(n, dist, path[k], eps)
  }

  /** p is density-reachable from o through points that all carry the label c. */
  ghost predicate LabelChain(n: nat, dist: (nat, nat) -> real, eps: real, minPts: int,
                             labels: seq<int>, c: int, o: nat, p: nat)
  {
    exists path :: Chain(n, dist, eps, minPts, path) && path[0] == o && path[|path| - 1] == p
                   && forall k :: 0 <= k < |path| ==> path[k] < |labels| && labels[path[k]] == c
  }

  /** Cluster c has a core point from which every member is density-reachable within c. */
  ghost predicate LabelConnected(n: nat, dist: (nat, nat) -> real, eps: real, minPts: int,
                                 labels: seq<int>, c: int)
  {
    exists o: nat :: LabelRoot(n, dist, eps, minPts, labels, c, o)
  }

  /** o is a core point of cluster c from which every member of c is density-reachable within c. */
  ghost predicate LabelRoot(n: nat, dist: (nat, nat) -> real, eps: real, minPts: int,
                            labels: seq<int>, c: int, o: nat)
  {
    && o < |labels| && labels[o] == c && IsCore(n, dist, eps, minPts, o)
    && forall p :: 0 <= p < |labels| && labels[p] == c ==> LabelChain(n, dist, eps, minPts, labels, c, o, p)
  }

  ghost predicate EveryClusterConnected(n: nat, dist: (nat, nat) -> real, eps: real, minPts: int,
                                        labels: seq<int>, cc: int)
  {
    forall c :: 0 <= c <= cc ==> LabelConnected(n, dist, eps, minPts, labels, c)
  }

  /** Some core point below p carries the label c. */
  ghost predicate CoreBefore(n: nat, dist: (nat, nat) -> real, eps: real, minPts: int,
                             labels: seq<int>, c: int, p: nat)
  {
    exists q :: 0 <= q < p && q < |labels| && labels[q] == c && IsCore(n, dist, eps, minPts, q)
  }

  /**
   * Clusters are numbered in the order they were opened: below every core
   * point of cluster d there is a core point of each earlier cluster.
   */
  ghost predicate LabelsOrdered(n: nat, dist: (nat, nat) -> real, eps: real, minPts: int, labels: seq<int>)
  {
    forall p, c :: 0 <= p < |labels| && IsCore(n, dist, eps, minPts, p) && 0 <= c < labels[p] ==>
      CoreBefore(n, dist, eps, minPts, labels, c, p)
  }

  /** Each of the clusters 0 .. cc was opened at a core point below i. */
  ghost predicate OpenedBelow(n: nat, dist: (nat, nat) -> real, eps: real, minPts: int,
                              labels: seq<int>, cc: int, i: nat)
  {
    forall c :: 0 <= c <= cc ==> CoreBefore(n, dist, eps, minPts, labels, c, i)
  }

  /**
   * Every neighbour of a clustered core point is clustered, in the same or an
   * earlier cluster, unless it still waits in `pending` to be absorbed into
   * the cluster cc under construction.
   */
  ghost predicate CoreClosed(n: nat, dist: (nat, nat) -> real, eps: real, minPts: int,
                             labels: seq<int>, pending: seq<nat>, cc: int)
  {
    forall p, q :: 0 <= p < |labels| && labels[p] >= 0 && IsCore(n, dist, eps, minPts, p)
                   && q in Neighbors(n, dist, p, eps) ==>
      (q < |labels| && 0 <= labels[q] <= labels[p]) || (labels[p] == cc && q in pending)
  }

  /** Labels only move forward: a cluster id never changes, -1 and -2 may only become cc. */
  ghost predicate Advances(before: seq<int>, after: seq<int>, cc: int)
  {
    && |after| == |before|
    && forall p :: 0 <= p < |before| ==>
         && (before[p] >= 0 ==> after[p] == before[p])
         && (before[p] == NOISE ==> after[p] == NOISE || after[p] == cc)
         && (before[p] == UNVISITED ==> after[p] == UNVISITED || after[p] == cc)
  }

  function CountUnvisited(labels: seq<int>): nat
  {
    if labels == [] then 0
    else CountUnvisited(labels[..|labels| - 1]) + (if labels[|labels| - 1] == UNVISITED then 1 else 0)
  }

  lemma {:induction false} CountUnvisitedUpdate(labels: seq<int>, q: nat, v: int)
    requires q < |labels|
    ensures CountUnvisited(labels[q := v]) + (if labels[q] == UNVISITED then 1 else 0)
         == CountUnvisited(labels) + (if v == UNVISITED then 1 else 0)
  {
    var last := |labels| - 1;
    if q == last {
      assert labels[q := v][..last] == labels[..last];
    } else {
      assert labels[q := v][..last] == labels[..last][q := v];
      CountUnvisitedUpdate(labels[..last], q, v);
    }
  }

  /** Overwriting a label that is not a cluster id keeps the point reached from cluster c. */
  lemma KeepReached(n: nat, dist: (nat, nat) -> real, eps: real, minPts: int,
                    labels: seq<int>, q: nat, v: int, c: int, x: nat)
    requires q < |labels| && labels[q] < 0 && c >= 0
    requires ReachedFrom(n, dist, eps, minPts, labels, c, x)
    ensures ReachedFrom(n, dist, eps, minPts, labels[q := v], c, x)
  {
    var r :| 0 <= r < |labels| && labels[r] == c && IsCore(n, dist, eps, minPts, r)
             && x in Neighbors(n, dist, r, eps);
    assert labels[q := v][r] == c;
  }

  /** Overwriting a label that is not a cluster id keeps every cluster's core point. */
  lemma KeepCores(n: nat, dist: (nat, nat) -> real, eps: real, minPts: int,
                  labels: seq<int>, q: nat, v: int, cc: int)
    requires q < |labels| && labels[q] < 0
    requires EveryClusterHasCore(n, dist, eps, minPts, labels, cc)
    ensures EveryClusterHasCore(n, dist, eps, minPts, labels[q := v], cc)
  {
    var after := labels[q := v];
    forall c | 0 <= c <= cc
      ensures HasCore(n, dist, eps, minPts, after, c)
    {
      assert HasCore(n, dist, eps, minPts, labels, c);
      var r :| 0 <= r < |labels| && labels[r] == c && IsCore(n, dist, eps, minPts, r);
      assert after[r] == c;
    }
  }

  /** Giving q the id v keeps MembersReached when q is a core point or reached from v. */
  lemma KeepMembersReached(n: nat, dist: (nat, nat) -> real, eps: real, minPts: int,
                           labels: seq<int>, q: nat, v: int)
    requires q < |labels| && labels[q] < 0
    requires MembersReached(n, dist, eps, minPts, labels)
    requires v >= 0 ==> IsCore(n, dist, eps, minPts, q) || ReachedFrom(n, dist, eps, minPts, labels, v, q)
    ensures MembersReached(n, dist, eps, minPts, labels[q := v])
  {
    var after := labels[q := v];
    forall p | 0 <= p < |after| && after[p] >= 0 && !IsCore(n, dist, eps, minPts, p)
      ensures ReachedFrom(n, dist, eps, minPts, after, after[p], p)
    {
      KeepReached(n, dist, eps, minPts, labels, q, v, after[p], p);
    }
  }

  /** Overwriting a label that is not a cluster id keeps every chain inside cluster c. */
  lemma KeepChain(n: nat, dist: (nat, nat) -> real, eps: real, minPts: int,
                  labels: seq<int>, q: nat, v: int, c: int, o: nat, p: nat)
    requires q < |labels| && labels[q] < 0 && c >= 0
    requires LabelChain(n, dist, eps, minPts, labels, c, o, p)
    ensures LabelChain(n, dist, eps, minPts, labels[q := v], c, o, p)
  {
    var path :| Chain(n, dist, eps, minPts, path) && path[0] == o && path[|path| - 1] == p
                && forall k :: 0 <= k < |path| ==> path[k] < |labels| && labels[path[k]] == c;
    var after := labels[q := v];
    forall k | 0 <= k < |path|
      ensures path[k] < |after| && after[path[k]] == c
    {
      assert path[k] != q;
    }
  }

  /** Giving a point outside cluster c some other label keeps c density-connected. */
  lemma KeepConnected(n: nat, dist: (nat, nat) -> real, eps: real, minPts: int,
                      labels: seq<int>, q: nat, v: int, c: int)
    requires q < |labels| && labels[q] < 0 && c >= 0 && v != c
    requires LabelConnected(n, dist, eps, minPts, labels, c)
    ensures LabelConnected(n, dist, eps, minPts, labels[q := v], c)
  {
    var o: nat :| LabelRoot(n, dist, eps, minPts, labels, c, o);
    KeepRoot(n, dist, eps, minPts, labels, q, v, c, o);
  }

  /** The chains from o into cluster c survive relabelling a point that is not in any cluster. */
  lemma KeepRoot(n: nat, dist: (nat, nat) -> real, eps: real, minPts: int,
                 labels: seq<int>, q: nat, v: int, c: int, o: nat)
    requires q < |labels| && labels[q] < 0 && c >= 0
    requires LabelRoot(n, dist, eps, minPts, labels, c, o)
    requires v == c ==> LabelChain(n, dist, eps, minPts, labels[q := v], c, o, q)
    ensures LabelRoot(n, dist, eps, minPts, labels[q := v], c, o)
  {
    var after := labels[q := v];
    forall p | 0 <= p < |after| && after[p] == c
      ensures LabelChain(n, dist, eps, minPts, after, c, o, p)
    {
      if p != q {
        KeepChain(n, dist, eps, minPts, labels, q, v, c, o, p);
      }
    }
    assert after[o] == c;
  }

  /** A chain extended by a neighbour of its last point, a core point, is a chain. */
  lemma ChainSnoc(n: nat, dist: (nat, nat) -> real, eps: real, minPts: int, path: seq<nat>, q: nat)
    requires Chain(n, dist, eps, minPts, path)
    requires IsCore(n, dist, eps, minPts, path[|path| - 1])
    requires q in Neighbors(n, dist, path[|path| - 1], eps)
    ensures Chain(n, dist, eps, minPts, path + [q])
  {
    var longer := path + [q];
    forall k | 0 <= k < |longer| - 1
      ensures IsCore(n, dist, eps, minPts, longer[k]) && longer[k + 1] in Neighbors(n, dist, longer[k], eps)
    {
      if k < |path| - 1 {
        assert longer[k] == path[k] && longer[k + 1] == path[k + 1];
      } else {
        assert longer[k] == path[|path| - 1] && longer[k + 1] == q;
      }
    }
  }

  /** When q joins cluster c next to a core point r of c, q is reachable from wherever r is. */
  lemma JoinChain(n: nat, dist: (nat, nat) -> real, eps: real, minPts: int,
                  labels: seq<int>, q: nat, c: int, o: nat, r: nat)
    requires q < |labels| && labels[q] < 0 && c >= 0
    requires LabelChain(n, dist, eps, minPts, labels, c, o, r)
    requires IsCore(n, dist, eps, minPts, r) && q in Neighbors(n, dist, r, eps)
    ensures LabelChain(n, dist, eps, minPts, labels[q := c], c, o, q)
  {
    var after := labels[q := c];
    KeepChain(n, dist, eps, minPts, labels, q, c, c, o, r);
    var path :| Chain(n, dist, eps, minPts, path) && path[0] == o && path[|path| - 1] == r
                && forall k :: 0 <= k < |path| ==> path[k] < |after| && after[path[k]] == c;
    ChainSnoc(n, dist, eps, minPts, path, q);
    var longer := path + [q];
    assert forall k :: 0 <= k < |longer| ==> longer[k] < |after| && after[longer[k]] == c;
  }

  /** A point reached from cluster c that joins c leaves c density-connected. */
  lemma ExtendConnected(n: nat, dist: (nat, nat) -> real, eps: real, minPts: int,
                        labels: seq<int>, q: nat, c: int)
    requires q < |labels| && labels[q] < 0 && c >= 0
    requires LabelConnected(n, dist, eps, minPts, labels, c)
    requires ReachedFrom(n, dist, eps, minPts, labels, c, q)
    ensures LabelConnected(n, dist, eps, minPts, labels[q := c], c)
  {
    var o: nat :| LabelRoot(n, dist, eps, minPts, labels, c, o);
    var r :| 0 <= r < |labels| && labels[r] == c && IsCore(n, dist, eps, minPts, r)
             && q in Neighbors(n, dist, r, eps);
    JoinChain(n, dist, eps, minPts, labels, q, c, o, r);
    KeepRoot(n, dist, eps, minPts, labels, q, c, c, o);
  }

  /** Every queued seed is a point reached from the cluster cc. */
  ghost predicate SeedsReached(n: nat, dist: (nat, nat) -> real, eps: real, minPts: int,
                               labels: seq<int>, seeds: seq<nat>, cc: int)
  {
    forall s :: s in seeds ==> s < n && ReachedFrom(n, dist, eps, minPts, labels, cc, s)
  }

  /** `expanded` lists without repetition exactly the points moved from UNVISITED to cc. */
  ghost predicate ExpandedExactly(start: seq<int>, labels: seq<int>, expanded: seq<nat>, cc: int)
    requires |labels| == |start|
  {
    && (forall t, u :: 0 <= t < u < |expanded| ==> expanded[t] != expanded[u])
    && (forall p :: 0 <= p < |start| ==> (p in expanded <==> start[p] == UNVISITED && labels[p] == cc))
  }

  /** What the labelling keeps true between two points of the outer loop of `clustering`. */
  ghost predicate LabelInv(n: nat, dist: (nat, nat) -> real, eps: real, minPts: int,
                           labels: seq<int>, cc: int)
  {
    && |labels| == n && cc >= -1
    && WellLabelled(labels, cc)
    && NoiseNotCore(n, dist, eps, minPts, labels)
    && EveryClusterHasCore(n, dist, eps, minPts, labels, cc)
    && MembersReached(n, dist, eps, minPts, labels)
    && EveryClusterConnected(n, dist, eps, minPts, labels, cc)
    && CoreClosed(n, dist, eps, minPts, labels, [], cc)
  }

  /**
   * What the seed loop keeps true: the labels advanced from `start`, the
   * cluster cc is under construction and `seeds` are the points still queued.
   */
  ghost predicate ExpandInv(n: nat, dist: (nat, nat) -> real, eps: real, minPts: int,
                            start: seq<int>, labels: seq<int>, seeds: seq<nat>,
                            expanded: seq<nat>, cc: int)
  {
    && |labels| == n && cc >= 0
    && WellLabelled(start, cc)
    && Advances(start, labels, cc)
    && WellLabelled(labels, cc)
    && NoiseNotCore(n, dist, eps, minPts, labels)
    && EveryClusterHasCore(n, dist, eps, minPts, labels, cc)
    && MembersReached(n, dist, eps, minPts, labels)
    && EveryClusterConnected(n, dist, eps, minPts, labels, cc)
    && CoreClosed(n, dist, eps, minPts, labels, seeds, cc)
    && SeedsReached(n, dist, eps, minPts, labels, seeds, cc)
    && ExpandedExactly(start, labels, expanded, cc)
  }

  /** The parts of ExpandInv that survive giving the first seed q, not yet clustered, the id cc. */
  lemma SeedRelabel(n: nat, dist: (nat, nat) -> real, eps: real, minPts: int,
                    start: seq<int>, labels: seq<int>, q: nat, rest: seq<nat>,
                    expanded: seq<nat>, cc: int)
    requires ExpandInv(n, dist, eps, minPts, start, labels, [q] + rest, expanded, cc)
    requires q < n
    requires labels[q] < 0
    ensures Advances(start, labels[q := cc], cc)
    ensures WellLabelled(labels[q := cc], cc)
    ensures EveryClusterHasCore(n, dist, eps, minPts, labels[q := cc], cc)
    ensures MembersReached(n, dist, eps, minPts, labels[q := cc])
    ensures EveryClusterConnected(n, dist, eps, minPts, labels[q := cc], cc)
    ensures SeedsReached(n, dist, eps, minPts, labels[q := cc], rest, cc)
  {
    assert q in [q] + rest;
    KeepCores(n, dist, eps, minPts, labels, q, cc, cc);
    var after := labels[q := cc];
    forall c | 0 <= c <= cc
      ensures LabelConnected(n, dist, eps, minPts, after, c)
    {
      if c == cc {
        ExtendConnected(n, dist, eps, minPts, labels, q, cc);
      } else {
        KeepConnected(n, dist, eps, minPts, labels, q, cc, c);
      }
    }
    KeepMembersReached(n, dist, eps, minPts, labels, q, cc);
    forall s | s in rest
      ensures s < n && ReachedFrom(n, dist, eps, minPts, labels[q := cc], cc, s)
    {
      assert s in [q] + rest;
      KeepReached(n, dist, eps, minPts, labels, q, cc, cc, s);
    }
  }

  /** A queued point that already has a cluster id is dropped from the queue. */
  lemma SeedSkip(n: nat, dist: (nat, nat) -> real, eps: real, minPts: int,
                 start: seq<int>, labels: seq<int>, q: nat, rest: seq<nat>,
                 expanded: seq<nat>, cc: int)
    requires ExpandInv(n, dist, eps, minPts, start, labels, [q] + rest, expanded, cc)
    requires q < n
    requires labels[q] >= 0
    ensures ExpandInv(n, dist, eps, minPts, start, labels, rest, expanded, cc)
  {
    forall s | s in rest ensures s in [q] + rest { }
  }

  /** A queued NOISE point becomes a border point of cc. */
  lemma SeedNoise(n: nat, dist: (nat, nat) -> real, eps: real, minPts: int,
                  start: seq<int>, labels: seq<int>, q: nat, rest: seq<nat>,
                  expanded: seq<nat>, cc: int)
    requires ExpandInv(n, dist, eps, minPts, start, labels, [q] + rest, expanded, cc)
    requires q < n
    requires labels[q] == NOISE
    ensures ExpandInv(n, dist, eps, minPts, start, labels[q := cc], rest, expanded, cc)
  {
    SeedRelabel(n, dist, eps, minPts, start, labels, q, rest, expanded, cc);
    var after := labels[q := cc];
    forall p, x | 0 <= p < |after| && after[p] >= 0 && IsCore(n, dist, eps, minPts, p)
                  && x in Neighbors(n, dist, p, eps)
      ensures (x < |after| && 0 <= after[x] <= after[p]) || (after[p] == cc && x in rest)
    {
      assert p != q;
      if x != q && labels[p] == cc && x in [q] + rest {
        assert x in rest;
      }
    }
    assert ExpandedExactly(start, after, expanded, cc);
  }

  /** A queued UNVISITED point joins cc; when it is a core point its neighbours are queued. */
  lemma SeedUnvisited(n: nat, dist: (nat, nat) -> real, eps: real, minPts: int,
                      start: seq<int>, labels: seq<int>, q: nat, rest: seq<nat>,
                      expanded: seq<nat>, cc: int, queued: seq<nat>)
    requires ExpandInv(n, dist, eps, minPts, start, labels, [q] + rest, expanded, cc)
    requires q < n
    requires labels[q] == UNVISITED
    requires queued == if IsCore(n, dist, eps, minPts, q) then Neighbors(n, dist, q, eps) else []
    ensures ExpandInv(n, dist, eps, minPts, start, labels[q := cc], rest + queued, expanded + [q], cc)
  {
    SeedRelabel(n, dist, eps, minPts, start, labels, q, rest, expanded, cc);
    var after := labels[q := cc];
    forall p, x | 0 <= p < |after| && after[p] >= 0 && IsCore(n, dist, eps, minPts, p)
                  && x in Neighbors(n, dist, p, eps)
      ensures (x < |after| && 0 <= after[x] <= after[p]) || (after[p] == cc && x in rest + queued)
    {
      if p == q {
        assert x in rest + queued;
      } else if x != q && labels[p] == cc && x in [q] + rest {
        assert x in rest;
      }
    }
    forall s | s in rest + queued
      ensures s < n && ReachedFrom(n, dist, eps, minPts, after, cc, s)
    {
      if s !in rest {
        assert after[q] == cc;
      }
    }
    assert q !in expanded;
    assert start[q] == UNVISITED;
    var e := expanded + [q];
    forall p | 0 <= p < |start|
      ensures p in e <==> start[p] == UNVISITED && after[p] == cc
    {
    }
  }

  /** Appends the items one by one at the tail of the seed queue. */
  method AddAllLast(seeds: seq<nat>, items: seq<nat>) returns (r: seq<nat>)
    ensures r == seeds + items
  {
    r := seeds;
    var j := 0;
    while j < |items|
      invariant 0 <= j <= |items|
      invariant r == seeds + items[..j]
    {
      r := r + [items[j]];
      j := j + 1;
    }
    assert items[..j] == items;
  }

  /**
   * The seed loop of `clustering`: absorbs every point reachable from the
   * cluster cc's core points.  A NOISE point becomes a border point of cc; an
   * UNVISITED point joins cc and, when it is a core point itself, its
   * neighbours are queued.  `expanded` lists the points range-queried here:
   * each exactly once, and exactly those that moved from UNVISITED to cc.
   */
  method ExpandCluster(n: nat, dist: (nat, nat) -> real, eps: real, minPts: int,
                       mapping: array<int>, neighbors: seq<nat>, cc: int)
    returns (ghost expanded: seq<nat>)
    requires ExpandInv(n, dist, eps, minPts, mapping[..], mapping[..], neighbors, [], cc)
    modifies mapping
    ensures ExpandInv(n, dist, eps, minPts, old(mapping[..]), mapping[..], [], expanded, cc)
  {
    var seeds: seq<nat> := neighbors;
    expanded := [];
    while seeds != []
      invariant mapping.Length == n
      invariant ExpandInv(n, dist, eps, minPts, old(mapping[..]), mapping[..], seeds, expanded, cc)
      decreases CountUnvisited(mapping[..]), |seeds|
    {
      seeds, expanded := PollSeed(n, dist, eps, minPts, mapping, seeds, expanded, cc, old(mapping[..]));
    }
  }

  /**
   * One pass of the seed loop: polls the first seed and absorbs it into cc,
   * queueing its neighbours when it is an unvisited core point.
   */
  method PollSeed(n: nat, dist: (nat, nat) -> real, eps: real, minPts: int,
                  mapping: array<int>, seeds: seq<nat>, ghost expanded: seq<nat>, cc: int,
                  ghost start: seq<int>)
    returns (seeds': seq<nat>, ghost expanded': seq<nat>)
    requires mapping.Length == n && seeds != []
    requires ExpandInv(n, dist, eps, minPts, start, mapping[..], seeds, expanded, cc)
    modifies mapping
    ensures ExpandInv(n, dist, eps, minPts, start, mapping[..], seeds', expanded', cc)
    ensures CountUnvisited(mapping[..]) < old(CountUnvisited(mapping[..]))
            || (CountUnvisited(mapping[..]) == old(CountUnvisited(mapping[..])) && |seeds'| < |seeds|)
  {
    ghost var before := mapping[..];
    var q := seeds[0];
    assert q in seeds;
    var rest := seeds[1..];
    assert seeds == [q] + rest;
    seeds' := rest;
    expanded' := expanded;
    if mapping[q] == NOISE {
      SeedNoise(n, dist, eps, minPts, start, before, q, rest, expanded, cc);
      CountUnvisitedUpdate(before, q, cc);
      mapping[q] := cc;
      assert mapping[..] == before[q := cc];
    } else if mapping[q] == UNVISITED {
      CountUnvisitedUpdate(before, q, cc);
      mapping[q] := cc;
      assert mapping[..] == before[q := cc];
      var neighborsQ := RangeQuery(n, dist, q, eps);
      if |neighborsQ| >= minPts {
        seeds' := AddAllLast(rest, neighborsQ);
      } else {
        assert seeds' == rest + [];
      }
      SeedUnvisited(n, dist, eps, minPts, start, before, q, rest, expanded, cc, seeds'[|rest|..]);
      assert seeds' == rest + seeds'[|rest|..];
      expanded' := expanded + [q];
    } else {
      SeedSkip(n, dist, eps, minPts, start, before, q, rest, expanded, cc);
    }
  }

  /** The members of cluster c among the points 0 .. m-1, in input order. */
  function LabelMembers(labels: seq<int>, c: int, m: nat): (r: seq<nat>)
    requires m <= |labels|
    ensures forall p: nat :: p in r <==> p < m && labels[p] == c
    ensures StrictlyIncreasing(r)
  {
    if m == 0 then []
    else
      var prev := LabelMembers(labels, c, m - 1);
      assert forall t :: 0 <= t < |prev| ==> prev[t] in prev;
      if labels[m - 1] == c then prev + [m - 1] else prev
  }

  /** Point p belongs to one of the clusters. */
  ghost predicate InCluster(clusters: seq<seq<nat>>, p: nat)
  {
    exists c :: 0 <= c < |clusters| && p in clusters[c]
  }

  /** Each cluster is a non-empty list of points, in input order. */
  ghost predicate ClustersWellFormed(n: nat, clusters: seq<seq<nat>>)
  {
    forall c :: 0 <= c < |clusters| ==>
      clusters[c] != [] && StrictlyIncreasing(clusters[c]) && forall p :: p in clusters[c] ==> p < n
  }

  /** No point is in two clusters. */
  ghost predicate ClustersDisjoint(clusters: seq<seq<nat>>)
  {
    forall c, d, p :: 0 <= c < d < |clusters| && p in clusters[c] ==> p !in clusters[d]
  }

  /** Each cluster contains a core point. */
  ghost predicate ClustersHaveCore(n: nat, dist: (nat, nat) -> real, eps: real, minPts: int,
                                   clusters: seq<seq<nat>>)
  {
    forall c {:trigger ContainsCore(n, dist, eps, minPts, clusters[c])} ::
      0 <= c < |clusters| ==> ContainsCore(n, dist, eps, minPts, clusters[c])
  }

  ghost predicate ContainsCore(n: nat, dist: (nat, nat) -> real, eps: real, minPts: int, cluster: seq<nat>)
  {
    exists r :: r in cluster && IsCore(n, dist, eps, minPts, r)
  }

  /** Every core point is clustered, so a noise point is never a core point. */
  ghost predicate CoresClustered(n: nat, dist: (nat, nat) -> real, eps: real, minPts: int,
                                 clusters: seq<seq<nat>>)
  {
    forall p :: 0 <= p < n && IsCore(n, dist, eps, minPts, p) ==> InCluster(clusters, p)
  }

  /** The neighbours of a core point of cluster c lie in cluster c or in an earlier one. */
  ghost predicate CoreNeighborsClustered(n: nat, dist: (nat, nat) -> real, eps: real, minPts: int,
                                         clusters: seq<seq<nat>>)
  {
    forall c, p, q {:trigger q in Neighbors(n, dist, p, eps), p in clusters[c]} ::
      0 <= c < |clusters| && p in clusters[c] && IsCore(n, dist, eps, minPts, p)
      && q in Neighbors(n, dist, p, eps) ==>
        exists d :: 0 <= d <= c && q in clusters[d]
  }

  /** Each member is a core point or a neighbour of a core point of its own cluster. */
  ghost predicate MembersDensityReached(n: nat, dist: (nat, nat) -> real, eps: real, minPts: int,
                                        clusters: seq<seq<nat>>)
  {
    forall c, p :: 0 <= c < |clusters| && p in clusters[c] && !IsCore(n, dist, eps, minPts, p) ==>
      exists r :: r in clusters[c] && IsCore(n, dist, eps, minPts, r) && p in Neighbors(n, dist, r, eps)
  }

  /** p is density-reachable from o through members of the cluster. */
  ghost predicate ClusterChain(n: nat, dist: (nat, nat) -> real, eps: real, minPts: int,
                               cluster: seq<nat>, o: nat, p: nat)
  {
    exists path :: Chain(n, dist, eps, minPts, path) && path[0] == o && path[|path| - 1] == p
                   && forall k :: 0 <= k < |path| ==> path[k] in cluster
  }

  /** o is a core member of the cluster from which every member is density-reachable within it. */
  ghost predicate ClusterRoot(n: nat, dist: (nat, nat) -> real, eps: real, minPts: int,
                              cluster: seq<nat>, o: nat)
  {
    && o in cluster && IsCore(n, dist, eps, minPts, o)
    && forall p :: p in cluster ==> ClusterChain(n, dist, eps, minPts, cluster, o, p)
  }

  /**
   * Each cluster is density-connected: all its members are density-reachable
   * from one of its core points through members of the same cluster.
   */
  ghost predicate ClustersDensityConnected(n: nat, dist: (nat, nat) -> real, eps: real, minPts: int,
                                           clusters: seq<seq<nat>>)
  {
    forall c :: 0 <= c < |clusters| ==> ClusterConnected(n, dist, eps, minPts, clusters[c])
  }

  ghost predicate ClusterConnected(n: nat, dist: (nat, nat) -> real, eps: real, minPts: int, cluster: seq<nat>)
  {
    exists o: nat :: ClusterRoot(n, dist, eps, minPts, cluster, o)
  }

  /** Some core member of the cluster lies below p. */
  ghost predicate EarlierCoreIn(n: nat, dist: (nat, nat) -> real, eps: real, minPts: int,
                                cluster: seq<nat>, p: nat)
  {
    exists q :: q in cluster && q < p && IsCore(n, dist, eps, minPts, q)
  }

  /**
   * Clusters come in the order of their lowest core points: below every core
   * member of a later cluster lies a core member of each earlier one.
   */
  ghost predicate ClustersOrdered(n: nat, dist: (nat, nat) -> real, eps: real, minPts: int,
                                  clusters: seq<seq<nat>>)
  {
    forall c, d, p {:trigger EarlierCoreIn(n, dist, eps, minPts, clusters[c], p), p in clusters[d]} ::
      0 <= c < d < |clusters| && p in clusters[d] && IsCore(n, dist, eps, minPts, p) ==>
        EarlierCoreIn(n, dist, eps, minPts, clusters[c], p)
  }

  /**
   * What the explicit-eps `clustering` promises about its result.  Noise is
   * every point in no cluster.
   */
  ghost predicate IsDbscanPartition(n: nat, dist: (nat, nat) -> real, eps: real, minPts: int,
                                    clusters: seq<seq<nat>>)
  {
    && ClustersWellFormed(n, clusters)
    && ClustersDisjoint(clusters)
    && ClustersHaveCore(n, dist, eps, minPts, clusters)
    && CoresClustered(n, dist, eps, minPts, clusters)
    && CoreNeighborsClustered(n, dist, eps, minPts, clusters)
    && MembersDensityReached(n, dist, eps, minPts, clusters)
    && ClustersDensityConnected(n, dist, eps, minPts, clusters)
    && ClustersOrdered(n, dist, eps, minPts, clusters)
  }

  /** The points of one side of a split are all farther than eps from the other side. */
  ghost predicate Separated(dist: (nat, nat) -> real, eps: real, side: nat -> bool)
  {
    forall a: nat, b: nat :: side(a) != side(b) ==> dist(a, b) > eps
  }

  /** A chain never crosses a gap wider than eps. */
  lemma {:induction false} ChainKeepsSide(n: nat, dist: (nat, nat) -> real, eps: real, minPts: int,
                                          path: seq<nat>, side: nat -> bool, k: nat)
    requires Chain(n, dist, eps, minPts, path) && k < |path|
    requires Separated(dist, eps, side)
    ensures side(path[k]) == side(path[0])
    decreases k
  {
    if k > 0 {
      ChainKeepsSide(n, dist, eps, minPts, path, side, k - 1);
      assert path[k] in Neighbors(n, dist, path[k - 1], eps);
    }
  }

  /**
   * A DBSCAN partition never puts two points separated by a gap wider than
   * eps into one cluster: each cluster lies on one side of the split.
   */
  lemma ClusterOnOneSide(n: nat, dist: (nat, nat) -> real, eps: real, minPts: int,
                         clusters: seq<seq<nat>>, c: nat, side: nat -> bool)
    requires IsDbscanPartition(n, dist, eps, minPts, clusters) && c < |clusters|
    requires Separated(dist, eps, side)
    ensures forall p, q :: p in clusters[c] && q in clusters[c] ==> side(p) == side(q)
  {
    assert ClusterConnected(n, dist, eps, minPts, clusters[c]);
    var o: nat :| ClusterRoot(n, dist, eps, minPts, clusters[c], o);
    forall p | p in clusters[c]
      ensures side(p) == side(o)
    {
      assert ClusterChain(n, dist, eps, minPts, clusters[c], o, p);
      var path :| Chain(n, dist, eps, minPts, path) && path[0] == o && path[|path| - 1] == p
                  && forall k :: 0 <= k < |path| ==> path[k] in clusters[c];
      ChainKeepsSide(n, dist, eps, minPts, path, side, |path| - 1);
    }
  }

  /** Two groups, {0, 1} and the rest, at distance 0 inside a group and 10 across. */
  function TwoGroups(a: nat, b: nat): real
  {
    if (a < 2) == (b < 2) then 0.0 else 10.0
  }

  /** With eps 1 the points 0 and 2 never share a cluster, whatever minPts is. */
  lemma TwoGroupsStaySplit(n: nat, minPts: int, clusters: seq<seq<nat>>)
    requires IsDbscanPartition(n, TwoGroups, 1.0, minPts, clusters)
    ensures forall c :: 0 <= c < |clusters| ==> !(0 in clusters[c] && 2 in clusters[c])
  {
    TwoGroupsSeparated();
    forall c | 0 <= c < |clusters|
      ensures !(0 in clusters[c] && 2 in clusters[c])
    {
      ClusterOnOneSide(n, TwoGroups, 1.0, minPts, clusters, c, InFirstGroup);
      assert InFirstGroup(0) != InFirstGroup(2);
    }
  }

  predicate InFirstGroup(x: nat)
  {
    x < 2
  }

  lemma TwoGroupsSeparated()
    ensures Separated(TwoGroups, 1.0, InFirstGroup)
  {
  }

  // ---------------------------------------------------------------------------
  // For a symmetric distance there is exactly one DBSCAN partition
  // ---------------------------------------------------------------------------

  /** The distance does not depend on the order of the two points. */
  ghost predicate Symmetric(n: nat, dist: (nat, nat) -> real)
  {
    forall a: nat, b: nat :: a < n && b < n ==> dist(a, b) == dist(b, a)
  }

  /** With a symmetric distance, being in an eps-neighbourhood is mutual. */
  lemma NeighborMutual(n: nat, dist: (nat, nat) -> real, eps: real, p: nat, q: nat)
    requires Symmetric(n, dist) && p < n
    requires q in Neighbors(n, dist, p, eps)
    ensures p in Neighbors(n, dist, q, eps)
  {
    assert dist(q, p) == dist(p, q);
  }

  /** A point lies in at most one cluster. */
  lemma OneCluster(clusters: seq<seq<nat>>, c: nat, d: nat, p: nat)
    requires ClustersDisjoint(clusters)
    requires c < |clusters| && d < |clusters| && p in clusters[c] && p in clusters[d]
    ensures c == d
  {
  }

  /** The parts of IsDbscanPartition that place the neighbours of core points. */
  ghost predicate NeighborsPlaced(n: nat, dist: (nat, nat) -> real, eps: real, minPts: int,
                                  clusters: seq<seq<nat>>)
  {
    && ClustersWellFormed(n, clusters)
    && ClustersDisjoint(clusters)
    && CoreNeighborsClustered(n, dist, eps, minPts, clusters)
  }

  /** Two core points that are neighbours share their cluster. */
  lemma CoreNeighborsShare(n: nat, dist: (nat, nat) -> real, eps: real, minPts: int,
                           clusters: seq<seq<nat>>, c: nat, d: nat, x: nat, y: nat)
    requires Symmetric(n, dist) && NeighborsPlaced(n, dist, eps, minPts, clusters)
    requires c < |clusters| && d < |clusters| && x in clusters[c] && y in clusters[d]
    requires IsCore(n, dist, eps, minPts, x) && IsCore(n, dist, eps, minPts, y)
    requires y in Neighbors(n, dist, x, eps)
    ensures c == d
  {
    var e :| 0 <= e <= c && y in clusters[e];
    OneCluster(clusters, e, d, y);
    assert x < n;
    NeighborMutual(n, dist, eps, x, y);
    var e' :| 0 <= e' <= d && x in clusters[e'];
    OneCluster(clusters, e', c, x);
  }

  /** A chain that ends in a core point runs inside the cluster where it starts. */
  lemma {:induction false} ChainStaysIn(n: nat, dist: (nat, nat) -> real, eps: real, minPts: int,
                                        clusters: seq<seq<nat>>, d: nat, path: seq<nat>, k: nat)
    requires Symmetric(n, dist) && NeighborsPlaced(n, dist, eps, minPts, clusters)
    requires Chain(n, dist, eps, minPts, path) && IsCore(n, dist, eps, minPts, path[|path| - 1])
    requires d < |clusters| && path[0] in clusters[d] && k < |path|
    ensures path[k] in clusters[d]
    decreases k
  {
    if k > 0 {
      ChainStaysIn(n, dist, eps, minPts, clusters, d, path, k - 1);
      var x, y := path[k - 1], path[k];
      assert IsCore(n, dist, eps, minPts, x) && y in Neighbors(n, dist, x, eps);
      var e :| 0 <= e <= d && y in clusters[e];
      assert IsCore(n, dist, eps, minPts, y);
      CoreNeighborsShare(n, dist, eps, minPts, clusters, d, e, x, y);
    }
  }

  /**
   * The core points of one cluster of `a` lie in one cluster of `b`: each is
   * reached from the cluster's root along a chain of core points.
   */
  lemma CoresStayTogether(n: nat, dist: (nat, nat) -> real, eps: real, minPts: int,
                          a: seq<seq<nat>>, b: seq<seq<nat>>, c: nat, d: nat, p: nat, q: nat)
    requires Symmetric(n, dist)
    requires ClustersWellFormed(n, a) && ClustersDensityConnected(n, dist, eps, minPts, a)
    requires NeighborsPlaced(n, dist, eps, minPts, b) && CoresClustered(n, dist, eps, minPts, b)
    requires c < |a| && p in a[c] && q in a[c]
    requires IsCore(n, dist, eps, minPts, p) && IsCore(n, dist, eps, minPts, q)
    requires d < |b| && p in b[d]
    ensures q in b[d]
  {
    assert ClusterConnected(n, dist, eps, minPts, a[c]);
    var o: nat :| ClusterRoot(n, dist, eps, minPts, a[c], o);
    assert o < n;
    assert InCluster(b, o);
    var e :| 0 <= e < |b| && o in b[e];
    RootReaches(n, dist, eps, minPts, a[c], o, p, b, e);
    OneCluster(b, e, d, p);
    RootReaches(n, dist, eps, minPts, a[c], o, q, b, e);
  }

  /** A core point reached from the root o lies in the cluster of `b` that holds o. */
  lemma RootReaches(n: nat, dist: (nat, nat) -> real, eps: real, minPts: int,
                    cluster: seq<nat>, o: nat, p: nat, b: seq<seq<nat>>, e: nat)
    requires Symmetric(n, dist) && NeighborsPlaced(n, dist, eps, minPts, b)
    requires ClusterRoot(n, dist, eps, minPts, cluster, o)
    requires p in cluster && IsCore(n, dist, eps, minPts, p)
    requires e < |b| && o in b[e]
    ensures p in b[e]
  {
    assert ClusterChain(n, dist, eps, minPts, cluster, o, p);
    var path :| Chain(n, dist, eps, minPts, path) && path[0] == o && path[|path| - 1] == p
                && forall k :: 0 <= k < |path| ==> path[k] in cluster;
    ChainStaysIn(n, dist, eps, minPts, b, e, path, |path| - 1);
  }

  /** The parts of IsDbscanPartition that place and order the core points. */
  ghost predicate CoresPlaced(n: nat, dist: (nat, nat) -> real, eps: real, minPts: int,
                              clusters: seq<seq<nat>>)
  {
    && ClustersWellFormed(n, clusters)
    && ClustersDisjoint(clusters)
    && CoresClustered(n, dist, eps, minPts, clusters)
    && ClustersOrdered(n, dist, eps, minPts, clusters)
  }

  /** Core points that share a cluster of `a` share a cluster of `b`. */
  ghost predicate CoresTogether(n: nat, dist: (nat, nat) -> real, eps: real, minPts: int,
                                a: seq<seq<nat>>, b: seq<seq<nat>>)
  {
    forall c, d, p, q {:trigger p in b[d], q in a[c], p in a[c]} ::
      0 <= c < |a| && 0 <= d < |b| && p in a[c] && q in a[c] && p in b[d]
      && IsCore(n, dist, eps, minPts, p) && IsCore(n, dist, eps, minPts, q) ==>
        q in b[d]
  }

  lemma AllCoresTogether(n: nat, dist: (nat, nat) -> real, eps: real, minPts: int,
                         a: seq<seq<nat>>, b: seq<seq<nat>>)
    requires Symmetric(n, dist)
    requires ClustersWellFormed(n, a) && ClustersDensityConnected(n, dist, eps, minPts, a)
    requires NeighborsPlaced(n, dist, eps, minPts, b) && CoresClustered(n, dist, eps, minPts, b)
    ensures CoresTogether(n, dist, eps, minPts, a, b)
  {
    forall c, d, p, q | 0 <= c < |a| && 0 <= d < |b| && p in a[c] && q in a[c] && p in b[d]
                        && IsCore(n, dist, eps, minPts, p) && IsCore(n, dist, eps, minPts, q)
      ensures q in b[d]
    {
      CoresStayTogether(n, dist, eps, minPts, a, b, c, d, p, q);
    }
  }

  /** m is the lowest core point of the cluster. */
  ghost predicate IsLeastCore(n: nat, dist: (nat, nat) -> real, eps: real, minPts: int,
                              cluster: seq<nat>, m: nat)
  {
    && m in cluster && IsCore(n, dist, eps, minPts, m)
    && forall q :: q in cluster && IsCore(n, dist, eps, minPts, q) ==> m <= q
  }

  lemma {:induction false} LeastCoreExists(n: nat, dist: (nat, nat) -> real, eps: real, minPts: int,
                                           cluster: seq<nat>)
    requires ContainsCore(n, dist, eps, minPts, cluster)
    ensures exists m :: IsLeastCore(n, dist, eps, minPts, cluster, m)
    decreases |cluster|
  {
    var h, t := cluster[0], cluster[1..];
    assert cluster == [h] + t;
    if ContainsCore(n, dist, eps, minPts, t) {
      LeastCoreExists(n, dist, eps, minPts, t);
      var m :| IsLeastCore(n, dist, eps, minPts, t, m);
      if IsCore(n, dist, eps, minPts, h) && h < m {
        assert IsLeastCore(n, dist, eps, minPts, cluster, h);
      } else {
        assert IsLeastCore(n, dist, eps, minPts, cluster, m);
      }
    } else {
      assert IsLeastCore(n, dist, eps, minPts, cluster, h);
    }
  }

  /** Cluster c of `a` and cluster c of `b` have the same core points. */
  ghost predicate SameCoresAt(n: nat, dist: (nat, nat) -> real, eps: real, minPts: int,
                              a: seq<seq<nat>>, b: seq<seq<nat>>, c: nat)
    requires c < |a| && c < |b|
  {
    forall p :: IsCore(n, dist, eps, minPts, p) ==> (p in a[c] <==> p in b[c])
  }

  /**
   * The lowest core point of cluster c of `a` lies in cluster c of `b`, once
   * the earlier clusters agree on their core points: an earlier cluster of `b`
   * would make it a core point of an earlier cluster of `a`, and a later one
   * would put a lower core point into cluster c of `b`, hence into a later
   * cluster of `a`, below the lowest core point of cluster c.
   */
  lemma LeastCoreMatches(n: nat, dist: (nat, nat) -> real, eps: real, minPts: int,
                         a: seq<seq<nat>>, b: seq<seq<nat>>, c: nat, m: nat, m': nat)
    requires CoresPlaced(n, dist, eps, minPts, a) && CoresPlaced(n, dist, eps, minPts, b)
    requires c < |a| && c < |b|
    requires forall e :: 0 <= e < c ==> SameCoresAt(n, dist, eps, minPts, a, b, e)
    requires IsLeastCore(n, dist, eps, minPts, a[c], m) && IsLeastCore(n, dist, eps, minPts, b[c], m')
    ensures m in b[c]
  {
    assert m < n && InCluster(b, m);
    var d :| 0 <= d < |b| && m in b[d];
    assert m' < n && InCluster(a, m');
    var d' :| 0 <= d' < |a| && m' in a[d'];
    forall e | 0 <= e < c
      ensures m !in b[e] && m' !in a[e]
    {
      assert SameCoresAt(n, dist, eps, minPts, a, b, e);
    }
    assert d > c ==> EarlierCoreIn(n, dist, eps, minPts, b[c], m);
    assert d' > c ==> EarlierCoreIn(n, dist, eps, minPts, a[c], m');
  }

  /** Once one core of cluster c of `a` is in cluster c of `b`, all cores of a[c] are. */
  lemma CoresFollow(n: nat, dist: (nat, nat) -> real, eps: real, minPts: int,
                    a: seq<seq<nat>>, b: seq<seq<nat>>, c: nat, m: nat)
    requires CoresTogether(n, dist, eps, minPts, a, b)
    requires c < |a| && c < |b| && m in a[c] && m in b[c] && IsCore(n, dist, eps, minPts, m)
    ensures forall p :: IsCore(n, dist, eps, minPts, p) && p in a[c] ==> p in b[c]
  {
  }

  lemma CoresMatchAt(n: nat, dist: (nat, nat) -> real, eps: real, minPts: int,
                     a: seq<seq<nat>>, b: seq<seq<nat>>, c: nat)
    requires CoresPlaced(n, dist, eps, minPts, a) && CoresPlaced(n, dist, eps, minPts, b)
    requires CoresTogether(n, dist, eps, minPts, a, b) && CoresTogether(n, dist, eps, minPts, b, a)
    requires c < |a| && c < |b|
    requires ContainsCore(n, dist, eps, minPts, a[c]) && ContainsCore(n, dist, eps, minPts, b[c])
    requires forall e :: 0 <= e < c ==> SameCoresAt(n, dist, eps, minPts, a, b, e)
    ensures SameCoresAt(n, dist, eps, minPts, a, b, c)
  {
    LeastCoreExists(n, dist, eps, minPts, a[c]);
    var m :| IsLeastCore(n, dist, eps, minPts, a[c], m);
    LeastCoreExists(n, dist, eps, minPts, b[c]);
    var m' :| IsLeastCore(n, dist, eps, minPts, b[c], m');
    LeastCoreMatches(n, dist, eps, minPts, a, b, c, m, m');
    forall e | 0 <= e < c
      ensures SameCoresAt(n, dist, eps, minPts, b, a, e)
    {
      assert SameCoresAt(n, dist, eps, minPts, a, b, e);
    }
    LeastCoreMatches(n, dist, eps, minPts, b, a, c, m', m);
    CoresFollow(n, dist, eps, minPts, a, b, c, m);
    CoresFollow(n, dist, eps, minPts, b, a, c, m');
  }

  lemma {:induction false} CoresMatchBelow(n: nat, dist: (nat, nat) -> real, eps: real, minPts: int,
                                           a: seq<seq<nat>>, b: seq<seq<nat>>, k: nat)
    requires CoresPlaced(n, dist, eps, minPts, a) && CoresPlaced(n, dist, eps, minPts, b)
    requires CoresTogether(n, dist, eps, minPts, a, b) && CoresTogether(n, dist, eps, minPts, b, a)
    requires ClustersHaveCore(n, dist, eps, minPts, a) && ClustersHaveCore(n, dist, eps, minPts, b)
    requires k <= |a| && k <= |b|
    ensures forall e :: 0 <= e < k ==> SameCoresAt(n, dist, eps, minPts, a, b, e)
    decreases k
  {
    if k > 0 {
      CoresMatchBelow(n, dist, eps, minPts, a, b, k - 1);
      assert ContainsCore(n, dist, eps, minPts, a[k - 1]) && ContainsCore(n, dist, eps, minPts, b[k - 1]);
      CoresMatchAt(n, dist, eps, minPts, a, b, k - 1);
    }
  }

  /** `b` has no more clusters than `a` when the clusters they share agree on core points. */
  lemma NoExtraCluster(n: nat, dist: (nat, nat) -> real, eps: real, minPts: int,
                       a: seq<seq<nat>>, b: seq<seq<nat>>)
    requires CoresPlaced(n, dist, eps, minPts, a) && CoresPlaced(n, dist, eps, minPts, b)
    requires ClustersHaveCore(n, dist, eps, minPts, b)
    requires forall e :: 0 <= e < |a| && e < |b| ==> SameCoresAt(n, dist, eps, minPts, a, b, e)
    ensures |b| <= |a|
  {
    forall k, r | 0 <= k < |b| && r in b[k] && IsCore(n, dist, eps, minPts, r)
      ensures k < |a|
    {
      assert r < n && InCluster(a, r);
      var d :| 0 <= d < |a| && r in a[d];
      if d < |b| {
        assert SameCoresAt(n, dist, eps, minPts, a, b, d);
      }
    }
    assert |a| < |b| ==> ContainsCore(n, dist, eps, minPts, b[|a|]);
  }

  /** A border point of cluster c of `a` is in cluster c of `b`. */
  lemma MemberMatches(n: nat, dist: (nat, nat) -> real, eps: real, minPts: int,
                      a: seq<seq<nat>>, b: seq<seq<nat>>, c: nat, p: nat)
    requires MembersDensityReached(n, dist, eps, minPts, a) && MembersDensityReached(n, dist, eps, minPts, b)
    requires NeighborsPlaced(n, dist, eps, minPts, a) && NeighborsPlaced(n, dist, eps, minPts, b)
    requires |a| == |b| && c < |a| && p in a[c]
    requires forall e :: 0 <= e < |a| ==> SameCoresAt(n, dist, eps, minPts, a, b, e)
    ensures p in b[c]
  {
    assert SameCoresAt(n, dist, eps, minPts, a, b, c);
    if !IsCore(n, dist, eps, minPts, p) {
      var r :| r in a[c] && IsCore(n, dist, eps, minPts, r) && p in Neighbors(n, dist, r, eps);
      var d :| 0 <= d <= c && p in b[d];
      var r' :| r' in b[d] && IsCore(n, dist, eps, minPts, r') && p in Neighbors(n, dist, r', eps);
      assert SameCoresAt(n, dist, eps, minPts, a, b, d);
      var e :| 0 <= e <= d && p in a[e];
      OneCluster(a, e, c, p);
    }
  }

  /** Two strictly increasing sequences with the same elements are equal. */
  lemma {:induction false} IncreasingUnique(s: seq<nat>, t: seq<nat>)
    requires StrictlyIncreasing(s) && StrictlyIncreasing(t)
    requires forall x :: x in s <==> x in t
    ensures s == t
    decreases |s|
  {
    assert |s| == 0 || s[0] in s;
    assert |t| == 0 || t[0] in t;
    if s != [] {
      assert s[0] in t;
      assert t != [] && t[0] in s;
      assert s[0] == t[0];
      forall x
        ensures x in s[1..] <==> x in t[1..]
      {
        if x in s[1..] {
          assert x in t && x != t[0];
        }
        if x in t[1..] {
          assert x in s && x != s[0];
        }
      }
      IncreasingUnique(s[1..], t[1..]);
    }
  }

  /** Two partitions whose cores stay together have as many clusters, with the same cores in each. */
  lemma CoresMatchAll(n: nat, dist: (nat, nat) -> real, eps: real, minPts: int,
                      a: seq<seq<nat>>, b: seq<seq<nat>>)
    requires CoresPlaced(n, dist, eps, minPts, a) && CoresPlaced(n, dist, eps, minPts, b)
    requires ClustersHaveCore(n, dist, eps, minPts, a) && ClustersHaveCore(n, dist, eps, minPts, b)
    requires CoresTogether(n, dist, eps, minPts, a, b) && CoresTogether(n, dist, eps, minPts, b, a)
    ensures |a| == |b|
    ensures forall e :: 0 <= e < |a| ==> SameCoresAt(n, dist, eps, minPts, a, b, e)
  {
    var k := if |a| <= |b| then |a| else |b|;
    CoresMatchBelow(n, dist, eps, minPts, a, b, k);
    NoExtraCluster(n, dist, eps, minPts, a, b);
    forall e | 0 <= e < k
      ensures SameCoresAt(n, dist, eps, minPts, b, a, e)
    {
      assert SameCoresAt(n, dist, eps, minPts, a, b, e);
    }
    NoExtraCluster(n, dist, eps, minPts, b, a);
  }

  /** Two partitions with the same cores cluster by cluster are equal. */
  lemma SameClusters(n: nat, dist: (nat, nat) -> real, eps: real, minPts: int,
                     a: seq<seq<nat>>, b: seq<seq<nat>>)
    requires MembersDensityReached(n, dist, eps, minPts, a) && MembersDensityReached(n, dist, eps, minPts, b)
    requires NeighborsPlaced(n, dist, eps, minPts, a) && NeighborsPlaced(n, dist, eps, minPts, b)
    requires |a| == |b|
    requires forall e :: 0 <= e < |a| ==> SameCoresAt(n, dist, eps, minPts, a, b, e)
    ensures a == b
  {
    forall e | 0 <= e < |b|
      ensures SameCoresAt(n, dist, eps, minPts, b, a, e)
    {
      assert SameCoresAt(n, dist, eps, minPts, a, b, e);
    }
    forall c | 0 <= c < |a|
      ensures a[c] == b[c]
    {
      forall p
        ensures p in a[c] <==> p in b[c]
      {
        if p in a[c] {
          MemberMatches(n, dist, eps, minPts, a, b, c, p);
        }
        if p in b[c] {
          MemberMatches(n, dist, eps, minPts, b, a, c, p);
        }
      }
      IncreasingUnique(a[c], b[c]);
    }
  }

  /**
   * For a symmetric distance the DBSCAN partition is unique: the properties
   * of IsDbscanPartition fix which points are clustered, which cluster each
   * joins and the order of the clusters.
   */
  lemma PartitionUnique(n: nat, dist: (nat, nat) -> real, eps: real, minPts: int,
                        a: seq<seq<nat>>, b: seq<seq<nat>>)
    requires Symmetric(n, dist)
    requires IsDbscanPartition(n, dist, eps, minPts, a) && IsDbscanPartition(n, dist, eps, minPts, b)
    ensures a == b
  {
    AllCoresTogether(n, dist, eps, minPts, a, b);
    AllCoresTogether(n, dist, eps, minPts, b, a);
    CoresMatchAll(n, dist, eps, minPts, a, b);
    SameClusters(n, dist, eps, minPts, a, b);
  }

  /** Cluster c holds exactly the points labelled c. */
  ghost predicate GroupedBy(labels: seq<int>, cc: int, clusters: seq<seq<nat>>)
  {
    && |clusters| == cc + 1
    && forall c :: 0 <= c <= cc ==>
         StrictlyIncreasing(clusters[c]) && forall p: nat :: p in clusters[c] <==> p < |labels| && labels[p] == c
  }

  /** The final labelling, grouped by cluster id, satisfies IsDbscanPartition. */
  lemma PartitionFromLabels(n: nat, dist: (nat, nat) -> real, eps: real, minPts: int,
                            labels: seq<int>, cc: int, clusters: seq<seq<nat>>)
    requires |labels| == n && cc >= -1
    requires forall p :: 0 <= p < n ==> labels[p] != UNVISITED
    requires WellLabelled(labels, cc)
    requires NoiseNotCore(n, dist, eps, minPts, labels)
    requires EveryClusterHasCore(n, dist, eps, minPts, labels, cc)
    requires MembersReached(n, dist, eps, minPts, labels)
    requires EveryClusterConnected(n, dist, eps, minPts, labels, cc)
    requires CoreClosed(n, dist, eps, minPts, labels, [], cc)
    requires LabelsOrdered(n, dist, eps, minPts, labels)
    requires GroupedBy(labels, cc, clusters)
    ensures IsDbscanPartition(n, dist, eps, minPts, clusters)
  {
    GroupedOrdered(n, dist, eps, minPts, labels, cc, clusters);
    GroupedConnected(n, dist, eps, minPts, labels, cc, clusters);
    GroupedHaveCore(n, dist, eps, minPts, labels, cc, clusters);
    GroupedCoresClustered(n, dist, eps, minPts, labels, cc, clusters);
    GroupedNeighborsClustered(n, dist, eps, minPts, labels, cc, clusters);
    GroupedMembersReached(n, dist, eps, minPts, labels, cc, clusters);
  }

  lemma GroupedHaveCore(n: nat, dist: (nat, nat) -> real, eps: real, minPts: int,
                        labels: seq<int>, cc: int, clusters: seq<seq<nat>>)
    requires |labels| == n
    requires EveryClusterHasCore(n, dist, eps, minPts, labels, cc)
    requires GroupedBy(labels, cc, clusters)
    ensures ClustersWellFormed(n, clusters)
    ensures ClustersHaveCore(n, dist, eps, minPts, clusters)
  {
    forall c | 0 <= c < |clusters|
      ensures clusters[c] != [] && StrictlyIncreasing(clusters[c]) && forall p :: p in clusters[c] ==> p < n
      ensures ContainsCore(n, dist, eps, minPts, clusters[c])
    {
      assert HasCore(n, dist, eps, minPts, labels, c);
      var r: nat :| r < |labels| && labels[r] == c && IsCore(n, dist, eps, minPts, r);
      assert r in clusters[c];
      assert IsCore(n, dist, eps, minPts, r);
      forall p | p in clusters[c]
        ensures p < n
      {
        assert p < |labels|;
      }
    }
    assert ClustersWellFormed(n, clusters);
  }

  lemma GroupedCoresClustered(n: nat, dist: (nat, nat) -> real, eps: real, minPts: int,
                              labels: seq<int>, cc: int, clusters: seq<seq<nat>>)
    requires |labels| == n
    requires forall p :: 0 <= p < n ==> labels[p] != UNVISITED
    requires WellLabelled(labels, cc)
    requires NoiseNotCore(n, dist, eps, minPts, labels)
    requires GroupedBy(labels, cc, clusters)
    ensures ClustersDisjoint(clusters)
    ensures CoresClustered(n, dist, eps, minPts, clusters)
  {
    forall p | 0 <= p < n && IsCore(n, dist, eps, minPts, p)
      ensures InCluster(clusters, p)
    {
      assert p in clusters[labels[p]];
    }
  }

  lemma GroupedNeighborsClustered(n: nat, dist: (nat, nat) -> real, eps: real, minPts: int,
                                  labels: seq<int>, cc: int, clusters: seq<seq<nat>>)
    requires |labels| == n
    requires WellLabelled(labels, cc)
    requires CoreClosed(n, dist, eps, minPts, labels, [], cc)
    requires GroupedBy(labels, cc, clusters)
    ensures CoreNeighborsClustered(n, dist, eps, minPts, clusters)
  {
    forall c, p, q | 0 <= c < |clusters| && p in clusters[c] && IsCore(n, dist, eps, minPts, p)
                     && q in Neighbors(n, dist, p, eps)
      ensures exists d :: 0 <= d <= c && q in clusters[d]
    {
      assert labels[p] == c;
      assert q < n && 0 <= labels[q] <= c;
      assert q in clusters[labels[q]];
    }
  }

  lemma GroupedMembersReached(n: nat, dist: (nat, nat) -> real, eps: real, minPts: int,
                              labels: seq<int>, cc: int, clusters: seq<seq<nat>>)
    requires |labels| == n
    requires MembersReached(n, dist, eps, minPts, labels)
    requires GroupedBy(labels, cc, clusters)
    ensures MembersDensityReached(n, dist, eps, minPts, clusters)
  {
    forall c, p | 0 <= c < |clusters| && p in clusters[c] && !IsCore(n, dist, eps, minPts, p)
      ensures exists r :: r in clusters[c] && IsCore(n, dist, eps, minPts, r) && p in Neighbors(n, dist, r, eps)
    {
      assert labels[p] == c;
      assert ReachedFrom(n, dist, eps, minPts, labels, c, p);
      var r :| 0 <= r < |labels| && labels[r] == c && IsCore(n, dist, eps, minPts, r)
               && p in Neighbors(n, dist, r, eps);
      assert r in clusters[c];
    }
  }

  /** Clusters grouped from density-connected label classes are density-connected. */
  lemma GroupedConnected(n: nat, dist: (nat, nat) -> real, eps: real, minPts: int,
                         labels: seq<int>, cc: int, clusters: seq<seq<nat>>)
    requires |labels| == n
    requires EveryClusterConnected(n, dist, eps, minPts, labels, cc)
    requires GroupedBy(labels, cc, clusters)
    ensures ClustersDensityConnected(n, dist, eps, minPts, clusters)
  {
    forall c | 0 <= c < |clusters|
      ensures ClusterConnected(n, dist, eps, minPts, clusters[c])
    {
      assert LabelConnected(n, dist, eps, minPts, labels, c);
      var o: nat :| LabelRoot(n, dist, eps, minPts, labels, c, o);
      GroupedRoot(n, dist, eps, minPts, labels, cc, clusters, c, o);
    }
  }

  /** A root of label class c is a root of the grouped cluster c, its chains staying inside it. */
  lemma GroupedRoot(n: nat, dist: (nat, nat) -> real, eps: real, minPts: int,
                    labels: seq<int>, cc: int, clusters: seq<seq<nat>>, c: int, o: nat)
    requires GroupedBy(labels, cc, clusters) && 0 <= c <= cc
    requires LabelRoot(n, dist, eps, minPts, labels, c, o)
    ensures ClusterRoot(n, dist, eps, minPts, clusters[c], o)
  {
    forall p | p in clusters[c]
      ensures ClusterChain(n, dist, eps, minPts, clusters[c], o, p)
    {
      assert LabelChain(n, dist, eps, minPts, labels, c, o, p);
      var path :| Chain(n, dist, eps, minPts, path) && path[0] == o && path[|path| - 1] == p
                  && forall k :: 0 <= k < |path| ==> path[k] < |labels| && labels[path[k]] == c;
      assert forall k :: 0 <= k < |path| ==> path[k] in clusters[c];
    }
  }

  /** Grouping by label keeps the clusters in the order they were opened. */
  lemma GroupedOrdered(n: nat, dist: (nat, nat) -> real, eps: real, minPts: int,
                       labels: seq<int>, cc: int, clusters: seq<seq<nat>>)
    requires LabelsOrdered(n, dist, eps, minPts, labels)
    requires GroupedBy(labels, cc, clusters)
    ensures ClustersOrdered(n, dist, eps, minPts, clusters)
  {
    forall c, d, p | 0 <= c < d < |clusters| && p in clusters[d] && IsCore(n, dist, eps, minPts, p)
      ensures EarlierCoreIn(n, dist, eps, minPts, clusters[c], p)
    {
      assert labels[p] == d;
      assert CoreBefore(n, dist, eps, minPts, labels, c, p);
      var q :| 0 <= q < p && q < |labels| && labels[q] == c && IsCore(n, dist, eps, minPts, q);
      assert q in clusters[c];
    }
  }

  /**
   * One outer iteration keeps the clusters ordered: the only cluster it may
   * open, cc + 1, is opened at the core point i, and every point it moves into
   * cc + 1 was unvisited, so not below i, or noise, so not a core point.
   */
  lemma OrderAfterVisit(n: nat, dist: (nat, nat) -> real, eps: real, minPts: int,
                        before: seq<int>, after: seq<int>, i: nat, cc: int, cc': int)
    requires |before| == n && |after| == n && i < n
    requires forall p :: 0 <= p < i ==> before[p] != UNVISITED
    requires WellLabelled(before, cc) && NoiseNotCore(n, dist, eps, minPts, before)
    requires LabelsOrdered(n, dist, eps, minPts, before)
    requires OpenedBelow(n, dist, eps, minPts, before, cc, i)
    requires forall p :: 0 <= p < n && before[p] >= 0 ==> after[p] == before[p]
    requires forall p :: 0 <= p < n && before[p] < 0 && after[p] >= 0 ==> cc' == cc + 1 && after[p] == cc'
    requires cc' == cc || (cc' == cc + 1 && after[i] == cc' && IsCore(n, dist, eps, minPts, i))
    ensures LabelsOrdered(n, dist, eps, minPts, after)
    ensures OpenedBelow(n, dist, eps, minPts, after, cc', i + 1)
  {
    var next := i + 1;
    forall c | 0 <= c <= cc'
      ensures CoreBefore(n, dist, eps, minPts, after, c, next)
    {
      if c <= cc {
        assert CoreBefore(n, dist, eps, minPts, before, c, i);
        var q :| 0 <= q < i && q < |before| && before[q] == c && IsCore(n, dist, eps, minPts, q);
        assert after[q] == c;
      } else {
        assert after[i] == c;
      }
    }
    forall p, c | 0 <= p < |after| && IsCore(n, dist, eps, minPts, p) && 0 <= c < after[p]
      ensures CoreBefore(n, dist, eps, minPts, after, c, p)
    {
      if before[p] >= 0 {
        assert CoreBefore(n, dist, eps, minPts, before, c, p);
        var q :| 0 <= q < p && q < |before| && before[q] == c && IsCore(n, dist, eps, minPts, q);
        assert after[q] == c;
      } else {
        assert before[p] == UNVISITED;
        assert CoreBefore(n, dist, eps, minPts, before, c, i);
        var q :| 0 <= q < i && q < |before| && before[q] == c && IsCore(n, dist, eps, minPts, q);
        assert after[q] == c;
      }
    }
  }

  /** The cluster opened at i and then expanded moves only points below 0 into cc + 1. */
  lemma OpenedInOrder(n: nat, dist: (nat, nat) -> real, eps: real, minPts: int,
                      before: seq<int>, after: seq<int>, i: nat, cc: int)
    requires |before| == n && i < n && before[i] == UNVISITED && IsCore(n, dist, eps, minPts, i)
    requires forall p :: 0 <= p < i ==> before[p] != UNVISITED
    requires cc >= -1 && WellLabelled(before, cc) && NoiseNotCore(n, dist, eps, minPts, before)
    requires LabelsOrdered(n, dist, eps, minPts, before)
    requires OpenedBelow(n, dist, eps, minPts, before, cc, i)
    requires Advances(before[i := cc + 1], after, cc + 1)
    ensures LabelsOrdered(n, dist, eps, minPts, after)
    ensures OpenedBelow(n, dist, eps, minPts, after, cc + 1, i + 1)
  {
    var seeded := before[i := cc + 1];
    assert seeded[i] == cc + 1;
    forall p | 0 <= p < n && before[p] < 0 && after[p] >= 0
      ensures after[p] == cc + 1
    {
      if p != i {
        assert seeded[p] == before[p];
      }
    }
    forall p | 0 <= p < n && before[p] >= 0
      ensures after[p] == before[p]
    {
      assert seeded[p] == before[p];
    }
    OrderAfterVisit(n, dist, eps, minPts, before, after, i, cc, cc + 1);
  }

  /** An unvisited point that is not a core point is marked as noise. */
  lemma MarkNoise(n: nat, dist: (nat, nat) -> real, eps: real, minPts: int,
                  labels: seq<int>, i: nat, cc: int)
    requires LabelInv(n, dist, eps, minPts, labels, cc)
    requires i < n && labels[i] == UNVISITED && !IsCore(n, dist, eps, minPts, i)
    ensures LabelInv(n, dist, eps, minPts, labels[i := NOISE], cc)
  {
    KeepCores(n, dist, eps, minPts, labels, i, NOISE, cc);
    KeepMembersReached(n, dist, eps, minPts, labels, i, NOISE);
    var after := labels[i := NOISE];
    forall c | 0 <= c <= cc
      ensures LabelConnected(n, dist, eps, minPts, after, c)
    {
      KeepConnected(n, dist, eps, minPts, labels, i, NOISE, c);
    }
  }

  /** An unvisited core point opens the cluster cc + 1; its neighbours are the first seeds. */
  lemma StartCluster(n: nat, dist: (nat, nat) -> real, eps: real, minPts: int,
                     labels: seq<int>, i: nat, cc: int)
    requires LabelInv(n, dist, eps, minPts, labels, cc)
    requires i < n && labels[i] == UNVISITED && IsCore(n, dist, eps, minPts, i)
    ensures ExpandInv(n, dist, eps, minPts, labels[i := cc + 1], labels[i := cc + 1],
                      Neighbors(n, dist, i, eps), [], cc + 1)
  {
    var after := labels[i := cc + 1];
    KeepCores(n, dist, eps, minPts, labels, i, cc + 1, cc);
    assert HasCore(n, dist, eps, minPts, after, cc + 1) by {
      assert after[i] == cc + 1;
    }
    assert EveryClusterHasCore(n, dist, eps, minPts, after, cc + 1);
    KeepMembersReached(n, dist, eps, minPts, labels, i, cc + 1);
    forall c | 0 <= c <= cc
      ensures LabelConnected(n, dist, eps, minPts, after, c)
    {
      KeepConnected(n, dist, eps, minPts, labels, i, cc + 1, c);
    }
    OpenConnected(n, dist, eps, minPts, labels, i, cc);
    forall s | s in Neighbors(n, dist, i, eps)
      ensures s < n && ReachedFrom(n, dist, eps, minPts, after, cc + 1, s)
    {
      assert after[i] == cc + 1;
    }
  }

  /** A cluster freshly opened at a core point is density-connected from it. */
  lemma OpenConnected(n: nat, dist: (nat, nat) -> real, eps: real, minPts: int,
                      labels: seq<int>, i: nat, cc: int)
    requires i < |labels| && cc >= -1 && WellLabelled(labels, cc) && IsCore(n, dist, eps, minPts, i)
    ensures LabelConnected(n, dist, eps, minPts, labels[i := cc + 1], cc + 1)
  {
    var after := labels[i := cc + 1];
    var path := [i];
    assert Chain(n, dist, eps, minPts, path);
    assert path[0] == i && path[|path| - 1] == i;
    assert forall k :: 0 <= k < |path| ==> path[k] < |after| && after[path[k]] == cc + 1;
    assert LabelChain(n, dist, eps, minPts, after, cc + 1, i, i);
    forall p | 0 <= p < |after| && after[p] == cc + 1
      ensures LabelChain(n, dist, eps, minPts, after, cc + 1, i, p)
    {
      assert p == i;
    }
    assert LabelRoot(n, dist, eps, minPts, after, cc + 1, i);
  }

  /** Once the seeds are exhausted the cluster is complete. */
  lemma FinishCluster(n: nat, dist: (nat, nat) -> real, eps: real, minPts: int,
                      start: seq<int>, labels: seq<int>, expanded: seq<nat>, cc: int)
    requires ExpandInv(n, dist, eps, minPts, start, labels, [], expanded, cc)
    ensures LabelInv(n, dist, eps, minPts, labels, cc)
  {
  }

  /** The final loop of `clustering`: one list per cluster id, each in input order. */
  method GroupByLabel(labels: seq<int>, cc: int) returns (clusters: seq<seq<nat>>)
    requires cc >= -1
    requires forall p :: 0 <= p < |labels| ==> labels[p] <= cc
    ensures GroupedBy(labels, cc, clusters)
  {
    clusters := seq(cc + 1, _ => []);
    var j := 0;
    while j < |labels|
      invariant 0 <= j <= |labels|
      invariant |clusters| == cc + 1
      invariant forall c :: 0 <= c <= cc ==> clusters[c] == LabelMembers(labels, c, j)
    {
      if labels[j] >= 0 {
        clusters := clusters[labels[j] := clusters[labels[j]] + [j]];
      }
      j := j + 1;
    }
  }

  /**
   * One step of the outer loop of `clustering`: an unvisited point i becomes
   * noise, or opens the cluster cc + 1 that is then expanded.
   */
  method VisitPoint(n: nat, dist: (nat, nat) -> real, eps: real, minPts: int,
                    mapping: array<int>, i: nat, cc: int) returns (cc': int)
    requires i < n && mapping.Length == n
    requires LabelInv(n, dist, eps, minPts, mapping[..], cc)
    requires forall p :: 0 <= p < i ==> mapping[p] != UNVISITED
    requires LabelsOrdered(n, dist, eps, minPts, mapping[..])
    requires OpenedBelow(n, dist, eps, minPts, mapping[..], cc, i)
    modifies mapping
    ensures LabelInv(n, dist, eps, minPts, mapping[..], cc')
    ensures LabelsOrdered(n, dist, eps, minPts, mapping[..])
    ensures OpenedBelow(n, dist, eps, minPts, mapping[..], cc', i + 1)
    ensures mapping[i] != UNVISITED
    ensures old(mapping[i]) != UNVISITED ==> cc' == cc && mapping[..] == old(mapping[..])
    ensures old(mapping[i]) == UNVISITED ==> mapping[i] == NOISE || mapping[i] == cc'
    ensures cc' == cc || (old(mapping[i]) == UNVISITED && cc' == cc + 1 && mapping[i] == cc')
    ensures cc' == cc ==> forall p :: 0 <= p < n && p != i ==> mapping[p] == old(mapping[p])
    ensures forall p :: 0 <= p < n && old(mapping[p]) >= 0 ==> mapping[p] == old(mapping[p])
    ensures forall p :: 0 <= p < n && old(mapping[p]) == NOISE ==> mapping[p] == NOISE || mapping[p] == cc'
    ensures forall p :: 0 <= p < n && p != i && old(mapping[p]) == UNVISITED ==>
              mapping[p] == UNVISITED || mapping[p] == cc'
  {
    cc' := cc;
    if mapping[i] == UNVISITED {
      var neighbors := RangeQuery(n, dist, i, eps);
      ghost var before := mapping[..];
      if |neighbors| < minPts {
        MarkNoise(n, dist, eps, minPts, before, i, cc);
        mapping[i] := NOISE;
        assert mapping[..] == before[i := NOISE];
        OrderAfterVisit(n, dist, eps, minPts, before, mapping[..], i, cc, cc);
      } else {
        OpenCluster(n, dist, eps, minPts, mapping, i, cc, neighbors);
        cc' := cc + 1;
      }
    } else {
      OrderAfterVisit(n, dist, eps, minPts, mapping[..], mapping[..], i, cc, cc);
    }
  }

  /**
   * The core-point branch of the outer loop: the unvisited core point i opens
   * the cluster cc + 1, whose seeds are then expanded.
   */
  method OpenCluster(n: nat, dist: (nat, nat) -> real, eps: real, minPts: int,
                     mapping: array<int>, i: nat, cc: int, neighbors: seq<nat>)
    requires i < n && mapping.Length == n
    requires LabelInv(n, dist, eps, minPts, mapping[..], cc)
    requires mapping[i] == UNVISITED && IsCore(n, dist, eps, minPts, i)
    requires neighbors == Neighbors(n, dist, i, eps)
    requires forall p :: 0 <= p < i ==> mapping[p] != UNVISITED
    requires LabelsOrdered(n, dist, eps, minPts, mapping[..])
    requires OpenedBelow(n, dist, eps, minPts, mapping[..], cc, i)
    modifies mapping
    ensures LabelInv(n, dist, eps, minPts, mapping[..], cc + 1)
    ensures LabelsOrdered(n, dist, eps, minPts, mapping[..])
    ensures OpenedBelow(n, dist, eps, minPts, mapping[..], cc + 1, i + 1)
    ensures mapping[i] == cc + 1
    ensures Advances(old(mapping[..]), mapping[..], cc + 1)
  {
    ghost var before := mapping[..];
    StartCluster(n, dist, eps, minPts, before, i, cc);
    mapping[i] := cc + 1;
    assert mapping[..] == before[i := cc + 1];
    ghost var seeded := mapping[..];
    var expanded := ExpandCluster(n, dist, eps, minPts, mapping, neighbors, cc + 1);
    FinishCluster(n, dist, eps, minPts, seeded, mapping[..], expanded, cc + 1);
    assert Advances(seeded, mapping[..], cc + 1);
    OpenedInOrder(n, dist, eps, minPts, before, mapping[..], i, cc);
    forall p | 0 <= p < n
      ensures && (before[p] >= 0 ==> mapping[p] == before[p])
              && (before[p] == NOISE ==> mapping[p] == NOISE || mapping[p] == cc + 1)
              && (before[p] == UNVISITED ==> mapping[p] == UNVISITED || mapping[p] == cc + 1)
    {
      if p != i {
        assert seeded[p] == before[p];
      }
    }
  }

  /**
   * DBSCAN with an explicit radius: labels points in input order, starting a
   * new cluster at each unvisited core point, then groups the points by label.
   */
  method Clustering(n: nat, dist: (nat, nat) -> real, eps: real, minPts: int)
    returns (clusters: seq<seq<nat>>)
    ensures IsDbscanPartition(n, dist, eps, minPts, clusters)
    ensures n == 0 ==> clusters == []
  {
    var clusterCount := -1;
    var mapping := new int[n](_ => UNVISITED);

    var i := 0;
    while i < n
      invariant 0 <= i <= n && mapping.Length == n
      invariant forall p :: 0 <= p < i ==> mapping[p] != UNVISITED
      invariant clusterCount < i
      invariant LabelInv(n, dist, eps, minPts, mapping[..], clusterCount)
      invariant LabelsOrdered(n, dist, eps, minPts, mapping[..])
      invariant OpenedBelow(n, dist, eps, minPts, mapping[..], clusterCount, i)
    {
      clusterCount := VisitPoint(n, dist, eps, minPts, mapping, i, clusterCount);
      i := i + 1;
    }

    clusters := GroupByLabel(mapping[..], clusterCount);
    PartitionFromLabels(n, dist, eps, minPts, mapping[..], clusterCount, clusters);
  }

  // ---------------------------------------------------------------------------
  // clustering(dps, minPts, curvature): choosing eps from the k-distance curve
  // ---------------------------------------------------------------------------

  /** Why no radius could be chosen. */
  datatype EpsError =
    | InvalidMinPts    // kCloserPoints needs 1 <= minPts <= n - 1
    | ElbowOutOfRange  // the curvature detector returned an index past the curve
    | EmptyCurve       // no points: there is no median to fall back on

  /** The x coordinates of the k-distance curve: x[i] = i. */
  function Ranks(n: nat): (r: seq<real>)
    ensures |r| == n && forall i :: 0 <= i < n ==> r[i] == i as real
  {
    seq(n, i => i as real)
  }

  /**
   * eps read off the sorted k-distance curve: the value at the elbow when the
   * detector found one (an index > -1), otherwise the median of the curve.
   */
  function ChooseEps(curve: seq<real>, elbow: int): (r: Result<real, EpsError>)
    ensures r.Failure? ==> r.error == if elbow > -1 then ElbowOutOfRange else EmptyCurve
    ensures r.Success? ==> exists j, k :: 0 <= j < |curve| && 0 <= k < |curve| && curve[j] <= r.value <= curve[k]
  {
    MedianBetween(curve);
    if elbow > -1 then
      if elbow < |curve| then Success(curve[elbow]) else Failure(ElbowOutOfRange)
    else if |curve| == 0 then Failure(EmptyCurve)
    else Success(Median(curve))
  }

  /** v is the mean distance from point i to its k closest other points. */
  ghost predicate ProfileEntry(n: nat, dist: (nat, nat) -> real, k: int, i: nat, v: real)
  {
    exists rv, src :: |rv| == k && IsKClosest(n, dist, i, |rv|, rv, src) && |rv| > 0 && v == Mean(rv)
  }

  /** profile[i] is the mean k-distance of point i, for every point. */
  ghost predicate IsKDistanceProfile(n: nat, dist: (nat, nat) -> real, k: int, profile: seq<real>)
  {
    |profile| == n && forall i :: 0 <= i < n ==> ProfileEntry(n, dist, k, i, profile[i])
  }

  /** minPts is out of the range kCloserPoints can serve while there are points to serve. */
  predicate BadMinPts(n: nat, minPts: int)
  {
    n > 0 && !(1 <= minPts < n)
  }

  /**
   * What the automatic radius selection yields: an error for a bad minPts,
   * otherwise ChooseEps on the sorted mean k-distance profile at the index the
   * curvature detector `elbow` picks from the curve (Ranks(n), sorted profile).
   */
  ghost predicate AutoEps(n: nat, dist: (nat, nat) -> real, minPts: int,
                          elbow: (seq<real>, seq<real>) -> int, e: Result<real, EpsError>)
  {
    if BadMinPts(n, minPts) then e == Failure(InvalidMinPts)
    else exists profile :: IsKDistanceProfile(n, dist, minPts, profile)
                           && e == ChooseEps(SortAscending(profile),
                                             elbow(Ranks(n), SortAscending(profile)))
  }

  /** The first half of the automatic clustering: the radius. */
  method SelectEps(n: nat, dist: (nat, nat) -> real, minPts: int, elbow: (seq<real>, seq<real>) -> int)
    returns (e: Result<real, EpsError>)
    ensures AutoEps(n, dist, minPts, elbow, e)
  {
    if BadMinPts(n, minPts) {
      return Failure(InvalidMinPts);
    }
    var d := new real[n];
    var x := new real[n];
    for i := 0 to n
      invariant forall j :: 0 <= j < i ==> ProfileEntry(n, dist, minPts, j, d[j]) && x[j] == j as real
    {
      var kc := KCloserPoints(n, dist, i, minPts);
      d[i] := Mean(kc);
      x[i] := i as real;
    }
    var sorted := SortAscending(d[..]);
    assert x[..] == Ranks(n);
    var el := elbow(x[..], sorted);
    e := ChooseEps(sorted, el);
    assert IsKDistanceProfile(n, dist, minPts, d[..]);
  }

  /**
   * DBSCAN with a radius chosen from the data: eps from SelectEps, then the
   * explicit-radius clustering.
   */
  method AutoClustering(n: nat, dist: (nat, nat) -> real, minPts: int,
                        elbow: (seq<real>, seq<real>) -> int)
    returns (r: Result<seq<seq<nat>>, EpsError>)
    ensures r.Failure? ==> AutoEps(n, dist, minPts, elbow, Failure(r.error))
    ensures r.Success? ==> exists eps :: AutoEps(n, dist, minPts, elbow, Success(eps))
                                         && IsDbscanPartition(n, dist, eps, minPts, r.value)
  {
    var e := SelectEps(n, dist, minPts, elbow);
    if e.Failure? {
      return Failure(e.error);
    }
    var clusters := Clustering(n, dist, e.value, minPts);
    return Success(clusters);
  }

  /** Without an elbow the radius is the median of the curve. */
  lemma ChooseEpsFallback(curve: seq<real>, elbow: int)
    requires elbow <= -1 && |curve| > 0
    ensures ChooseEps(curve, elbow) == Success(Median(curve))
  {
  }

  /** ChooseEps fails exactly when the elbow is past the curve or there is nothing to take a median of. */
  lemma ChooseEpsFails(curve: seq<real>, elbow: int)
    ensures ChooseEps(curve, elbow).Failure? <==> elbow >= |curve| || (elbow <= -1 && |curve| == 0)
  {
  }

  /** On a sorted curve the chosen radius lies between the smallest and the largest k-distance. */
  lemma ChooseEpsWithinCurve(curve: seq<real>, elbow: int)
    requires Sorted(curve) && ChooseEps(curve, elbow).Success?
    ensures curve[0] <= ChooseEps(curve, elbow).value <= curve[|curve| - 1]
  {
    if elbow <= -1 {
      MedianWithinRange(curve);
    }
  }

  /** A profile entry lies within the range of the distances from its point to the others. */
  lemma ProfileEntryBounds(n: nat, dist: (nat, nat) -> real, k: int, i: nat, v: real, lo: real, hi: real)
    requires ProfileEntry(n, dist, k, i, v)
    requires forall j :: 0 <= j < n && j != i ==> lo <= dist(i, j) <= hi
    ensures lo <= v <= hi
  {
    var rv, src :| |rv| == k && IsKClosest(n, dist, i, |rv|, rv, src) && |rv| > 0 && v == Mean(rv);
    MeanBounds(rv, lo, hi);
  }
}
