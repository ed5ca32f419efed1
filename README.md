# A verified model of the ATNoG machine-learning core

This project models, in Dafny, five parts of the ATNoG MachineLearning Java
library, and proves properties of each.

- **Density clustering (DBSCAN).** `rangeQuery`, `kCloserPoints` and
  `clustering`, with `eps` given or chosen from the k-distance curve
  (`dbscan.dfy`, module `Dbscan`).
  - Points are the indices `0 .. n-1` of the input list.
  - `dist(i, j)` stands for `dps.get(i).distanceTo(dps.get(j))`.
  - The labelling keeps the source's `int` array: `-1` is unvisited, `-2` is noise, `>= 0` is a cluster id.
  - `Clustering` ends in a partition with the DBSCAN properties:
    - each cluster holds a core point;
    - every core point and every neighbour of a core point is clustered;
    - every member is a core point or is density-reached from its cluster's core;
    - every cluster is density-connected: a chain of core points, each a neighbour of the one before, runs inside the cluster from one of its core points to each member;
    - noise is never a core point;
    - clusters are disjoint;
    - clusters are numbered in the order of their lowest core points, the order in which the outer loop opens them, so every core point of a later cluster lies above some core point of each earlier one.
  - For a symmetric distance these properties fix the partition completely (`PartitionUnique`). That includes the cluster order and which earlier cluster keeps a border point shared by two clusters.
  - The automatic radius comes from the sorted mean k-distance profile, either at the elbow or at its median.
- **The A-method curvature detector.** `aMethod`, `itRefinement`, `find_knee` and `find_elbow` (`amethod.dfy`, module `Amethod`).
  - The angle metric of the two regressions is a parameter.
  - `aMethod` is proved to return the first minimiser of the metric over the candidate split points.
  - The iterative refinement is proved equal to a recursive reference. Its trace of `(cutoff, point)` steps is characterised, and its result is bounded.
- **The plain-text tokenizer.** `findNext`, the string and n-gram iterators, and both `tokenize` methods (`tokenizer.dfy`, module `Tokenizer`).
  - The objects the source mutates are classes with those fields.
  - The word boundaries of the `BreakIterator` are a sequence fixed up front.
  - Lower-casing with accent stripping, and the regular expression that strips non-letters, are functions.
  - Whole-string tokenisation yields the stripped, non-empty segments.
  - n-gram tokenisation, when there are at least n tokens, yields every prefix of every sliding window, followed by a final `null`. With fewer than n tokens it yields nothing. Otherwise it gives the exception the Java code raises.
- **`SyntacticPattern.extract`** (`syntactic_pattern.dfy`, module `SyntacticPatterns`).
  - It finds the first stem match and filters the matched words by the blacklist.
  - It returns every n-gram of length `1 .. n`, shortest first and by start position.
  - With no match it raises a `NullPointerException`, modelled as an error.
- **The genetic `Chromosome`** (`chromosome.dfy`, module `Genetic`).
  - Its fitness is cached and invalidated by mutation.
  - Its `compareTo` puts first the chromosome with the larger stored `fitness` field. That field is 0.0 before the first `fitness()` call and stale after `mutation()`.

Shared pieces: `Option`/`Result` (`wrappers.dfy`) stand for `null` and exceptions. Sums, means, sorting and medians of reals are in `real_seq.dfy`, module `RealSeq`.

In `SyntacticPattern.extract` (SyntacticPattern.java:31) the scan bound `tokens.size() - term.size()` is exclusive, so the last position where the term could fit is never tried. The model keeps that bound, and `FirstStemFrom` states it. The code that compares stems (`NGram.equals`) is not part of this model, so whether the bound is intended cannot be decided here.

## Model

| member | source | states |
|---|---|---|
| Dbscan.NeighborsBelow | src/main/java/pt/it/av/tnav/ml/clustering/density/DBSCAN.java:151-155 | the points scanned so far that are within eps of idx, idx excluded, in increasing index order, and both directions of membership |
| Dbscan.RangeQuery | src/main/java/pt/it/av/tnav/ml/clustering/density/DBSCAN.java:146-158 | the result holds exactly the other points within eps of idx (an iff), strictly increasing, equal to the reference neighbourhood |
| Dbscan.ArgMax | src/main/java/pt/it/av/tnav/ml/clustering/density/DBSCAN.java:66 | returns an index of a largest element of the buffer |
| Dbscan.FillBuffer | src/main/java/pt/it/av/tnav/ml/clustering/density/DBSCAN.java:56-63 | fills the k-slot buffer with the distances to the first k points other than idx, each slot the distance to a distinct point other than idx, stopping with the scan position within the list |
| Dbscan.FillStep | src/main/java/pt/it/av/tnav/ml/clustering/density/DBSCAN.java:58-61 | taking one more point other than idx keeps the fill invariant |
| Dbscan.FillDone | src/main/java/pt/it/av/tnav/ml/clustering/density/DBSCAN.java:57-63 | a full buffer establishes the scan invariant: the buffer holds k distinct other points and every skipped point is accounted for |
| Dbscan.ScanKeep | src/main/java/pt/it/av/tnav/ml/clustering/density/DBSCAN.java:69-71 | skipping idx, or a point no closer than the current maximum, keeps the buffer the k closest of the points seen |
| Dbscan.ScanReplace | src/main/java/pt/it/av/tnav/ml/clustering/density/DBSCAN.java:71-73 | replacing the maximum by a closer point keeps the buffer the k closest of the points seen |
| Dbscan.ScanPoint | src/main/java/pt/it/av/tnav/ml/clustering/density/DBSCAN.java:69-75 | one scan step keeps the buffer maximum index correct and the k-closest invariant one point further |
| Dbscan.ScanDone | src/main/java/pt/it/av/tnav/ml/clustering/density/DBSCAN.java:68-78 | once all points are scanned the buffer is exactly k distances to distinct other points, none farther than any point left out |
| Dbscan.KCloserPoints | src/main/java/pt/it/av/tnav/ml/clustering/density/DBSCAN.java:50-79 | returns k values that are the distances from idx to k distinct other points, and no point left out is closer than any returned one |
| Dbscan.CountUnvisitedUpdate | src/main/java/pt/it/av/tnav/ml/clustering/density/DBSCAN.java:107-109 | how relabelling one point changes the number of unvisited points, the termination measure of seed expansion |
| Dbscan.KeepReached | src/main/java/pt/it/av/tnav/ml/clustering/density/DBSCAN.java:106-109 | labelling a noise or unvisited point keeps every density-reachability witness of a cluster |
| Dbscan.KeepCores | src/main/java/pt/it/av/tnav/ml/clustering/density/DBSCAN.java:106-109 | labelling a noise or unvisited point keeps every cluster's core point |
| Dbscan.KeepMembersReached | src/main/java/pt/it/av/tnav/ml/clustering/density/DBSCAN.java:106-109 | a point given cluster c that is a core point or reached from c keeps every member reached |
| Dbscan.SeedRelabel | src/main/java/pt/it/av/tnav/ml/clustering/density/DBSCAN.java:105-109 | giving a polled seed the current cluster id keeps labels well formed, clusters cored and members reached, and only relabels non-members |
| Dbscan.SeedSkip | src/main/java/pt/it/av/tnav/ml/clustering/density/DBSCAN.java:105-116 | a polled seed that already has a cluster is dropped and the expansion invariant still holds |
| Dbscan.SeedNoise | src/main/java/pt/it/av/tnav/ml/clustering/density/DBSCAN.java:106-107 | a noise seed joins the cluster as a border point and the expansion invariant still holds |
| Dbscan.SeedUnvisited | src/main/java/pt/it/av/tnav/ml/clustering/density/DBSCAN.java:108-115 | an unvisited seed joins the cluster and, when it is a core point, queues its neighbourhood; the expansion invariant still holds |
| Dbscan.AddAllLast | src/main/java/pt/it/av/tnav/ml/clustering/density/DBSCAN.java:112-114 | the seed queue gets the items appended at its end, in order |
| Dbscan.PollSeed | src/main/java/pt/it/av/tnav/ml/clustering/density/DBSCAN.java:104-116 | polling one seed keeps the expansion invariant and lowers the number of unvisited points, or keeps it and shortens the queue |
| Dbscan.ExpandCluster | src/main/java/pt/it/av/tnav/ml/clustering/density/DBSCAN.java:103-117 | draining the seed queue leaves every core neighbour of the cluster in it, changes only non-member labels, and keeps every cluster cored and every member reached |
| Dbscan.MarkNoise | src/main/java/pt/it/av/tnav/ml/clustering/density/DBSCAN.java:98-99 | marking an unvisited non-core point as noise keeps the labelling invariant |
| Dbscan.StartCluster | src/main/java/pt/it/av/tnav/ml/clustering/density/DBSCAN.java:101-103 | opening a new cluster at an unvisited core point establishes the expansion invariant with its neighbourhood as seeds |
| Dbscan.FinishCluster | src/main/java/pt/it/av/tnav/ml/clustering/density/DBSCAN.java:104-117 | an emptied seed queue re-establishes the labelling invariant |
| Dbscan.VisitPoint | src/main/java/pt/it/av/tnav/ml/clustering/density/DBSCAN.java:96-119 | one outer iteration keeps the labelling invariant and visits point i; an already visited i changes nothing; labels only move forward (a cluster id is never changed, noise can only become the current cluster, another unvisited point can only join it); at most one cluster is opened, and only at i |
| Dbscan.KeepChain | src/main/java/pt/it/av/tnav/ml/clustering/density/DBSCAN.java:106-109 | labelling an unvisited or noise point keeps every chain of core points inside a cluster |
| Dbscan.KeepRoot | src/main/java/pt/it/av/tnav/ml/clustering/density/DBSCAN.java:106-109 | relabelling an unclustered point keeps a root core point of cluster c chained to every member of c, provided a point that joins c is itself chained to the root |
| Dbscan.KeepConnected | src/main/java/pt/it/av/tnav/ml/clustering/density/DBSCAN.java:106-109 | labelling a point with another cluster's id, or as noise, keeps a cluster density-connected |
| Dbscan.ChainSnoc | src/main/java/pt/it/av/tnav/ml/clustering/density/DBSCAN.java:106-114 | a chain of core points extends by a neighbour of its last point |
| Dbscan.JoinChain | src/main/java/pt/it/av/tnav/ml/clustering/density/DBSCAN.java:106-114 | a neighbour of a chained core point of cluster c is chained to c's root once it gets c |
| Dbscan.ExtendConnected | src/main/java/pt/it/av/tnav/ml/clustering/density/DBSCAN.java:106-114 | a seed reached from the current cluster keeps that cluster density-connected when it joins it |
| Dbscan.OpenConnected | src/main/java/pt/it/av/tnav/ml/clustering/density/DBSCAN.java:101-103 | giving a core point the next cluster id, which no point had, makes that cluster density-connected |
| Dbscan.GroupedRoot | src/main/java/pt/it/av/tnav/ml/clustering/density/DBSCAN.java:122-131 | the root of a label class chains to every member of the grouped cluster within that cluster |
| Dbscan.GroupedConnected | src/main/java/pt/it/av/tnav/ml/clustering/density/DBSCAN.java:122-131 | grouping by label turns density-connected label classes into density-connected clusters |
| Dbscan.ChainKeepsSide | src/main/java/pt/it/av/tnav/ml/clustering/density/DBSCAN.java:89-134 | a chain of core points never crosses a gap wider than eps between two sides |
| Dbscan.ClusterOnOneSide | src/main/java/pt/it/av/tnav/ml/clustering/density/DBSCAN.java:89-134 | in a DBSCAN partition every cluster lies on one side of a gap wider than eps |
| Dbscan.TwoGroupsStaySplit | src/main/java/pt/it/av/tnav/ml/clustering/density/DBSCAN.java:89-134 | the concrete instance of ClusterOnOneSide for the `TwoGroups` distance (distance 0 within {0,1} and within {2,3}, 10 across) and eps 1.0: for any minPts, no cluster holds both 0 and 2 |
| Dbscan.LabelMembers | src/main/java/pt/it/av/tnav/ml/clustering/density/DBSCAN.java:127-131 | the points labelled c among the first m, exactly (an iff), in increasing order |
| Dbscan.GroupByLabel | src/main/java/pt/it/av/tnav/ml/clustering/density/DBSCAN.java:122-131 | clusterCount + 1 clusters, cluster c holding exactly the points labelled c in index order |
| Dbscan.GroupedHaveCore | src/main/java/pt/it/av/tnav/ml/clustering/density/DBSCAN.java:122-131 | grouping by label gives well-formed clusters, each containing a core point |
| Dbscan.GroupedCoresClustered | src/main/java/pt/it/av/tnav/ml/clustering/density/DBSCAN.java:122-131 | grouping by label gives disjoint clusters and puts every core point in one |
| Dbscan.GroupedNeighborsClustered | src/main/java/pt/it/av/tnav/ml/clustering/density/DBSCAN.java:122-131 | every neighbour of a clustered core point is in a cluster, the same one or an earlier one |
| Dbscan.GroupedMembersReached | src/main/java/pt/it/av/tnav/ml/clustering/density/DBSCAN.java:122-131 | every cluster member is a core point or density-reached from a core point of its cluster |
| Dbscan.PartitionFromLabels | src/main/java/pt/it/av/tnav/ml/clustering/density/DBSCAN.java:122-133 | the final labelling, grouped by label, is a DBSCAN partition |
| Dbscan.OrderAfterVisit | src/main/java/pt/it/av/tnav/ml/clustering/density/DBSCAN.java:95-119 | visiting point i, which at most opens cluster cc + 1 at i itself, keeps every core point labelled above some core point of each lower cluster, and keeps every cluster up to the current id opened below i + 1 |
| Dbscan.OpenedInOrder | src/main/java/pt/it/av/tnav/ml/clustering/density/DBSCAN.java:101-117 | opening cluster cc + 1 at the unvisited core point i, with every point below i already visited, keeps the cluster order |
| Dbscan.OpenCluster | src/main/java/pt/it/av/tnav/ml/clustering/density/DBSCAN.java:101-117 | the cluster branch of an outer iteration gives i the next cluster id, keeps the labelling invariant and the cluster order, and only moves labels forward |
| Dbscan.GroupedOrdered | src/main/java/pt/it/av/tnav/ml/clustering/density/DBSCAN.java:122-131 | grouping an ordered labelling by label gives clusters in which every core point of a later cluster lies above a core point of each earlier one |
| Dbscan.Clustering | src/main/java/pt/it/av/tnav/ml/clustering/density/DBSCAN.java:89-134 | the result is a DBSCAN partition of the points for eps and minPts (the list of properties above, density-connectivity of each cluster and the cluster order included); no points give no clusters |
| Dbscan.NeighborMutual | src/main/java/pt/it/av/tnav/ml/clustering/density/DBSCAN.java:146-158 | for a symmetric distance, q is a neighbour of p exactly when p is a neighbour of q |
| Dbscan.CoreNeighborsShare | src/main/java/pt/it/av/tnav/ml/clustering/density/DBSCAN.java:106-114 | two core points that are neighbours are in the same cluster |
| Dbscan.ChainStaysIn | src/main/java/pt/it/av/tnav/ml/clustering/density/DBSCAN.java:106-114 | a chain of core points that starts in a cluster stays in that cluster |
| Dbscan.RootReaches | src/main/java/pt/it/av/tnav/ml/clustering/density/DBSCAN.java:89-134 | a core point chained from a cluster's root lies in whichever cluster of another partition holds that root |
| Dbscan.CoresStayTogether | src/main/java/pt/it/av/tnav/ml/clustering/density/DBSCAN.java:89-134 | two core points that share a cluster of one DBSCAN partition share a cluster of any other |
| Dbscan.AllCoresTogether | src/main/java/pt/it/av/tnav/ml/clustering/density/DBSCAN.java:89-134 | every pair of core points together in one partition is together in another |
| Dbscan.LeastCoreExists | src/main/java/pt/it/av/tnav/ml/clustering/density/DBSCAN.java:95-103 | a cluster holding a core point has a least core point |
| Dbscan.LeastCoreMatches | src/main/java/pt/it/av/tnav/ml/clustering/density/DBSCAN.java:95-103 | when two ordered partitions agree on the cores of every cluster below c, the least core of cluster c of one is in cluster c of the other |
| Dbscan.CoresFollow | src/main/java/pt/it/av/tnav/ml/clustering/density/DBSCAN.java:106-114 | once one core of a cluster is in the matching cluster of the other partition, all its cores are |
| Dbscan.CoresMatchAt | src/main/java/pt/it/av/tnav/ml/clustering/density/DBSCAN.java:95-117 | cluster c of two ordered partitions holds the same core points once the lower clusters do |
| Dbscan.CoresMatchBelow | src/main/java/pt/it/av/tnav/ml/clustering/density/DBSCAN.java:95-117 | two ordered partitions agree on the core points of every cluster below k |
| Dbscan.NoExtraCluster | src/main/java/pt/it/av/tnav/ml/clustering/density/DBSCAN.java:95-103 | a partition with cored clusters has no more clusters than one that agrees with it on the cores of the clusters they share |
| Dbscan.CoresMatchAll | src/main/java/pt/it/av/tnav/ml/clustering/density/DBSCAN.java:95-117 | two DBSCAN partitions have as many clusters as each other, with the same core points in each |
| Dbscan.MemberMatches | src/main/java/pt/it/av/tnav/ml/clustering/density/DBSCAN.java:105-109 | a border point is in the same cluster in both partitions: the earliest cluster with a core neighbour keeps it |
| Dbscan.IncreasingUnique | src/main/java/pt/it/av/tnav/ml/clustering/density/DBSCAN.java:127-131 | two strictly increasing sequences with the same elements are equal |
| Dbscan.SameClusters | src/main/java/pt/it/av/tnav/ml/clustering/density/DBSCAN.java:122-131 | two partitions with the same cores in each cluster have the same clusters |
| Dbscan.PartitionUnique | src/main/java/pt/it/av/tnav/ml/clustering/density/DBSCAN.java:89-134 | for a symmetric distance, at most one list of clusters is a DBSCAN partition, so the result of clustering is fully determined |
| Dbscan.SelectEps | src/main/java/pt/it/av/tnav/ml/clustering/density/DBSCAN.java:31-44 | eps is read from the sorted mean k-distance profile at the detected elbow, or is the profile's median; the minPts and out-of-range errors are reported |
| Dbscan.AutoClustering | src/main/java/pt/it/av/tnav/ml/clustering/density/DBSCAN.java:28-48 | the result is the DBSCAN partition, clusters in order, for the automatically chosen eps, or the error that choosing it raised |
| Dbscan.ChooseEps | src/main/java/pt/it/av/tnav/ml/clustering/density/DBSCAN.java:44 | a failure is the out-of-range error when an elbow index was given and the empty-curve error when none was; a chosen radius lies between two values of the curve |
| RealSeq.MedianBetween | src/main/java/pt/it/av/tnav/ml/clustering/density/DBSCAN.java:44 | the median of a non-empty sequence, sorted or not, lies between two of its values |
| Dbscan.ChooseEpsFallback | src/main/java/pt/it/av/tnav/ml/clustering/density/DBSCAN.java:44 | without an elbow (index <= -1) the radius is the median of the curve |
| Dbscan.ChooseEpsFails | src/main/java/pt/it/av/tnav/ml/clustering/density/DBSCAN.java:44 | choosing the radius fails exactly when the elbow is past the curve or the curve is empty with no elbow |
| Dbscan.ChooseEpsWithinCurve | src/main/java/pt/it/av/tnav/ml/clustering/density/DBSCAN.java:40-44 | on the sorted curve the chosen radius lies between its smallest and largest value |
| Dbscan.ProfileEntryBounds | src/main/java/pt/it/av/tnav/ml/clustering/density/DBSCAN.java:36 | a mean k-distance lies within the range of the distances from its point to the others |
| RealSeq.SortAscending | src/main/java/pt/it/av/tnav/ml/clustering/density/DBSCAN.java:40 | the sorted curve is sorted, of the same length, and a permutation of the profile |
| RealSeq.Insert | src/main/java/pt/it/av/tnav/ml/clustering/density/DBSCAN.java:40 | inserting into a sorted sequence keeps it sorted and adds exactly that element to its multiset |
| RealSeq.MedianWithinRange | src/main/java/pt/it/av/tnav/ml/clustering/density/DBSCAN.java:44 | the median of a sorted non-empty curve lies between its ends |
| RealSeq.SumBounds | src/main/java/pt/it/av/tnav/ml/clustering/density/DBSCAN.java:36 | a sum of values within [lo, hi] lies within [len * lo, len * hi] |
| RealSeq.MeanBounds | src/main/java/pt/it/av/tnav/ml/clustering/density/DBSCAN.java:36 | a mean of values within [lo, hi] lies within [lo, hi] |
| Amethod.FirstMinBelow | src/main/java/pt/it/av/tnav/ml/clustering/curvature/Amethod.java:56-71 | the scan's result is a candidate split point below the bound |
| Amethod.FirstMinBelowIsFirstMinimizer | src/main/java/pt/it/av/tnav/ml/clustering/curvature/Amethod.java:61-71 | the recursive scan returns a candidate with the least metric among candidates below the bound, strictly less than that of every earlier candidate |
| Amethod.FirstMinIsFirstMinimizer | src/main/java/pt/it/av/tnav/ml/clustering/curvature/Amethod.java:55-74 | aMethod's reference returns the first minimiser of the metric over the split points 1 .. length-2 |
| Amethod.FirstMinimizerUnique | src/main/java/pt/it/av/tnav/ml/clustering/curvature/Amethod.java:67-70 | the first minimiser is unique, so the strict comparison decides the result |
| Amethod.FirstMinBounds | src/main/java/pt/it/av/tnav/ml/clustering/curvature/Amethod.java:56-73 | the split point lies in 1 .. length-2, and is 1 when length <= 3 |
| Amethod.AMethod | src/main/java/pt/it/av/tnav/ml/clustering/curvature/Amethod.java:55-74 | the loop returns the first minimiser of the metric, equal to the reference |
| Amethod.StepsFacts | src/main/java/pt/it/av/tnav/ml/clustering/curvature/Amethod.java:38-46 | each step's point is aMethod at its cutoff; each later cutoff is min(2 * previous point, len) and at least MINCUTOFF; points strictly decrease until the last, which is the result |
| Amethod.CutoffsNonIncreasing | src/main/java/pt/it/av/tnav/ml/clustering/curvature/Amethod.java:38-44 | starting from the full length, the cutoffs never exceed it and never increase |
| Amethod.RefineLoopBounds | src/main/java/pt/it/av/tnav/ml/clustering/curvature/Amethod.java:40-46 | the refined point lies in 1 .. len-2 (for len >= 3) |
| Amethod.RefinementBounds | src/main/java/pt/it/av/tnav/ml/clustering/curvature/Amethod.java:37-47 | itRefinement's result lies in 1 .. len-2 (for len >= 3) |
| Amethod.ItRefinement | src/main/java/pt/it/av/tnav/ml/clustering/curvature/Amethod.java:37-47 | the do-while loop returns the recursive refinement's result, at least 1 |
| Amethod.FindKnee | src/main/java/pt/it/av/tnav/ml/clustering/curvature/Amethod.java:22-24 | the knee is the iterative refinement's point |
| Amethod.FindElbow | src/main/java/pt/it/av/tnav/ml/clustering/curvature/Amethod.java:27-29 | the elbow is the iterative refinement's point |
| Tokenizer.Segments | src/main/java/pt/it/av/tnav/ml/tm/tokenizer/PlainTextTokenizer.java:182-192 | one segment per boundary pair still to visit |
| Tokenizer.Words | src/main/java/pt/it/av/tnav/ml/tm/tokenizer/PlainTextTokenizer.java:183-196 | the stripped, non-empty segments, never more than the segments |
| Tokenizer.WordsNonEmpty | src/main/java/pt/it/av/tnav/ml/tm/tokenizer/PlainTextTokenizer.java:193 | no token is empty |
| Tokenizer.WordsMembers | src/main/java/pt/it/av/tnav/ml/tm/tokenizer/PlainTextTokenizer.java:183-196 | a string is a token exactly when it is non-empty and the stripped form of some segment |
| Tokenizer.WordsAppend | src/main/java/pt/it/av/tnav/ml/tm/tokenizer/PlainTextTokenizer.java:182-197 | tokenising works segment by segment |
| Tokenizer.WordsCons | src/main/java/pt/it/av/tnav/ml/tm/tokenizer/PlainTextTokenizer.java:183-196 | the first segment contributes its stripped form when that is non-empty, and nothing otherwise |
| Tokenizer.IteratorParameters.constructor | src/main/java/pt/it/av/tnav/ml/tm/tokenizer/PlainTextTokenizer.java:208-213 | the cursor is on the first boundary pair and there is no token yet |
| Tokenizer.IteratorParameters.Advance | src/main/java/pt/it/av/tnav/ml/tm/tokenizer/PlainTextTokenizer.java:191-192 | moves past exactly one segment, the one between start and end |
| Tokenizer.FindNext | src/main/java/pt/it/av/tnav/ml/tm/tokenizer/PlainTextTokenizer.java:178-198 | the token found is the next word of the remaining text, or null exactly when the text is exhausted |
| Tokenizer.TextTokenizerIteratorString.constructor | src/main/java/pt/it/av/tnav/ml/tm/tokenizer/PlainTextTokenizer.java:101-107 | the pending tokens are all tokens of the input, and hasNext holds iff there is one |
| Tokenizer.TextTokenizerIteratorString.HasNextIffPending | src/main/java/pt/it/av/tnav/ml/tm/tokenizer/PlainTextTokenizer.java:110-112 | hasNext holds exactly when a token is pending |
| Tokenizer.TextTokenizerIteratorString.Next | src/main/java/pt/it/av/tnav/ml/tm/tokenizer/PlainTextTokenizer.java:115-121 | returns the first pending token and removes it, and hasNext follows what is left; once it returns null nothing is pending and hasNext is false, so every later call returns null again |
| Tokenizer.Tokenize | src/main/java/pt/it/av/tnav/ml/tm/tokenizer/PlainTextTokenizer.java:72-78 | returns all tokens of the normalised input, in order |
| Tokenizer.PrefixesFrom | src/main/java/pt/it/av/tnav/ml/tm/tokenizer/PlainTextTokenizer.java:156-158 | one prefix per remaining in-window index |
| Tokenizer.SlideNonEmpty | src/main/java/pt/it/av/tnav/ml/tm/tokenizer/PlainTextTokenizer.java:159-168 | sliding always emits at least the final null |
| Tokenizer.SlideIsWindows | src/main/java/pt/it/av/tnav/ml/tm/tokenizer/PlainTextTokenizer.java:154-171 | the iterator's output, from a full window, is every prefix of every window of the tokens, then null |
| Tokenizer.WindowsLength | src/main/java/pt/it/av/tnav/ml/tm/tokenizer/PlainTextTokenizer.java:154-171 | there are (tokens - n + 1) windows of n prefixes each |
| Tokenizer.WindowsAt | src/main/java/pt/it/av/tnav/ml/tm/tokenizer/PlainTextTokenizer.java:157 | output position w * n + j holds the j+1 words starting at word w |
| Tokenizer.PrefixesFromAt | src/main/java/pt/it/av/tnav/ml/tm/tokenizer/PlainTextTokenizer.java:157 | the in-window step at index j emits the first j+1 words of the window |
| Tokenizer.NGramOutputEnds | src/main/java/pt/it/av/tnav/ml/tm/tokenizer/PlainTextTokenizer.java:154-171 | with at least n tokens the output has (tokens - n + 1) * n n-grams, then exactly one null, at the end |
| Tokenizer.WindowsAllSome | src/main/java/pt/it/av/tnav/ml/tm/tokenizer/PlainTextTokenizer.java:157-165 | no window prefix is null |
| Tokenizer.PrefixesAllSome | src/main/java/pt/it/av/tnav/ml/tm/tokenizer/PlainTextTokenizer.java:157 | no in-window prefix is null |
| Tokenizer.ReadWindow | src/main/java/pt/it/av/tnav/ml/tm/tokenizer/PlainTextTokenizer.java:139-145 | the window is filled with the next n tokens exactly when that many remain |
| Tokenizer.StartIsOutput | src/main/java/pt/it/av/tnav/ml/tm/tokenizer/PlainTextTokenizer.java:134-146 | the state after the constructor will emit the reference n-gram output |
| Tokenizer.TextTokenizerIteratorNGram.constructor | src/main/java/pt/it/av/tnav/ml/tm/tokenizer/PlainTextTokenizer.java:134-146 | hasNext holds iff there are at least n tokens; the window is then the first n of them; the pending output is the reference n-gram output |
| Tokenizer.TextTokenizerIteratorNGram.HasNextIffPending | src/main/java/pt/it/av/tnav/ml/tm/tokenizer/PlainTextTokenizer.java:149-151 | hasNext holds exactly when an n-gram (or the final null) is pending |
| Tokenizer.TextTokenizerIteratorNGram.Next | src/main/java/pt/it/av/tnav/ml/tm/tokenizer/PlainTextTokenizer.java:154-171 | returns the first pending element and removes it, or fails with remove(0) on an empty window exactly when n = 0 and a token remains |
| Tokenizer.TextTokenizerIteratorNGram.NextInWindow | src/main/java/pt/it/av/tnav/ml/tm/tokenizer/PlainTextTokenizer.java:156-158 | the in-window branch returns the first pending element and removes it |
| Tokenizer.TextTokenizerIteratorNGram.SlideWindow | src/main/java/pt/it/av/tnav/ml/tm/tokenizer/PlainTextTokenizer.java:159-169 | the sliding branch returns the first pending element and removes it, or fails exactly when the window is empty and a token remains |
| Tokenizer.TextTokenizerIteratorNGram.Shift | src/main/java/pt/it/av/tnav/ml/tm/tokenizer/PlainTextTokenizer.java:162-168 | drops the window's first word and appends the new token, or emits null when there is none; fails on an empty window |
| Tokenizer.NextPrefix | src/main/java/pt/it/av/tnav/ml/tm/tokenizer/PlainTextTokenizer.java:156-158 | the pending output of an in-window state starts with the next longer prefix |
| Tokenizer.SlideOnce | src/main/java/pt/it/av/tnav/ml/tm/tokenizer/PlainTextTokenizer.java:162-166 | the pending output of a full window starts with the first word of the slid window |
| Tokenizer.Drain | src/main/java/pt/it/av/tnav/ml/tm/tokenizer/PlainTextTokenizer.java:88-89 | collecting until hasNext is false appends exactly the pending output |
| Tokenizer.TokenizeNGrams | src/main/java/pt/it/av/tnav/ml/tm/tokenizer/PlainTextTokenizer.java:85-91 | a negative n fails as the list capacity does; n = 0 with a token fails at remove(0); otherwise the result is the reference n-gram output of the normalised input |
| SyntacticPatterns.FirstStemFrom | src/main/java/pt/it/av/atnog/ml/tm/syntacticPattern/SyntacticPattern.java:31-33 | the first position below tokens - termSize where the stem matches, or none exactly when no such position matches |
| SyntacticPatterns.Without | src/main/java/pt/it/av/atnog/ml/tm/syntacticPattern/SyntacticPattern.java:34 | the filtered list is never longer |
| SyntacticPatterns.WithoutMembers | src/main/java/pt/it/av/atnog/ml/tm/syntacticPattern/SyntacticPattern.java:34 | a word remains exactly when it was there and is not blacklisted |
| SyntacticPatterns.WithoutAppend | src/main/java/pt/it/av/atnog/ml/tm/syntacticPattern/SyntacticPattern.java:34 | filtering works word by word and keeps the order |
| SyntacticPatterns.WithoutIdempotent | src/main/java/pt/it/av/atnog/ml/tm/syntacticPattern/SyntacticPattern.java:34 | filtering twice equals filtering once |
| SyntacticPatterns.Extract | src/main/java/pt/it/av/atnog/ml/tm/syntacticPattern/SyntacticPattern.java:28-39 | with no stem match the null match is dereferenced; otherwise the result is all n-grams of the filtered match at the first stem position |
| SyntacticPatterns.Grams | src/main/java/pt/it/av/atnog/ml/tm/syntacticPattern/SyntacticPattern.java:35-37 | the nested loops produce exactly the reference n-gram list |
| SyntacticPatterns.AllGramsLength | src/main/java/pt/it/av/atnog/ml/tm/syntacticPattern/SyntacticPattern.java:35-37 | the number of n-grams, in closed form, for n <= 0, n <= size and n >= size |
| SyntacticPatterns.AllGramsSound | src/main/java/pt/it/av/atnog/ml/tm/syntacticPattern/SyntacticPattern.java:35-37 | every n-gram is a contiguous run of the match of length 1 .. n |
| SyntacticPatterns.AllGramsComplete | src/main/java/pt/it/av/atnog/ml/tm/syntacticPattern/SyntacticPattern.java:35-37 | every contiguous run of length 1 .. n is an n-gram |
| SyntacticPatterns.AllGramsByLength | src/main/java/pt/it/av/atnog/ml/tm/syntacticPattern/SyntacticPattern.java:35 | n-grams come shortest first |
| SyntacticPatterns.AllGramsPrefix | src/main/java/pt/it/av/atnog/ml/tm/syntacticPattern/SyntacticPattern.java:35 | the n-grams up to a shorter length are a prefix of the result |
| SyntacticPatterns.AllGramsAt | src/main/java/pt/it/av/atnog/ml/tm/syntacticPattern/SyntacticPattern.java:35-37 | within one length, the n-grams are ordered by start position |
| Genetic.Compare | src/main/java/pt/ua/it/atnog/ml/optimization/genetic/Chromosome.java:29 | Double.compare's sign agrees with the order of its arguments, in -1 .. 1 |
| Genetic.Chromosome.constructor | src/main/java/pt/ua/it/atnog/ml/optimization/genetic/Chromosome.java:6-7 | a new chromosome has no valid fitness cached, and the fitness field is 0.0 |
| Genetic.Chromosome.Fitness | src/main/java/pt/ua/it/atnog/ml/optimization/genetic/Chromosome.java:11-17 | returns the fitness of the current genome, validating the cache, evaluating only when it was invalid and leaving the genome alone |
| Genetic.Chromosome.Mutation | src/main/java/pt/ua/it/atnog/ml/optimization/genetic/Chromosome.java:19-22 | invalidates the cache and mutates the genome |
| Genetic.Chromosome.CompareTo | src/main/java/pt/ua/it/atnog/ml/optimization/genetic/Chromosome.java:28-30 | compares the stored `fitness` fields, not a fresh evaluation: negative exactly when this chromosome's stored fitness is larger, positive exactly when it is smaller, zero when they are equal |
| Genetic.FitnessTwice | src/main/java/pt/ua/it/atnog/ml/optimization/genetic/Chromosome.java:11-17 | a second fitness() call returns the same value and evaluates at most once in all |
| Genetic.CompareAntisymmetric | src/main/java/pt/ua/it/atnog/ml/optimization/genetic/Chromosome.java:28-30 | comparing in the other order flips the sign |
| Genetic.CompareTransitive | src/main/java/pt/ua/it/atnog/ml/optimization/genetic/Chromosome.java:28-30 | the comparison is transitive |
| Genetic.SortedByCompareIsDescending | src/main/java/pt/ua/it/atnog/ml/optimization/genetic/Chromosome.java:28-30 | a sequence ordered by compareTo has non-increasing fitness: fittest first |

## Left out

- Floating point: distances, means, medians and metrics are reals. NaN, -0.0 and `Double.compare`'s handling of them are not modelled, and neither is rounding.
- Dbscan points: a point is its index; `Cluster` objects are lists of point indices, in index order.
- `clustering(dps, minPts)`, which uses the default `DFDT` detector: that detector is not part of this model. `AutoClustering` takes any detector as the function `elbow`.
- Dbscan.PartitionUnique: requires a symmetric distance (`dist(a, b) == dist(b, a)`). `Distance.distanceTo` is an interface method that is not part of this model, and `Clustering` does not need symmetry. Without it, a core point can be a neighbour of a point that is not its neighbour, and the partition properties no longer pin down a single result.
- Dbscan.KCloserPoints: requires 1 <= k < n. Outside that range the Java method fails in one of three ways. A negative k fails to allocate the buffer. A k >= n reads past the list. A k = 0 hands an empty buffer to `ArrayUtils.max`, which is not part of this model. `SelectEps` reports all of these as `InvalidMinPts`.
- Dbscan.SelectEps: `ArrayUtils.median` of an empty array is not part of this model, and neither is `ArrayUtils.mean` on an empty array. An empty curve with no elbow is reported as `EmptyCurve`. An elbow index past the curve, which Java reports as an `ArrayIndexOutOfBoundsException`, is `ElbowOutOfRange`.
- ArrayUtils internals: `mean`, `median` and `max` are the reference functions `Mean`, `Median` and `ArgMax`. `Arrays.sort` is the value function `SortAscending`; the in-place sort is not modelled.
- The angle of the two linear regressions in `aMethod` is the abstract `Metric`, and `rmse` is not modelled, because regressions and angles are floating-point geometry.
- The `WeakReference` singletons (`build()`) have nothing to verify.
- `normalize`: lower-casing, NFD decomposition, diacritic removal and the `text` pattern are functions given with the tokenizer, as Unicode and regular expressions are outside Dafny's strings.
- The `BreakIterator` is a fixed boundary sequence; the locale's word rules are not modelled.
- Tokenizer.TextTokenizerIteratorNGram.Next: requires hasNext, so a call once hasNext is false is not modelled. In Java such a call behaves as follows (PlainTextTokenizer.java:154-171):
  - After the final `null` with n > 0: the buffer still holds the last window and `idx` is 0. Later calls return that window's prefixes again, `buffer.subList(0, 1)` up to the whole window, and then `null` once more, in a repeating cycle.
  - After the final `null` with n = 0: `idx < n` is false, so the slide branch runs again, finds no token and returns `null` again.
  - With hasNext false from construction (fewer than n tokens, n > 0): `idx` is 0 and the buffer holds fewer than n tokens. Calls return `buffer.subList(0, idx + 1)` while `idx + 1` is within the buffer. The first call throws `IndexOutOfBoundsException` when the buffer is empty; otherwise the call that passes its end does.
  - The string iterator's `Next` needs no such guard: after the end it returns null on every call.
- Tokenizer.TokenizeNGrams: the n-grams are values, whereas Java's `subList` views share the buffer, and `NGram` is not part of this model. Whether a returned n-gram sees later changes to the buffer is therefore not modelled.
- Tokenizer.TokenizeNGrams: with n = 0 the first pass of the collecting loop is taken apart from the others. That pass is the only one that can fail.
- SyntacticPatterns: `Stemmer`, `NGram.equals` and the subclasses' `match` and `query` are functions of the pattern value. A `match` that returns null is not modelled.
- SyntacticPatterns.Without: `Collections.binarySearch(blacklist, x) >= 0` is read as membership. On an unsorted blacklist the Java search may miss a word.
- Genetic: `computeFitness` and `computeMutation` are the pure functions `evaluate` and `mutate`. A subclass with side effects or randomness is not modelled.
- Genetic: `crossover` and the `Parallel` base class are not modelled: crossover is abstract, and the base class is concurrency.
- Amethod.ItRefinement: `point * 2` (Amethod.java:43) is unbounded here. In Java it wraps once a split point reaches 2^30, which needs an array of 2^30 + 2 or more elements, and is then negative, so the cutoff goes wrong. That wrap-around is not modelled. Every other count is bounded by a list size and stays in `int`.
- Not part of this model: `SSetsS1` and `DPWOpt`, and the stemmer and n-gram classes.
