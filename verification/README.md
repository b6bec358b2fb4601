# A verified model of the FAISS index layer

This project models the self-contained algorithms of the FAISS index layer bundled with the
repository, and proves that each agrees with the simple exhaustive or one-at-a-time version it
stands for. Code that changes state in the source is a class or a method over arrays here, and is
proved against a specification function; the laws are then proved about the specification.

What a reader gets, by theme:

- **Binary hashing.** The bit-trick enumerator of `IndexBinaryHash.cpp` yields every mask of at most
  `maxflip` ones exactly once, by increasing weight and decreasing value. Single-hash search meets
  exactly the stored vectors whose hash is within `nflip` bits; range search is exhaustive search for
  every content exactly when `radius <= nflip + 1` or all bits are flipped. Multi-hash search has the
  analogous exact condition (`CoversRadius`), by a pigeonhole argument over the segments.
- **Top-k heaps.** The binary heap of `Heap.h` is modelled as it is and characterised by counts: it
  holds the k best of what it was offered, leaving out no candidate nearer than one it holds. Merging
  heaps and reordering keep that, so the distances of a result depend on the candidates alone.
- **Auto-tuning.** The Pareto frontier answers every performance with the least recorded time, in
  whatever order points come. The pruned exploration is described point by point. It loses no
  trade-off, whatever was recorded before and whatever it tries, if and only if the table of
  measurements is safe (`SkipsAreSafe`): a combination that looks pointless for three others is
  beaten by one of them or by doing nothing. Monotone spaces are safe, and so are some that are not
  monotone.
- **Exact search.** The 1-D search returns the true nearest entries on every exit, entries at the same
  distance in the order in which it meets them; level-by-level pruning is sound by Cauchy-Schwarz over
  the reals and leaves the heap of the unpruned run.
- **K-means.** The threaded centroid update, in any interleaving, and the repair of empty clusters
  conserve mass; they conserve the first moment exactly when the sums of the clusters of weight zero
  cancel in every coordinate, which non-negative weights guarantee. The repair can end if and only if
  the masses can be halved as often as there are empty clusters (`Potential`), and then a donor is
  there whenever one is sought, whatever the draws. With unit weights, more points than centroids and
  no frozen centroid that always holds; with a frozen centroid it need not.
- **Inverted lists.** The sorted batch add and the threaded add leave what appending one vector at a
  time leaves. Batched search makes the same scans as the nested loops. All parallel modes of the
  inverted-file search give the same distances, for every schedule.
- **In-place layouts.** The sliding window is a queue of slices; back-to-front widening of codes
  overwrites nothing too early and can be read back; level-ordered insertion passes every point once,
  shuffled inside its level, and a shuffle can give every order of different elements, each by one
  list of draws only; the id map over flat codes is a list of (id, code) pairs.

Floats are real numbers, with an extra greatest element `Top` where a heap starts at infinity. Bytes
are numbers below 256, hash words are 64 Booleans with the least significant first. Outcomes the
source leaves open are parameters, so that the results hold for all of them: random draws, the order
`std::sort` gives to equal elements, the interleaving of threads, the order in which scans end.
An exception is an `Option` or a Boolean result.

## Files

| file | content |
|---|---|
| `BitWords.dfy`, `FlipEnumeration.dfy`, `MaskCount.dfy` | 64-bit words, the flip enumerator, the number of masks |
| `BinaryHash.dfy`, `MultiHash.dfy` | the two binary hash indexes |
| `TopKHeap.dfy` | heaps and top-k results |
| `OperatingPoints.dfy` | the Pareto frontier |
| `MixedRadix.dfy`, `Pruning.dfy`, `ParameterSpace.dfy` | combinations, when skipping loses nothing, and the exploration |
| `Flat1D.dfy`, `Panorama.dfy` | exact 1-D search and Cauchy-Schwarz pruning |
| `Clustering.dfy`, `ClusterRepair.dfy` | centroid update, and repair of empty clusters |
| `InvertedListAdd.dfy`, `FastScanSearch.dfy`, `IvfSearch.dfy` | adding to and searching inverted lists |
| `SlidingWindow.dfy`, `TwoLayerCodec.dfy`, `HnswOrder.dfy`, `IdMap.dfy` | the in-place layouts |
| `Arithmetic.dfy`, `Multisets.dfy`, `FlatMaps.dfy`, `Shuffle.dfy`, `Schedule.dfy`, `Bytes.dfy`, `Wrappers.dfy` | shared facts and helpers |

## Model

| member | source | states |
|---|---|---|
| BitWords.DecrementIsMinusOne | include/faiss/IndexBinaryHash.cpp:88 | on the bits of a word, the decrement that makes the mask subtracts one modulo 2^64 |
| FlipEnumeration.FlipEnumerator.constructor | include/faiss/IndexBinaryHash.cpp:75-79 | the enumerator starts on the empty mask, which no other allowed mask precedes |
| FlipEnumeration.FlipEnumerator.Next | include/faiss/IndexBinaryHash.cpp:81-106 | each call moves to the immediate successor in the order by weight, then decreasing value, or answers false on the last mask; (weight, value) is a termination measure |
| FlipEnumeration.FlipEnumerator.SlideDown | include/faiss/IndexBinaryHash.cpp:93-104 | the shift and clear tricks give the next smaller mask of the same weight |
| FlipEnumeration.GatherMoves | include/faiss/IndexBinaryHash.cpp:98-104 | with ones at the bottom, the tricks move the next one down by a place and gather the lower ones right below it |
| FlipEnumeration.WidenIsSuccessor | include/faiss/IndexBinaryHash.cpp:82-91 | after the lowest mask of a weight comes the highest mask of the next weight |
| FlipEnumeration.EnumerateMasks | include/faiss/IndexBinaryHash.cpp:150-173 | the do-while loop meets every mask of at most maxflip ones among nbit bits, exactly once and in order, then ends |
| FlipEnumeration.PrecedesTotal | include/faiss/IndexBinaryHash.cpp:67-70 | the order of the masks is total and antisymmetric |
| FlipEnumeration.PrecedesTransitive | include/faiss/IndexBinaryHash.cpp:67-70 | the order of the masks is transitive |
| MaskCount.AllMasksAdmissible | include/faiss/IndexBinaryHash.cpp:67-70 | a list of masks built by recursion on the number of bits holds exactly the allowed masks |
| MaskCount.AllMasksLength | include/faiss/IndexBinaryHash.cpp:67-70 | there are as many allowed masks as the sum of the binomial coefficients up to maxflip |
| MaskCount.MasksFillBall | include/faiss/IndexBinaryHash.cpp:67-107 | any list of the allowed masks without repetition, so also the enumeration, has that length |
| TopKHeap.HeapReplaceTop | include/faiss/utils/Heap.h:274-308 | the loop with a moving hole computes SiftDown of the new entry from the top |
| TopKHeap.ReplaceTopCorrect | include/faiss/utils/Heap.h:268-308 | on a heap, replacing the top gives a heap whose content lost the top and gained the new entry |
| TopKHeap.HeapPop | include/faiss/utils/Heap.h:46-78 | popping computes SiftDown of the last entry from the top and leaves the rest of the array alone |
| TopKHeap.PopCorrect | include/faiss/utils/Heap.h:43-78 | the remaining k-1 places are a heap that holds everything but the top |
| TopKHeap.AddResult | include/faiss/IndexBinaryHash.cpp:128-132 | a candidate replaces the top exactly when it is nearer |
| TopKHeap.HeapAddCorrect | include/faiss/IndexBinaryHash.cpp:128-132 | one more candidate keeps the heap the k best of what it was offered |
| TopKHeap.HeapAddn | include/faiss/utils/Heap.h:372-394 | adding a list of entries computes HeapAddAll |
| TopKHeap.HeapAddAllCorrect | include/faiss/utils/Heap.h:367-394 | a heap that was offered a list holds its k best |
| TopKHeap.EmptyHeapCorrect | include/faiss/utils/Heap.h:317-343 | a freshly initialised heap holds the k best of nothing |
| TopKHeap.TopKMeaning | include/faiss/utils/Heap.h:367-394 | to hold the k best of some candidates is to hold some of them and to leave out none that is nearer than one held |
| TopKHeap.HeapHeapify | include/faiss/utils/Heap.h:339-342 | without initial elements the heap is filled with neutral entries |
| TopKHeap.MergeHeaps | include/faiss/IndexIVF.cpp:486-495 | adding the entries of a top-k heap of one part to that of another gives a top-k heap of both |
| TopKHeap.TopKOfPermutation | include/faiss/IndexIVF.cpp:396-722 | the k best do not depend on the order of the candidates |
| TopKHeap.HeapReorder | include/faiss/utils/Heap.h:426-457 | heap_reorder keeps exactly the labelled entries, by increasing distance and at the same distance by increasing label, then neutral ones labelled -1, and returns their number |
| TopKHeap.ReorderedIsTopK | include/faiss/utils/Heap.h:426-457 | the reordered heap lists the k best candidates in order; the places left over are labelled -1 |
| TopKHeap.ResultDistancesUnique | include/faiss/utils/Heap.h:426-457 | two top-k results of the same candidates, met in any order, have the same distances |
| BinaryHash.IndexBinaryHash.AddWithIds | include/faiss/IndexBinaryHash.cpp:50-64 | the log gains the vectors in order with the given ids, or running numbers on from ntotal; each bucket holds, in order, the entries of the log whose low b bits hash to it |
| BinaryHash.IndexBinaryHash.Reset | include/faiss/IndexBinaryHash.cpp:41-44 | after a reset nothing is stored |
| BinaryHash.HammingCounts | include/faiss/IndexBinaryHash.cpp:164-167 | the distance handed on is the number of places in which the vectors differ |
| BinaryHash.HashBit | include/faiss/IndexBinaryHash.cpp:143-144 | bit i of a hash is bit i of the vector below b and clear from b on |
| BinaryHash.BucketHolds | include/faiss/IndexBinaryHash.cpp:50-64 | a bucket holds the entries that hash to it, each as often as it was added |
| BinaryHash.BucketJoin | include/faiss/IndexBinaryHash.cpp:50-64 | what is added later comes later in its bucket |
| BinaryHash.HashMaskAdmissible | include/faiss/IndexBinaryHash.cpp:144-151 | the hashes of two vectors differ by an allowed mask exactly when their low b bits differ in at most nflip places |
| BinaryHash.BucketIsKey | include/faiss/IndexBinaryHash.cpp:151-167 | the bucket visited for a mask holds exactly the entries that differ from the query by that mask |
| BinaryHash.VisitedAllIsNear | include/faiss/IndexBinaryHash.cpp:149-173 | visiting all allowed masks meets exactly the near entries |
| BinaryHash.NearCounts | include/faiss/IndexBinaryHash.cpp:149-173 | a result is handed on as often as there are stored vectors with its id and at its distance that differ from the query in at most nflip of the low b bits |
| BinaryHash.AllCounts | include/faiss/IndexBinaryHash.cpp:200-228 | exhaustive search, which range search is compared with, hands on every stored vector once, at its distance |
| BinaryHash.InRadiusCounts | include/faiss/IndexBinaryHash.cpp:114-118 | the handler of range search reports what it is handed strictly below the radius and nothing else |
| BinaryHash.IndexBinaryHash.SearchSingleQuery | include/faiss/IndexBinaryHash.cpp:135-174 | the results handed on are the near entries, each once, with their distances; ndis counts them and nlist the buckets met |
| BinaryHash.IndexBinaryHash.RangeSearch | include/faiss/IndexBinaryHash.cpp:200-228 | range search returns each near entry below the radius, as often as it is stored and at the distance that BinaryHash.HammingCounts counts, and equals exhaustive search when radius <= nflip + 1 or nflip == b |
| BinaryHash.IndexBinaryHash.Search | include/faiss/IndexBinaryHash.cpp:230-261 | the k nearest of the near entries, by increasing distance; an exception exactly when k <= 0 |
| BinaryHash.NearIsExhaustive | include/faiss/IndexBinaryHash.cpp:135-174 | below a radius of at most nflip + 1 every stored vector is near |
| BinaryHash.NearMisses | include/faiss/IndexBinaryHash.cpp:135-174 | for any wider radius with bits to spare, a concrete stored vector is missed |
| BinaryHash.ExhaustiveCondition | include/faiss/IndexBinaryHash.cpp:135-228 | single-hash range search is exhaustive for every content and query if and only if radius <= nflip + 1 or nflip == b |
| MultiHash.IndexBinaryMultiHash.Create | include/faiss/IndexBinaryHash.cpp:288-297 | construction fails exactly when the segments do not fit the vector |
| MultiHash.IndexBinaryMultiHash.Add | include/faiss/IndexBinaryHash.cpp:316-333 | after any run of adds, table h holds the vector numbers by the hash of segment h, in order |
| MultiHash.PostingsIncrease | include/faiss/IndexBinaryHash.cpp:316-333 | the numbers under a hash increase |
| MultiHash.SegmentDistanceCounts | include/faiss/IndexBinaryHash.cpp:373-394 | two segments are at the distance of the number of places in which they differ, the places lost by the shifted 64-bit read left out |
| MultiHash.IndexBinaryMultiHash.VisitTable | include/faiss/IndexBinaryHash.cpp:373-394 | one table contributes exactly the vectors whose segment is within nflip bits; found and missing buckets together count all masks |
| MultiHash.IndexBinaryMultiHash.SearchOneQuery | include/faiss/IndexBinaryHash.cpp:361-399 | the shortlist is the vectors near the query in some segment |
| MultiHash.VerifyShortlist | include/faiss/IndexBinaryHash.cpp:336-351 | the shortlist is measured once per vector in whatever order it is walked |
| MultiHash.ListedOnce | include/faiss/IndexBinaryHash.cpp:336-351 | a result is reported once if its vector is listed and lies at its distance, and otherwise not |
| MultiHash.ListedDistinct | include/faiss/IndexBinaryHash.cpp:361-404 | no vector is reported twice |
| MultiHash.FarInEverySegment | include/faiss/IndexBinaryHash.cpp:361-399 | pigeonhole: more than nflip differences in each of h segments are at least h * (nflip + 1) in all |
| MultiHash.CloseIsNearSomewhere | include/faiss/IndexBinaryHash.cpp:361-399 | a vector at distance below nhash * (nflip + 1) is near in some segment, hence on the shortlist |
| MultiHash.ShortlistIsExhaustive | include/faiss/IndexBinaryHash.cpp:361-404 | within a covered radius the shortlist misses nothing, whatever is stored |
| MultiHash.CoveredRadiusCondition | include/faiss/IndexBinaryHash.cpp:361-436 | multi-hash range search is exhaustive for every content and query if and only if CoversRadius holds, a condition on nhash, b, nflip and the radius that also accounts for the bits a 64-bit read at an odd offset loses |
| MultiHash.IndexBinaryMultiHash.RangeSearch | include/faiss/IndexBinaryHash.cpp:408-436 | range search returns each shortlisted vector below the radius once, at the distance that BinaryHash.HammingCounts counts, and equals exhaustive search within a covered radius |
| MultiHash.IndexBinaryMultiHash.Search | include/faiss/IndexBinaryHash.cpp:438-469 | the k nearest of the shortlist by increasing distance; an exception exactly when k <= 0 |
| OperatingPoints.OperatingPoints.Clear | include/faiss/AutoTune.cpp:97-103 | the frontier is the single point of performance 0 and time 0 with an empty key and number -1, and nothing is recorded |
| OperatingPoints.OperatingPoints.Add | include/faiss/AutoTune.cpp:106-152 | the point is recorded and kept exactly when no earlier one is as good and as fast; the frontier consists of recorded points, strictly increasing in performance, non-decreasing in time and as good as all of them |
| OperatingPoints.OperatingPoints.Insert | include/faiss/AutoTune.cpp:117-144 | the three cases put the point where its performance belongs exactly when no frontier point covers it, and lose no offer |
| OperatingPoints.OperatingPoints.EraseDominated | include/faiss/AutoTune.cpp:145-150 | the backward erasure restores the order of times and loses no offer |
| OperatingPoints.OperatingPoints.TForPerf | include/faiss/AutoTune.cpp:168-183 | the bisection answers the least time of a recorded point that reaches the performance, and 1e50 if there is none |
| OperatingPoints.BestIsBest | include/faiss/AutoTune.cpp:167-183 | that answer is attained and no recorded point that reaches the performance is faster |
| OperatingPoints.OrderIrrelevant | include/faiss/AutoTune.cpp:106-183 | the answers do not depend on the order in which points were added |
| OperatingPoints.OperatingPoints.MergeWith | include/faiss/AutoTune.cpp:154-165 | merging records the other collection's points in order, each under its prefixed key, and answers how many were not covered by what came before them |
| OperatingPoints.MergeOrderIrrelevant | include/faiss/AutoTune.cpp:154-183 | merging either way round gives the same answers |
| ParameterSpace.ParameterSpace.NCombinations | include/faiss/AutoTune.cpp:268-274 | the product of the numbers of values |
| ParameterSpace.ParameterSpace.CombinationGe | include/faiss/AutoTune.cpp:297-309 | the digit-by-digit comparison of two combination numbers |
| MixedRadix.GeReflexive | include/faiss/AutoTune.cpp:297-309 | the comparison is reflexive |
| MixedRadix.GeIsPointwise | include/faiss/AutoTune.cpp:297-309 | the comparison compares the values picked for every parameter |
| MixedRadix.EveryChoice | include/faiss/AutoTune.cpp:412-420 | every choice of one value per parameter is that of a number below the number of combinations |
| MixedRadix.GeTransitive | include/faiss/AutoTune.cpp:297-309 | the comparison is transitive |
| MixedRadix.GeAntisymmetric | include/faiss/AutoTune.cpp:297-309 | on numbers below the number of combinations the comparison is antisymmetric |
| MixedRadix.GeZero | include/faiss/AutoTune.cpp:656-657 | combination 0, run first, is the least |
| MixedRadix.GeLast | include/faiss/AutoTune.cpp:658-659 | the last combination, run second, is the greatest |
| ParameterSpace.ParameterSpace.UpdateBounds | include/faiss/AutoTune.cpp:594-609 | a recorded point tightens each bound exactly when it is comparable in the right direction |
| Pruning.BoundsHold | include/faiss/AutoTune.cpp:677-686 | in a monotone space the bounds hold of the measurement that has not been made |
| ParameterSpace.ParameterSpace.ExperimentOrder | include/faiss/AutoTune.cpp:655-664 | the order is the first combination, the last, and the numbers between as the draws shuffle them, so every combination once |
| ParameterSpace.ParameterSpace.ExploreAll | include/faiss/AutoTune.cpp:622-647 | with n_experiments 0 every combination is measured and recorded in turn |
| ParameterSpace.ParameterSpace.TryOne | include/faiss/AutoTune.cpp:677-697 | a combination is skipped exactly when the best time for its upper bound of performance is at most its lower bound of time, and otherwise measured and recorded |
| Pruning.SafeSkipIsCovered | include/faiss/AutoTune.cpp:687-696 | in a safe space a skipped combination is beaten by a recorded point or by doing nothing |
| Pruning.PointlessIsSkipped | include/faiss/AutoTune.cpp:677-696 | a combination that looks pointless for three others is skipped once they are recorded |
| Pruning.SkipsAreSafeCondition | include/faiss/AutoTune.cpp:677-696 | every skip that any recorded measurements allow is of a beaten combination if and only if the table of measurements is safe |
| Pruning.MonotoneIsSafe | include/faiss/AutoTune.cpp:677-696 | a monotone space is safe |
| Pruning.SafeWithoutMonotony | include/faiss/AutoTune.cpp:677-696 | a space that is safe and not monotone |
| Pruning.SafeRunLosesNothing | include/faiss/AutoTune.cpp:666-757 | in a safe space, for every performance the best time after a pruned run is that of running everything it tried |
| Pruning.UncoveredSkipLoses | include/faiss/AutoTune.cpp:687-696 | a run that skips a combination loses nothing only if that combination was beaten |
| Pruning.PruningCondition | include/faiss/AutoTune.cpp:666-757 | no run, from any recorded measurements and over any combinations, loses a trade-off if and only if the table of measurements is safe |
| Pruning.TriedAddsNothing | include/faiss/AutoTune.cpp:666-757 | in any space the pruned run offers nothing that running everything would not |
| Pruning.TriedAll | include/faiss/AutoTune.cpp:649-664 | when as many combinations are tried as there are, the answers are those of running all of them |
| Pruning.SafeStartAnswers | include/faiss/AutoTune.cpp:649-757 | from a safe start, trying as many combinations as there are gives the answers of running all of them |
| Pruning.SkipsCanLose | include/faiss/AutoTune.cpp:666-757 | an unsafe space in which a run from nothing recorded, in the source's own order, loses a trade-off |
| ParameterSpace.ParameterSpace.Explore | include/faiss/AutoTune.cpp:611-757 | as many combinations are tried as n_experiments says, and all for 0, a negative number or one above their number; they are a beginning of the experiment order and the recorded points those of the run Tried over them; it fails exactly when there are several combinations and fewer than three are to be tried; from a safe start the answers are those of running everything tried, and with as many tries as combinations those of running every combination |
| Flat1D.Bisect | include/faiss/IndexFlat.cpp:512-519 | the bisection finds the two neighbouring places on either side of the query |
| Flat1D.Expand | include/faiss/IndexFlat.cpp:521-546 | taking the nearer of the entries on either side, the right one on a tie, lists the nearest ones in that order, through both ways a side runs out |
| Flat1D.FinishRight | include/faiss/IndexFlat.cpp:548-561 | continuing to the right, then padding, gives the nearest entries |
| Flat1D.FinishLeft | include/faiss/IndexFlat.cpp:563-575 | continuing to the left, then padding, gives the nearest entries |
| Flat1D.OutsideIsFarther | include/faiss/IndexFlat.cpp:521-575 | everything listed comes before every entry not listed yet, and is no farther |
| Flat1D.Search | include/faiss/IndexFlat.cpp:470-578 | on every exit the result has non-decreasing true distances and distinct labels, is padded with -1 and leaves out nothing nearer; entries at the same distance come, and are kept, right before left and nearest place first; exceptions exactly on k <= 0 and a stale permutation |
| Panorama.CauchySchwarz | include/faiss/IndexFlat.cpp:869-872 | the squared inner product over any range of places is at most the product of the squared norms |
| Panorama.PruningIsSound | include/faiss/IndexFlat.cpp:857-878 | at every level the partial distance less twice the product of the suffix norms is at most the true squared distance |
| Panorama.Refine | include/faiss/IndexFlat.cpp:846-887 | a candidate either gets its full distance or is truly farther than the top of the heap |
| Panorama.CandidatesAre | include/faiss/IndexFlat.cpp:839-848 | a vector of the database is a candidate once for every time its number is among the labels, at its squared distance; negative labels give none |
| Panorama.PanoramaIndex.ScanSubset | include/faiss/IndexFlat.cpp:839-888 | the pruned run over the candidates leaves the heap of computing every distance in full; negative labels are skipped |
| Panorama.PanoramaIndex.SearchSubset | include/faiss/IndexFlat.cpp:788-894 | the k nearest of the candidates by increasing distance; exceptions exactly on k <= 0 and batch_size other than 1 |
| Panorama.LevelsInside | include/faiss/impl/Panorama.cpp:60-64 | all levels read inside the vector if and only if (n_levels - 1) times the level width is at most d |
| Panorama.LevelsNeedNotFit | include/faiss/IndexFlat.cpp:862-864 | five dimensions in four levels: the subtraction wraps around and the last level reads past the vector |
| Panorama.LevelsCover | include/faiss/impl/Panorama.cpp:60-64 | the level width is the least with which the levels together cover all dimensions |
| Clustering.OneOwner | include/faiss/Clustering.cpp:159-161 | no cluster belongs to two threads |
| Clustering.SomeOwner | include/faiss/Clustering.cpp:159-161 | every cluster belongs to some thread |
| Clustering.ThreadStep | include/faiss/Clustering.cpp:164-191 | one iteration of one thread brings the clusters it owns one point further and touches no other |
| Clustering.Accumulate | include/faiss/Clustering.cpp:154-192 | for any number of threads and any interleaving every cluster ends with the weight and weighted sum of its points |
| Clustering.ComputeCentroids | include/faiss/Clustering.cpp:136-205 | clusters with weight get the centroid that times their weight is the sum of their points, those of weight zero keep the plain sum |
| Clustering.UpdateConserves | include/faiss/Clustering.cpp:136-205 | total mass is conserved always; a coordinate of the first moment exactly when the sums of the clusters of mass zero cancel in it |
| Clustering.NothingLost | include/faiss/Clustering.cpp:178-198 | without negative weights nothing is lost |
| Clustering.NegativeWeightsLose | include/faiss/Clustering.cpp:196-198 | a point of weight 1 and one of weight -1 in a cluster lose their difference |
| ClusterRepair.FindDonor | include/faiss/Clustering.cpp:232-240 | clusters are offered in turn, one draw each, and the search stops at the first draw that picks one |
| ClusterRepair.DonorIsFirst | include/faiss/Clustering.cpp:232-240 | no cluster is passed over that its draw would have picked |
| ClusterRepair.PickedIsLarge | include/faiss/Clustering.cpp:234-239 | a cluster that is picked has mass above 1, so it is never the empty cluster itself |
| ClusterRepair.LargeCanBePicked | include/faiss/Clustering.cpp:234-239 | a cluster can be picked if and only if its mass is above 1 |
| ClusterRepair.SomeLarge | include/faiss/Clustering.cpp:230-240 | when the mass exceeds the number of clusters some cluster has mass above 1 |
| ClusterRepair.DonorExists | include/faiss/Clustering.cpp:233-240 | a donor exists if and only if there is potential left |
| ClusterRepair.SplitLowersPotential | include/faiss/Clustering.cpp:256-258 | every split uses up one unit of potential, whichever donor is picked |
| ClusterRepair.ZeroRoundFinds | include/faiss/Clustering.cpp:233-240 | while there is potential left, one round of draws of 0 makes the search find a donor |
| ClusterRepair.RunUsesPotential | include/faiss/Clustering.cpp:228-263 | a run uses one unit of potential per split and ends exactly when it has split for every empty cluster |
| ClusterRepair.RepairCondition | include/faiss/Clustering.cpp:228-263 | some draws end the repair if and only if the potential is at least the number of empty clusters |
| ClusterRepair.NeverStuck | include/faiss/Clustering.cpp:228-263 | in that case a donor is there at whatever point any draws leave the repair |
| ClusterRepair.EnoughMass | include/faiss/Clustering.cpp:228-263 | a unit of mass per cluster is enough potential, however it is spread |
| ClusterRepair.UpdateCanFinish | include/faiss/Clustering.cpp:514-531 | the repair after an update can end exactly under that condition, and always with unit weights, more points than centroids and none frozen |
| ClusterRepair.FrozenNeverFinishes | include/faiss/Clustering.cpp:217-240 | three unit points on a frozen centroid, which leave the other cluster without a donor for ever |
| ClusterRepair.SplitOne | include/faiss/Clustering.cpp:241-258 | both clusters get half of the donor's mass; the empty one gets the donor's centroid with even coordinates times 1 + 1/1024 and odd ones times 1 - 1/1024, the donor the reverse, and no other cluster changes |
| ClusterRepair.SplitConserves | include/faiss/Clustering.cpp:241-258 | one split conserves total mass and every coordinate of the first moment |
| ClusterRepair.RunIsMoves | include/faiss/Clustering.cpp:228-263 | a run is a chain of such splits: each for the next empty cluster, of the first cluster in turn whose draw is below (mass - 1) / (n - k); it ends with no empty cluster left or with draws none of which picks a donor |
| ClusterRepair.SplitClusters | include/faiss/Clustering.cpp:217-264 | the outcome is that of a chain of splits, each in numbers and for the first donor the draws pick; whatever the draws, mass and first moment are conserved, and when it ends no cluster is empty and nsplit is the number of initially empty ones |
| ClusterRepair.UpdateCentroids | include/faiss/Clustering.cpp:514-531 | update and repair together are the chain of splits from the masses and means; they conserve mass, and moment for non-negative weights; with unit weights all masses end above 1/2; the repair ends only under its exact condition, and without frozen centroids a donor exists at whatever point it is stopped |
| InvertedListAdd.StableSort | include/faiss/IndexIVFFastScan.cpp:158-167 | the order is a permutation of the places sorted by list, input order within a list |
| InvertedListAdd.GroupIsPlaces | include/faiss/IndexIVFFastScan.cpp:173-179 | a group of the order is exactly the places assigned to its list, in input order |
| InvertedListAdd.AppendedList | include/faiss/IndexIVFFastScan.cpp:110-211 | appending one vector at a time gives each list the ids and codes of its places, in input order |
| InvertedListAdd.AppendedTwice | include/faiss/IndexIVFFastScan.cpp:116-140 | adding two parts one after the other is adding the whole |
| InvertedListAdd.IndexIVFFastScan.FillGroup | include/faiss/IndexIVFFastScan.cpp:186-208 | a list grows by its group, each entry written at its offset |
| InvertedListAdd.IndexIVFFastScan.AddBlock | include/faiss/IndexIVFFastScan.cpp:142-211 | one sorted block leaves in every list what appending one vector at a time leaves |
| InvertedListAdd.IndexIVFFastScan.AddWithIds | include/faiss/IndexIVFFastScan.cpp:110-214 | the same for any number of vectors in blocks of 65536, skipping list -1; ntotal grows by n |
| InvertedListAdd.IndexIVF.ThreadStep | include/faiss/IndexIVF.cpp:254-270 | one iteration of one thread appends the vector if the thread owns its list and touches no other list |
| InvertedListAdd.IndexIVF.AddBlock | include/faiss/IndexIVF.cpp:247-271 | for any number of threads and any interleaving every list gets what appending one vector at a time gives |
| InvertedListAdd.IndexIVF.AddCore | include/faiss/IndexIVF.cpp:207-281 | the same for any number of vectors in blocks, skipping negative lists; ntotal grows by n |
| FastScanSearch.SearchImplem10 | include/faiss/IndexIVFFastScan.cpp:960-1042 | query by query, one scan per probe that names a non-empty list, with its row, bias and size; ndis is the total size and the visits are counted |
| FastScanSearch.ProbedOnce | include/faiss/IndexIVFFastScan.cpp:988-1012 | every place of the probe table that names a list is probed once, for its query and rank |
| FastScanSearch.ScannedOnce | include/faiss/IndexIVFFastScan.cpp:986-1030 | a scan is made once if its query and rank are those of a place that names its non-empty list, its row is that of the query or of the place and its bias the one there; no other scan is made |
| FastScanSearch.ScansInOrder | include/faiss/IndexIVFFastScan.cpp:986-1030 | the nested loops make the scans query by query and by rank |
| FastScanSearch.CollectProbes | include/faiss/IndexIVFFastScan.cpp:1075-1090 | the running index of the double loop collects the same probes in the same order |
| FastScanSearch.PrepareBatch | include/faiss/IndexIVFFastScan.cpp:1130-1173 | each query of a batch gets its own table row, bias and rank, although the bias buffer is reused |
| FastScanSearch.RunBatch | include/faiss/IndexIVFFastScan.cpp:1127-1183 | the kernel call of a batch makes exactly the scans of its probes |
| FastScanSearch.GroupEnd | include/faiss/IndexIVFFastScan.cpp:1109-1119 | a batch stays in one list, within the width, and ends early only where the list ends |
| FastScanSearch.SearchImplem12 | include/faiss/IndexIVFFastScan.cpp:1044-1196 | for any outcome of the sort the batches make the scans of the sorted probes, each within one list and the width (qbs2, or 11 for 0), the lists in order and only full batches followed by another of their list; no queries leave the counters alone, and a block size other than 32 is refused |
| FastScanSearch.BatchedIsNested | include/faiss/IndexIVFFastScan.cpp:960-1196 | both searches make the same multiset of scans and see the same number of codes |
| FastScanSearch.SameDistances | include/faiss/IndexIVFFastScan.cpp:960-1196 | whatever a scan finds, the top k of every query are at the same distances in both |
| IvfSearch.ScanOneList | include/faiss/IndexIVF.cpp:510-588 | a scan offers the first entries of its list up to the limit; a negative key or an empty list offers none and a key past the lists is refused |
| IvfSearch.CandidatesInOrder | include/faiss/IndexIVF.cpp:510-588 | the codes offered to a query are those of the lists its keys name, in the order of its probes and each list from its first code on |
| IvfSearch.CandidatesCount | include/faiss/IndexIVF.cpp:510-588 | a query is offered every entry as often as the lists that its non-negative keys name hold it |
| IvfSearch.BadKeysMeaning | include/faiss/IndexIVF.cpp:519-523 | a query fails exactly when it comes to a key of at least nlist having seen fewer than max_codes codes, or any number without a limit |
| IvfSearch.CodesSeenCounts | include/faiss/IndexIVF.cpp:610-623 | the codes counted are those scanned for all queries under their limit |
| IvfSearch.SearchQuery | include/faiss/IndexIVF.cpp:594-630 | modes 0 and 3: the top k of the first max_codes codes of the query's probes, in probe order; it fails exactly when the query meets a key past the lists before its limit is reached |
| IvfSearch.ScanShare | include/faiss/IndexIVF.cpp:640-650 | a thread's heap holds the top k of its share of the probes |
| IvfSearch.SearchQueryByProbes | include/faiss/IndexIVF.cpp:631-666 | mode 1: however the probes are dealt out and in whatever order threads merge, the top k of all the query's probes |
| IvfSearch.ScanIntoRow | include/faiss/IndexIVF.cpp:676-696 | mode 2: one scan is merged into the row of its own query only |
| IvfSearch.BlockOfQuery | include/faiss/IndexIVF.cpp:677-678 | of all places of the table those whose quotient by nprobe is i are query i's |
| IvfSearch.SearchByScans | include/faiss/IndexIVF.cpp:667-700 | mode 2: in whatever order the scans end, every row is the top k of its query |
| IvfSearch.SearchPreassigned | include/faiss/IndexIVF.cpp:396-722 | every supported mode with every schedule leaves in every row the top k of its query and counts the same codes; it fails exactly on unsupported arguments or when some query meets a key past the lists before its limit |
| IvfSearch.ModesAgree | include/faiss/IndexIVF.cpp:396-722 | two searches of the same queries, in any two modes with any two schedules, succeed alike and give the same distances |
| SlidingWindow.ShiftAndAdd | include/faiss/IVFlib.cpp:192-206 | the move, resize and copy drop the first entries and append the new ones |
| SlidingWindow.RemoveFromBegin | include/faiss/IVFlib.cpp:222-227 | the first entries are erased |
| SlidingWindow.ShiftSizes | include/faiss/IVFlib.cpp:261-263 | the in-place loop moves the cumulative sizes down by one slice |
| SlidingWindow.ListRemoved | include/faiss/IVFlib.cpp:276-284 | what is left of a list after its first slice goes is that of the remaining slices |
| SlidingWindow.ListAdded | include/faiss/IVFlib.cpp:267-272 | a list with one more slice behind is that of all slices |
| SlidingWindow.JoinAt | include/faiss/IVFlib.cpp:236-290 | between the ends of two successive slices a list holds exactly the ids and the code bytes of the later one |
| SlidingWindow.SlidingIndexWindow.constructor | include/faiss/IVFlib.cpp:182-190 | the window of an empty index holds no slices |
| SlidingWindow.SlidingIndexWindow.Step | include/faiss/IVFlib.cpp:236-290 | a legal step is a step of the queue of slices: lists stay the concatenation of the live slices, ids and code bytes alike, sizes their cumulative lengths and ntotal the sum; an illegal one changes nothing |
| SlidingWindow.RunIsQueue | include/faiss/IVFlib.cpp:236-290 | after any legal run the slices alive are those that joined, without the first that left |
| TwoLayerCodec.CoarseCodeSize | include/faiss/IndexIVF.cpp:122-130 | the number of bytes it takes to write nlist - 1 in size_t |
| TwoLayerCodec.ByteCountLeast | include/faiss/IndexIVF.cpp:122-130 | that is the least number of bytes whose values reach it |
| TwoLayerCodec.EncodeListno | include/faiss/IndexIVF.cpp:132-140 | the moving pointer writes the low bytes, least first, and nothing else |
| TwoLayerCodec.DigitsAt | include/faiss/IndexIVF.cpp:132-140 | byte i written is digit i of the list number in base 256 |
| TwoLayerCodec.DecodeListno | include/faiss/IndexIVF.cpp:142-153 | the loop reads the number back and refuses one that is not that of a list or takes 64 bits |
| TwoLayerCodec.ListNumberReadBack | include/faiss/IndexIVF.cpp:132-153 | a list number in range is read back, by the decoder and by a plain little-endian copy |
| TwoLayerCodec.CodeSize1 | include/faiss/Index2Layer.cpp:46-51 | the constructor's loop finds the least size up to six bytes, and none beyond 2^48 lists |
| TwoLayerCodec.CodeSizesAgree | include/faiss/Index2Layer.cpp:46-51 | the constructor's size equals the bytes encode_listno writes if and only if there is at least one list and at most 2^48 |
| TwoLayerCodec.MemMove | include/faiss/Index2Layer.cpp:317 | an overlapping move of bytes |
| TwoLayerCodec.WidenStep | include/faiss/Index2Layer.cpp:314-319 | moving the last packed payload and writing its list number leaves the packed payloads before it and all moved codes intact |
| TwoLayerCodec.EncodeBlock | include/faiss/Index2Layer.cpp:313-319 | from packed payloads the back-to-front pass makes list number then payload for every vector and changes nothing else |
| TwoLayerCodec.SaEncode | include/faiss/Index2Layer.cpp:287-320 | the same across blocks of 32768 vectors |
| TwoLayerCodec.SaDecode | include/faiss/Index2Layer.cpp:322-333 | list number and payload of every vector, failing exactly when some number is not that of a list or takes 64 bits |
| TwoLayerCodec.RoundTrip | include/faiss/Index2Layer.cpp:287-333 | reading what was encoded gives back every list number and payload |
| TwoLayerCodec.EncodedParts | include/faiss/Index2Layer.cpp:287-320 | where list number and payload of every vector lie in the encoding |
| TwoLayerCodec.EncodeAndDecode | include/faiss/Index2Layer.cpp:287-333 | encoding and then decoding succeeds exactly when all list numbers are below 2^63, and then gives back exactly the vectors that went in |
| TwoLayerCodec.Index2Layer.constructor | include/faiss/Index2Layer.cpp:36-54 | the code size is right exactly from one list to 2^48, and not set beyond |
| TwoLayerCodec.Index2Layer.Add | include/faiss/IndexFlatCodes.cpp:25-33 | the code table becomes the encoding of old and new vectors |
| TwoLayerCodec.Index2Layer.TransferToIVFPQ | include/faiss/Index2Layer.cpp:117-133 | the inverted lists receive every vector under its list, numbered in order, when the other index is empty and of the same shape |
| HnswOrder.Histogram | include/faiss/IndexHNSW.cpp:95-103 | one count per level up to the highest that occurs |
| HnswOrder.Offsets | include/faiss/IndexHNSW.cpp:105-109 | the offset of a level is the number of points at lower levels |
| HnswOrder.BucketSort | include/faiss/IndexHNSW.cpp:111-116 | each bucket holds the points of its level in input order |
| HnswOrder.AtOnce | include/faiss/IndexHNSW.cpp:111-116 | a bucket holds every point of its level once and no other |
| HnswOrder.StartEnd | include/faiss/IndexHNSW.cpp:105-109 | the buckets together hold all points |
| Shuffle.ShuffleRange | include/faiss/IndexHNSW.cpp:136-139 | the swaps leave the bucket as its draws shuffle it and touch nothing outside it |
| Shuffle.RandPerm | include/faiss/utils/random.cpp:188-199 | the swaps make every number below n occur once, in the order drawn |
| Shuffle.EveryOrderDrawn | include/faiss/utils/random.cpp:188-199 | every order of the elements is that of some draws |
| Shuffle.OrderDrawnOnce | include/faiss/utils/random.cpp:188-199 | of different elements it is that of one list of draws only |
| HnswOrder.BucketPassed | include/faiss/IndexHNSW.cpp:127-191 | a bucket in any order keeps every insertion at its own level and the levels never rising |
| HnswOrder.PassedMore | include/faiss/IndexHNSW.cpp:127-191 | a bucket in any order carries the points passed once one level down |
| HnswOrder.AddVertices | include/faiss/IndexHNSW.cpp:55-197 | for every level table and random generator, each new point (above level 0, when that is not initialised) is passed once, at its own level, the levels never rising, the points of a level behind those above it and shuffled by the draws that come next; the closing assertions hold |
| IdMap.IndexFlatCodes.Add | include/faiss/IndexFlatCodes.cpp:25-33 | the codes are appended to the byte buffer |
| IdMap.IndexFlatCodes.CompactCodes | include/faiss/IndexFlatCodes.cpp:53-66 | the in-place moves bring the kept codes to the front and never overwrite one that is still to be looked at |
| IdMap.IndexFlatCodes.RemoveIds | include/faiss/IndexFlatCodes.cpp:53-73 | exactly the codes at the places not named stay, in order; the number removed is returned |
| IdMap.KeptPlaces | include/faiss/IndexFlatCodes.cpp:53-73 | what is kept is what lies at the places that are not named, in order |
| IdMap.IndexFlatCodes.MergeFrom | include/faiss/IndexFlatCodes.cpp:84-106 | the other index's codes are appended and it is emptied; a shift of ids or another code size is refused and changes nothing |
| IdMap.IndexFlatCodes.Reset | include/faiss/IndexFlatCodes.cpp:44-47 | no codes are left |
| IdMap.IndexFlatCodes.Reconstruct | include/faiss/IndexFlatCodes.cpp:75-82 | the code at a place of the index, an exception for any other |
| IdMap.KeptIsWithout | include/faiss/IndexIDMap.cpp:248-266 | removing ids and codes by place is removing pairs by id |
| IdMap.WithoutHolds | include/faiss/IndexIDMap.cpp:247-266 | removal takes out every pair under a named id and leaves the others as often as they were |
| IdMap.WithoutJoin | include/faiss/IndexIDMap.cpp:247-266 | removal keeps the order of the pairs |
| IdMap.IndexIDMap.constructor | include/faiss/IndexIDMap.cpp:51-59 | an id map over an empty index has no pairs |
| IdMap.IndexIDMap.AddWithIds | include/faiss/IndexIDMap.cpp:106-117 | the pairs of id and code are appended |
| IdMap.IndexIDMap.Reset | include/faiss/IndexIDMap.cpp:99-104 | no pairs are left |
| IdMap.CompactIds | include/faiss/IndexIDMap.cpp:253-261 | the in-place loop brings the ids that stay to the front |
| IdMap.IndexIDMap.RemoveIds | include/faiss/IndexIDMap.cpp:247-266 | removal is a filter of the pairs by id, and the assertion j == index->ntotal holds |
| IdMap.IndexIDMap.MergeFrom | include/faiss/IndexIDMap.cpp:268-287 | the other map's pairs are appended, a constant added to each id, and it is emptied; another code size changes nothing |
| IdMap.RevMapMore | include/faiss/IndexIDMap.cpp:312-314 | one more entry keeps the reverse map leading to the last place of each id |
| IdMap.IndexIDMap2.AddWithIds | include/faiss/IndexIDMap.cpp:304-315 | pairs are appended and the reverse map still leads to the last place of each id, duplicates included |
| IdMap.IndexIDMap2.MergeFrom | include/faiss/IndexIDMap.cpp:339-347 | the same for a merge; the other map ends empty |
| IdMap.IndexIDMap2.ConstructRevMap | include/faiss/IndexIDMap.cpp:349-355 | the reverse map is rebuilt from the ids |
| IdMap.IndexIDMap2.RemoveIds | include/faiss/IndexIDMap.cpp:357-363 | pairs are filtered by id and the reverse map fits the rest |
| IdMap.IndexIDMap2.Reconstruct | include/faiss/IndexIDMap.cpp:365-374 | the code of the last pair stored under the key, an exception when there is none |
| IdMap.LookupDistinct | include/faiss/IndexIDMap.cpp:365-374 | with distinct ids that is the one code stored under the key |
| IdMap.LookupWithout | include/faiss/IndexIDMap.cpp:357-374 | after a removal a removed key is not found and every other is found as before |
| IdMap.LookupJoined | include/faiss/IndexIDMap.cpp:304-374 | after an addition a key leads to its newest code |
| IdMap.IndexIDMap2.CheckConsistency | include/faiss/IndexIDMap.cpp:329-337 | the check succeeds exactly when no id occurs twice |

## Left out

- Inner-product search: heaps are the max-heaps of L2 search; the min-heap case mirrors it.
- Rounding, NaN and infinity of floats: reals stand for them, with a greatest element for empty heap places.
- Integer widths other than hash words and list numbers: ids, sizes and counters are unbounded, and an int that holds a list number or a query number is not cut to 32 bits.
- Loops over several queries, which only repeat the one-query search into separate rows, are modelled for the inverted-file search and the fast-scan search; elsewhere one query is modelled.
- Byte layout of binary vectors: a vector is a sequence of bits, so the eight-byte reads past the end of short vectors and unaligned reads are not modelled; the bits lost by the shift at an odd offset are.
- A hash of 64 bits (b == 64), whose mask takes a shift that is not defined in the source.
- An nflip above b: the enumerator would then shift by a negative number, so the searches require nflip <= b, which the source does not check.
- The counter n0 of single-hash search: it counts empty buckets, and a bucket is only ever made for a vector.
- IndexBinaryMultiHash::reset: it clears copies of the tables, so the table invariant is about runs of adds.
- SIMD kernels, code packing and look-up tables of fast-scan search: a kernel call is recorded by what it is given; lists hold codes, not packed blocks.
- Compression of coarse distances, selectors, list iterators, range search and the no-heap-initialisation flag of inverted-file search.
- Direct maps, including their different treatment of vectors without a list.
- Training, quantizers and encoders: assignments, payload codes and distances are given to the model.
- Suffix norms of level-by-level pruning are assumed to be the square roots they are meant to be: a non-negative number with the right square.
- Panorama.Refine: requires that the levels fit the vector; Panorama.LevelsInside states exactly when they do, and for other level counts the source reads out of bounds.
- TwoLayerCodec.EncodeBlock: requires the constructor's code size to be the number of bytes written; TwoLayerCodec.CodeSizesAgree states exactly when it is.
- TwoLayerCodec.SaDecode: stops at list number and payload; adding the decoded payload to the centroid is not modelled.
- ClusterRepair.SplitClusters: runs on a finite list of draws and reports when they run out, since the source's loop has no bound; ClusterRepair.RepairCondition says exactly when some draws end it.
- Clustering.ThreadStep: adds a whole row at once, not coordinate by coordinate.
- IvfSearch.SearchQueryByProbes: runs the scans of a thread and its merge together, since the scans of different threads touch different heaps.
- IvfSearch.SearchPreassigned: the probe count is taken after the source has cut it to the number of lists, and rows are meaningless after a failure.
- SlidingWindow.SlidingIndexWindow.Step: checks number of lists and code size; the other checks of check_compatible_for_merge (type, dimension, equal centroids) are not modelled.
- The strings that name combinations, timing, verbosity, statistics counters and interruption.
- Graph search and linking in the hierarchical graph: the model ends where a point is passed to insertion.
- IndexIDMap2 reset and add_sa_codes: neither updates the reverse map, so they are outside its invariant.
- IndexBinaryIVF counting search, MinimaxHeap and the other helpers whose code is not part of the repository: not part of this model.
- The Python tools: plumbing without a deep property.
