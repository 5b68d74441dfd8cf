# knncolle core, modelled in Dafny

This project models the exact k-nearest-neighbour searches of knncolle, a
C++ header library. It covers four index families, in both the current
interface and the older one:

- brute force;
- the vantage-point tree (VP tree);
- KMKNN, which uses k-means clusters and the triangle inequality;
- Annoy's self-removal step.

It also models the pieces these indexes share:

- the bounded neighbour queues: the current `NeighborQueue` and the older `utils/NeighborQueue`;
- the per-observation loop of `find_nearest_neighbors` and its capping of `k`;
- the reporting of all neighbours within a distance (`report_all_neighbors`);
- the simple and mock matrices that hand out observations one at a time.

Distances are real numbers given by a `Metric`. A metric pairs a raw
distance with a `normalize` map. `IsMetric` states the five
assumptions a search relies on:

- raw distances are non-negative (`NonNegative`);
- raw distances are symmetric (`Symmetric`);
- the raw distance from a vector to itself is zero (`ZeroOnSelf`);
- `normalize` is strictly increasing on non-negative values (`StrictlyMonotone`);
- normalized distances obey the triangle inequality (`Triangle`).

A query's candidates are the pairs (raw distance, index) of the stored
observations. "The k nearest" means the first `min(k, n)` candidates in
ascending (distance, index) order. `Bruteforce.NearestTo` defines this
once, and every other index is proved against it:

- the brute-force scan;
- the VP tree, whose pruning is justified by the triangle inequality;
- KMKNN, which passes over clusters and cells by the triangle inequality through each cluster's centre.

Each is shown to return exactly the brute-force answer. For the VP tree
this is brute force over the input rows. KMKNN stores its rows in a new
order, so its answer is brute force over the stored rows, mapped back to
observation indices through `observationId`. Among equal distances it
therefore breaks ties by stored position, not by observation index. The older queue keeps the first of several
candidates tied at its limit. The older indexes are therefore proved to
return a k-nearest selection: one that lists the same distances as the
brute-force answer.

Mutable objects are classes:

- the queues;
- the prebuilt indexes and searchers, and their builders;
- the matrix extractors and workspaces.

A class's methods state the whole new state. Pure computations are
functions with lemmas about them.

## Model

| member | source | states |
|---|---|---|
| Queue.NeighborQueue.constructor | include/knncolle/NeighborQueue.hpp:42 | a default queue is empty, not full, keeps one neighbour and has seen no candidate |
| Queue.NeighborQueue.Reset | include/knncolle/NeighborQueue.hpp:52-66 | demands k > 0; afterwards the queue is empty, not full, has capacity k and forgets every earlier candidate, so the queue invariant holds afresh |
| Queue.NeighborQueue.IsFull | include/knncolle/NeighborQueue.hpp:72-74 | the queue is full exactly when at least k candidates were added since the reset |
| Queue.NeighborQueue.Limit | include/knncolle/NeighborQueue.hpp:76-82 | on a full queue, the distance of the k-th nearest candidate: no kept candidate is further and no displaced candidate is closer |
| Queue.NeighborQueue.Size | include/knncolle/NeighborQueue.hpp:84-90 | the number held is min(k, candidates added), and k when full |
| Queue.NeighborQueue.Add | include/knncolle/NeighborQueue.hpp:100-107 | after any run of adds since a reset the queue holds, in ascending (distance, index) order, the min(k, n) smallest candidates added, so a tie keeps the lower index; once full it stays full and its furthest member never grows |
| Queue.PushedKeepsSmallest | include/knncolle/NeighborQueue.hpp:100-107 | one push (and pop when full) turns the k smallest of a bag into the k smallest of the bag plus the candidate, and is full exactly at capacity |
| Queue.LastPosOf | include/knncolle/NeighborQueue.hpp:126-129 | the first pair popped with index self is the last such pair in ascending order; no later pair has that index |
| Queue.WithoutSelfDropsOne | include/knncolle/NeighborQueue.hpp:125-159 | a self-excluding report lists size()-1 pairs: one pair with index self is removed when present, and otherwise the furthest pair |
| Queue.WithoutSelfSorted | include/knncolle/NeighborQueue.hpp:141-159 | the self-excluding report stays in ascending order |
| Queue.WithoutSelfExcludes | include/knncolle/NeighborQueue.hpp:128-129 | with distinct indices, self is absent from the report and the reported indices stay distinct |
| Queue.WithoutSelfWhenSelfFirst | include/knncolle/NeighborQueue.hpp:163-166 | when self is the closest candidate, the report is every other candidate in order |
| Queue.Resize | include/knncolle/NeighborQueue.hpp:193-198 | resizing keeps the first n entries and has length n |
| Queue.NeighborQueue.PopSkippingSelf | include/knncolle/NeighborQueue.hpp:125-139 | the popping loop lists the pairs furthest first, skipping only the first pair with index self, and says whether it found one; the queue ends empty |
| Queue.NeighborQueue.ReportInternalSelf | include/knncolle/NeighborQueue.hpp:110-160 | the requested outputs hold the indices and distances of the self-excluding report, aligned, in ascending order; the queue ends empty with its capacity and fullness unchanged |
| Queue.NeighborQueue.ReportSelf | include/knncolle/NeighborQueue.hpp:178-186 | only requested outputs are written; with neither output the queue is untouched, otherwise it is emptied into the self-excluding report |
| Queue.NeighborQueue.ReportInternal | include/knncolle/NeighborQueue.hpp:189-211 | the requested outputs hold all size() indices and distances held, aligned and in ascending order, and the queue ends empty |
| Queue.NeighborQueue.Report | include/knncolle/NeighborQueue.hpp:223-231 | only requested outputs are written; with neither output the queue is untouched, otherwise every neighbour is reported nearest first |
| LegacyQueue.CheckK | include/knncolle/utils/NeighborQueue.hpp:137-141 | the capacity is at least k, and zero only when k is zero with neither self removal nor tie detection |
| LegacyQueue.StartsFull | include/knncolle/utils/NeighborQueue.hpp:140 | base_setup marks the queue full exactly when its capacity is zero |
| LegacyQueue.NeighborQueue.constructor | include/knncolle/utils/NeighborQueue.hpp:32-35 | a query queue has no self-match, capacity k plus one for ties, holds nothing and starts full only at capacity zero |
| LegacyQueue.NeighborQueue.WithSelf | include/knncolle/utils/NeighborQueue.hpp:37-40 | a queue for observation s has capacity k + 1 plus one for ties, holds nothing and is not full |
| LegacyQueue.NeighborQueue.IsFull | include/knncolle/utils/NeighborQueue.hpp:55-57 | full exactly when at least check_k candidates were offered |
| LegacyQueue.NeighborQueue.Limit | include/knncolle/utils/NeighborQueue.hpp:59-61 | the distance of the furthest candidate held, no smaller than any held distance |
| LegacyQueue.NeighborQueue.Add | include/knncolle/utils/NeighborQueue.hpp:42-53 | a queue that is not full always takes the candidate and becomes full at check_k; a full one takes it only when strictly closer than the limit; the held candidates stay a check_k-nearest selection of all offered, and the limit never grows once full |
| LegacyQueue.NeighborQueue.Push | include/knncolle/utils/NeighborQueue.hpp:43-47 | the not-full branch keeps a k-nearest selection and sets full exactly at capacity |
| LegacyQueue.NeighborQueue.PushPop | include/knncolle/utils/NeighborQueue.hpp:48-51 | the full branch keeps a k-nearest selection of the same size and never raises the limit |
| LegacyQueue.OfferedInOrder | include/knncolle/utils/NeighborQueue.hpp:42-53 | when candidates arrive in increasing index order, the legacy queue keeps exactly the k lexicographically smallest (distance, index) pairs |
| LegacyQueue.OfferedRejectsTies | include/knncolle/utils/NeighborQueue.hpp:48 | a full queue rejects a candidate at a distance equal to or above its limit |
| LegacyQueue.OfferedDisplacesFurthest | include/knncolle/utils/NeighborQueue.hpp:48-51 | a strictly closer candidate replaces exactly the furthest member of a full queue |
| LegacyQueue.OfferedTighter | include/knncolle/utils/NeighborQueue.hpp:48-51 | the furthest distance of a full queue never grows |
| LegacyQueue.OfferedKeepsNearest | include/knncolle/utils/NeighborQueue.hpp:42-53 | add keeps the queue a k-nearest selection of everything offered, full exactly at capacity |
| LegacyQueue.NeighborQueue.Drain | include/knncolle/utils/NeighborQueue.hpp:72-87 | the draining loop pops every pair furthest first, skips the first self-match only in self mode, and collects distances whenever ties is set |
| LegacyQueue.Arrange | include/knncolle/utils/NeighborQueue.hpp:89-106 | reversal then, when self was not found, dropping the last entry |
| LegacyQueue.ArrangedIsReported | include/knncolle/utils/NeighborQueue.hpp:72-106 | the reversed and trimmed pops are exactly the held pairs in ascending order without the self-match, or without the furthest when self was absent |
| LegacyQueue.NeighborQueue.Report | include/knncolle/utils/NeighborQueue.hpp:63-129 | both outputs are cleared; an empty queue reports nothing and no ties; otherwise the outputs hold the ascending pairs without self (distances also when ties is set), trimmed to n_neighbors under tie detection, the tie flag is set exactly when the tie scan finds one, and the queue ends empty |
| LegacyQueue.ScanForTies | include/knncolle/utils/NeighborQueue.hpp:108-114 | the scan reports a tie exactly when some distance is no smaller than the next |
| LegacyQueue.TiesAreEqualDistances | include/knncolle/utils/NeighborQueue.hpp:108-114 | on ascending distances, a reported tie means two adjacent neighbours at exactly the same distance, and conversely |
| LegacyQueue.Trim | include/knncolle/utils/NeighborQueue.hpp:120-125 | with tie detection, the extra last entry is dropped only when there are more than n_neighbors entries |
| LegacyQueue.NeighborQueue.TrimTies | include/knncolle/utils/NeighborQueue.hpp:108-126 | scans the distances for ties and trims both outputs, only when ties is set |
| LegacyQueue.ReportedFits | include/knncolle/utils/NeighborQueue.hpp:63-129 | what a valid queue reports is sorted and, after trimming, at most k long |
| LegacyQueue.WithoutSelfDistances | include/knncolle/utils/NeighborQueue.hpp:72-79 | when self is the closest candidate, removing the self-match lists the same distances as dropping the first entry, even among ties |
| ReportAll.CountWithoutSelf | include/knncolle/report_all_neighbors.hpp:22-25 | count - 1 for a positive count, 0 for zero |
| ReportAll.WithoutIndexMembers | include/knncolle/report_all_neighbors.hpp:46-55 | the filtered list holds exactly the entries whose index differs from self |
| ReportAll.WithoutIndexSorted | include/knncolle/report_all_neighbors.hpp:46-55 | filtering keeps ascending order |
| ReportAll.WithoutIndexAbsent | include/knncolle/report_all_neighbors.hpp:46-55 | when self is absent nothing is filtered out |
| ReportAll.WithoutIndexDropsOne | include/knncolle/report_all_neighbors.hpp:46-55 | when self occurs once, exactly that entry goes and the length is the count without self |
| ReportAll.ReportAllRawSelf | include/knncolle/report_all_neighbors.hpp:32-56 | the input is sorted (ascending and a permutation), and the requested outputs hold the aligned indices and distances of the sorted entries whose index is not self, in order |
| ReportAll.ReportAllRaw | include/knncolle/report_all_neighbors.hpp:58-80 | the input is sorted (ascending and a permutation), and the requested outputs hold every sorted entry, aligned, with the input's length |
| ReportAll.ReportAllNeighborsSelf | include/knncolle/report_all_neighbors.hpp:105-114 | with neither output nothing is written and the input is not sorted; otherwise it is sorted and each requested output holds the sorted entries without self |
| ReportAll.ReportAllNeighbors | include/knncolle/report_all_neighbors.hpp:132-141 | with neither output nothing is written and the input is not sorted; otherwise it is sorted and each requested output holds every sorted entry |
| ReportAll.ReportedWithoutSelf | include/knncolle/report_all_neighbors.hpp:87-104 | over distinct indices, the self-excluding report is sorted, never lists self, has count - 1 entries when self was in range and is the whole list otherwise |
| FindNN.CapK | include/knncolle/find_nearest_neighbors.hpp:59-79 | never more than k, always less than a non-empty dataset's size, and equal to k, to n - 1 or (for an empty dataset) to 0 |
| FindNN.CapKIsLargest | include/knncolle/find_nearest_neighbors.hpp:65-79 | on a non-empty dataset the capped count is min(k, n - 1), the largest count the dataset supports |
| FindNN.CapKQuery | include/knncolle/find_nearest_neighbors.hpp:81-94 | the smaller of k and the number of observations |
| FindNN.Zip | include/knncolle/find_nearest_neighbors.hpp:127-131 | one (index, distance) pair per reported index, position by position |
| FindNN.FindNearestNeighbors | include/knncolle/find_nearest_neighbors.hpp:115-136 | one entry per observation; entry i pairs up the outputs of search(i, cap_k(k, nobs)) |
| FindNN.FindNearestNeighborsIndexOnly | include/knncolle/find_nearest_neighbors.hpp:157-171 | one entry per observation; entry i is the index output of search(i, cap_k(k, nobs)) |
| FindNN.IndexOnlyIsFirsts | include/knncolle/find_nearest_neighbors.hpp:138-171 | the index-only list equals the first components of the full neighbour list |
| Annoy.FirstPos | include/knncolle/Annoy/Annoy.hpp:97-105 | the first position holding self, or -1 when self is absent |
| Annoy.PurgeSelf | include/knncolle/Annoy/Annoy.hpp:94-118 | erases the first occurrence of self from the indices, and the same position from the distances when present; pops the last entry of both when self is absent |
| Annoy.PurgedProperties | include/knncolle/Annoy/Annoy.hpp:94-118 | purging removes one entry: one occurrence of self when present, otherwise the last entry |
| Annoy.PurgedOrder | include/knncolle/Annoy/Annoy.hpp:97-105 | the remaining entries keep their relative order |
| Annoy.PurgedDropsSelf | include/knncolle/Annoy/Annoy.hpp:94-106 | when self occurs exactly once it is gone after purging |
| Annoy.FindNearestNeighborsIndex | include/knncolle/Annoy/Annoy.hpp:52-68 | the outputs are cleared, k + 1 neighbours of the item are requested and self is purged from the requested outputs, with a temporary index vector when indices are not wanted |
| Annoy.IndexSearchLength | include/knncolle/Annoy/Annoy.hpp:52-68 | an index search returns one neighbour fewer than were found, indices and distances alike |
| Annoy.FindNearestNeighborsQuery | include/knncolle/Annoy/Annoy.hpp:70-83 | the outputs are cleared and receive Annoy's k neighbours of the query vector, unpurged |
| Matrix.SimpleMatrixExtractor.constructor | include/knncolle/Matrix.hpp:107-112 | a new extractor over the given data and dimension starts at observation 0 |
| Matrix.SimpleMatrixExtractor.Next | include/knncolle/Matrix.hpp:115-117 | returns the offset at * dim of the current observation and moves on by exactly one, so the n-th call yields observation n - 1 |
| Matrix.SimpleMatrix.constructor | include/knncolle/Matrix.hpp:141-142 | stores the dimension, the observation count and the data |
| Matrix.SimpleMatrix.NumObservations | include/knncolle/Matrix.hpp:150-152 | the observation count given at construction |
| Matrix.SimpleMatrix.NumDimensions | include/knncolle/Matrix.hpp:154-156 | the dimension given at construction |
| Matrix.SimpleMatrix.NewKnownExtractor | include/knncolle/Matrix.hpp:165-167 | a fresh extractor over the same data and dimension, positioned at the first observation |
| Mock.Workspace.constructor | include/knncolle/MockMatrix.hpp:75-83 | a workspace starts at observation 0 |
| Mock.MockMatrix.constructor | include/knncolle/MockMatrix.hpp:22 | stores the dimension, the count and the data; the widened dimension equals the dimension |
| Mock.MockMatrix.NumObservations | include/knncolle/MockMatrix.hpp:56-58 | the count given at construction |
| Mock.MockMatrix.NumDimensions | include/knncolle/MockMatrix.hpp:63-65 | the dimension given at construction |
| Mock.MockMatrix.CreateWorkspace | include/knncolle/MockMatrix.hpp:88-90 | a fresh workspace at observation 0 |
| Mock.MockMatrix.GetObservation | include/knncolle/MockMatrix.hpp:92-102 | returns the offset of the workspace's current observation and advances the workspace by one, so successive calls yield consecutive observations from the first |
| Mock.SimpleMatrix.constructor | include/knncolle/MockMatrix.hpp:124-125 | stores the dimension, the count and the data; the widened dimension equals the dimension |
| Mock.SimpleMatrix.NumObservations | include/knncolle/MockMatrix.hpp:148-150 | the count given at construction |
| Mock.SimpleMatrix.NumDimensions | include/knncolle/MockMatrix.hpp:152-154 | the dimension given at construction |
| Mock.SimpleMatrix.CreateWorkspace | include/knncolle/MockMatrix.hpp:156-158 | a fresh workspace at observation 0 |
| Mock.SimpleMatrix.GetObservation | include/knncolle/MockMatrix.hpp:160-162 | returns the offset of the current observation and advances the workspace by one |
| Bruteforce.NearestToFacts | include/knncolle/Bruteforce.hpp:62-69 | the candidates a full scan keeps are in ascending order, have distinct indices and non-negative distances |
| Bruteforce.IndexResultProperties | include/knncolle/Bruteforce.hpp:79-85 | a search by index reports min(k, n - 1) neighbours, never the observation itself, no index twice, all in range, by non-decreasing distance |
| Bruteforce.SelfNearestFirst | include/knncolle/Bruteforce.hpp:87-92 | when no other observation is at distance zero, observation i heads the candidates nearest to its own row, at distance zero |
| Bruteforce.SelfQueryFirst | include/knncolle/Bruteforce.hpp:79-92 | querying with observation i's own row and k + 1 gives i first at the normalized zero distance, followed by exactly the search-by-index result |
| Bruteforce.LeastHeadsSort | include/knncolle/Bruteforce.hpp:87-92 | a candidate strictly closer than all others comes first in the sorted order |
| Bruteforce.NeighborListEntry | include/knncolle/find_nearest_neighbors.hpp:111-132 | an entry of a neighbour list over the brute-force index has min(k, n - 1) neighbours and never lists its own observation |
| Bruteforce.Zipped | include/knncolle/Bruteforce.hpp:83 | one (index, distance) pair per queue entry, position by position |
| Bruteforce.BruteforcePrebuilt.constructor | include/knncolle/Bruteforce.hpp:50-51 | stores the dimension, the observation count and the data |
| Bruteforce.BruteforcePrebuilt.NumDimensions | include/knncolle/Bruteforce.hpp:54-56 | the dimension given at construction |
| Bruteforce.BruteforcePrebuilt.NumObservations | include/knncolle/Bruteforce.hpp:58-60 | the observation count given at construction |
| Bruteforce.BruteforcePrebuilt.Scan | include/knncolle/Bruteforce.hpp:63-69 | every observation is offered to the queue exactly once, with its raw distance to the query, and the queue invariant is kept |
| Bruteforce.BruteforcePrebuilt.Normalize | include/knncolle/Bruteforce.hpp:71-76 | only the distances are rewritten by normalize; indices, length and order stay |
| Bruteforce.BruteforcePrebuilt.SearchIndex | include/knncolle/Bruteforce.hpp:79-85 | with a queue of k + 1 and the self-excluding report, the output is the k + 1 nearest to observation i less i itself, normalized, which IndexResultProperties characterises |
| Bruteforce.BruteforcePrebuilt.SearchQuery | include/knncolle/Bruteforce.hpp:87-92 | with a queue of k and the plain report, the output is the min(k, n) nearest to the query, ascending by (distance, index), normalized |
| Bruteforce.BruteforceBuilder.constructor | include/knncolle/Bruteforce.hpp:107-108 | a builder keeps its distance |
| Bruteforce.BruteforceBuilder.CopyObservations | include/knncolle/Bruteforce.hpp:117-124 | the o-th observation handed out goes to [o * ndim, (o + 1) * ndim), so the store is the first ndim * nobs values of the matrix |
| Bruteforce.BruteforceBuilder.BuildRaw | include/knncolle/Bruteforce.hpp:110-127 | the built index has the matrix's dimension and count and a copy of its data |
| LegacyBruteforce.BruteForce.constructor | include/knncolle/BruteForce/BruteForce.hpp:56-57 | stores exactly the first ndim * nobs input values |
| LegacyBruteforce.BruteForce.Nobs | include/knncolle/BruteForce/BruteForce.hpp:40 | the observation count given at construction |
| LegacyBruteforce.BruteForce.Ndim | include/knncolle/BruteForce/BruteForce.hpp:42 | the dimension given at construction |
| LegacyBruteforce.BruteForce.Observation | include/knncolle/BruteForce/BruteForce.hpp:76-84 | row index of the stored data, which is the input row |
| LegacyBruteforce.BruteForce.SearchNn | include/knncolle/BruteForce/BruteForce.hpp:89-96 | every observation is offered once, in index order; a queue that starts empty ends with the k smallest (distance, index) pairs, the legacy queue's tie refusal notwithstanding |
| LegacyBruteforce.OfferedNext | include/knncolle/BruteForce/BruteForce.hpp:92-94 | the next candidate has a larger index than all before it, so offering it keeps the k smallest |
| LegacyBruteforce.KeptIsNearestTo | include/knncolle/BruteForce/BruteForce.hpp:89-96 | the k smallest of all candidates are the head of their sorted order, non-empty when some are wanted and there are any |
| LegacyBruteforce.BruteForce.Normalize | include/knncolle/BruteForce/BruteForce.hpp:98-103 | only the distances are rewritten by normalize; indices, length and order stay |
| LegacyBruteforce.BruteForce.FindNearestNeighborsIndex | include/knncolle/BruteForce/BruteForce.hpp:59-66 | with a self-removing queue for index, the result is exactly the newer brute-force search by index |
| LegacyBruteforce.IndexOutput | include/knncolle/BruteForce/BruteForce.hpp:59-66 | the normalized report of the k + 1 nearest to observation i, without i, is the brute-force index result |
| LegacyBruteforce.BruteForce.FindNearestNeighborsQuery | include/knncolle/BruteForce/BruteForce.hpp:68-74 | with a plain queue of k, the result is exactly the newer brute-force search by query |
| Vptree.VptreePrebuilt.constructor | include/knncolle/Vptree.hpp:215-276 | builds one tree over all observations, every observation at exactly one node, then moves the stored rows into node order and records each observation's node in new_locations; without observations nothing is built |
| Vptree.VptreePrebuilt.Build | include/knncolle/Vptree.hpp:153-209 | appends exactly upper - lower nodes and returns the position of the new root, which is the node count before the call; items is only rearranged within [lower, upper), and the new positions form a tree over exactly those items |
| Vptree.VptreePrebuilt.Split | include/knncolle/Vptree.hpp:164-193 | the median is lower + gap / 2; items stays a rearrangement of [lower, upper); the vantage point sits at lower, items before the median are no further from it than the median item, which is no further than the items after it |
| Vptree.VptreePrebuilt.BuildChildren | include/knncolle/Vptree.hpp:195-198 | the left child is built only when lower + 1 < median, and the node roots a tree over [lower, upper) once both sides are built |
| Vptree.VptreePrebuilt.BuildRight | include/knncolle/Vptree.hpp:199-201 | the right child over [median, upper) is always built for a split node |
| VpShape.BuiltLeaf | include/knncolle/Vptree.hpp:203-206 | a single item makes a childless node holding that item's observation |
| VpShape.BuiltNode | include/knncolle/Vptree.hpp:160-201 | a node whose children hold [lower + 1, median) and [median, upper), split at the median observation, roots the subtree of [lower, upper); children come after their parent and position 0 is nobody's child |
| VpShape.PartitionFacts | include/knncolle/Vptree.hpp:187-193 | a nth_element partition, even one comparing distances only, rearranges the segment and leaves every item before the median inside the ball and every item from it on outside |
| VpShape.NthElementExists | include/knncolle/Vptree.hpp:190 | a partition around the median always exists, so the arbitrary choice standing for nth_element can be made |
| Permute.PermuteRows | include/knncolle/Vptree.hpp:239-274 | the cycle-following reorder leaves row o holding original row sigma[o] and makes new_locations the inverse of sigma |
| Permute.FollowCycle | include/knncolle/Vptree.hpp:257-273 | following one cycle from o copies each row to its destination, marks the cycle used and records its new locations, ending at the position whose row is o's saved row |
| Permute.PermutationFacts | include/knncolle/Vptree.hpp:246-274 | the entries of a permutation are in range and pairwise different |
| Vptree.VptreePrebuilt.LocationOf | include/knncolle/Vptree.hpp:250-267 | observation i sits at position new_locations[i], so the row stored there is its own |
| Vptree.VptreePrebuilt.RowAt | include/knncolle/Vptree.hpp:280-284 | the row stored at position q is the observation of the node there |
| Vptree.VptreePrebuilt.SearchNn | include/knncolle/Vptree.hpp:279-310 | the node is offered when within max_dist, which becomes the queue's limit once full; the children are searched after it; the queue invariant is kept and no candidate of the subtree within the final bound is missed |
| Vptree.VptreePrebuilt.SearchChildren | include/knncolle/Vptree.hpp:292-309 | the child on the target's side of the ball is searched first, then the other, and together they explore the node's subtrees |
| Vptree.VptreePrebuilt.SearchLeft | include/knncolle/Vptree.hpp:293-308 | the left subtree is searched unless it is missing or the ball lies wholly beyond the bound, so nothing within the bound is skipped |
| Vptree.VptreePrebuilt.SearchRight | include/knncolle/Vptree.hpp:297-304 | the right subtree is searched unless it is missing or the target lies too deep inside the ball |
| VpShape.PruneLeft | include/knncolle/Vptree.hpp:293 | by the triangle inequality, once dist - max_dist exceeds the radius every observation of the left subtree is beyond the bound |
| VpShape.PruneRight | include/knncolle/Vptree.hpp:297 | once dist + max_dist is below the radius every observation of the right subtree is beyond the bound |
| Vptree.ExploredIsNearest | include/knncolle/Vptree.hpp:279-310 | for a true metric, a search of the whole tree started without a bound leaves exactly the k nearest observations in the queue |
| Vptree.VptreePrebuilt.SearchedIsNearest | include/knncolle/Vptree.hpp:43-66 | a whole-tree search from the root on a fresh queue leaves the k nearest observations in it |
| Vptree.VptreePrebuilt.SearchAll | include/knncolle/Vptree.hpp:312-345 | the node is counted or listed when within the threshold, its children are searched as in search_nn, and what it gathers is only observations within the threshold |
| Vptree.VptreePrebuilt.SearchAllChildren | include/knncolle/Vptree.hpp:327-344 | the child on the target's side of the ball is searched first, then the other; the two searches together gather exactly the in-threshold observations of both subtrees, as counts or as appended pairs |
| Vptree.VptreePrebuilt.SearchAllLeft | include/knncolle/Vptree.hpp:328-330 | the left child is searched unless it is missing or the ball lies wholly beyond the threshold; what it gathers is only observations of the left subtree within the threshold |
| Vptree.VptreePrebuilt.SearchAllRight | include/knncolle/Vptree.hpp:332-334 | the right child is searched unless it is missing or the target lies too deep inside the ball; what it gathers is only observations of the right subtree within the threshold |
| Vptree.VptreePrebuilt.GatherNode | include/knncolle/Vptree.hpp:313-325 | the node itself is counted or appended exactly when its normalized distance is within the threshold |
| Vptree.GatheredIsInRange | include/knncolle/Vptree.hpp:312-345 | a range search of the whole tree gathers only observations within the threshold, and for a true metric every one of them |
| Vptree.VptreeSearcher.constructor | include/knncolle/Vptree.hpp:35-40 | a searcher over its parent with a fresh default queue and an empty hit buffer |
| Vptree.VptreeSearcher.SearchIndex | include/knncolle/Vptree.hpp:43-49 | resets the queue to k + 1, searches from the row of observation i and reports without i; for a true metric the outputs are the k + 1 nearest to observation i less i (or less the furthest) |
| Vptree.VptreeSearcher.SearchQuery | include/knncolle/Vptree.hpp:51-68 | with k == 0 or no nodes the requested outputs are cleared without searching; otherwise for a true metric they hold the min(k, n) nearest observations in order |
| Vptree.VptreeSearcher.SearchAllIndex | include/knncolle/Vptree.hpp:74-88 | without outputs only counts; otherwise collects, sorts and reports the hits less i; for a true metric the count is the in-range count minus self and the outputs are the in-range observations other than i |
| Vptree.VptreeSearcher.SearchAllQuery | include/knncolle/Vptree.hpp:90-108 | on an empty tree the buffer is cleared, the outputs are empty and the count is 0; otherwise for a true metric the count and outputs are the in-range observations |
| Vptree.QueryMatchesBruteforce | include/knncolle/Vptree.hpp:51-68 | for a true metric, a query search of the tree reports exactly what the brute-force index reports |
| Vptree.IndexMatchesBruteforce | include/knncolle/Vptree.hpp:43-49 | for a true metric, a search by observation reports exactly what the brute-force index reports |
| Vptree.VptreeBuilder.constructor | include/knncolle/Vptree.hpp:406 | a builder keeps its metric |
| Vptree.VptreeBuilder.CopyObservations | include/knncolle/Vptree.hpp:425-428 | the o-th extracted observation goes to [o * ndim, (o + 1) * ndim), so the store is the matrix's first ndim * nobs values |
| Vptree.VptreeBuilder.BuildKnownRaw | include/knncolle/Vptree.hpp:420-431 | a fresh, valid tree over a copy of the matrix, with its dimension and count |
| LegacyVpTree.VpTree.constructor | include/knncolle/VpTree/VpTree.hpp:145-167 | builds one tree over the first nobs input rows, every observation at exactly one node, fills the store in node order and records each observation's node in new_location |
| LegacyVpTree.VpTree.Build | include/knncolle/VpTree/VpTree.hpp:78-130 | an empty range returns LEAF_MARKER and appends nothing; otherwise exactly upper - lower nodes are appended, the returned position is the node count before the call, and they form a tree over the items [lower, upper), which are only rearranged within that range |
| LegacyVpTree.VpTree.Split | include/knncolle/VpTree/VpTree.hpp:88-119 | the median is lower + gap / 2; items before it are no further from the vantage point at lower than the median item, which is no further than the items after it |
| LegacyVpTree.VpTree.BuildChildren | include/knncolle/VpTree/VpTree.hpp:122-123 | the left subtree is built from [lower + 1, median), a missing child when empty |
| LegacyVpTree.VpTree.BuildRight | include/knncolle/VpTree/VpTree.hpp:124 | the right subtree is built from [median, upper) |
| LegacyVpTree.VpTree.FillStore | include/knncolle/VpTree/VpTree.hpp:157-165 | store row i is the input row of node i, and new_location of that observation is i |
| LegacyVpTree.VpTree.Nobs | include/knncolle/VpTree/VpTree.hpp:59 | the observation count given at construction |
| LegacyVpTree.VpTree.Ndim | include/knncolle/VpTree/VpTree.hpp:61 | the dimension given at construction |
| LegacyVpTree.VpTree.LocationOf | include/knncolle/VpTree/VpTree.hpp:160-165 | observation i sits at position new_location[i], whose stored row is its own |
| LegacyVpTree.VpTree.Observation | include/knncolle/VpTree/VpTree.hpp:183-191 | the original input row index |
| LegacyVpTree.VpTree.SearchNn | include/knncolle/VpTree/VpTree.hpp:196-234 | nothing happens at LEAF_MARKER; otherwise the node is added only when strictly within tau, tau becomes the limit once the queue is full, and unless both children are missing they are searched; the queue invariant is kept and nothing strictly within the final tau is missed |
| LegacyVpTree.Offer | include/knncolle/VpTree/VpTree.hpp:206-212 | a node strictly within tau is added, otherwise nothing is; tau becomes the limit of a full queue and never grows |
| LegacyVpTree.VpTree.SearchChildren | include/knncolle/VpTree/VpTree.hpp:219-233 | the left child first when the target is strictly inside the radius, the right child first otherwise; together they explore the node's subtrees |
| LegacyVpTree.VpTree.SearchChildrenAfter | include/knncolle/VpTree/VpTree.hpp:214-238 | a node with both children missing ends the visit; otherwise its children are searched, and the node with its subtrees is explored with the queue invariant kept |
| LegacyVpTree.VpTree.SearchInside | include/knncolle/VpTree/VpTree.hpp:220-227 | inside the ball, the left child is searched and then the right, and together they explore the node's subtrees |
| LegacyVpTree.VpTree.SearchRightAfter | include/knncolle/VpTree/VpTree.hpp:225-227 | the right child searched after the left extends the explored range to the whole of both subtrees |
| LegacyVpTree.VpTree.SearchOutside | include/knncolle/VpTree/VpTree.hpp:230-237 | on or outside the ball, the right child is searched and then the left, and together they explore the node's subtrees |
| LegacyVpTree.VpTree.SearchLeftAfter | include/knncolle/VpTree/VpTree.hpp:235-237 | the left child searched after the right extends the explored range to the whole of both subtrees |
| LegacyVpTree.VpTree.SearchLeft | include/knncolle/VpTree/VpTree.hpp:221-223 | the left subtree is searched unless the ball lies wholly beyond tau |
| LegacyVpTree.VpTree.SearchRight | include/knncolle/VpTree/VpTree.hpp:225-227 | the right subtree is searched unless the target lies too deep inside the ball |
| LegacyVpTree.VpTree.SearchFromRoot | include/knncolle/VpTree/VpTree.hpp:169-181 | a search from the root with tau at its largest leaves, for a true metric, a k-nearest selection of all observations in a queue that started empty |
| LegacyVpTree.ExploredIsKNearest | include/knncolle/VpTree/VpTree.hpp:196-234 | every candidate the search did not add lies on or beyond the final tau, so the queue is a k-nearest selection of all observations |
| LegacyVpTree.VpTree.FindNearestNeighborsIndex | include/knncolle/VpTree/VpTree.hpp:169-174 | searches from the stored copy of row index with a queue that removes index; for a true metric the result is a k + 1 nearest selection less index |
| LegacyVpTree.VpTree.FindNearestNeighborsQuery | include/knncolle/VpTree/VpTree.hpp:176-181 | for a true metric the result is the pairs of a k-nearest selection of all observations |
| LegacyVpTree.QueryMatchesBruteforce | include/knncolle/VpTree/VpTree.hpp:176-181 | for a true metric any query result has the brute-force length min(k, n) and lists exactly the brute-force distances, whichever of several tied candidates it kept |
| LegacyVpTree.IndexMatchesBruteforce | include/knncolle/VpTree/VpTree.hpp:169-174 | for a true metric any search by observation has the brute-force length and lists exactly the brute-force distances |
| LegacyVpTree.SelectionWithoutSelf | include/knncolle/VpTree/VpTree.hpp:169-174 | any k + 1 nearest selection around observation i, without i, lists the distances of the exact selection without i |
| LegacyVpTree.SelfIsClosest | include/knncolle/VpTree/VpTree.hpp:169-172 | for a true metric, observation i is at the least distance from its own row, and it is the only pair with index i |
| Kmknn.Translated | include/knncolle/Kmknn.hpp:307-312 | a result over stored positions, with each position replaced by the observation stored there and its distance unchanged, in the same order |
| Kmknn.KmknnPrebuilt.constructor | include/knncolle/Kmknn.hpp:106-230 | from a k-means result whose sizes count the assignments: only the non-empty clusters survive, in order, with their centres; their segments tile the store; the stored rows are the input rows permuted by observationId, which newLocation inverts; every stored position carries its row's distance to its cluster's centre, ascending in each segment; every observation lands in the segment of its (relabelled) cluster |
| Kmknn.KmknnPrebuilt.NumObservations | include/knncolle/Kmknn.hpp:81-83 | the number of observations given at construction |
| Kmknn.KmknnPrebuilt.NumDimensions | include/knncolle/Kmknn.hpp:85-87 | the number of dimensions given at construction |
| Kmknn.KmknnPrebuilt.LocationOf | include/knncolle/Kmknn.hpp:199-201 | observation i is stored at newLocation[i], observationId maps that position back to i, and the row stored there is observation i's input row |
| Kmknn.KmknnPrebuilt.CenterOrder | include/knncolle/Kmknn.hpp:239-247 | the raw distances from the target to every surviving centre, paired with the cluster and sorted ascending |
| Kmknn.CenterOrderFacts | include/knncolle/Kmknn.hpp:239-247 | the centre order lists every cluster exactly once, each with its raw distance from the target |
| Kmknn.KmknnPrebuilt.Pruned | include/knncolle/Kmknn.hpp:267-276 | for a true metric, stored rows closer to their centre than dist2center minus the normalized threshold are strictly further than the threshold from the target (triangle inequality) |
| Kmknn.KmknnPrebuilt.SkipCells | include/knncolle/Kmknn.hpp:271-276 | passing over such positions keeps the search's bookkeeping: every handled position was either offered or lies beyond the threshold of a full queue |
| Kmknn.KmknnPrebuilt.FirstCell | include/knncolle/Kmknn.hpp:255-276 | with a threshold in force, the scan starts at a cell in [0, size] such that every cell before it may be passed over without losing a neighbour; the whole cluster is passed over when its furthest cell is below dist2center - threshold |
| Kmknn.KmknnPrebuilt.ScanCluster | include/knncolle/Kmknn.hpp:251-303 | one cluster of the search: the queue keeps its capacity and invariant, the threshold stays the queue's limit once full (-1 before), every position of the segment becomes handled and nothing of it is lost |
| Kmknn.KmknnPrebuilt.ScanFrom | include/knncolle/Kmknn.hpp:286-303 | the cell loop: every position from the first cell to the end of the segment is offered in turn, and the threshold follows the queue's limit |
| Kmknn.KmknnPrebuilt.OfferCell | include/knncolle/Kmknn.hpp:295-302 | one cell: its raw distance to the target is offered under its store position, and the threshold becomes the queue's limit when the queue is full |
| Kmknn.KmknnPrebuilt.SearchNn | include/knncolle/Kmknn.hpp:233-305 | the queue is only offered candidates of the store, holds something whenever the store does, and for a true metric ends up holding exactly the brute-force nearest neighbours of the target over the stored rows |
| Kmknn.SearchFinish | include/knncolle/Kmknn.hpp:251-305 | once every position is handled, only candidates were offered and for a true metric the queue holds the first min(k, n) of the sorted candidates |
| Kmknn.KmknnPrebuilt.Normalize | include/knncolle/Kmknn.hpp:307-312 | each reported position becomes the observation stored there and each distance is normalized, in the same order and with the same length |
| Kmknn.KmknnPrebuilt.SearchIndex | include/knncolle/Kmknn.hpp:315-322 | every reported index is an observation, and for a true metric the result is the brute-force index search from observation i's stored row (k nearest without itself), mapped back to observations |
| Kmknn.KmknnPrebuilt.SearchQuery | include/knncolle/Kmknn.hpp:324-329 | every reported index is an observation, and for a true metric the result is the brute-force query search over the stored rows, mapped back to observations |
| Kmknn.KmknnBuilder.constructor | include/knncolle/Kmknn.hpp:360-366 | the builder keeps the distance it was given |
| Kmknn.KmknnBuilder.BuildRaw | include/knncolle/Kmknn.hpp:369-384 | the built index is valid, uses the builder's distance and is built over a copy of exactly the matrix's observations |
| Kmknn.RemoveEmptyClusters | include/knncolle/Kmknn.hpp:128-153 | the surviving clusters are the non-empty ones in their original order, with their centres and sizes; every observation's new label names the survivor of its old cluster, and the new sizes count the new labels |
| KmBuild.CompactClusters | include/knncolle/Kmknn.hpp:130-144 | the compaction loop moves the surviving centres to the front in order, records each survivor's new slot in remap, and leaves the sizes with the survivors first, padded with zeros to full length |
| KmBuild.Relabel | include/knncolle/Kmknn.hpp:146-149 | every assignment is replaced by its remapped slot |
| KmBuild.RelabelCounts | include/knncolle/Kmknn.hpp:140-149 | relabelling through remap sends each observation to the slot of its old cluster, and the surviving sizes count the new labels |
| KmShape.SurvivorsFacts | include/knncolle/Kmknn.hpp:133-143 | the surviving clusters are strictly increasing and every non-empty cluster is among them |
| KmShape.CompactedSizes | include/knncolle/Kmknn.hpp:130-141 | the sizes left by compaction keep the full length of the k-means sizes |
| KmBuild.Offsets | include/knncolle/Kmknn.hpp:155-158 | each cluster's offset is the sum of the sizes of the clusters before it, the first being 0 |
| Kmknn.SizesTile | include/knncolle/Kmknn.hpp:155-158 | with sizes counting the assignments, the segments laid out by those offsets tile the n positions of the store |
| KmBuild.Bucket | include/knncolle/Kmknn.hpp:161-176 | every observation is written, with its distance to its cluster's centre, to a distinct position of its cluster's segment, so the written observations are a permutation |
| KmBuild.SortSegments | include/knncolle/Kmknn.hpp:178-181 | each segment ends up sorted while every entry stays in its cluster's segment with its distance |
| Kmknn.LayoutDistances | include/knncolle/Kmknn.hpp:185-227 | after permuting the rows, every position of a segment carries the distance from the row now stored there to that segment's centre |
| Kmknn.LayoutAscending | include/knncolle/Kmknn.hpp:178-181 | the distances to the centre ascend within every segment |
| Kmknn.LayoutLocations | include/knncolle/Kmknn.hpp:199-201 | every observation's new location lies in the segment of its cluster |
| Kmknn.LocationsInverse | include/knncolle/Kmknn.hpp:199-219 | newLocation and observationId undo each other in both directions |
| KmShape.InversePermutation | include/knncolle/Kmknn.hpp:199-219 | two maps that undo each other on [0, n) are permutations |
| KmSearch.LowerBound | include/knncolle/Kmknn.hpp:276 | the first position of the range whose value is not below v (or the end), with every earlier value below v |
| KmSearch.DealtAdd | include/knncolle/Kmknn.hpp:295-302 | offering a position's candidate keeps the bookkeeping while the threshold can only come down |
| KmSearch.DealtSkip | include/knncolle/Kmknn.hpp:271-276 | passing over positions whose candidates lie beyond the threshold of a full queue keeps the bookkeeping |
| KmSearch.PruneCell | include/knncolle/Kmknn.hpp:267-272 | for a true metric, a row closer to the centre than the target's distance to it less the threshold is further than the threshold from the target |
| KmSearch.DealtIsNearest | include/knncolle/Kmknn.hpp:249-305 | once every position is handled, a queue keeping the k smallest of what it was offered holds the first min(k, n) sorted candidates overall |
| LegacyKmknn.Kmknn.constructor | include/knncolle/Kmknn/Kmknn.hpp:89-163 | keeps every cluster k-means reports (empty ones included) with the leading centres; the segments tile the store, rows are copied into segment order with observationId and newLocation inverse, distances to the centre ascend within each segment, and every observation lands in its cluster's segment |
| LegacyKmknn.CopyOver | include/knncolle/Kmknn/Kmknn.hpp:149-160 | position o gets the input row of the observation bucketed there and records that observation and its distance; newLocation sends each observation to its position |
| LegacyKmknn.Kmknn.LocationOf | include/knncolle/Kmknn/Kmknn.hpp:156-157 | observation i is stored at newLocation[i], which observationId maps back to i, and the row stored there is its input row |
| LegacyKmknn.Kmknn.Observation | include/knncolle/Kmknn/Kmknn.hpp:177-185 | the row returned for an observation is exactly the row it was given |
| LegacyKmknn.Kmknn.CenterOrder | include/knncolle/Kmknn/Kmknn.hpp:196-202 | the raw distances from the target to every centre, paired with the cluster and sorted ascending |
| LegacyKmknn.Kmknn.SkipCells | include/knncolle/Kmknn/Kmknn.hpp:219-230 | passing over positions closer to their centre than dist2center minus the threshold keeps the search's bookkeeping |
| LegacyKmknn.Kmknn.FirstCell | include/knncolle/Kmknn/Kmknn.hpp:210-230 | on a non-empty cluster with a threshold in force, the scan starts at a cell in [0, size] such that every cell before it may be passed over |
| LegacyKmknn.Kmknn.ScanCluster | include/knncolle/Kmknn/Kmknn.hpp:206-255 | one cluster: the queue keeps its invariant, the threshold stays its limit once full, and every position of the segment becomes handled without losing a neighbour |
| LegacyKmknn.Kmknn.ScanFrom | include/knncolle/Kmknn/Kmknn.hpp:239-255 | the cell loop offers every position from the first cell to the end of the segment |
| LegacyKmknn.Kmknn.OfferCell | include/knncolle/Kmknn/Kmknn.hpp:247-254 | one cell is offered with its raw distance, and the threshold becomes the queue's limit once full |
| LegacyKmknn.Kmknn.SearchNn | include/knncolle/Kmknn/Kmknn.hpp:191-257 | only store candidates are offered, and for a true metric the queue ends up holding a k-nearest selection of all of them (up to ties) |
| LegacyKmknn.SearchFinish | include/knncolle/Kmknn/Kmknn.hpp:206-257 | once every position is handled, only candidates were offered and for a true metric every candidate not kept lies beyond the final limit |
| LegacyKmknn.KeptIndices | include/knncolle/Kmknn/Kmknn.hpp:261-263 | the positions the queue reports are positions of the store, so mapping them through observationId is defined |
| LegacyKmknn.Kmknn.Report | include/knncolle/Kmknn/Kmknn.hpp:259-267 | drains the queue; the output is the queue's report (self-match removed, or the furthest dropped) with positions mapped to observations and distances normalized, empty for an empty queue |
| LegacyKmknn.Kmknn.FindNearestNeighborsIndex | include/knncolle/Kmknn/Kmknn.hpp:165-169 | for a true metric, a k-nearest selection from observation index's stored row without the self-match, mapped back to observations |
| LegacyKmknn.Kmknn.FindNearestNeighborsQuery | include/knncolle/Kmknn/Kmknn.hpp:171-175 | for a true metric, a k-nearest selection of the stored rows for the query, mapped back to observations |
| LegacyKmknn.QueryMatchesBruteforce | include/knncolle/Kmknn/Kmknn.hpp:171-175 | any query result has min(k, n) entries listing exactly the distances of the brute-force query result, whichever tied candidates it kept |
| LegacyKmknn.IndexMatchesBruteforce | include/knncolle/Kmknn/Kmknn.hpp:165-169 | any index result lists exactly the distances of the brute-force index result from the same stored row |
| LegacyKmknn.SelectionWithoutSelf | include/knncolle/Kmknn/Kmknn.hpp:165-169 | removing the self-match from any (k+1)-nearest selection of a stored row leaves the distances the exact selection leaves |
| LegacyKmknn.SelfIsClosest | include/knncolle/Kmknn/Kmknn.hpp:166 | for a true metric a stored row is at distance 0 from itself, the closest candidate and the only one with its index |

## Left out

- The current brute-force and KMKNN indexes call the queue as `internal::NeighborQueue<Index_, Float_> nearest(k)` and `nearest.report(output[, self])` (include/knncolle/Bruteforce.hpp:80-90, include/knncolle/Kmknn.hpp:316-327). No constructor or `report` of that form exists in `NeighborQueue.hpp`. The model builds a `Queue.NeighborQueue`, calls `Reset(k)`, then `Report` or `ReportSelf` with both outputs requested, and zips the two vectors into pairs with `FindNN.Zip`.
- The older brute-force, VP-tree and KMKNN indexes construct the older queue as `NeighborQueue(k[, self])` and call `report<DISTANCE_t>()` (include/knncolle/BruteForce/BruteForce.hpp:59-74 and the matching lines of `VpTree/VpTree.hpp` and `Kmknn/Kmknn.hpp`). The model uses `LegacyQueue.NeighborQueue` built with `ties = false`, then its `Report`, zipping indices and distances.
- The k-means clustering of both KMKNN indexes is a foreign library, including its initialisation and refinement algorithms. The model takes its result as input: the centres, the assignment of each observation, and the size of each cluster.
- The centre count `ceil(pow(nobs, power))` is floating-point arithmetic, so the model takes it as the parameter `ncenters`.
- The random choice of vantage point in both VP-tree builds (`std::mt19937_64`) becomes a nondeterministic choice (`:|`) of an index in range.
- `std::nth_element` becomes a nondeterministic choice (`:|`) of an arrangement that puts the median in place and splits the rest around it. In the current VP tree the comparison is on (distance, index) pairs (`VpShape.NthElement`). In the older VP tree it is on distances alone (`VpShape.NthElementByDist`), so items tied with the median's distance may fall on either side.
- `std::sort` on (distance, index) pairs is an insertion sort. On this total order it gives the same unique result.
- Threading (`parallelize`) is left out. The per-observation loop of `find_nearest_neighbors` runs sequentially.
- The overflow-checked `sanisizer` casts and the `size_t` widening casts are left out. Integers are unbounded.
- The optional `USE_UPPER` / `KNNCOLLE_KMKNN_USE_UPPER` branches of both KMKNN searches are compiled out by default, so they are left out. So is the DEBUG `print_vector` helper.
- Distances are abstract. The floating-point Euclidean and Manhattan arithmetic (sums, `sqrt`, `abs`) is not modelled. Neither is rounding, which could break exact ties or the triangle inequality.
- `L2Normalized.hpp` is not part of this model: it is float normalisation plus delegation. The same goes for the Hnsw wrapper, the Annoy build and search, Annoy's `search_k` rounding, and the save/load registry and its file I/O.
- `include/knncolle/BruteForce.hpp` does not compile as written: it uses undeclared `my_store`, `query` and `obs`. `utils/MatrixStore.hpp` copies with `std::fill`. Neither is modelled. Nor are the pure interfaces and umbrella headers, which have no behaviour.
- Kmknn.RemoveEmptyClusters: after compaction the model keeps only the survivors' sizes. The source resizes `my_sizes` to the original centre count and never shrinks it (include/knncolle/Kmknn.hpp:130, 146-152), while `search_nn` loops over `my_sizes.size()` (include/knncolle/Kmknn.hpp:241-257). When some cluster is empty, the source's search therefore reads past the end of the shrunk centres and offsets. The model searches the surviving clusters only.
- Bruteforce.BruteforcePrebuilt.SearchQuery: requires `k > 0`. The query path hands `k` to the queue's `reset`, which asserts `k > 0` (include/knncolle/NeighborQueue.hpp:52-55). With that assertion compiled out, `add` never sets `full` and the queue would keep every candidate; that case is not modelled.
- Kmknn.KmknnPrebuilt.SearchQuery: requires `k > 0`, for the same reason: the query path calls `reset(k)`, which asserts it (include/knncolle/NeighborQueue.hpp:52-55). The unguarded `k = 0` case is not modelled.
- LegacyQueue.NeighborQueue.Add: with `check_k == 0` the source's queue starts full, and `add` compares with `top()` of an empty heap, which is undefined (include/knncolle/utils/NeighborQueue.hpp:48-51). The model ignores the candidate.
- LegacyBruteforce.BruteForce.FindNearestNeighborsQuery: with `k = 0` the source reaches that undefined read on the first candidate. The model's queue ignores every candidate, so the result is empty.
- LegacyVpTree.VpTree.FindNearestNeighborsQuery: on an empty tree the source starts the search at `nodes[0]`, which does not exist (include/knncolle/VpTree/VpTree.hpp:176-181). With `k = 0` it reaches the empty-heap read above. In both cases the model skips the search and returns an empty result.
- LegacyKmknn.Kmknn.FindNearestNeighborsQuery: with `k = 0` the model skips the search, where the source reaches the empty-heap read. The result is empty.
- LegacyKmknn.Kmknn.ScanCluster: the older index keeps empty clusters, and for them the source reads `dist_to_centroid` one before the segment (include/knncolle/Kmknn/Kmknn.hpp:210-212). That is undefined for the first segment. The model scans nothing for an empty cluster.
- Annoy.PurgeSelf: requires a non-empty result. When `self` is absent the source calls `pop_back`, which is undefined on an empty vector (include/knncolle/Annoy/Annoy.hpp:94-118).
- The older indexes' results are stated up to ties: some k-nearest selection, whose distances match the brute-force answer. The older brute force is the exception; it offers candidates in index order, so its result is proved equal to the brute-force answer.
