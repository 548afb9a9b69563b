# ASTRAL search core, modelled in Dafny

ASTRAL builds a species tree from gene trees. It runs a dynamic program over
*clusters*, which are subsets of the taxon set. The program scores every cluster by the best
way to split it into two smaller clusters that are already known. Around that
search sit the helpers that build the search space (set X) and the
bookkeeping that turns gene trees into quartet counts. This project models
that core and proves properties of the model:

- `clusters.dfy` (module `Clusters`): clusters as `set<nat>` over `0..n-1`.
  It also has the BitSet operations the program uses (`set(0, n)`, `xor`,
  `flip`, the `nextSetBit` walk), Java's truncating integer division, and
  "children plus the complement of their union".
- `min_cost_rules.dfy` (module `MinCostRules`): the Vertex record of the DP.
  It holds the acceptance rule for a scored candidate bipartition, the
  `extraTerms` rule of the duplication/loss cost and `getCompleteryVertx`.
- `min_cost.dfy` (module `MinCost`, class `Solver`): `ComputeMinCostTask`.
  Every Vertex lives in one arena `verts: map<Cluster, Vertex>`, whose key
  set is the cluster collection.
  - It memoises the tri-state `_done`, skips candidates with an unresolvable
    side, and grows the search space when nothing resolves.
  - The `do … while (tryAnotherTime)` retry loop is modelled.
  - The scoring loop fills the `El` cache, an `array<Option<int>>`.
- `consumer.dfy` (module `Consumer`, class `Solver`):
  `WQComputeMinCostTaskConsumer`. It does the same maximisation over a
  candidate list taken from a queue, with a `weights` array and coin-flip tie
  breaking.
- `similarity.dfy` (module `Similarity`): `SimilarityMatrix`.
  - The four-point choice, the `sortColumn` order and the closest-present-taxon
    search.
  - The quartet-count accumulation and its normalisation, both in place on
    `array2`.
  - The induced sub-matrix and the nested prefix bitsets of `getQuadraticBitsets`.
- `upgma.dfy` (module `Upgma`): `resolveByUPGMA` and the UPGMA merge loop
  `upgmaLoop`. They work over four parallel nullable lists (weights, bitsets,
  TreeSets, similarity rows).
- `quartets.dfy` (module `QuartetInference`): from `WQInference`:
  - the stack-machine walk of `calculateMaxPossible`;
  - the per-species term of `unresolvableQuartets`;
  - `handleInternalNode` and the triple loop of `scoreSpeciesTreeWithGTLabels`;
  - `skipNode`, the branch quartet counts and `getTotalCost`.
- `data_collection.dfy` (module `DataCollection`): from `WQDataCollection`:
  - the guarded insertion of a bipartition into X;
  - the polytomy size limit and `shouldDoQuadratic`;
  - `hasPolytomy` and the heuristic child lists;
  - the one-taxon-per-child sample and `addbackAfterSampling`;
  - complement-canonical bitset counting and the random merge loop of
    `resolveLinearly`.

Some collaborators are not part of this model: ClusterCollection's resolution
enumeration, the weight calculators, the deep-coalescence counters,
SpeciesMapper and the tree library. Each enters the model as a function: a
constant field of a solver class or a parameter. Randomness also enters as an
injected function, `GlobalMaps.random` (draw index, bound) ↦ value or a
stream of booleans. `Float`/`double` similarities are Dafny `real`s. Java
`int`/`long` arithmetic is exact integer arithmetic, and `/` on them is
`Clusters.JavaDiv`, which truncates toward zero.

## Model

| member | source | states |
|---|---|---|
| Clusters.Range | main/phylonet/coalescent/WQDataCollection.java:1440 | `flip(0, n)`'s range {0..n-1}: exactly the ids below n, n of them |
| Clusters.Flip | main/phylonet/coalescent/WQDataCollection.java:1439-1441 | complement within 0..n-1 of a set inside it; its size is n - \|a\| |
| Clusters.XorInvolution | main/phylonet/coalescent/ComputeMinCostTask.java:310-311 | xor-ing with the same reference twice gives the cluster back |
| Clusters.Members | main/phylonet/coalescent/ComputeMinCostTask.java:296 | the `nextSetBit` visit order: exactly the members below the bound, strictly ascending |
| Clusters.MembersLength | main/phylonet/coalescent/WQInference.java:127-129 | the visit touches exactly \|s ∩ {0..bound-1}\| ids |
| Clusters.JavaDivTowardZero | main/phylonet/coalescent/WQInference.java:874 | Java division by a positive number rounds toward zero: the remainder has the dividend's sign and lies below the divisor |
| Clusters.DisjointUnionSize | main/phylonet/coalescent/WQDataCollection.java:1740-1748 | the union of pairwise disjoint sets has the sum of their sizes |
| Clusters.WithComplement | main/phylonet/coalescent/WQDataCollection.java:171-185 | the part list is the children, followed by the complement of their union only when that is nonempty (not at the root) |
| Clusters.WithComplementCovers | main/phylonet/coalescent/WQDataCollection.java:171-185 | children within 0..n-1 plus their complement cover 0..n-1 exactly |
| Clusters.WithComplementDisjoint | main/phylonet/coalescent/WQDataCollection.java:171-185 | disjoint children stay disjoint once the complement is appended |
| Clusters.WithComplementNonempty | main/phylonet/coalescent/WQInference.java:323-326 | the complement is only appended when nonempty, so no part is empty |
| MinCostRules.SplitSizes | main/phylonet/coalescent/ComputeMinCostTask.java:124-127 | both sides of a proper bipartition are strictly smaller than the cluster and add up to it |
| MinCostRules.Accept | main/phylonet/coalescent/ComputeMinCostTask.java:169-176 | a skipped candidate changes nothing; a scored one replaces the best unless the best is not -1 and the candidate is strictly smaller; `_done` is untouched |
| MinCostRules.SelectFrame | main/phylonet/coalescent/ComputeMinCostTask.java:124-182 | the candidate loop never touches `_done`; with no scored candidate it changes nothing; chosen children are never dropped |
| MinCostRules.SelectChoosesIffScored | main/phylonet/coalescent/ComputeMinCostTask.java:124-214 | from a fresh vertex, children get chosen iff some candidate was scored |
| MinCostRules.SelectBest | main/phylonet/coalescent/ComputeMinCostTask.java:164-176 | if no score equals the sentinel, the final score is at least every scored candidate's, and the chosen children are those of the last candidate reaching it (ties go to the later one) |
| MinCostRules.SentinelScoreIsReplaced | main/phylonet/coalescent/ComputeMinCostTask.java:169-170 | a first candidate scoring exactly -1 is taken for "nothing yet", so a later smaller score replaces it |
| MinCostRules.ExtraTermsAsWrittenIsAsymmetric | main/phylonet/coalescent/ComputeMinCostTask.java:264-275 | the as-written `extraTerms` gives 2 or 1 for the same bipartition depending on which side is called small |
| MinCostRules.ExtraTerms | main/phylonet/coalescent/ComputeMinCostTask.java:263-275 | the intended rule: 0 iff neither side meets the tree; 2 if both do; when one does, 2 iff that side is as large as the tree's taxon set, else 1 |
| MinCostRules.ExtraTermsSymmetric | main/phylonet/coalescent/ComputeMinCostTask.java:263-275 | the intended rule does not depend on which side is called small |
| MinCostRules.ExtraTermsAgreeElsewhere | main/phylonet/coalescent/ComputeMinCostTask.java:266-275 | the two rules differ only when the small side meets the tree and the big side does not |
| MinCostRules.ComplementaryCluster | main/phylonet/coalescent/ComputeMinCostTask.java:307-315 | `ref XOR x`; for x ⊆ ref it is ref \ x of size \|ref\| - \|x\|, and xor-ing with ref gives x back |
| MinCostRules.ExtraTermsAsWrittenBounds | main/phylonet/coalescent/ComputeMinCostTask.java:263-275 | the as-written rule counts at least as much as the intended one and at most one more |
| MinCost.Solver.DLPrefixSymmetric | main/phylonet/coalescent/ComputeMinCostTask.java:233-292 | with the corrected `extraTerms` the DL cost of a bipartition does not depend on which side is called small (as written it does; see Findings) |
| MinCost.Solver.DLPrefixAsWrittenBounds | main/phylonet/coalescent/ComputeMinCostTask.java:233-292 | the cost with line 268 as written is at least the corrected cost and at most one more per gene tree, and equal to it unless some tree meets the small side only, outside homomorphic mode |
| MinCost.Solver.DLPrefixHomomorphicBounds | main/phylonet/coalescent/ComputeMinCostTask.java:237-258 | homomorphic DL: a tree contributes only when both sides meet it; the cost is non-negative and 0 when no tree meets both sides |
| MinCost.Solver.CalculateDLCost | main/phylonet/coalescent/ComputeMinCostTask.java:233-292 | returns the DL cost summed over the gene trees with the corrected `extraTerms`, which `DLPrefixAsWrittenBounds` relates to the program's, and every filled `El[k]` is tree k's rooted coalescence number |
| MinCost.Solver.StoredScoreIsTreeScore | main/phylonet/coalescent/ComputeMinCostTask.java:173-230 | a computed vertex's memoised `_max_score` is the score of the binary tree its `_min_lc`/`_min_rc` pointers spell out |
| MinCost.Solver.constructor | main/phylonet/coalescent/ComputeMinCostTask.java:35-39 | a solver over the given clusters, every vertex fresh (unseen, score -1, no children) |
| MinCost.Solver.AddCluster | main/phylonet/coalescent/ComputeMinCostTask.java:301 | inserts a fresh vertex iff the cluster is unknown and says whether it was new |
| MinCost.Solver.AddAllPossibleSubClusters | main/phylonet/coalescent/ComputeMinCostTask.java:294-305 | afterwards the known clusters are the old ones plus every proper subset of c, ∅ included; the new vertices are fresh |
| MinCost.Solver.SubsetsStep | main/phylonet/coalescent/ComputeMinCostTask.java:296-303 | clearing bit i and recursing adds exactly the subsets of c that miss one of the bits cleared so far |
| MinCost.Solver.AddComplementsOf | main/phylonet/coalescent/ComputeMinCostTask.java:49-53 | the complement within v of every member of the group becomes known; the result says whether any was new |
| MinCost.Solver.WalkSubClusterGroups | main/phylonet/coalescent/ComputeMinCostTask.java:44-58 | walks the groups from the largest size down, adds complements, and stops after the first nonempty group below `clusterSize * CD` |
| MinCost.Solver.AddComplementaryClusters | main/phylonet/coalescent/ComputeMinCostTask.java:44-58 | the complement of a known sub-cluster y is added iff every group larger than y reaches the CD threshold |
| MinCost.Solver.LargestSubGroup | main/phylonet/coalescent/ComputeMinCostTask.java:190-192 | the first group `getSubClusters` yields: the known proper sub-clusters of the largest size present, or none |
| MinCost.Solver.GrowByLargestGroup | main/phylonet/coalescent/ComputeMinCostTask.java:188-199 | adds exactly the complements, of more than one taxon, of the largest sub-clusters; retries iff something was new |
| MinCost.Solver.GrowSearchSpace | main/phylonet/coalescent/ComputeMinCostTask.java:183-210 | when nothing resolved: at most 5 taxa adds all proper subsets and always retries; otherwise it grows by the largest group and retries iff something was new |
| MinCost.Solver.ResolveCandidates | main/phylonet/coalescent/ComputeMinCostTask.java:124-182 | the vertex ends as the acceptance rule folded over the candidates' outcomes; a candidate with an unresolvable side is skipped, not fatal |
| MinCost.Solver.OfferCandidate | main/phylonet/coalescent/ComputeMinCostTask.java:126-142 | the big side is computed first; if it is unresolvable the candidate is skipped before the small side is tried |
| MinCost.Solver.OfferWithBigSide | main/phylonet/coalescent/ComputeMinCostTask.java:144-176 | the small side is computed; when it resolves, `lscore + rscore + optimizeDuploss*w - e` is offered |
| MinCost.Solver.Attempt | main/phylonet/coalescent/ComputeMinCostTask.java:117-211 | one retry pass: complements for large clusters, the candidate loop, then growth; the candidates are the resolutions over the clusters known after the complement step, which is exactly the old ones plus the added complements for a large cluster and the old ones otherwise; it retries only with the vertex still fresh |
| MinCost.Solver.ScoreThenGrow | main/phylonet/coalescent/ComputeMinCostTask.java:124-211 | the candidates are the resolutions over the clusters known when the pass starts, and growth happens only when none resolved |
| MinCost.Solver.ComputeMinCost | main/phylonet/coalescent/ComputeMinCostTask.java:60-231 | `_done == 2` fails and `_done == 1` returns the stored score, unchanged; ≤ 1 taxon gets `-el_num` with no children; otherwise the vertex is the acceptance fold over the resolutions of a key set between the clusters known at the call and those known at its end, `_done = 1` with a score iff children were found, else `_done = 2`; only smaller clusters are touched |
| Consumer.STB2T | main/phylonet/coalescent/WQComputeMinCostTaskConsumer.java:24-30 | the tripartition (cluster1, cluster2, complement of both within the n taxa), of size n - \|both\| |
| Consumer.SelStep | main/phylonet/coalescent/WQComputeMinCostTaskConsumer.java:95-102 | a strictly larger score always wins, a smaller one never, an equal one exactly when the coin is false |
| Consumer.SelFoldBest | main/phylonet/coalescent/WQComputeMinCostTaskConsumer.java:86-108 | over the loop `_max_score` never drops and ends at least at every candidate's score; the recorded pair is a candidate with exactly the final score, or nothing changed |
| Consumer.SelFoldIncreasing | main/phylonet/coalescent/WQComputeMinCostTaskConsumer.java:95-102 | without ties the coins are irrelevant: strictly increasing scores pick the last pair |
| Consumer.SelFoldEmpty | main/phylonet/coalescent/WQComputeMinCostTaskConsumer.java:86-118 | an empty list leaves the vertex, possibly without children, as it was |
| Consumer.Solver.WeightOf | main/phylonet/coalescent/WQComputeMinCostTaskConsumer.java:71-76 | 0 for the full taxon set (`defaultWeightForFullClusters`); for a proper split of any other cluster v of the taxa, the weight of the tripartition (cluster1, cluster2, taxa outside v) |
| Consumer.STB2TPartition | main/phylonet/coalescent/WQComputeMinCostTaskConsumer.java:25-30 | for a proper split of a cluster v that is not the whole taxon set, the tripartition's third part is the taxa outside v, is nonempty, and the three parts are disjoint and cover the taxa |
| Consumer.Solver.OfferPair | main/phylonet/coalescent/WQComputeMinCostTaskConsumer.java:88-102 | one pass of the loop: both sides are scored (cluster2 first), the frame of finished vertices grows, earlier candidates are unchanged, and on success the recorded tie bit is a coin drawn exactly when the new score equals the best so far |
| Consumer.Solver.ComputeWeights | main/phylonet/coalescent/WQComputeMinCostTaskConsumer.java:65-82 | a fresh array aligned with the list: `weights[j]` is the j-th pair's weight |
| Consumer.Solver.ApplyRule | main/phylonet/coalescent/WQComputeMinCostTaskConsumer.java:95-102 | the selection rule; a coin is drawn exactly on a tie, and the bit recorded is that `nextBoolean()` value on a tie and false otherwise |
| Consumer.Solver.CoinTraceStep | main/phylonet/coalescent/WQComputeMinCostTaskConsumer.java:86-104 | one more pair, reading the stream at its position only when it ties, extends the coin trace |
| Consumer.Solver.CoinTraceWithin | main/phylonet/coalescent/WQComputeMinCostTaskConsumer.java:95-102 | the positions of a coin trace grow along the list within the stream range the call used, and a tying pair's position is below every later one, so no `nextBoolean()` value is read twice |
| Consumer.Solver.SelectionLoop | main/phylonet/coalescent/WQComputeMinCostTaskConsumer.java:85-122 | every pair's sides are finished; the vertex is the selection fold over the pairs' scores, whose tie bits are the `nextBoolean()` values at the positions of a coin trace between the old and new draw counts (consecutive, so the count grows by the number of ties, when every side was finished already); no children means CannotResolve and the vertex stays unfinished |
| Consumer.Solver.ComputeMinCost | main/phylonet/coalescent/WQComputeMinCostTaskConsumer.java:37-123 | a finished vertex returns its score unchanged; a base case (≤ 1 taxon or one species) gets `scoreBaseCase` and is finished; otherwise the queued list is selected over, ties broken by the coin trace of `SelectionLoop`; a score is returned iff the vertex ends finished |
| Similarity.FourPointScores | main/phylonet/coalescent/SimilarityMatrix.java:41-49 | the three four-point scores; `ascore == -bscore` |
| Similarity.BetterSideByFourPoint | main/phylonet/coalescent/SimilarityMatrix.java:40-53 | returns one of a, b, c; for distinct sides a iff its score is ≥ both others, b iff strictly above a and ≥ c, c iff strictly above both |
| Similarity.BeforeIsStrictTotal | main/phylonet/coalescent/SimilarityMatrix.java:70-76 | the `sortColumn` comparator is irreflexive and orders any two distinct indices exactly one way |
| Similarity.SortColumn | main/phylonet/coalescent/SimilarityMatrix.java:66-80 | the TreeSet order: exactly the indices of `range`, each once, most similar first, ties to the larger index |
| Similarity.SortColumnFirst | main/phylonet/coalescent/SimilarityMatrix.java:66-80 | `first()` of the TreeSet goes before every other index |
| Similarity.GetClosestPresentTaxonId | main/phylonet/coalescent/SimilarityMatrix.java:95-110 | returns an acceptable taxon (smaller than `missingId` or present), the closest one by the order; it fails iff `missingId` is 0 and nothing is present; it never returns an absent `missingId` |
| Similarity.FirstAcceptable | main/phylonet/coalescent/SimilarityMatrix.java:98-105 | the search loop finds the first acceptable position, or none |
| Similarity.FirstAcceptableIsClosest | main/phylonet/coalescent/SimilarityMatrix.java:98-105 | the first acceptable entry of the order goes before every other acceptable taxon |
| Similarity.NoneAcceptable | main/phylonet/coalescent/SimilarityMatrix.java:106-108 | the "should not be reached" exception happens only when `missingId` is 0 and no taxon is present |
| Similarity.PairIncrement | main/phylonet/coalescent/SimilarityMatrix.java:115-116 | the increment `c(c-1)/2` is C(treeall - \|L\| - \|R\|, 2) and never negative |
| Similarity.UpdateQuartetDistanceForPair | main/phylonet/coalescent/SimilarityMatrix.java:113-134 | entries (l, r) and (r, l) for l ∈ L, r ∈ R grow by the increment, all else unchanged; a symmetric matrix stays symmetric |
| Similarity.PairsAppliedEverywhere | main/phylonet/coalescent/SimilarityMatrix.java:117-133 | once every pair of L × R is processed, the matrix is the old one with those entries increased |
| Similarity.DenominatorIncrement | main/phylonet/coalescent/SimilarityMatrix.java:225-230 | the per-tree denominator increment is C(\|all\| - 2, 2) and never negative |
| Similarity.AccumulateTreeDenominators | main/phylonet/coalescent/SimilarityMatrix.java:224-242 | each pair of distinct tree taxa grows by twice the increment, the diagonal by it once, the rest unchanged; even symmetric denominators stay so |
| Similarity.DenomsAppliedEverywhere | main/phylonet/coalescent/SimilarityMatrix.java:226-242 | after all ordered pairs, the final count of every entry between two tree taxa |
| Similarity.Normalised | main/phylonet/coalescent/SimilarityMatrix.java:168-174 | 1 on the diagonal, 0 for a zero denominator, else the count divided by half the denominator |
| Similarity.HalfOfEven | main/phylonet/coalescent/SimilarityMatrix.java:171 | half of an even denominator is exact, and nonzero when the denominator is |
| Similarity.Normalise | main/phylonet/coalescent/SimilarityMatrix.java:166-177 | every entry is the normalised upper-triangle value; the result is symmetric, the diagonal is 1 and zero denominators give 0 |
| Similarity.GetInducedMatrix | main/phylonet/coalescent/SimilarityMatrix.java:284-301 | a fresh \|sample\|² matrix; the entry at the indices of taxa a and b is their similarity; indices no taxon holds stay 0 |
| Similarity.SampleIndicesCover | main/phylonet/coalescent/SimilarityMatrix.java:290-297 | distinct indices below the sample's size fill 0..\|sample\|-1, so every entry is written |
| Similarity.OrderedUnique | main/phylonet/coalescent/SimilarityMatrix.java:310-324 | two lists ordered by the comparator and holding the same indices are equal, so re-sorting the previous order gives the same result |
| Similarity.QuadraticOrder | main/phylonet/coalescent/SimilarityMatrix.java:310-324 | all n indices once each, most similar first, ties to the smaller index |
| Similarity.NestedPrefixes | main/phylonet/coalescent/SimilarityMatrix.java:325-336 | the k-th emitted bitset is the first k+1 ids; for an order without repeats sizes are 1, 2, …; each contains the previous; the last is every id |
| Similarity.GetQuadraticBitsets | main/phylonet/coalescent/SimilarityMatrix.java:304-340 | n² bitsets; block r is the nested prefixes of row r's order |
| Upgma.FindClosest | main/phylonet/coalescent/SimilarityMatrix.java:427-439 | an empty TreeSet makes `first()` throw; otherwise it picks the first live index whose top similarity is strictly largest, when above -1 |
| Upgma.MergedSim | main/phylonet/coalescent/SimilarityMatrix.java:453 | `newSimToI` is the weighted average of the two rows' entries |
| Upgma.MergePair | main/phylonet/coalescent/SimilarityMatrix.java:440-472 | the emitted bitset is the union of groups i and j; j becomes null in all four lists; i takes both weights; rows are updated as the loop over k does |
| Upgma.MergedConsistent | main/phylonet/coalescent/SimilarityMatrix.java:447-470 | after a merge every TreeSet again holds exactly the other live indices; one fewer index is live |
| Upgma.MergedUnion | main/phylonet/coalescent/SimilarityMatrix.java:440-443 | a merge keeps the union of the live groups |
| Upgma.MergedWeight | main/phylonet/coalescent/SimilarityMatrix.java:471-472 | a merge keeps the sum of the live weights, and they stay positive |
| Upgma.MergedDisjoint | main/phylonet/coalescent/SimilarityMatrix.java:440-443 | disjoint live groups stay disjoint |
| Upgma.MergedSymmetric | main/phylonet/coalescent/SimilarityMatrix.java:452-461 | both new entries get the same average, so live rows stay symmetric |
| Upgma.MergedAbove | main/phylonet/coalescent/SimilarityMatrix.java:453-465 | similarities between live indices stay above the -1 sentinel |
| Upgma.SearchSucceeds | main/phylonet/coalescent/SimilarityMatrix.java:430-439 | with two live groups and similarities above -1 the search finds a pair |
| Upgma.UpgmaStep | main/phylonet/coalescent/SimilarityMatrix.java:427-474 | one round merges the chosen pair, keeps union, weight sum and invariants, and cannot fail on two live groups above -1 |
| Upgma.UpgmaLoop | main/phylonet/coalescent/SimilarityMatrix.java:423-477 | on success it emits max(left - 2, 0) bitsets, each within the starting union, keeping that union and the weight sum; it succeeds when left ≤ live groups and similarities exceed -1 |
| Upgma.CrossAverage | main/phylonet/coalescent/SimilarityMatrix.java:379-388 | the average similarity over all member pairs; no pair, that is an empty group, is the exception |
| Upgma.StartSims | main/phylonet/coalescent/SimilarityMatrix.java:365-389 | row i: 1 at i and the group averages elsewhere; it fails iff some other group makes an empty pair |
| Upgma.InitialState | main/phylonet/coalescent/SimilarityMatrix.java:352-395 | the set-up fails iff there are two groups and one is empty; otherwise every TreeSet holds the other indices and the weights are the cardinalities |
| Upgma.InitialUnion | main/phylonet/coalescent/SimilarityMatrix.java:345-363 | the starting groups are the input bitsets, or the singletons {i} when `original` is false |
| Upgma.ResolveByUpgma | main/phylonet/coalescent/SimilarityMatrix.java:343-398 | fails on an empty bitset among two or more; on success max(size - 2, 0) groups, each inside the input union (or 0..size-1); succeeds for nonempty bitsets and similarities above -1 |
| QuartetInference.TripleLoop | main/phylonet/coalescent/WQInference.java:85-102 | the nested loops add `w` over every triple i < j < k |
| QuartetInference.TriplesCount | main/phylonet/coalescent/WQInference.java:85-102 | the loops visit exactly C(\|xs\|, 3) triples |
| QuartetInference.TriplesSmall | main/phylonet/coalescent/WQInference.java:238-246 | fewer than three parts contribute nothing; three parts give exactly one triple |
| QuartetInference.TriplesNonnegative | main/phylonet/coalescent/WQInference.java:97-100 | non-negative weights give a non-negative sum |
| QuartetInference.NodeWeightNonnegative | main/phylonet/coalescent/WQInference.java:99 | `(a+b+c-3)abc` is non-negative for positive side sizes |
| QuartetInference.Sides | main/phylonet/coalescent/WQInference.java:73-84 | the popped sizes, with `allsides - newSide` appended exactly when nonzero |
| QuartetInference.PopSides | main/phylonet/coalescent/WQInference.java:75-79 | pops -gtb sizes and sums them, or fails when the Deque runs out |
| QuartetInference.StepStack | main/phylonet/coalescent/WQInference.java:63-80 | a leaf pushes 1, `MIN_VALUE` clears and starts a new tree, `-k` pops k sizes and pushes their sum; the Deque's total grows by one per leaf only |
| QuartetInference.StepPositive | main/phylonet/coalescent/WQInference.java:67-80 | every size on the Deque stays at least 1 |
| QuartetInference.RunWithinTree | main/phylonet/coalescent/WQInference.java:62-104 | within one tree the weight never decreases and the Deque's total grows by exactly the leaves seen |
| QuartetInference.CalculateMaxPossible | main/phylonet/coalescent/WQInference.java:54-105 | the walk's result is `weight/4 - unresolvable`, failing where the Java would (empty Deque, trees exhausted) |
| QuartetInference.OneQuartetTree | main/phylonet/coalescent/WQInference.java:54-105 | on the one tree ((0,1),(2,3)) the maximum is exactly 1 quartet |
| QuartetInference.SpeciesCountsSum | main/phylonet/coalescent/WQInference.java:124-129 | every individual is counted for exactly one species |
| QuartetInference.CountSpecies | main/phylonet/coalescent/WQInference.java:124-129 | `counts` is the number of the cluster's individuals of each species |
| QuartetInference.SpeciesTermCounts | main/phylonet/coalescent/WQInference.java:136-137 | the per-species term is C(count, 3)·(size - count) + C(count, 4) |
| QuartetInference.SmallSpeciesTermSum | main/phylonet/coalescent/WQInference.java:136-137 | species of at most two individuals contribute nothing |
| QuartetInference.UnresolvableQuartets | main/phylonet/coalescent/WQInference.java:114-139 | 0 for single-individual data, else the per-species terms over every gene tree cluster |
| QuartetInference.UnresolvableNonnegative | main/phylonet/coalescent/WQInference.java:122-139 | for clusters of known taxa the count is never negative |
| QuartetInference.PartsOf | main/phylonet/coalescent/WQInference.java:323-335 | null iff the list with its complement has more than 3 parts, else that list |
| QuartetInference.HandleInternalNode | main/phylonet/coalescent/WQInference.java:307-336 | pops one cluster per child, pushes their union, returns the popped clusters plus a nonempty complement, or null for more than 3 parts |
| QuartetInference.StepUnion | main/phylonet/coalescent/WQInference.java:310-320 | an internal node keeps the union of the Stack |
| QuartetInference.ScoreSpeciesTree | main/phylonet/coalescent/WQInference.java:224-248 | the sum of every triple's weight over every child list, and `poly` iff some list was null |
| QuartetInference.ScoreRunUnion | main/phylonet/coalescent/WQInference.java:339-347 | after the walk the Stack's union gained exactly the leaves' taxa |
| QuartetInference.BinaryTreeHasNoPolytomy | main/phylonet/coalescent/WQInference.java:328-334 | on a binary tree `poly` is never set |
| QuartetInference.SkipNode | main/phylonet/coalescent/WQInference.java:350-357 | a node is skipped unless it has 1 or 2 children and its parent admits a sister and a remaining side |
| QuartetInference.AnnotatedBranches | main/phylonet/coalescent/WQInference.java:350-357 | `skipNode` is false iff the node has 1 or 2 children and its parent admits a sister and a remaining side |
| QuartetInference.BranchQuartCount | main/phylonet/coalescent/WQInference.java:783-786 | the product of the four side sizes; non-negative and positive iff every side is nonempty |
| QuartetInference.TerminalQuartCount | main/phylonet/coalescent/WQInference.java:759-761 | `cs(cs-1)/2·|sister|·|remaining|` is C(cs, 2)·|sister|·|remaining|, positive iff cs ≥ 2 and both sides are nonempty |
| QuartetInference.TotalCost | main/phylonet/coalescent/WQInference.java:869-875 | `_max_score / 4` rounded toward zero |
| DataCollection.Collection.constructor | main/phylonet/coalescent/WQDataCollection.java:84-91 | no clusters yet, limit `POLYTOMY_SIZE_LIMIT_MAX`, SLOW iff `addExtra == 2` |
| DataCollection.Collection.AddToClusters | main/phylonet/coalescent/WQDataCollection.java:494-496 | inserts the cluster and says whether it was new |
| DataCollection.Collection.AddCompletedSpeciesFixedBipartition | main/phylonet/coalescent/WQDataCollection.java:483-498 | adds nothing and returns false when \|c1\| is 0 or N; otherwise inserts both and returns true iff either was new |
| DataCollection.Collection.SetPolytomySizeLimit | main/phylonet/coalescent/WQDataCollection.java:1324-1343 | stores the limit rule's result and leaves X alone |
| DataCollection.Collection.ShouldDoQuadratic | main/phylonet/coalescent/WQDataCollection.java:1271-1277 | never above the polytomy size limit; in SLOW mode exactly when within the limit; otherwise only for thresholds below the last greedy threshold index and runs below the default run count |
| DataCollection.Collection.QuadraticOnlyEarly | main/phylonet/coalescent/WQDataCollection.java:1271-1277 | outside SLOW mode, quadratic additions happen only in early runs and thresholds, and an earlier run or threshold also qualifies |
| DataCollection.HasPolytomy | main/phylonet/coalescent/WQDataCollection.java:466-473 | true iff some node has more than 2 children |
| DataCollection.PolytomySizeLimit | main/phylonet/coalescent/WQDataCollection.java:1324-1343 | with `polylimit == -1`, squares of the degrees, in the order given, are summed while below `50 + 25·speciesCount`, and the limit is the last degree taken, or 3; else `polylimit` |
| DataCollection.LimitIsADegree | main/phylonet/coalescent/WQDataCollection.java:1330-1339 | with a positive budget and some polytomy, the limit is one of the degrees; without any it is 3 |
| DataCollection.LimitCoversTaken | main/phylonet/coalescent/WQDataCollection.java:1322-1337 | on ascending degrees the limit is at least every degree taken |
| DataCollection.HeuristicChildParts | main/phylonet/coalescent/WQDataCollection.java:1426-1441 | the node's children followed by the complement of the node's cluster, empty or not |
| DataCollection.HeuristicChildPartsCover | main/phylonet/coalescent/WQDataCollection.java:1426-1441 | when the node is the union of its children the parts cover all taxa; at an all-taxa node the last part is empty |
| DataCollection.PickMember | main/phylonet/coalescent/WQDataCollection.java:1704-1708 | the walk of `nextSetBit` lands on the member at position `sample` in ascending order |
| DataCollection.NextSetBit | main/phylonet/coalescent/WQDataCollection.java:1705-1707 | the smallest member at or above `from`, or -1 |
| DataCollection.NextMember | main/phylonet/coalescent/WQDataCollection.java:1707 | `nextSetBit` after a member is the following member |
| DataCollection.RandomSampleAroundPolytomy | main/phylonet/coalescent/WQDataCollection.java:1699-1713 | fails iff some child is empty; each name maps to the index of a child holding its taxon; for disjoint children and distinct names the values are exactly 0..d-1 |
| DataCollection.SampledIndices | main/phylonet/coalescent/WQDataCollection.java:1703-1711 | the picks give the indices 0..d-1, one name each |
| DataCollection.AddbackAfterSampling | main/phylonet/coalescent/WQDataCollection.java:1740-1748 | the union of `childbs[j]` over j in the restricted set |
| DataCollection.AddbackSize | main/phylonet/coalescent/WQDataCollection.java:1740-1748 | for disjoint children its size is the sum of the selected children's sizes |
| DataCollection.ReturnBitSetCounts | main/phylonet/coalescent/WQDataCollection.java:1497-1520 | never both a bitset and its complement as keys; each bitset counted under itself or its complement; counts sum to the number of bitsets |
| DataCollection.CountBitSet | main/phylonet/coalescent/WQDataCollection.java:1505-1517 | one bitset keeps the canonical-key invariant and raises the total by one |
| DataCollection.RemoveUnion | main/phylonet/coalescent/WQDataCollection.java:1664-1667 | `children.remove(i)` loses exactly that element from the union |
| DataCollection.MergeUnion | main/phylonet/coalescent/WQDataCollection.java:1664-1672 | removing two children and appending their union keeps the union of the list |
| DataCollection.ResolveLinearly | main/phylonet/coalescent/WQDataCollection.java:1648-1673 | fewer than 3 children: nothing; otherwise exactly `size - 2` merges leave 2 parts, the union of children plus complement is kept, each merged set lies in it, disjoint children stay disjoint, each merged set is the union of two parts available when it was made (starting parts or earlier merges), and both final parts are among them |
| DataCollection.BuiltStep | main/phylonet/coalescent/WQDataCollection.java:1657-1669 | one merge appends the union of two current children and keeps every child among the starting parts and merges |

## Left out

- Threads, queues and latches are not modelled: the consumer thread classes, the `CountDownLatch`/executor and `synchronized` cells of `populateByQuartetDistance`, and the blocking `take()`. Only the sequential semantics are modelled. An empty queue is the `QueueEmpty` fault rather than a wait.
- `FactoryAstralMP` (wiring) and `DLInference` (its `calc` is not part of this model) are not modelled.
- Tree-library work is not modelled: tree completion, rerooting, greedy consensus, the LCA-based resolution in `resolveLinearly` and `resolveByUPGMA` on trees. Trees enter the model as postorder data: child counts, int codes, leaf and node lists.
- I/O and logging (`Logging`, `System.err`, CSV and R output) are not modelled.
- Floating point is modelled as real arithmetic. `Float` similarities are `real`, with no rounding and no NaN.
- The `Math.pow`-based `four`/`three` corrections of `unresolvableQuartets` are floating point and are not modelled.
- The `(int)` narrowing of `sumDegrees += Math.pow(...)` is not modelled; it is exact integer addition here.
- QuartetInference.CalculateMaxPossible: the condensed-traversal shortcut (`polytree.maxScore / 4`) is not modelled, and `unresolvableQuartets()` is passed in as a number.
- QuartetInference.UnresolvableQuartets: computes the per-species count terms only; the tree walk that feeds the floating-point corrections is left out with them.
- MinCost.Solver.ComputeMinCost: the `do … while (tryAnotherTime)` loop runs at most `retryBudget + 1` passes. A vertex still without children after the last pass is marked unresolvable, where the source would go on retrying.
- MinCost.Solver.ComputeMinCost: every task shares one cluster collection. The per-task `getContainedClusters(v)` views are collapsed into it, and `getClusterResolutions` is an injected function of the known clusters.
- MinCost.Solver.ComputeMinCost: the `fast` mode only throws in the source, and that is all it does here (`NotImplemented`).
- MinCost.Solver.ComputeMinCost: `_max_score` of a fresh vertex is taken as -1, the sentinel the acceptance rule compares against. The Vertex class is not part of this model.
- MinCost.Solver.CalculateDLCost: the cost uses the corrected `extraTerms` rule (see Findings), not line 268 as written. So the candidate score `OfferWithBigSide` offers, and the DP built on it, is the intended one. Where some gene tree meets only the small side outside homomorphic mode, the program subtracts up to one more per such tree; `DLPrefixAsWrittenBounds` states the gap.
- MinCost.Solver.AddComplementaryClusters: `ClusterCollection.getSubClusters()` is not part of this model. The walk reads its groups as the known proper sub-clusters of v, without v itself, one group per size present, largest first. It reads them from a snapshot of the clusters taken before the walk. Complements added during the walk that land in a size group not yet reached are therefore never visited. Visiting them would only re-add their own complements, which are already known, but it could stop the walk earlier. If the program's first group includes v, the program would also add the empty cluster.
- MinCost.Solver.WalkSubClusterGroups: walks the same snapshot, largest size first, excluding v, as stated for `AddComplementaryClusters`. The live iterator of `ComputeMinCostTask.java` lines 44-52 is not modelled.
- MinCost.Solver.LargestSubGroup: the first group of `getSubClusters()` is read by the same convention: the known proper sub-clusters of v of the largest size present.
- MinCostRules.SelectBest: it is stated only when no candidate scores exactly -1. A candidate with that score is taken for "nothing chosen yet"; `SentinelScoreIsReplaced` exhibits it.
- Consumer.Solver.ComputeMinCost: a list whose pairs are not proper splits of the vertex is the `OutOfStep` fault. The source trusts the producer here.
- The weight calculators, deep-coalescence counters, `SpeciesMapper`, `isSingleSP`, `scoreBaseCase` and the taxon-name maps are not part of this model. They are constant functions of the solvers or parameters.
- DataCollection.Collection.AddToClusters: `addToClusters` is defined outside the files of this model. It is modelled as set insertion that reports whether the cluster was new.
- Randomness is injected: `GlobalMaps.random.nextInt/nextBoolean` are functions of a draw counter.
- Similarity.GetClosestPresentTaxonId: the lazily built `orderedTaxonBySimilarity` cache is not modelled. The order is `SortColumn` of the matrix row each time.
- Similarity.GetInducedMatrix: requires distinct sample indices below the sample's size. `RandomSampleAroundPolytomy` proves its result has them. HashMap iteration order is a free choice.
- `convertToSpeciesDistance`, `UPGMA()` over singletons of the whole matrix, and `sortByDistance` are not modelled beyond `SortColumn`.
- `populateByQuartetDistanceLoop.run`'s walk over the tree is not modelled. Its calls to `updateQuartetDistanceForPair` and its denominator loop are.
- `Posterior`, branch annotation, frequencies and `getSamplingRepeationFactor` are floating point or output and are not modelled. Only the quartet-count products of the branch loop are.
- Consumer.Solver.OfferPair: `compute()` is defined in a class that is not part of this model; an unresolvable side is read as the null it returns, so cluster1 is still computed and the sum at line 95 then fails, while a fault is read as an exception that leaves before the other side is computed.
- DataCollection.PolytomySizeLimit: collecting and sorting the degrees (`Collections.sort` at WQDataCollection.java:1322) is left to the caller; the rule runs over the degrees in the order given.
- DataCollection.ResolveLinearly: models only the merge loop for one polytomy node; the greedy insertion before it and the calls to add each merged bitset to X are left out.
- `formSetX`, `secondRoundSampling` and `prepareConsensusTrees`' call to the greedy consensus are orchestration over components that are not part of this model.

## Findings

| source | as written | input that shows it | evidently intended | confidence | as-written member | corrected member |
|---|---|---|---|---|---|---|
| main/phylonet/coalescent/ComputeMinCostTask.java:268 | `else if (!pDisJoint && !pDisJoint)` tests the small side twice, so `extraTerms` is 2 whenever the small side meets the tree, even when the big side does not | small = {0}, big = {1}, tree taxa {0, 2}: 2 as written, but 1 with the sides swapped | `!pDisJoint && !qDisJoint`, a rule symmetric in the two sides | not executed | MinCostRules.ExtraTermsAsWrittenIsAsymmetric | MinCostRules.ExtraTermsSymmetric |
