/**
 * The memoised cluster DP of ComputeMinCostTask.computeMinCost.
 *
 * All Vertex objects live in one arena, `verts`, keyed by their cluster; the
 * arena's key set is the ClusterCollection the search runs over. The
 * collaborators the task calls but that are not part of this model (the weight
 * counter, the deep-coalescence counters, ClusterCollection's resolution
 * enumeration) are constant function fields of the solver.
 */
module MinCost {
  import opened Clusters
  import opened MinCostRules

  /** What `compute()` hands back: a score, `null` (CannotResolveException), or the RuntimeException of the `fast` mode. */
  datatype Answer = Score(value: int) | CannotResolve | NotImplemented

  /** `m2` only extends `m1`: no key disappears and no computed vertex changes. */
  ghost predicate Settled(m1: map<Cluster, Vertex>, m2: map<Cluster, Vertex>)
  {
    m1.Keys <= m2.Keys &&
    forall k :: k in m1 && m1[k].done != Unseen ==> m2[k] == m1[k]
  }

  /** Going from `m1` to `m2` touched only clusters of at most `sz` taxa. */
  ghost predicate SizeFrame(m1: map<Cluster, Vertex>, m2: map<Cluster, Vertex>, sz: nat)
  {
    (forall k :: k in m1 && |k| > sz ==> k in m2 && m2[k] == m1[k]) &&
    (forall k :: k in m2 && k !in m1 ==> |k| <= sz)
  }

  /** Every not-yet-computed vertex of at most `sz` taxa, other than `v`, is still as first inserted. */
  ghost predicate FreshExcept(m: map<Cluster, Vertex>, sz: nat, v: Cluster)
  {
    forall k :: k in m && |k| <= sz && k != v && m[k].done == Unseen ==> m[k] == Fresh
  }

  /** Every not-yet-computed vertex of at most `sz` taxa is still as first inserted. */
  ghost predicate FreshUpTo(m: map<Cluster, Vertex>, sz: nat)
  {
    forall k :: k in m && |k| <= sz && m[k].done == Unseen ==> m[k] == Fresh
  }

  /** `m2` keeps every entry of `m1` and every added entry is fresh. */
  ghost predicate GrowsFresh(m1: map<Cluster, Vertex>, m2: map<Cluster, Vertex>)
  {
    (forall k :: k in m1 ==> k in m2 && m2[k] == m1[k]) &&
    (forall k :: k in m2 && k !in m1 ==> m2[k] == Fresh)
  }

  /** The proper subsets of `c`, the empty set included. */
  ghost function ProperSubsets(c: Cluster): set<Cluster>
  {
    set d | d <= c && d != c
  }

  /** The complements within v of the clusters of g. */
  ghost function Complements(g: set<Cluster>, v: Cluster): set<Cluster>
  {
    set x | x in g :: ComplementaryCluster(x, v)
  }

  /** The known proper sub-clusters of v of exactly s taxa: one group of `getSubClusters`. */
  function Group(ks: set<Cluster>, v: Cluster, s: nat): set<Cluster>
  {
    set x | x in ks && x < v && |x| == s
  }

  /** The known proper sub-clusters of v of at least s taxa. */
  ghost function Above(ks: set<Cluster>, v: Cluster, s: nat): set<Cluster>
  {
    set y | y in ks && y < v && s <= |y|
  }

  /** For proper sub-clusters of v, being a complement means being a nonempty part of v whose complement is in g. */
  lemma ComplementsOf(g: set<Cluster>, v: Cluster)
    requires forall x :: x in g ==> x < v
    ensures forall k :: k in Complements(g, v) <==> k <= v && k != {} && v - k in g
  {
    forall k ensures k in Complements(g, v) <==> k <= v && k != {} && v - k in g {
      if k <= v && k != {} && v - k in g {
        assert v - (v - k) == k;
      }
      if k in Complements(g, v) {
        var x :| x in g && k == ComplementaryCluster(x, v);
        assert v - k == x;
        var e :| e in v && e !in x;
        assert e in k;
      }
    }
  }

  /** Complementing one more cluster adds its complement. */
  lemma ComplementsAdd(g: set<Cluster>, x: Cluster, v: Cluster)
    ensures Complements(g + {x}, v) == Complements(g, v) + {ComplementaryCluster(x, v)}
  {
  }

  /** One more cluster of the group has had its complement added. */
  lemma ComplementsLoopStep(k0: set<Cluster>, k1: set<Cluster>, k2: set<Cluster>,
                            group: set<Cluster>, todo: set<Cluster>, x: Cluster, v: Cluster)
    requires k1 == k0 + Complements(group - todo, v) && x in todo && todo <= group
    requires k2 == k1 + {ComplementaryCluster(x, v)}
    ensures k2 == k0 + Complements(group - (todo - {x}), v)
  {
    assert group - (todo - {x}) == (group - todo) + {x};
    ComplementsAdd(group - todo, x, v);
  }

  /** The groups of sizes s and above split into the group of size s and those above it. */
  lemma AboveStep(ks: set<Cluster>, v: Cluster, s: nat)
    ensures Above(ks, v, s) == Above(ks, v, s + 1) + Group(ks, v, s)
    ensures Complements(Above(ks, v, s), v) == Complements(Above(ks, v, s + 1), v) + Complements(Group(ks, v, s), v)
  {
    assert Above(ks, v, s) == Above(ks, v, s + 1) + Group(ks, v, s);
  }

  /** After the group of size s the walk has added the complements of every group of size s or more. */
  lemma WalkStep(k0: set<Cluster>, k1: set<Cluster>, k2: set<Cluster>, v: Cluster, s: nat)
    requires k1 == k0 + Complements(Above(k0, v, s + 1), v)
    requires k2 == k1 + Complements(Group(k0, v, s), v)
    ensures k2 == k0 + Complements(Above(k0, v, s), v)
  {
    AboveStep(k0, v, s);
  }

  /** No proper sub-cluster of v has as many taxa as v. */
  lemma AboveTop(ks: set<Cluster>, v: Cluster)
    ensures forall y :: y in ks && y < v ==> |y| < |v|
    ensures Above(ks, v, |v|) == {}
  {
    forall y | y in ks && y < v ensures |y| < |v| {
      SubsetSize(y, v);
    }
  }

  /** Growing by fresh entries twice is growing by fresh entries. */
  lemma GrowsFreshTrans(m0: map<Cluster, Vertex>, m1: map<Cluster, Vertex>, m2: map<Cluster, Vertex>)
    requires GrowsFresh(m0, m1) && GrowsFresh(m1, m2)
    ensures GrowsFresh(m0, m2)
  {
  }

  /** A part of v and its complement within v share out v's taxa. */
  lemma PartSizes(k: Cluster, v: Cluster)
    requires k <= v
    ensures |k| + |v - k| == |v|
  {
    assert v == k + (v - k) && k * (v - k) == {};
  }

  lemma SubsetSize(a: Cluster, b: Cluster)
    requires a <= b
    ensures |a| <= |b| && (a != b ==> |a| < |b|)
  {
    assert b == a + (b - a);
    assert a * (b - a) == {};
    if a != b {
      var x :| x in b && x !in a;
      assert x in b - a;
    }
  }

  lemma SettledTrans(m1: map<Cluster, Vertex>, m2: map<Cluster, Vertex>, m3: map<Cluster, Vertex>)
    requires Settled(m1, m2) && Settled(m2, m3)
    ensures Settled(m1, m3)
  {
  }

  lemma SizeFrameTrans(m1: map<Cluster, Vertex>, m2: map<Cluster, Vertex>, m3: map<Cluster, Vertex>, a: nat, b: nat)
    requires SizeFrame(m1, m2, a) && SizeFrame(m2, m3, b) && b <= a
    ensures SizeFrame(m1, m3, a)
  {
  }

  /** Adding fresh clusters inside v keeps every frame and freshness fact the DP relies on. */
  lemma GrowsWithin(m1: map<Cluster, Vertex>, m2: map<Cluster, Vertex>, v: Cluster)
    requires GrowsFresh(m1, m2) && forall k :: k in m2 && k !in m1 ==> k <= v
    ensures Settled(m1, m2) && SizeFrame(m1, m2, |v|)
    ensures forall sz: nat :: FreshExcept(m1, sz, v) ==> FreshExcept(m2, sz, v)
  {
    forall k | k in m2 && k !in m1 ensures |k| <= |v| {
      SubsetSize(k, v);
    }
  }

  class Solver {
    /** The vertex of every cluster of the collection. */
    var verts: map<Cluster, Vertex>

    /** `stTaxa.length`, the number of species. */
    const n: nat
    /** `CS`: clusters of at least `n * cs` taxa first add complementary clusters. */
    const cs: real
    /** `CD`: `add_complementary_clusters` stops after a group smaller than `clusterSize * cd`. */
    const cd: real
    const optimizeDuploss: int
    const homomorphicDL: bool
    const fast: bool
    /** `counter.treeAlls`: the taxa of each gene tree. */
    const treeAlls: seq<Cluster>
    /** The DP weight of a bipartition (`getCalculatedBiPartitionDPWeight`, or `CalculateWeightTask` when not cached). */
    const weight: Split -> int
    /** `DeepCoalescencesCounter.getClusterCoalNum(trees, cluster, ..)`. */
    const clusterCoalNum: Cluster -> int
    /** `DeepCoalescencesCounter.getClusterCoalNum_rooted(tree k, cluster, ..)`. */
    const coalNumRooted: (nat, Cluster) -> int
    /** `ClusterCollection.getClusterResolutions`: the bipartitions of a cluster over a set of known clusters, in the order they are offered. */
    const resolutions: (set<Cluster>, Cluster) -> seq<Split>
    /** How many passes of the `do … while (tryAnotherTime)` loop are made at most. */
    const retryBudget: nat

    /** The collection only offers proper bipartitions whose two sides it holds. */
    ghost predicate ResolutionsOk()
    {
      forall ks: set<Cluster>, v: Cluster, i ::
        0 <= i < |resolutions(ks, v)| ==>
          ProperSplit(resolutions(ks, v)[i], v) &&
          resolutions(ks, v)[i].small in ks && resolutions(ks, v)[i].big in ks
    }

    /** The score of a cluster of at most one taxon: `-getClusterCoalNum` under `optimizeDuploss == 3`, else 0. */
    function BaseScore(v: Cluster): int
    {
      if optimizeDuploss == 3 then -clusterCoalNum(v) else 0
    }

    /** The contribution of gene tree k to `calculateDLCost` for splitting v by s. */
    function DLTerm(v: Cluster, s: Split, k: nat): int
      requires k < |treeAlls|
    {
      var t := treeAlls[k];
      if homomorphicDL then
        if s.small * t == {} || s.big * t == {} then 0 else coalNumRooted(k, v)
      else
        coalNumRooted(k, v) + ExtraTerms(s.small, s.big, t)
    }

    /** The sum of the first k trees' contributions. */
    function DLPrefix(v: Cluster, s: Split, k: nat): int
      requires k <= |treeAlls|
    {
      if k == 0 then 0 else DLPrefix(v, s, k - 1) + DLTerm(v, s, k - 1)
    }

    /** `calculateDLCost(El, smallV, bigv)` for cluster v. */
    function DLCost(v: Cluster, s: Split): int
    {
      DLPrefix(v, s, |treeAlls|)
    }

    /** Tree k's contribution with `extraTerms` as written at line 268 of the program. */
    function DLTermAsWritten(v: Cluster, s: Split, k: nat): int
      requires k < |treeAlls|
    {
      var t := treeAlls[k];
      if homomorphicDL then
        if s.small * t == {} || s.big * t == {} then 0 else coalNumRooted(k, v)
      else
        coalNumRooted(k, v) + ExtraTermsAsWritten(s.small, s.big, t)
    }

    /** The first k trees' contributions with `extraTerms` as written. */
    function DLPrefixAsWritten(v: Cluster, s: Split, k: nat): int
      requires k <= |treeAlls|
    {
      if k == 0 then 0 else DLPrefixAsWritten(v, s, k - 1) + DLTermAsWritten(v, s, k - 1)
    }

    /** Tree j is one where the two rules disagree on s: non-homomorphic, met by the small side only. */
    ghost predicate RulesDisagree(s: Split, j: nat)
      requires j < |treeAlls|
    {
      !homomorphicDL && s.small * treeAlls[j] != {} && s.big * treeAlls[j] == {}
    }

    /**
     * The cost the program computes exceeds the intended one by at most one per
     * tree, and equals it unless some tree is met by the small side only.
     */
    lemma {:induction false} DLPrefixAsWrittenBounds(v: Cluster, s: Split, k: nat)
      requires k <= |treeAlls|
      ensures DLPrefix(v, s, k) <= DLPrefixAsWritten(v, s, k) <= DLPrefix(v, s, k) + k
      ensures (forall j :: 0 <= j < k ==> !RulesDisagree(s, j)) ==> DLPrefixAsWritten(v, s, k) == DLPrefix(v, s, k)
    {
      if k > 0 {
        DLPrefixAsWrittenBounds(v, s, k - 1);
        ExtraTermsAsWrittenBounds(s.small, s.big, treeAlls[k - 1]);
        if !RulesDisagree(s, k - 1) && !homomorphicDL {
          ExtraTermsAgreeElsewhere(s.small, s.big, treeAlls[k - 1]);
        }
      }
    }

    /** The duplication/loss cost does not depend on which side is called small. */
    lemma {:induction false} DLPrefixSymmetric(v: Cluster, s: Split, k: nat)
      requires k <= |treeAlls|
      ensures DLPrefix(v, s, k) == DLPrefix(v, Split(s.big, s.small), k)
    {
      if k > 0 {
        DLPrefixSymmetric(v, s, k - 1);
        ExtraTermsSymmetric(s.small, s.big, treeAlls[k - 1]);
      }
    }

    /** In the homomorphic model a tree counts exactly when both sides meet it, and then adds `El[k]`. */
    lemma {:induction false} DLPrefixHomomorphicBounds(v: Cluster, s: Split, k: nat)
      requires k <= |treeAlls| && homomorphicDL
      requires forall j :: 0 <= j < k ==> coalNumRooted(j, v) >= 0
      ensures 0 <= DLPrefix(v, s, k)
      ensures (forall j :: 0 <= j < k ==> s.small * treeAlls[j] == {} || s.big * treeAlls[j] == {}) ==> DLPrefix(v, s, k) == 0
    {
      if k > 0 {
        DLPrefixHomomorphicBounds(v, s, k - 1);
      }
    }

    /** The `c` of a candidate: `optimizeDuploss * w - e`, with e the DL cost under `optimizeDuploss == 3` and 0 otherwise. */
    function SplitCost(v: Cluster, s: Split): int
    {
      optimizeDuploss * weight(s) - (if optimizeDuploss == 3 then DLCost(v, s) else 0)
    }

    /** What offering bipartition s of v yields once both sides are decided in m. */
    function Outcome(m: map<Cluster, Vertex>, v: Cluster, s: Split): Candidate
    {
      if s.small in m && s.big in m && m[s.small].done == Done && m[s.big].done == Done then
        Scored(s, m[s.small].maxScore + m[s.big].maxScore + SplitCost(v, s), SplitCost(v, s))
      else Skipped
    }

    function Outcomes(m: map<Cluster, Vertex>, v: Cluster, res: seq<Split>): (os: seq<Candidate>)
      ensures |os| == |res|
      ensures forall j :: 0 <= j < |res| ==> os[j] == Outcome(m, v, res[j])
    {
      if |res| == 0 then [] else Outcomes(m, v, res[..|res| - 1]) + [Outcome(m, v, res[|res| - 1])]
    }

    /** The stored children of k are a proper split into two computed vertices, and the stored score is theirs plus the split cost. */
    ghost predicate ChildrenOk(m: map<Cluster, Vertex>, k: Cluster, x: Vertex)
      requires x.children.Some?
    {
      var s := x.children.value;
      ProperSplit(s, k) && s.small in m && s.big in m &&
      m[s.small].done == Done && m[s.big].done == Done &&
      x.c == SplitCost(k, s) &&
      x.maxScore == m[s.small].maxScore + m[s.big].maxScore + x.c
    }

    ghost predicate VertexOk(m: map<Cluster, Vertex>, k: Cluster, x: Vertex)
    {
      (x.done == Done && |k| <= 1 ==> x.maxScore == BaseScore(k) && x.children == None) &&
      (x.done == Done && |k| >= 2 ==> x.children.Some?) &&
      (x.done == Unresolvable ==> x.children == None) &&
      (x.children.Some? ==> ChildrenOk(m, k, x))
    }

    ghost predicate ValidMap(m: map<Cluster, Vertex>)
    {
      forall k {:trigger VertexOk(m, k, m[k])} :: k in m ==> VertexOk(m, k, m[k])
    }

    ghost predicate Valid()
      reads this
    {
      ResolutionsOk() && ValidMap(verts)
    }

    /** The cache `El`: every filled entry k holds `getClusterCoalNum_rooted(tree k, v)`. */
    ghost predicate ElCached(el: array<Option<int>>, v: Cluster)
      reads el
    {
      el.Length == |treeAlls| &&
      forall k :: 0 <= k < el.Length && el[k].Some? ==> el[k].value == coalNumRooted(k, v)
    }

    /** The score of the binary resolution tree that the stored children describe. */
    ghost function TreeScore(m: map<Cluster, Vertex>, k: Cluster): int
      decreases |k|
    {
      if k in m && m[k].children.Some? && ProperSplit(m[k].children.value, k) then
        var s := m[k].children.value;
        SplitSizes(s, k);
        TreeScore(m, s.small) + TreeScore(m, s.big) + SplitCost(k, s)
      else BaseScore(k)
    }

    /** The score memoised for a computed cluster is the score of the tree its children pointers spell out. */
    lemma {:induction false} StoredScoreIsTreeScore(m: map<Cluster, Vertex>, k: Cluster)
      requires ValidMap(m) && k in m && m[k].done == Done
      ensures m[k].maxScore == TreeScore(m, k)
      decreases |k|
    {
      assert VertexOk(m, k, m[k]);
      if |k| >= 2 {
        var s := m[k].children.value;
        assert ChildrenOk(m, k, m[k]);
        SplitSizes(s, k);
        StoredScoreIsTreeScore(m, s.small);
        StoredScoreIsTreeScore(m, s.big);
      }
    }

    lemma ValidAddFresh(m: map<Cluster, Vertex>, k: Cluster)
      requires ValidMap(m) && k !in m
      ensures ValidMap(m[k := Fresh])
    {
      var m2 := m[k := Fresh];
      forall j | j in m2 ensures VertexOk(m2, j, m2[j]) {
        if j != k {
          assert VertexOk(m, j, m[j]);
          if m[j].children.Some? {
            assert ChildrenOk(m, j, m[j]);
          }
        }
      }
    }

    /** Rewriting a vertex that is not computed yet cannot break any other vertex: none has it as a child. */
    lemma ValidSetUnseen(m: map<Cluster, Vertex>, v: Cluster, x: Vertex)
      requires ValidMap(m) && v in m && m[v].done == Unseen
      requires VertexOk(m, v, x)
      ensures ValidMap(m[v := x])
    {
      var m2 := m[v := x];
      forall j | j in m2 ensures VertexOk(m2, j, m2[j]) {
        if j != v {
          assert VertexOk(m, j, m[j]);
          if m[j].children.Some? {
            assert ChildrenOk(m, j, m[j]);
          }
        } else if x.children.Some? {
          assert ChildrenOk(m, v, x);
          SplitSizes(x.children.value, v);
        }
      }
    }

    /** Entries the outcomes do not look at can change freely. */
    lemma OutcomesAgree(m1: map<Cluster, Vertex>, m2: map<Cluster, Vertex>, v: Cluster, res: seq<Split>)
      requires forall j :: 0 <= j < |res| ==> Outcome(m1, v, res[j]) == Outcome(m2, v, res[j])
      ensures Outcomes(m1, v, res) == Outcomes(m2, v, res)
    {
    }

    /** Adding fresh clusters does not change the outcome of candidates whose sides were known. */
    lemma OutcomesGrow(m1: map<Cluster, Vertex>, m2: map<Cluster, Vertex>, v: Cluster, res: seq<Split>)
      requires GrowsFresh(m1, m2)
      requires forall j :: 0 <= j < |res| ==> res[j].small in m1 && res[j].big in m1
      ensures Outcomes(m1, v, res) == Outcomes(m2, v, res)
    {
      OutcomesAgree(m1, m2, v, res);
    }

    /** Both sides are decided: the big side failed, or it is computed and so is the small side. */
    ghost predicate Decided(m: map<Cluster, Vertex>, s: Split)
    {
      s.small in m && s.big in m && m[s.big].done != Unseen &&
      (m[s.big].done == Done ==> m[s.small].done != Unseen)
    }

    lemma DecidedStays(m1: map<Cluster, Vertex>, m2: map<Cluster, Vertex>, v: Cluster, s: Split)
      requires Decided(m1, s) && Settled(m1, m2)
      ensures Decided(m2, s) && Outcome(m1, v, s) == Outcome(m2, v, s)
    {
    }

    constructor (n: nat, cs: real, cd: real, optimizeDuploss: int, homomorphicDL: bool, fast: bool,
                 treeAlls: seq<Cluster>, weight: Split -> int, clusterCoalNum: Cluster -> int,
                 coalNumRooted: (nat, Cluster) -> int, resolutions: (set<Cluster>, Cluster) -> seq<Split>,
                 retryBudget: nat, clusters: set<Cluster>)
      requires forall ks: set<Cluster>, v: Cluster, i ::
        0 <= i < |resolutions(ks, v)| ==>
          ProperSplit(resolutions(ks, v)[i], v) &&
          resolutions(ks, v)[i].small in ks && resolutions(ks, v)[i].big in ks
      ensures Valid() && verts == (map k | k in clusters :: Fresh)
      ensures this.treeAlls == treeAlls && this.resolutions == resolutions && this.optimizeDuploss == optimizeDuploss
      ensures this.fast == fast && this.retryBudget == retryBudget
    {
      this.n := n;
      this.cs := cs;
      this.cd := cd;
      this.optimizeDuploss := optimizeDuploss;
      this.homomorphicDL := homomorphicDL;
      this.fast := fast;
      this.treeAlls := treeAlls;
      this.weight := weight;
      this.clusterCoalNum := clusterCoalNum;
      this.coalNumRooted := coalNumRooted;
      this.resolutions := resolutions;
      this.retryBudget := retryBudget;
      verts := map k | k in clusters :: Fresh;
    }

    /** `ClusterCollection.addCluster`: inserts a fresh vertex unless the cluster is known; says whether it was new. */
    method AddCluster(k: Cluster) returns (added: bool)
      requires Valid()
      modifies this
      ensures Valid()
      ensures added <==> k !in old(verts)
      ensures verts == if added then old(verts)[k := Fresh] else old(verts)
      ensures GrowsFresh(old(verts), verts)
    {
      added := k !in verts;
      if added {
        ValidAddFresh(verts, k);
        verts := verts[k := Fresh];
      }
    }

    /** `addAllPossibleSubClusters(c)`: every proper subset of c, the empty one included, becomes known. */
    method AddAllPossibleSubClusters(c: Cluster)
      requires Valid()
      modifies this
      decreases |c|
      ensures Valid()
      ensures verts.Keys == old(verts).Keys + ProperSubsets(c)
      ensures GrowsFresh(old(verts), verts)
    {
      ghost var keys0 := verts.Keys;
      var rest := c;
      while rest != {}
        invariant rest <= c && Valid()
        invariant verts.Keys == keys0 + (set d | d <= c && !(c - rest <= d))
        invariant GrowsFresh(old(verts), verts)
        decreases |rest|
      {
        var i :| i in rest;
        var d := c - {i};
        ghost var before := verts.Keys;
        var _ := AddCluster(d);
        AddAllPossibleSubClusters(d);
        SubsetsStep(c, rest, i, keys0, before, verts.Keys);
        rest := rest - {i};
      }
      SubsetsDone(c, keys0);
    }

    /** Removing `i` from the rest adds `c - {i}` and its proper subsets: exactly the subsets of `c` that now miss a removed element. */
    lemma SubsetsStep(c: Cluster, rest: Cluster, i: nat, keys0: set<Cluster>, before: set<Cluster>, after: set<Cluster>)
      requires i in rest && rest <= c
      requires before == keys0 + (set d | d <= c && !(c - rest <= d))
      requires after == before + {c - {i}} + ProperSubsets(c - {i})
      ensures after == keys0 + (set d | d <= c && !(c - (rest - {i}) <= d))
    {
      var d := c - {i};
      var done := c - rest;
      assert c - (rest - {i}) == done + {i};
      forall x ensures x in after <==> x in keys0 || (x <= c && !(c - (rest - {i}) <= x)) {
        if x <= d && x != d {
          assert x in ProperSubsets(d);
        }
        if x in ProperSubsets(d) {
          assert x <= c;
        }
      }
    }

    /** Once nothing is left, the subsets of `c` that miss an element are its proper subsets. */
    lemma SubsetsDone(c: Cluster, keys0: set<Cluster>)
      ensures keys0 + (set d | d <= c && !(c - {} <= d)) == keys0 + ProperSubsets(c)
    {
      forall x ensures x in (set d | d <= c && !(c - {} <= d)) <==> x in ProperSubsets(c) {
      }
    }

    /**
     * The body of the loops over a group of sub-clusters (lines 48-53 and
     * 195-200): the complement within v of every cluster of the group becomes
     * known; the result says whether any of them was new.
     */
    method AddComplementsOf(v: Cluster, group: set<Cluster>) returns (added: bool)
      requires Valid()
      modifies this
      ensures Valid() && GrowsFresh(old(verts), verts)
      ensures verts.Keys == old(verts).Keys + Complements(group, v)
      ensures added <==> verts.Keys != old(verts).Keys
    {
      added := false;
      var todo := group;
      while todo != {}
        invariant todo <= group && Valid() && GrowsFresh(old(verts), verts)
        invariant verts.Keys == old(verts).Keys + Complements(group - todo, v)
        invariant added <==> verts.Keys != old(verts).Keys
        decreases |todo|
      {
        var x :| x in todo;
        ghost var m := verts;
        var a := AddCluster(ComplementaryCluster(x, v));
        GrowsFreshTrans(old(verts), m, verts);
        added := added || a;
        ComplementsLoopStep(old(verts).Keys, m.Keys, verts.Keys, group, todo, x, v);
        todo := todo - {x};
      }
    }

    /** Cluster size sz lies below the `cd` threshold of v, where `add_complementary_clusters` stops. */
    predicate BelowThreshold(v: Cluster, sz: nat)
    {
      (sz as real) < (|v| as real) * cd
    }

    /** Every known proper sub-cluster of v of at least t taxa reaches the threshold. */
    ghost predicate ReachedFrom(ks: set<Cluster>, v: Cluster, t: nat)
    {
      forall y :: y in ks && y < v && t <= |y| ==> !BelowThreshold(v, |y|)
    }

    /** Every cluster of ks strictly inside v that is larger than s stands at or above the `cd` threshold. */
    ghost predicate ComplementReached(ks: set<Cluster>, v: Cluster, s: nat)
    {
      forall y :: y in ks && y < v && s < |y| ==> !BelowThreshold(v, |y|)
    }

    /** Reaching the threshold from t on implies reaching it from t + 1 on. */
    lemma ReachedMonotone(ks: set<Cluster>, v: Cluster, t: nat)
      requires ReachedFrom(ks, v, t)
      ensures ReachedFrom(ks, v, t + 1)
    {
    }

    /** A group that is empty or reaches the threshold lets the walk go on. */
    lemma ReachedStep(ks: set<Cluster>, v: Cluster, s: nat)
      requires ReachedFrom(ks, v, s + 1) && (Group(ks, v, s) == {} || !BelowThreshold(v, s))
      ensures ReachedFrom(ks, v, s)
    {
      forall y | y in ks && y < v && s == |y| ensures y in Group(ks, v, s) {
      }
    }

    /** Where the walk over the groups stops, the clusters it added are exactly the complements the ensures of `AddComplementaryClusters` describes. */
    lemma StopKeys(ks: set<Cluster>, keys: set<Cluster>, v: Cluster, s: nat)
      requires keys == ks + Complements(Above(ks, v, s), v) && WalkStopped(ks, v, s)
      ensures forall k :: k in keys <==> k in ks || (k <= v && k != {} && v - k in ks && ComplementReached(ks, v, |v - k|))
    {
      ComplementsOf(Above(ks, v, s), v);
      forall k | k <= v && k != {} && v - k in ks
        ensures v - k in Above(ks, v, s) <==> ComplementReached(ks, v, |v - k|)
      {
        var y := v - k;
        var e :| e in k;
        assert e in v && e !in y;
        if s > 0 && ComplementReached(ks, v, |y|) {
          var z :| z in Group(ks, v, s);
          assert !(s > |y|);
        }
      }
    }

    /** Where the walk over the groups of sub-clusters of v stopped: at size 0, or at the first group below the threshold. */
    ghost predicate WalkStopped(ks: set<Cluster>, v: Cluster, s: nat)
    {
      ReachedFrom(ks, v, s + 1) && (s == 0 || (Group(ks, v, s) != {} && BelowThreshold(v, s)))
    }

    /**
     * The loop of `add_complementary_clusters`: walks the groups of known
     * sub-clusters of v from largest to smallest, adds the complement (within
     * v) of each member, and stops after the first group smaller than `|v| * cd`.
     */
    method WalkSubClusterGroups(v: Cluster) returns (ghost stopAt: nat)
      requires Valid()
      modifies this
      ensures Valid() && GrowsFresh(old(verts), verts)
      ensures WalkStopped(old(verts).Keys, v, stopAt)
      ensures verts.Keys == old(verts).Keys + Complements(Above(old(verts).Keys, v, stopAt), v)
    {
      var keys0 := verts.Keys;
      var s: nat := |v|;
      AboveTop(keys0, v);
      var stop := false;
      while s > 0 && !stop
        invariant s <= |v| && Valid()
        invariant ReachedFrom(keys0, v, if stop then s + 1 else s)
        invariant stop ==> Group(keys0, v, s) != {} && BelowThreshold(v, s)
        invariant verts.Keys == keys0 + Complements(Above(keys0, v, s), v)
        invariant GrowsFresh(old(verts), verts)
        decreases s
      {
        s := s - 1;
        var group := Group(keys0, v, s);
        ghost var m := verts;
        var _ := AddComplementsOf(v, group);
        GrowsFreshTrans(old(verts), m, verts);
        WalkStep(keys0, m.Keys, verts.Keys, v, s);
        // the walk returns after the first group below the threshold
        stop := group != {} && BelowThreshold(v, s);
        if !stop {
          ReachedStep(keys0, v, s);
        }
      }
      if !stop {
        ReachedMonotone(keys0, v, s);
      }
      stopAt := s;
    }

    /**
     * `add_complementary_clusters`: the complement within v of a known
     * sub-cluster y of v is added exactly when every group of sub-clusters
     * larger than y reaches the `cd` threshold.
     */
    method AddComplementaryClusters(v: Cluster)
      requires Valid()
      modifies this
      ensures Valid()
      ensures forall k :: k in verts.Keys <==>
        k in old(verts).Keys ||
        (k <= v && k != {} && v - k in old(verts).Keys && ComplementReached(old(verts).Keys, v, |v - k|))
      ensures GrowsFresh(old(verts), verts)
    {
      ghost var stopAt := WalkSubClusterGroups(v);
      StopKeys(old(verts).Keys, verts.Keys, v, stopAt);
    }

    /** The largest sub-cluster size of v in ks is s: the first group `getSubClusters` yields. */
    ghost predicate IsLargestSub(ks: set<Cluster>, v: Cluster, s: nat)
    {
      (exists x :: x in ks && x < v && |x| == s) &&
      forall y :: y in ks && y < v ==> |y| <= s
    }

    /**
     * The first group `getSubClusters(v)` yields: the known proper sub-clusters
     * of v of the largest size s present, or no group when v has none.
     */
    method LargestSubGroup(v: Cluster) returns (s: nat, group: set<Cluster>)
      ensures group == Group(verts.Keys, v, s)
      ensures group != {} ==> IsLargestSub(verts.Keys, v, s)
      ensures group == {} ==> forall y :: y in verts ==> !(y < v)
    {
      s := |v|;
      group := {};
      forall y | y in verts && y < v ensures |y| < |v| {
        SubsetSize(y, v);
      }
      while s > 0 && group == {}
        invariant s <= |v|
        invariant forall y :: y in verts && y < v ==> |y| <= s
        invariant group == {} ==> forall y :: y in verts && y < v ==> |y| < s
        invariant group == set x | x in verts && x < v && |x| == s
        decreases s
      {
        s := s - 1;
        group := set x | x in verts && x < v && |x| == s;
        forall y | y in verts && y < v && |y| == s ensures y in group {
        }
      }
      if group != {} {
        var y0 :| y0 in group;
      }
    }

    /** The clusters the growth step adds are the complements, of more than one taxon, of the largest known sub-clusters. */
    lemma LargestGroupKeys(ks: set<Cluster>, keys: set<Cluster>, v: Cluster, s: nat, group: set<Cluster>)
      requires group == Group(ks, v, s)
      requires group != {} ==> IsLargestSub(ks, v, s)
      requires group == {} ==> forall y :: y in ks ==> !(y < v)
      requires keys == ks + (if group != {} && |v| - s > 1 then Complements(group, v) else {})
      ensures forall k :: k in keys <==>
        k in ks || (k <= v && |k| > 1 && v - k in ks && v - k < v && IsLargestSub(ks, v, |v - k|))
    {
      ComplementsOf(group, v);
      forall k ensures k in keys <==>
        k in ks || (k <= v && |k| > 1 && v - k in ks && v - k < v && IsLargestSub(ks, v, |v - k|))
      {
        if k <= v {
          PartSizes(k, v);
          if v - k in ks && v - k < v && IsLargestSub(ks, v, |v - k|) {
            assert v - k in group;
          }
        }
      }
    }

    /**
     * The growth step for a cluster of more than five taxa (lines 188-199): the
     * complements of the largest known sub-clusters are added when they have
     * more than one taxon; the result says whether any of them was new.
     */
    method GrowByLargestGroup(v: Cluster) returns (again: bool)
      requires Valid()
      modifies this
      ensures Valid()
      ensures forall k :: k in verts.Keys <==>
        k in old(verts).Keys ||
        (k <= v && |k| > 1 && v - k in old(verts).Keys && v - k < v && IsLargestSub(old(verts).Keys, v, |v - k|))
      ensures again <==> verts.Keys != old(verts).Keys
      ensures GrowsFresh(old(verts), verts)
    {
      var keys0 := verts.Keys;
      again := false;
      var s, group := LargestSubGroup(v);
      var complementarySize := |v| - s;
      if group != {} && complementarySize > 1 {
        again := AddComplementsOf(v, group);
        ComplementsOf(group, v);
      }
      LargestGroupKeys(keys0, verts.Keys, v, s, group);
    }

    /** `calculateDLCost`: the DL cost of splitting v by s, filling the `El` cache on the way. */
    method CalculateDLCost(el: array<Option<int>>, v: Cluster, s: Split) returns (e: int)
      requires ElCached(el, v)
      modifies el
      ensures ElCached(el, v)
      ensures e == DLCost(v, s)
    {
      e := 0;
      var k := 0;
      while k < |treeAlls|
        invariant 0 <= k <= |treeAlls| && ElCached(el, v)
        invariant e == DLPrefix(v, s, k)
      {
        var t := treeAlls[k];
        if homomorphicDL {
          if !(s.small * t == {} || s.big * t == {}) {
            if el[k] == None {
              el[k] := Some(coalNumRooted(k, v));
            }
            e := e + el[k].value;
          }
        } else {
          var extraTerms := ExtraTerms(s.small, s.big, t);
          if el[k] == None {
            el[k] := Some(coalNumRooted(k, v));
          }
          e := e + (el[k].value + extraTerms);
        }
        k := k + 1;
      }
    }

    /** The invariant of the candidate loop after the first j candidates of res have been offered. */
    ghost predicate CandInv(orig: map<Cluster, Vertex>, m: map<Cluster, Vertex>, v: Cluster,
                            res: seq<Split>, j: nat, start: Vertex)
    {
      j <= |res| && v in m && m[v].done == Unseen &&
      Settled(orig, m) && SizeFrame(orig, m, |v|) && FreshExcept(m, |v|, v) &&
      (forall i :: 0 <= i < |res| ==> ProperSplit(res[i], v) && res[i].small in m && res[i].big in m) &&
      (forall i :: 0 <= i < j ==> Decided(m, res[i])) &&
      m[v] == Select(start, Outcomes(m, v, res[..j]))
    }

    /** Computing a side (of fewer taxa than v) keeps the candidate loop's invariant. */
    lemma CandAfterChild(orig: map<Cluster, Vertex>, m0: map<Cluster, Vertex>, m1: map<Cluster, Vertex>,
                         v: Cluster, usz: nat, res: seq<Split>, j: nat, start: Vertex)
      requires CandInv(orig, m0, v, res, j, start)
      requires usz < |v| && Settled(m0, m1) && SizeFrame(m0, m1, usz) && FreshUpTo(m1, usz)
      ensures CandInv(orig, m1, v, res, j, start)
    {
      SettledTrans(orig, m0, m1);
      SizeFrameTrans(orig, m0, m1, |v|, usz);
      forall i | 0 <= i < j ensures Decided(m1, res[i]) && Outcome(m0, v, res[i]) == Outcome(m1, v, res[i]) {
        DecidedStays(m0, m1, v, res[i]);
      }
      OutcomesAgree(m0, m1, v, res[..j]);
    }

    /** Offering candidate j, once both its sides are decided, keeps the candidate loop's invariant. */
    lemma CandStep(orig: map<Cluster, Vertex>, m: map<Cluster, Vertex>, v: Cluster,
                   res: seq<Split>, j: nat, start: Vertex, x: Vertex)
      requires CandInv(orig, m, v, res, j, start) && j < |res| && Decided(m, res[j])
      requires x == Accept(m[v], Outcome(m, v, res[j]))
      ensures CandInv(orig, m[v := x], v, res, j + 1, start)
    {
      var m2 := m[v := x];
      UnseenUpdate(orig, m, v, x, |v|);
      SidesUntouched(m, v, res, x);
      OutcomesAgree(m, m2, v, res[..j + 1]);
      assert res[..j + 1][..j] == res[..j];
      assert Outcomes(m, v, res[..j + 1]) == Outcomes(m, v, res[..j]) + [Outcome(m, v, res[j])];
    }

    /** Changing a not-yet-computed `v` in place keeps the frame around it. */
    lemma UnseenUpdate(orig: map<Cluster, Vertex>, m: map<Cluster, Vertex>, v: Cluster, x: Vertex, sz: nat)
      requires v in m && m[v].done == Unseen && x.done == Unseen && |v| <= sz
      requires Settled(orig, m) && SizeFrame(orig, m, sz) && FreshExcept(m, sz, v)
      ensures Settled(orig, m[v := x]) && SizeFrame(orig, m[v := x], sz) && FreshExcept(m[v := x], sz, v)
    {
    }

    /** The sides of a proper split of `v` are not `v`, so changing `v` leaves their outcomes alone. */
    lemma SidesUntouched(m: map<Cluster, Vertex>, v: Cluster, res: seq<Split>, x: Vertex)
      requires forall i :: 0 <= i < |res| ==> ProperSplit(res[i], v)
      ensures forall i :: 0 <= i < |res| ==> Outcome(m, v, res[i]) == Outcome(m[v := x], v, res[i])
      ensures forall i :: 0 <= i < |res| && Decided(m, res[i]) ==> Decided(m[v := x], res[i])
    {
      forall i | 0 <= i < |res|
        ensures Outcome(m, v, res[i]) == Outcome(m[v := x], v, res[i])
        ensures Decided(m, res[i]) ==> Decided(m[v := x], res[i])
      {
        SplitSizes(res[i], v);
      }
    }

    /** A candidate that is skipped or rejected leaves the arena as it is. */
    lemma CandKeep(orig: map<Cluster, Vertex>, m: map<Cluster, Vertex>, v: Cluster,
                   res: seq<Split>, j: nat, start: Vertex)
      requires CandInv(orig, m, v, res, j, start) && j < |res| && Decided(m, res[j])
      requires Accept(m[v], Outcome(m, v, res[j])) == m[v]
      ensures CandInv(orig, m, v, res, j + 1, start)
    {
      CandStep(orig, m, v, res, j, start, m[v]);
      assert m[v := m[v]] == m;
    }

    /** Both sides computed: the candidate is scored with the sides' scores plus its split cost. */
    lemma ScoredOutcome(m1: map<Cluster, Vertex>, m: map<Cluster, Vertex>, v: Cluster, s: Split, l: int, r: int)
      requires s.big in m1 && m1[s.big].done == Done && r == m1[s.big].maxScore && Settled(m1, m)
      requires s.small in m && m[s.small].done == Done && l == m[s.small].maxScore
      ensures Outcome(m, v, s) == Scored(s, l + r + SplitCost(v, s), SplitCost(v, s))
    {
    }

    lemma FreshNarrow(m: map<Cluster, Vertex>, v: Cluster, sz: nat)
      requires FreshExcept(m, |v|, v) && sz < |v|
      ensures FreshUpTo(m, sz)
    {
    }

    /**
     * `computeMinCost` for the vertex of cluster v. A decided vertex answers from
     * memory; a cluster of at most one taxon gets its base score; otherwise the
     * candidate bipartitions are scored, the search space grown and the scoring
     * retried while nothing resolves, and the outcome memoised.
     */
    method ComputeMinCost(v: Cluster) returns (r: Answer)
      requires Valid() && v in verts && FreshUpTo(verts, |v|)
      modifies this
      decreases |v|, 5
      ensures Valid() && v in verts
      ensures Settled(old(verts), verts) && SizeFrame(old(verts), verts, |v|) && FreshUpTo(verts, |v|)
      ensures old(verts)[v].done != Unseen ==> verts == old(verts)
      ensures old(verts)[v].done == Unresolvable ==> r == CannotResolve
      ensures old(verts)[v].done == Done ==> r == Score(old(verts)[v].maxScore)
      ensures r.Score? <==> verts[v].done == Done
      ensures r.Score? ==> r.value == verts[v].maxScore
      ensures r == CannotResolve <==> verts[v].done == Unresolvable
      ensures r == NotImplemented ==> fast && |v| >= 2 && verts == old(verts)
      ensures old(verts)[v].done == Unseen && |v| <= 1 ==> r == Score(BaseScore(v)) && verts[v].children == None
      ensures old(verts)[v].done == Unseen && !fast && |v| >= 2 ==>
        r != NotImplemented &&
        exists ks: set<Cluster> ::
          old(verts).Keys <= ks <= verts.Keys &&
          verts[v] == Select(Fresh, Outcomes(verts, v, resolutions(ks, v))).(done := verts[v].done)
    {
      if verts[v].done == Unresolvable {
        return CannotResolve;
      }
      if verts[v].done == Done {
        return Score(verts[v].maxScore);
      }
      if |v| <= 1 {
        var elNum := if optimizeDuploss == 3 then clusterCoalNum(v) else 0;
        var x := verts[v].(maxScore := -elNum, children := None, done := Done);
        ValidSetUnseen(verts, v, x);
        verts := verts[v := x];
        return Score(x.maxScore);
      }
      if fast {
        return NotImplemented;
      }
      var el := new Option<int>[|treeAlls|](_ => None);
      var attempts := 0;
      var again := true;
      ghost var ks: set<Cluster> := {};
      while again
        invariant ValidMap(verts) && ElCached(el, v) && attempts <= retryBudget + 1
        invariant again ==> attempts <= retryBudget
        invariant v in verts && verts[v].done == Unseen
        invariant Settled(old(verts), verts) && SizeFrame(old(verts), verts, |v|) && FreshExcept(verts, |v|, v)
        invariant again ==> verts[v] == Fresh
        invariant !again ==> attempts > 0
        invariant attempts > 0 ==> verts[v] == Select(Fresh, Outcomes(verts, v, resolutions(ks, v)))
        invariant attempts > 0 ==> old(verts).Keys <= ks <= verts.Keys
        decreases retryBudget + 1 - attempts, again
      {
        ghost var m0 := verts;
        again, ks := Attempt(v, el);
        SettledTrans(old(verts), m0, verts);
        SizeFrameTrans(old(verts), m0, verts, |v|, |v|);
        attempts := attempts + 1;
        if attempts > retryBudget {
          again := false;
        }
      }
      var x;
      if verts[v].children == None {
        x := verts[v].(done := Unresolvable);
        r := CannotResolve;
      } else {
        x := verts[v].(done := Done);
        assert VertexOk(verts, v, verts[v]);
        r := Score(x.maxScore);
      }
      Memoise(verts, v, x, ks);
      DecideFrame(old(verts), verts, v, x);
      verts := verts[v := x];
    }

    /** Deciding `v`, the last vertex of its size still open, keeps the frame of the call. */
    lemma DecideFrame(orig: map<Cluster, Vertex>, m: map<Cluster, Vertex>, v: Cluster, x: Vertex)
      requires v in m && m[v].done == Unseen && x.done != Unseen
      requires Settled(orig, m) && SizeFrame(orig, m, |v|) && FreshExcept(m, |v|, v)
      ensures Settled(orig, m[v := x]) && SizeFrame(orig, m[v := x], |v|) && FreshUpTo(m[v := x], |v|)
    {
    }

    /** Recording the final `_done` keeps the arena valid and the vertex's relation to its candidates. */
    lemma Memoise(m: map<Cluster, Vertex>, v: Cluster, x: Vertex, ks: set<Cluster>)
      requires ResolutionsOk() && ValidMap(m) && v in m && m[v].done == Unseen
      requires m[v] == Select(Fresh, Outcomes(m, v, resolutions(ks, v)))
      requires x == m[v].(done := x.done) && VertexOk(m, v, x)
      ensures ValidMap(m[v := x])
      ensures x == Select(Fresh, Outcomes(m[v := x], v, resolutions(ks, v))).(done := x.done)
    {
      ValidSetUnseen(m, v, x);
      forall i | 0 <= i < |resolutions(ks, v)|
        ensures Outcome(m, v, resolutions(ks, v)[i]) == Outcome(m[v := x], v, resolutions(ks, v)[i])
      {
        SplitSizes(resolutions(ks, v)[i], v);
      }
      OutcomesAgree(m, m[v := x], v, resolutions(ks, v));
    }

    /**
     * One pass of the `do … while (tryAnotherTime)` loop: complementary
     * clusters for a large cluster, then the candidate loop over the current
     * resolutions, then, when nothing resolved, growth of the search space.
     * `again` is the new `tryAnotherTime`; `ks` the clusters the resolutions
     * were drawn from.
     */
    method Attempt(v: Cluster, el: array<Option<int>>) returns (again: bool, ghost ks: set<Cluster>)
      requires Valid() && v in verts && verts[v] == Fresh && |v| >= 2 && !fast
      requires FreshExcept(verts, |v|, v) && ElCached(el, v)
      modifies this, el
      decreases |v|, 4
      ensures Valid() && ElCached(el, v) && v in verts && verts[v].done == Unseen
      ensures Settled(old(verts), verts) && SizeFrame(old(verts), verts, |v|) && FreshExcept(verts, |v|, v)
      ensures verts[v] == Select(Fresh, Outcomes(verts, v, resolutions(ks, v)))
      ensures again ==> verts[v] == Fresh
      ensures old(verts).Keys <= ks <= verts.Keys
      ensures (|v| as real) < (n as real) * cs ==> ks == old(verts).Keys
      ensures (|v| as real) >= (n as real) * cs ==> forall k :: k in ks <==>
        k in old(verts).Keys ||
        (k <= v && k != {} && v - k in old(verts).Keys && ComplementReached(old(verts).Keys, v, |v - k|))
    {
      if (|v| as real) >= (n as real) * cs {
        ghost var m0 := verts;
        AddComplementaryClusters(v);
        GrowsWithin(m0, verts, v);
      }
      ghost var m1 := verts;
      again, ks := ScoreThenGrow(v, el);
      SettledTrans(old(verts), m1, verts);
      SizeFrameTrans(old(verts), m1, verts, |v|, |v|);
    }

    /** The candidate loop over the current resolutions, then the growth step if nothing resolved. */
    method ScoreThenGrow(v: Cluster, el: array<Option<int>>) returns (again: bool, ghost ks: set<Cluster>)
      requires Valid() && v in verts && verts[v] == Fresh && |v| >= 2 && !fast
      requires FreshExcept(verts, |v|, v) && ElCached(el, v)
      modifies this, el
      decreases |v|, 3
      ensures Valid() && ElCached(el, v) && v in verts && verts[v].done == Unseen
      ensures Settled(old(verts), verts) && SizeFrame(old(verts), verts, |v|) && FreshExcept(verts, |v|, v)
      ensures verts[v] == Select(Fresh, Outcomes(verts, v, resolutions(ks, v)))
      ensures again ==> verts[v] == Fresh
      ensures ks == old(verts).Keys && ks <= verts.Keys
    {
      again := false;
      ks := verts.Keys;
      var res := resolutions(verts.Keys, v);
      ResolveCandidates(v, res, el);
      if verts[v].children == None {
        SelectChoosesIffScored(Fresh, Outcomes(verts, v, res));
        SelectFrame(Fresh, Outcomes(verts, v, res));
        ghost var m2 := verts;
        again := GrowSearchSpace(v);
        SettledTrans(old(verts), m2, verts);
        SizeFrameTrans(old(verts), m2, verts, |v|, |v|);
        OutcomesGrow(m2, verts, v, res);
      }
    }

    /**
     * The growth step when no candidate resolved: all subsets for a cluster of
     * at most five taxa (and always try again), otherwise the complements of
     * the largest sub-clusters (and try again iff one was new).
     */
    method GrowSearchSpace(v: Cluster) returns (again: bool)
      requires Valid()
      modifies this
      ensures Valid() && GrowsFresh(old(verts), verts)
      ensures Settled(old(verts), verts) && SizeFrame(old(verts), verts, |v|)
      ensures forall sz: nat :: FreshExcept(old(verts), sz, v) ==> FreshExcept(verts, sz, v)
      ensures |v| <= 5 ==> again && verts.Keys == old(verts).Keys + ProperSubsets(v)
      ensures |v| > 5 ==> (again <==> verts.Keys != old(verts).Keys)
    {
      if |v| <= 5 {
        AddAllPossibleSubClusters(v);
        assert forall k :: k in verts && k !in old(verts) ==> k <= v;
        again := true;
      } else {
        again := GrowByLargestGroup(v);
      }
      GrowsWithin(old(verts), verts, v);
    }

    /**
     * One pass of the candidate loop for `res[j]`: the big side is computed
     * first and, only if it resolves, the small side is tried.
     */
    method OfferCandidate(v: Cluster, res: seq<Split>, j: nat, el: array<Option<int>>,
                          ghost orig: map<Cluster, Vertex>, ghost start: Vertex)
      requires Valid() && ElCached(el, v) && !fast
      requires CandInv(orig, verts, v, res, j, start) && j < |res|
      modifies this, el
      decreases |v|, 1
      ensures Valid() && ElCached(el, v)
      ensures CandInv(orig, verts, v, res, j + 1, start)
    {
      var s := res[j];
      SplitSizes(s, v);
      FreshNarrow(verts, v, |s.big|);
      ghost var m0 := verts;
      var rscore := ComputeMinCost(s.big);
      CandAfterChild(orig, m0, verts, v, |s.big|, res, j, start);
      if rscore.Score? {
        OfferWithBigSide(v, res, j, el, orig, start, rscore.value);
      } else {
        CandKeep(orig, verts, v, res, j, start);
      }
    }

    /**
     * The rest of the pass once the big side scored `rscore`: the small side is
     * computed and, if it resolves, `lscore + rscore + c` is offered to the
     * vertex, where c is the split cost.
     */
    method OfferWithBigSide(v: Cluster, res: seq<Split>, j: nat, el: array<Option<int>>,
                            ghost orig: map<Cluster, Vertex>, ghost start: Vertex, rscore: int)
      requires Valid() && ElCached(el, v) && !fast
      requires CandInv(orig, verts, v, res, j, start) && j < |res|
      requires res[j].big in verts && verts[res[j].big].done == Done && verts[res[j].big].maxScore == rscore
      modifies this, el
      decreases |v|, 0
      ensures Valid() && ElCached(el, v)
      ensures CandInv(orig, verts, v, res, j + 1, start)
    {
      var s := res[j];
      SplitSizes(s, v);
      FreshNarrow(verts, v, |s.small|);
      ghost var m1 := verts;
      var lscore := ComputeMinCost(s.small);
      CandAfterChild(orig, m1, verts, v, |s.small|, res, j, start);
      if !lscore.Score? {
        CandKeep(orig, verts, v, res, j, start);
        return;
      }
      var w := weight(s);
      var e := 0;
      if optimizeDuploss == 3 {
        e := CalculateDLCost(el, v, s);
      }
      var c := optimizeDuploss * w - e;
      assert c == SplitCost(v, s);
      ScoredOutcome(m1, verts, v, s, lscore.value, rscore);
      var score := lscore.value + rscore + c;
      if verts[v].maxScore != -1 && score < verts[v].maxScore {
        CandKeep(orig, verts, v, res, j, start);
        return;
      }
      var x := verts[v].(maxScore := score, children := Some(s), c := c);
      OfferScored(orig, verts, v, res, j, start, score, c, x);
      verts := verts[v := x];
    }

    /** A scored candidate that the acceptance rule takes becomes the vertex's children, keeping the arena valid. */
    lemma OfferScored(orig: map<Cluster, Vertex>, m: map<Cluster, Vertex>, v: Cluster,
                      res: seq<Split>, j: nat, start: Vertex, score: int, c: int, x: Vertex)
      requires ValidMap(m) && CandInv(orig, m, v, res, j, start) && j < |res|
      requires Outcome(m, v, res[j]) == Scored(res[j], score, c)
      requires !(m[v].maxScore != -1 && score < m[v].maxScore)
      requires x == m[v].(maxScore := score, children := Some(res[j]), c := c)
      ensures ValidMap(m[v := x]) && CandInv(orig, m[v := x], v, res, j + 1, start)
    {
      assert x == Accept(m[v], Outcome(m, v, res[j]));
      assert ChildrenOk(m, v, x);
      ValidSetUnseen(m, v, x);
      CandStep(orig, m, v, res, j, start, x);
    }

    /**
     * The `for (STBipartition bi : getClusterResolutions())` loop: each
     * candidate's big side and then its small side are computed; a candidate
     * with a side that cannot be resolved is skipped, and a scored one is
     * offered to the vertex under the acceptance rule.
     */
    method ResolveCandidates(v: Cluster, res: seq<Split>, el: array<Option<int>>)
      requires Valid() && v in verts && verts[v].done == Unseen && !fast
      requires forall j :: 0 <= j < |res| ==> ProperSplit(res[j], v) && res[j].small in verts && res[j].big in verts
      requires FreshExcept(verts, |v|, v) && ElCached(el, v)
      modifies this, el
      decreases |v|, 2
      ensures Valid() && ElCached(el, v)
      ensures CandInv(old(verts), verts, v, res, |res|, old(verts)[v])
      ensures verts[v] == Select(old(verts)[v], Outcomes(verts, v, res))
    {
      ghost var start := verts[v];
      var j := 0;
      while j < |res|
        invariant Valid() && ElCached(el, v)
        invariant CandInv(old(verts), verts, v, res, j, start)
      {
        OfferCandidate(v, res, j, el, old(verts), start);
        j := j + 1;
      }
      assert res[..j] == res;
    }
  }
}
