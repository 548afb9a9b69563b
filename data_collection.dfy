/**
 * Search-space helpers of `WQDataCollection`: the guarded insertion of a
 * bipartition into the set X of clusters, the polytomy size limit, the
 * decision whether to add quadratic bitsets, polytomy detection, the child
 * lists built around a polytomy, the one-taxon-per-child sample, the
 * translation of a sampled bitset back to taxa, the counting of bitsets up to
 * complement, and the random pairwise merging of `resolveLinearly`.
 */
module DataCollection {
  import opened Clusters
  import Similarity

  const GreedyDistAdditionLastThresholdIndex: int := 3
  const GreedyAdditionMaxPolytomyMin: int := 50
  const GreedyAdditionMaxPolytomyMult: int := 25
  const GreedyAdditionDefaultRuns: int := 10
  const PolytomySizeLimitMax: int := 100000

  /**
   * The state of a data collection this model needs: the taxon count, the
   * clusters of set X added so far, the polytomy size limit and the SLOW
   * option.
   */
  class Collection {
    const taxonCount: nat
    const slow: bool
    var clusters: set<Cluster>
    var polytomySizeLimit: int

    /** A fresh collection: no cluster yet, the largest polytomy limit, SLOW when `addExtra` is 2. */
    constructor(taxonCount: nat, addExtra: int)
      ensures this.taxonCount == taxonCount && slow == (addExtra == 2)
      ensures clusters == {} && polytomySizeLimit == PolytomySizeLimitMax
    {
      this.taxonCount := taxonCount;
      this.slow := addExtra == 2;
      clusters := {};
      polytomySizeLimit := PolytomySizeLimitMax;
    }

    /** `addToClusters`: insert a cluster into X and say whether it was new. */
    method AddToClusters(c: Cluster) returns (added: bool)
      modifies this
      ensures clusters == old(clusters) + {c}
      ensures added <==> c !in old(clusters)
      ensures polytomySizeLimit == old(polytomySizeLimit)
    {
      added := c !in clusters;
      clusters := clusters + {c};
    }

    /**
     * `addCompletedSpeciesFixedBipartionToX`: a bipartition (c1, c2) whose
     * first side is empty or all taxa adds nothing; otherwise both sides are
     * inserted, and the result says whether either was new.
     */
    method AddCompletedSpeciesFixedBipartition(c1: Cluster, c2: Cluster) returns (added: bool)
      modifies this
      ensures |c1| == taxonCount || |c1| == 0 ==> !added && clusters == old(clusters)
      ensures |c1| != taxonCount && |c1| != 0 ==>
                clusters == old(clusters) + {c1, c2} && (added <==> c1 !in old(clusters) || c2 !in old(clusters))
      ensures polytomySizeLimit == old(polytomySizeLimit)
    {
      added := false;
      var size := |c1|;
      if size == taxonCount || size == 0 {
        return false;
      }
      var a1 := AddToClusters(c1);
      added := added || a1;
      var a2 := AddToClusters(c2);
      added := added || a2;
    }

    /** The polytomy-limit rule of `prepareConsensusTrees`, stored in the collection. */
    method SetPolytomySizeLimit(deg: seq<int>, speciesCount: int, polylimit: int)
      modifies this
      ensures clusters == old(clusters)
      ensures polylimit != -1 ==> polytomySizeLimit == polylimit
      ensures polylimit == -1 ==> LimitOf(deg, Budget(speciesCount), polytomySizeLimit)
    {
      polytomySizeLimit := PolytomySizeLimit(deg, speciesCount, polylimit);
    }

    /**
     * `shouldDoQuadratic`: quadratic bitsets are added in SLOW mode, or in the
     * first default runs of the first thresholds, and only around polytomies
     * no larger than the limit.
     */
    predicate ShouldDoQuadratic(th: int, childCount: nat, j: int): (r: bool)
      reads this
      ensures r ==> childCount <= polytomySizeLimit
      ensures slow ==> (r <==> childCount <= polytomySizeLimit)
      ensures !slow && r ==> th < GreedyDistAdditionLastThresholdIndex && j < GreedyAdditionDefaultRuns
      ensures childCount > polytomySizeLimit ==> !r
    {
      (slow || (th < GreedyDistAdditionLastThresholdIndex && j < GreedyAdditionDefaultRuns)) &&
      childCount <= polytomySizeLimit
    }

    /** Outside SLOW mode a later run or threshold never turns quadratic additions back on. */
    lemma QuadraticOnlyEarly(th: int, childCount: nat, j: int, th': int, j': int)
      requires !slow && ShouldDoQuadratic(th', childCount, j') && th <= th' && j <= j'
      ensures ShouldDoQuadratic(th, childCount, j)
      ensures th' < GreedyDistAdditionLastThresholdIndex && j' < GreedyAdditionDefaultRuns
    {
    }
  }

  // ---------------------------------------------------------------------------
  // hasPolytomy
  // ---------------------------------------------------------------------------

  /** `hasPolytomy` over the child counts of a tree's nodes in postorder. */
  function HasPolytomy(childCounts: seq<nat>): (r: bool)
    ensures r <==> exists i :: 0 <= i < |childCounts| && childCounts[i] > 2
  {
    if |childCounts| == 0 then false
    else if childCounts[0] > 2 then true
    else
      var rest := HasPolytomy(childCounts[1..]);
      assert rest ==> exists i :: 0 <= i < |childCounts| && childCounts[i] > 2 by {
        if rest {
          var i :| 0 <= i < |childCounts[1..]| && childCounts[1..][i] > 2;
          assert childCounts[i + 1] > 2;
        }
      }
      assert !rest ==> forall i :: 0 <= i < |childCounts| ==> childCounts[i] <= 2 by {
        if !rest {
          forall i | 0 <= i < |childCounts| ensures childCounts[i] <= 2 {
            if i > 0 {
              assert childCounts[1..][i - 1] == childCounts[i];
            }
          }
        }
      }
      rest
  }

  // ---------------------------------------------------------------------------
  // The polytomy size limit
  // ---------------------------------------------------------------------------

  /** The sum of the squares of the degrees. */
  function SquareSum(xs: seq<int>): int
  {
    if |xs| == 0 then 0 else SquareSum(xs[..|xs| - 1]) + xs[|xs| - 1] * xs[|xs| - 1]
  }

  /** The budget for the sum of squared degrees: 50 + 25 per species. */
  function Budget(speciesCount: int): int
  {
    GreedyAdditionMaxPolytomyMin + speciesCount * GreedyAdditionMaxPolytomyMult
  }

  /** The loop takes the first i degrees: every shorter prefix was under budget, and it stops at the end or once over. */
  ghost predicate StopsAt(deg: seq<int>, budget: int, i: nat)
  {
    i <= |deg| &&
    (forall j :: 0 <= j < i ==> SquareSum(deg[..j]) < budget) &&
    (i == |deg| || SquareSum(deg[..i]) >= budget)
  }

  /** `limit` is the last degree taken, or 3 when none was taken. */
  ghost predicate LimitOf(deg: seq<int>, budget: int, limit: int)
  {
    exists i :: StopsAt(deg, budget, i) && limit == (if i > 0 then deg[i - 1] else 3)
  }

  /** The number of degrees taken is determined by the degrees and the budget. */
  lemma StopsAtUnique(deg: seq<int>, budget: int, i: nat, i': nat)
    requires StopsAt(deg, budget, i) && StopsAt(deg, budget, i')
    ensures i == i'
  {
  }

  /** With a positive budget some degree is taken when there is one, so 3 means no polytomy. */
  lemma LimitIsADegree(deg: seq<int>, budget: int, limit: int)
    requires budget > 0 && LimitOf(deg, budget, limit)
    ensures |deg| == 0 ==> limit == 3
    ensures |deg| > 0 ==> exists k :: 0 <= k < |deg| && limit == deg[k]
  {
    var i :| StopsAt(deg, budget, i) && limit == (if i > 0 then deg[i - 1] else 3);
    if |deg| > 0 {
      assert deg[..0] == [];
      assert i > 0;
    }
  }

  /** On ascending degrees the limit is at least every degree taken. */
  lemma LimitCoversTaken(deg: seq<int>, budget: int, i: nat, k: nat)
    requires StopsAt(deg, budget, i) && k < i
    requires forall a, b :: 0 <= a <= b < |deg| ==> deg[a] <= deg[b]
    ensures deg[k] <= deg[i - 1]
  {
  }

  /**
   * The polytomy-limit rule: with `polylimit == -1`, squares of the degrees,
   * in the order given, are added while the sum is below the budget, and the
   * limit is the last degree added, or 3 when there are none; otherwise the
   * limit is `polylimit`. Collecting and sorting the degrees happens before,
   * in the caller.
   */
  method PolytomySizeLimit(deg: seq<int>, speciesCount: int, polylimit: int) returns (limit: int)
    ensures polylimit != -1 ==> limit == polylimit
    ensures polylimit == -1 ==> LimitOf(deg, Budget(speciesCount), limit)
  {
    if polylimit != -1 {
      return polylimit;
    }
    var n := Budget(speciesCount);
    var sumDegrees := 0;
    var i := 0;
    while sumDegrees < n && i < |deg|
      invariant i <= |deg| && sumDegrees == SquareSum(deg[..i])
      invariant forall j :: 0 <= j < i ==> SquareSum(deg[..j]) < n
    {
      assert deg[..i + 1][..i] == deg[..i];
      sumDegrees := sumDegrees + deg[i] * deg[i];
      i := i + 1;
    }
    assert StopsAt(deg, n, i);
    if i > 0 {
      limit := deg[i - 1];
    } else {
      limit := 3;
    }
  }

  // ---------------------------------------------------------------------------
  // Child lists around a polytomy
  // ---------------------------------------------------------------------------

  /**
   * The child bitsets of `addExtraBipartitionByHeuristicsLoop.call`: the
   * node's children followed by the complement of the node's own cluster,
   * added even when it is empty.
   */
  function HeuristicChildParts(children: seq<Cluster>, node: Cluster, n: nat): (r: seq<Cluster>)
    requires node <= Range(n)
    ensures |r| == |children| + 1 && r[..|children|] == children
    ensures r[|children|] == Flip(node, n)
  {
    children + [Flip(node, n)]
  }

  /** For a node that is the union of its children the parts cover every taxon; at a node of all taxa the last part is empty. */
  lemma HeuristicChildPartsCover(children: seq<Cluster>, node: Cluster, n: nat)
    requires node <= Range(n) && node == UnionAll(children)
    ensures UnionAll(HeuristicChildParts(children, node, n)) == Range(n)
    ensures node == Range(n) ==> HeuristicChildParts(children, node, n)[|children|] == {}
  {
    var r := HeuristicChildParts(children, node, n);
    assert r[..|r| - 1] == children;
  }

  // ---------------------------------------------------------------------------
  // randomSampleAroundPolytomy
  // ---------------------------------------------------------------------------

  /** `GlobalMaps.random.nextInt(bound)` at draw t stays below its bound. */
  ghost predicate Draws(rand: (nat, nat) -> nat)
  {
    forall t, b :: b > 0 ==> rand(t, b) < b
  }

  /** Distinct taxa have distinct names. */
  ghost predicate Injective(name: nat -> string)
  {
    forall a, b :: a != b ==> name(a) != name(b)
  }

  /**
   * The `nextSetBit` walk of `randomSampleAroundPolytomy`: starting from the
   * first set bit, step `sample` times to the next one, giving the member of
   * `child` at position `sample` in ascending order.
   */
  method PickMember(child: Cluster, n: nat, sample: nat) returns (p: nat)
    requires child <= Range(n) && sample < |child|
    ensures sample < |Members(child, n)| && p == Members(child, n)[sample]
    ensures p in child
  {
    MembersOfBounded(child, n);
    p := WalkMembers(child, n, sample);
  }

  /** The walk itself, over the ascending members below `n`. */
  method WalkMembers(child: Cluster, n: nat, sample: nat) returns (p: nat)
    requires sample < |Members(child, n)|
    ensures p == Members(child, n)[sample]
  {
    ghost var ms := Members(child, n);
    FirstMember(child, n);
    p := NextSetBit(child, 0, n);
    var i := 0;
    while i < sample
      invariant i <= sample && p == ms[i]
    {
      NextMember(child, n, i);
      p := NextSetBit(child, p + 1, n);
      i := i + 1;
    }
  }

  /** `nextSetBit(from)` within 0..n-1: the smallest member at or above `from`, or -1. */
  function NextSetBit(s: set<nat>, from: nat, n: nat): (r: int)
    ensures r == -1 || (from <= r < n && r in s)
    ensures r == -1 <==> forall x :: from <= x < n ==> x !in s
    ensures r >= 0 ==> forall x :: from <= x < r ==> x !in s
    decreases n - from
  {
    if from >= n then -1 else if from in s then from else NextSetBit(s, from + 1, n)
  }

  /** A set of bits below `n` has as many ascending members as elements. */
  lemma MembersOfBounded(s: set<nat>, n: nat)
    requires s <= Range(n)
    ensures |Members(s, n)| == |s|
  {
    MembersLength(s, n);
    assert s * Range(n) == s;
  }

  /** The first set bit is the smallest member. */
  lemma FirstMember(s: set<nat>, n: nat)
    requires |Members(s, n)| > 0
    ensures NextSetBit(s, 0, n) == Members(s, n)[0]
  {
    var ms := Members(s, n);
    var r := NextSetBit(s, 0, n);
    assert ms[0] in s && ms[0] < n;
    assert r >= 0;
    assert r in ms;
  }

  /** The next set bit after a member is the following member. */
  lemma NextMember(s: set<nat>, n: nat, i: nat)
    requires i + 1 < |Members(s, n)|
    ensures NextSetBit(s, Members(s, n)[i] + 1, n) == Members(s, n)[i + 1]
  {
    var ms := Members(s, n);
    var r := NextSetBit(s, ms[i] + 1, n);
    assert ms[i] < ms[i + 1] && ms[i + 1] in s && ms[i + 1] < n;
    assert 0 <= r <= ms[i + 1];
    NoMemberBetween(s, n, i, r);
  }

  /** No member lies strictly between two consecutive ascending members. */
  lemma NoMemberBetween(s: set<nat>, n: nat, i: nat, x: nat)
    requires i + 1 < |Members(s, n)| && x in s && Members(s, n)[i] < x < n
    ensures Members(s, n)[i + 1] <= x
  {
    var ms := Members(s, n);
    assert x in ms;
    var k :| 0 <= k < |ms| && ms[k] == x;
    assert i < k;
  }

  /**
   * `randomSampleAroundPolytomy`: one taxon of each child, chosen by the
   * random draws `rand(draw0 + i, |child i|)`, mapped by name to the
   * child's index. A child with no taxa makes `nextInt(0)` throw.
   */
  method RandomSampleAroundPolytomy(polytomy: seq<Cluster>, n: nat, rand: (nat, nat) -> nat, draw0: nat, name: nat -> string)
    returns (r: Option<map<string, nat>>)
    requires Draws(rand) && forall i :: 0 <= i < |polytomy| ==> polytomy[i] <= Range(n)
    ensures r.None? <==> exists i :: 0 <= i < |polytomy| && polytomy[i] == {}
    ensures r.Some? ==> forall a :: a in r.value ==> r.value[a] < |polytomy| && exists p :: p in polytomy[r.value[a]] && name(p) == a
    ensures r.Some? && PairwiseDisjoint(polytomy) && Injective(name) ==>
              |r.value| == |polytomy| && r.value.Values == Range(|polytomy|) && Similarity.SampleIndices(r.value)
  {
    var randomSample: map<string, nat> := map[];
    ghost var picks: seq<nat> := [];
    ghost var separate := PairwiseDisjoint(polytomy) && Injective(name);
    var ind := 0;
    while ind < |polytomy|
      invariant ind <= |polytomy| && |picks| == ind
      invariant Picked(randomSample, picks, polytomy, name)
      invariant separate ==> Sampled(randomSample, picks, name)
    {
      var child := polytomy[ind];
      if |child| == 0 {
        return None;
      }
      var sample := rand(draw0 + ind, |child|);
      var p := PickMember(child, n, sample);
      if separate {
        SampleStep(randomSample, picks, name, polytomy, p);
      }
      PickStep(randomSample, picks, polytomy, name, p);
      randomSample := randomSample[name(p) := ind];
      picks := picks + [p];
      ind := ind + 1;
    }
    r := Some(randomSample);
    PickedNames(randomSample, picks, polytomy, name);
    if separate {
      SampledIndices(randomSample, picks, name);
    }
  }

  /** The invariant of the sampling loop: the children so far are nonempty, each pick lies in its child, and each key names the pick of the child it maps to. */
  ghost predicate Picked(sample: map<string, nat>, picks: seq<nat>, polytomy: seq<Cluster>, name: nat -> string)
  {
    |picks| <= |polytomy| &&
    (forall j :: 0 <= j < |picks| ==> polytomy[j] != {} && picks[j] in polytomy[j]) &&
    (forall a :: a in sample ==> sample[a] < |picks| && name(picks[sample[a]]) == a)
  }

  lemma PickStep(sample: map<string, nat>, picks: seq<nat>, polytomy: seq<Cluster>, name: nat -> string, p: nat)
    requires Picked(sample, picks, polytomy, name) && |picks| < |polytomy| && p in polytomy[|picks|]
    ensures Picked(sample[name(p) := |picks|], picks + [p], polytomy, name)
  {
    var picks' := picks + [p];
    forall j | 0 <= j < |picks'| ensures polytomy[j] != {} && picks'[j] in polytomy[j] {
      if j < |picks| {
        assert picks'[j] == picks[j];
      }
    }
  }

  lemma PickedNames(sample: map<string, nat>, picks: seq<nat>, polytomy: seq<Cluster>, name: nat -> string)
    requires Picked(sample, picks, polytomy, name) && |picks| == |polytomy|
    ensures forall a :: a in sample ==> sample[a] < |polytomy| && exists p :: p in polytomy[sample[a]] && name(p) == a
    ensures forall i :: 0 <= i < |polytomy| ==> polytomy[i] != {}
  {
    forall a | a in sample
      ensures sample[a] < |polytomy| && exists p :: p in polytomy[sample[a]] && name(p) == a
    {
      assert picks[sample[a]] in polytomy[sample[a]];
    }
  }

  /** Every pick so far is a key of its own, mapped to its child's index. */
  ghost predicate Sampled(sample: map<string, nat>, picks: seq<nat>, name: nat -> string)
  {
    |sample| == |picks| &&
    (forall j :: 0 <= j < |picks| ==> name(picks[j]) in sample && sample[name(picks[j])] == j)
  }

  /** Disjoint children and distinct names make each new pick a new key. */
  lemma SampleStep(sample: map<string, nat>, picks: seq<nat>, name: nat -> string, polytomy: seq<Cluster>, p: nat)
    requires Sampled(sample, picks, name) && PairwiseDisjoint(polytomy) && Injective(name)
    requires |picks| < |polytomy| && p in polytomy[|picks|]
    requires forall j :: 0 <= j < |picks| ==> picks[j] in polytomy[j]
    requires forall a :: a in sample ==> sample[a] < |picks| && name(picks[sample[a]]) == a
    ensures Sampled(sample[name(p) := |picks|], picks + [p], name)
  {
    var ind := |picks|;
    forall j | 0 <= j < |picks| ensures name(picks[j]) != name(p) {
      assert picks[j] != p by {
        assert p !in polytomy[j] * polytomy[ind];
      }
    }
    assert name(p) !in sample;
    var sample' := sample[name(p) := ind];
    var picks' := picks + [p];
    forall j | 0 <= j < |picks'| ensures name(picks'[j]) in sample' && sample'[name(picks'[j])] == j {
      if j < ind {
        assert picks'[j] == picks[j];
        assert name(picks[j]) != name(p) by {
          assert name(picks[j]) in sample;
        }
      }
    }
  }

  /** The picks give the indices 0..d-1, each to exactly one name. */
  lemma SampledIndices(sample: map<string, nat>, picks: seq<nat>, name: nat -> string)
    requires Sampled(sample, picks, name)
    requires forall a :: a in sample ==> sample[a] < |picks| && name(picks[sample[a]]) == a
    ensures sample.Values == Range(|picks|) && Similarity.SampleIndices(sample)
  {
    forall v: nat | v < |picks| ensures v in sample.Values {
      assert sample[name(picks[v])] == v;
    }
    forall a, b | a in sample && b in sample && a != b ensures sample[a] != sample[b] {
      assert name(picks[sample[a]]) == a && name(picks[sample[b]]) == b;
    }
  }

  // ---------------------------------------------------------------------------
  // addbackAfterSampling
  // ---------------------------------------------------------------------------

  /** The union of the children at the first `p` of the positions `js`. */
  function Selected(childbs: seq<Cluster>, js: seq<nat>, p: nat): (r: Cluster)
    requires p <= |js| && forall i :: 0 <= i < |js| ==> js[i] < |childbs|
    ensures forall q :: 0 <= q < p ==> childbs[js[q]] <= r
    ensures forall x :: x in r ==> exists q :: 0 <= q < p && x in childbs[js[q]]
  {
    if p == 0 then {} else Selected(childbs, js, p - 1) + childbs[js[p - 1]]
  }

  /** The total size of the children at the first `p` of the positions `js`. */
  function SelectedSize(childbs: seq<Cluster>, js: seq<nat>, p: nat): nat
    requires p <= |js| && forall i :: 0 <= i < |js| ==> js[i] < |childbs|
  {
    if p == 0 then 0 else SelectedSize(childbs, js, p - 1) + |childbs[js[p - 1]]|
  }

  /**
   * `addbackAfterSampling`: the bitset over the sample becomes the union of
   * the children it selects, visiting the selected indices in ascending order.
   */
  method AddbackAfterSampling(childbs: seq<Cluster>, restricted: Cluster) returns (newbs: Cluster)
    requires restricted <= Range(|childbs|)
    ensures newbs == Selected(childbs, Members(restricted, |childbs|), |Members(restricted, |childbs|)|)
    ensures forall x :: x in newbs <==> exists j :: j in restricted && x in childbs[j]
  {
    var js := Members(restricted, |childbs|);
    newbs := UniteSelected(childbs, js);
    SelectedUnion(childbs, restricted);
  }

  /** The loop of `addbackAfterSampling`: unite the children at the positions `js`, in order. */
  method UniteSelected(childbs: seq<Cluster>, js: seq<nat>) returns (newbs: Cluster)
    requires forall i :: 0 <= i < |js| ==> js[i] < |childbs|
    ensures newbs == Selected(childbs, js, |js|)
  {
    newbs := {};
    var p := 0;
    while p < |js|
      invariant p <= |js| && newbs == Selected(childbs, js, p)
    {
      newbs := newbs + childbs[js[p]];
      p := p + 1;
    }
  }

  /** The union of the selected children holds exactly the taxa of the children in `restricted`. */
  lemma SelectedUnion(childbs: seq<Cluster>, restricted: Cluster)
    requires restricted <= Range(|childbs|)
    ensures var js := Members(restricted, |childbs|);
      forall x :: x in Selected(childbs, js, |js|) <==> exists j :: j in restricted && x in childbs[j]
  {
    var js := Members(restricted, |childbs|);
    var sel := Selected(childbs, js, |js|);
    forall x | x in sel ensures exists j :: j in restricted && x in childbs[j] {
      var q :| 0 <= q < |js| && x in childbs[js[q]];
      assert js[q] in restricted;
    }
    forall x, j | j in restricted && x in childbs[j] ensures x in sel {
      var q :| 0 <= q < |js| && js[q] == j;
      assert childbs[js[q]] <= sel;
    }
  }

  /** For disjoint children the translated bitset has the children's total size. */
  lemma {:induction false} SelectedDisjointSize(childbs: seq<Cluster>, js: seq<nat>, p: nat)
    requires p <= |js| && forall i :: 0 <= i < |js| ==> js[i] < |childbs|
    requires PairwiseDisjoint(childbs) && forall a, b :: 0 <= a < b < |js| ==> js[a] < js[b]
    ensures |Selected(childbs, js, p)| == SelectedSize(childbs, js, p)
  {
    if p > 0 {
      SelectedDisjointSize(childbs, js, p - 1);
      var before := Selected(childbs, js, p - 1);
      var last := childbs[js[p - 1]];
      forall x | x in before ensures x !in last {
        var q :| 0 <= q < p - 1 && x in childbs[js[q]];
        assert x !in childbs[js[q]] * last;
      }
      assert before * last == {};
    }
  }

  /** The bitset `addbackAfterSampling` builds from disjoint children has their total size. */
  lemma AddbackSize(childbs: seq<Cluster>, restricted: Cluster)
    requires restricted <= Range(|childbs|) && PairwiseDisjoint(childbs)
    ensures var js := Members(restricted, |childbs|);
      |Selected(childbs, js, |js|)| == SelectedSize(childbs, js, |js|)
  {
    var js := Members(restricted, |childbs|);
    SelectedDisjointSize(childbs, js, |js|);
  }

  // ---------------------------------------------------------------------------
  // returnBitSetCounts
  // ---------------------------------------------------------------------------

  /** `bs.flip(0, sampleSize)`. */
  function Complement(bs: Cluster, sampleSize: nat): Cluster
  {
    Xor(bs, Range(sampleSize))
  }

  /** The bitsets of all gene trees, in order. */
  function Flatten(lists: seq<seq<Cluster>>): (r: seq<Cluster>)
  {
    if |lists| == 0 then [] else Flatten(lists[..|lists| - 1]) + lists[|lists| - 1]
  }

  /** How many of `xs` are `k` or its complement. */
  function Occurrences(xs: seq<Cluster>, k: Cluster, sampleSize: nat): nat
  {
    if |xs| == 0 then 0
    else Occurrences(xs[..|xs| - 1], k, sampleSize) +
         (if xs[|xs| - 1] == k || xs[|xs| - 1] == Complement(k, sampleSize) then 1 else 0)
  }

  /** The sum of the counts of a map. */
  ghost function Total(m: map<Cluster, nat>): nat
  {
    SumOver(m, m.Keys)
  }

  /** The sum of the counts of the keys `keys`. */
  ghost function SumOver(m: map<Cluster, nat>, keys: set<Cluster>): nat
    requires keys <= m.Keys
    decreases keys
  {
    if keys == {} then 0
    else
      var k :| k in keys;
      m[k] + SumOver(m, keys - {k})
  }

  /** The sum does not depend on which key it takes first. */
  lemma {:induction false} SumOverRemove(m: map<Cluster, nat>, keys: set<Cluster>, k: Cluster)
    requires keys <= m.Keys && k in keys
    ensures SumOver(m, keys) == m[k] + SumOver(m, keys - {k})
    decreases keys
  {
    var j :| j in keys && SumOver(m, keys) == m[j] + SumOver(m, keys - {j});
    if j != k {
      SumOverRemove(m, keys - {j}, k);
      SumOverRemove(m, keys - {k}, j);
      assert keys - {j} - {k} == keys - {k} - {j};
    }
  }

  /** The sum over some keys only reads the counts of those keys. */
  lemma {:induction false} SumOverFrame(m: map<Cluster, nat>, m': map<Cluster, nat>, keys: set<Cluster>)
    requires keys <= m.Keys && keys <= m'.Keys
    requires forall x :: x in keys ==> m[x] == m'[x]
    ensures SumOver(m, keys) == SumOver(m', keys)
    decreases keys
  {
    if keys != {} {
      var k :| k in keys && SumOver(m, keys) == m[k] + SumOver(m, keys - {k});
      SumOverRemove(m', keys, k);
      SumOverFrame(m, m', keys - {k});
    }
  }

  /** Raising one count by one raises the total by one; a new key with count one does too. */
  lemma TotalBump(m: map<Cluster, nat>, k: Cluster)
    ensures k in m ==> Total(m[k := m[k] + 1]) == Total(m) + 1
    ensures k !in m ==> Total(m[k := 1]) == Total(m) + 1
  {
    if k in m {
      var m' := m[k := m[k] + 1];
      assert m'.Keys == m.Keys;
      SumOverRemove(m, m.Keys, k);
      SumOverRemove(m', m.Keys, k);
      SumOverFrame(m, m', m.Keys - {k});
    } else {
      var m' := m[k := 1];
      assert m'.Keys - {k} == m.Keys;
      SumOverRemove(m', m'.Keys, k);
      SumOverFrame(m, m', m.Keys);
    }
  }

  /**
   * The invariant of `returnBitSetCounts` after the bitsets `done`: a bitset
   * and its (different) complement are never both keys, each key counts the
   * bitsets seen equal to it or to its complement, and bitsets matching no
   * key were not seen.
   */
  ghost predicate Canonical(counts: map<Cluster, nat>, done: seq<Cluster>, sampleSize: nat)
  {
    (forall k1, k2 {:trigger k1 in counts, k2 in counts} ::
       k1 in counts && k2 in counts && k2 == Complement(k1, sampleSize) ==> k1 == k2) &&
    (forall k {:trigger counts[k]} :: k in counts ==> counts[k] == Occurrences(done, k, sampleSize)) &&
    (forall k {:trigger Occurrences(done, k, sampleSize)} ::
       k !in counts && Complement(k, sampleSize) !in counts ==> Occurrences(done, k, sampleSize) == 0)
  }

  lemma PrefixStep(start: seq<Cluster>, xs: seq<Cluster>, b: nat)
    requires b <= |xs|
    ensures b == 0 ==> start + xs[..b] == start
    ensures b < |xs| ==> start + xs[..b + 1] == start + xs[..b] + [xs[b]]
    ensures b == |xs| ==> start + xs[..b] == start + xs
  {
    assert b == |xs| ==> xs[..b] == xs;
    assert b < |xs| ==> xs[..b + 1] == xs[..b] + [xs[b]];
  }

  /** A bitset of the list occurs in it at least once. */
  lemma {:induction false} OccursInList(xs: seq<Cluster>, i: nat, sampleSize: nat)
    requires i < |xs|
    ensures Occurrences(xs, xs[i], sampleSize) >= 1
  {
    if i < |xs| - 1 {
      OccursInList(xs[..|xs| - 1], i, sampleSize);
    }
  }

  /** Under the invariant every bitset seen is a key or has its complement as one. */
  lemma SeenIsCounted(counts: map<Cluster, nat>, done: seq<Cluster>, sampleSize: nat)
    requires Canonical(counts, done, sampleSize)
    ensures forall i :: 0 <= i < |done| ==> done[i] in counts || Complement(done[i], sampleSize) in counts
  {
    forall i | 0 <= i < |done| ensures done[i] in counts || Complement(done[i], sampleSize) in counts {
      OccursInList(done, i, sampleSize);
    }
  }

  /** The invariant together with the total. */
  ghost predicate Counted(counts: map<Cluster, nat>, done: seq<Cluster>, sampleSize: nat)
  {
    Canonical(counts, done, sampleSize) && Total(counts) == |done|
  }

  /** One bitset of the counting loop keeps the invariant and the total. */
  method CountBitSet(counts: map<Cluster, nat>, bs: Cluster, sampleSize: nat, ghost done: seq<Cluster>)
    returns (counts': map<Cluster, nat>)
    requires Counted(counts, done, sampleSize)
    ensures Counted(counts', done + [bs], sampleSize)
  {
    var bs2 := Complement(bs, sampleSize);
    XorInvolution(bs, Range(sampleSize));
    if bs in counts {
      TotalBump(counts, bs);
      counts' := counts[bs := counts[bs] + 1];
    } else if bs2 in counts {
      TotalBump(counts, bs2);
      counts' := counts[bs2 := counts[bs2] + 1];
    } else {
      TotalBump(counts, bs);
      counts' := counts[bs := 1];
    }
    CountStep(counts, counts', bs, sampleSize, done);
  }

  lemma CountStep(counts: map<Cluster, nat>, counts': map<Cluster, nat>, bs: Cluster, sampleSize: nat, done: seq<Cluster>)
    requires Canonical(counts, done, sampleSize)
    requires Complement(Complement(bs, sampleSize), sampleSize) == bs
    requires counts' == if bs in counts then counts[bs := counts[bs] + 1]
                        else if Complement(bs, sampleSize) in counts then counts[Complement(bs, sampleSize) := counts[Complement(bs, sampleSize)] + 1]
                        else counts[bs := 1]
    ensures Canonical(counts', done + [bs], sampleSize)
  {
    var done' := done + [bs];
    assert done'[..|done'| - 1] == done;
    forall k ensures Occurrences(done', k, sampleSize) ==
                     Occurrences(done, k, sampleSize) + (if bs == k || bs == Complement(k, sampleSize) then 1 else 0) {
    }
    forall k ensures bs == Complement(k, sampleSize) <==> k == Complement(bs, sampleSize) {
      XorInvolution(k, Range(sampleSize));
    }
  }

  /**
   * `returnBitSetCounts`: count each bitset of the gene trees under itself
   * or, when that is already a key, under its complement within the sample.
   * No bitset and its complement are both keys, every bitset is counted
   * under one of the two, and the counts add up to the number of bitsets.
   */
  method ReturnBitSetCounts(geneTrees: seq<seq<Cluster>>, sampleSize: nat) returns (counts: map<Cluster, nat>)
    ensures Canonical(counts, Flatten(geneTrees), sampleSize)
    ensures var all := Flatten(geneTrees);
      forall i :: 0 <= i < |all| ==> all[i] in counts || Complement(all[i], sampleSize) in counts
    ensures Total(counts) == |Flatten(geneTrees)|
  {
    counts := map[];
    var g := 0;
    while g < |geneTrees|
      invariant g <= |geneTrees|
      invariant Counted(counts, Flatten(geneTrees[..g]), sampleSize)
    {
      assert geneTrees[..g + 1][..g] == geneTrees[..g];
      counts := CountTree(counts, geneTrees[g], sampleSize, Flatten(geneTrees[..g]));
      g := g + 1;
    }
    assert geneTrees[..g] == geneTrees;
    SeenIsCounted(counts, Flatten(geneTrees), sampleSize);
  }

  /** The bitsets of one gene tree, counted in order. */
  method CountTree(counts: map<Cluster, nat>, bsList: seq<Cluster>, sampleSize: nat, ghost start: seq<Cluster>)
    returns (counts': map<Cluster, nat>)
    requires Counted(counts, start, sampleSize)
    ensures Counted(counts', start + bsList, sampleSize)
  {
    counts' := counts;
    PrefixStep(start, bsList, 0);
    var b := 0;
    while b < |bsList|
      invariant b <= |bsList| && Counted(counts', start + bsList[..b], sampleSize)
    {
      counts' := CountBitSet(counts', bsList[b], sampleSize, start + bsList[..b]);
      PrefixStep(start, bsList, b);
      b := b + 1;
    }
    PrefixStep(start, bsList, b);
  }

  // ---------------------------------------------------------------------------
  // The random merge loop of resolveLinearly
  // ---------------------------------------------------------------------------

  /** The list without its i-th element: `children.remove(i)`. */
  function Remove(xs: seq<Cluster>, i: nat): (r: seq<Cluster>)
    requires i < |xs|
    ensures |r| == |xs| - 1
  {
    xs[..i] + xs[i + 1..]
  }

  /** Removing an element and adding it back leaves the union as it was. */
  lemma RemoveUnion(xs: seq<Cluster>, i: nat)
    requires i < |xs|
    ensures UnionAll(Remove(xs, i)) + xs[i] == UnionAll(xs)
  {
    RemoveUnionCovers(xs, i);
    RemoveUnionWithin(xs, i);
  }

  lemma RemoveUnionCovers(xs: seq<Cluster>, i: nat)
    requires i < |xs|
    ensures UnionAll(xs) <= UnionAll(Remove(xs, i)) + xs[i]
  {
    var r := Remove(xs, i);
    forall x | x in UnionAll(xs) ensures x in UnionAll(r) + xs[i] {
      var a :| 0 <= a < |xs| && x in xs[a];
      if a < i {
        assert r[a] == xs[a];
      } else if a > i {
        assert r[a - 1] == xs[a];
      }
    }
  }

  lemma RemoveUnionWithin(xs: seq<Cluster>, i: nat)
    requires i < |xs|
    ensures UnionAll(Remove(xs, i)) <= UnionAll(xs)
  {
    var r := Remove(xs, i);
    forall x | x in UnionAll(r) ensures x in UnionAll(xs) {
      var a :| 0 <= a < |r| && x in r[a];
      if a < i {
        assert r[a] == xs[a];
      } else {
        assert r[a] == xs[a + 1];
      }
    }
  }

  /** Removing an element keeps the others pairwise disjoint and disjoint from it. */
  lemma RemoveDisjoint(xs: seq<Cluster>, i: nat)
    requires i < |xs| && PairwiseDisjoint(xs)
    ensures PairwiseDisjoint(Remove(xs, i)) && UnionAll(Remove(xs, i)) * xs[i] == {}
  {
    var r := Remove(xs, i);
    forall a, b | 0 <= a < b < |r| ensures r[a] * r[b] == {} {
      var a' := if a < i then a else a + 1;
      var b' := if b < i then b else b + 1;
      assert r[a] == xs[a'] && r[b] == xs[b'];
    }
    forall x | x in UnionAll(r) ensures x !in xs[i] {
      var a :| 0 <= a < |r| && x in r[a];
      var a' := if a < i then a else a + 1;
      assert r[a] == xs[a'];
      if a' < i {
        assert x !in xs[a'] * xs[i];
      } else {
        assert x !in xs[i] * xs[a'];
      }
    }
  }

  /** Two merged disjoint pieces, disjoint from the rest, extend a disjoint list. */
  lemma AppendDisjoint(xs: seq<Cluster>, m: Cluster)
    requires PairwiseDisjoint(xs) && UnionAll(xs) * m == {}
    ensures PairwiseDisjoint(xs + [m])
  {
    var r := xs + [m];
    forall a, b | 0 <= a < b < |r| ensures r[a] * r[b] == {} {
      if b == |xs| {
        assert xs[a] <= UnionAll(xs);
      } else {
        assert r[a] == xs[a] && r[b] == xs[b];
      }
    }
  }

  /** One merge: remove two random children and append their union. */
  lemma MergeUnion(xs: seq<Cluster>, i: nat, j: nat)
    requires i < |xs| && j < |xs| - 1
    ensures UnionAll(Remove(Remove(xs, i), j) + [xs[i] + Remove(xs, i)[j]]) == UnionAll(xs)
    ensures xs[i] + Remove(xs, i)[j] <= UnionAll(xs)
  {
    var once := Remove(xs, i);
    RemoveUnion(xs, i);
    RemoveUnion(once, j);
    AppendUnion(Remove(once, j), xs[i] + once[j]);
  }

  lemma AppendUnion(xs: seq<Cluster>, m: Cluster)
    ensures UnionAll(xs + [m]) == UnionAll(xs) + m
  {
    assert (xs + [m])[..|xs|] == xs;
  }

  lemma MergeDisjoint(xs: seq<Cluster>, i: nat, j: nat)
    requires i < |xs| && j < |xs| - 1 && PairwiseDisjoint(xs)
    ensures PairwiseDisjoint(Remove(Remove(xs, i), j) + [xs[i] + Remove(xs, i)[j]])
  {
    var once := Remove(xs, i);
    var rest := Remove(once, j);
    RemoveDisjoint(xs, i);
    RemoveDisjoint(once, j);
    RemoveUnion(once, j);
    AppendDisjoint(rest, xs[i] + once[j]);
  }

  /**
   * The merge loop of `resolveLinearly` for one polytomy node: its children
   * and, when nonempty, the complement of their union within the sample
   * form the list; while more than two remain, two random ones are removed
   * and their union is recorded and appended. Nodes with fewer than three
   * children are skipped. `merged` lists the unions in the order they were
   * made; `final` is the list left at the end.
   */
  method ResolveLinearly(childData: seq<Cluster>, sampleSize: nat, rand: (nat, nat) -> nat, draw0: nat)
    returns (final: seq<Cluster>, merged: seq<Cluster>)
    requires Draws(rand)
    ensures |childData| < 3 ==> final == childData && merged == []
    ensures |childData| >= 3 ==> |final| == 2 && |merged| == |WithComplement(childData, sampleSize)| - 2
    ensures UnionAll(final) == if |childData| < 3 then UnionAll(childData) else UnionAll(WithComplement(childData, sampleSize))
    ensures forall t :: 0 <= t < |merged| ==> merged[t] <= UnionAll(final)
    ensures |childData| >= 3 && PairwiseDisjoint(childData) ==> PairwiseDisjoint(final)
    ensures |childData| >= 3 ==> BuiltFrom(WithComplement(childData, sampleSize), merged)
    ensures |childData| >= 3 ==> forall c :: c in final ==> c in WithComplement(childData, sampleSize) + merged
  {
    if |childData| < 3 {
      return childData, [];
    }
    var children := WithComplement(childData, sampleSize);
    if PairwiseDisjoint(childData) {
      WithComplementDisjoint(childData, sampleSize);
    }
    ghost var all := UnionAll(children);
    ghost var disjoint := PairwiseDisjoint(children);
    merged := [];
    var draw := draw0;
    ghost var start := children;
    while |children| > 2
      invariant Merging(children, merged, all, disjoint, |WithComplement(childData, sampleSize)|)
      invariant BuiltFrom(start, merged) && forall c :: c in children ==> c in start + merged
      decreases |children|
    {
      var i := rand(draw, |children|);
      var c1 := children[i];
      var once := Remove(children, i);
      var j := rand(draw + 1, |once|);
      var c2 := once[j];
      MergeStep(children, merged, all, disjoint, |WithComplement(childData, sampleSize)|, i, j);
      BuiltStep(start, children, merged, i, j);
      var newbs := c1 + c2;
      merged := merged + [newbs];
      children := Remove(once, j) + [newbs];
      draw := draw + 2;
    }
    final := children;
  }

  /**
   * The state of the merge loop: at least two children are left, the merged
   * ones and the children add up to the `total` parts of the start, the
   * children still cover `all`, every merged bitset lies within it, and
   * disjoint children stay disjoint.
   */
  ghost predicate Merging(children: seq<Cluster>, merged: seq<Cluster>, all: set<nat>, disjoint: bool, total: nat)
  {
    |children| >= 2 && |merged| + |children| == total && UnionAll(children) == all &&
    (forall t :: 0 <= t < |merged| ==> merged[t] <= all) &&
    (disjoint ==> PairwiseDisjoint(children))
  }

  /**
   * Every merged bitset is the union of two parts that were available when it
   * was made: parts of the starting list, or bitsets merged before it.
   */
  ghost predicate BuiltFrom(start: seq<Cluster>, merged: seq<Cluster>)
  {
    forall t :: 0 <= t < |merged| ==>
      exists a, b :: a in start + merged[..t] && b in start + merged[..t] && merged[t] == a + b
  }

  /** Every element of the list without its i-th is an element of the list. */
  lemma RemoveIn(xs: seq<Cluster>, i: nat)
    requires i < |xs|
    ensures forall c :: c in Remove(xs, i) ==> c in xs
  {
    forall c | c in Remove(xs, i) ensures c in xs {
      var a :| 0 <= a < |Remove(xs, i)| && Remove(xs, i)[a] == c;
      if a < i {
        assert Remove(xs, i)[a] == xs[a];
      } else {
        assert Remove(xs, i)[a] == xs[a + 1];
      }
    }
  }

  /** A merge appends the union of two current children, both of which were available. */
  lemma BuiltStep(start: seq<Cluster>, children: seq<Cluster>, merged: seq<Cluster>, i: nat, j: nat)
    requires BuiltFrom(start, merged) && forall c :: c in children ==> c in start + merged
    requires i < |children| && j < |children| - 1
    ensures var newbs := children[i] + Remove(children, i)[j];
            BuiltFrom(start, merged + [newbs]) &&
            forall c :: c in Remove(Remove(children, i), j) + [newbs] ==> c in start + (merged + [newbs])
  {
    var once := Remove(children, i);
    var newbs := children[i] + once[j];
    var ms := merged + [newbs];
    RemoveIn(children, i);
    RemoveIn(once, j);
    assert ms[..|merged|] == merged;
    assert children[i] in start + merged && once[j] in start + merged;
    forall t | 0 <= t < |ms|
      ensures exists a, b :: a in start + ms[..t] && b in start + ms[..t] && ms[t] == a + b
    {
      if t < |merged| {
        assert ms[..t] == merged[..t] && ms[t] == merged[t];
      } else {
        assert ms[t] == children[i] + once[j];
      }
    }
    forall c | c in Remove(once, j) + [newbs] ensures c in start + ms {
      if c in Remove(once, j) {
        assert c in start + merged;
      }
    }
  }

  /** Merging the `i`-th child with the `j`-th of the others keeps the state of the loop. */
  lemma MergeStep(children: seq<Cluster>, merged: seq<Cluster>, all: set<nat>, disjoint: bool, total: nat, i: nat, j: nat)
    requires Merging(children, merged, all, disjoint, total) && |children| > 2 && i < |children| && j < |children| - 1
    ensures var newbs := children[i] + Remove(children, i)[j];
            Merging(Remove(Remove(children, i), j) + [newbs], merged + [newbs], all, disjoint, total)
  {
    var newbs := children[i] + Remove(children, i)[j];
    MergeUnion(children, i, j);
    if disjoint {
      MergeDisjoint(children, i, j);
    }
    forall t | 0 <= t < |merged + [newbs]| ensures (merged + [newbs])[t] <= all {
      if t < |merged| {
        assert (merged + [newbs])[t] == merged[t];
      }
    }
  }
}
