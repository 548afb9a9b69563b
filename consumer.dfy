/**
 * The consumer side of the multi-threaded DP (WQComputeMinCostTaskConsumer):
 * the same maximisation as the memoised solver, but over candidate lists a
 * producer has already queued, with precomputed weights and ties broken by a
 * coin flip.
 */
module Consumer {
  import opened Clusters

  /** A `VertexPair`: the two sides of a candidate and the cluster they split. */
  datatype Pair = Pair(cluster1: Cluster, cluster2: Cluster, both: Cluster)

  /** A gene-tree-free tripartition of the taxa, as the weight calculator takes it. */
  datatype Tripartition = Tripartition(c1: Cluster, c2: Cluster, c3: Cluster)

  /** The consumer-side fields of a VertexMP: `isConsDone`, `_max_score`, `_min_lc`, `_min_rc`. */
  datatype CVertex = CVertex(consDone: bool, maxScore: int, lc: Option<Cluster>, rc: Option<Cluster>)

  /** Why a computation ended in a RuntimeException rather than a score. */
  datatype FaultKind =
    | ChildFailed  // a side's computation threw; the loop wraps it in a RuntimeException
    | QueueEmpty   // `take()` on an empty queue would wait for a producer that never comes
    | OutOfStep    // the list taken does not consist of proper splits of this cluster

  /** What `computeMinCost()` hands back: a score, a CannotResolveException, or a RuntimeException. */
  datatype Answer = Score(value: int) | CannotResolve | Fault(kind: FaultKind)

  /** `STB2T`: the two sides and the complement of the cluster they split, within the n taxa. */
  function STB2T(p: Pair, n: nat): (t: Tripartition)
    ensures t.c1 == p.cluster1 && t.c2 == p.cluster2
    ensures p.both <= Range(n) ==> t.c3 == Range(n) - p.both && |t.c3| == n - |p.both|
  {
    var r := Range(n);
    Tripartition(p.cluster1, p.cluster2, Xor(p.both, r))
  }

  /**
   * For a proper split of a cluster v that is not the whole taxon set, the
   * tripartition `STB2T` builds is a partition of the taxa: the two sides and
   * the nonempty rest of the taxa outside v.
   */
  lemma STB2TPartition(p: Pair, v: Cluster, n: nat)
    requires p.both == v && p.cluster1 + p.cluster2 == v && p.cluster1 * p.cluster2 == {}
    requires v <= Range(n) && |v| != n
    ensures STB2T(p, n).c3 == Range(n) - v
    ensures STB2T(p, n).c1 * STB2T(p, n).c3 == {} && STB2T(p, n).c2 * STB2T(p, n).c3 == {}
    ensures STB2T(p, n).c1 + STB2T(p, n).c2 + STB2T(p, n).c3 == Range(n)
    ensures STB2T(p, n).c3 != {}
  {
    assert |STB2T(p, n).c3| == n - |v|;
  }

  /** `defaultWeightForFullClusters`: a cluster holding every taxon has no tripartition to weigh. */
  const DefaultWeightForFullClusters: int := 0

  /** The selection rule for one candidate: skip a smaller score, and an equal one when the coin comes up true. */
  function SelStep(x: CVertex, p: Pair, score: int, coin: bool): (r: CVertex)
    ensures r.consDone == x.consDone
    ensures score > x.maxScore ==> r == x.(maxScore := score, lc := Some(p.cluster1), rc := Some(p.cluster2))
    ensures score < x.maxScore ==> r == x
    ensures score == x.maxScore ==>
      (if coin then r == x else r == x.(lc := Some(p.cluster1), rc := Some(p.cluster2)))
  {
    if score < x.maxScore || (score == x.maxScore && coin) then x
    else x.(maxScore := score, lc := Some(p.cluster1), rc := Some(p.cluster2))
  }

  /** The vertex after the selection loop over scored candidates `cs`, with `ties[j]` the coin drawn at step j if it tied. */
  function SelFold(x: CVertex, cs: seq<(Pair, int)>, ties: seq<bool>): CVertex
    requires |ties| == |cs|
  {
    if |cs| == 0 then x
    else SelStep(SelFold(x, cs[..|cs| - 1], ties[..|ties| - 1]), cs[|cs| - 1].0, cs[|cs| - 1].1, ties[|ties| - 1])
  }

  /**
   * Over the whole loop the stored score never drops and ends at least at every
   * candidate's score; and either nothing was chosen, or the recorded pair is a
   * candidate whose score is the final score.
   */
  lemma {:induction false} SelFoldBest(x: CVertex, cs: seq<(Pair, int)>, ties: seq<bool>)
    requires |ties| == |cs|
    ensures SelFold(x, cs, ties).maxScore >= x.maxScore
    ensures forall j :: 0 <= j < |cs| ==> cs[j].1 <= SelFold(x, cs, ties).maxScore
    ensures SelFold(x, cs, ties).consDone == x.consDone
    ensures SelFold(x, cs, ties) == x ||
      exists j :: 0 <= j < |cs| &&
        SelFold(x, cs, ties) == x.(maxScore := cs[j].1, lc := Some(cs[j].0.cluster1), rc := Some(cs[j].0.cluster2))
  {
    if |cs| > 0 {
      var init, tinit := cs[..|cs| - 1], ties[..|ties| - 1];
      SelFoldBest(x, init, tinit);
      var y := SelFold(x, init, tinit);
      assert forall j :: 0 <= j < |init| ==> init[j] == cs[j];
      var r := SelFold(x, cs, ties);
      if r != y && y != x {
        var j :| 0 <= j < |init| &&
          y == x.(maxScore := init[j].1, lc := Some(init[j].0.cluster1), rc := Some(init[j].0.cluster2));
      }
      if r != y {
        assert r == x.(maxScore := cs[|cs| - 1].1, lc := Some(cs[|cs| - 1].0.cluster1), rc := Some(cs[|cs| - 1].0.cluster2));
      }
    }
  }

  /** With no candidate at all the vertex keeps its (possibly missing) children. */
  lemma SelFoldEmpty(x: CVertex)
    ensures SelFold(x, [], []) == x
  {
  }

  /**
   * When no two scores tie with the running best, the coins do not matter: a
   * strictly increasing run of scores picks the last candidate.
   */
  lemma {:induction false} SelFoldIncreasing(x: CVertex, cs: seq<(Pair, int)>, ties: seq<bool>)
    requires |ties| == |cs| && |cs| > 0
    requires x.maxScore < cs[0].1
    requires forall i, j :: 0 <= i < j < |cs| ==> cs[i].1 < cs[j].1
    ensures SelFold(x, cs, ties) ==
      x.(maxScore := cs[|cs| - 1].1, lc := Some(cs[|cs| - 1].0.cluster1), rc := Some(cs[|cs| - 1].0.cluster2))
  {
    if |cs| > 1 {
      var init, tinit := cs[..|cs| - 1], ties[..|ties| - 1];
      assert forall j :: 0 <= j < |init| ==> init[j] == cs[j];
      SelFoldIncreasing(x, init, tinit);
    }
  }

  /** Entries of more than `sz` taxa are untouched, and so is every finished entry. */
  ghost predicate Frame(m1: map<Cluster, CVertex>, m2: map<Cluster, CVertex>, sz: nat)
  {
    m1.Keys == m2.Keys &&
    (forall k :: k in m1 && |k| > sz ==> m2[k] == m1[k]) &&
    (forall k :: k in m1 && m1[k].consDone ==> m2[k] == m1[k])
  }

  /** Whether candidate j ties with the running best, so that the rule consults a coin. */
  function Tied(x: CVertex, cs: seq<(Pair, int)>, ties: seq<bool>, j: nat): bool
    requires |ties| == |cs| && j < |cs|
  {
    cs[j].1 == SelFold(x, cs[..j], ties[..j]).maxScore
  }

  lemma FrameTrans(m1: map<Cluster, CVertex>, m2: map<Cluster, CVertex>, m3: map<Cluster, CVertex>, a: nat, b: nat)
    requires Frame(m1, m2, a) && Frame(m2, m3, b)
    ensures Frame(m1, m3, if a < b then b else a)
  {
  }

  class Solver {
    /** The consumer-side state of every vertex. */
    var verts: map<Cluster, CVertex>
    /** `GlobalQueues.getQueueClusterResolutions()`: the candidate lists the producer queued, in order. */
    var queue: seq<seq<Pair>>
    /** How many values `GlobalMaps.random.nextBoolean()` has handed out. */
    var coinsUsed: nat

    /** `GlobalMaps.taxonIdentifier.taxonCount()`. */
    const taxonCount: nat
    /** The stream of `nextBoolean()` values. */
    const coin: nat -> bool
    /** `inference.weightCalculator.getWeight(t)`. */
    const tripartitionWeight: Tripartition -> int
    /** `spm.isSingleSP(cluster)`: all taxa of the cluster belong to one species. */
    const isSingleSP: Cluster -> bool
    /** `scoreBaseCase(isRooted, trees)` for the vertex of a cluster. */
    const scoreBaseCase: Cluster -> int

    constructor (verts: map<Cluster, CVertex>, queue: seq<seq<Pair>>, taxonCount: nat, coin: nat -> bool,
                 tripartitionWeight: Tripartition -> int, isSingleSP: Cluster -> bool, scoreBaseCase: Cluster -> int)
      ensures this.verts == verts && this.queue == queue && coinsUsed == 0
      ensures this.taxonCount == taxonCount && this.coin == coin
      ensures this.tripartitionWeight == tripartitionWeight && this.isSingleSP == isSingleSP
      ensures this.scoreBaseCase == scoreBaseCase
    {
      this.verts := verts;
      this.queue := queue;
      coinsUsed := 0;
      this.taxonCount := taxonCount;
      this.coin := coin;
      this.tripartitionWeight := tripartitionWeight;
      this.isSingleSP := isSingleSP;
      this.scoreBaseCase := scoreBaseCase;
    }

    /**
     * The coins behind `ties`. The last candidate reads the `nextBoolean()`
     * value at position `draws[k]` when it ties with the fold of the earlier
     * ones, and reads false otherwise; it moves past its own position only when
     * it drew, and stays below `hi`. The earlier candidates form such a trace
     * between `lo` and `draws[k]`, so positions grow along the list and no
     * value of the stream is read twice. With `exact` nothing else draws in
     * between: each position is the previous one plus the previous draw, and
     * `hi` is `lo` plus the number of ties.
     */
    ghost predicate CoinTrace(x: CVertex, cs: seq<(Pair, int)>, ties: seq<bool>, draws: seq<nat>,
                              lo: nat, hi: nat, exact: bool)
      decreases |cs|
    {
      |ties| == |cs| && |draws| == |cs| && lo <= hi &&
      if |cs| == 0 then exact ==> hi == lo
      else
        var k := |cs| - 1;
        var drew: nat := if Tied(x, cs, ties, k) then 1 else 0;
        CoinTrace(x, cs[..k], ties[..k], draws[..k], lo, draws[k], exact) &&
        ties[k] == (Tied(x, cs, ties, k) && coin(draws[k])) &&
        draws[k] + drew <= hi && (exact ==> draws[k] + drew == hi)
    }

    /** A trace below `hi` is also one below any larger bound, unless it is exact. */
    lemma CoinTraceWeaken(x: CVertex, cs: seq<(Pair, int)>, ties: seq<bool>, draws: seq<nat>,
                          lo: nat, hi: nat, exact: bool, hi2: nat, exact2: bool)
      requires CoinTrace(x, cs, ties, draws, lo, hi, exact)
      requires hi <= hi2 && (exact2 ==> exact && hi == hi2)
      ensures CoinTrace(x, cs, ties, draws, lo, hi2, exact2)
    {
    }

    /**
     * Every position of a trace lies in lo..hi, and a candidate that ties reads
     * a position below every later candidate's and below `hi`: each coin the
     * selection consults is a value of the stream no other tie reads.
     */
    lemma {:induction false} CoinTraceWithin(x: CVertex, cs: seq<(Pair, int)>, ties: seq<bool>, draws: seq<nat>,
                                             lo: nat, hi: nat, exact: bool)
      requires CoinTrace(x, cs, ties, draws, lo, hi, exact)
      ensures forall j :: 0 <= j < |cs| ==> lo <= draws[j] <= hi
      ensures forall i, j :: 0 <= i < j < |cs| ==> draws[i] <= draws[j]
      ensures forall i, j :: 0 <= i < j < |cs| && Tied(x, cs, ties, i) ==> draws[i] < draws[j]
      ensures forall j :: 0 <= j < |cs| && Tied(x, cs, ties, j) ==> draws[j] < hi
    {
      if |cs| > 0 {
        var k := |cs| - 1;
        var pcs, pties, pdraws := cs[..k], ties[..k], draws[..k];
        CoinTraceWithin(x, pcs, pties, pdraws, lo, draws[k], exact);
        forall j | 0 <= j < k ensures Tied(x, pcs, pties, j) == Tied(x, cs, ties, j) && pdraws[j] == draws[j] {
          assert pcs[..j] == cs[..j] && pties[..j] == ties[..j];
        }
      }
    }

    /** One more candidate, drawing at position d only if it ties, extends the trace. */
    lemma CoinTraceStep(x: CVertex, cs: seq<(Pair, int)>, ties: seq<bool>, draws: seq<nat>, lo: nat, hi: nat,
                        exact: bool, c: (Pair, int), t: bool, d: nat, hi2: nat, exact2: bool)
      requires CoinTrace(x, cs, ties, draws, lo, hi, exact)
      requires hi <= d && (exact2 ==> exact && d == hi)
      requires t == (c.1 == SelFold(x, cs, ties).maxScore && coin(d))
      requires hi2 == d + (if c.1 == SelFold(x, cs, ties).maxScore then 1 else 0)
      ensures CoinTrace(x, cs + [c], ties + [t], draws + [d], lo, hi2, exact2)
    {
      var cs2, ties2, draws2 := cs + [c], ties + [t], draws + [d];
      var k := |cs|;
      assert cs2[..k] == cs && ties2[..k] == ties && draws2[..k] == draws;
      CoinTraceWeaken(x, cs, ties, draws, lo, hi, exact, d, exact2);
      assert Tied(x, cs2, ties2, k) == (c.1 == SelFold(x, cs, ties).maxScore);
    }

    /** Both sides of every pair of the list are finished. */
    ghost predicate AllSidesDone(m: map<Cluster, CVertex>, list: seq<Pair>)
    {
      forall j :: 0 <= j < |list| ==> SidesDone(m, list[j])
    }

    /** `weights[j]` for the pair p of a list for cluster v. */
    function WeightOf(v: Cluster, p: Pair): (w: int)
      ensures |v| == taxonCount ==> w == 0
      ensures p.both == v && p.cluster1 + p.cluster2 == v && p.cluster1 * p.cluster2 == {} &&
              v <= Range(taxonCount) && |v| != taxonCount ==>
        w == tripartitionWeight(Tripartition(p.cluster1, p.cluster2, Range(taxonCount) - v))
    {
      if |v| == taxonCount then DefaultWeightForFullClusters else tripartitionWeight(STB2T(p, taxonCount))
    }

    /** The base case: a cluster of at most one taxon, or one whose taxa are all of one species. */
    predicate IsBase(v: Cluster)
    {
      |v| <= 1 || isSingleSP(v)
    }

    /** p is a proper split of v into two known vertices. */
    predicate PairOf(m: map<Cluster, CVertex>, p: Pair, v: Cluster)
    {
      p.both == v && p.cluster1 + p.cluster2 == v && p.cluster1 * p.cluster2 == {} &&
      p.cluster1 != {} && p.cluster2 != {} && p.cluster1 in m && p.cluster2 in m
    }

    /** Both sides of p are finished. */
    ghost predicate SidesDone(m: map<Cluster, CVertex>, p: Pair)
    {
      p.cluster1 in m && p.cluster2 in m && m[p.cluster1].consDone && m[p.cluster2].consDone
    }

    /** The score stored for cluster k (0 for a cluster without a vertex, which a proper pair never names). */
    function SideScore(m: map<Cluster, CVertex>, k: Cluster): int
    {
      if k in m then m[k].maxScore else 0
    }

    /** Pair p as a scored candidate: `lscore + rscore + weights[j]`. */
    function CandOf(m: map<Cluster, CVertex>, v: Cluster, p: Pair): (Pair, int)
    {
      (p, SideScore(m, p.cluster1) + SideScore(m, p.cluster2) + WeightOf(v, p))
    }

    /** The candidates of `list` with the scores their sides give in m. */
    function Cands(m: map<Cluster, CVertex>, v: Cluster, list: seq<Pair>): seq<(Pair, int)>
    {
      seq(|list|, j requires 0 <= j < |list| => CandOf(m, v, list[j]))
    }

    /** Finished sides keep their scores, so the candidates' scores stay as they were. */
    lemma CandsStay(m1: map<Cluster, CVertex>, m2: map<Cluster, CVertex>, v: Cluster, list: seq<Pair>, sz: nat)
      requires forall j :: 0 <= j < |list| ==> SidesDone(m1, list[j])
      requires Frame(m1, m2, sz)
      ensures forall j :: 0 <= j < |list| ==> SidesDone(m2, list[j])
      ensures Cands(m1, v, list) == Cands(m2, v, list)
    {
      forall j | 0 <= j < |list| ensures CandOf(m1, v, list[j]) == CandOf(m2, v, list[j]) {
        assert SidesDone(m1, list[j]);
      }
    }

    /** Both sides of a proper pair are smaller than the cluster it splits. */
    lemma PairSizes(p: Pair, v: Cluster)
      requires PairOf(verts, p, v)
      ensures |p.cluster1| < |v| && |p.cluster2| < |v|
    {
      assert |v| == |p.cluster1| + |p.cluster2|;
    }

    /**
     * Candidate j of the selection loop, both of whose sides are now finished in
     * m, extends the fold by one step; rewriting v's own entry does not change
     * any candidate's score.
     */
    lemma SelectionStep(m: map<Cluster, CVertex>, m2: map<Cluster, CVertex>, v: Cluster, list: seq<Pair>, j: nat,
                        x0: CVertex, ties: seq<bool>, tie: bool)
      requires j < |list| && |ties| == j && v in m
      requires forall i :: 0 <= i < |list| ==> PairOf(m, list[i], v)
      requires forall i :: 0 <= i <= j ==> SidesDone(m, list[i])
      requires m[v] == SelFold(x0, Cands(m, v, list[..j]), ties)
      requires m2 == m[v := SelStep(m[v], list[j], CandOf(m, v, list[j]).1, tie)]
      ensures m2[v] == SelFold(x0, Cands(m2, v, list[..j + 1]), ties + [tie])
    {
      var y := m2[v];
      CandsLast(m2, v, list, j);
      CandsSetV(m, v, list, y);
      assert Cands(m2, v, list[..j]) == Cands(m, v, list[..j]);
      var cs := Cands(m2, v, list[..j + 1]);
      assert cs[..j] == Cands(m, v, list[..j]);
      assert (ties + [tie])[..j] == ties;
    }

    /** The candidates of one more pair are the earlier ones followed by that pair's. */
    lemma CandsLast(m: map<Cluster, CVertex>, v: Cluster, list: seq<Pair>, j: nat)
      requires j < |list|
      ensures Cands(m, v, list[..j + 1]) == Cands(m, v, list[..j]) + [CandOf(m, v, list[j])]
    {
      assert list[..j + 1][..j] == list[..j];
    }

    /** No candidate has v as a side, so rewriting v's own entry leaves every candidate's score alone. */
    lemma CandsSetV(m: map<Cluster, CVertex>, v: Cluster, list: seq<Pair>, y: CVertex)
      requires forall i :: 0 <= i < |list| ==> PairOf(m, list[i], v)
      ensures forall i :: 0 <= i < |list| ==> CandOf(m[v := y], v, list[i]) == CandOf(m, v, list[i])
      ensures forall k :: 0 <= k <= |list| ==> Cands(m[v := y], v, list[..k]) == Cands(m, v, list[..k])
    {
      forall i | 0 <= i < |list| ensures CandOf(m[v := y], v, list[i]) == CandOf(m, v, list[i]) {
        PairSizes2(list[i], v);
      }
    }

    lemma PairSizes2(p: Pair, v: Cluster)
      requires p.cluster1 + p.cluster2 == v && p.cluster1 * p.cluster2 == {} && p.cluster1 != {} && p.cluster2 != {}
      ensures p.cluster1 != v && p.cluster2 != v
    {
      assert |v| == |p.cluster1| + |p.cluster2|;
    }

    /** The `weights` loop: `weights[j]` is the weight of the j-th pair. */
    method ComputeWeights(v: Cluster, list: seq<Pair>) returns (weights: array<int>)
      ensures fresh(weights) && weights.Length == |list|
      ensures forall j :: 0 <= j < |list| ==> weights[j] == WeightOf(v, list[j])
    {
      weights := new int[|list|];
      var j := 0;
      while j < |list|
        invariant 0 <= j <= |list|
        invariant forall i :: 0 <= i < j ==> weights[i] == WeightOf(v, list[i])
      {
        var weight;
        if |v| == taxonCount {
          weight := DefaultWeightForFullClusters;
        } else {
          var t := STB2T(list[j], taxonCount);
          weight := tripartitionWeight(t);
        }
        weights[j] := weight;
        j := j + 1;
      }
    }

    /**
     * `computeMinCost()` on the consumer side. A finished vertex answers from
     * memory; a base-case cluster gets `scoreBaseCase` and is finished;
     * otherwise the next queued list is taken, both sides of every pair are
     * computed (the second cluster first), and the selection rule runs with
     * the precomputed weights. Without recorded children the vertex fails and
     * stays unfinished.
     */
    method ComputeMinCost(v: Cluster) returns (r: Answer, ghost ties: seq<bool>, ghost draws: seq<nat>)
      requires v in verts
      modifies this
      decreases |v|, 2
      ensures Frame(old(verts), verts, |v|) && v in verts && old(coinsUsed) <= coinsUsed
      ensures old(verts)[v].consDone ==>
        r == Score(old(verts)[v].maxScore) && verts == old(verts) && queue == old(queue) && coinsUsed == old(coinsUsed)
      ensures !old(verts)[v].consDone && IsBase(v) ==>
        r == Score(scoreBaseCase(v)) && queue == old(queue) && coinsUsed == old(coinsUsed) &&
        verts == old(verts)[v := old(verts)[v].(maxScore := scoreBaseCase(v), consDone := true)]
      ensures !old(verts)[v].consDone && !IsBase(v) && old(queue) == [] ==>
        r == Fault(QueueEmpty) && verts == old(verts)
      ensures r.Score? <==> verts[v].consDone
      ensures r.Score? ==> r.value == verts[v].maxScore
      ensures !old(verts)[v].consDone && !IsBase(v) && old(queue) != [] && r != Fault(ChildFailed) ==>
        var list := old(queue)[0];
        (r == Fault(OutOfStep) <==> !(forall p :: p in list ==> PairOf(old(verts), p, v))) &&
        (r == Fault(OutOfStep) ==> verts == old(verts)) &&
        (r != Fault(OutOfStep) ==>
          (forall j :: 0 <= j < |list| ==> SidesDone(verts, list[j])) && |ties| == |list| &&
          verts[v] == SelFold(old(verts)[v], Cands(verts, v, list), ties).(consDone := verts[v].consDone) &&
          CoinTrace(old(verts)[v], Cands(verts, v, list), ties, draws, old(coinsUsed), coinsUsed,
                    AllSidesDone(old(verts), list)) &&
          (r == CannotResolve <==> verts[v].lc == None || verts[v].rc == None))
    {
      ties, draws := [], [];
      if verts[v].consDone {
        return Score(verts[v].maxScore), ties, draws;
      }
      if |v| <= 1 || isSingleSP(v) {
        var x := verts[v].(maxScore := scoreBaseCase(v), consDone := true);
        verts := verts[v := x];
        return Score(x.maxScore), ties, draws;
      }
      if queue == [] {
        return Fault(QueueEmpty), ties, draws;
      }
      var list := queue[0];
      queue := queue[1..];
      if !(forall p :: p in list ==> PairOf(verts, p, v)) {
        return Fault(OutOfStep), ties, draws;
      }
      var weights := ComputeWeights(v, list);
      r, ties, draws := SelectionLoop(v, list, weights);
    }

    /** The selection loop's invariant after the first j candidates of `list`. */
    ghost predicate SelInv(orig: map<Cluster, CVertex>, m: map<Cluster, CVertex>, v: Cluster, list: seq<Pair>,
                           j: nat, ties: seq<bool>)
    {
      j <= |list| && |ties| == j &&
      Frame(orig, m, |v|) && v in orig && v in m && !m[v].consDone &&
      (forall i :: 0 <= i < |list| ==> PairOf(m, list[i], v)) &&
      (forall i :: 0 <= i < j ==> SidesDone(m, list[i])) &&
      m[v] == SelFold(orig[v], Cands(m, v, list[..j]), ties)
    }

    /** The second loop of `computeMinCost`, then the check for missing children and the final `setConsDone`. */
    method SelectionLoop(v: Cluster, list: seq<Pair>, weights: array<int>)
      returns (r: Answer, ghost ties: seq<bool>, ghost draws: seq<nat>)
      requires v in verts && !verts[v].consDone && |v| >= 2
      requires forall j :: 0 <= j < |list| ==> PairOf(verts, list[j], v)
      requires weights.Length == |list| && forall j :: 0 <= j < |list| ==> weights[j] == WeightOf(v, list[j])
      modifies this
      decreases |v|, 1
      ensures Frame(old(verts), verts, |v|) && v in verts && old(coinsUsed) <= coinsUsed
      ensures r.Score? <==> verts[v].consDone
      ensures r.Score? ==> r.value == verts[v].maxScore
      ensures r != Fault(ChildFailed) ==>
        (forall j :: 0 <= j < |list| ==> SidesDone(verts, list[j])) && |ties| == |list| &&
        verts[v] == SelFold(old(verts)[v], Cands(verts, v, list), ties).(consDone := verts[v].consDone) &&
        CoinTrace(old(verts)[v], Cands(verts, v, list), ties, draws, old(coinsUsed), coinsUsed,
                  AllSidesDone(old(verts), list)) &&
        (r == CannotResolve <==> verts[v].lc == None || verts[v].rc == None)
      ensures r.Score? || r == CannotResolve || r == Fault(ChildFailed)
    {
      ties, draws := [], [];
      var j := 0;
      while j < |list|
        invariant 0 <= j <= |list| && SelInv(old(verts), verts, v, list, j, ties)
        invariant CoinTrace(old(verts)[v], Cands(verts, v, list[..j]), ties, draws, old(coinsUsed), coinsUsed,
                            AllSidesDone(old(verts), list[..j]))
      {
        ghost var m0, c0 := verts, coinsUsed;
        var ok, tie, d := OfferPair(v, list, j, weights, old(verts), ties);
        if !ok {
          return Fault(ChildFailed), ties, draws;
        }
        CandsLast(verts, v, list, j);
        assert AllSidesDone(old(verts), list[..j + 1]) ==>
          AllSidesDone(old(verts), list[..j]) && SidesDone(old(verts), list[j]) by {
          assert list[..j + 1][j] == list[j];
          assert forall i :: 0 <= i < j ==> list[..j + 1][i] == list[..j][i];
        }
        CoinTraceStep(old(verts)[v], Cands(m0, v, list[..j]), ties, draws, old(coinsUsed), c0,
                      AllSidesDone(old(verts), list[..j]), CandOf(verts, v, list[j]), tie, d, coinsUsed,
                      AllSidesDone(old(verts), list[..j + 1]));
        ties, draws := ties + [tie], draws + [d];
        j := j + 1;
      }
      assert list[..j] == list;
      if verts[v].lc == None || verts[v].rc == None {
        return CannotResolve, ties, draws;
      }
      CandsSetV(verts, v, list, verts[v].(consDone := true));
      verts := verts[v := verts[v].(consDone := true)];
      r := Score(verts[v].maxScore);
    }

    /**
     * One pass of the selection loop: the second cluster's score, then the
     * first's, then the selection rule on `lscore + rscore + weights[j]`.
     * `ok` is false when a side threw.
     */
    method OfferPair(v: Cluster, list: seq<Pair>, j: nat, weights: array<int>,
                     ghost orig: map<Cluster, CVertex>, ghost ties: seq<bool>)
      returns (ok: bool, ghost tie: bool, ghost d: nat)
      requires j < |list| && SelInv(orig, verts, v, list, j, ties)
      requires weights.Length == |list| && forall i :: 0 <= i < |list| ==> weights[i] == WeightOf(v, list[i])
      modifies this
      decreases |v|, 0
      ensures old(coinsUsed) <= coinsUsed
      ensures ok ==> SelInv(orig, verts, v, list, j + 1, ties + [tie])
      ensures ok ==> Cands(verts, v, list[..j]) == Cands(old(verts), v, list[..j])
      ensures ok ==> old(coinsUsed) <= d
      ensures ok ==> tie == (CandOf(verts, v, list[j]).1 == old(verts)[v].maxScore && coin(d))
      ensures ok ==> coinsUsed == d + (if CandOf(verts, v, list[j]).1 == old(verts)[v].maxScore then 1 else 0)
      ensures ok && SidesDone(orig, list[j]) ==> d == old(coinsUsed)
      ensures !ok ==> Frame(orig, verts, |v|) && v in verts && !verts[v].consDone
    {
      tie, d := false, coinsUsed;
      var bi := list[j];
      ghost var m0 := verts;
      PairSizes(bi, v);
      var rscore, _, _ := ComputeMinCost(bi.cluster2);
      FrameTrans(orig, m0, verts, |v|, |bi.cluster2|);
      if rscore.Fault? {
        // a RuntimeException leaves the loop at once
        return false, tie, d;
      }
      // an unresolvable side answers null; the sum at line 95 fails only after the other side is computed
      ghost var m1 := verts;
      var lscore, _, _ := ComputeMinCost(bi.cluster1);
      FrameTrans(orig, m1, verts, |v|, |bi.cluster1|);
      if !rscore.Score? || !lscore.Score? {
        return false, tie, d;
      }
      SidesComputed(orig, m0, m1, verts, v, list, j, ties);
      assert verts[v] == m0[v];
      d := coinsUsed;
      tie := ApplyRule(v, list, j, orig, ties, lscore.value + rscore.value + weights[j]);
      ok := true;
    }

    /** Computing both sides of candidate j keeps the invariant and finishes the candidate's sides. */
    lemma SidesComputed(orig: map<Cluster, CVertex>, m0: map<Cluster, CVertex>, m1: map<Cluster, CVertex>,
                        m2: map<Cluster, CVertex>, v: Cluster, list: seq<Pair>, j: nat, ties: seq<bool>)
      requires j < |list| && SelInv(orig, m0, v, list, j, ties)
      requires Frame(m0, m1, |list[j].cluster2|) && Frame(m1, m2, |list[j].cluster1|)
      requires |list[j].cluster2| < |v| && |list[j].cluster1| < |v|
      requires m1[list[j].cluster2].consDone && m2[list[j].cluster1].consDone
      ensures SelInv(orig, m2, v, list, j, ties) && SidesDone(m2, list[j])
      ensures Cands(m2, v, list[..j]) == Cands(m0, v, list[..j]) && m2[v] == m0[v]
      ensures CandOf(m2, v, list[j]).1 == m1[list[j].cluster2].maxScore + m2[list[j].cluster1].maxScore + WeightOf(v, list[j])
    {
      var sz := if |list[j].cluster2| < |list[j].cluster1| then |list[j].cluster1| else |list[j].cluster2|;
      FrameTrans(m0, m1, m2, |list[j].cluster2|, |list[j].cluster1|);
      FrameTrans(orig, m0, m2, |v|, sz);
      CandsStay(m0, m2, v, list[..j], sz);
    }

    /** The selection rule of lines 95-102 on the candidate j, whose score is `newScore`: a coin is drawn only on a tie. */
    method ApplyRule(v: Cluster, list: seq<Pair>, j: nat, ghost orig: map<Cluster, CVertex>, ghost ties: seq<bool>,
                     newScore: int) returns (ghost tie: bool)
      requires j < |list| && SelInv(orig, verts, v, list, j, ties) && SidesDone(verts, list[j])
      requires newScore == CandOf(verts, v, list[j]).1
      modifies this
      ensures SelInv(orig, verts, v, list, j + 1, ties + [tie])
      ensures coinsUsed == old(coinsUsed) + (if newScore == old(verts)[v].maxScore then 1 else 0)
      ensures tie == (newScore == old(verts)[v].maxScore && coin(old(coinsUsed)))
      ensures forall k :: 0 <= k <= |list| ==> Cands(verts, v, list[..k]) == Cands(old(verts), v, list[..k])
      ensures CandOf(verts, v, list[j]) == CandOf(old(verts), v, list[j])
      ensures queue == old(queue)
    {
      tie := false;
      var bi := list[j];
      var x := verts[v];
      var skip := newScore < x.maxScore;
      if !skip && newScore == x.maxScore {
        var flip := coin(coinsUsed);
        coinsUsed := coinsUsed + 1;
        skip := flip;
        tie := flip;
      }
      ghost var m2 := verts;
      if !skip {
        verts := verts[v := x.(maxScore := newScore, lc := Some(bi.cluster1), rc := Some(bi.cluster2))];
      } else {
        assert m2 == m2[v := x];
      }
      SelectApplied(orig, m2, v, list, j, ties, tie, verts);
      CandsSetV(m2, v, list, verts[v]);
    }

    /** Offering the `j`-th pair to the selection rule extends the loop's invariant by one candidate. */
    lemma SelectApplied(orig: map<Cluster, CVertex>, m: map<Cluster, CVertex>, v: Cluster, list: seq<Pair>, j: nat,
                        ties: seq<bool>, tie: bool, m2: map<Cluster, CVertex>)
      requires j < |list| && SelInv(orig, m, v, list, j, ties) && SidesDone(m, list[j])
      requires m2 == m[v := SelStep(m[v], list[j], CandOf(m, v, list[j]).1, tie)]
      ensures SelInv(orig, m2, v, list, j + 1, ties + [tie])
    {
      SelectionStep(m, m2, v, list, j, orig[v], ties, tie);
      FrameTrans(orig, m, m2, |v|, |v|);
    }
  }
}
