/**
 * The pure rules of the memoised cluster DP (ComputeMinCostTask): the vertex
 * record, how one scored candidate bipartition is accepted or rejected, and the
 * per-tree extra terms of the duplication/loss cost.
 */
module MinCostRules {
  import opened Clusters

  /** `Vertex._done`: 0 (not computed yet), 1 (score final) or 2 (cannot be resolved). */
  datatype Progress = Unseen | Done | Unresolvable

  /** An STBipartition of a cluster: `cluster1` (small side) and `cluster2` (big side). */
  datatype Split = Split(small: Cluster, big: Cluster)

  /** The DP fields of a Vertex: `_done`, `_max_score`, `_min_lc`/`_min_rc` and `_c`. */
  datatype Vertex = Vertex(done: Progress, maxScore: int, children: Option<Split>, c: int)

  /** A vertex as first inserted: not computed, sentinel score -1, no children. */
  const Fresh := Vertex(Unseen, -1, None, 0)

  /** `s` cuts `v` into two nonempty disjoint halves. */
  predicate ProperSplit(s: Split, v: Cluster)
  {
    s.small != {} && s.big != {} && s.small * s.big == {} && s.small + s.big == v
  }

  /** Both halves of a proper split are strictly smaller than the cluster. */
  lemma SplitSizes(s: Split, v: Cluster)
    requires ProperSplit(s, v)
    ensures |s.small| + |s.big| == |v| && |s.small| < |v| && |s.big| < |v|
    ensures s.small < v && s.big < v
  {
  }

  /** What one candidate bipartition produced: a side could not be resolved, or a score. */
  datatype Candidate = Skipped | Scored(split: Split, score: int, cost: int)

  /**
   * The acceptance rule: a scored candidate replaces the current best unless the
   * best is not the sentinel -1 and the candidate is strictly smaller.
   */
  function Accept(x: Vertex, o: Candidate): (r: Vertex)
    ensures r.done == x.done
    ensures o.Skipped? ==> r == x
    ensures o.Scored? && x.maxScore != -1 && o.score < x.maxScore ==> r == x
    ensures o.Scored? && (x.maxScore == -1 || o.score >= x.maxScore) ==>
              r.maxScore == o.score && r.children == Some(o.split) && r.c == o.cost
  {
    match o
    case Skipped => x
    case Scored(s, score, cost) =>
      if x.maxScore != -1 && score < x.maxScore then x
      else x.(maxScore := score, children := Some(s), c := cost)
  }

  /** The vertex after offering it every candidate of `os` in order. */
  function Select(x: Vertex, os: seq<Candidate>): Vertex
  {
    if |os| == 0 then x else Accept(Select(x, os[..|os| - 1]), os[|os| - 1])
  }

  /** No candidate of `os` was scored. */
  predicate NoneScored(os: seq<Candidate>)
  {
    forall j :: 0 <= j < |os| ==> os[j].Skipped?
  }

  /** Selection never touches `_done`, and with nothing scored it changes nothing. */
  lemma {:induction false} SelectFrame(x: Vertex, os: seq<Candidate>)
    ensures Select(x, os).done == x.done
    ensures NoneScored(os) ==> Select(x, os) == x
    ensures x.children.Some? ==> Select(x, os).children.Some?
  {
    if |os| > 0 {
      SelectFrame(x, os[..|os| - 1]);
    }
  }

  /** From a fresh vertex, children get chosen exactly when some candidate is scored, whatever the scores. */
  lemma {:induction false} SelectChoosesIffScored(x: Vertex, os: seq<Candidate>)
    requires x.maxScore == -1 && x.children == None
    ensures Select(x, os).children.Some? <==> !NoneScored(os)
  {
    if |os| > 0 {
      var init := os[..|os| - 1];
      SelectChoosesIffScored(x, init);
      assert forall j :: 0 <= j < |init| ==> init[j] == os[j];
      if NoneScored(init) {
        SelectFrame(x, init);
      } else {
        assert !NoneScored(os);
      }
    }
  }

  /**
   * Starting from a fresh vertex, and as long as no candidate happens to score
   * the sentinel -1: children are chosen iff some candidate was scored; the
   * chosen score is the maximum of the scored candidates; and it belongs to the
   * LAST candidate reaching that maximum (ties go to the later candidate).
   */
  lemma {:induction false} SelectBest(x: Vertex, os: seq<Candidate>)
    requires x.maxScore == -1 && x.children == None
    requires forall j :: 0 <= j < |os| && os[j].Scored? ==> os[j].score != -1
    ensures forall j :: 0 <= j < |os| && os[j].Scored? ==> os[j].score <= Select(x, os).maxScore
    ensures Select(x, os).children.Some? ==>
              exists j :: 0 <= j < |os| && os[j].Scored? &&
                os[j] == Scored(Select(x, os).children.value, Select(x, os).maxScore, Select(x, os).c) &&
                forall k :: j < k < |os| && os[k].Scored? ==> os[k].score < os[j].score
  {
    if |os| > 0 {
      var init := os[..|os| - 1];
      var last := os[|os| - 1];
      SelectBest(x, init);
      SelectChoosesIffScored(x, init);
      var y := Select(x, init);
      assert forall j :: 0 <= j < |init| ==> init[j] == os[j];
      if NoneScored(init) {
        SelectFrame(x, init);
        if last.Scored? {
          assert os[|os| - 1] == Scored(Select(x, os).children.value, Select(x, os).maxScore, Select(x, os).c);
        } else {
          assert NoneScored(os);
        }
      } else if last.Scored? && last.score >= y.maxScore {
        assert os[|os| - 1] == Scored(Select(x, os).children.value, Select(x, os).maxScore, Select(x, os).c);
      } else {
        assert Select(x, os) == y;
        var j :| 0 <= j < |init| && init[j].Scored? &&
          init[j] == Scored(y.children.value, y.maxScore, y.c) &&
          forall k :: j < k < |init| && init[k].Scored? ==> init[k].score < init[j].score;
        assert os[j] == init[j];
      }
    }
  }

  /**
   * The sentinel is compared by value: a first candidate scoring exactly -1
   * looks like "nothing chosen yet", so a later, smaller score replaces it.
   */
  lemma SentinelScoreIsReplaced(s1: Split, s2: Split)
    ensures Select(Fresh, [Scored(s1, -1, 0), Scored(s2, -5, 0)]) == Vertex(Unseen, -5, Some(s2), 0)
  {
    var os := [Scored(s1, -1, 0), Scored(s2, -5, 0)];
    var one := os[..1];
    assert one == [Scored(s1, -1, 0)] && one[..0] == [];
    assert Select(Fresh, one[..0]) == Fresh;
    assert Select(Fresh, one) == Accept(Fresh, one[0]) == Vertex(Unseen, -1, Some(s1), 0);
    assert Select(Fresh, os) == Accept(Select(Fresh, one), os[1]);
  }

  /**
   * `extraTerms` of `calculateDLCost` for one tree, AS WRITTEN: the second test
   * reads `!pDisJoint && !pDisJoint`, so it also fires when only the small side
   * meets the tree.
   */
  function ExtraTermsAsWritten(small: Cluster, big: Cluster, treeAll: Cluster): int
  {
    var pDisjoint := small * treeAll == {};
    var qDisjoint := big * treeAll == {};
    if pDisjoint && qDisjoint then 0
    else if !pDisjoint && !pDisjoint then 2
    else
      var complete := if pDisjoint then |big| == |treeAll| else |small| == |treeAll|;
      if complete then 2 else 1
  }

  /** The as-written rule depends on the order of the two sides. */
  lemma ExtraTermsAsWrittenIsAsymmetric()
    ensures ExtraTermsAsWritten({0}, {1}, {0, 2}) == 2
    ensures ExtraTermsAsWritten({1}, {0}, {0, 2}) == 1
  {
    assert {0} * {0, 2} != {};
    assert {1} * {0, 2} == {};
    assert |{0}| == 1 && |{0, 2}| == 2;
  }

  /**
   * `extraTerms` as evidently intended (`!pDisJoint && !qDisJoint`): 0 when
   * neither side meets the tree, 2 when both do, and when exactly one side does,
   * 2 if that side is as large as the tree's taxon set and 1 otherwise.
   */
  function ExtraTerms(small: Cluster, big: Cluster, treeAll: Cluster): (r: int)
    ensures 0 <= r <= 2
    ensures r == 0 <==> small * treeAll == {} && big * treeAll == {}
    ensures small * treeAll != {} && big * treeAll != {} ==> r == 2
    ensures small * treeAll == {} && big * treeAll != {} ==> (r == 2 <==> |big| == |treeAll|)
    ensures small * treeAll != {} && big * treeAll == {} ==> (r == 2 <==> |small| == |treeAll|)
  {
    var pDisjoint := small * treeAll == {};
    var qDisjoint := big * treeAll == {};
    if pDisjoint && qDisjoint then 0
    else if !pDisjoint && !qDisjoint then 2
    else
      var complete := if pDisjoint then |big| == |treeAll| else |small| == |treeAll|;
      if complete then 2 else 1
  }

  /** The intended rule does not care which side is called small. */
  lemma ExtraTermsSymmetric(small: Cluster, big: Cluster, treeAll: Cluster)
    ensures ExtraTerms(small, big, treeAll) == ExtraTerms(big, small, treeAll)
  {
  }

  /** The two rules differ only when the small side meets the tree and the big side does not. */
  lemma ExtraTermsAgreeElsewhere(small: Cluster, big: Cluster, treeAll: Cluster)
    requires !(small * treeAll != {} && big * treeAll == {})
    ensures ExtraTermsAsWritten(small, big, treeAll) == ExtraTerms(small, big, treeAll)
  {
  }

  /** The as-written rule never counts less than the intended one, and at most one more. */
  lemma ExtraTermsAsWrittenBounds(small: Cluster, big: Cluster, treeAll: Cluster)
    ensures ExtraTerms(small, big, treeAll) <= ExtraTermsAsWritten(small, big, treeAll) <= ExtraTerms(small, big, treeAll) + 1
  {
    if !(small * treeAll != {} && big * treeAll == {}) {
      ExtraTermsAgreeElsewhere(small, big, treeAll);
    }
  }

  /** The intended rule gives 1 on the input that exhibits the as-written asymmetry. */
  lemma ExtraTermsOnWitness()
    ensures ExtraTerms({0}, {1}, {0, 2}) == 1
  {
    assert {0} * {0, 2} != {};
    assert {1} * {0, 2} == {};
    assert |{0}| == 1 && |{0, 2}| == 2;
  }

  /** `getCompleteryVertx(x, ref)`: the complement of x, taken as `ref XOR x`. */
  function ComplementaryCluster(x: Cluster, ref: Cluster): (r: Cluster)
    ensures x <= ref ==> r == ref - x && |r| == |ref| - |x|
    ensures Xor(r, ref) == x
  {
    Xor(ref, x)
  }
}
