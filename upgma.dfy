/**
 * The UPGMA merge loop of the similarity matrix (`upgmaLoop`) and its set-up
 * (`resolveByUPGMA`): groups of taxa are merged pairwise, the most similar
 * pair first, until two groups remain; every merged group is emitted.
 */
module Upgma {
  import opened Clusters
  import opened Similarity

  /**
   * The four parallel lists of `upgmaLoop`, one entry per index: the group's
   * weight, its bitset, its TreeSet of other indices (kept in the order of its
   * own row of similarities) and that row. An index merged away holds null in
   * all four.
   */
  datatype State = State(weights: seq<Option<int>>, groups: seq<Option<Cluster>>,
                         inds: seq<Option<set<nat>>>, sims: seq<Option<seq<real>>>)

  /** All four lists have `size` entries, they agree on which are null, and each row has `size` entries. */
  predicate Shaped(st: State, size: nat)
  {
    |st.weights| == size && |st.groups| == size && |st.inds| == size && |st.sims| == size &&
    forall i :: 0 <= i < size ==>
      st.weights[i].Some? == st.groups[i].Some? && st.groups[i].Some? == st.inds[i].Some? &&
      st.inds[i].Some? == st.sims[i].Some? &&
      (st.sims[i].Some? ==> |st.sims[i].value| == size)
  }

  /** The indices not merged away yet. */
  function Live(groups: seq<Option<Cluster>>): (r: set<nat>)
    ensures forall i: nat :: i in r <==> i < |groups| && groups[i].Some?
  {
    set i: nat | i < |groups| && groups[i].Some?
  }

  /** Every live index's TreeSet holds exactly the other live indices. */
  predicate Consistent(st: State, size: nat)
  {
    Shaped(st, size) &&
    forall i :: 0 <= i < size && st.inds[i].Some? ==> st.inds[i].value == Live(st.groups) - {i}
  }

  /** Live groups have positive weight. */
  predicate PositiveWeights(st: State)
  {
    forall i :: 0 <= i < |st.weights| && st.weights[i].Some? ==> st.weights[i].value > 0
  }

  /** The similarity rows of live indices agree on every pair of live indices. */
  predicate LiveSymmetric(st: State, size: nat)
    requires Shaped(st, size)
  {
    forall i, k :: 0 <= i < size && 0 <= k < size && st.sims[i].Some? && st.sims[k].Some? ==>
      st.sims[i].value[k] == st.sims[k].value[i]
  }

  /** Every similarity between two distinct live indices exceeds the -1 sentinel. */
  predicate AboveSentinel(st: State, size: nat)
    requires Shaped(st, size)
  {
    forall i, k :: 0 <= i < size && 0 <= k < size && i != k && st.sims[i].Some? && st.sims[k].Some? ==>
      st.sims[i].value[k] > -1.0
  }

  /** Distinct live groups share no taxon. */
  predicate DisjointGroups(groups: seq<Option<Cluster>>)
  {
    forall i, j :: 0 <= i < |groups| && 0 <= j < |groups| && i != j && groups[i].Some? && groups[j].Some? ==>
      groups[i].value * groups[j].value == {}
  }

  /** The union of the live groups. */
  function LiveUnion(groups: seq<Option<Cluster>>): (r: set<nat>)
    ensures forall x :: x in r <==> exists i :: 0 <= i < |groups| && groups[i].Some? && x in groups[i].value
  {
    if |groups| == 0 then {}
    else
      var init := groups[..|groups| - 1];
      var last := groups[|groups| - 1];
      var r := LiveUnion(init) + (if last.Some? then last.value else {});
      assert forall i :: 0 <= i < |init| ==> init[i] == groups[i];
      r
  }

  /** The weight an entry contributes: 0 when null. */
  function WeightOf(w: Option<int>): int
  {
    if w.Some? then w.value else 0
  }

  /** The sum of the live weights. */
  function LiveWeight(weights: seq<Option<int>>): int
  {
    if |weights| == 0 then 0 else LiveWeight(weights[..|weights| - 1]) + WeightOf(weights[|weights| - 1])
  }

  /** Replacing one entry changes the sum by the difference of the two entries. */
  lemma {:induction false} LiveWeightUpdate(weights: seq<Option<int>>, i: nat, w: Option<int>)
    requires i < |weights|
    ensures LiveWeight(weights[i := w]) == LiveWeight(weights) - WeightOf(weights[i]) + WeightOf(w)
  {
    var n := |weights| - 1;
    if i < n {
      LiveWeightUpdate(weights[..n], i, w);
      assert weights[i := w][..n] == weights[..n][i := w];
    } else {
      assert weights[i := w][..n] == weights[..n];
    }
  }

  // ---------------------------------------------------------------------------
  // Choosing the closest pair
  // ---------------------------------------------------------------------------

  /** `TreeSet.first()` under the `sortColumn` comparator: the most similar index, the larger one on ties. */
  function First(s: set<nat>, js: seq<real>): (r: nat)
    requires s != {} && forall i :: i in s ==> i < |js|
    ensures r in s && r < |js|
    ensures forall y :: y in s && y != r ==> js[r] > js[y] || (js[r] == js[y] && r > y)
  {
    var xs := Members(s, |js|);
    assert forall y :: y in s ==> y in xs;
    Best(xs, js)
  }

  /** The element of `xs` that the `sortColumn` comparator puts first. */
  function Best(xs: seq<nat>, js: seq<real>): (r: nat)
    requires |xs| > 0 && forall i :: 0 <= i < |xs| ==> xs[i] < |js|
    ensures r in xs && r < |js|
    ensures forall y :: y in xs && y != r ==> js[r] > js[y] || (js[r] == js[y] && r > y)
  {
    if |xs| == 1 then xs[0]
    else
      var b := Best(xs[..|xs| - 1], js);
      var x := xs[|xs| - 1];
      assert forall y :: y in xs ==> y in xs[..|xs| - 1] || y == x;
      if js[x] > js[b] || (js[x] == js[b] && x > b) then x else b
  }

  /** The first element of the sorted column is the one `First` names. */
  lemma FirstIsSortColumnHead(s: set<nat>, js: seq<real>)
    requires s != {} && forall i :: i in s ==> i < |js|
    ensures SortColumn(s, js)[0] == First(s, js)
  {
    SortColumnFirst(s, js);
    var h := SortColumn(s, js)[0];
    var f := First(s, js);
    assert h == f;
  }

  /** Index `i` has a nonempty TreeSet of indices within its row. */
  predicate Ready(st: State, i: nat)
  {
    i < |st.inds| && i < |st.sims| && st.inds[i].Some? && st.sims[i].Some? && st.inds[i].value != {} &&
    forall y :: y in st.inds[i].value ==> y < |st.sims[i].value|
  }

  /** The similarity of index `i` to the first index of its TreeSet. */
  function Top(st: State, i: nat): real
    requires Ready(st, i)
  {
    st.sims[i].value[First(st.inds[i].value, st.sims[i].value)]
  }

  /** In a consistent state every live index with a nonempty TreeSet is ready. */
  lemma ConsistentReady(st: State, size: nat, i: nat)
    requires Consistent(st, size) && i < size && st.inds[i].Some? && st.inds[i].value != {}
    ensures Ready(st, i)
  {
  }

  /** How the search for the closest pair ends. */
  datatype Pick = EmptyRow | NoneAbove | Pair(i: nat, j: nat)

  /**
   * The search loop of `upgmaLoop`: over the live indices in order, the first
   * whose top similarity is strictly the largest, as long as it exceeds -1.
   * A live index with an empty TreeSet makes `first()` throw (EmptyRow); no top
   * similarity above -1 leaves `closestI` at -1, which the following
   * `bsList.get(-1)` rejects (NoneAbove).
   */
  method FindClosest(st: State, size: nat) returns (p: Pick)
    requires Consistent(st, size)
    ensures p.EmptyRow? <==> exists i :: 0 <= i < size && st.inds[i] == Some({})
    ensures p.NoneAbove? ==> forall i :: 0 <= i < size && st.inds[i].Some? ==> Ready(st, i) && Top(st, i) <= -1.0
    ensures p.Pair? ==> Picked(st, size, p.i, p.j)
  {
    var bestHit := -1.0;
    var closestI := -1;
    var closestJ: int := -1;
    var i := 0;
    while i < size
      invariant 0 <= i <= size && Scanned(st, i, closestI, closestJ, bestHit)
    {
      if st.inds[i].Some? {
        if st.inds[i].value == {} {
          return EmptyRow;
        }
        ConsistentReady(st, size, i);
        var j := First(st.inds[i].value, st.sims[i].value);
        if st.sims[i].value[j] > bestHit {
          ScanLead(st, i, closestI, closestJ, bestHit);
          bestHit := st.sims[i].value[j];
          closestI := i;
          closestJ := j;
        } else {
          ScanKeep(st, i, closestI, closestJ, bestHit);
        }
      } else {
        ScanSkip(st, i, closestI, closestJ, bestHit);
      }
      i := i + 1;
    }
    ScanDone(st, size, closestI, closestJ, bestHit);
    if closestI == -1 {
      p := NoneAbove;
    } else {
      p := Pair(closestI, closestJ);
    }
  }

  /** A completed search found no empty TreeSet, and either no top similarity above -1 or the pair to merge. */
  lemma ScanDone(st: State, size: nat, ci: int, cj: int, hit: real)
    requires |st.inds| == size && Scanned(st, size, ci, cj, hit)
    ensures forall i :: 0 <= i < size ==> st.inds[i] != Some({})
    ensures ci == -1 ==> forall i :: 0 <= i < size && st.inds[i].Some? ==> Ready(st, i) && Top(st, i) <= -1.0
    ensures ci != -1 ==> 0 <= ci && 0 <= cj && Picked(st, size, ci, cj)
  {
    forall i | 0 <= i < size ensures st.inds[i] != Some({}) {
      if st.inds[i].Some? {
        assert Ready(st, i);
      }
    }
  }

  /**
   * Among the indices below `i`, `ci` has the strictly largest top similarity
   * `hit`, which exceeds -1, and `cj` is its first index.
   */
  ghost predicate Leading(st: State, i: nat, ci: nat, cj: nat, hit: real)
  {
    Ready(st, ci) && cj == First(st.inds[ci].value, st.sims[ci].value) && hit == Top(st, ci) && hit > -1.0 &&
    Bound(st, i, hit) && StrictlyBelow(st, ci, hit)
  }

  /** Every live index below `i` is ready. */
  ghost predicate AllReady(st: State, i: nat)
  {
    forall i' :: 0 <= i' < i && i' < |st.inds| && st.inds[i'].Some? ==> Ready(st, i')
  }

  /** No ready index below `i` has a top similarity above `hit`. */
  ghost predicate Bound(st: State, i: nat, hit: real)
  {
    forall i' :: 0 <= i' < i && Ready(st, i') ==> Top(st, i') <= hit
  }

  /** Every ready index below `i` has a top similarity below `hit`. */
  ghost predicate StrictlyBelow(st: State, i: nat, hit: real)
  {
    forall i' :: 0 <= i' < i && Ready(st, i') ==> Top(st, i') < hit
  }

  /** The search state after scanning the indices below `i`: -1 for "nothing found yet". */
  ghost predicate Scanned(st: State, i: nat, ci: int, cj: int, hit: real)
  {
    i <= |st.inds| && AllReady(st, i) &&
    (ci == -1 ==> hit == -1.0 && Bound(st, i, hit)) &&
    (ci != -1 ==> 0 <= ci < i && 0 <= cj && Leading(st, i, ci, cj, hit))
  }

  lemma AllReadyStep(st: State, i: nat)
    requires AllReady(st, i) && i < |st.inds| && (st.inds[i].Some? ==> Ready(st, i))
    ensures AllReady(st, i + 1)
  {
  }

  lemma BoundStep(st: State, i: nat, hit: real, t: real)
    requires Bound(st, i, hit) && hit <= t && (Ready(st, i) ==> Top(st, i) <= t)
    ensures Bound(st, i + 1, t)
  {
  }

  lemma StrictlyBelowBound(st: State, i: nat, hit: real, t: real)
    requires Bound(st, i, hit) && hit < t
    ensures StrictlyBelow(st, i, t)
  {
  }

  /** One step of the search: a null entry is skipped. */
  lemma ScanSkip(st: State, i: nat, ci: int, cj: int, hit: real)
    requires Scanned(st, i, ci, cj, hit) && i < |st.inds| && st.inds[i].None?
    ensures Scanned(st, i + 1, ci, cj, hit)
  {
    AllReadyStep(st, i);
    BoundStep(st, i, hit, hit);
  }

  /** A strictly larger top similarity takes the lead. */
  lemma ScanLead(st: State, i: nat, ci: int, cj: int, hit: real)
    requires Scanned(st, i, ci, cj, hit) && i < |st.inds| && st.inds[i].Some? && Ready(st, i)
    requires Top(st, i) > hit
    ensures Scanned(st, i + 1, i, First(st.inds[i].value, st.sims[i].value), Top(st, i))
  {
    var t := Top(st, i);
    AllReadyStep(st, i);
    BoundStep(st, i, hit, t);
    StrictlyBelowBound(st, i, hit, t);
  }

  /** A top similarity no larger than the lead leaves the lead alone. */
  lemma ScanKeep(st: State, i: nat, ci: int, cj: int, hit: real)
    requires Scanned(st, i, ci, cj, hit) && i < |st.inds| && st.inds[i].Some? && Ready(st, i)
    requires Top(st, i) <= hit
    ensures Scanned(st, i + 1, ci, cj, hit)
  {
    AllReadyStep(st, i);
    BoundStep(st, i, hit, hit);
  }

  /**
   * `(i, j)` is the pair `upgmaLoop` merges: `i` is the first live index whose
   * top similarity is the largest, that similarity exceeds -1, and `j` is the
   * first index of `i`'s TreeSet.
   */
  ghost predicate Picked(st: State, size: nat, i: nat, j: nat)
  {
    i < size && Ready(st, i) && Leading(st, size, i, j, Top(st, i)) &&
    |st.inds| == size && forall i' :: 0 <= i' < size && st.inds[i'].Some? ==> Ready(st, i')
  }

  // ---------------------------------------------------------------------------
  // Merging the closest pair
  // ---------------------------------------------------------------------------

  /** What a merge of `j` into `i` needs: a consistent state, positive weights, two distinct live indices. */
  predicate MergeReady(st: State, size: nat, i: nat, j: nat)
  {
    Consistent(st, size) && PositiveWeights(st) &&
    i < size && j < size && i != j && st.groups[i].Some? && st.groups[j].Some?
  }

  /**
   * `newSimToI` for index `k`: the similarities of the two merged rows to `k`,
   * averaged with the groups' weights.
   */
  function MergedSim(st: State, size: nat, i: nat, j: nat, k: nat): (r: real)
    requires MergeReady(st, size, i, j) && k < size
    ensures var wi := st.weights[i].value as real; var wj := st.weights[j].value as real;
            r * (wi + wj) == st.sims[i].value[k] * wi + st.sims[j].value[k] * wj
  {
    var wi := st.weights[i].value as real;
    var wj := st.weights[j].value as real;
    (st.sims[i].value[k] * wi + st.sims[j].value[k] * wj) / (wi + wj)
  }

  /**
   * Entry `[x][y]` of the similarity rows once the update loop has handled
   * the indices below `k`, when `j` is merged into `i`: a handled live row `x`
   * gets the averaged similarity to `i` and -1 towards `j`; row `i` gets the
   * averaged similarity to each handled live `y`, and -1 towards `j` once `i`
   * itself is handled.
   */
  function SimAt(st: State, size: nat, i: nat, j: nat, k: nat, x: nat, y: nat): real
    requires MergeReady(st, size, i, j) && x < size && y < size && st.sims[x].Some?
  {
    var old_ := st.sims[x].value[y];
    if x == j then old_
    else if x == i then
      if y < k && y != i && y != j && st.sims[y].Some? then MergedSim(st, size, i, j, y)
      else if y == j && i < k then -1.0
      else old_
    else if x < k then
      if y == i then MergedSim(st, size, i, j, x)
      else if y == j then -1.0
      else old_
    else old_
  }

  /** The TreeSet of `x` once the update loop has handled the indices below `k`. */
  function IndsAt(st: State, size: nat, i: nat, j: nat, k: nat, x: nat): set<nat>
    requires MergeReady(st, size, i, j) && x < size && st.inds[x].Some? && k <= size
  {
    var old_ := st.inds[x].value;
    if x == j then old_
    else if x == i then
      (old_ + (set y: nat | y < k && y != i && y != j && st.sims[y].Some?)) - (if i < k then {j} else {})
    else if x < k then ((old_ - {i}) + {i}) - {j}
    else old_
  }

  /** `sims` and `inds` are the rows once the update loop has handled the indices below `k`. */
  ghost predicate RowsAt(st: State, size: nat, i: nat, j: nat, k: nat,
                         sims: seq<Option<seq<real>>>, inds: seq<Option<set<nat>>>)
    requires MergeReady(st, size, i, j) && k <= size
  {
    |sims| == size && |inds| == size &&
    forall x :: 0 <= x < size ==>
      sims[x].Some? == st.sims[x].Some? && inds[x].Some? == st.inds[x].Some? &&
      (sims[x].Some? ==>
        |sims[x].value| == size && inds[x].value == IndsAt(st, size, i, j, k, x) &&
        forall y :: 0 <= y < size ==> sims[x].value[y] == SimAt(st, size, i, j, k, x, y))
  }

  /** One pass of the update loop, for index `k`. */
  method MergeRow(st: State, size: nat, i: nat, j: nat, k: nat,
                  sims: seq<Option<seq<real>>>, inds: seq<Option<set<nat>>>)
    returns (sims': seq<Option<seq<real>>>, inds': seq<Option<set<nat>>>)
    requires MergeReady(st, size, i, j) && k < size && RowsAt(st, size, i, j, k, sims, inds)
    ensures RowsAt(st, size, i, j, k + 1, sims', inds')
  {
    if k != j && sims[k].Some? {
      if k != i {
        // `newSimToI` goes into row `k` at column `i` and into row `i` at column `k`
        var m := MergedSim(st, size, i, j, k);
        sims' := sims[k := Some(sims[k].value[i := m][j := -1.0])][i := Some(sims[i].value[k := m])];
        inds' := inds[k := Some(((inds[k].value - {i}) + {i}) - {j})][i := Some((inds[i].value - {k}) + {k})];
        MergeOtherRow(st, size, i, j, k, sims, inds);
      } else {
        sims' := sims[k := Some(sims[k].value[j := -1.0])];
        inds' := inds[k := Some(inds[k].value - {j})];
        MergeOwnRow(st, size, i, j, k, sims, inds);
      }
    } else {
      sims', inds' := sims, inds;
      MergeSkipRow(st, size, i, j, k, sims, inds);
    }
  }

  /** Index `k`, live and neither `i` nor `j`: row `k` and row `i` at column `k` take the merged similarity. */
  lemma MergeOtherRow(st: State, size: nat, i: nat, j: nat, k: nat,
                      sims: seq<Option<seq<real>>>, inds: seq<Option<set<nat>>>)
    requires MergeReady(st, size, i, j) && k < size && RowsAt(st, size, i, j, k, sims, inds)
    requires k != j && k != i && sims[k].Some?
    ensures var m := MergedSim(st, size, i, j, k);
            RowsAt(st, size, i, j, k + 1,
                   sims[k := Some(sims[k].value[i := m][j := -1.0])][i := Some(sims[i].value[k := m])],
                   inds[k := Some(((inds[k].value - {i}) + {i}) - {j})][i := Some((inds[i].value - {k}) + {k})])
  {
    MergeRowTargets(st, size, i, j, k);
  }

  /** Index `k` is `i` itself: row `i` drops `j`. */
  lemma MergeOwnRow(st: State, size: nat, i: nat, j: nat, k: nat,
                    sims: seq<Option<seq<real>>>, inds: seq<Option<set<nat>>>)
    requires MergeReady(st, size, i, j) && k < size && RowsAt(st, size, i, j, k, sims, inds)
    requires k == i && sims[k].Some?
    ensures RowsAt(st, size, i, j, k + 1, sims[k := Some(sims[k].value[j := -1.0])], inds[k := Some(inds[k].value - {j})])
  {
    MergeRowTargets(st, size, i, j, k);
  }

  /** Index `k` is `j` or null: nothing changes. */
  lemma MergeSkipRow(st: State, size: nat, i: nat, j: nat, k: nat,
                     sims: seq<Option<seq<real>>>, inds: seq<Option<set<nat>>>)
    requires MergeReady(st, size, i, j) && k < size && RowsAt(st, size, i, j, k, sims, inds)
    requires k == j || sims[k].None?
    ensures RowsAt(st, size, i, j, k + 1, sims, inds)
  {
    MergeRowTargets(st, size, i, j, k);
  }

  /** How the targets move from `k` to `k + 1`: only row `k`, and row `i` at column `k` (or `j`), change. */
  lemma MergeRowTargets(st: State, size: nat, i: nat, j: nat, k: nat)
    requires MergeReady(st, size, i, j) && k < size
    ensures forall x, y :: 0 <= x < size && 0 <= y < size && st.sims[x].Some? && x != k && !(x == i && y == k) ==>
              SimAt(st, size, i, j, k + 1, x, y) == (if x == i && y == j && k == i then -1.0 else SimAt(st, size, i, j, k, x, y))
    ensures forall x :: 0 <= x < size && st.inds[x].Some? && x != k && x != i ==>
              IndsAt(st, size, i, j, k + 1, x) == IndsAt(st, size, i, j, k, x)
  {
  }

  /** The update loop of one merge: every live row except `j`'s is brought to its merged form. */
  method MergeRows(st: State, size: nat, i: nat, j: nat) returns (sims: seq<Option<seq<real>>>, inds: seq<Option<set<nat>>>)
    requires MergeReady(st, size, i, j)
    ensures RowsAt(st, size, i, j, size, sims, inds)
  {
    sims, inds := st.sims, st.inds;
    var k := 0;
    while k < size
      invariant k <= size && RowsAt(st, size, i, j, k, sims, inds)
    {
      sims, inds := MergeRow(st, size, i, j, k, sims, inds);
      k := k + 1;
    }
  }

  /** `st'` is the state after merging `j` into `i`. */
  ghost predicate Merged(st: State, size: nat, i: nat, j: nat, st': State)
    requires MergeReady(st, size, i, j)
  {
    st'.groups == st.groups[j := None][i := Some(st.groups[i].value + st.groups[j].value)] &&
    st'.weights == st.weights[i := Some(st.weights[i].value + st.weights[j].value)][j := None] &&
    |st'.sims| == size && |st'.inds| == size && st'.sims[j] == None && st'.inds[j] == None &&
    forall x :: 0 <= x < size && x != j ==>
      st'.sims[x].Some? == st.sims[x].Some? && st'.inds[x].Some? == st.inds[x].Some? &&
      (st'.sims[x].Some? ==>
        |st'.sims[x].value| == size && st'.inds[x].value == IndsAt(st, size, i, j, size, x) &&
        forall y :: 0 <= y < size ==> st'.sims[x].value[y] == SimAt(st, size, i, j, size, x, y))
  }

  /**
   * The body of `upgmaLoop` after the pair is chosen: group `i` becomes the
   * union `bs` of both groups and takes both weights, every entry of `j`
   * becomes null, and the rows are updated as the loop over `k` does.
   */
  method MergePair(st: State, size: nat, i: nat, j: nat) returns (st': State, bs: Cluster)
    requires MergeReady(st, size, i, j)
    ensures bs == st.groups[i].value + st.groups[j].value
    ensures Merged(st, size, i, j, st')
  {
    bs := st.groups[i].value + st.groups[j].value;
    var groups := st.groups[j := None][i := Some(bs)];
    var sims, inds := MergeRows(st, size, i, j);
    sims := sims[j := None];
    inds := inds[j := None];
    var weights := st.weights[i := Some(st.weights[i].value + st.weights[j].value)][j := None];
    st' := State(weights, groups, inds, sims);
  }

  // ---------------------------------------------------------------------------
  // What one merge preserves
  // ---------------------------------------------------------------------------

  /** After a merge the TreeSets again hold exactly the other live indices, and `j` is no longer live. */
  lemma MergedConsistent(st: State, size: nat, i: nat, j: nat, st': State)
    requires MergeReady(st, size, i, j) && Merged(st, size, i, j, st')
    ensures Live(st'.groups) == Live(st.groups) - {j}
    ensures |Live(st'.groups)| == |Live(st.groups)| - 1
    ensures Consistent(st', size)
  {
    var live := Live(st.groups);
    assert Live(st'.groups) == live - {j};
    forall x | 0 <= x < size && st'.inds[x].Some?
      ensures st'.inds[x].value == live - {j} - {x}
    {
      if x == i {
        var added := set y: nat | y < size && y != i && y != j && st.sims[y].Some?;
        assert added == live - {i} - {j};
      }
    }
  }

  /** A merge keeps the union of the live groups. */
  lemma MergedUnion(st: State, size: nat, i: nat, j: nat, st': State)
    requires MergeReady(st, size, i, j) && Merged(st, size, i, j, st')
    ensures LiveUnion(st'.groups) == LiveUnion(st.groups)
  {
    var g, g' := st.groups, st'.groups;
    forall x | x in LiveUnion(g) ensures x in LiveUnion(g') {
      var k :| 0 <= k < |g| && g[k].Some? && x in g[k].value;
      if k == i || k == j {
        assert x in g'[i].value;
      } else {
        assert x in g'[k].value;
      }
    }
    forall x | x in LiveUnion(g') ensures x in LiveUnion(g) {
      var k :| 0 <= k < |g'| && g'[k].Some? && x in g'[k].value;
      if k == i {
        assert x in g[i].value || x in g[j].value;
      } else {
        assert x in g[k].value;
      }
    }
  }

  /** A merge keeps the sum of the live weights, and they stay positive. */
  lemma MergedWeight(st: State, size: nat, i: nat, j: nat, st': State)
    requires MergeReady(st, size, i, j) && Merged(st, size, i, j, st')
    ensures LiveWeight(st'.weights) == LiveWeight(st.weights)
    ensures PositiveWeights(st')
  {
    WeightsMerged(st.weights, i, j);
  }

  /** Moving the weight of `j` onto `i` keeps the sum, and positive weights stay positive. */
  lemma WeightsMerged(w: seq<Option<int>>, i: nat, j: nat)
    requires i < |w| && j < |w| && i != j && w[i].Some? && w[j].Some?
    ensures var w' := w[i := Some(w[i].value + w[j].value)][j := None];
            LiveWeight(w') == LiveWeight(w) &&
            ((forall x :: 0 <= x < |w| && w[x].Some? ==> w[x].value > 0) ==>
               forall x :: 0 <= x < |w'| && w'[x].Some? ==> w'[x].value > 0)
  {
    var w1 := w[i := Some(w[i].value + w[j].value)];
    LiveWeightUpdate(w, i, Some(w[i].value + w[j].value));
    LiveWeightUpdate(w1, j, None);
  }

  /** A merge of disjoint groups leaves the live groups disjoint. */
  lemma MergedDisjoint(st: State, size: nat, i: nat, j: nat, st': State)
    requires MergeReady(st, size, i, j) && Merged(st, size, i, j, st')
    requires DisjointGroups(st.groups)
    ensures DisjointGroups(st'.groups)
  {
    var g, g' := st.groups, st'.groups;
    forall a, b | 0 <= a < |g'| && 0 <= b < |g'| && a != b && g'[a].Some? && g'[b].Some?
      ensures g'[a].value * g'[b].value == {}
    {
      if a == i {
        assert g[i].value * g[b].value == {} && g[j].value * g[b].value == {};
      } else if b == i {
        assert g[a].value * g[i].value == {} && g[a].value * g[j].value == {};
      }
    }
  }

  /** A merge keeps the live rows symmetric: both new entries get the same average. */
  lemma MergedSymmetric(st: State, size: nat, i: nat, j: nat, st': State)
    requires MergeReady(st, size, i, j) && Merged(st, size, i, j, st')
    requires LiveSymmetric(st, size)
    ensures Shaped(st', size) && LiveSymmetric(st', size)
  {
    MergedConsistent(st, size, i, j, st');
  }

  /** The weighted average of two similarities above -1 is above -1. */
  lemma AverageAbove(a: real, b: real, wa: real, wb: real)
    requires a > -1.0 && b > -1.0 && wa > 0.0 && wb > 0.0
    ensures (a * wa + b * wb) / (wa + wb) > -1.0
  {
    assert (a + 1.0) * wa > 0.0;
    assert (b + 1.0) * wb > 0.0;
    assert a * wa + b * wb > -(wa + wb);
  }

  /** The averaged similarity of two live rows to a third live index is above -1. */
  lemma MergedSimAbove(st: State, size: nat, i: nat, j: nat, k: nat)
    requires MergeReady(st, size, i, j) && AboveSentinel(st, size)
    requires k < size && k != i && k != j && st.sims[k].Some?
    ensures MergedSim(st, size, i, j, k) > -1.0
  {
    AverageAbove(st.sims[i].value[k], st.sims[j].value[k], st.weights[i].value as real, st.weights[j].value as real);
  }

  /** A merge keeps every similarity between live indices above -1. */
  lemma MergedAbove(st: State, size: nat, i: nat, j: nat, st': State)
    requires MergeReady(st, size, i, j) && Merged(st, size, i, j, st')
    requires AboveSentinel(st, size)
    ensures Shaped(st', size) && AboveSentinel(st', size)
  {
    MergedConsistent(st, size, i, j, st');
    forall k | 0 <= k < size && k != i && k != j && st.sims[k].Some?
      ensures MergedSim(st, size, i, j, k) > -1.0
    {
      MergedSimAbove(st, size, i, j, k);
    }
    forall x, y | 0 <= x < size && 0 <= y < size && x != y && st'.sims[x].Some? && st'.sims[y].Some?
      ensures st'.sims[x].value[y] > -1.0
    {
      assert st'.sims[x].value[y] == SimAt(st, size, i, j, size, x, y);
    }
  }

  // ---------------------------------------------------------------------------
  // The loop
  // ---------------------------------------------------------------------------

  /** The chosen pair is two distinct live indices, so it can be merged. */
  lemma PickedMergeReady(st: State, size: nat, i: nat, j: nat)
    requires Consistent(st, size) && PositiveWeights(st) && Picked(st, size, i, j)
    ensures MergeReady(st, size, i, j)
  {
    assert j in st.inds[i].value;
  }

  /**
   * With at least two live indices and every live similarity above -1, the
   * search cannot fail: no TreeSet is empty, and any live index has a top
   * similarity above -1.
   */
  lemma SearchSucceeds(st: State, size: nat)
    requires Consistent(st, size) && AboveSentinel(st, size) && |Live(st.groups)| >= 2
    ensures forall i :: 0 <= i < size ==> st.inds[i] != Some({})
    ensures exists i :: 0 <= i < size && Ready(st, i) && Top(st, i) > -1.0
  {
    var live := Live(st.groups);
    forall i | 0 <= i < size && st.inds[i].Some? ensures st.inds[i].value != {} {
      assert {i} <= live && {i} != live by {
        assert i in live && |{i}| == 1;
      }
      SomeLeft(live, {i});
      var other :| other in live - {i};
    }
    var i :| i in live;
    assert Ready(st, i);
  }

  /**
   * One round of `upgmaLoop`: choose the closest pair and merge it. When it
   * succeeds, `bs` is the union of the two chosen live groups and `next` is
   * the merged state; with two or more live groups whose similarities all
   * exceed -1 it always succeeds.
   */
  method UpgmaStep(cur: State, size: nat) returns (ok: bool, next: State, bs: Cluster)
    requires Consistent(cur, size) && PositiveWeights(cur)
    ensures ok ==> exists i: nat, j: nat :: Picked(cur, size, i, j) && MergeReady(cur, size, i, j) &&
                     bs == cur.groups[i].value + cur.groups[j].value && Merged(cur, size, i, j, next)
    ensures ok ==> StepKeeps(cur, size, next, bs)
    ensures |Live(cur.groups)| >= 2 && AboveSentinel(cur, size) ==> ok
  {
    if |Live(cur.groups)| >= 2 && AboveSentinel(cur, size) {
      SearchSucceeds(cur, size);
    }
    var p := FindClosest(cur, size);
    if !p.Pair? {
      return false, cur, {};
    }
    PickedMergeReady(cur, size, p.i, p.j);
    next, bs := MergePair(cur, size, p.i, p.j);
    ok := true;
    MergedKeeps(cur, size, p.i, p.j, next, bs);
  }

  /** Everything one merge preserves, together. */
  lemma MergedKeeps(cur: State, size: nat, i: nat, j: nat, next: State, bs: Cluster)
    requires MergeReady(cur, size, i, j) && Merged(cur, size, i, j, next)
    requires bs == cur.groups[i].value + cur.groups[j].value
    ensures StepKeeps(cur, size, next, bs)
  {
    MergedConsistent(cur, size, i, j, next);
    MergedUnion(cur, size, i, j, next);
    MergedWeight(cur, size, i, j, next);
    if DisjointGroups(cur.groups) {
      MergedDisjoint(cur, size, i, j, next);
    }
    if LiveSymmetric(cur, size) {
      MergedSymmetric(cur, size, i, j, next);
    }
    if AboveSentinel(cur, size) {
      MergedAbove(cur, size, i, j, next);
    }
    assert bs == next.groups[i].value;
  }

  /** What one merge keeps, from `cur` to `next`, emitting `bs`. */
  ghost predicate StepKeeps(cur: State, size: nat, next: State, bs: Cluster)
    requires Consistent(cur, size)
  {
    Consistent(next, size) && PositiveWeights(next) &&
    |Live(next.groups)| == |Live(cur.groups)| - 1 &&
    LiveUnion(next.groups) == LiveUnion(cur.groups) &&
    LiveWeight(next.weights) == LiveWeight(cur.weights) &&
    bs <= LiveUnion(cur.groups) &&
    (DisjointGroups(cur.groups) ==> DisjointGroups(next.groups)) &&
    (LiveSymmetric(cur, size) ==> LiveSymmetric(next, size)) &&
    (AboveSentinel(cur, size) ==> AboveSentinel(next, size))
  }

  /** What the loop keeps from the start `st` to the current state `fin`, having emitted `ret`. */
  ghost predicate LoopKeeps(st: State, size: nat, fin: State, ret: seq<Cluster>)
    requires Consistent(st, size)
  {
    Consistent(fin, size) && (PositiveWeights(st) ==> PositiveWeights(fin)) &&
    |Live(fin.groups)| == |Live(st.groups)| - |ret| &&
    LiveUnion(fin.groups) == LiveUnion(st.groups) &&
    LiveWeight(fin.weights) == LiveWeight(st.weights) &&
    (forall t :: 0 <= t < |ret| ==> ret[t] <= LiveUnion(st.groups)) &&
    (DisjointGroups(st.groups) ==> DisjointGroups(fin.groups)) &&
    (LiveSymmetric(st, size) ==> LiveSymmetric(fin, size)) &&
    (AboveSentinel(st, size) ==> AboveSentinel(fin, size))
  }

  /** One more merge extends what the loop keeps. */
  lemma LoopKeepsStep(st: State, size: nat, fin: State, ret: seq<Cluster>, next: State, bs: Cluster)
    requires Consistent(st, size) && LoopKeeps(st, size, fin, ret) && StepKeeps(fin, size, next, bs)
    ensures LoopKeeps(st, size, next, ret + [bs])
  {
  }

  /**
   * `upgmaLoop`: while more than two groups are left, merge the closest pair
   * and emit the merged group. On success it emits max(left - 2, 0) groups,
   * each within the union of the live groups it started from; that union and
   * the total live weight are unchanged, one index is retired per emitted
   * group, and disjointness and symmetry of the similarities carry over. If
   * `left` does not exceed the number of live groups and every similarity
   * between live groups exceeds -1, it cannot fail. Weights matter only when
   * a merge happens, so they must be positive only when `left` exceeds 2.
   */
  method UpgmaLoop(st: State, size: nat, left: int) returns (r: Option<seq<Cluster>>, fin: State)
    requires Consistent(st, size) && (left > 2 ==> PositiveWeights(st))
    ensures r.Some? ==> |r.value| == (if left > 2 then left - 2 else 0)
    ensures r.Some? ==> LoopKeeps(st, size, fin, r.value)
    ensures left <= |Live(st.groups)| && AboveSentinel(st, size) ==> r.Some?
  {
    var ret: seq<Cluster> := [];
    fin := st;
    var l := left;
    ghost var safe := left <= |Live(st.groups)| && AboveSentinel(st, size);
    while l > 2
      invariant Progress(st, size, left, safe, l, fin, ret)
      decreases l
    {
      ProgressReady(st, size, left, safe, l, fin, ret);
      var ok, next, bs := UpgmaStep(fin, size);
      if !ok {
        return None, fin;
      }
      ProgressStep(st, size, left, safe, l, fin, ret, next, bs);
      ret := ret + [bs];
      fin := next;
      l := l - 1;
    }
    r := Some(ret);
  }

  /**
   * The state of `upgmaLoop` with `l` groups still to go down to 2: `ret`
   * holds the groups emitted so far, and when the loop cannot fail (`safe`)
   * enough live groups with similarities above -1 are left.
   */
  ghost predicate Progress(st: State, size: nat, left: int, safe: bool, l: int, fin: State, ret: seq<Cluster>)
    requires Consistent(st, size)
  {
    l <= left && (left > 2 ==> l >= 2) && (left <= 2 ==> l == left) && |ret| == left - l &&
    (left > 2 ==> PositiveWeights(st)) && LoopKeeps(st, size, fin, ret) &&
    (safe ==> l <= |Live(fin.groups)| && AboveSentinel(fin, size))
  }

  /** Inside the loop the current state can be merged, and when the loop cannot fail both conditions of success hold. */
  lemma ProgressReady(st: State, size: nat, left: int, safe: bool, l: int, fin: State, ret: seq<Cluster>)
    requires Consistent(st, size) && Progress(st, size, left, safe, l, fin, ret) && l > 2
    ensures Consistent(fin, size) && PositiveWeights(fin)
    ensures safe ==> |Live(fin.groups)| >= 2 && AboveSentinel(fin, size)
  {
  }

  /** One merge takes the loop one group further. */
  lemma ProgressStep(st: State, size: nat, left: int, safe: bool, l: int, fin: State, ret: seq<Cluster>,
                     next: State, bs: Cluster)
    requires Consistent(st, size) && Progress(st, size, left, safe, l, fin, ret) && l > 2
    requires Consistent(fin, size) && StepKeeps(fin, size, next, bs)
    ensures Progress(st, size, left, safe, l - 1, next, ret + [bs])
  {
    LoopKeepsStep(st, size, fin, ret, next, bs);
  }

  // ---------------------------------------------------------------------------
  // Set-up: resolveByUPGMA
  // ---------------------------------------------------------------------------

  /** Every index of `xs` is below `n`. */
  predicate Below(xs: seq<nat>, n: nat)
  {
    forall t :: 0 <= t < |xs| ==> xs[t] < n
  }

  /** The sum of `m[x, y]` over the y of `ys`. */
  function RowSum(m: array2<real>, x: nat, ys: seq<nat>): real
    reads m
    requires x < m.Length0 && Below(ys, m.Length1)
  {
    if |ys| == 0 then 0.0 else RowSum(m, x, ys[..|ys| - 1]) + m[x, ys[|ys| - 1]]
  }

  /** The sum of `m[x, y]` over the x of `xs`. */
  function ColSum(m: array2<real>, xs: seq<nat>, y: nat): real
    reads m
    requires Below(xs, m.Length0) && y < m.Length1
  {
    if |xs| == 0 then 0.0 else ColSum(m, xs[..|xs| - 1], y) + m[xs[|xs| - 1], y]
  }

  /** The sum of `m[x, y]` over all pairs, x from `xs` and y from `ys`. */
  function PairSum(m: array2<real>, xs: seq<nat>, ys: seq<nat>): real
    reads m
    requires Below(xs, m.Length0) && Below(ys, m.Length1)
  {
    if |xs| == 0 then 0.0 else PairSum(m, xs[..|xs| - 1], ys) + RowSum(m, xs[|xs| - 1], ys)
  }

  /** Summing over no y gives 0 for every x. */
  lemma {:induction false} PairSumEmpty(m: array2<real>, xs: seq<nat>)
    requires Below(xs, m.Length0)
    ensures PairSum(m, xs, []) == 0.0
  {
    if |xs| > 0 {
      PairSumEmpty(m, xs[..|xs| - 1]);
    }
  }

  /** One more y adds that column's sum. */
  lemma {:induction false} PairSumAppend(m: array2<real>, xs: seq<nat>, ys: seq<nat>, y: nat)
    requires Below(xs, m.Length0) && Below(ys, m.Length1) && y < m.Length1
    ensures PairSum(m, xs, ys + [y]) == PairSum(m, xs, ys) + ColSum(m, xs, y)
  {
    if |xs| > 0 {
      var x := xs[|xs| - 1];
      PairSumAppend(m, xs[..|xs| - 1], ys, y);
      assert (ys + [y])[..|ys|] == ys;
      assert RowSum(m, x, ys + [y]) == RowSum(m, x, ys) + m[x, y];
    }
  }

  /** In a symmetric matrix a column sum is the matching row sum. */
  lemma {:induction false} ColSumSymmetric(m: array2<real>, xs: seq<nat>, y: nat)
    requires Symmetric(m) && Below(xs, m.Length0) && y < m.Length0
    ensures ColSum(m, xs, y) == RowSum(m, y, xs)
  {
    if |xs| > 0 {
      ColSumSymmetric(m, xs[..|xs| - 1], y);
    }
  }

  /** In a symmetric matrix the sum over pairs does not depend on which group comes first. */
  lemma {:induction false} PairSumSymmetric(m: array2<real>, xs: seq<nat>, ys: seq<nat>)
    requires Symmetric(m) && Below(xs, m.Length0) && Below(ys, m.Length0)
    ensures PairSum(m, xs, ys) == PairSum(m, ys, xs)
  {
    if |ys| == 0 {
      PairSumEmpty(m, xs);
    } else {
      var init := ys[..|ys| - 1];
      var y := ys[|ys| - 1];
      PairSumSymmetric(m, xs, init);
      PairSumAppend(m, xs, init, y);
      ColSumSymmetric(m, xs, y);
      assert init + [y] == ys;
    }
  }

  /** Every entry of the matrix exceeds -1. */
  predicate EntriesAbove(m: array2<real>)
    reads m
  {
    forall k, l :: 0 <= k < m.Length0 && 0 <= l < m.Length1 ==> m[k, l] > -1.0
  }

  /** With every entry above -1, a row sum over |ys| entries exceeds -|ys| (or is 0 over none). */
  lemma {:induction false} RowSumAbove(m: array2<real>, x: nat, ys: seq<nat>)
    requires EntriesAbove(m) && x < m.Length0 && Below(ys, m.Length1)
    ensures RowSum(m, x, ys) + |ys| as real >= 0.0
    ensures |ys| > 0 ==> RowSum(m, x, ys) + |ys| as real > 0.0
  {
    if |ys| > 0 {
      RowSumAbove(m, x, ys[..|ys| - 1]);
    }
  }

  /** With every entry above -1, a sum over |xs| * |ys| pairs exceeds -(|xs| * |ys|) when there is a pair. */
  lemma {:induction false} PairSumAbove(m: array2<real>, xs: seq<nat>, ys: seq<nat>)
    requires EntriesAbove(m) && Below(xs, m.Length0) && Below(ys, m.Length1)
    ensures PairSum(m, xs, ys) + (|xs| * |ys|) as real >= 0.0
    ensures |xs| > 0 && |ys| > 0 ==> PairSum(m, xs, ys) + (|xs| * |ys|) as real > 0.0
  {
    if |xs| > 0 {
      var init := xs[..|xs| - 1];
      PairSumAbove(m, init, ys);
      RowSumAbove(m, xs[|xs| - 1], ys);
      assert |xs| * |ys| == |init| * |ys| + |ys|;
    }
  }

  /** The ids of a bitset in `nextSetBit` order, for a bitset within the matrix. */
  lemma MembersBelow(s: Cluster, n: nat)
    requires s <= Range(n)
    ensures Below(Members(s, n), n) && |Members(s, n)| == |s|
  {
    MembersLength(s, n);
    assert s * Range(n) == s;
  }

  /**
   * `is[j]` for two groups: the average of the similarities over all pairs of
   * their members.
   */
  function CrossAvg(m: array2<real>, a: Cluster, b: Cluster): real
    reads m
    requires m.Length0 == m.Length1 && a <= Range(m.Length0) && b <= Range(m.Length0) && a != {} && b != {}
  {
    var n := m.Length0;
    MembersBelow(a, n);
    MembersBelow(b, n);
    assert |a| > 0 && |b| > 0;
    ProductPositive(|a|, |b|);
    PairSum(m, Members(a, n), Members(b, n)) / (|a| * |b|) as real
  }

  /** In a symmetric matrix the average does not depend on the order of the groups. */
  lemma CrossAvgSymmetric(m: array2<real>, a: Cluster, b: Cluster)
    requires Symmetric(m) && a <= Range(m.Length0) && b <= Range(m.Length0) && a != {} && b != {}
    ensures CrossAvg(m, a, b) == CrossAvg(m, b, a)
  {
    var n := m.Length0;
    MembersBelow(a, n);
    MembersBelow(b, n);
    PairSumSymmetric(m, Members(a, n), Members(b, n));
    assert |a| * |b| == |b| * |a|;
  }

  /** With every entry above -1, the average exceeds -1. */
  lemma CrossAvgAbove(m: array2<real>, a: Cluster, b: Cluster)
    requires m.Length0 == m.Length1 && EntriesAbove(m)
    requires a <= Range(m.Length0) && b <= Range(m.Length0) && a != {} && b != {}
    ensures CrossAvg(m, a, b) > -1.0
  {
    var n := m.Length0;
    MembersBelow(a, n);
    MembersBelow(b, n);
    PairSumAbove(m, Members(a, n), Members(b, n));
    ProductPositive(|a|, |b|);
    QuotientAbove(PairSum(m, Members(a, n), Members(b, n)), (|a| * |b|) as real);
  }

  lemma ProductPositive(x: nat, y: nat)
    requires x > 0 && y > 0
    ensures x * y > 0
  {
  }

  lemma ProductZero(x: nat, y: nat)
    requires x * y == 0
    ensures x == 0 || y == 0
  {
    if x > 0 && y > 0 {
      ProductPositive(x, y);
    }
  }

  lemma ProductStep(t: nat, y: nat)
    ensures (t + 1) * y == t * y + y
  {
  }

  /** A sum above -c over c > 0 terms averages above -1. */
  lemma QuotientAbove(s: real, c: real)
    requires c > 0.0 && s + c > 0.0
    ensures s / c > -1.0
  {
    var q := s / c;
    assert q * c == s;
    assert (q + 1.0) * c == s + c;
  }

  /** There are no pairs exactly when a group is empty. */
  lemma PairCount(a: Cluster, b: Cluster, c: nat)
    requires c == |a| * |b|
    ensures c == 0 <==> a == {} || b == {}
  {
    if c == 0 {
      ProductZero(|a|, |b|);
    }
  }

  /** The inner bit loop: add `m[x, l]` for every id l of `ys`, counting them. */
  method AddRow(m: array2<real>, x: nat, ys: seq<nat>, sum0: real, c0: nat) returns (sum: real, c: nat)
    requires x < m.Length0 && Below(ys, m.Length1)
    ensures sum == sum0 + RowSum(m, x, ys) && c == c0 + |ys|
  {
    sum, c := sum0, c0;
    var u := 0;
    while u < |ys|
      invariant u <= |ys| && sum == sum0 + RowSum(m, x, ys[..u]) && c == c0 + u
    {
      assert ys[..u + 1][..u] == ys[..u];
      sum := sum + m[x, ys[u]];
      c := c + 1;
      u := u + 1;
    }
    assert ys[..u] == ys;
  }

  /** The two nested bit loops: the sum over all pairs and their number. */
  method SumPairs(m: array2<real>, xs: seq<nat>, ys: seq<nat>) returns (sum: real, c: nat)
    requires Below(xs, m.Length0) && Below(ys, m.Length1)
    ensures sum == PairSum(m, xs, ys) && c == |xs| * |ys|
  {
    sum, c := 0.0, 0;
    var t := 0;
    while t < |xs|
      invariant t <= |xs| && sum == PairSum(m, xs[..t], ys) && c == t * |ys|
    {
      assert xs[..t + 1][..t] == xs[..t];
      sum, c := AddRow(m, xs[t], ys, sum, c);
      ProductStep(t, |ys|);
      t := t + 1;
    }
    assert xs[..t] == xs;
  }

  /**
   * The two nested bit loops for `is[j]`: sum the similarities over all pairs
   * of members and divide by their number. No pair at all (an empty group) is
   * the RuntimeException, None here.
   */
  method CrossAverage(m: array2<real>, a: Cluster, b: Cluster) returns (r: Option<real>)
    requires m.Length0 == m.Length1 && a <= Range(m.Length0) && b <= Range(m.Length0)
    ensures r.None? <==> a == {} || b == {}
    ensures r.Some? ==> r.value == CrossAvg(m, a, b)
  {
    var n := m.Length0;
    MembersBelow(a, n);
    MembersBelow(b, n);
    var sum, c := SumPairs(m, Members(a, n), Members(b, n));
    PairCount(a, b, c);
    if c == 0 {
      return None;
    }
    r := Some(sum / c as real);
  }

  /** Every bitset of the list lies within the matrix. */
  predicate WithinMatrix(m: array2<real>, bs: seq<Cluster>)
  {
    m.Length0 == m.Length1 && forall k :: 0 <= k < |bs| ==> bs[k] <= Range(m.Length0)
  }

  /** `row` is row `i` of the starting similarities: 1 on the diagonal, the cross averages elsewhere. */
  ghost predicate StartRow(m: array2<real>, bs: seq<Cluster>, i: nat, row: seq<real>)
    reads m
    requires WithinMatrix(m, bs)
  {
    i < |bs| && |row| == |bs| && row[i] == 1.0 &&
    forall j :: 0 <= j < |bs| && j != i ==> bs[i] != {} && bs[j] != {} && row[j] == CrossAvg(m, bs[i], bs[j])
  }

  /**
   * One row of the set-up loop of `resolveByUPGMA`: `is[i]` is 1 and every
   * other `is[j]` the average similarity of groups i and j. It fails (the
   * RuntimeException) exactly when some j != i makes an empty pair of groups.
   */
  method StartSims(m: array2<real>, bs: seq<Cluster>, i: nat) returns (ok: bool, row: seq<real>)
    requires WithinMatrix(m, bs) && i < |bs|
    ensures ok <==> PairsNonempty(bs, i)
    ensures ok ==> StartRow(m, bs, i, row)
  {
    row := seq(|bs|, _ => 0.0);
    var j := 0;
    while j < |bs|
      invariant RowPrefix(m, bs, i, row, j)
    {
      if i == j {
        RowPrefixStep(m, bs, i, row, j, 1.0);
        row := row[j := 1.0];
      } else {
        var a := CrossAverage(m, bs[i], bs[j]);
        if a.None? {
          assert !(bs[i] != {} && bs[j] != {});
          return false, row;
        }
        RowPrefixStep(m, bs, i, row, j, a.value);
        row := row[j := a.value];
      }
      j := j + 1;
    }
    RowPrefixDone(m, bs, i, row);
    ok := true;
  }

  /** The first j entries of row i are set as `resolveByUPGMA` sets them. */
  ghost predicate RowPrefix(m: array2<real>, bs: seq<Cluster>, i: nat, row: seq<real>, j: nat)
    reads m
    requires WithinMatrix(m, bs)
  {
    i < |bs| && j <= |bs| && |row| == |bs| && (i < j ==> row[i] == 1.0) &&
    forall j' :: 0 <= j' < j && j' != i ==> RowEntry(m, bs, i, row, j')
  }

  /** Entry j of row i is the cross average of two nonempty groups. */
  ghost predicate RowEntry(m: array2<real>, bs: seq<Cluster>, i: nat, row: seq<real>, j: nat)
    reads m
    requires WithinMatrix(m, bs) && i < |bs| && j < |bs| && |row| == |bs|
  {
    bs[i] != {} && bs[j] != {} && row[j] == CrossAvg(m, bs[i], bs[j])
  }

  lemma RowPrefixStep(m: array2<real>, bs: seq<Cluster>, i: nat, row: seq<real>, j: nat, v: real)
    requires WithinMatrix(m, bs) && RowPrefix(m, bs, i, row, j) && j < |bs|
    requires j == i ==> v == 1.0
    requires j != i ==> bs[i] != {} && bs[j] != {} && v == CrossAvg(m, bs[i], bs[j])
    ensures RowPrefix(m, bs, i, row[j := v], j + 1)
  {
    var row' := row[j := v];
    forall j' | 0 <= j' < j + 1 && j' != i ensures RowEntry(m, bs, i, row', j') {
      if j' < j {
        assert RowEntry(m, bs, i, row, j');
      }
    }
  }

  lemma RowPrefixDone(m: array2<real>, bs: seq<Cluster>, i: nat, row: seq<real>)
    requires WithinMatrix(m, bs) && RowPrefix(m, bs, i, row, |bs|)
    ensures PairsNonempty(bs, i) && StartRow(m, bs, i, row)
  {
    forall j | 0 <= j < |bs| && j != i
      ensures bs[i] != {} && bs[j] != {} && row[j] == CrossAvg(m, bs[i], bs[j])
    {
      assert RowEntry(m, bs, i, row, j);
    }
    if |bs| >= 2 {
      var other := if i == 0 then 1 else 0;
      assert RowEntry(m, bs, i, row, other);
    }
  }

  /**
   * `st` is the state `resolveByUPGMA` hands to `upgmaLoop`: group i is the
   * i-th bitset (or the singleton {i} when `original` is false), its weight the
   * i-th bitset's cardinality, its TreeSet every other index, its row the
   * starting similarities.
   */
  ghost predicate Initial(m: array2<real>, bs: seq<Cluster>, original: bool, st: State)
    reads m
    requires WithinMatrix(m, bs)
  {
    InitialLists(bs, original, st) && RowsUpTo(m, bs, st, |bs|)
  }

  /** The groups, weights and TreeSets of the starting state, and a row for every index. */
  ghost predicate InitialLists(bs: seq<Cluster>, original: bool, st: State)
  {
    ListsUpTo(bs, original, st, |bs|)
  }

  /** The first `n` entries of the four starting lists are in place. */
  ghost predicate ListsUpTo(bs: seq<Cluster>, original: bool, st: State, n: nat)
  {
    var size := |bs|;
    n <= size && |st.weights| == n && |st.groups| == n && |st.inds| == n && |st.sims| == n &&
    forall i :: 0 <= i < n ==>
      st.groups[i] == Some(if original then bs[i] else {i}) && st.weights[i] == Some(|bs[i]|) &&
      st.inds[i] == Some(Range(size) - {i}) && st.sims[i].Some? && |st.sims[i].value| == size
  }

  /** The first `n` similarity rows of the starting state are in place. */
  ghost predicate RowsUpTo(m: array2<real>, bs: seq<Cluster>, st: State, n: nat)
    reads m
    requires WithinMatrix(m, bs)
  {
    forall i :: 0 <= i < n ==> i < |st.sims| && st.sims[i].Some? && StartRow(m, bs, i, st.sims[i].value)
  }

  /** The starting state extended by entry `n`. */
  function StartEntry(st: State, bs: seq<Cluster>, original: bool, n: nat, row: seq<real>): (r: State)
    requires n < |bs|
    ensures r.groups == st.groups + [Some(if original then bs[n] else {n})]
    ensures r.sims == st.sims + [Some(row)]
  {
    State(st.weights + [Some(|bs[n]|)], st.groups + [Some(if original then bs[n] else {n})],
          st.inds + [Some(Range(|bs|) - {n})], st.sims + [Some(row)])
  }

  /** Appending entry `n` extends both prefixes by one. */
  lemma StartExtend(m: array2<real>, bs: seq<Cluster>, original: bool, st: State, n: nat, row: seq<real>)
    requires WithinMatrix(m, bs) && n < |bs|
    requires ListsUpTo(bs, original, st, n) && RowsUpTo(m, bs, st, n) && StartRow(m, bs, n, row)
    ensures ListsUpTo(bs, original, StartEntry(st, bs, original, n, row), n + 1)
    ensures RowsUpTo(m, bs, StartEntry(st, bs, original, n, row), n + 1)
  {
    var st' := StartEntry(st, bs, original, n, row);
    forall i | 0 <= i < n + 1
      ensures i < |st'.sims| && st'.sims[i].Some? && StartRow(m, bs, i, st'.sims[i].value)
    {
      if i < n {
        assert st'.sims[i] == st.sims[i];
      }
    }
  }

  /**
   * The set-up loop of `resolveByUPGMA`. It fails exactly when two distinct
   * groups make an empty pair, that is when there are at least two groups and
   * one of them is empty.
   */
  method InitialState(m: array2<real>, bs: seq<Cluster>, original: bool) returns (ok: bool, st: State)
    requires WithinMatrix(m, bs)
    ensures ok <==> |bs| < 2 || forall i :: 0 <= i < |bs| ==> bs[i] != {}
    ensures ok ==> Initial(m, bs, original, st)
  {
    var size := |bs|;
    st := State([], [], [], []);
    var i := 0;
    while i < size
      invariant i <= size && ListsUpTo(bs, original, st, i) && RowsUpTo(m, bs, st, i)
      invariant forall k :: 0 <= k < i ==> bs[k] != {} || size < 2
    {
      var rowOk, row := StartSims(m, bs, i);
      if !rowOk {
        ok, st := false, State([], [], [], []);
        EmptyGroupFound(bs, i);
        return;
      }
      ghost var other := if i == 0 then 1 else 0;
      if size >= 2 {
        assert other < size && other != i && bs[other] != {};
      }
      StartExtend(m, bs, original, st, i, row);
      st := StartEntry(st, bs, original, i, row);
      i := i + 1;
    }
    ok := true;
  }

  /** Group `i` and every other group are nonempty, so every pair of row `i` has members. */
  predicate PairsNonempty(bs: seq<Cluster>, i: nat)
  {
    i < |bs| && forall j :: 0 <= j < |bs| && j != i ==> bs[i] != {} && bs[j] != {}
  }

  /** A failing row means two groups, one of them empty. */
  lemma EmptyGroupFound(bs: seq<Cluster>, i: nat)
    requires i < |bs| && !PairsNonempty(bs, i)
    ensures !(|bs| < 2 || forall k :: 0 <= k < |bs| ==> bs[k] != {})
  {
    var j :| 0 <= j < |bs| && j != i && (bs[i] == {} || bs[j] == {});
  }

  /** The starting lists have the shape `upgmaLoop` expects. */
  lemma InitialShaped(bs: seq<Cluster>, original: bool, st: State)
    requires InitialLists(bs, original, st)
    ensures Shaped(st, |bs|)
  {
  }

  /** In the starting state every index is live and its TreeSet holds every other index. */
  lemma InitialConsistent(bs: seq<Cluster>, original: bool, st: State)
    requires InitialLists(bs, original, st)
    ensures Consistent(st, |bs|) && Live(st.groups) == Range(|bs|) && |Live(st.groups)| == |bs|
  {
    InitialShaped(bs, original, st);
    assert Live(st.groups) == Range(|bs|);
  }

  /** The starting live groups cover the input bitsets, or {0, ..., size-1} for singletons. */
  lemma InitialUnion(bs: seq<Cluster>, original: bool, st: State)
    requires InitialLists(bs, original, st)
    ensures LiveUnion(st.groups) == if original then UnionAll(bs) else Range(|bs|)
  {
    var size := |bs|;
    if original {
      forall x | x in UnionAll(bs) ensures x in LiveUnion(st.groups) {
        var i :| 0 <= i < size && x in bs[i];
        assert x in st.groups[i].value;
      }
      forall x | x in LiveUnion(st.groups) ensures x in UnionAll(bs) {
        var i :| 0 <= i < size && st.groups[i].Some? && x in st.groups[i].value;
        assert x in bs[i];
      }
    } else {
      forall x | x in LiveUnion(st.groups) ensures x in Range(size) {
        var i :| 0 <= i < size && st.groups[i].Some? && x in st.groups[i].value;
      }
      forall x: nat | x < size ensures x in LiveUnion(st.groups) {
        assert x in st.groups[x].value;
      }
    }
  }

  /** Singleton starting groups are disjoint. */
  lemma InitialDisjoint(bs: seq<Cluster>, st: State)
    requires InitialLists(bs, false, st)
    ensures DisjointGroups(st.groups)
  {
  }

  /** With at least two nonempty groups every weight is positive. */
  lemma InitialWeights(bs: seq<Cluster>, original: bool, st: State)
    requires InitialLists(bs, original, st)
    requires forall i :: 0 <= i < |bs| ==> bs[i] != {}
    ensures PositiveWeights(st)
  {
  }

  /** A symmetric matrix gives symmetric starting similarities. */
  lemma InitialSymmetric(m: array2<real>, bs: seq<Cluster>, original: bool, st: State)
    requires WithinMatrix(m, bs) && Initial(m, bs, original, st) && Symmetric(m)
    ensures Shaped(st, |bs|) && LiveSymmetric(st, |bs|)
  {
    InitialShaped(bs, original, st);
    forall i, k | 0 <= i < |bs| && 0 <= k < |bs| && i != k
      ensures st.sims[i].value[k] == st.sims[k].value[i]
    {
      assert StartRow(m, bs, i, st.sims[i].value) && StartRow(m, bs, k, st.sims[k].value);
      CrossAvgSymmetric(m, bs[i], bs[k]);
    }
  }

  /** A matrix with every entry above -1 gives starting similarities above -1. */
  lemma InitialAbove(m: array2<real>, bs: seq<Cluster>, original: bool, st: State)
    requires WithinMatrix(m, bs) && Initial(m, bs, original, st) && EntriesAbove(m)
    ensures Shaped(st, |bs|) && AboveSentinel(st, |bs|)
  {
    InitialShaped(bs, original, st);
    forall i, k | 0 <= i < |bs| && 0 <= k < |bs| && i != k
      ensures st.sims[i].value[k] > -1.0
    {
      assert StartRow(m, bs, i, st.sims[i].value);
      CrossAvgAbove(m, bs[i], bs[k]);
    }
  }

  /**
   * `resolveByUPGMA(bsList, original)`: groups the bitsets by UPGMA and returns
   * the merged groups. It fails when there are two or more bitsets and one is
   * empty. On success it returns max(size - 2, 0) groups, each within the union
   * of the bitsets (of {0, ..., size-1} when `original` is false). With no
   * empty bitset and every similarity above -1 it always succeeds.
   */
  method ResolveByUpgma(m: array2<real>, bs: seq<Cluster>, original: bool) returns (r: Option<seq<Cluster>>)
    requires WithinMatrix(m, bs)
    ensures |bs| >= 2 && (exists i :: 0 <= i < |bs| && bs[i] == {}) ==> r.None?
    ensures r.Some? ==> |r.value| == (if |bs| > 2 then |bs| - 2 else 0)
    ensures r.Some? ==> forall t :: 0 <= t < |r.value| ==> r.value[t] <= if original then UnionAll(bs) else Range(|bs|)
    ensures (forall i :: 0 <= i < |bs| ==> bs[i] != {}) && EntriesAbove(m) ==> r.Some?
  {
    var ok, st := InitialState(m, bs, original);
    if !ok {
      return None;
    }
    InitialReady(m, bs, original, st);
    var fin;
    r, fin := UpgmaLoop(st, |bs|, |bs|);
    if r.Some? {
      LoopEmitsWithin(st, |bs|, fin, r.value);
    }
  }

  /** The initial state is one `upgmaLoop` accepts, over the groups of `bs`. */
  lemma InitialReady(m: array2<real>, bs: seq<Cluster>, original: bool, st: State)
    requires WithinMatrix(m, bs) && Initial(m, bs, original, st)
    requires |bs| < 2 || forall i :: 0 <= i < |bs| ==> bs[i] != {}
    ensures Consistent(st, |bs|) && |Live(st.groups)| == |bs|
    ensures LiveUnion(st.groups) == if original then UnionAll(bs) else Range(|bs|)
    ensures |bs| > 2 ==> PositiveWeights(st)
    ensures EntriesAbove(m) ==> AboveSentinel(st, |bs|)
  {
    InitialConsistent(bs, original, st);
    InitialUnion(bs, original, st);
    if |bs| > 2 {
      InitialWeights(bs, original, st);
    }
    if EntriesAbove(m) {
      InitialAbove(m, bs, original, st);
    }
  }

  /** Every group the loop emits lies within the union of the live groups it started from. */
  lemma LoopEmitsWithin(st: State, size: nat, fin: State, ret: seq<Cluster>)
    requires Consistent(st, size) && LoopKeeps(st, size, fin, ret)
    ensures forall t :: 0 <= t < |ret| ==> ret[t] <= LiveUnion(st.groups)
  {
  }
}
