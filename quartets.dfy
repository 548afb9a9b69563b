/**
 * Quartet bookkeeping of `WQInference`: the maximum possible quartet score
 * computed by walking the integer encoding of the gene trees, the per-species
 * count of quartets that can never be resolved, the scoring walk of a species
 * tree, the `skipNode` rule of branch annotation, the quartet counts of a
 * branch and the total cost. All arithmetic is Java `long` arithmetic, taken
 * here as unbounded integers.
 */
module QuartetInference {
  import opened Clusters
  import Similarity

  /** `Integer.MIN_VALUE`, the separator between two encoded gene trees. */
  const MinInt: int := -0x8000_0000

  // ---------------------------------------------------------------------------
  // Triples of a list, in the order of the three nested loops
  // ---------------------------------------------------------------------------

  /** `w(xs[i], xs[j], xs[k'])` summed over k <= k' < |xs|: the innermost loop. */
  function KSum<T>(xs: seq<T>, i: nat, j: nat, k: nat, w: (T, T, T) -> int): int
    requires i < |xs| && j < |xs|
    decreases |xs| - k
  {
    if k >= |xs| then 0 else w(xs[i], xs[j], xs[k]) + KSum(xs, i, j, k + 1, w)
  }

  /** The middle loop: every j' >= j with its inner loop from j' + 1. */
  function JSum<T>(xs: seq<T>, i: nat, j: nat, w: (T, T, T) -> int): int
    requires i < |xs|
    decreases |xs| - j
  {
    if j >= |xs| then 0 else KSum(xs, i, j, j + 1, w) + JSum(xs, i, j + 1, w)
  }

  /** The outer loop: every i' >= i with its middle loop from i' + 1. */
  function ISum<T>(xs: seq<T>, i: nat, w: (T, T, T) -> int): int
    decreases |xs| - i
  {
    if i >= |xs| then 0 else JSum(xs, i, i + 1, w) + ISum(xs, i + 1, w)
  }

  /** `w` summed over every triple i < j < k of positions of `xs`. */
  function Triples<T>(xs: seq<T>, w: (T, T, T) -> int): int
  {
    ISum(xs, 0, w)
  }

  /** The innermost loop of a triple enumeration. */
  method AddThirds<T>(xs: seq<T>, i: nat, j: nat, w: (T, T, T) -> int, sum0: int) returns (sum: int)
    requires i < j < |xs|
    ensures sum == sum0 + KSum(xs, i, j, j + 1, w)
  {
    sum := sum0;
    var k := j + 1;
    while k < |xs|
      invariant j + 1 <= k <= |xs|
      invariant sum + KSum(xs, i, j, k, w) == sum0 + KSum(xs, i, j, j + 1, w)
    {
      sum := sum + w(xs[i], xs[j], xs[k]);
      k := k + 1;
    }
  }

  /**
   * The triple loop shared by `calculateMaxPossible` and
   * `scoreSpeciesTreeWithGTLabels`: for i < j < k add `w(xs[i], xs[j], xs[k])`.
   */
  method TripleLoop<T>(xs: seq<T>, w: (T, T, T) -> int) returns (sum: int)
    ensures sum == Triples(xs, w)
  {
    sum := 0;
    var i := 0;
    while i < |xs|
      invariant i <= |xs|
      invariant sum + ISum(xs, i, w) == Triples(xs, w)
    {
      var sumI := sum;
      var j := i + 1;
      while j < |xs|
        invariant i + 1 <= j <= |xs|
        invariant sum + JSum(xs, i, j, w) == sumI + JSum(xs, i, i + 1, w)
      {
        sum := AddThirds(xs, i, j, w, sum);
        j := j + 1;
      }
      i := i + 1;
    }
  }

  /** Fewer than three parts have no triple; three parts have exactly one. */
  lemma TriplesSmall<T>(xs: seq<T>, w: (T, T, T) -> int)
    ensures |xs| < 3 ==> Triples(xs, w) == 0
    ensures |xs| == 3 ==> Triples(xs, w) == w(xs[0], xs[1], xs[2])
  {
    if |xs| == 3 {
      assert KSum(xs, 0, 1, 2, w) == w(xs[0], xs[1], xs[2]) + KSum(xs, 0, 1, 3, w);
      assert JSum(xs, 0, 1, w) == KSum(xs, 0, 1, 2, w) + JSum(xs, 0, 2, w);
      assert JSum(xs, 0, 2, w) == KSum(xs, 0, 2, 3, w) + JSum(xs, 0, 3, w);
      assert JSum(xs, 1, 2, w) == KSum(xs, 1, 2, 3, w) + JSum(xs, 1, 3, w);
      assert ISum(xs, 1, w) == JSum(xs, 1, 2, w) + ISum(xs, 2, w);
      assert ISum(xs, 2, w) == JSum(xs, 2, 3, w) + ISum(xs, 3, w);
    } else if |xs| == 2 {
      assert JSum(xs, 0, 1, w) == KSum(xs, 0, 1, 2, w) + JSum(xs, 0, 2, w);
      assert ISum(xs, 1, w) == JSum(xs, 1, 2, w) + ISum(xs, 2, w);
    } else if |xs| == 1 {
      assert ISum(xs, 0, w) == JSum(xs, 0, 1, w) + ISum(xs, 1, w);
    }
  }

  /** The loops visit exactly C(|xs|, 3) triples. */
  lemma TriplesCount<T>(xs: seq<T>)
    ensures Triples(xs, (a: T, b: T, c: T) => 1) == Choose(|xs|, 3)
  {
    var one := (a: T, b: T, c: T) => 1;
    ISumCount(xs, 0, one);
  }

  lemma {:induction false} KSumCount<T>(xs: seq<T>, i: nat, j: nat, k: nat, one: (T, T, T) -> int)
    requires i < |xs| && j < |xs| && forall a, b, c :: one(a, b, c) == 1
    ensures KSum(xs, i, j, k, one) == if k >= |xs| then 0 else |xs| - k
    decreases |xs| - k
  {
    if k < |xs| {
      KSumCount(xs, i, j, k + 1, one);
    }
  }

  lemma {:induction false} JSumCount<T>(xs: seq<T>, i: nat, j: nat, one: (T, T, T) -> int)
    requires i < |xs| && forall a, b, c :: one(a, b, c) == 1
    ensures JSum(xs, i, j, one) == if j >= |xs| then 0 else Choose(|xs| - j, 2)
    decreases |xs| - j
  {
    if j < |xs| {
      JSumCount(xs, i, j + 1, one);
      KSumCount(xs, i, j, j + 1, one);
      Similarity.ChooseOne(|xs| - j - 1);
      assert Choose(|xs| - j, 2) == Choose(|xs| - j - 1, 1) + Choose(|xs| - j - 1, 2);
    }
  }

  lemma {:induction false} ISumCount<T>(xs: seq<T>, i: nat, one: (T, T, T) -> int)
    requires forall a, b, c :: one(a, b, c) == 1
    ensures ISum(xs, i, one) == if i >= |xs| then 0 else Choose(|xs| - i, 3)
    decreases |xs| - i
  {
    if i < |xs| {
      ISumCount(xs, i + 1, one);
      JSumCount(xs, i, i + 1, one);
      assert Choose(|xs| - i, 3) == Choose(|xs| - i - 1, 2) + Choose(|xs| - i - 1, 3);
    }
  }

  /** A weight that is never negative on the list gives a sum that is never negative. */
  lemma TriplesNonnegative<T>(xs: seq<T>, w: (T, T, T) -> int)
    requires forall i, j, k :: 0 <= i < |xs| && 0 <= j < |xs| && 0 <= k < |xs| ==> w(xs[i], xs[j], xs[k]) >= 0
    ensures Triples(xs, w) >= 0
  {
    ISumNonnegative(xs, 0, w);
  }

  lemma {:induction false} KSumNonnegative<T>(xs: seq<T>, i: nat, j: nat, k: nat, w: (T, T, T) -> int)
    requires i < |xs| && j < |xs|
    requires forall i, j, k :: 0 <= i < |xs| && 0 <= j < |xs| && 0 <= k < |xs| ==> w(xs[i], xs[j], xs[k]) >= 0
    ensures KSum(xs, i, j, k, w) >= 0
    decreases |xs| - k
  {
    if k < |xs| {
      KSumNonnegative(xs, i, j, k + 1, w);
    }
  }

  lemma {:induction false} JSumNonnegative<T>(xs: seq<T>, i: nat, j: nat, w: (T, T, T) -> int)
    requires i < |xs|
    requires forall i, j, k :: 0 <= i < |xs| && 0 <= j < |xs| && 0 <= k < |xs| ==> w(xs[i], xs[j], xs[k]) >= 0
    ensures JSum(xs, i, j, w) >= 0
    decreases |xs| - j
  {
    if j < |xs| {
      KSumNonnegative(xs, i, j, j + 1, w);
      JSumNonnegative(xs, i, j + 1, w);
    }
  }

  lemma {:induction false} ISumNonnegative<T>(xs: seq<T>, i: nat, w: (T, T, T) -> int)
    requires forall i, j, k :: 0 <= i < |xs| && 0 <= j < |xs| && 0 <= k < |xs| ==> w(xs[i], xs[j], xs[k]) >= 0
    ensures ISum(xs, i, w) >= 0
    decreases |xs| - i
  {
    if i < |xs| {
      JSumNonnegative(xs, i, i + 1, w);
      ISumNonnegative(xs, i + 1, w);
    }
  }

  // ---------------------------------------------------------------------------
  // calculateMaxPossible: the walk over the integer encoding of the gene trees
  // ---------------------------------------------------------------------------

  /** The weight one triple of side sizes a, b, c adds at an internal node. */
  function NodeWeight(a: int, b: int, c: int): int
  {
    (a + b + c - 3) * a * b * c
  }

  /** Sides that are never negative give a weight that is never negative. */
  lemma NodeWeightNonnegative(a: int, b: int, c: int)
    requires a >= 0 && b >= 0 && c >= 0
    ensures NodeWeight(a, b, c) >= 0
  {
    if a == 0 || b == 0 || c == 0 {
      assert a * b * c == 0;
    } else {
      var abc := a * b * c;
      assert abc >= 0 by {
        Similarity.NonnegProduct(a, b);
        Similarity.NonnegProduct(a * b, c);
      }
      Similarity.NonnegProduct(a + b + c - 3, abc);
      assert NodeWeight(a, b, c) == (a + b + c - 3) * abc;
    }
  }

  /** The sum of a list of integers. */
  function Sum(xs: seq<int>): int
  {
    if |xs| == 0 then 0 else xs[0] + Sum(xs[1..])
  }

  lemma {:induction false} SumAppend(a: seq<int>, b: seq<int>)
    ensures Sum(a + b) == Sum(a) + Sum(b)
  {
    if |a| > 0 {
      assert (a + b)[0] == a[0] && (a + b)[1..] == a[1..] + b;
      SumAppend(a[1..], b);
    } else {
      assert a + b == b;
    }
  }

  /**
   * State of the walk: the accumulated weight, the Deque of subtree sizes
   * (top first), whether the next code starts a new tree, how many tree
   * clusters have been taken and the size of the current one (`allsides`).
   */
  datatype Walk = Walk(weight: int, stack: seq<int>, newTree: bool, tree: nat, allsides: int)

  /** The iterator over the tree clusters ran out, or a pop found the Deque empty. */
  datatype WalkError = TreesExhausted | StackEmpty

  datatype Walked = Stopped(error: WalkError) | Running(walk: Walk)

  /** The state before the first code. */
  const Start: Walk := Walk(0, [], true, 0, 0)

  /** The list of sides at an internal node: the popped sizes and a nonzero remainder. */
  function Sides(popped: seq<int>, allsides: int): (r: seq<int>)
    ensures |r| == |popped| + (if allsides == Sum(popped) then 0 else 1)
  {
    var rest := allsides - Sum(popped);
    popped + (if rest != 0 then [rest] else [])
  }

  /** One code of the walk, as the body of the loop in `calculateMaxPossible`. */
  function Step(w: Walk, code: int, sides: seq<int>): Walked
  {
    if w.newTree && w.tree >= |sides| then Stopped(TreesExhausted)
    else
      var w := if w.newTree then w.(newTree := false, tree := w.tree + 1, allsides := sides[w.tree]) else w;
      if code >= 0 then Running(w.(stack := [1] + w.stack))
      else if code == MinInt then Running(w.(stack := [], newTree := true))
      else if |w.stack| < -code then Stopped(StackEmpty)
      else
        var popped := w.stack[..-code];
        Running(w.(weight := w.weight + Triples(Sides(popped, w.allsides), NodeWeight),
                   stack := [Sum(popped)] + w.stack[-code..]))
  }

  /** The walk over every code, stopping at the first failure. */
  function Run(w: Walk, codes: seq<int>, sides: seq<int>): Walked
    decreases |codes|
  {
    if |codes| == 0 then Running(w)
    else match Step(w, codes[0], sides)
      case Stopped(e) => Stopped(e)
      case Running(w') => Run(w', codes[1..], sides)
  }

  datatype Result<T> = Failure(error: WalkError) | Success(value: T)

  /** What `calculateMaxPossible` returns: a quarter of the weight minus the unresolvable count. */
  function MaxPossibleOf(codes: seq<int>, sides: seq<int>, unresolvable: int): Result<int>
  {
    match Run(Start, codes, sides)
      case Stopped(e) => Failure(e)
      case Running(w) => Success(JavaDiv(w.weight, 4) - unresolvable)
  }

  /** The pop loop at an internal node: pop -gtb sizes, or fail when the Deque runs empty. */
  method PopSides(stack: seq<int>, gtb: int) returns (ok: bool, children: seq<int>, rest: seq<int>, newSide: int)
    requires gtb < 0
    ensures ok <==> |stack| >= -gtb
    ensures ok ==> children == stack[..-gtb] && rest == stack[-gtb..] && newSide == Sum(children)
  {
    children, rest, newSide := [], stack, 0;
    var i := gtb;
    while i < 0
      invariant gtb <= i <= 0 && |children| == i - gtb && children + rest == stack
      invariant newSide == Sum(children)
    {
      if |rest| == 0 {
        assert children == stack;
        return false, children, rest, newSide;
      }
      var pop := rest[0];
      SumAppend(children, [pop]);
      assert children + [pop] + rest[1..] == children + rest;
      children := children + [pop];
      rest := rest[1..];
      newSide := newSide + pop;
      i := i + 1;
    }
    assert children == stack[..-gtb] && rest == stack[-gtb..];
    ok := true;
  }

  /** The body of the loop of `calculateMaxPossible` for one code. */
  method WalkStep(w: Walk, gtb: int, sides: seq<int>) returns (r: Walked)
    ensures r == Step(w, gtb, sides)
  {
    var cur := w;
    if cur.newTree {
      if cur.tree >= |sides| {
        return Stopped(TreesExhausted);
      }
      cur := cur.(allsides := sides[cur.tree], tree := cur.tree + 1, newTree := false);
    }
    if gtb >= 0 {
      return Running(cur.(stack := [1] + cur.stack));
    } else if gtb == MinInt {
      return Running(cur.(stack := [], newTree := true));
    }
    var ok, children, rest, newSide := PopSides(cur.stack, gtb);
    if !ok {
      return Stopped(StackEmpty);
    }
    ghost var popped := children;
    var sideRemaining := cur.allsides - newSide;
    if sideRemaining != 0 {
      children := children + [sideRemaining];
    }
    assert children == Sides(popped, cur.allsides);
    var add := TripleLoop(children, NodeWeight);
    r := Running(cur.(weight := cur.weight + add, stack := [newSide] + rest));
  }

  /**
   * `calculateMaxPossible` for the gene trees given as one int encoding:
   * `codes` is `geneTreesAsInts()`, `sides` the cardinalities of
   * `treeAllClusters` in order, `unresolvable` the value of
   * `unresolvableQuartets()`.
   */
  method CalculateMaxPossible(codes: seq<int>, sides: seq<int>, unresolvable: int) returns (r: Result<int>)
    ensures r == MaxPossibleOf(codes, sides, unresolvable)
  {
    var w := Start;
    var p := 0;
    while p < |codes|
      invariant p <= |codes|
      invariant Run(Start, codes, sides) == Run(w, codes[p..], sides)
    {
      assert codes[p..][1..] == codes[p + 1..];
      var next := WalkStep(w, codes[p], sides);
      if next.Stopped? {
        return Failure(next.error);
      }
      w := next.walk;
      p := p + 1;
    }
    r := Success(JavaDiv(w.weight, 4) - unresolvable);
  }

  /** Leaf codes of a list: the codes that push 1. */
  function Leaves(codes: seq<int>): nat
  {
    if |codes| == 0 then 0 else (if codes[0] >= 0 then 1 else 0) + Leaves(codes[1..])
  }

  /** No separator between trees occurs in the list. */
  predicate OneTree(codes: seq<int>)
  {
    forall i :: 0 <= i < |codes| ==> codes[i] != MinInt
  }

  /** Every size on the Deque is at least one. */
  predicate Positive(stack: seq<int>)
  {
    forall i :: 0 <= i < |stack| ==> stack[i] >= 1
  }

  lemma {:induction false} SumPositive(xs: seq<int>)
    requires Positive(xs)
    ensures Sum(xs) >= |xs|
  {
    if |xs| > 0 {
      SumPositive(xs[1..]);
    }
  }

  /**
   * How one code changes the Deque: a leaf pushes 1, a separator clears it
   * and starts a new tree, and `-k` pops k sizes and pushes their sum, so the
   * total of the sizes on the Deque grows by one per leaf and is unchanged by
   * an internal node. The walk stops exactly when a new tree has no cluster
   * left or the Deque holds fewer than k sizes.
   */
  lemma StepStack(w: Walk, code: int, sides: seq<int>)
    ensures Step(w, code, sides) == Stopped(TreesExhausted) <==> w.newTree && w.tree >= |sides|
    ensures Step(w, code, sides) == Stopped(StackEmpty) <==>
              !(w.newTree && w.tree >= |sides|) && code < 0 && code != MinInt && |w.stack| < -code
    ensures Step(w, code, sides).Running? ==>
              var w' := Step(w, code, sides).walk;
              (code >= 0 ==> Sum(w'.stack) == Sum(w.stack) + 1 && |w'.stack| == |w.stack| + 1 && !w'.newTree) &&
              (code == MinInt ==> w'.stack == [] && w'.newTree) &&
              (code < 0 && code != MinInt ==> Sum(w'.stack) == Sum(w.stack) && |w'.stack| == |w.stack| + code + 1 &&
                                              w'.stack[0] == Sum(w.stack[..-code]) && !w'.newTree)
  {
    if Step(w, code, sides).Running? && code < 0 && code != MinInt {
      var w' := Step(w, code, sides).walk;
      assert w.stack == w.stack[..-code] + w.stack[-code..];
      SumAppend(w.stack[..-code], w.stack[-code..]);
      SumAppend([Sum(w.stack[..-code])], w.stack[-code..]);
      assert w'.stack == [Sum(w.stack[..-code])] + w.stack[-code..];
      assert Sum([Sum(w.stack[..-code])]) == Sum(w.stack[..-code]) by {
        assert [Sum(w.stack[..-code])][1..] == [];
      }
    }
    if Step(w, code, sides).Running? && code >= 0 {
      var w' := Step(w, code, sides).walk;
      assert w'.stack[1..] == w.stack;
    }
  }

  /** Every size on the Deque stays at least one: each pop takes at least one size. */
  lemma StepPositive(w: Walk, code: int, sides: seq<int>)
    requires Positive(w.stack) && Step(w, code, sides).Running?
    ensures Positive(Step(w, code, sides).walk.stack)
  {
    var w' := Step(w, code, sides).walk;
    if code >= 0 {
      assert w'.stack == [1] + w.stack;
    } else if code != MinInt {
      var popped := w.stack[..-code];
      var rest := w.stack[-code..];
      assert Positive(popped) && Positive(rest);
      SumPositive(popped);
      assert w'.stack == [Sum(popped)] + rest;
      forall t | 0 <= t < |w'.stack| ensures w'.stack[t] >= 1 {
        if t > 0 {
          assert w'.stack[t] == rest[t - 1];
        }
      }
    }
  }

  /** The sizes of a prefix of a list of nonnegative sizes add up to at most the whole. */
  lemma PrefixSumBelow(xs: seq<int>, k: nat)
    requires k <= |xs| && forall i :: 0 <= i < |xs| ==> xs[i] >= 0
    ensures Sum(xs[..k]) <= Sum(xs)
  {
    assert xs == xs[..k] + xs[k..];
    SumAppend(xs[..k], xs[k..]);
    SumNonnegative(xs[k..]);
  }

  lemma {:induction false} SumNonnegative(xs: seq<int>)
    requires forall i :: 0 <= i < |xs| ==> xs[i] >= 0
    ensures Sum(xs) >= 0
  {
    if |xs| > 0 {
      SumNonnegative(xs[1..]);
    }
  }

  /** Nonnegative sides give an internal node a weight that is never negative. */
  lemma SidesWeightNonnegative(sides: seq<int>)
    requires forall i :: 0 <= i < |sides| ==> sides[i] >= 0
    ensures Triples(sides, NodeWeight) >= 0
  {
    forall i, j, k | 0 <= i < |sides| && 0 <= j < |sides| && 0 <= k < |sides|
      ensures NodeWeight(sides[i], sides[j], sides[k]) >= 0
    {
      NodeWeightNonnegative(sides[i], sides[j], sides[k]);
    }
    TriplesNonnegative(sides, NodeWeight);
  }

  /** One code inside a tree whose cluster still covers the Deque and the coming leaves. */
  lemma StepWithinTree(w: Walk, code: int, sides: seq<int>, later: nat)
    requires code != MinInt && !w.newTree && Positive(w.stack)
    requires w.allsides >= Sum(w.stack) + (if code >= 0 then 1 else 0) + later
    requires Step(w, code, sides).Running?
    ensures var w' := Step(w, code, sides).walk;
      w'.weight >= w.weight && !w'.newTree && Positive(w'.stack) && w'.allsides == w.allsides &&
      Sum(w'.stack) == Sum(w.stack) + (if code >= 0 then 1 else 0)
  {
    StepStack(w, code, sides);
    StepPositive(w, code, sides);
    if code < 0 {
      var popped := w.stack[..-code];
      PrefixSumBelow(w.stack, -code);
      var parts := Sides(popped, w.allsides);
      assert forall i :: 0 <= i < |parts| ==> parts[i] >= 0;
      SidesWeightNonnegative(parts);
    }
  }

  /**
   * Within one tree, while the tree's cluster is at least as large as the
   * sizes on the Deque plus the leaves still to come, the weight never
   * decreases and the Deque's total grows by exactly the number of leaves.
   */
  lemma {:induction false} RunWithinTree(w: Walk, codes: seq<int>, sides: seq<int>)
    requires OneTree(codes) && !w.newTree && Positive(w.stack)
    requires w.allsides >= Sum(w.stack) + Leaves(codes)
    requires Run(w, codes, sides).Running?
    ensures Run(w, codes, sides).walk.weight >= w.weight
    ensures Sum(Run(w, codes, sides).walk.stack) == Sum(w.stack) + Leaves(codes)
    decreases |codes|
  {
    if |codes| > 0 {
      var code := codes[0];
      StepWithinTree(w, code, sides, Leaves(codes[1..]));
      var w' := Step(w, code, sides).walk;
      assert OneTree(codes[1..]) by {
        forall i | 0 <= i < |codes[1..]| ensures codes[1..][i] != MinInt {
          assert codes[1..][i] == codes[i + 1];
        }
      }
      RunWithinTree(w', codes[1..], sides);
    }
  }

  /**
   * The codes of the rooted tree ((0,1),(2,3)): its four leaves make one
   * quartet, which the walk counts four times, once per internal node side.
   */
  lemma OneQuartetTree()
    ensures MaxPossibleOf([0, 1, -2, 2, 3, -2, -2], [4], 0) == Success(1)
  {
    var codes := [0, 1, -2, 2, 3, -2, -2];
    var sides := [4];
    var w7 := Walk(4, [4], false, 1, 4);
    CherrySteps();
    RootSteps();
    assert codes[1..] == [1, -2, 2, 3, -2, -2];
    assert codes[2..] == [-2, 2, 3, -2, -2];
    assert Run(w7, codes[7..], sides) == Running(w7);
    assert Run(Walk(4, [2, 2], false, 1, 4), codes[6..], sides) == Running(w7);
    assert Run(Walk(2, [1, 1, 2], false, 1, 4), codes[5..], sides) == Running(w7);
    assert Run(Walk(2, [1, 2], false, 1, 4), codes[4..], sides) == Running(w7);
    assert Run(Walk(2, [2], false, 1, 4), codes[3..], sides) == Running(w7);
    assert Run(Walk(0, [1, 1], false, 1, 4), codes[2..], sides) == Running(w7);
    assert Run(Walk(0, [1], false, 1, 4), codes[1..], sides) == Running(w7);
    assert Run(Start, codes, sides) == Running(w7);
  }

  /** The walk through the first cherry (0,1) of ((0,1),(2,3)). */
  lemma CherrySteps()
    ensures Step(Start, 0, [4]) == Running(Walk(0, [1], false, 1, 4))
    ensures Step(Walk(0, [1], false, 1, 4), 1, [4]) == Running(Walk(0, [1, 1], false, 1, 4))
    ensures Step(Walk(0, [1, 1], false, 1, 4), -2, [4]) == Running(Walk(2, [2], false, 1, 4))
  {
    TriplesSmall([1, 1, 2], NodeWeight);
    assert Sum([1, 1]) == 2 by {
      assert [1, 1][1..] == [1] && [1][1..] == [];
    }
    assert [1, 1][..2] == [1, 1] && [1, 1][2..] == [];
    assert Sides([1, 1], 4) == [1, 1, 2];
  }

  /** The walk through the second cherry (2,3) and the root of ((0,1),(2,3)). */
  lemma RootSteps()
    ensures Step(Walk(2, [2], false, 1, 4), 2, [4]) == Running(Walk(2, [1, 2], false, 1, 4))
    ensures Step(Walk(2, [1, 2], false, 1, 4), 3, [4]) == Running(Walk(2, [1, 1, 2], false, 1, 4))
    ensures Step(Walk(2, [1, 1, 2], false, 1, 4), -2, [4]) == Running(Walk(4, [2, 2], false, 1, 4))
    ensures Step(Walk(4, [2, 2], false, 1, 4), -2, [4]) == Running(Walk(4, [4], false, 1, 4))
  {
    TriplesSmall([1, 1, 2], NodeWeight);
    assert Sum([1, 1]) == 2 by {
      assert [1, 1][1..] == [1] && [1][1..] == [];
    }
    assert [1, 1, 2][..2] == [1, 1] && [1, 1, 2][2..] == [2];
    assert Sides([1, 1], 4) == [1, 1, 2];
    TriplesSmall([2, 2], NodeWeight);
    assert Sum([2, 2]) == 4 by {
      assert [2, 2][1..] == [2] && [2][1..] == [];
    }
    assert [2, 2][..2] == [2, 2] && [2, 2][2..] == [];
    assert Sides([2, 2], 4) == [2, 2];
  }

  // ---------------------------------------------------------------------------
  // unresolvableQuartets: the per-species count
  // ---------------------------------------------------------------------------

  /** Every taxon maps to a species id below the species count. */
  predicate SpeciesMap(speciesOf: seq<nat>, speciesCount: nat)
  {
    forall t :: 0 <= t < |speciesOf| ==> speciesOf[t] < speciesCount
  }

  /** The individuals of each species among `taxa`, as the `counts` array holds them. */
  function SpeciesCounts(taxa: seq<nat>, speciesOf: seq<nat>, speciesCount: nat): (r: seq<nat>)
    requires SpeciesMap(speciesOf, speciesCount)
    requires forall i :: 0 <= i < |taxa| ==> taxa[i] < |speciesOf|
    ensures |r| == speciesCount
  {
    if |taxa| == 0 then seq(speciesCount, _ => 0)
    else
      var c := SpeciesCounts(taxa[..|taxa| - 1], speciesOf, speciesCount);
      var sp := speciesOf[taxa[|taxa| - 1]];
      c[sp := c[sp] + 1]
  }

  lemma {:induction false} SumUpdate(xs: seq<int>, i: nat, v: int)
    requires i < |xs|
    ensures Sum(xs[i := v]) == Sum(xs) - xs[i] + v
  {
    if i > 0 {
      assert xs[i := v][1..] == xs[1..][i - 1 := v];
      SumUpdate(xs[1..], i - 1, v);
    } else {
      assert xs[i := v][1..] == xs[1..];
    }
  }

  lemma {:induction false} SumZeros(n: nat)
    ensures Sum(seq(n, _ => 0)) == 0
  {
    if n > 0 {
      assert seq(n, _ => 0)[1..] == seq(n - 1, _ => 0);
      SumZeros(n - 1);
    }
  }

  /** Every individual is counted for exactly one species. */
  lemma {:induction false} SpeciesCountsSum(taxa: seq<nat>, speciesOf: seq<nat>, speciesCount: nat)
    requires SpeciesMap(speciesOf, speciesCount)
    requires forall i :: 0 <= i < |taxa| ==> taxa[i] < |speciesOf|
    ensures Sum(SpeciesCounts(taxa, speciesOf, speciesCount)) == |taxa|
  {
    if |taxa| == 0 {
      SumZeros(speciesCount);
    } else {
      var init := taxa[..|taxa| - 1];
      SpeciesCountsSum(init, speciesOf, speciesCount);
      var c := SpeciesCounts(init, speciesOf, speciesCount);
      var sp := speciesOf[taxa[|taxa| - 1]];
      SumUpdate(c, sp, c[sp] + 1);
    }
  }

  /** An element of a list of nonnegative numbers is at most their sum. */
  lemma {:induction false} ElementBelowSum(xs: seq<int>, i: nat)
    requires i < |xs| && forall k :: 0 <= k < |xs| ==> xs[k] >= 0
    ensures xs[i] <= Sum(xs)
  {
    SumNonnegative(xs[1..]);
    if i > 0 {
      ElementBelowSum(xs[1..], i - 1);
    }
  }

  /** The counting loop over the set bits of a gene tree's cluster. */
  method CountSpecies(cluster: Cluster, speciesOf: seq<nat>, speciesCount: nat) returns (counts: seq<nat>)
    requires SpeciesMap(speciesOf, speciesCount)
    ensures counts == SpeciesCounts(Members(cluster, |speciesOf|), speciesOf, speciesCount)
  {
    var taxa := Members(cluster, |speciesOf|);
    counts := seq(speciesCount, _ => 0);
    var p := 0;
    while p < |taxa|
      invariant p <= |taxa|
      invariant counts == SpeciesCounts(taxa[..p], speciesOf, speciesCount)
    {
      assert taxa[..p + 1][..p] == taxa[..p];
      var sp := speciesOf[taxa[p]];
      counts := counts[sp := counts[sp] + 1];
      p := p + 1;
    }
    assert taxa[..p] == taxa;
  }

  /** The term of one species: quartets with three or four of its individuals, in `long` arithmetic. */
  function SpeciesTerm(count: int, size: int): int
  {
    JavaDiv(count * (count - 1) * (count - 2), 6) * (size - count) +
    JavaDiv(count * (count - 1) * (count - 2) * (count - 3), 24)
  }

  lemma {:induction false} ChooseThree(n: nat)
    ensures 6 * Choose(n, 3) == n * (n - 1) * (n - 2)
  {
    if n > 0 {
      var m := n - 1;
      ChooseThree(m);
      ChoosePairs(m);
      assert Choose(n, 3) == Choose(m, 2) + Choose(m, 3);
      PascalThree(m, m * (m - 1), Choose(m, 2), Choose(m, 3));
    }
  }

  lemma PascalThree(m: int, p: int, c2: int, c3: int)
    requires p == m * (m - 1) && 2 * c2 == p && 6 * c3 == m * (m - 1) * (m - 2)
    ensures 6 * (c2 + c3) == (m + 1) * ((m + 1) - 1) * ((m + 1) - 2)
  {
    assert m * (m - 1) * (m - 2) == p * (m - 2);
    assert (m + 1) * m * (m - 1) == p * (m + 1);
  }

  lemma ChoosePairs(n: nat)
    ensures 2 * Choose(n, 2) == n * (n - 1)
  {
    Similarity.ChooseTwo(n);
    Similarity.ConsecutiveProduct(n);
  }

  lemma {:induction false} ChooseFour(n: nat)
    ensures 24 * Choose(n, 4) == n * (n - 1) * (n - 2) * (n - 3)
  {
    if n > 0 {
      var m := n - 1;
      ChooseFour(m);
      ChooseThree(m);
      assert Choose(n, 4) == Choose(m, 3) + Choose(m, 4);
      PascalFour(m, m * (m - 1) * (m - 2), Choose(m, 3), Choose(m, 4));
    }
  }

  lemma PascalFour(m: int, p: int, c3: int, c4: int)
    requires p == m * (m - 1) * (m - 2) && 6 * c3 == p && 24 * c4 == m * (m - 1) * (m - 2) * (m - 3)
    ensures 24 * (c3 + c4) == (m + 1) * ((m + 1) - 1) * ((m + 1) - 2) * ((m + 1) - 3)
  {
    assert m * (m - 1) * (m - 2) * (m - 3) == p * (m - 3);
    assert (m + 1) * m * (m - 1) * (m - 2) == p * (m + 1);
  }

  /** There are no k-element subsets of a smaller set. */
  lemma {:induction false} ChooseTooMany(n: nat, k: nat)
    requires n < k
    ensures Choose(n, k) == 0
  {
    if n > 0 {
      ChooseTooMany(n - 1, k - 1);
      ChooseTooMany(n - 1, k);
    }
  }

  lemma ExactQuotient(c: nat, d: int)
    requires d > 0
    ensures JavaDiv(d * c, d) == c
  {
    assert d * c >= 0;
    assert (d * c) / d == c;
  }

  /** The species term counts C(count, 3) quartets with one other taxon plus C(count, 4). */
  lemma SpeciesTermCounts(count: nat, size: int)
    ensures SpeciesTerm(count, size) == Choose(count, 3) * (size - count) + Choose(count, 4)
  {
    ChooseThree(count);
    ChooseFour(count);
    ExactQuotient(Choose(count, 3), 6);
    ExactQuotient(Choose(count, 4), 24);
  }

  /** The terms of every species of one gene tree. */
  function TermSum(counts: seq<nat>, size: int): int
  {
    if |counts| == 0 then 0 else SpeciesTerm(counts[0], size) + TermSum(counts[1..], size)
  }

  /** Species of at most two individuals have no quartet within themselves. */
  lemma {:induction false} SmallSpeciesTermSum(counts: seq<nat>, size: int)
    requires forall i :: 0 <= i < |counts| ==> counts[i] < 3
    ensures TermSum(counts, size) == 0
  {
    if |counts| > 0 {
      SpeciesTermCounts(counts[0], size);
      ChooseTooMany(counts[0], 3);
      ChooseTooMany(counts[0], 4);
      SmallSpeciesTermSum(counts[1..], size);
    }
  }

  /** Counts no larger than the tree give a sum that is never negative. */
  lemma {:induction false} TermSumNonnegative(counts: seq<nat>, size: int)
    requires forall i :: 0 <= i < |counts| ==> counts[i] <= size
    ensures TermSum(counts, size) >= 0
  {
    if |counts| > 0 {
      SpeciesTermCounts(counts[0], size);
      Similarity.NonnegProduct(Choose(counts[0], 3), size - counts[0]);
      TermSumNonnegative(counts[1..], size);
    }
  }

  /** The loop over the species of one gene tree. */
  method AddSpeciesTerms(counts: seq<nat>, size: int, ret0: int) returns (ret: int)
    ensures ret == ret0 + TermSum(counts, size)
  {
    ret := ret0;
    var s := 0;
    while s < |counts|
      invariant s <= |counts|
      invariant ret + TermSum(counts[s..], size) == ret0 + TermSum(counts, size)
    {
      assert counts[s..][1..] == counts[s + 1..];
      ret := ret + SpeciesTerm(counts[s], size);
      s := s + 1;
    }
  }

  /** The per-species count over every gene tree cluster. */
  function Unresolvable(clusters: seq<Cluster>, speciesOf: seq<nat>, speciesCount: nat): int
    requires SpeciesMap(speciesOf, speciesCount)
  {
    if |clusters| == 0 then 0
    else TermSum(SpeciesCounts(Members(clusters[0], |speciesOf|), speciesOf, speciesCount), |clusters[0]|) +
         Unresolvable(clusters[1..], speciesOf, speciesCount)
  }

  /**
   * `unresolvableQuartets` up to the corrections `three` and `four`: 0 for
   * single-individual data, otherwise the species terms of every gene tree
   * cluster, where individual t belongs to species `speciesOf[t]`.
   */
  method UnresolvableQuartets(clusters: seq<Cluster>, speciesOf: seq<nat>, speciesCount: nat, singleIndividual: bool)
    returns (ret: int)
    requires SpeciesMap(speciesOf, speciesCount)
    ensures ret == if singleIndividual then 0 else Unresolvable(clusters, speciesOf, speciesCount)
  {
    if singleIndividual {
      return 0;
    }
    ret := 0;
    var g := 0;
    while g < |clusters|
      invariant g <= |clusters|
      invariant ret + Unresolvable(clusters[g..], speciesOf, speciesCount) == Unresolvable(clusters, speciesOf, speciesCount)
    {
      assert clusters[g..][1..] == clusters[g + 1..];
      var counts := CountSpecies(clusters[g], speciesOf, speciesCount);
      ret := AddSpeciesTerms(counts, |clusters[g]|, ret);
      g := g + 1;
    }
  }

  /** For clusters of known taxa the count is never negative: no species has more individuals than the tree. */
  lemma {:induction false} UnresolvableNonnegative(clusters: seq<Cluster>, speciesOf: seq<nat>, speciesCount: nat)
    requires SpeciesMap(speciesOf, speciesCount)
    requires forall g :: 0 <= g < |clusters| ==> clusters[g] <= Range(|speciesOf|)
    ensures Unresolvable(clusters, speciesOf, speciesCount) >= 0
  {
    if |clusters| > 0 {
      var cl := clusters[0];
      var taxa := Members(cl, |speciesOf|);
      var counts := SpeciesCounts(taxa, speciesOf, speciesCount);
      SpeciesCountsSum(taxa, speciesOf, speciesCount);
      MembersLength(cl, |speciesOf|);
      assert cl * Range(|speciesOf|) == cl;
      forall i | 0 <= i < |counts| ensures counts[i] <= |cl| {
        ElementBelowSum(counts, i);
      }
      TermSumNonnegative(counts, |cl|);
      UnresolvableNonnegative(clusters[1..], speciesOf, speciesCount);
    }
  }

  // ---------------------------------------------------------------------------
  // scoreSpeciesTreeWithGTLabels: the postorder walk with a Stack of clusters
  // ---------------------------------------------------------------------------

  /** A node of the postorder traversal: a leaf with its taxon id, or an internal node with its child count. */
  datatype TreeNode = Leaf(taxon: nat) | Internal(childCount: nat)

  /** The child list `handleInternalNode` returns: null once it has more than three parts. */
  function PartsOf(popped: seq<Cluster>, n: nat): (r: Option<seq<Cluster>>)
    ensures r.None? <==> |WithComplement(popped, n)| > 3
    ensures r.Some? ==> r.value == WithComplement(popped, n)
  {
    var parts := WithComplement(popped, n);
    if |parts| > 3 then None else Some(parts)
  }

  /**
   * `handleInternalNode` on a Stack given top first: pop one cluster per
   * child, push their union, and return the popped clusters followed by the
   * nonempty complement of the union within the n taxa, or null when that
   * list has more than three parts. `ok` is false when the Stack runs empty.
   */
  method HandleInternalNode(stack: seq<Cluster>, childCount: nat, n: nat)
    returns (ok: bool, list: Option<seq<Cluster>>, stack': seq<Cluster>)
    ensures ok <==> |stack| >= childCount
    ensures ok ==> stack' == [UnionAll(stack[..childCount])] + stack[childCount..]
    ensures ok ==> list == PartsOf(stack[..childCount], n)
  {
    var childbslist, bs, rest;
    ok, childbslist, bs, rest := PopClusters(stack, childCount);
    if !ok {
      return false, None, stack;
    }
    stack' := [bs] + rest;
    ghost var popped := childbslist;
    var remaining := Range(n) - bs;
    if remaining != {} {
      childbslist := childbslist + [remaining];
    }
    assert childbslist == WithComplement(popped, n);
    if |childbslist| > 3 {
      list := None;
    } else {
      list := Some(childbslist);
    }
  }

  /** The pop loop of `handleInternalNode`: one cluster per child, or-ed into `bs`. */
  method PopClusters(stack: seq<Cluster>, childCount: nat)
    returns (ok: bool, childbslist: seq<Cluster>, bs: Cluster, rest: seq<Cluster>)
    ensures ok <==> |stack| >= childCount
    ensures ok ==> childbslist == stack[..childCount] && rest == stack[childCount..] && bs == UnionAll(childbslist)
  {
    childbslist, bs, rest := [], {}, stack;
    var c := 0;
    while c < childCount
      invariant c <= childCount && |childbslist| == c && childbslist + rest == stack
      invariant bs == UnionAll(childbslist)
    {
      if |rest| == 0 {
        assert childbslist == stack;
        return false, childbslist, bs, rest;
      }
      var pop := rest[0];
      PopStep(childbslist, rest, stack);
      childbslist := childbslist + [pop];
      bs := bs + pop;
      rest := rest[1..];
      c := c + 1;
    }
    PopDone(childbslist, rest, stack);
    ok := true;
  }

  lemma PopStep(popped: seq<Cluster>, rest: seq<Cluster>, stack: seq<Cluster>)
    requires popped + rest == stack && |rest| > 0
    ensures (popped + [rest[0]]) + rest[1..] == stack
    ensures UnionAll(popped + [rest[0]]) == UnionAll(popped) + rest[0]
  {
    var next := popped + [rest[0]];
    assert next[..|next| - 1] == popped;
    assert next + rest[1..] == popped + rest;
  }

  lemma PopDone(popped: seq<Cluster>, rest: seq<Cluster>, stack: seq<Cluster>)
    requires popped + rest == stack
    ensures popped == stack[..|popped|] && rest == stack[|popped|..]
  {
  }

  /** State of the scoring walk: the Stack (top first), the weight sum and the polytomy flag. */
  datatype Scoring = Scoring(stack: seq<Cluster>, sum: int, poly: bool)

  /** One node of the walk; None when the Stack runs empty. */
  function ScoreStep(st: Scoring, node: TreeNode, n: nat, w: (Cluster, Cluster, Cluster) -> int): Option<Scoring>
  {
    match node
      case Leaf(t) => Some(st.(stack := [{t}] + st.stack))
      case Internal(k) =>
        if |st.stack| < k then None
        else
          var popped := st.stack[..k];
          var pushed := [UnionAll(popped)] + st.stack[k..];
          match PartsOf(popped, n)
            case None => Some(Scoring(pushed, st.sum, true))
            case Some(parts) => Some(Scoring(pushed, st.sum + Triples(parts, w), st.poly))
  }

  /** The walk over a postorder traversal. */
  function ScoreRun(st: Scoring, nodes: seq<TreeNode>, n: nat, w: (Cluster, Cluster, Cluster) -> int): Option<Scoring>
    decreases |nodes|
  {
    if |nodes| == 0 then Some(st)
    else match ScoreStep(st, nodes[0], n, w)
      case None => None
      case Some(st') => ScoreRun(st', nodes[1..], n, w)
  }

  /**
   * The loop of `scoreSpeciesTreeWithGTLabels` over the postorder `nodes`
   * of a species tree on n taxa, with `w` the weight of a tripartition:
   * the sum of the weights of every triple of every child list, and whether
   * some child list was null. None when the Stack runs empty.
   */
  method ScoreSpeciesTree(nodes: seq<TreeNode>, n: nat, w: (Cluster, Cluster, Cluster) -> int)
    returns (r: Option<(int, bool)>)
    ensures ScoreRun(Scoring([], 0, false), nodes, n, w).None? <==> r.None?
    ensures r.Some? ==> r.value == (ScoreRun(Scoring([], 0, false), nodes, n, w).value.sum,
                                    ScoreRun(Scoring([], 0, false), nodes, n, w).value.poly)
  {
    var stack: seq<Cluster> := [];
    var sum := 0;
    var poly := false;
    var p := 0;
    while p < |nodes|
      invariant p <= |nodes|
      invariant ScoreRun(Scoring([], 0, false), nodes, n, w) == ScoreRun(Scoring(stack, sum, poly), nodes[p..], n, w)
    {
      assert nodes[p..][1..] == nodes[p + 1..];
      match nodes[p] {
        case Leaf(t) =>
          stack := [{t}] + stack;
        case Internal(k) =>
          var ok, childbslist, stack' := HandleInternalNode(stack, k, n);
          if !ok {
            return None;
          }
          stack := stack';
          if childbslist.None? {
            poly := true;
          } else {
            var add := TripleLoop(childbslist.value, w);
            sum := sum + add;
          }
      }
      p := p + 1;
    }
    r := Some((sum, poly));
  }

  /** The taxa of the leaves among `nodes`. */
  function LeafTaxa(nodes: seq<TreeNode>): set<nat>
  {
    if |nodes| == 0 then {} else (if nodes[0].Leaf? then {nodes[0].taxon} else {}) + LeafTaxa(nodes[1..])
  }

  /** An internal node replaces the clusters it pops by their union, so the Stack's union is kept. */
  lemma StepUnion(st: Scoring, node: TreeNode, n: nat, w: (Cluster, Cluster, Cluster) -> int)
    requires ScoreStep(st, node, n, w).Some?
    ensures UnionAll(ScoreStep(st, node, n, w).value.stack) ==
            UnionAll(st.stack) + (if node.Leaf? then {node.taxon} else {})
  {
    var st' := ScoreStep(st, node, n, w).value;
    match node {
      case Leaf(t) =>
        UnionAllCons({t}, st.stack);
      case Internal(k) =>
        var popped := st.stack[..k];
        assert st.stack == popped + st.stack[k..];
        UnionAllAppend(popped, st.stack[k..]);
        UnionAllCons(UnionAll(popped), st.stack[k..]);
    }
  }

  /** After the walk the union of the Stack is the union before plus the taxa of the leaves. */
  lemma {:induction false} ScoreRunUnion(st: Scoring, nodes: seq<TreeNode>, n: nat, w: (Cluster, Cluster, Cluster) -> int)
    requires ScoreRun(st, nodes, n, w).Some?
    ensures UnionAll(ScoreRun(st, nodes, n, w).value.stack) == UnionAll(st.stack) + LeafTaxa(nodes)
    decreases |nodes|
  {
    if |nodes| > 0 {
      StepUnion(st, nodes[0], n, w);
      ScoreRunUnion(ScoreStep(st, nodes[0], n, w).value, nodes[1..], n, w);
    }
  }

  /** Every internal node has at most two children. */
  predicate Binary(nodes: seq<TreeNode>)
  {
    forall i :: 0 <= i < |nodes| ==> nodes[i].Internal? ==> nodes[i].childCount <= 2
  }

  /**
   * With at most two children and one complement a child list has at most
   * three parts, so on a binary tree `poly` is never set.
   */
  lemma {:induction false} BinaryTreeHasNoPolytomy(st: Scoring, nodes: seq<TreeNode>, n: nat, w: (Cluster, Cluster, Cluster) -> int)
    requires Binary(nodes) && ScoreRun(st, nodes, n, w).Some?
    ensures ScoreRun(st, nodes, n, w).value.poly == st.poly
    decreases |nodes|
  {
    if |nodes| > 0 {
      var st' := ScoreStep(st, nodes[0], n, w).value;
      assert st'.poly == st.poly;
      assert Binary(nodes[1..]) by {
        forall i | 0 <= i < |nodes[1..]| ensures nodes[1..][i].Internal? ==> nodes[1..][i].childCount <= 2 {
          assert nodes[1..][i] == nodes[i + 1];
        }
      }
      BinaryTreeHasNoPolytomy(st', nodes[1..], n, w);
    }
  }

  // ---------------------------------------------------------------------------
  // skipNode, the quartet counts of a branch and getTotalCost
  // ---------------------------------------------------------------------------

  /** What `skipNode` reads of a node's parent: its arity, whether it is the root, and its first other child's arity. */
  datatype ParentView = ParentView(childCount: nat, isRoot: bool, siblingChildCount: nat)

  /** A node as `skipNode` sees it: its arity and its parent, absent at the root. */
  datatype NodeView = NodeView(childCount: nat, parent: Option<ParentView>)

  /** `skipNode`: a branch whose quadripartition is not annotated. */
  predicate SkipNode(v: NodeView): (r: bool)
    ensures !r <==> 1 <= v.childCount <= 2 && v.parent.Some? && QuadripartitionParent(v.parent.value)
  {
    v.childCount == 0 || v.parent.None? || v.childCount > 2 ||
    v.parent.value.childCount > 3 ||
    (v.parent.value.childCount > 2 && !v.parent.value.isRoot) ||
    (v.parent.value.isRoot && v.parent.value.childCount == 2 && v.parent.value.siblingChildCount != 2)
  }

  /**
   * The parents around which `getSisterRemaining` finds a sister and a
   * remaining side: a root with at most three children, and with two only
   * when the other child is binary (its two children are then the sister and
   * the remaining side), or a non-root parent with at most two children (the
   * sibling and the parent's complement).
   */
  predicate QuadripartitionParent(p: ParentView)
  {
    if p.isRoot then p.childCount <= 3 && (p.childCount == 2 ==> p.siblingChildCount == 2)
    else p.childCount <= 2
  }

  /** A branch is annotated exactly when the node has one or two children and its parent is one of those. */
  lemma AnnotatedBranches(v: NodeView)
    ensures !SkipNode(v) <==> 1 <= v.childCount <= 2 && v.parent.Some? && QuadripartitionParent(v.parent.value)
  {
  }

  lemma PositiveProduct(a: int, b: int)
    requires a > 0 && b > 0
    ensures a * b > 0
  {
  }

  /** A product of nonnegative factors is positive exactly when every factor is. */
  lemma ProductPositiveIff(a: int, b: int, c: int)
    requires a >= 0 && b >= 0 && c >= 0
    ensures a * b * c >= 0
    ensures a * b * c > 0 <==> a > 0 && b > 0 && c > 0
  {
    if a > 0 && b > 0 && c > 0 {
      PositiveProduct(a, b);
      PositiveProduct(a * b, c);
    } else {
      Similarity.NonnegProduct(a, b);
      Similarity.NonnegProduct(a * b, c);
      if a == 0 || b == 0 {
        assert a * b == 0;
      }
    }
  }

  /**
   * The quartet count of an internal branch with sides c1, c2 (below) and
   * sister, remaining (above): one quartet per choice of a taxon on each side.
   */
  function BranchQuartCount(c1: Cluster, c2: Cluster, sister: Cluster, remaining: Cluster): (r: int)
    ensures r >= 0
    ensures r > 0 <==> c1 != {} && c2 != {} && sister != {} && remaining != {}
  {
    ProductPositiveIff(|c1| * |c2|, |sister|, |remaining|);
    ProductPositiveIff(|c1|, |c2|, 1);
    |c1| * |c2| * |sister| * |remaining|
  }

  /**
   * The quartet count of a terminal branch of a species with cs > 1
   * individuals: two of its individuals with one sister and one remaining
   * taxon, `cs(cs-1)/2` in `long` arithmetic.
   */
  function TerminalQuartCount(cs: int, sister: Cluster, remaining: Cluster): (r: int)
    ensures cs >= 0 ==> r == Choose(cs, 2) * |sister| * |remaining|
    ensures cs >= 0 ==> (r > 0 <==> cs >= 2 && sister != {} && remaining != {})
  {
    if cs >= 0 then
      ChoosePairs(cs);
      ExactQuotient(Choose(cs, 2), 2);
      assert cs * (cs - 1) == 2 * Choose(cs, 2);
      ProductPositiveIff(Choose(cs, 2), |sister|, |remaining|);
      assert Choose(cs, 2) > 0 <==> cs >= 2 by {
        if cs >= 2 {
          assert cs * (cs - 1) > 0 by {
            PositiveProduct(cs, cs - 1);
          }
        } else {
          ChooseTooMany(cs, 2);
        }
      }
      JavaDiv(cs * (cs - 1), 2) * |sister| * |remaining|
    else
      JavaDiv(cs * (cs - 1), 2) * |sister| * |remaining|
  }

  /**
   * `getTotalCost`: a quarter of the final score, rounded toward zero, since
   * the weights count each satisfied quartet four times.
   */
  function TotalCost(maxScore: int): (r: int)
    ensures maxScore >= 0 ==> 4 * r <= maxScore < 4 * r + 4
    ensures maxScore < 0 ==> 4 * r - 4 < maxScore <= 4 * r
  {
    JavaDivTowardZero(maxScore, 4);
    JavaDiv(maxScore, 4)
  }
}
