/**
 * The combinatorial core of SimilarityMatrix: the four-point choice, the
 * similarity order of indices and the lookups built on it, the quartet-count
 * accumulation and its normalisation, the induced sub-matrix, the nested prefix
 * bitsets and the UPGMA merge loop. Float entries are modelled as reals.
 */
module Similarity {
  import opened Clusters

  /** Row `i` of a matrix, as a sequence. */
  function Row(m: array2<real>, i: nat): (r: seq<real>)
    reads m
    requires i < m.Length0
    ensures |r| == m.Length1
    ensures forall j :: 0 <= j < |r| ==> r[j] == m[i, j]
  {
    seq(m.Length1, j requires 0 <= j < m.Length1 reads m => m[i, j])
  }

  // ---------------------------------------------------------------------------
  // The four-point choice
  // ---------------------------------------------------------------------------

  /** The scores `ascore`, `bscore` and `cscore` of the four-point condition. */
  datatype FourPoint = FourPoint(a: real, b: real, c: real)

  /** `x`, `a`, `b`, `c` all index the matrix. */
  predicate Indices4(m: array2<real>, x: nat, a: nat, b: nat, c: nat)
  {
    x < m.Length0 && a < m.Length0 && b < m.Length0 &&
    a < m.Length1 && b < m.Length1 && c < m.Length1
  }

  /**
   * The three scores, from the similarities between x, a, b and c. The a- and
   * b-scores are opposite numbers, since they weigh the same two pairings.
   */
  function FourPointScores(m: array2<real>, x: nat, a: nat, b: nat, c: nat): (s: FourPoint)
    reads m
    requires Indices4(m, x, a, b, c)
    ensures s.a == -s.b
  {
    var xa := m[x, a];
    var xb := m[x, b];
    var xc := m[x, c];
    var ab := m[a, b];
    var ac := m[a, c];
    var bc := m[b, c];
    FourPoint(xa + bc - (xb + ac), xb + ac - (xa + bc), xc + ab - (xb + ac))
  }

  /**
   * `getBetterSideByFourPoint`: one of a, b, c. For three distinct sides the
   * winner is the side of largest score, ties going to a before b before c.
   */
  function BetterSideByFourPoint(m: array2<real>, x: nat, a: nat, b: nat, c: nat): (r: nat)
    reads m
    requires Indices4(m, x, a, b, c)
    ensures r == a || r == b || r == c
    ensures var s := FourPointScores(m, x, a, b, c);
            a != b && a != c && b != c ==>
              (r == a <==> s.a >= s.b && s.a >= s.c) &&
              (r == b <==> s.b > s.a && s.b >= s.c) &&
              (r == c <==> s.c > s.a && s.c > s.b)
  {
    var s := FourPointScores(m, x, a, b, c);
    if s.a >= s.b then (if s.a >= s.c then a else c)
    else (if s.b >= s.c then b else c)
  }

  // ---------------------------------------------------------------------------
  // The similarity order
  // ---------------------------------------------------------------------------

  /**
   * The comparators of `sortColumn` and `getQuadraticBitsets`: i goes before j
   * when its similarity is higher; on equal similarity the larger index goes
   * first when `largerFirst` (sortColumn), the smaller one otherwise.
   */
  predicate Before(js: seq<real>, i: nat, j: nat, largerFirst: bool)
  {
    i < |js| && j < |js| &&
    (js[i] > js[j] || (js[i] == js[j] && (if largerFirst then i > j else i < j)))
  }

  /** The comparator orders any two distinct indices one way and never both. */
  lemma BeforeIsStrictTotal(js: seq<real>, i: nat, j: nat, largerFirst: bool)
    requires i < |js| && j < |js|
    ensures !Before(js, i, i, largerFirst)
    ensures i != j ==> (Before(js, i, j, largerFirst) <==> !Before(js, j, i, largerFirst))
  {
  }

  /** Every index of `s` lies within `js`. */
  predicate Within(s: seq<nat>, js: seq<real>)
  {
    forall i :: 0 <= i < |s| ==> s[i] < |js|
  }

  /** `s` lists indices in comparator order, each once. */
  predicate Ordered(s: seq<nat>, js: seq<real>, largerFirst: bool)
  {
    forall i, j :: 0 <= i < j < |s| ==> Before(js, s[i], s[j], largerFirst)
  }

  /** No element of `s` occurs twice. */
  predicate Distinct(s: seq<nat>)
  {
    forall i, j :: 0 <= i < j < |s| ==> s[i] != s[j]
  }

  /** Insertion of a new index into an ordered list. */
  function Insert(x: nat, s: seq<nat>, js: seq<real>, largerFirst: bool): (r: seq<nat>)
    requires x < |js| && Within(s, js) && Ordered(s, js, largerFirst)
    requires forall i :: 0 <= i < |s| ==> s[i] != x
    ensures Within(r, js) && Ordered(r, js, largerFirst)
    ensures |r| == |s| + 1
    ensures forall y :: y in r <==> y == x || y in s
  {
    if |s| == 0 then [x]
    else if Before(js, x, s[0], largerFirst) then [x] + s
    else
      var rest := Insert(x, s[1..], js, largerFirst);
      assert forall i :: 0 <= i < |rest| ==> Before(js, s[0], rest[i], largerFirst) by {
        forall i | 0 <= i < |rest| ensures Before(js, s[0], rest[i], largerFirst) {
          if rest[i] == x {
            BeforeIsStrictTotal(js, s[0], x, largerFirst);
          } else {
            assert rest[i] in s[1..];
            var k :| 0 <= k < |s[1..]| && s[1..][k] == rest[i];
            assert s[1..][k] == s[k + 1];
          }
        }
      }
      [s[0]] + rest
  }

  /** The indices of `xs`, sorted by the comparator: what sorting them yields. */
  function SortBy(xs: seq<nat>, js: seq<real>, largerFirst: bool): (r: seq<nat>)
    requires Within(xs, js) && Distinct(xs)
    ensures Within(r, js) && Ordered(r, js, largerFirst)
    ensures |r| == |xs|
    ensures forall y :: y in r <==> y in xs
  {
    if |xs| == 0 then []
    else
      var init := xs[..|xs| - 1];
      assert forall y :: y in init <==> exists i :: 0 <= i < |xs| - 1 && xs[i] == y by {
        forall y ensures y in init <==> exists i :: 0 <= i < |xs| - 1 && xs[i] == y {
          if y in init {
            var i :| 0 <= i < |init| && init[i] == y;
            assert xs[i] == y;
          }
        }
      }
      var sorted := SortBy(init, js, largerFirst);
      assert xs[|xs| - 1] !in init;
      Insert(xs[|xs| - 1], sorted, js, largerFirst)
  }

  /** In an ordered list, each index occurs once. */
  lemma OrderedDistinct(s: seq<nat>, js: seq<real>, largerFirst: bool)
    requires Ordered(s, js, largerFirst)
    ensures Distinct(s)
  {
    forall i, j | 0 <= i < j < |s| ensures s[i] != s[j] {
      assert Before(js, s[i], s[j], largerFirst);
    }
  }

  /**
   * The iteration order of `sortColumn(range, js)`: the TreeSet holding the
   * indices of `range`, most similar first, ties broken by the larger index.
   */
  function SortColumn(range: set<nat>, js: seq<real>): (r: seq<nat>)
    requires forall i :: i in range ==> i < |js|
    ensures Within(r, js) && Ordered(r, js, true) && Distinct(r)
    ensures forall y :: y in r <==> y in range
    ensures |r| == |range|
  {
    var xs := Members(range, |js|);
    assert Distinct(xs);
    MembersLength(range, |js|);
    assert range * Range(|js|) == range;
    var r := SortBy(xs, js, true);
    OrderedDistinct(r, js, true);
    r
  }

  /** The list ordered by the comparator starts with the element that goes before every other one. */
  lemma SortColumnFirst(range: set<nat>, js: seq<real>)
    requires forall i :: i in range ==> i < |js|
    requires range != {}
    ensures var r := SortColumn(range, js);
            |r| > 0 && r[0] in range &&
            forall y :: y in range && y != r[0] ==> Before(js, r[0], y, true)
  {
    var r := SortColumn(range, js);
    forall y | y in range && y != r[0] ensures Before(js, r[0], y, true) {
      var k :| 0 <= k < |r| && r[k] == y;
    }
  }

  // ---------------------------------------------------------------------------
  // The closest present taxon
  // ---------------------------------------------------------------------------

  /** `getClosestPresentTaxonId` accepts taxa already added (smaller ids) or present in the tree. */
  predicate Acceptable(present: set<nat>, missingId: nat, other: nat)
  {
    missingId > other || other in present
  }

  /**
   * `getClosestPresentTaxonId`: walks the taxa in order of similarity to
   * `missingId` (all n of them, `missingId` included) and returns the first
   * acceptable one. The result is the most similar acceptable taxon, ties going
   * to the larger id; `None` stands for the exception thrown when no taxon is
   * acceptable, which happens exactly when `missingId` is 0 and nothing is present.
   */
  method GetClosestPresentTaxonId(m: array2<real>, present: set<nat>, missingId: nat) returns (r: Option<nat>)
    requires m.Length0 == m.Length1 && missingId < m.Length0
    ensures r.Some? ==> r.value < m.Length0 && Acceptable(present, missingId, r.value)
    ensures r.Some? ==> Closest(Row(m, missingId), present, missingId, r.value)
    ensures r.None? <==> missingId == 0 && present * Range(m.Length0) == {}
    ensures missingId !in present ==> r != Some(missingId)
  {
    var js := Row(m, missingId);
    var order := SortColumn(Range(|js|), js);
    OrderCovers(js);
    var k := FirstAcceptable(order, present, missingId);
    if k < |order| {
      r := Some(order[k]);
      FirstAcceptableIsClosest(order, js, present, missingId, k);
    } else {
      r := None;
      NoneAcceptable(order, js, present, missingId);
    }
  }

  /** The similarity order of all taxa visits every taxon. */
  lemma OrderCovers(js: seq<real>)
    ensures forall y: nat :: y < |js| ==> y in SortColumn(Range(|js|), js)
  {
  }

  /** The position of the first acceptable index of `order`, or `|order|` when there is none: the search loop. */
  method FirstAcceptable(order: seq<nat>, present: set<nat>, missingId: nat) returns (k: nat)
    ensures k <= |order|
    ensures k < |order| ==> Acceptable(present, missingId, order[k])
    ensures forall i :: 0 <= i < k ==> !Acceptable(present, missingId, order[i])
  {
    k := 0;
    while k < |order|
      invariant k <= |order|
      invariant forall i :: 0 <= i < k ==> !Acceptable(present, missingId, order[i])
    {
      if Acceptable(present, missingId, order[k]) {
        return;
      }
      k := k + 1;
    }
  }

  /** `t` goes before every other acceptable index in the order of `js`. */
  predicate Closest(js: seq<real>, present: set<nat>, missingId: nat, t: nat)
  {
    forall y: nat :: y < |js| && y != t && Acceptable(present, missingId, y) ==> Before(js, t, y, true)
  }

  /** The first acceptable index of the full order goes before every other acceptable index. */
  lemma FirstAcceptableIsClosest(order: seq<nat>, js: seq<real>, present: set<nat>, missingId: nat, k: nat)
    requires Ordered(order, js, true) && forall y: nat :: y < |js| ==> y in order
    requires k < |order| && Acceptable(present, missingId, order[k])
    requires forall i :: 0 <= i < k ==> !Acceptable(present, missingId, order[i])
    ensures Closest(js, present, missingId, order[k])
    ensures Within(order, js) ==> !(missingId == 0 && present * Range(|js|) == {})
  {
    if Within(order, js) && missingId == 0 {
      assert order[k] in present * Range(|js|);
    }
    forall y: nat | y < |js| && y != order[k] && Acceptable(present, missingId, y)
      ensures Before(js, order[k], y, true)
    {
      assert y in order;
      var i :| 0 <= i < |order| && order[i] == y;
      assert i > k;
    }
  }

  /** When no index of the full order is acceptable, `missingId` is 0 and nothing is present. */
  lemma NoneAcceptable(order: seq<nat>, js: seq<real>, present: set<nat>, missingId: nat)
    requires forall y: nat :: y < |js| ==> y in order
    requires forall i :: 0 <= i < |order| ==> !Acceptable(present, missingId, order[i])
    requires missingId < |js|
    ensures missingId == 0 && present * Range(|js|) == {}
  {
    forall y: nat | y < |js| ensures !Acceptable(present, missingId, y) {
      assert y in order;
      var i :| 0 <= i < |order| && order[i] == y;
    }
    assert !Acceptable(present, missingId, 0);
    forall z: nat | z < |js| ensures z !in present {
      assert !Acceptable(present, missingId, z);
    }
  }

  // ---------------------------------------------------------------------------
  // Quartet-count accumulation and normalisation
  // ---------------------------------------------------------------------------

  /** A square matrix equal to its transpose. */
  predicate Symmetric(m: array2<real>)
    reads m
  {
    m.Length0 == m.Length1 && forall i, j :: 0 <= i < m.Length0 && 0 <= j < m.Length0 ==> m[i, j] == m[j, i]
  }

  /** Nested sequences forming a square matrix equal to its transpose. */
  predicate SymmetricRows(s: seq<seq<real>>)
  {
    (forall i :: 0 <= i < |s| ==> |s[i]| == |s|) &&
    forall i, j :: 0 <= i < |s| && 0 <= j < |s| ==> s[i][j] == s[j][i]
  }

  /** A matrix's entries as nested sequences. */
  function Snapshot(m: array2<real>): (s: seq<seq<real>>)
    reads m
    ensures |s| == m.Length0
    ensures forall i :: 0 <= i < |s| ==> |s[i]| == m.Length1
    ensures forall i, j :: 0 <= i < m.Length0 && 0 <= j < m.Length1 ==> s[i][j] == m[i, j]
    ensures m.Length0 == m.Length1 ==> (SymmetricRows(s) <==> Symmetric(m))
  {
    seq(m.Length0, i requires 0 <= i < m.Length0 reads m => Row(m, i))
  }

  /** Choosing 2 out of n is n(n-1)/2. */
  lemma {:induction false} ChooseTwo(n: nat)
    ensures Choose(n, 2) == n * (n - 1) / 2
  {
    if n > 0 {
      ChooseTwo(n - 1);
      ChooseOne(n - 1);
      assert Choose(n, 2) == (n - 1) + (n - 1) * (n - 2) / 2;
      assert (n - 1) * (n - 2) == n * (n - 1) - 2 * (n - 1);
    }
  }

  /** Choosing 1 out of n is n. */
  lemma {:induction false} ChooseOne(n: nat)
    ensures Choose(n, 1) == n
  {
    if n > 0 {
      ChooseOne(n - 1);
    }
  }

  /** The product of two consecutive integers is even and never negative. */
  lemma ConsecutiveProduct(c: int)
    ensures c * (c - 1) >= 0 && (c * (c - 1)) % 2 == 0
  {
    ConsecutiveNonnegative(c);
    ConsecutiveEven(c);
  }

  lemma ConsecutiveNonnegative(c: int)
    ensures c * (c - 1) >= 0
  {
    if c >= 1 {
      NonnegProduct(c, c - 1);
    } else {
      NonnegProduct(-c, 1 - c);
      assert c * (c - 1) == (-c) * (1 - c);
    }
  }

  lemma ConsecutiveEven(c: int)
    ensures (c * (c - 1)) % 2 == 0
  {
    var h := c / 2;
    if c % 2 == 0 {
      DoubleProduct(c, h, c - 1);
    } else {
      DoubleProduct(c - 1, h, c);
    }
  }

  lemma DoubleProduct(a: int, h: int, b: int)
    requires a == 2 * h
    ensures (a * b) % 2 == 0 && (b * a) % 2 == 0
  {
    assert a * b == 2 * (h * b);
    assert b * a == a * b;
  }

  lemma NonnegProduct(a: int, b: int)
    requires a >= 0 && b >= 0
    ensures a * b >= 0
  {
  }

  /**
   * The `long` increment of `updateQuartetDistanceForPair`: `c*(c-1)/2` for
   * c = treeall - |left| - |right|, the number of pairs of taxa of the tree
   * outside both sides. The product is never negative, so Java's division agrees.
   */
  function PairIncrement(treeall: int, left: set<nat>, right: set<nat>): (r: int)
    ensures r >= 0
    ensures treeall >= |left| + |right| ==> r == Choose(treeall - |left| - |right|, 2)
  {
    var c := treeall - |left| - |right|;
    ConsecutiveProduct(c);
    assert c >= 0 ==> Choose(c, 2) == c * (c - 1) / 2 by {
      if c >= 0 {
        ChooseTwo(c);
      }
    }
    c * (c - 1) / 2
  }

  /**
   * An entry after ordered pairs `done` have been processed: a processed pair
   * (i, j) holds its old value plus `inc`, and so does the mirrored entry (j, i).
   */
  ghost function PairTarget(m0: seq<seq<real>>, done: set<(nat, nat)>, inc: real, i: nat, j: nat): real
    requires i < |m0| && j < |m0| && forall k :: 0 <= k < |m0| ==> |m0[k]| == |m0|
  {
    if (i, j) in done then m0[i][j] + inc
    else if (j, i) in done then m0[j][i] + inc
    else m0[i][j]
  }

  /** Every entry of `m` is its target for the processed pairs. */
  ghost predicate PairsApplied(m: array2<real>, m0: seq<seq<real>>, done: set<(nat, nat)>, inc: real)
    reads m
    requires |m0| == m.Length0 == m.Length1 && forall k :: 0 <= k < |m0| ==> |m0[k]| == |m0|
  {
    forall i, j :: 0 <= i < m.Length0 && 0 <= j < m.Length1 ==> m[i, j] == PairTarget(m0, done, inc, i, j)
  }

  /**
   * `updateQuartetDistanceForPair`: for every l of `left` and r of `right` adds
   * the increment to entry (l, r) and copies the sum to (r, l). The sides of a
   * tree node are disjoint, so each unordered pair is visited once: entries
   * between the sides grow by the increment and a symmetric matrix stays symmetric.
   */
  method UpdateQuartetDistanceForPair(treeall: int, left: set<nat>, right: set<nat>, matrix: array2<real>)
    requires matrix.Length0 == matrix.Length1
    requires left <= Range(matrix.Length0) && right <= Range(matrix.Length0)
    requires left * right == {}
    modifies matrix
    ensures var inc := PairIncrement(treeall, left, right) as real;
            forall i, j :: 0 <= i < matrix.Length0 && 0 <= j < matrix.Length1 ==>
              matrix[i, j] == if i in left && j in right then old(matrix[i, j]) + inc
                              else if i in right && j in left then old(matrix[j, i]) + inc
                              else old(matrix[i, j])
    ensures old(Symmetric(matrix)) ==> Symmetric(matrix)
  {
    var n := matrix.Length0;
    var inc := PairIncrement(treeall, left, right) as real;
    ghost var m0 := Snapshot(matrix);
    ghost var wasSymmetric := Symmetric(matrix);
    assert wasSymmetric == SymmetricRows(m0);
    assert PairsApplied(matrix, m0, {}, inc);
    var ls := Members(left, n);
    var rs := Members(right, n);
    ghost var done := AddAllPairs(matrix, m0, inc, ls, rs, left, right);
    PairsAppliedEverywhere(matrix, m0, done, inc, left, right);
  }

  /** The outer loop of `updateQuartetDistanceForPair`: every l of `left`, in ascending order. */
  method AddAllPairs(matrix: array2<real>, ghost m0: seq<seq<real>>, inc: real, ls: seq<nat>, rs: seq<nat>,
                     left: set<nat>, right: set<nat>) returns (ghost done: set<(nat, nat)>)
    requires |m0| == matrix.Length0 == matrix.Length1 && forall k :: 0 <= k < |m0| ==> |m0[k]| == |m0|
    requires left <= Range(matrix.Length0) && right <= Range(matrix.Length0) && left * right == {}
    requires ls == Members(left, matrix.Length0) && rs == Members(right, matrix.Length0)
    requires PairsApplied(matrix, m0, {}, inc)
    modifies matrix
    ensures forall i: nat, j: nat :: (i, j) in done <==> i in left && j in right
    ensures PairsApplied(matrix, m0, done, inc)
  {
    done := {};
    var a := 0;
    while a < |ls|
      invariant 0 <= a <= |ls|
      invariant forall i: nat, j: nat :: (i, j) in done <==> i in ls[..a] && j in right
      invariant PairsApplied(matrix, m0, done, inc)
    {
      RowFresh(ls, left, matrix.Length0, a, done, right);
      ghost var before := done;
      done := AddPairsOfRow(matrix, m0, done, inc, ls[a], rs, left, right);
      RowDone(ls, a, right, matrix.Length0, before, done);
      a := a + 1;
    }
    assert ls[..a] == ls;
  }

  /** Before row `ls[a]` the pairs processed lie in left x right and none starts at `ls[a]`. */
  lemma RowFresh(ls: seq<nat>, left: set<nat>, n: nat, a: nat, done: set<(nat, nat)>, right: set<nat>)
    requires ls == Members(left, n) && a < |ls|
    requires forall i: nat, j: nat :: (i, j) in done <==> i in ls[..a] && j in right
    ensures forall i: nat, j: nat :: (i, j) in done ==> i in left && j in right
    ensures forall j: nat :: (ls[a], j) !in done
    ensures ls[a] in left && ls[a] < n
  {
    assert ls[a] !in ls[..a];
  }

  /** After row `ls[a]` the pairs processed are those of the first a + 1 rows. */
  lemma RowDone(ls: seq<nat>, a: nat, right: set<nat>, n: nat, done: set<(nat, nat)>, done': set<(nat, nat)>)
    requires a < |ls| && right <= Range(n)
    requires forall i: nat, j: nat :: (i, j) in done <==> i in ls[..a] && j in right
    requires forall i: nat, j: nat :: (i, j) in done' <==> (i, j) in done || (i == ls[a] && j in right && j < n)
    ensures forall i: nat, j: nat :: (i, j) in done' <==> i in ls[..a + 1] && j in right
  {
    assert ls[..a + 1] == ls[..a] + [ls[a]];
  }

  /** The inner loop of `updateQuartetDistanceForPair`: the pairs (l, r) for r in `right`, in ascending order. */
  method AddPairsOfRow(matrix: array2<real>, ghost m0: seq<seq<real>>, ghost done0: set<(nat, nat)>, inc: real,
                       l: nat, rs: seq<nat>, left: set<nat>, right: set<nat>) returns (ghost done: set<(nat, nat)>)
    requires |m0| == matrix.Length0 == matrix.Length1 && forall k :: 0 <= k < |m0| ==> |m0[k]| == |m0|
    requires l in left && l < matrix.Length0 && left * right == {}
    requires forall i :: 0 <= i < |rs| ==> rs[i] in right && rs[i] < matrix.Length0
    requires forall x :: x in right && x < matrix.Length0 ==> x in rs
    requires forall i, j :: 0 <= i < j < |rs| ==> rs[i] < rs[j]
    requires forall i: nat, j: nat :: (i, j) in done0 ==> i in left && j in right
    requires forall j: nat :: (l, j) !in done0
    requires PairsApplied(matrix, m0, done0, inc)
    modifies matrix
    ensures forall i: nat, j: nat :: (i, j) in done <==> (i, j) in done0 || (i == l && j in right && j < matrix.Length0)
    ensures PairsApplied(matrix, m0, done, inc)
  {
    done := done0;
    var b := 0;
    while b < |rs|
      invariant 0 <= b <= |rs|
      invariant forall i: nat, j: nat :: (i, j) in done <==> (i, j) in done0 || (i == l && j in rs[..b])
      invariant PairsApplied(matrix, m0, done, inc)
    {
      var r := rs[b];
      assert r !in rs[..b];
      PairStep(matrix, m0, done, inc, l, r, left, right);
      matrix[l, r] := matrix[l, r] + inc;
      matrix[r, l] := matrix[l, r];
      done := done + {(l, r)};
      assert rs[..b + 1] == rs[..b] + [r];
      b := b + 1;
    }
    assert rs[..b] == rs;
  }

  /** Once every pair of left x right is processed, the matrix is the old one with the pairs' entries increased. */
  lemma PairsAppliedEverywhere(m: array2<real>, m0: seq<seq<real>>, done: set<(nat, nat)>, inc: real, left: set<nat>, right: set<nat>)
    requires |m0| == m.Length0 == m.Length1 && forall k :: 0 <= k < |m0| ==> |m0[k]| == |m0|
    requires left <= Range(m.Length0) && right <= Range(m.Length0) && left * right == {}
    requires forall i: nat, j: nat :: (i, j) in done <==> i in left && j in right
    requires PairsApplied(m, m0, done, inc)
    ensures forall i, j :: 0 <= i < m.Length0 && 0 <= j < m.Length1 ==>
              m[i, j] == if i in left && j in right then m0[i][j] + inc
                         else if i in right && j in left then m0[j][i] + inc
                         else m0[i][j]
    ensures SymmetricRows(m0) ==> Symmetric(m)
  {
    forall i, j | 0 <= i < m.Length0 && 0 <= j < m.Length1
      ensures m[i, j] == if i in left && j in right then m0[i][j] + inc
                         else if i in right && j in left then m0[j][i] + inc
                         else m0[i][j]
    {
      assert m[i, j] == PairTarget(m0, done, inc, i, j);
    }
  }

  /** Before pair (l, r) is processed, neither it nor its mirror is, so both entries hold their old values. */
  lemma PairStep(m: array2<real>, m0: seq<seq<real>>, done: set<(nat, nat)>, inc: real, l: nat, r: nat, left: set<nat>, right: set<nat>)
    requires |m0| == m.Length0 == m.Length1 && forall k :: 0 <= k < |m0| ==> |m0[k]| == |m0|
    requires l in left && r in right && left * right == {} && l < m.Length0 && r < m.Length0
    requires forall i: nat, j: nat :: (i, j) in done ==> i in left && j in right
    requires (l, r) !in done
    requires PairsApplied(m, m0, done, inc)
    ensures m[l, r] == m0[l][r] && m[r, l] == m0[r][l]
    ensures forall i, j :: 0 <= i < |m0| && 0 <= j < |m0| && (i, j) != (l, r) && (i, j) != (r, l) ==>
              PairTarget(m0, done + {(l, r)}, inc, i, j) == PairTarget(m0, done, inc, i, j)
    ensures PairTarget(m0, done + {(l, r)}, inc, l, r) == m0[l][r] + inc
    ensures PairTarget(m0, done + {(l, r)}, inc, r, l) == m0[l][r] + inc
  {
    assert r !in left * right && l !in left * right;
    assert r !in left && l !in right;
  }

  /** An integer matrix's entries as nested sequences. */
  function IntSnapshot(m: array2<int>): (s: seq<seq<int>>)
    reads m
    ensures |s| == m.Length0
    ensures forall i :: 0 <= i < |s| ==> |s[i]| == m.Length1
    ensures forall i, j :: 0 <= i < m.Length0 && 0 <= j < m.Length1 ==> s[i][j] == m[i, j]
  {
    seq(m.Length0, i requires 0 <= i < m.Length0 reads m =>
      seq(m.Length1, j requires 0 <= j < m.Length1 reads m => m[i, j]))
  }

  /** The denominators off the diagonal are even (and equal to their mirror). */
  predicate EvenSymmetric(d: array2<int>)
    reads d
  {
    d.Length0 == d.Length1 &&
    forall i, j :: 0 <= i < d.Length0 && 0 <= j < d.Length0 ==> d[i, j] == d[j, i] && (i != j ==> d[i, j] % 2 == 0)
  }

  /** The per-tree denominator increment `c*(c-1)/2` for c = |all| - 2: the pairs of the tree's other taxa. */
  function DenominatorIncrement(size: nat): (r: int)
    ensures r >= 0
    ensures size >= 2 ==> r == Choose(size - 2, 2)
  {
    var c := size - 2;
    ConsecutiveProduct(c);
    assert c >= 0 ==> Choose(c, 2) == c * (c - 1) / 2 by {
      if c >= 0 {
        ChooseTwo(c);
      }
    }
    c * (c - 1) / 2
  }

  /** How many of the ordered pairs (i, j) and (j, i) have been processed; one pair when i == j. */
  function Visits(done: set<(nat, nat)>, i: nat, j: nat): nat
  {
    if i == j then (if (i, i) in done then 1 else 0)
    else (if (i, j) in done then 1 else 0) + (if (j, i) in done then 1 else 0)
  }

  function Min(i: nat, j: nat): nat { if i <= j then i else j }

  function Max(i: nat, j: nat): nat { if i <= j then j else i }

  /**
   * A denominator after the ordered pairs `done` have been processed: an
   * untouched entry keeps its value; otherwise both (i, j) and (j, i) hold the
   * old upper-triangle value plus one increment per visit.
   */
  ghost function DenomTarget(d0: seq<seq<int>>, done: set<(nat, nat)>, x: int, i: nat, j: nat): int
    requires i < |d0| && j < |d0| && forall k :: 0 <= k < |d0| ==> |d0[k]| == |d0|
  {
    var v := Visits(done, i, j);
    if v == 0 then d0[i][j] else if v == 1 then d0[Min(i, j)][Max(i, j)] + x else d0[Min(i, j)][Max(i, j)] + 2 * x
  }

  /** Every denominator holds its target for the processed pairs. */
  ghost predicate DenomsApplied(d: array2<int>, d0: seq<seq<int>>, done: set<(nat, nat)>, x: int)
    reads d
    requires |d0| == d.Length0 == d.Length1 && forall k :: 0 <= k < |d0| ==> |d0[k]| == |d0|
  {
    forall i, j :: 0 <= i < d.Length0 && 0 <= j < d.Length1 ==> d[i, j] == DenomTarget(d0, done, x, i, j)
  }

  /**
   * The denominator loop of `populateByQuartetDistanceLoop.run` for one tree:
   * for every ordered pair (l, r) of the tree's taxa adds the increment to
   * (l, r) and copies the sum to (r, l). Each unordered pair of distinct taxa is
   * visited twice, so it grows by twice the increment; the diagonal grows by it
   * once. Even, symmetric denominators stay even and symmetric.
   */
  method AccumulateTreeDenominators(all: set<nat>, denom: array2<int>)
    requires denom.Length0 == denom.Length1 && all <= Range(denom.Length0)
    modifies denom
    ensures var x := DenominatorIncrement(|all|);
            forall i, j :: 0 <= i < denom.Length0 && 0 <= j < denom.Length1 ==>
              denom[i, j] == if i in all && j in all then old(denom[Min(i, j), Max(i, j)]) + (if i == j then x else 2 * x)
                             else old(denom[i, j])
    ensures old(EvenSymmetric(denom)) ==> EvenSymmetric(denom)
  {
    var n := denom.Length0;
    var x := DenominatorIncrement(|all|);
    ghost var d0 := IntSnapshot(denom);
    ghost var wasEven := EvenSymmetric(denom);
    var ls := Members(all, n);
    assert DenomsApplied(denom, d0, {}, x);
    ghost var done := AddAllDenominators(denom, d0, x, ls, all);
    DenomsAppliedEverywhere(denom, d0, done, x, all, wasEven);
  }

  /** The outer loop over l of the denominator accumulation. */
  method AddAllDenominators(denom: array2<int>, ghost d0: seq<seq<int>>, x: int, ls: seq<nat>, all: set<nat>)
    returns (ghost done: set<(nat, nat)>)
    requires |d0| == denom.Length0 == denom.Length1 && forall k :: 0 <= k < |d0| ==> |d0[k]| == |d0|
    requires all <= Range(denom.Length0) && ls == Members(all, denom.Length0)
    requires DenomsApplied(denom, d0, {}, x)
    modifies denom
    ensures forall i: nat, j: nat :: (i, j) in done <==> i in all && j in all
    ensures DenomsApplied(denom, d0, done, x)
  {
    done := {};
    var a := 0;
    while a < |ls|
      invariant 0 <= a <= |ls|
      invariant forall i: nat, j: nat :: (i, j) in done <==> i in ls[..a] && j in all
      invariant DenomsApplied(denom, d0, done, x)
    {
      assert ls[a] !in ls[..a];
      done := AddDenominatorRow(denom, d0, done, x, ls, a, all);
      assert ls[..a + 1] == ls[..a] + [ls[a]];
      a := a + 1;
    }
    assert ls[..a] == ls;
  }

  /** The inner loop over r for l = ls[a]. */
  method AddDenominatorRow(denom: array2<int>, ghost d0: seq<seq<int>>, ghost done0: set<(nat, nat)>, x: int,
                           ls: seq<nat>, a: nat, all: set<nat>) returns (ghost done: set<(nat, nat)>)
    requires |d0| == denom.Length0 == denom.Length1 && forall k :: 0 <= k < |d0| ==> |d0[k]| == |d0|
    requires all <= Range(denom.Length0) && ls == Members(all, denom.Length0) && a < |ls|
    requires forall i: nat, j: nat :: (i, j) in done0 <==> i in ls[..a] && j in all
    requires DenomsApplied(denom, d0, done0, x)
    modifies denom
    ensures forall i: nat, j: nat :: (i, j) in done <==> i in ls[..a + 1] && j in all
    ensures DenomsApplied(denom, d0, done, x)
  {
    var l := ls[a];
    done := done0;
    var b := 0;
    while b < |ls|
      invariant 0 <= b <= |ls|
      invariant forall i: nat, j: nat :: (i, j) in done <==> (i in ls[..a] && j in all) || (i == l && j in ls[..b])
      invariant DenomsApplied(denom, d0, done, x)
    {
      var r := ls[b];
      MirrorVisited(done, ls, a, b, all);
      AddDenominatorPair(denom, d0, done, x, l, r);
      DenomRowStep(done, ls, a, b, all);
      done := done + {(l, r)};
      b := b + 1;
    }
    DenomRowDone(done, ls, a, all, denom.Length0);
  }

  /** Processing (ls[a], ls[b]) extends the pairs of row ls[a] by one. */
  lemma DenomRowStep(done: set<(nat, nat)>, ls: seq<nat>, a: nat, b: nat, all: set<nat>)
    requires a < |ls| && b < |ls|
    requires forall i: nat, j: nat :: (i, j) in done <==> (i in ls[..a] && j in all) || (i == ls[a] && j in ls[..b])
    ensures forall i: nat, j: nat :: (i, j) in done + {(ls[a], ls[b])} <==>
              (i in ls[..a] && j in all) || (i == ls[a] && j in ls[..b + 1])
  {
    assert ls[..b + 1] == ls[..b] + [ls[b]];
  }

  /** After the whole row the pairs processed are those of the first a + 1 rows. */
  lemma DenomRowDone(done: set<(nat, nat)>, ls: seq<nat>, a: nat, all: set<nat>, n: nat)
    requires all <= Range(n) && ls == Members(all, n) && a < |ls|
    requires forall i: nat, j: nat :: (i, j) in done <==> (i in ls[..a] && j in all) || (i == ls[a] && j in ls[..|ls|])
    ensures forall i: nat, j: nat :: (i, j) in done <==> i in ls[..a + 1] && j in all
  {
    assert ls[..|ls|] == ls;
    assert ls[..a + 1] == ls[..a] + [ls[a]];
  }

  /** The body of the inner loop: `denom[l][r] += x; denom[r][l] = denom[l][r]`. */
  method AddDenominatorPair(denom: array2<int>, ghost d0: seq<seq<int>>, ghost done: set<(nat, nat)>, x: int, l: nat, r: nat)
    requires |d0| == denom.Length0 == denom.Length1 && forall k :: 0 <= k < |d0| ==> |d0[k]| == |d0|
    requires l < |d0| && r < |d0|
    requires (l, r) !in done && (l != r ==> ((r, l) in done <==> r < l))
    requires DenomsApplied(denom, d0, done, x)
    modifies denom
    ensures DenomsApplied(denom, d0, done + {(l, r)}, x)
  {
    DenomStep(denom, d0, done, x, l, r);
    denom[l, r] := denom[l, r] + x;
    denom[r, l] := denom[l, r];
  }

  /**
   * Processing (l, r) with l = ls[a], r = ls[b]: the mirrored pair (r, l) was
   * processed already exactly when r < l, so both entries move to the next count.
   */
  lemma DenomStep(d: array2<int>, d0: seq<seq<int>>, done: set<(nat, nat)>, x: int, l: nat, r: nat)
    requires |d0| == d.Length0 == d.Length1 && forall k :: 0 <= k < |d0| ==> |d0[k]| == |d0|
    requires l < |d0| && r < |d0|
    requires (l, r) !in done && (l != r ==> ((r, l) in done <==> r < l))
    requires DenomsApplied(d, d0, done, x)
    ensures d[l, r] + x == DenomTarget(d0, done + {(l, r)}, x, l, r) == DenomTarget(d0, done + {(l, r)}, x, r, l)
    ensures forall i, j :: 0 <= i < |d0| && 0 <= j < |d0| && (i, j) != (l, r) && (i, j) != (r, l) ==>
              DenomTarget(d0, done + {(l, r)}, x, i, j) == DenomTarget(d0, done, x, i, j)
  {
    assert d[l, r] == DenomTarget(d0, done, x, l, r);
    forall i, j | 0 <= i < |d0| && 0 <= j < |d0| && (i, j) != (l, r) && (i, j) != (r, l)
      ensures Visits(done + {(l, r)}, i, j) == Visits(done, i, j)
    {
    }
  }

  /** In the ascending visit, (l, r) is not processed yet, and its mirror (r, l) already is exactly when r < l. */
  lemma MirrorVisited(done: set<(nat, nat)>, ls: seq<nat>, a: nat, b: nat, all: set<nat>)
    requires forall i, j :: 0 <= i < j < |ls| ==> ls[i] < ls[j]
    requires forall i :: 0 <= i < |ls| ==> ls[i] in all
    requires a < |ls| && b < |ls|
    requires forall i: nat, j: nat :: (i, j) in done <==> (i in ls[..a] && j in all) || (i == ls[a] && j in ls[..b])
    ensures (ls[a], ls[b]) !in done
    ensures ls[b] != ls[a] ==> ((ls[b], ls[a]) in done <==> ls[b] < ls[a])
  {
    var l, r := ls[a], ls[b];
    assert l !in ls[..a];
    assert r !in ls[..b];
    if r < l {
      assert r in ls[..a];
    } else if r > l {
      assert r !in ls[..a] by {
        forall i | 0 <= i < a ensures ls[i] != r {
          assert ls[i] < ls[a];
        }
      }
    }
  }

  /** Once every ordered pair of the tree's taxa is processed, each entry between two of them has its final count. */
  lemma DenomsAppliedEverywhere(d: array2<int>, d0: seq<seq<int>>, done: set<(nat, nat)>, x: int, all: set<nat>, wasEven: bool)
    requires |d0| == d.Length0 == d.Length1 && forall k :: 0 <= k < |d0| ==> |d0[k]| == |d0|
    requires forall i: nat, j: nat :: (i, j) in done <==> i in all && j in all
    requires DenomsApplied(d, d0, done, x)
    requires wasEven <==> forall i, j :: 0 <= i < |d0| && 0 <= j < |d0| ==> d0[i][j] == d0[j][i] && (i != j ==> d0[i][j] % 2 == 0)
    ensures forall i, j :: 0 <= i < d.Length0 && 0 <= j < d.Length1 ==>
              d[i, j] == if i in all && j in all then d0[Min(i, j)][Max(i, j)] + (if i == j then x else 2 * x)
                         else d0[i][j]
    ensures wasEven ==> EvenSymmetric(d)
  {
    forall i, j | 0 <= i < d.Length0 && 0 <= j < d.Length1
      ensures d[i, j] == if i in all && j in all then d0[Min(i, j)][Max(i, j)] + (if i == j then x else 2 * x)
                         else d0[i][j]
    {
      assert d[i, j] == DenomTarget(d0, done, x, i, j);
    }
    if wasEven {
      forall i, j | 0 <= i < d.Length0 && 0 <= j < d.Length0
        ensures d[i, j] == d[j, i] && (i != j ==> d[i, j] % 2 == 0)
      {
        assert d[i, j] == DenomTarget(d0, done, x, i, j);
        assert d[j, i] == DenomTarget(d0, done, x, j, i);
        if i != j {
          assert d0[Min(i, j)][Max(i, j)] % 2 == 0;
        }
      }
    }
  }

  /**
   * The normalised similarity of a pair: 1 on the diagonal, 0 when no tree
   * contributes a denominator, else the quartet count divided by half the
   * denominator (Java `long` division).
   */
  function Normalised(count: real, denom: int, diagonal: bool): (r: real)
    requires diagonal || denom == 0 || JavaDiv(denom, 2) != 0
    ensures diagonal ==> r == 1.0
    ensures !diagonal && denom == 0 ==> r == 0.0
    ensures !diagonal && denom != 0 ==> r * (JavaDiv(denom, 2) as real) == count
  {
    if diagonal then 1.0 else if denom == 0 then 0.0 else count / (JavaDiv(denom, 2) as real)
  }

  /** Half of an even nonzero denominator is nonzero, and it is exact. */
  lemma HalfOfEven(d: int)
    requires d % 2 == 0
    ensures JavaDiv(d, 2) * 2 == d
    ensures d != 0 ==> JavaDiv(d, 2) != 0
  {
    JavaDivTowardZero(d, 2);
  }

  /** The upper-triangle denominators are even. */
  predicate EvenAbove(d: array2<int>)
    reads d
  {
    forall i, j :: 0 <= i < j < d.Length0 && j < d.Length1 ==> d[i, j] % 2 == 0
  }

  /** The entry (i, j) once pair (Min, Max) has been normalised, from the old upper-triangle count. */
  ghost function NormTarget(m0: seq<seq<real>>, d: seq<seq<int>>, i: nat, j: nat): real
    requires i < |m0| && j < |m0| && |d| == |m0|
    requires forall k :: 0 <= k < |m0| ==> |m0[k]| == |m0| && |d[k]| == |m0|
    requires forall p, q :: 0 <= p < q < |d| ==> d[p][q] % 2 == 0
  {
    var u, v := Min(i, j), Max(i, j);
    HalfOfEven(if u == v then 0 else d[u][v]);
    Normalised(m0[u][v], d[u][v], u == v)
  }

  /** Pair (u, v), u <= v, comes before (i, j) in the row-major walk of the upper triangle. */
  predicate NormDone(u: nat, v: nat, i: nat, j: nat)
  {
    u < i || (u == i && v < j)
  }

  /** Entries of processed pairs hold their normalised value, the others their old count. */
  ghost predicate NormApplied(m: array2<real>, m0: seq<seq<real>>, d: seq<seq<int>>, i: nat, j: nat)
    reads m
    requires |m0| == m.Length0 == m.Length1 && |d| == |m0|
    requires forall k :: 0 <= k < |m0| ==> |m0[k]| == |m0| && |d[k]| == |m0|
    requires forall p, q :: 0 <= p < q < |d| ==> d[p][q] % 2 == 0
  {
    forall p, q :: 0 <= p < m.Length0 && 0 <= q < m.Length1 ==>
      m[p, q] == if NormDone(Min(p, q), Max(p, q), i, j) then NormTarget(m0, d, p, q) else m0[p][q]
  }

  /**
   * The normalisation at the end of `populateByQuartetDistance`: walks the
   * upper triangle, divides each count by half its denominator (0 for a zero
   * denominator), puts 1 on the diagonal and mirrors each value below the
   * diagonal. The denominators it is given are even above the diagonal, as
   * `AccumulateTreeDenominators` keeps them, so every division is exact and by
   * a nonzero number. The result is symmetric with a unit diagonal.
   */
  method Normalise(sim: array2<real>, denom: array2<int>)
    requires sim.Length0 == sim.Length1 == denom.Length0 == denom.Length1
    requires EvenAbove(denom)
    modifies sim
    ensures forall i, j :: 0 <= i < sim.Length0 && 0 <= j < sim.Length1 ==>
              var u, v := Min(i, j), Max(i, j);
              (u == v || denom[u, v] == 0 || JavaDiv(denom[u, v], 2) != 0) &&
              sim[i, j] == Normalised(old(sim[u, v]), denom[u, v], u == v)
    ensures Symmetric(sim)
    ensures forall i :: 0 <= i < sim.Length0 ==> sim[i, i] == 1.0
    ensures forall i, j :: 0 <= i < sim.Length0 && 0 <= j < sim.Length1 && i != j && denom[Min(i, j), Max(i, j)] == 0 ==>
              sim[i, j] == 0.0
  {
    var n := sim.Length0;
    ghost var m0 := Snapshot(sim);
    ghost var d := IntSnapshot(denom);
    var i := 0;
    assert NormApplied(sim, m0, d, 0, 0);
    while i < n
      invariant 0 <= i <= n
      invariant NormApplied(sim, m0, d, i, i)
    {
      NormaliseRow(sim, denom, m0, d, i);
      assert NormApplied(sim, m0, d, i + 1, i + 1) by {
        NormRowDone(sim, m0, d, i);
      }
      i := i + 1;
    }
    NormAppliedEverywhere(sim, denom, m0, d);
  }

  /** The inner loop for row i: the pairs (i, j), j = i..n-1. */
  method NormaliseRow(sim: array2<real>, denom: array2<int>, ghost m0: seq<seq<real>>, ghost d: seq<seq<int>>, i: nat)
    requires sim.Length0 == sim.Length1 == denom.Length0 == denom.Length1 && i < sim.Length0
    requires |m0| == sim.Length0 && |d| == |m0|
    requires forall k :: 0 <= k < |m0| ==> |m0[k]| == |m0| && |d[k]| == |m0|
    requires forall p, q :: 0 <= p < |d| && 0 <= q < |d| ==> d[p][q] == denom[p, q]
    requires forall p, q :: 0 <= p < q < |d| ==> d[p][q] % 2 == 0
    requires NormApplied(sim, m0, d, i, i)
    modifies sim
    ensures NormApplied(sim, m0, d, i, sim.Length0)
  {
    var n := sim.Length0;
    var j := i;
    while j < n
      invariant i <= j <= n
      invariant NormApplied(sim, m0, d, i, j)
    {
      NormalisePair(sim, denom, m0, d, i, j);
      j := j + 1;
    }
  }

  /** One step: the new value of (i, j) from its current count, copied to (j, i). */
  method NormalisePair(sim: array2<real>, denom: array2<int>, ghost m0: seq<seq<real>>, ghost d: seq<seq<int>>, i: nat, j: nat)
    requires sim.Length0 == sim.Length1 == denom.Length0 == denom.Length1 && i <= j < sim.Length0
    requires |m0| == sim.Length0 && |d| == |m0|
    requires forall k :: 0 <= k < |m0| ==> |m0[k]| == |m0| && |d[k]| == |m0|
    requires forall p, q :: 0 <= p < |d| && 0 <= q < |d| ==> d[p][q] == denom[p, q]
    requires forall p, q :: 0 <= p < q < |d| ==> d[p][q] % 2 == 0
    requires NormApplied(sim, m0, d, i, j)
    modifies sim
    ensures NormApplied(sim, m0, d, i, j + 1)
  {
    assert sim[i, j] == m0[i][j];
    HalfOfEven(if i == j then 0 else denom[i, j]);
    var v := if i == j then 1.0 else if denom[i, j] == 0 then 0.0 else sim[i, j] / (JavaDiv(denom[i, j], 2) as real);
    assert v == NormTarget(m0, d, i, j) == NormTarget(m0, d, j, i);
    sim[i, j] := v;
    sim[j, i] := v;
  }

  /** Finishing row i is the same as starting row i + 1. */
  lemma NormRowDone(m: array2<real>, m0: seq<seq<real>>, d: seq<seq<int>>, i: nat)
    requires |m0| == m.Length0 == m.Length1 && |d| == |m0| && i < |m0|
    requires forall k :: 0 <= k < |m0| ==> |m0[k]| == |m0| && |d[k]| == |m0|
    requires forall p, q :: 0 <= p < q < |d| ==> d[p][q] % 2 == 0
    requires NormApplied(m, m0, d, i, m.Length0)
    ensures NormApplied(m, m0, d, i + 1, i + 1)
  {
    forall p, q | 0 <= p < m.Length0 && 0 <= q < m.Length1
      ensures NormDone(Min(p, q), Max(p, q), i, m.Length0) == NormDone(Min(p, q), Max(p, q), i + 1, i + 1)
    {
    }
  }

  /** After the last row every pair is normalised. */
  lemma NormAppliedEverywhere(m: array2<real>, denom: array2<int>, m0: seq<seq<real>>, d: seq<seq<int>>)
    requires |m0| == m.Length0 == m.Length1 == denom.Length0 == denom.Length1 && |d| == |m0|
    requires forall k :: 0 <= k < |m0| ==> |m0[k]| == |m0| && |d[k]| == |m0|
    requires forall p, q :: 0 <= p < |d| && 0 <= q < |d| ==> d[p][q] == denom[p, q]
    requires forall p, q :: 0 <= p < q < |d| ==> d[p][q] % 2 == 0
    requires NormApplied(m, m0, d, m.Length0, m.Length0)
    ensures forall i, j :: 0 <= i < m.Length0 && 0 <= j < m.Length1 ==>
              var u, v := Min(i, j), Max(i, j);
              (u == v || denom[u, v] == 0 || JavaDiv(denom[u, v], 2) != 0) &&
              m[i, j] == Normalised(m0[u][v], denom[u, v], u == v)
    ensures Symmetric(m)
  {
    forall i, j | 0 <= i < m.Length0 && 0 <= j < m.Length1
      ensures var u, v := Min(i, j), Max(i, j);
              (u == v || denom[u, v] == 0 || JavaDiv(denom[u, v], 2) != 0) &&
              m[i, j] == Normalised(m0[u][v], denom[u, v], u == v)
    {
      var u, v := Min(i, j), Max(i, j);
      HalfOfEven(if u == v then 0 else d[u][v]);
      assert m[i, j] == NormTarget(m0, d, i, j);
    }
  }

  // ---------------------------------------------------------------------------
  // The induced sub-matrix
  // ---------------------------------------------------------------------------

  /** The sample gives distinct taxa distinct indices inside the sample's size. */
  predicate SampleIndices(sample: map<string, nat>)
  {
    (forall a :: a in sample ==> sample[a] < |sample|) &&
    forall a, b :: a in sample && b in sample && a != b ==> sample[a] != sample[b]
  }

  /** The row indices already written for the taxa of `rows`. */
  ghost function IndicesOf(sample: map<string, nat>, rows: set<string>): set<nat>
  {
    set a | a in rows && a in sample :: sample[a]
  }

  /**
   * `getInducedMatrix`: a fresh |sample| x |sample| matrix, zero-filled, whose
   * entry at the indices of taxa a and b is the similarity of a and b. Entries
   * at indices no taxon has stay 0; `SampleIndicesCover` shows there are none
   * when the indices are distinct.
   */
  method GetInducedMatrix(sim: array2<real>, sample: map<string, nat>, taxonId: string -> nat) returns (r: array2<real>)
    requires SampleIndices(sample)
    requires forall a :: a in sample ==> taxonId(a) < sim.Length0 && taxonId(a) < sim.Length1
    ensures fresh(r) && r.Length0 == |sample| && r.Length1 == |sample|
    ensures forall a, b :: a in sample && b in sample ==> r[sample[a], sample[b]] == sim[taxonId(a), taxonId(b)]
    ensures forall i, j :: 0 <= i < |sample| && 0 <= j < |sample| && (i !in sample.Values || j !in sample.Values) ==>
              r[i, j] == 0.0
  {
    var size := |sample|;
    r := new real[size, size]((i, j) => 0.0);
    var doneRows: set<string> := {};
    assert ZeroOutside(r, sample, doneRows);
    while doneRows != sample.Keys
      invariant doneRows <= sample.Keys
      invariant RowsFilled(r, sim, sample, taxonId, doneRows)
      invariant ZeroOutside(r, sample, doneRows)
      decreases sample.Keys - doneRows
    {
      SomeLeft(sample.Keys, doneRows);
      var a :| a in sample.Keys - doneRows;
      FillInducedRow(r, sim, sample, taxonId, a, doneRows);
      doneRows := doneRows + {a};
    }
    InducedComplete(r, sim, sample, taxonId);
  }

  /** With every row filled, the entries are the similarities of the taxa holding their indices, and 0 elsewhere. */
  lemma InducedComplete(r: array2<real>, sim: array2<real>, sample: map<string, nat>, taxonId: string -> nat)
    requires SampleIndices(sample) && r.Length0 == |sample| && r.Length1 == |sample|
    requires forall x :: x in sample ==> taxonId(x) < sim.Length0 && taxonId(x) < sim.Length1
    requires RowsFilled(r, sim, sample, taxonId, sample.Keys)
    requires ZeroOutside(r, sample, sample.Keys)
    ensures forall a, b :: a in sample && b in sample ==> r[sample[a], sample[b]] == sim[taxonId(a), taxonId(b)]
    ensures forall i, j :: 0 <= i < |sample| && 0 <= j < |sample| && (i !in sample.Values || j !in sample.Values) ==>
              r[i, j] == 0.0
  {
    assert IndicesOf(sample, sample.Keys) == sample.Values;
  }

  /** The rows of the taxa of `rows` hold their similarities. */
  ghost predicate RowsFilled(r: array2<real>, sim: array2<real>, sample: map<string, nat>, taxonId: string -> nat, rows: set<string>)
    reads r, sim
    requires SampleIndices(sample) && r.Length0 == |sample| && r.Length1 == |sample|
    requires forall x :: x in sample ==> taxonId(x) < sim.Length0 && taxonId(x) < sim.Length1
  {
    forall x, b :: x in rows && x in sample && b in sample ==> r[sample[x], sample[b]] == sim[taxonId(x), taxonId(b)]
  }

  /** Entries outside the filled rows, or in columns no taxon has, are 0. */
  ghost predicate ZeroOutside(r: array2<real>, sample: map<string, nat>, rows: set<string>)
    reads r
    requires r.Length0 == |sample| && r.Length1 == |sample|
  {
    forall p, q :: 0 <= p < |sample| && 0 <= q < |sample| ==>
      ((p !in IndicesOf(sample, rows) || q !in sample.Values) ==> r[p, q] == 0.0)
  }

  /** Entries not yet written are 0: outside the filled rows, and in row `i` outside the written columns. */
  ghost predicate ZeroElsewhere(r: array2<real>, sample: map<string, nat>, rows: set<string>, i: nat, cols: set<string>)
    reads r
    requires r.Length0 == |sample| && r.Length1 == |sample|
  {
    forall p, q :: 0 <= p < |sample| && 0 <= q < |sample| ==>
      ((p !in IndicesOf(sample, rows) || q !in sample.Values) && !(p == i && q in IndicesOf(sample, cols)) ==> r[p, q] == 0.0)
  }

  /** The inner loop for the row of taxon `a`: every column entry of the sample. */
  method FillInducedRow(r: array2<real>, sim: array2<real>, sample: map<string, nat>, taxonId: string -> nat,
                        a: string, ghost doneRows: set<string>)
    requires SampleIndices(sample) && a in sample && a !in doneRows && doneRows <= sample.Keys
    requires forall x :: x in sample ==> taxonId(x) < sim.Length0 && taxonId(x) < sim.Length1
    requires r.Length0 == |sample| && r.Length1 == |sample| && r != sim
    requires RowsFilled(r, sim, sample, taxonId, doneRows)
    requires ZeroOutside(r, sample, doneRows)
    modifies r
    ensures RowsFilled(r, sim, sample, taxonId, doneRows + {a})
    ensures ZeroOutside(r, sample, doneRows + {a})
  {
    var i := sample[a];
    var doneCols: set<string> := {};
    assert IndicesOf(sample, doneCols) == {};
    while doneCols != sample.Keys
      invariant doneCols <= sample.Keys
      invariant RowsFilled(r, sim, sample, taxonId, doneRows)
      invariant forall b :: b in doneCols ==> r[i, sample[b]] == sim[taxonId(a), taxonId(b)]
      invariant ZeroElsewhere(r, sample, doneRows, i, doneCols)
      decreases sample.Keys - doneCols
    {
      SomeLeft(sample.Keys, doneCols);
      var b :| b in sample.Keys - doneCols;
      WriteInducedEntry(r, sim, sample, taxonId, a, b, doneRows, doneCols);
      doneCols := doneCols + {b};
    }
    RowComplete(r, sim, sample, taxonId, a, doneRows, doneCols);
  }

  /** One write `sampleSimMatrix[i][col.getValue()] = similarityMatrix[rowI][colJ]` of the inner loop. */
  method WriteInducedEntry(r: array2<real>, sim: array2<real>, sample: map<string, nat>, taxonId: string -> nat,
                           a: string, b: string, ghost doneRows: set<string>, ghost doneCols: set<string>)
    requires SampleIndices(sample) && a in sample && b in sample && a !in doneRows && b !in doneCols
    requires doneRows <= sample.Keys && doneCols <= sample.Keys
    requires forall x :: x in sample ==> taxonId(x) < sim.Length0 && taxonId(x) < sim.Length1
    requires r.Length0 == |sample| && r.Length1 == |sample| && r != sim
    requires RowsFilled(r, sim, sample, taxonId, doneRows)
    requires forall c :: c in doneCols ==> r[sample[a], sample[c]] == sim[taxonId(a), taxonId(c)]
    requires ZeroElsewhere(r, sample, doneRows, sample[a], doneCols)
    modifies r
    ensures RowsFilled(r, sim, sample, taxonId, doneRows)
    ensures forall c :: c in doneCols + {b} ==> r[sample[a], sample[c]] == sim[taxonId(a), taxonId(c)]
    ensures ZeroElsewhere(r, sample, doneRows, sample[a], doneCols + {b})
  {
    var i := sample[a];
    assert i !in IndicesOf(sample, doneRows);
    assert forall c :: c in doneCols ==> sample[c] != sample[b];
    assert IndicesOf(sample, doneCols + {b}) == IndicesOf(sample, doneCols) + {sample[b]};
    r[i, sample[b]] := sim[taxonId(a), taxonId(b)];
  }

  /** Once every column is written, row `i` joins the filled rows. */
  lemma RowComplete(r: array2<real>, sim: array2<real>, sample: map<string, nat>, taxonId: string -> nat,
                    a: string, doneRows: set<string>, doneCols: set<string>)
    requires SampleIndices(sample) && a in sample && doneCols == sample.Keys && doneRows <= sample.Keys
    requires forall x :: x in sample ==> taxonId(x) < sim.Length0 && taxonId(x) < sim.Length1
    requires r.Length0 == |sample| && r.Length1 == |sample|
    requires RowsFilled(r, sim, sample, taxonId, doneRows)
    requires forall c :: c in doneCols ==> r[sample[a], sample[c]] == sim[taxonId(a), taxonId(c)]
    requires ZeroElsewhere(r, sample, doneRows, sample[a], doneCols)
    ensures RowsFilled(r, sim, sample, taxonId, doneRows + {a})
    ensures ZeroOutside(r, sample, doneRows + {a})
  {
    assert IndicesOf(sample, doneCols) == sample.Values;
    assert IndicesOf(sample, doneRows + {a}) == IndicesOf(sample, doneRows) + {sample[a]};
  }

  /** A proper subset leaves something out. */
  lemma SomeLeft<T>(all: set<T>, done: set<T>)
    requires done <= all && done != all
    ensures all - done != {}
  {
    assert done < all;
    assert |all - done| == |all| - |done|;
  }

  /** Distinct indices below the sample's size are exactly 0..|sample|-1: every entry of the induced matrix is written. */
  lemma SampleIndicesCover(sample: map<string, nat>)
    requires SampleIndices(sample)
    ensures sample.Values == Range(|sample|)
  {
    InjectiveValues(sample);
    assert sample.Values <= Range(|sample|);
    SubsetOfSameSize(sample.Values, Range(|sample|));
  }

  /** A map giving distinct keys distinct values has as many values as keys. */
  lemma {:induction false} InjectiveValues<K>(m: map<K, nat>)
    requires forall a, b :: a in m && b in m && a != b ==> m[a] != m[b]
    ensures |m.Values| == |m|
  {
    if |m| > 0 {
      var a :| a in m;
      var rest := m - {a};
      InjectiveValues(rest);
      assert m.Values == rest.Values + {m[a]};
      assert m[a] !in rest.Values;
    }
  }

  /** A subset as large as its superset is the superset. */
  lemma SubsetOfSameSize(a: set<nat>, b: set<nat>)
    requires a <= b && |a| == |b|
    ensures a == b
  {
    assert |b - a| == |b| - |a|;
  }

  // ---------------------------------------------------------------------------
  // Nested prefix bitsets
  // ---------------------------------------------------------------------------

  /** The head of an ordered list goes before every other element of it. */
  lemma OrderedHead(s: seq<nat>, y: nat, js: seq<real>, largerFirst: bool)
    requires Ordered(s, js, largerFirst) && |s| > 0 && y in s
    ensures y != s[0] ==> Before(js, s[0], y, largerFirst)
  {
    var i :| 0 <= i < |s| && s[i] == y;
  }

  /** Two lists that both follow the comparator and hold the same indices are the same list. */
  lemma {:induction false} OrderedUnique(a: seq<nat>, b: seq<nat>, js: seq<real>, largerFirst: bool)
    requires Within(a, js) && Within(b, js)
    requires Ordered(a, js, largerFirst) && Ordered(b, js, largerFirst)
    requires forall y :: y in a <==> y in b
    ensures a == b
  {
    assert |b| == 0 || b[0] in a;
    if |a| > 0 {
      assert a[0] in b;
      OrderedHead(a, b[0], js, largerFirst);
      OrderedHead(b, a[0], js, largerFirst);
      BeforeIsStrictTotal(js, a[0], b[0], largerFirst);
      assert a[0] == b[0];
      OrderedDistinct(a, js, largerFirst);
      OrderedDistinct(b, js, largerFirst);
      forall y ensures y in a[1..] <==> y in b[1..] {
        if y in a[1..] {
          var k :| 0 <= k < |a[1..]| && a[1..][k] == y;
          assert a[k + 1] == y && y != a[0] && y in a && y in b;
          var m :| 0 <= m < |b| && b[m] == y;
          assert m != 0 && b[1..][m - 1] == y;
        }
        if y in b[1..] {
          var k :| 0 <= k < |b[1..]| && b[1..][k] == y;
          assert b[k + 1] == y && y != b[0] && y in b && y in a;
          var m :| 0 <= m < |a| && a[m] == y;
          assert m != 0 && a[1..][m - 1] == y;
        }
      }
      OrderedUnique(a[1..], b[1..], js, largerFirst);
      assert a == [a[0]] + a[1..] && b == [b[0]] + b[1..];
    }
  }

  /** The indices 0..n-1, as `inds` starts. */
  function Indices(n: nat): (r: seq<nat>)
    ensures |r| == n && Distinct(r)
    ensures forall i :: 0 <= i < n ==> r[i] == i
    ensures forall y: nat :: y in r <==> y < n
  {
    if n == 0 then [] else Indices(n - 1) + [n - 1]
  }

  /**
   * The order `getQuadraticBitsets` gives the indices for row `fs`: most similar
   * first, ties broken by the smaller index first.
   */
  function QuadraticOrder(fs: seq<real>): (r: seq<nat>)
    ensures Within(r, fs) && Ordered(r, fs, false) && Distinct(r)
    ensures |r| == |fs| && forall y: nat :: y in r <==> y < |fs|
  {
    var r := SortBy(Indices(|fs|), fs, false);
    OrderedDistinct(r, fs, false);
    r
  }

  /** The set of the first k entries of `o`. */
  function PrefixSet(o: seq<nat>, k: nat): set<nat>
    requires k <= |o|
  {
    set i | 0 <= i < k :: o[i]
  }

  /** For a list without repeats, the first k entries are k distinct ids, and each prefix set grows by one. */
  lemma {:induction false} PrefixSetSize(o: seq<nat>, k: nat)
    requires Distinct(o) && k <= |o|
    ensures |PrefixSet(o, k)| == k
    ensures k > 0 ==> PrefixSet(o, k) == PrefixSet(o, k - 1) + {o[k - 1]} && o[k - 1] !in PrefixSet(o, k - 1)
  {
    if k > 0 {
      PrefixSetSize(o, k - 1);
      assert PrefixSet(o, k) == PrefixSet(o, k - 1) + {o[k - 1]};
    } else {
      assert PrefixSet(o, 0) == {};
    }
  }

  /**
   * The inner loop of `getQuadraticBitsets`: sets the ids of `o` one by one in
   * a bitset and emits a copy after each, so the k-th copy (from 0) holds the
   * first k+1 ids. For an order without repeats the copies have sizes 1, 2, ...,
   * each contains the one before, and the last holds every id of `o`.
   */
  method NestedPrefixes(o: seq<nat>) returns (out: seq<set<nat>>)
    ensures |out| == |o|
    ensures forall k :: 0 <= k < |o| ==> out[k] == PrefixSet(o, k + 1)
    ensures Distinct(o) ==> forall k :: 0 <= k < |o| ==> |out[k]| == k + 1
    ensures forall k :: 0 < k < |o| ==> out[k - 1] <= out[k]
    ensures |o| > 0 ==> out[|o| - 1] == set x | x in o
  {
    var stBS: set<nat> := {};
    out := [];
    var t := 0;
    while t < |o|
      invariant 0 <= t <= |o| && |out| == t
      invariant stBS == PrefixSet(o, t)
      invariant forall k :: 0 <= k < t ==> out[k] == PrefixSet(o, k + 1)
    {
      stBS := stBS + {o[t]};
      assert stBS == PrefixSet(o, t + 1);
      out := out + [stBS];
      t := t + 1;
    }
    forall k | 0 <= k < |o|
      ensures Distinct(o) ==> |out[k]| == k + 1
      ensures k > 0 ==> out[k - 1] <= out[k]
    {
      if Distinct(o) {
        PrefixSetSize(o, k + 1);
      }
    }
    if |o| > 0 {
      assert PrefixSet(o, |o|) == set x | x in o by {
        forall x | x in o ensures x in PrefixSet(o, |o|) {
          var i :| 0 <= i < |o| && o[i] == x;
        }
      }
    }
  }

  /**
   * `row` is what one row `fs` of an n-by-n matrix contributes: the nested
   * prefix bitsets of its quadratic order, of sizes 1..n, each containing the
   * one before, the last holding every id.
   */
  ghost predicate RowBitsetsOf(row: seq<set<nat>>, fs: seq<real>, n: nat)
  {
    |fs| == n && |row| == n &&
    forall k :: 0 <= k < n ==>
      row[k] == PrefixSet(QuadraticOrder(fs), k + 1) && |row[k]| == k + 1 &&
      (k > 0 ==> row[k - 1] <= row[k]) && (k == n - 1 ==> row[k] == Range(n))
  }

  lemma MonotoneProduct(a: nat, b: nat, n: nat)
    requires a <= b
    ensures a * n <= b * n
  {
  }

  /** Appending one more block of n leaves the earlier blocks where they were. */
  lemma BlockKept(bs: seq<set<nat>>, row: seq<set<nat>>, n: nat, q: nat, r: nat)
    requires |bs| == r * n && q < r
    ensures q * n + n <= |bs|
    ensures (bs + row)[q * n .. q * n + n] == bs[q * n .. q * n + n]
  {
    MonotoneProduct(q + 1, r, n);
    assert (q + 1) * n == q * n + n;
  }

  /** Blocks 0..r-1 of `bs` are the bitsets of rows 0..r-1 of `sim`. */
  ghost predicate BlocksFilled(bs: seq<set<nat>>, sim: array2<real>, r: nat)
    reads sim
    requires sim.Length0 == sim.Length1 && r <= sim.Length0
  {
    var n := sim.Length0;
    forall q :: 0 <= q < r ==> q * n + n <= |bs| && RowBitsetsOf(bs[q * n .. q * n + n], Row(sim, q), n)
  }

  /** Appending the block of row r extends the filled blocks by one. */
  lemma BlocksExtend(bs: seq<set<nat>>, row: seq<set<nat>>, sim: array2<real>, r: nat)
    requires sim.Length0 == sim.Length1 && r < sim.Length0
    requires |bs| == r * sim.Length0 && BlocksFilled(bs, sim, r)
    requires RowBitsetsOf(row, Row(sim, r), sim.Length0)
    ensures |bs + row| == (r + 1) * sim.Length0 && BlocksFilled(bs + row, sim, r + 1)
  {
    var n := sim.Length0;
    forall q | 0 <= q < r
      ensures q * n + n <= |bs + row| && RowBitsetsOf((bs + row)[q * n .. q * n + n], Row(sim, q), n)
    {
      BlockKept(bs, row, n, q, r);
    }
    assert (bs + row)[r * n .. r * n + n] == row;
    assert (r + 1) * n == r * n + n;
  }

  /** One row of `getQuadraticBitsets`: re-sort the indices by `fs`, then emit the prefixes. */
  method QuadraticRow(inds: seq<nat>, fs: seq<real>) returns (order: seq<nat>, row: seq<set<nat>>)
    requires |inds| == |fs| && Distinct(inds) && forall y: nat :: y in inds <==> y < |fs|
    ensures order == QuadraticOrder(fs)
    ensures RowBitsetsOf(row, fs, |fs|)
  {
    var n := |fs|;
    assert Within(inds, fs) by {
      assert forall i :: 0 <= i < |inds| ==> inds[i] in inds;
    }
    order := SortBy(inds, fs, false);
    OrderedUnique(order, QuadraticOrder(fs), fs, false);
    row := NestedPrefixes(order);
    PrefixesAreRow(order, row, fs);
  }

  /** The nested prefixes of the quadratic order are the row's bitsets. */
  lemma PrefixesAreRow(order: seq<nat>, row: seq<set<nat>>, fs: seq<real>)
    requires order == QuadraticOrder(fs) && |row| == |order|
    requires forall k :: 0 <= k < |order| ==> row[k] == PrefixSet(order, k + 1)
    requires Distinct(order) ==> forall k :: 0 <= k < |order| ==> |row[k]| == k + 1
    requires forall k :: 0 < k < |order| ==> row[k - 1] <= row[k]
    requires |order| > 0 ==> row[|order| - 1] == set x | x in order
    ensures RowBitsetsOf(row, fs, |fs|)
  {
    if |order| > 0 {
      assert (set x | x in order) == Range(|fs|);
    }
  }

  /**
   * `getQuadraticBitsets`: for each row of the matrix, the indices sorted by that
   * row (most similar first, smaller index first on ties) and the n nested
   * prefix bitsets of that order, appended block by block: the block of row r
   * sits at positions r*n .. r*n + n - 1.
   */
  method GetQuadraticBitsets(sim: array2<real>) returns (bs: seq<set<nat>>)
    requires sim.Length0 == sim.Length1
    ensures |bs| == sim.Length0 * sim.Length0
    ensures forall r :: 0 <= r < sim.Length0 ==>
              r * sim.Length0 + sim.Length0 <= |bs| &&
              RowBitsetsOf(bs[r * sim.Length0 .. r * sim.Length0 + sim.Length0], Row(sim, r), sim.Length0)
  {
    var n := sim.Length0;
    var inds: seq<nat> := Indices(n);
    bs := [];
    var r := 0;
    while r < n
      invariant 0 <= r <= n && |bs| == r * n
      invariant |inds| == n && Distinct(inds) && forall y: nat :: y in inds <==> y < n
      invariant BlocksFilled(bs, sim, r)
    {
      var row;
      inds, row := QuadraticRow(inds, Row(sim, r));
      BlocksExtend(bs, row, sim, r);
      bs := bs + row;
      r := r + 1;
    }
  }
}
