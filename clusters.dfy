/**
 * Clusters of taxa and the small integer helpers shared by every part of the
 * model. A cluster (an STITreeCluster / BitSet in the program) is a finite set
 * of taxon ids drawn from 0..N-1.
 */
module Clusters {

  type Cluster = set<nat>

  datatype Option<T> = None | Some(value: T)

  /** The taxon set {0, ..., n-1}: what `BitSet.set(0, n)` produces. */
  function Range(n: nat): (r: set<nat>)
    ensures forall i: nat :: i in r <==> i < n
    ensures |r| == n
  {
    if n == 0 then {}
    else
      var below := Range(n - 1);
      assert n - 1 !in below;
      below + {n - 1}
  }

  /** `BitSet.xor`: the elements in exactly one of the two sets. */
  function Xor(a: set<nat>, b: set<nat>): (r: set<nat>)
    ensures forall x :: x in r <==> (x in a) != (x in b)
  {
    (a - b) + (b - a)
  }

  /** Complementing twice gives the set back. */
  lemma XorInvolution(a: set<nat>, b: set<nat>)
    ensures Xor(Xor(a, b), b) == a
  {
  }

  /** `BitSet.flip(0, n)`: complement within 0..n-1, leaving larger ids alone. */
  function Flip(a: set<nat>, n: nat): (r: set<nat>)
    requires a <= Range(n)
    ensures r == Range(n) - a
    ensures |r| == n - |a|
  {
    Xor(a, Range(n))
  }

  /** True when the sets of `xs` are pairwise disjoint. */
  ghost predicate PairwiseDisjoint(xs: seq<set<nat>>)
  {
    forall i, j :: 0 <= i < j < |xs| ==> xs[i] * xs[j] == {}
  }

  /** The union of all sets of `xs`. */
  function UnionAll(xs: seq<set<nat>>): (r: set<nat>)
    ensures forall i :: 0 <= i < |xs| ==> xs[i] <= r
    ensures forall x :: x in r ==> exists i :: 0 <= i < |xs| && x in xs[i]
  {
    if |xs| == 0 then {} else UnionAll(xs[..|xs| - 1]) + xs[|xs| - 1]
  }

  /** The sum of the cardinalities of the sets of `xs`. */
  function SizeSum(xs: seq<set<nat>>): int
  {
    if |xs| == 0 then 0 else SizeSum(xs[..|xs| - 1]) + |xs[|xs| - 1]|
  }

  /** For pairwise disjoint sets the size of the union is the sum of the sizes. */
  lemma {:induction false} DisjointUnionSize(xs: seq<set<nat>>)
    requires PairwiseDisjoint(xs)
    ensures |UnionAll(xs)| == SizeSum(xs)
  {
    if |xs| > 0 {
      var init := xs[..|xs| - 1];
      assert PairwiseDisjoint(init) by {
        forall i, j | 0 <= i < j < |init| ensures init[i] * init[j] == {} {
          assert init[i] == xs[i] && init[j] == xs[j];
        }
      }
      DisjointUnionSize(init);
      var last := xs[|xs| - 1];
      forall x | x in UnionAll(init) ensures x !in last {
        var i :| 0 <= i < |init| && x in init[i];
        assert init[i] == xs[i];
      }
      assert UnionAll(init) * last == {};
    }
  }

  /** The ids of `s` below `bound` in ascending order, as `nextSetBit` visits them. */
  function Members(s: set<nat>, bound: nat): (r: seq<nat>)
    ensures forall i :: 0 <= i < |r| ==> r[i] in s && r[i] < bound
    ensures forall x :: x in s && x < bound ==> x in r
    ensures forall i, j :: 0 <= i < j < |r| ==> r[i] < r[j]
  {
    if bound == 0 then []
    else Members(s, bound - 1) + (if bound - 1 in s then [bound - 1] else [])
  }

  /** Visiting the set bits below `bound` visits exactly |s| of them when all lie below `bound`. */
  lemma {:induction false} MembersLength(s: set<nat>, bound: nat)
    ensures |Members(s, bound)| == |s * Range(bound)|
  {
    if bound > 0 {
      MembersLength(s, bound - 1);
      var top: set<nat> := if bound - 1 in s then {bound - 1} else {};
      MembersStep(s, bound, top);
    }
  }

  lemma MembersStep(s: set<nat>, bound: nat, top: set<nat>)
    requires bound > 0 && top == if bound - 1 in s then {bound - 1} else {}
    ensures |Members(s, bound)| == |Members(s, bound - 1)| + |top|
    ensures s * Range(bound) == s * Range(bound - 1) + top
    ensures (s * Range(bound - 1)) * top == {}
  {
  }

  /** The number of k-element subsets of an n-element set. */
  function Choose(n: nat, k: nat): nat
  {
    if k == 0 then 1 else if n == 0 then 0 else Choose(n - 1, k - 1) + Choose(n - 1, k)
  }

  /** Java's integer division on `long`/`int`, which truncates toward zero. */
  function JavaDiv(a: int, b: int): int
    requires b != 0
  {
    var q := (if a >= 0 then a else -a) / (if b >= 0 then b else -b);
    if (a >= 0) == (b > 0) || a == 0 then q else -q
  }

  /** For a positive divisor the quotient is rounded toward zero, so the remainder takes the sign of `a`. */
  lemma JavaDivTowardZero(a: int, b: int)
    requires b > 0
    ensures a >= 0 ==> 0 <= a - JavaDiv(a, b) * b < b
    ensures a < 0 ==> -b < a - JavaDiv(a, b) * b <= 0
  {
    if a < 0 {
      var q := (-a) / b;
      assert -a == q * b + (-a) % b;
      assert JavaDiv(a, b) == -q;
      assert a - JavaDiv(a, b) * b == -((-a) % b);
    }
  }

  /** The union of a concatenation is the union of the two unions. */
  lemma UnionAllAppend(a: seq<set<nat>>, b: seq<set<nat>>)
    ensures UnionAll(a + b) == UnionAll(a) + UnionAll(b)
  {
    forall x | x in UnionAll(a + b) ensures x in UnionAll(a) + UnionAll(b) {
      var i :| 0 <= i < |a + b| && x in (a + b)[i];
      if i < |a| {
        assert (a + b)[i] == a[i];
      } else {
        assert (a + b)[i] == b[i - |a|];
      }
    }
    forall x | x in UnionAll(a) + UnionAll(b) ensures x in UnionAll(a + b) {
      if x in UnionAll(a) {
        var i :| 0 <= i < |a| && x in a[i];
        assert (a + b)[i] == a[i];
      } else {
        var i :| 0 <= i < |b| && x in b[i];
        assert (a + b)[|a| + i] == b[i];
      }
    }
  }

  /**
   * A list of parts followed by the complement of their union within
   * 0..n-1 when that complement is nonempty: how the program turns the
   * children of a node into the parts around it.
   */
  function WithComplement(parts: seq<set<nat>>, n: nat): (r: seq<set<nat>>)
    ensures |r| == |parts| + (if Range(n) <= UnionAll(parts) then 0 else 1)
    ensures r[..|parts|] == parts
  {
    var rest := Range(n) - UnionAll(parts);
    parts + (if rest == {} then [] else [rest])
  }

  /** Parts within 0..n-1 and their complement cover 0..n-1 exactly. */
  lemma WithComplementCovers(parts: seq<set<nat>>, n: nat)
    requires UnionAll(parts) <= Range(n)
    ensures UnionAll(WithComplement(parts, n)) == Range(n)
  {
    var u := UnionAll(parts);
    var rest := Range(n) - u;
    var r := WithComplement(parts, n);
    if rest != {} {
      assert r == parts + [rest];
      assert r[..|r| - 1] == parts;
      assert UnionAll(r) == u + rest;
    } else {
      assert r == parts;
      forall x | x in Range(n) ensures x in u {
        assert x !in rest;
      }
    }
  }

  /** The complement is disjoint from every part, so disjoint parts stay disjoint. */
  lemma WithComplementDisjoint(parts: seq<set<nat>>, n: nat)
    requires PairwiseDisjoint(parts)
    ensures PairwiseDisjoint(WithComplement(parts, n))
  {
    var r := WithComplement(parts, n);
    forall i, j | 0 <= i < j < |r| ensures r[i] * r[j] == {} {
      if j == |parts| {
        assert parts[i] <= UnionAll(parts);
        assert r[i] == parts[i];
      } else {
        assert r[i] == parts[i] && r[j] == parts[j];
      }
    }
  }

  /** The complement is only added when nonempty, so nonempty parts stay nonempty. */
  lemma WithComplementNonempty(parts: seq<set<nat>>, n: nat)
    requires forall i :: 0 <= i < |parts| ==> parts[i] != {}
    ensures forall i :: 0 <= i < |WithComplement(parts, n)| ==> WithComplement(parts, n)[i] != {}
  {
    var r := WithComplement(parts, n);
    forall i | 0 <= i < |r| ensures r[i] != {} {
      if i < |parts| {
        assert r[i] == parts[i];
      }
    }
  }

  /** Putting one set on top of a list adds it to the union. */
  lemma UnionAllCons(x: set<nat>, xs: seq<set<nat>>)
    ensures UnionAll([x] + xs) == x + UnionAll(xs)
  {
    UnionAllAppend([x], xs);
    assert UnionAll([x]) == x by {
      assert [x] == [] + [x];
    }
  }
}
