/** Vocabulary shared by the generators, the metrics and the file format: a network of
 *  `n` nodes stored as one adjacency list per node (`LinksOfNodes` in Network.cs),
 *  the integer helpers the generators use, and walks between nodes. */
module Topology {

  /** `links[v]` lists the neighbours of node `v` in insertion order. */
  type Links = seq<seq<int>>

  datatype Option<T> = None | Some(value: T)

  /** One list per node, and every entry names one of the `n` nodes. */
  predicate InRange(links: Links, n: int)
  {
    |links| == n &&
    forall v, k :: 0 <= v < |links| && 0 <= k < |links[v]| ==> 0 <= links[v][k] < n
  }

  /** The undirected-graph invariant: `v` is listed by `u` exactly when `u` is listed by `v`. */
  predicate Symmetric(links: Links)
  {
    forall u, v :: 0 <= u < |links| && 0 <= v < |links| ==> (v in links[u] <==> u in links[v])
  }

  predicate NoSelfLoops(links: Links)
  {
    forall u :: 0 <= u < |links| ==> u !in links[u]
  }

  predicate NoDuplicates(links: Links)
  {
    forall u, a, b :: 0 <= u < |links| && 0 <= a < b < |links[u]| ==> links[u][a] != links[u][b]
  }

  /** An undirected simple graph: in range, symmetric, no self-loop, no repeated neighbour. */
  predicate Simple(links: Links)
  {
    InRange(links, |links|) && Symmetric(links) && NoSelfLoops(links) && NoDuplicates(links)
  }

  /** Sum of the list lengths, i.e. twice the number of links of a simple graph. */
  function TotalDegree(links: Links): nat
  {
    if links == [] then 0 else TotalDegree(links[..|links| - 1]) + |links[|links| - 1]|
  }

  /** A network whose every node has `c` links has a total degree of `|links| * c`. */
  lemma {:induction false} TotalDegreeUniform(links: Links, c: nat)
    requires forall v :: 0 <= v < |links| ==> |links[v]| == c
    ensures TotalDegree(links) == |links| * c
  {
    if links != [] {
      var init := links[..|links| - 1];
      assert forall v :: 0 <= v < |init| ==> init[v] == links[v];
      TotalDegreeUniform(init, c);
    }
  }

  lemma {:induction false} TotalDegreeSplit(a: Links, b: Links)
    ensures TotalDegree(a + b) == TotalDegree(a) + TotalDegree(b)
  {
    if b != [] {
      assert (a + b)[..|a + b| - 1] == a + b[..|b| - 1];
      TotalDegreeSplit(a, b[..|b| - 1]);
    } else {
      assert a + b == a;
    }
  }

  /** Appending one entry to one list raises the total degree by one. */
  lemma TotalDegreeAppend(links: Links, w: int, x: int)
    requires 0 <= w < |links|
    ensures TotalDegree(links[w := links[w] + [x]]) == TotalDegree(links) + 1
  {
    var after := links[w := links[w] + [x]];
    assert links == links[..w] + [links[w]] + links[w + 1..];
    assert after == links[..w] + [links[w] + [x]] + links[w + 1..];
    TotalDegreeSplit(links[..w] + [links[w]], links[w + 1..]);
    TotalDegreeSplit(links[..w], [links[w]]);
    TotalDegreeSplit(links[..w] + [links[w] + [x]], links[w + 1..]);
    TotalDegreeSplit(links[..w], [links[w] + [x]]);
    assert TotalDegree([links[w]]) == |links[w]| by {
      assert [links[w]][..0] == [];
    }
    assert TotalDegree([links[w] + [x]]) == |links[w]| + 1 by {
      assert [links[w] + [x]][..0] == [];
    }
  }

  function Sum(s: seq<int>): int
  {
    if s == [] then 0 else Sum(s[..|s| - 1]) + s[|s| - 1]
  }

  /** The `PeriodicCondition` helper of Network.cs: folds a value lying within one period
   *  below or above `[0, m)` back into it. */
  function PeriodicCondition(value: int, m: int): (r: int)
    ensures -m <= value < 2 * m ==> 0 <= r < m
  {
    if value < 0 then m + value
    else if value >= m then value - m
    else value
  }

  /** Within one period below or above `[0, m)`, the folded value is the one congruent to
   *  `value` modulo `m`. */
  lemma PeriodicConditionMod(value: int, m: int)
    requires -m <= value < 2 * m
    ensures PeriodicCondition(value, m) == value % m
  {
    var r := PeriodicCondition(value, m);
    if value < 0 {
      DivModUnique(value, m, -1, r);
    } else if value >= m {
      DivModUnique(value, m, 1, r);
    } else {
      DivModUnique(value, m, 0, r);
    }
  }

  /** The `FindTheTargetNode` helper: the id of the node in column `i`, row `j` of a
   *  lattice whose rows have `side` nodes. */
  function TargetNode(i: int, j: int, side: int): (node: int)
    ensures 0 <= i < side && 0 <= j < side ==> 0 <= node < side * side
  {
    DecodeTarget(i, j, side);
    j * side + i
  }

  /** The id of a node inside the lattice decodes back to its column (`% side`) and row
   *  (`/ side`). */
  lemma TargetNodeDecodes(i: int, j: int, side: int)
    requires 0 <= i < side && 0 <= j < side
    ensures TargetNode(i, j, side) % side == i && TargetNode(i, j, side) / side == j
  {
    DecodeTarget(i, j, side);
  }

  /** Distinct lattice positions get distinct node ids. */
  lemma TargetNodeInjective(i: int, j: int, i2: int, j2: int, side: int)
    requires 0 <= i < side && 0 <= j < side && 0 <= i2 < side && 0 <= j2 < side
    ensures TargetNode(i, j, side) == TargetNode(i2, j2, side) ==> i == i2 && j == j2
  {
    TargetNodeDecodes(i, j, side);
    TargetNodeDecodes(i2, j2, side);
  }

  lemma DecodeTarget(i: int, j: int, side: int)
    ensures 0 <= i < side && 0 <= j < side ==>
              0 <= j * side + i < side * side && (j * side + i) % side == i && (j * side + i) / side == j
  {
    if 0 <= i < side && 0 <= j < side {
      assert (j + 1) * side == j * side + side;
      assert (j + 1) * side <= side * side by {
        assert j + 1 <= side;
        MulMonotone(j + 1, side, side);
      }
      DivModUnique(j * side + i, side, j, i);
    }
  }

  lemma MulMonotone(a: int, b: int, c: int)
    requires a <= b && 0 <= c
    ensures a * c <= b * c
  {
  }

  /** Quotient and remainder are determined by `x == q * d + r` with `0 <= r < d`. */
  lemma DivModUnique(x: int, d: int, q: int, r: int)
    requires 0 < d && 0 <= r < d && x == q * d + r
    ensures x / d == q && x % d == r
  {
    var q', r' := x / d, x % d;
    assert x == q' * d + r';
    if q' < q {
      MulMonotone(1, q - q', d);
    } else if q' > q {
      MulMonotone(1, q' - q, d);
    }
  }

  /** The node count of a lattice: `(int)Math.Sqrt(n)` computed on integers. */
  function FloorSqrt(n: nat): (r: nat)
    ensures r * r <= n < (r + 1) * (r + 1)
  {
    if n < 4 then (if n == 0 then 0 else 1)
    else
      var s := 2 * FloorSqrt(n / 4);
      HalfRootBounds(n, s / 2);
      if (s + 1) * (s + 1) <= n then s + 1 else s
  }

  /** A root of `n / 4`, doubled, is within two of a root of `n`. */
  lemma HalfRootBounds(n: nat, t: nat)
    requires t * t <= n / 4 < (t + 1) * (t + 1)
    ensures (2 * t) * (2 * t) <= n < (2 * t + 2) * (2 * t + 2)
  {
    assert (2 * t) * (2 * t) == 4 * (t * t);
    assert (2 * t + 2) * (2 * t + 2) == 4 * ((t + 1) * (t + 1));
    assert n / 4 + 1 <= (t + 1) * (t + 1);
  }

  /** A walk: consecutive nodes are listed as neighbours. */
  ghost predicate IsWalk(links: Links, w: seq<int>)
  {
    |w| >= 1 &&
    (forall k :: 0 <= k < |w| ==> 0 <= w[k] < |links|) &&
    (forall k :: 1 <= k < |w| ==> w[k] in links[w[k - 1]])
  }

  ghost predicate Reachable(links: Links, s: int, v: int)
  {
    exists w :: IsWalk(links, w) && w[0] == s && w[|w| - 1] == v
  }
}
