/** What the metrics engine of Network.cs computes, stated over the adjacency lists: degree
 *  frequencies, the triangle and connected-triple counts behind the clustering coefficient,
 *  breadth-first hop distances, and the choice of the largest component. */
module Metrics {
  import opened Topology

  // ------------------------------------------------------------------ degrees

  /** How many of the nodes `0 .. m-1` have exactly `d` links. */
  function CountDegree(links: Links, d: int, m: nat): nat
    requires m <= |links|
  {
    if m == 0 then 0 else CountDegree(links, d, m - 1) + (if |links[m - 1]| == d then 1 else 0)
  }

  function DegreeFrequency(links: Links, d: int): nat
  {
    CountDegree(links, d, |links|)
  }

  /** A degree is counted exactly when some node has it. */
  lemma {:induction false} CountDegreePositive(links: Links, d: int, m: nat)
    requires m <= |links|
    ensures CountDegree(links, d, m) > 0 <==> exists v :: 0 <= v < m && |links[v]| == d
  {
    if m > 0 {
      CountDegreePositive(links, d, m - 1);
    }
  }

  /** A set other than the empty one has a member. */
  lemma NonEmpty(s: set<int>)
    requires s != {}
    ensures exists x :: x in s
  {
    if forall x :: x !in s {
      assert false;
    }
  }

  /** The smallest element of a non-empty finite set. */
  ghost function MinOf(s: set<int>): (m: int)
    requires s != {}
    decreases |s|
    ensures m in s && forall y :: y in s ==> m <= y
  {
    NonEmpty(s);
    var x :| x in s;
    if s == {x} then x
    else
      var rest := MinOf(s - {x});
      assert forall y :: y in s ==> y == x || y in s - {x};
      if x <= rest then x else rest
  }

  /** `OrderBy(x => x.Key)` over a dictionary: its entries, by ascending key. */
  method OrderByKey(m: map<int, int>) returns (t: seq<(int, int)>)
    ensures forall i, j :: 0 <= i < j < |t| ==> t[i].0 < t[j].0
    ensures forall i :: 0 <= i < |t| ==> t[i].0 in m && t[i].1 == m[t[i].0]
    ensures forall k :: k in m ==> exists i :: 0 <= i < |t| && t[i].0 == k
  {
    t := [];
    var rest := m.Keys;
    ghost var pos: map<int, nat> := map[];
    while rest != {}
      invariant Ordering(m, t, rest, pos)
      decreases |rest|
    {
      ghost var least := MinOf(rest);
      var k :| k in rest && forall j :: j in rest ==> k <= j;
      OrderingStep(m, t, rest, pos, k);
      pos := pos[k := |t|];
      t := t + [(k, m[k])];
      rest := rest - {k};
    }
    forall key | key in m
      ensures exists i :: 0 <= i < |t| && t[i].0 == key
    {
      assert t[pos[key]].0 == key;
    }
  }

  /** The loop invariant of `OrderByKey`: `t` lists the keys taken so far in ascending order
   *  with their values, `pos` says where, and every key left in `rest` is above them. */
  ghost predicate Ordering(m: map<int, int>, t: seq<(int, int)>, rest: set<int>, pos: map<int, nat>)
  {
    rest <= m.Keys &&
    (forall k :: k in m ==> k in rest || (k in pos && pos[k] < |t| && t[pos[k]].0 == k)) &&
    (forall i, j :: 0 <= i < j < |t| ==> t[i].0 < t[j].0) &&
    (forall i :: 0 <= i < |t| ==> t[i].0 in m && t[i].1 == m[t[i].0]) &&
    (forall i, k :: 0 <= i < |t| && k in rest ==> t[i].0 < k)
  }

  /** Taking the least key left keeps the invariant. */
  lemma OrderingStep(m: map<int, int>, t: seq<(int, int)>, rest: set<int>, pos: map<int, nat>, k: int)
    requires Ordering(m, t, rest, pos) && k in rest && forall j :: j in rest ==> k <= j
    ensures Ordering(m, t + [(k, m[k])], rest - {k}, pos[k := |t|])
  {
    var t' := t + [(k, m[k])];
    assert forall i :: 0 <= i < |t| ==> t'[i] == t[i];
    assert t'[|t|] == (k, m[k]);
  }

  /** Sum over a list of degrees of how many of the nodes `0 .. m-1` have each of them. */
  function CountAll(links: Links, keys: seq<int>, m: nat): nat
    requires m <= |links|
  {
    if keys == [] then 0 else CountAll(links, keys[..|keys| - 1], m) + CountDegree(links, keys[|keys| - 1], m)
  }

  /** How many times `d` occurs in `keys`. */
  function Occurrences(keys: seq<int>, d: int): nat
  {
    if keys == [] then 0 else Occurrences(keys[..|keys| - 1], d) + (if keys[|keys| - 1] == d then 1 else 0)
  }

  lemma {:induction false} CountAllStep(links: Links, keys: seq<int>, m: nat)
    requires 0 < m <= |links|
    ensures CountAll(links, keys, m) == CountAll(links, keys, m - 1) + Occurrences(keys, |links[m - 1]|)
  {
    if keys != [] {
      CountAllStep(links, keys[..|keys| - 1], m);
    }
  }

  lemma {:induction false} OccursOnce(keys: seq<int>, d: int)
    requires forall i, j :: 0 <= i < j < |keys| ==> keys[i] != keys[j]
    requires d in keys
    ensures Occurrences(keys, d) == 1
  {
    var init := keys[..|keys| - 1];
    if keys[|keys| - 1] == d {
      OccursNever(init, d);
    } else {
      assert d in init;
      OccursOnce(init, d);
    }
  }

  lemma {:induction false} OccursNever(keys: seq<int>, d: int)
    requires d !in keys
    ensures Occurrences(keys, d) == 0
  {
    if keys != [] {
      OccursNever(keys[..|keys| - 1], d);
    }
  }

  /** Counting every node once per distinct degree listed covers each node exactly once,
   *  provided every degree of the first `m` nodes is listed. */
  lemma {:induction false} CountAllCovers(links: Links, keys: seq<int>, m: nat)
    requires m <= |links|
    requires forall i, j :: 0 <= i < j < |keys| ==> keys[i] != keys[j]
    requires forall v :: 0 <= v < m ==> |links[v]| in keys
    ensures CountAll(links, keys, m) == m
  {
    if m == 0 {
      CountAllZero(links, keys);
    } else {
      CountAllCovers(links, keys, m - 1);
      CountAllStep(links, keys, m);
      OccursOnce(keys, |links[m - 1]|);
    }
  }

  lemma {:induction false} CountAllZero(links: Links, keys: seq<int>)
    ensures CountAll(links, keys, 0) == 0
  {
    if keys != [] {
      CountAllZero(links, keys[..|keys| - 1]);
    }
  }

  /** The degree table: each distinct degree with the number of nodes having it. */
  predicate IsDegreeTable(links: Links, table: seq<(int, int)>)
  {
    (forall i, j :: 0 <= i < j < |table| ==> table[i].0 < table[j].0) &&
    (forall i :: 0 <= i < |table| ==> table[i].1 == DegreeFrequency(links, table[i].0) && table[i].1 > 0) &&
    (forall v :: 0 <= v < |links| ==> exists i :: 0 <= i < |table| && table[i].0 == |links[v]|)
  }

  function Counts(table: seq<(int, int)>): int
  {
    if table == [] then 0 else Counts(table[..|table| - 1]) + table[|table| - 1].1
  }

  function Keys(table: seq<(int, int)>): (keys: seq<int>)
    ensures |keys| == |table| && forall i :: 0 <= i < |table| ==> keys[i] == table[i].0
  {
    if table == [] then [] else Keys(table[..|table| - 1]) + [table[|table| - 1].0]
  }

  lemma {:induction false} CountsAreCountAll(links: Links, table: seq<(int, int)>)
    requires forall i :: 0 <= i < |table| ==> table[i].1 == DegreeFrequency(links, table[i].0)
    ensures Counts(table) == CountAll(links, Keys(table), |links|)
  {
    if table != [] {
      CountsAreCountAll(links, table[..|table| - 1]);
      assert Keys(table)[..|table| - 1] == Keys(table[..|table| - 1]);
    }
  }

  /** The frequencies of a degree table add up to the number of nodes. */
  lemma DegreeTableTotal(links: Links, table: seq<(int, int)>)
    requires IsDegreeTable(links, table)
    ensures Counts(table) == |links|
  {
    CountsAreCountAll(links, table);
    var keys := Keys(table);
    forall v | 0 <= v < |links|
      ensures |links[v]| in keys
    {
      var i :| 0 <= i < |table| && table[i].0 == |links[v]|;
      assert keys[i] == |links[v]|;
    }
    CountAllCovers(links, keys, |links|);
  }

  /** `LinksCount`: half the sum of the degrees (C# integer division; the sum is not negative). */
  function LinkCount(links: Links): (count: nat)
    ensures 2 * count <= TotalDegree(links) <= 2 * count + 1
  {
    TotalDegree(links) / 2
  }

  /** The links of the network: the pairs `(u, v)` with `u < v` and `v` in `u`'s list. */
  ghost function Edges(links: Links): (e: set<(int, int)>)
    ensures forall p :: p in e <==> 0 <= p.0 < |links| && p.0 < p.1 && p.1 in links[p.0]
  {
    set p | p in Arcs(links, |links|) && p.0 < p.1
  }

  /** In a simple network `LinksCount` is the number of links, and the total degree is
   *  twice that number (the handshake lemma). */
  lemma LinkCountIsEdges(links: Links)
    requires Simple(links)
    ensures TotalDegree(links) == 2 * |Edges(links)|
    ensures LinkCount(links) == |Edges(links)|
  {
    var arcs := Arcs(links, |links|);
    ArcsCount(links, |links|);
    assert links[..|links|] == links;
    var back := set p | p in arcs && p.0 > p.1;
    ArcsSplit(links, arcs, back);
    BackIsSwap(links, back);
    SwapCount(Edges(links));
  }

  lemma ArcsSplit(links: Links, arcs: set<(int, int)>, back: set<(int, int)>)
    requires NoSelfLoops(links) && arcs == Arcs(links, |links|) && back == set p | p in arcs && p.0 > p.1
    ensures arcs == Edges(links) + back && Edges(links) * back == {}
  {
  }

  lemma BackIsSwap(links: Links, back: set<(int, int)>)
    requires Simple(links) && back == set p | p in Arcs(links, |links|) && p.0 > p.1
    ensures back == Swap(Edges(links))
  {
    forall p | p in back ensures p in Swap(Edges(links)) {
      assert (p.1, p.0) in Edges(links);
    }
  }

  /** The ordered pairs `(u, v)` with `u < m` and `v` in `u`'s list. */
  ghost function Arcs(links: Links, m: nat): (r: set<(int, int)>)
    requires m <= |links|
    ensures forall p :: p in r <==> 0 <= p.0 < m && p.1 in links[p.0]
  {
    if m == 0 then {} else Arcs(links, m - 1) + RowArcs(m - 1, links[m - 1])
  }

  /** Without duplicate entries, each list contributes one pair per entry. */
  lemma {:induction false} ArcsCount(links: Links, m: nat)
    requires m <= |links| && NoDuplicates(links)
    ensures |Arcs(links, m)| == TotalDegree(links[..m])
  {
    if m > 0 {
      ArcsCount(links, m - 1);
      RowArcsCount(m - 1, links[m - 1]);
      ArcsDisjoint(links, m);
      DisjointUnionCount(Arcs(links, m - 1), RowArcs(m - 1, links[m - 1]));
      TotalDegreePrefix(links, m);
    }
  }

  lemma ArcsDisjoint(links: Links, m: nat)
    requires 0 < m <= |links|
    ensures Arcs(links, m - 1) * RowArcs(m - 1, links[m - 1]) == {}
  {
    var before, row := Arcs(links, m - 1), RowArcs(m - 1, links[m - 1]);
    forall p | p in row ensures p !in before {
    }
  }

  lemma DisjointUnionCount(a: set<(int, int)>, b: set<(int, int)>)
    requires a * b == {}
    ensures |a + b| == |a| + |b|
  {
  }

  lemma TotalDegreePrefix(links: Links, m: nat)
    requires 0 < m <= |links|
    ensures TotalDegree(links[..m]) == TotalDegree(links[..m - 1]) + |links[m - 1]|
  {
    assert links[..m][..m - 1] == links[..m - 1];
  }

  /** The pairs `(u, x)` for the entries `x` of `s`. */
  ghost function RowArcs(u: int, s: seq<int>): (r: set<(int, int)>)
    ensures forall p :: p in r <==> p.0 == u && p.1 in s
  {
    if s == [] then {} else RowArcs(u, s[..|s| - 1]) + {(u, s[|s| - 1])}
  }

  lemma {:induction false} RowArcsCount(u: int, s: seq<int>)
    requires forall a, b :: 0 <= a < b < |s| ==> s[a] != s[b]
    ensures |RowArcs(u, s)| == |s|
  {
    if s != [] {
      RowArcsCount(u, s[..|s| - 1]);
      assert s[|s| - 1] !in s[..|s| - 1];
    }
  }

  /** Each pair turned around. */
  ghost function Swap(pairs: set<(int, int)>): set<(int, int)>
  {
    set p | p in pairs :: (p.1, p.0)
  }

  lemma {:induction false} SwapCount(pairs: set<(int, int)>)
    ensures |Swap(pairs)| == |pairs|
    decreases |pairs|
  {
    if pairs != {} {
      var p :| p in pairs;
      var rest := pairs - {p};
      SwapCount(rest);
      assert Swap(pairs) == Swap(rest) + {(p.1, p.0)};
      assert (p.1, p.0) !in Swap(rest);
    }
  }

  // ---------------------------------------------------------------- clustering

  /** For positions `i < k < j` of `nb`, how many `nb[k]` the node `nb[i]` lists. */
  function ClosedPairs(links: Links, nb: seq<int>, i: nat, j: int): (count: nat)
    requires InRange(links, |links|) && i < |nb| && j <= |nb| && forall k :: 0 <= k < |nb| ==> 0 <= nb[k] < |links|
    ensures count <= if j > i + 1 then j - i - 1 else 0
    decreases j
  {
    if j <= i + 1 then 0
    else ClosedPairs(links, nb, i, j - 1) + (if nb[j - 1] in links[nb[i]] then 1 else 0)
  }

  /** The triangles seen from node `v` through its first `i` neighbour positions. */
  function NodeTriangles(links: Links, v: nat, i: nat): nat
    requires InRange(links, |links|) && v < |links| && i <= |links[v]|
  {
    if i == 0 then 0 else NodeTriangles(links, v, i - 1) + ClosedPairs(links, links[v], i - 1, |links[v]|)
  }

  /** `triangleCount` after the first `m` nodes. */
  function Triangles(links: Links, m: nat): nat
    requires InRange(links, |links|) && m <= |links|
  {
    if m == 0 then 0 else Triangles(links, m - 1) + NodeTriangles(links, m - 1, |links[m - 1]|)
  }

  /** `connectedTriplesCount` after the first `m` nodes: `d (d - 1) / 2` per node. */
  function Triples(links: Links, m: nat): nat
    requires m <= |links|
  {
    if m == 0 then 0 else Triples(links, m - 1) + |links[m - 1]| * (|links[m - 1]| - 1) / 2
  }

  /** Node `v` contributes at most one triangle per pair of its neighbour positions. */
  lemma {:induction false} NodeTrianglesBound(links: Links, v: nat, i: nat)
    requires InRange(links, |links|) && v < |links| && i <= |links[v]|
    ensures 2 * NodeTriangles(links, v, i) <= i * (2 * |links[v]| - i - 1)
  {
    if i > 0 {
      NodeTrianglesBound(links, v, i - 1);
      var d := |links[v]|;
      assert (i - 1) * (2 * d - (i - 1) - 1) + 2 * (d - i) == i * (2 * d - i - 1);
    }
  }

  /** The clustering numerator never exceeds its denominator: `triangleCount <=
   *  connectedTriplesCount`. */
  lemma {:induction false} TrianglesAtMostTriples(links: Links, m: nat)
    requires InRange(links, |links|) && m <= |links|
    ensures Triangles(links, m) <= Triples(links, m)
  {
    if m > 0 {
      TrianglesAtMostTriples(links, m - 1);
      var d := |links[m - 1]|;
      NodeTrianglesBound(links, m - 1, d);
      HalfProduct(d);
    }
  }

  lemma HalfProduct(d: nat)
    ensures 2 * (d * (d - 1) / 2) == d * (2 * d - d - 1)
  {
    var h := d / 2;
    if d % 2 == 0 {
      assert d * (d - 1) == 2 * (h * (d - 1)) + 0 by {
        assert d == 2 * h;
      }
      DivModUnique(d * (d - 1), 2, h * (d - 1), 0);
    } else {
      assert d * (d - 1) == 2 * (d * h) + 0 by {
        assert d - 1 == 2 * h;
      }
      DivModUnique(d * (d - 1), 2, d * h, 0);
    }
  }

  // ------------------------------------------------------ breadth-first search

  predicate Reached(dist: seq<int>, v: int)
  {
    0 <= v < |dist| && dist[v] != -1
  }

  /** The hop distances a breadth-first search from `source` leaves behind: the source at 0,
   *  `-1` for unreached nodes, no link that skips a level, and every other reached node one
   *  level below some node listing it. */
  ghost predicate BreadthFirst(links: Links, source: int, dist: seq<int>)
  {
    |dist| == |links| && 0 <= source < |links| && dist[source] == 0 &&
    (forall v :: 0 <= v < |dist| ==> dist[v] >= -1) &&
    (forall u, x {:trigger x in links[u], Reached(dist, u)} ::
       Reached(dist, u) && x in links[u] ==> Reached(dist, x) && dist[x] <= dist[u] + 1) &&
    (forall v {:trigger Reached(dist, v)} :: Reached(dist, v) && v != source ==>
       dist[v] >= 1 && exists w :: 0 <= w < |links| && v in links[w] && dist[w] == dist[v] - 1)
  }

  /** The fractions collected for the first `|results|` nodes: node `v`'s numerator is the
   *  distance sum of the search `searches[v]` from `v`, and its divisor is positive. */
  ghost predicate Averages(links: Links, results: seq<(int, int)>, searches: seq<seq<int>>)
  {
    |results| == |searches| &&
    forall v :: 0 <= v < |results| ==>
      results[v].1 >= 1 && BreadthFirst(links, v, searches[v]) && results[v].0 == ReachedSum(searches[v])
  }

  /** The fraction of the next node, from a search from that node, extends `Averages`. */
  lemma AveragesExtend(links: Links, results: seq<(int, int)>, searches: seq<seq<int>>, dist: seq<int>, fraction: (int, int))
    requires Averages(links, results, searches)
    requires fraction.1 >= 1 && BreadthFirst(links, |results|, dist) && fraction.0 == ReachedSum(dist)
    ensures Averages(links, results + [fraction], searches + [dist])
  {
    var results', searches' := results + [fraction], searches + [dist];
    forall v | 0 <= v < |results'|
      ensures results'[v].1 >= 1 && BreadthFirst(links, v, searches'[v]) && results'[v].0 == ReachedSum(searches'[v])
    {
      if v < |results| {
        assert results'[v] == results[v] && searches'[v] == searches[v];
      }
    }
  }

  /** Every walk from the source ends at a reached node, no further away than the walk's length. */
  lemma {:induction false} WalkReached(links: Links, source: int, dist: seq<int>, w: seq<int>)
    requires InRange(links, |links|) && BreadthFirst(links, source, dist)
    requires IsWalk(links, w) && w[0] == source
    ensures Reached(dist, w[|w| - 1]) && dist[w[|w| - 1]] <= |w| - 1
  {
    if |w| > 1 {
      var init := w[..|w| - 1];
      WalkReached(links, source, dist, init);
      assert w[|w| - 1] in links[init[|init| - 1]];
    }
  }

  /** A reached node is the end of a walk from the source of exactly its distance. */
  lemma {:induction false} ReachedByWalk(links: Links, source: int, dist: seq<int>, v: int)
    requires InRange(links, |links|) && BreadthFirst(links, source, dist) && Reached(dist, v)
    ensures exists w :: IsWalk(links, w) && w[0] == source && w[|w| - 1] == v && |w| - 1 == dist[v]
    decreases dist[v]
  {
    if v == source {
      assert IsWalk(links, [source]);
    } else {
      var p :| 0 <= p < |links| && v in links[p] && dist[p] == dist[v] - 1;
      ReachedByWalk(links, source, dist, p);
      var w :| IsWalk(links, w) && w[0] == source && w[|w| - 1] == p && |w| - 1 == dist[p];
      assert IsWalk(links, w + [v]);
      assert (w + [v])[0] == source;
    }
  }

  /** `d` is the length of a shortest walk from `s` to `v`. */
  ghost predicate ShortestDistance(links: Links, s: int, v: int, d: int)
  {
    (exists w :: IsWalk(links, w) && w[0] == s && w[|w| - 1] == v && |w| - 1 == d) &&
    (forall w :: IsWalk(links, w) && w[0] == s && w[|w| - 1] == v ==> |w| - 1 >= d)
  }

  /** The search reaches exactly the nodes reachable from the source, and each at its
   *  shortest hop distance. */
  lemma BreadthFirstDistances(links: Links, source: int, dist: seq<int>)
    requires InRange(links, |links|) && BreadthFirst(links, source, dist)
    ensures forall v :: 0 <= v < |links| ==> (dist[v] != -1 <==> Reachable(links, source, v))
    ensures forall v :: 0 <= v < |links| && dist[v] != -1 ==> ShortestDistance(links, source, v, dist[v])
  {
    forall v | 0 <= v < |links|
      ensures dist[v] != -1 <==> Reachable(links, source, v)
      ensures dist[v] != -1 ==> ShortestDistance(links, source, v, dist[v])
    {
      if dist[v] != -1 {
        ReachedByWalk(links, source, dist, v);
        forall w | IsWalk(links, w) && w[0] == source && w[|w| - 1] == v
          ensures |w| - 1 >= dist[v]
        {
          WalkReached(links, source, dist, w);
        }
      }
      if Reachable(links, source, v) {
        var w :| IsWalk(links, w) && w[0] == source && w[|w| - 1] == v;
        WalkReached(links, source, dist, w);
      }
    }
  }

  /** The numerator of a node's average path distance: its distances, skipping `-1`. */
  function ReachedSum(dist: seq<int>): int
  {
    if dist == [] then 0 else ReachedSum(dist[..|dist| - 1]) + (if dist[|dist| - 1] != -1 then dist[|dist| - 1] else 0)
  }

  /** Unreached nodes add nothing; with no negative distance the sum is not negative. */
  lemma {:induction false} ReachedSumNonNegative(dist: seq<int>)
    requires forall v :: 0 <= v < |dist| ==> dist[v] >= -1
    ensures ReachedSum(dist) >= 0
  {
    if dist != [] {
      ReachedSumNonNegative(dist[..|dist| - 1]);
    }
  }

  // ------------------------------------------------------------- components

  /** The first node at or after `i` the search reached. */
  function FirstReached(dist: seq<int>, i: nat): (f: Option<nat>)
    requires i <= |dist|
    ensures f.Some? ==> i <= f.value < |dist| && dist[f.value] != -1 && forall v :: i <= v < f.value ==> dist[v] == -1
    ensures f.None? ==> forall v :: i <= v < |dist| ==> dist[v] == -1
    decreases |dist| - i
  {
    if i == |dist| then None else if dist[i] != -1 then Some(i) else FirstReached(dist, i + 1)
  }

  /** How many of the nodes `0 .. m-1` the search reached. */
  function ReachedCount(dist: seq<int>, m: nat): nat
    requires m <= |dist|
  {
    if m == 0 then 0 else ReachedCount(dist, m - 1) + (if dist[m - 1] != -1 then 1 else 0)
  }

  /** How many of the nodes `0 .. m-1` carry `tag`. */
  function LabelCount(labels: seq<int>, tag: int, m: nat): nat
    requires m <= |labels|
  {
    if m == 0 then 0 else LabelCount(labels, tag, m - 1) + (if labels[m - 1] == tag then 1 else 0)
  }

  /** The state component labelling works on: `ComponentOfEachNode` (`-1` for a node not yet
   *  labelled), `CurrentComponentIndex`, `NextComponentIndex` and `ComponentsSize`. */
  datatype Components = Components(labels: seq<int>, current: int, next: int, sizes: map<int, int>)

  /** Every reached node takes `tag`; the others keep theirs. */
  function Relabel(labels: seq<int>, dist: seq<int>, tag: int): (r: seq<int>)
    requires |labels| == |dist|
    ensures |r| == |labels|
  {
    seq(|labels|, v requires 0 <= v < |labels| => if dist[v] != -1 then tag else labels[v])
  }

  /** `ComponentAssigningProcess` after a search that left `dist`: if the first reached node
   *  already has a label, that label becomes the current component; otherwise every reached
   *  node gets the next label, whose size is the number of reached nodes, and the current
   *  component is left as it was. */
  function AssignComponent(c: Components, dist: seq<int>): (r: Components)
    requires |c.labels| == |dist| && c.next !in c.sizes
    ensures |r.labels| == |dist|
  {
    match FirstReached(dist, 0)
    case None => c
    case Some(f) =>
      if c.labels[f] != -1 then c.(current := c.labels[f])
      else c.(labels := Relabel(c.labels, dist, c.next), next := c.next + 1,
              sizes := c.sizes[c.next := ReachedCount(dist, |dist|)])
  }

  /** The bookkeeping invariant: the labels handed out are `0 .. next-1`, each with a size of
   *  at least one, every node is unlabelled or carries one of them, and the current
   *  component is one of them or the next one. */
  ghost predicate Recorded(c: Components)
  {
    0 <= c.current <= c.next &&
    (forall k :: k in c.sizes <==> 0 <= k < c.next) &&
    (forall k :: k in c.sizes ==> c.sizes[k] >= 1) &&
    (forall v :: 0 <= v < |c.labels| ==> -1 <= c.labels[v] < c.next)
  }

  lemma {:induction false} ReachedCountPositive(dist: seq<int>, m: nat, v: nat)
    requires v < m <= |dist| && dist[v] != -1
    ensures ReachedCount(dist, m) >= 1
  {
    if v < m - 1 {
      ReachedCountPositive(dist, m - 1, v);
    }
  }

  lemma {:induction false} ReachedCountNone(dist: seq<int>, m: nat)
    requires m <= |dist| && forall v :: 0 <= v < m ==> dist[v] == -1
    ensures ReachedCount(dist, m) == 0
  {
    if m > 0 {
      ReachedCountNone(dist, m - 1);
    }
  }

  /** Labelling keeps the bookkeeping invariant, and after a search that reached anything
   *  the current component is a recorded one. */
  lemma AssignComponentRecorded(c: Components, dist: seq<int>)
    requires Recorded(c) && |c.labels| == |dist|
    ensures c.next !in c.sizes
    ensures Recorded(AssignComponent(c, dist))
    ensures FirstReached(dist, 0).Some? ==> AssignComponent(c, dist).current in AssignComponent(c, dist).sizes
  {
    match FirstReached(dist, 0)
    case None =>
    case Some(f) =>
      if c.labels[f] == -1 {
        ReachedCountPositive(dist, |dist|, f);
      }
  }

  /** The labelling after `AssignComponent` of each search of `searches` in turn, as the
   *  loop of `AveragePathDistanceOfAllNodes` applies them. */
  ghost function AssignAll(c: Components, searches: seq<seq<int>>): (r: Components)
    requires Recorded(c) && forall k :: 0 <= k < |searches| ==> |searches[k]| == |c.labels|
    ensures Recorded(r) && |r.labels| == |c.labels|
    decreases |searches|
  {
    if searches == [] then c
    else
      var before := AssignAll(c, searches[..|searches| - 1]);
      AssignComponentRecorded(before, searches[|searches| - 1]);
      AssignComponent(before, searches[|searches| - 1])
  }

  /** One more search continues the fold. */
  lemma AssignAllStep(c: Components, searches: seq<seq<int>>, dist: seq<int>)
    requires Recorded(c) && |dist| == |c.labels| && forall k :: 0 <= k < |searches| ==> |searches[k]| == |c.labels|
    ensures AssignAll(c, searches + [dist]) == AssignComponent(AssignAll(c, searches), dist)
  {
    assert (searches + [dist])[..|searches|] == searches;
  }

  /** A fraction's divisor is the size that the labelling after the searches `prefix`
   *  records for its current component, however stale that component is. */
  ghost predicate DivisorAfter(start: Components, fraction: (int, int), prefix: seq<seq<int>>)
    requires Recorded(start) && forall k :: 0 <= k < |prefix| ==> |prefix[k]| == |start.labels|
  {
    var c := AssignAll(start, prefix);
    c.current in c.sizes && fraction.1 == c.sizes[c.current]
  }

  /** Node `v`'s divisor is the size of the current component after the first `v + 1`
   *  searches. */
  ghost predicate Divisors(start: Components, results: seq<(int, int)>, searches: seq<seq<int>>)
    requires Recorded(start) && |results| <= |searches|
    requires forall k :: 0 <= k < |searches| ==> |searches[k]| == |start.labels|
  {
    forall v :: 0 <= v < |results| ==> DivisorAfter(start, results[v], searches[..v + 1])
  }

  /** Appending a node's fraction, whose divisor is the size of the current component after
   *  its own search, keeps `Divisors`. */
  lemma DivisorsExtend(start: Components, results: seq<(int, int)>, searches: seq<seq<int>>,
                       dist: seq<int>, fraction: (int, int))
    requires Recorded(start) && |results| == |searches| && |dist| == |start.labels|
    requires forall k :: 0 <= k < |searches| ==> |searches[k]| == |start.labels|
    requires Divisors(start, results, searches) && DivisorAfter(start, fraction, searches + [dist])
    ensures Divisors(start, results + [fraction], searches + [dist])
  {
    var searches', results' := searches + [dist], results + [fraction];
    forall v | 0 <= v < |results'|
      ensures DivisorAfter(start, results'[v], searches'[..v + 1])
    {
      if v < |results| {
        assert searches'[..v + 1] == searches[..v + 1];
        assert DivisorAfter(start, results[v], searches[..v + 1]);
      } else {
        assert searches'[..v + 1] == searches';
      }
    }
  }

  /** A new component's recorded size is the number of nodes that carry its label. */
  lemma AssignComponentSize(c: Components, dist: seq<int>)
    requires Recorded(c) && |c.labels| == |dist|
    requires FirstReached(dist, 0).Some? && c.labels[FirstReached(dist, 0).value] == -1
    ensures var r := AssignComponent(c, dist);
            r.next == c.next + 1 && r.sizes[c.next] == LabelCount(r.labels, c.next, |dist|)
  {
    RelabelCount(c.labels, dist, c.next, |dist|);
  }

  lemma {:induction false} RelabelCount(labels: seq<int>, dist: seq<int>, tag: int, m: nat)
    requires |labels| == |dist| && m <= |dist|
    requires forall v :: 0 <= v < |labels| ==> labels[v] != tag
    ensures LabelCount(Relabel(labels, dist, tag), tag, m) == ReachedCount(dist, m)
  {
    if m > 0 {
      RelabelCount(labels, dist, tag, m - 1);
    }
  }

  /** Finding, as written: a search that starts a new component leaves
   *  `CurrentComponentIndex` at the previous one. With nodes 0-1 one component (label 0,
   *  size 2) and nodes 2-3-4 a path, the search from node 2 labels nodes 2, 3 and 4 with 1
   *  and records size 3, while the divisor of node 2 stays `ComponentsSize[0] = 2`. */
  lemma StaleCurrentComponent()
    ensures var links := [[1], [0], [3], [2, 4], [3]];
            var dist := [-1, -1, 0, 1, 2];
            var r := AssignComponent(Components([0, 0, -1, -1, -1], 0, 1, map[0 := 2]), dist);
            BreadthFirst(links, 2, dist) &&
            r.labels[2] == 1 && r.sizes[1] == 3 && r.current == 0 && r.sizes[r.current] == 2
  {
    var dist := [-1, -1, 0, 1, 2];
    TwoComponentSearch();
    assert FirstReached(dist, 0) == Some(2) by {
      assert FirstReached(dist, 1) == FirstReached(dist, 2);
    }
    assert ReachedCount(dist, 5) == 3 by {
      assert ReachedCount(dist, 2) == 0 by {
        assert ReachedCount(dist, 1) == 0;
      }
    }
  }

  /** The search from node 2 of the two-component network above. */
  lemma TwoComponentSearch()
    ensures BreadthFirst([[1], [0], [3], [2, 4], [3]], 2, [-1, -1, 0, 1, 2])
  {
    var links: Links := [[1], [0], [3], [2, 4], [3]];
    var dist := [-1, -1, 0, 1, 2];
    forall u, x | Reached(dist, u) && x in links[u]
      ensures Reached(dist, x) && dist[x] <= dist[u] + 1
    {
      assert u == 2 || u == 3 || u == 4;
    }
    forall v | Reached(dist, v) && v != 2
      ensures dist[v] >= 1 && exists w :: 0 <= w < |links| && v in links[w] && dist[w] == dist[v] - 1
    {
      if v == 3 {
        assert 3 in links[2];
      } else {
        assert 4 in links[3];
      }
    }
  }

  /** The evidently intended labelling: a new component also becomes the current one. */
  function AssignComponentFixed(c: Components, dist: seq<int>): (r: Components)
    requires |c.labels| == |dist| && c.next !in c.sizes
    ensures |r.labels| == |dist|
  {
    var r := AssignComponent(c, dist);
    match FirstReached(dist, 0)
    case None => r
    case Some(f) => if c.labels[f] != -1 then r else r.(current := c.next)
  }

  /** With the fix, the divisor is the size recorded for the component of the first
   *  reached node, and for a new component that is the number of reached nodes. */
  lemma FixedCurrentIsOwnComponent(c: Components, dist: seq<int>)
    requires Recorded(c) && |c.labels| == |dist| && FirstReached(dist, 0).Some?
    ensures var r := AssignComponentFixed(c, dist);
            var f := FirstReached(dist, 0).value;
            Recorded(r) && r.current == r.labels[f] && r.current in r.sizes &&
            (c.labels[f] == -1 ==> r.sizes[r.current] == ReachedCount(dist, |dist|))
  {
    var f := FirstReached(dist, 0).value;
    if c.labels[f] == -1 {
      ReachedCountPositive(dist, |dist|, f);
    }
  }

  /** `ComponentsSize.MaxBy(x => x.Value)` over the keys `0 .. m-1` in insertion order: the
   *  first key of largest size, or none when there is no component. */
  function Largest(sizes: map<int, int>, m: nat): Option<(int, int)>
    requires forall k :: 0 <= k < m ==> k in sizes
  {
    if m == 0 then None
    else
      var prev := Largest(sizes, m - 1);
      if prev.None? || sizes[m - 1] > prev.value.1 then Some((m - 1, sizes[m - 1])) else prev
  }

  /** The largest component is a recorded one, no recorded size exceeds it, and it is the
   *  first of the largest. */
  lemma {:induction false} LargestIsFirstMaximum(sizes: map<int, int>, m: nat)
    requires forall k :: 0 <= k < m ==> k in sizes
    ensures Largest(sizes, m).None? <==> m == 0
    ensures Largest(sizes, m).Some? ==>
              var (key, size) := Largest(sizes, m).value;
              0 <= key < m && size == sizes[key] &&
              (forall k :: 0 <= k < m ==> sizes[k] <= size) &&
              (forall k :: 0 <= k < key ==> sizes[k] < size)
  {
    if m > 0 {
      LargestIsFirstMaximum(sizes, m - 1);
    }
  }
}
