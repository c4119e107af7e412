/** The regular ring generator of Network.cs as a specification function, and the pieces
 *  of the small-world rewiring pass: `List<int>.Remove`, the acceptance test of a random
 *  new end, one rewired link, and the whole pass over the draws it consumes. */
module Ring {
  import opened Topology

  // ----------------------------------------------------------------- regular ring

  /** How many neighbours on each side the ring loop adds: `nodeIncreament` runs from 1
   *  while it is at most `degree / 2` (C# division truncates towards zero). */
  function RingSteps(degree: int): (steps: nat)
    ensures degree >= 0 ==> 2 * steps <= degree < 2 * steps + 2
    ensures degree < 2 ==> steps == 0
  {
    if degree < 2 then 0 else degree / 2
  }

  /** The list the ring loop builds for `node` after `steps` rounds: each round appends the
   *  node `d` places to the right, then the node `d` places to the left. */
  function RingLinks(node: int, n: int, steps: nat): (row: seq<int>)
    ensures |row| == 2 * steps
  {
    if steps == 0 then []
    else RingLinks(node, n, steps - 1) + [PeriodicCondition(node + steps, n), PeriodicCondition(node - steps, n)]
  }

  function RegularRing(n: nat, steps: nat): Links
  {
    seq(n, node => RingLinks(node, n, steps))
  }

  /** Round `d` writes `node + d` at position `2(d-1)` and `node - d` right after it. */
  lemma {:induction false} RingLinksAt(node: int, n: int, steps: nat, d: int)
    requires 1 <= d <= steps
    ensures RingLinks(node, n, steps)[2 * (d - 1)] == PeriodicCondition(node + d, n)
    ensures RingLinks(node, n, steps)[2 * d - 1] == PeriodicCondition(node - d, n)
  {
    if d < steps {
      RingLinksAt(node, n, steps - 1, d);
    }
  }

  lemma RingLinksInRange(node: int, n: int, steps: nat)
    requires 0 <= node < n && steps <= n
    ensures forall k :: 0 <= k < |RingLinks(node, n, steps)| ==> 0 <= RingLinks(node, n, steps)[k] < n
  {
    forall k | 0 <= k < |RingLinks(node, n, steps)|
      ensures 0 <= RingLinks(node, n, steps)[k] < n
    {
      RingLinksAt(node, n, steps, k / 2 + 1);
    }
  }

  /** With at most `n` rounds every entry names a node, and every list has `2 * steps` entries. */
  lemma RegularRingInRange(n: nat, steps: nat)
    requires steps <= n
    ensures InRange(RegularRing(n, steps), n)
    ensures TotalDegree(RegularRing(n, steps)) == n * (2 * steps)
  {
    forall v | 0 <= v < n
      ensures forall k :: 0 <= k < |RegularRing(n, steps)[v]| ==> 0 <= RegularRing(n, steps)[v][k] < n
    {
      RingLinksInRange(v, n, steps);
    }
    TotalDegreeUniform(RegularRing(n, steps), 2 * steps);
  }

  /** Position `k` of a ring list holds the node `k / 2 + 1` places to the right (even `k`)
   *  or to the left (odd `k`). */
  lemma RingLinksIndex(node: int, n: int, steps: nat, k: int)
    requires 0 <= k < 2 * steps
    ensures 1 <= k / 2 + 1 <= steps
    ensures k % 2 == 0 ==> RingLinks(node, n, steps)[k] == PeriodicCondition(node + (k / 2 + 1), n)
    ensures k % 2 == 1 ==> RingLinks(node, n, steps)[k] == PeriodicCondition(node - (k / 2 + 1), n)
  {
    var d := k / 2 + 1;
    assert k == 2 * (d - 1) || k == 2 * d - 1;
    RingLinksAt(node, n, steps, d);
  }

  lemma RegularRingSymmetric(n: nat, steps: nat)
    requires steps <= n
    ensures Symmetric(RegularRing(n, steps))
  {
    var links := RegularRing(n, steps);
    forall u, v | 0 <= u < n && 0 <= v < n && v in links[u]
      ensures u in links[v]
    {
      assert links[u] == RingLinks(u, n, steps) && links[v] == RingLinks(v, n, steps);
      var k :| 0 <= k < |links[u]| && links[u][k] == v;
      RingLinksIndex(u, n, steps, k);
      var d := k / 2 + 1;
      RingLinksAt(v, n, steps, d);
      if k % 2 == 0 {
        assert links[v][2 * d - 1] == u;
      } else {
        assert links[v][2 * (d - 1)] == u;
      }
    }
  }

  /** Fewer than half the nodes on each side: no node lists itself and none lists a node twice. */
  lemma RegularRingNoRepeats(n: nat, steps: nat)
    requires 2 * steps < n
    ensures NoSelfLoops(RegularRing(n, steps)) && NoDuplicates(RegularRing(n, steps))
  {
    var links := RegularRing(n, steps);
    forall u | 0 <= u < n
      ensures u !in links[u]
    {
      assert links[u] == RingLinks(u, n, steps);
      if u in links[u] {
        var k :| 0 <= k < |links[u]| && links[u][k] == u;
        RingLinksIndex(u, n, steps, k);
      }
    }
    forall u, a, b | 0 <= u < n && 0 <= a < b < |links[u]|
      ensures links[u][a] != links[u][b]
    {
      assert links[u] == RingLinks(u, n, steps);
      RingLinksIndex(u, n, steps, a);
      RingLinksIndex(u, n, steps, b);
    }
  }

  /** The ring is a simple graph when `2 * steps < n`. */
  lemma RegularRingSimple(n: nat, steps: nat)
    requires 2 * steps < n
    ensures Simple(RegularRing(n, steps))
  {
    RegularRingInRange(n, steps);
    RegularRingSymmetric(n, steps);
    RegularRingNoRepeats(n, steps);
  }

  // ------------------------------------------------------------------- rewiring

  /** `List<int>.Remove`: drops the first occurrence of `x`, if any. */
  function RemoveFirst(s: seq<int>, x: int): (r: seq<int>)
    ensures x in s ==> |r| == |s| - 1
    ensures x !in s ==> r == s
  {
    if s == [] then []
    else if s[0] == x then s[1..] else [s[0]] + RemoveFirst(s[1..], x)
  }

  /** Removal takes exactly one copy of `x` out of the list, when there is one. */
  lemma {:induction false} RemoveFirstCount(s: seq<int>, x: int)
    ensures multiset(RemoveFirst(s, x)) == multiset(s) - multiset{x}
  {
    if s != [] {
      assert s == [s[0]] + s[1..];
      if s[0] != x {
        RemoveFirstCount(s[1..], x);
      }
    }
  }

  /** On a list without repeats, removal keeps it repeat-free and leaves exactly the other entries. */
  lemma RemoveFirstMembers(s: seq<int>, x: int)
    requires forall a, b :: 0 <= a < b < |s| ==> s[a] != s[b]
    ensures forall a, b :: 0 <= a < b < |RemoveFirst(s, x)| ==> RemoveFirst(s, x)[a] != RemoveFirst(s, x)[b]
    ensures forall y :: y in RemoveFirst(s, x) <==> y in s && y != x
  {
    var r := RemoveFirst(s, x);
    RemoveFirstCount(s, x);
    assert forall y :: multiset(s)[y] <= 1 by {
      forall y ensures multiset(s)[y] <= 1 {
        NoRepeatsCount(s, y);
      }
    }
    forall y ensures y in r <==> y in s && y != x {
      assert y in r <==> multiset(r)[y] > 0;
      assert y in s <==> multiset(s)[y] > 0;
    }
    forall a, b | 0 <= a < b < |r|
      ensures r[a] != r[b]
    {
      if r[a] == r[b] {
        RepeatCount(r, a, b);
      }
    }
  }

  lemma {:induction false} NoRepeatsCount(s: seq<int>, y: int)
    requires forall a, b :: 0 <= a < b < |s| ==> s[a] != s[b]
    ensures multiset(s)[y] <= 1
  {
    if s != [] {
      assert s == [s[0]] + s[1..];
      NoRepeatsCount(s[1..], y);
      if s[0] == y {
        assert y !in s[1..];
      }
    }
  }

  lemma RepeatCount(s: seq<int>, a: int, b: int)
    requires 0 <= a < b < |s| && s[a] == s[b]
    ensures multiset(s)[s[a]] >= 2
  {
    assert s == s[..a] + [s[a]] + s[a + 1..b] + [s[b]] + s[b + 1..];
  }

  /** The test the retry loop applies to a random `candidate`: not the node itself, and not
   *  already one of its neighbours unless it is the end being rewired. */
  predicate Accepts(row: seq<int>, node: int, target: int, candidate: int)
  {
    candidate != node && (candidate == target || candidate !in row)
  }

  /** The retry loop: the position in `picks` of the first accepted candidate, or `None` when
   *  the supplied picks run out first. */
  function FirstAccepted(row: seq<int>, node: int, target: int, picks: seq<int>): (k: Option<nat>)
    ensures k.Some? ==> k.value < |picks| && Accepts(row, node, target, picks[k.value]) &&
                        forall m :: 0 <= m < k.value ==> !Accepts(row, node, target, picks[m])
    ensures k.None? ==> forall m :: 0 <= m < |picks| ==> !Accepts(row, node, target, picks[m])
  {
    if picks == [] then None
    else if Accepts(row, node, target, picks[0]) then Some(0)
    else
      match FirstAccepted(row, node, target, picks[1..])
      case None => None
      case Some(k) => Some(k + 1)
  }

  /** One rewired link: `node` drops `target` and `target` drops `node` (first occurrence
   *  each), then `node` appends `candidate` and `candidate` appends `node`. */
  function RewireLink(links: Links, node: int, target: int, candidate: int): (r: Links)
    requires 0 <= node < |links| && 0 <= target < |links| && 0 <= candidate < |links|
    ensures |r| == |links|
  {
    var l1 := links[node := RemoveFirst(links[node], target)];
    var l2 := l1[target := RemoveFirst(l1[target], node)];
    var l3 := l2[node := l2[node] + [candidate]];
    l3[candidate := l3[candidate] + [node]]
  }

  /** Row `u` after `RewireLink`, case by case, when `candidate` is not `node` and `target`
   *  is not `node`. */
  function RewiredRow(links: Links, node: int, target: int, candidate: int, u: int): seq<int>
    requires 0 <= u < |links| && 0 <= node < |links| && 0 <= target < |links| && 0 <= candidate < |links|
  {
    if u == node then RemoveFirst(links[node], target) + [candidate]
    else if u == target && u == candidate then RemoveFirst(links[target], node) + [node]
    else if u == target then RemoveFirst(links[target], node)
    else if u == candidate then links[candidate] + [node]
    else links[u]
  }

  lemma RewireLinkAt(links: Links, node: int, target: int, candidate: int, u: int)
    requires 0 <= u < |links| && 0 <= node < |links| && 0 <= target < |links| && 0 <= candidate < |links|
    requires target != node && candidate != node
    ensures RewireLink(links, node, target, candidate)[u] == RewiredRow(links, node, target, candidate, u)
  {
  }

  /** Row `u` of a rewired simple graph: the link `node`-`target` is replaced by
   *  `node`-`candidate`, and the row still has no repeats. */
  lemma RewiredRowFacts(links: Links, node: int, target: int, candidate: int, u: int)
    requires Simple(links) && 0 <= u < |links| && 0 <= node < |links| && 0 <= target < |links| && 0 <= candidate < |links|
    requires target != node && Accepts(links[node], node, target, candidate)
    ensures forall v :: v in RewiredRow(links, node, target, candidate, u) <==>
              (v in links[u] && !((u == node && v == target) || (u == target && v == node))) ||
              (u == node && v == candidate) || (u == candidate && v == node)
    ensures forall a, b :: 0 <= a < b < |RewiredRow(links, node, target, candidate, u)| ==>
              RewiredRow(links, node, target, candidate, u)[a] != RewiredRow(links, node, target, candidate, u)[b]
  {
    var row := RewiredRow(links, node, target, candidate, u);
    if u == node {
      RemoveFirstMembers(links[node], target);
      AppendFresh(RemoveFirst(links[node], target), candidate);
    } else if u == target {
      RemoveFirstMembers(links[target], node);
      if u == candidate {
        AppendFresh(RemoveFirst(links[target], node), node);
      }
    } else if u == candidate {
      assert node !in links[candidate] by {
        assert candidate !in links[node];
      }
      AppendFresh(links[candidate], node);
    }
  }

  /** Appending a value absent from a repeat-free list keeps it repeat-free. */
  lemma AppendFresh(s: seq<int>, x: int)
    requires x !in s && forall a, b :: 0 <= a < b < |s| ==> s[a] != s[b]
    ensures forall a, b :: 0 <= a < b < |s + [x]| ==> (s + [x])[a] != (s + [x])[b]
  {
  }

  /** Rewiring one link of a simple graph to an accepted candidate leaves it simple. */
  lemma RewireLinkSimple(links: Links, node: int, target: int, candidate: int)
    requires Simple(links) && 0 <= node < |links| && 0 <= target < |links| && 0 <= candidate < |links|
    requires target != node && Accepts(links[node], node, target, candidate)
    ensures Simple(RewireLink(links, node, target, candidate))
  {
    var r := RewireLink(links, node, target, candidate);
    forall u | 0 <= u < |r|
      ensures r[u] == RewiredRow(links, node, target, candidate, u)
      ensures forall v :: v in r[u] <==>
                (v in links[u] && !((u == node && v == target) || (u == target && v == node))) ||
                (u == node && v == candidate) || (u == candidate && v == node)
      ensures forall a, b :: 0 <= a < b < |r[u]| ==> r[u][a] != r[u][b]
    {
      RewireLinkAt(links, node, target, candidate, u);
      RewiredRowFacts(links, node, target, candidate, u);
    }
    forall u, k | 0 <= u < |r| && 0 <= k < |r[u]|
      ensures 0 <= r[u][k] < |r|
    {
      assert r[u][k] in r[u];
    }
  }

  /** The result of the rewiring pass: the new lists, or running out of supplied picks
   *  inside the unbounded retry loop. */
  datatype RewireResult = Rewired(links: Links) | OutOfPicks

  /** The rewiring pass from round `d` of `node` on: every node visits its right
   *  neighbours `node + 1 .. node + steps`; each visit consumes one coin (the outcome of
   *  `NextSingle() < p`), and a true coin runs the retry loop over `picks`. */
  function RewireFrom(links: Links, steps: nat, node: nat, d: nat, coins: seq<bool>, picks: seq<int>): (r: RewireResult)
    requires steps <= |links| && node <= |links| && 1 <= d <= steps + 1
    requires |coins| == CoinsLeft(|links|, steps, node, d)
    requires forall k :: 0 <= k < |picks| ==> 0 <= picks[k] < |links|
    ensures r.Rewired? ==> |r.links| == |links|
    decreases |links| - node, steps + 1 - d
  {
    var n := |links|;
    if node == n then Rewired(links)
    else
      if d > steps then
        RewireFrom(links, steps, node + 1, 1, coins, picks)
      else
        var target := PeriodicCondition(node + d, n);
        if !coins[0] then RewireFrom(links, steps, node, d + 1, coins[1..], picks)
        else
          match FirstAccepted(links[node], node, target, picks)
          case None => OutOfPicks
          case Some(k) =>
            var next := RewireLink(links, node, target, picks[k]);
            assert |next| == n;
            RewireFrom(next, steps, node, d + 1, coins[1..], picks[k + 1..])
  }

  /** The coins the rewiring pass consumes from round `d` of `node` on: one per round left. */
  function CoinsLeft(n: nat, steps: nat, node: nat, d: nat): nat
    requires node <= n && 1 <= d <= steps + 1
    decreases n - node, steps + 1 - d
  {
    if node == n then 0
    else if d > steps then CoinsLeft(n, steps, node + 1, 1)
    else 1 + CoinsLeft(n, steps, node, d + 1)
  }

  /** The pass takes one coin per node and right neighbour: `(n - node) * steps - (d - 1)`
   *  from round `d` of `node` on, so `n * steps` for the whole pass. */
  lemma {:induction false} CoinsLeftCount(n: nat, steps: nat, node: nat, d: nat)
    requires node <= n && 1 <= d <= steps + 1 && (node < n || d == 1)
    ensures CoinsLeft(n, steps, node, d) == (n - node) * steps - (d - 1)
    decreases n - node, steps + 1 - d
  {
    if node < n {
      if d > steps {
        CoinsLeftCount(n, steps, node + 1, 1);
        assert (n - node) * steps == (n - (node + 1)) * steps + steps;
      } else {
        CoinsLeftCount(n, steps, node, d + 1);
      }
    }
  }

  /** A simple graph stays simple through the whole rewiring pass when each node has fewer
   *  right neighbours than there are nodes. */
  lemma {:induction false} RewireFromSimple(links: Links, steps: nat, node: nat, d: nat, coins: seq<bool>, picks: seq<int>)
    requires steps < |links| && node <= |links| && 1 <= d <= steps + 1
    requires |coins| == CoinsLeft(|links|, steps, node, d)
    requires forall k :: 0 <= k < |picks| ==> 0 <= picks[k] < |links|
    requires Simple(links)
    ensures RewireFrom(links, steps, node, d, coins, picks).Rewired? ==> Simple(RewireFrom(links, steps, node, d, coins, picks).links)
    decreases |links| - node, steps + 1 - d
  {
    var n := |links|;
    if node < n {
      if d > steps {
        RewireFromSimple(links, steps, node + 1, 1, coins, picks);
      } else {
        var target := PeriodicCondition(node + d, n);
        if !coins[0] {
          RewireFromSimple(links, steps, node, d + 1, coins[1..], picks);
        } else {
          match FirstAccepted(links[node], node, target, picks)
          case None =>
          case Some(k) =>
            var next := RewireLink(links, node, target, picks[k]);
            assert |next| == n;
            RewireLinkSimple(links, node, target, picks[k]);
            RewireFromSimple(next, steps, node, d + 1, coins[1..], picks[k + 1..]);
            assert RewireFrom(links, steps, node, d, coins, picks) == RewireFrom(next, steps, node, d + 1, coins[1..], picks[k + 1..]);
        }
      }
    }
  }
}
