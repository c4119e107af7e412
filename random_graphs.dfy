/** The two random generators of Network.cs as specification functions of the draws they
 *  consume: Erdős–Rényi (one coin per node pair, in row-major pair order) and
 *  Barabási–Albert (one ticket draw per new node). */
module RandomGraphs {
  import opened Topology

  // ----------------------------------------------------------------- Erdős–Rényi

  /** The position, in row-major order over the pairs `i < j < n`, of the first pair of row `i`. */
  function RowStart(i: nat, n: int): int
  {
    if i == 0 then 0 else RowStart(i - 1, n) + (n - i)
  }

  /** The position of the coin drawn for the pair `(i, j)`. */
  function PairIndex(i: nat, j: int, n: int): int
  {
    RowStart(i, n) + (j - i - 1)
  }

  /** The number of coins the generator draws: one per unordered pair. */
  function PairCount(n: nat): (count: nat)
    ensures 2 * count == n * (n - 1)
  {
    if n == 0 then 0 else PairCount(n - 1) + (n - 1)
  }

  lemma {:induction false} RowStartMonotone(i: nat, k: nat, n: int)
    requires i <= k <= n
    ensures RowStart(i, n) <= RowStart(k, n)
    decreases k - i
  {
    if i < k {
      RowStartMonotone(i, k - 1, n);
    }
  }

  /** All rows together hold `PairCount(n)` pairs. */
  lemma {:induction false} RowStartAll(n: nat)
    ensures RowStart(n, n) == PairCount(n)
  {
    RowStartShift(n, n);
  }

  lemma {:induction false} RowStartShift(i: nat, n: nat)
    requires i <= n
    ensures RowStart(i, n) == PairCount(n) - PairCount(n - i)
  {
    if i > 0 {
      RowStartShift(i - 1, n);
      assert PairCount(n - i + 1) == PairCount(n - i) + (n - i);
    }
  }

  /** Coins are drawn in row-major pair order: an earlier pair has an earlier coin, and every
   *  pair has one of the `PairCount(n)` coins. */
  lemma PairIndexOrder(a: nat, b: int, c: nat, d: int, n: nat)
    requires a < b < n && c < d < n
    requires a < c || (a == c && b < d)
    ensures 0 <= PairIndex(a, b, n) < PairIndex(c, d, n) < PairCount(n)
  {
    RowStartAll(n);
    RowStartMonotone(0, a, n);
    RowStartMonotone(c + 1, n, n);
    if a < c {
      RowStartMonotone(a + 1, c, n);
    }
  }

  /** The coin of the pair `(i, j)`; a pair without a coin is never linked. */
  predicate Coin(coins: seq<bool>, i: int, j: int, n: int)
  {
    0 <= i && 0 <= PairIndex(i, j, n) < |coins| && coins[PairIndex(i, j, n)]
  }

  /** The nodes `a < m` whose coin with `v` came up, ascending: the entries `v` receives as
   *  the second node of a pair. */
  function Lower(coins: seq<bool>, n: int, v: int, m: int): seq<int>
    decreases m
  {
    if m <= 0 then [] else Lower(coins, n, v, m - 1) + (if Coin(coins, m - 1, v, n) then [m - 1] else [])
  }

  /** The nodes `v < b < m` whose coin with `v` came up, ascending: the entries `v` receives
   *  as the first node of a pair. */
  function Upper(coins: seq<bool>, n: int, v: int, m: int): seq<int>
    decreases m - v
  {
    if m <= v + 1 then [] else Upper(coins, n, v, m - 1) + (if Coin(coins, v, m - 1, n) then [m - 1] else [])
  }

  predicate Ascending(s: seq<int>)
  {
    forall a, b :: 0 <= a < b < |s| ==> s[a] < s[b]
  }

  lemma {:induction false} LowerMembers(coins: seq<bool>, n: int, v: int, m: int)
    ensures Ascending(Lower(coins, n, v, m))
    ensures forall x :: x in Lower(coins, n, v, m) <==> 0 <= x < m && Coin(coins, x, v, n)
  {
    LowerHolds(coins, n, v, m);
    LowerAscending(coins, n, v, m);
  }

  lemma {:induction false} LowerHolds(coins: seq<bool>, n: int, v: int, m: int)
    ensures forall x :: x in Lower(coins, n, v, m) <==> 0 <= x < m && Coin(coins, x, v, n)
    decreases m
  {
    if m > 0 {
      LowerHolds(coins, n, v, m - 1);
    }
  }

  lemma {:induction false} LowerBelow(coins: seq<bool>, n: int, v: int, m: int)
    ensures forall a :: 0 <= a < |Lower(coins, n, v, m)| ==> Lower(coins, n, v, m)[a] < m
    decreases m
  {
    if m > 0 {
      LowerBelow(coins, n, v, m - 1);
    }
  }

  lemma {:induction false} LowerAscending(coins: seq<bool>, n: int, v: int, m: int)
    ensures Ascending(Lower(coins, n, v, m))
    decreases m
  {
    if m > 0 {
      LowerAscending(coins, n, v, m - 1);
      LowerBelow(coins, n, v, m - 1);
    }
  }

  lemma {:induction false} UpperMembers(coins: seq<bool>, n: int, v: int, m: int)
    ensures Ascending(Upper(coins, n, v, m))
    ensures forall x :: x in Upper(coins, n, v, m) <==> v < x < m && Coin(coins, v, x, n)
  {
    UpperHolds(coins, n, v, m);
    UpperAscending(coins, n, v, m);
  }

  lemma {:induction false} UpperHolds(coins: seq<bool>, n: int, v: int, m: int)
    ensures forall x :: x in Upper(coins, n, v, m) <==> v < x < m && Coin(coins, v, x, n)
    decreases m - v
  {
    if m > v + 1 {
      UpperHolds(coins, n, v, m - 1);
    }
  }

  lemma {:induction false} UpperBelow(coins: seq<bool>, n: int, v: int, m: int)
    ensures forall a :: 0 <= a < |Upper(coins, n, v, m)| ==> Upper(coins, n, v, m)[a] < m
    decreases m - v
  {
    if m > v + 1 {
      UpperBelow(coins, n, v, m - 1);
    }
  }

  lemma {:induction false} UpperAscending(coins: seq<bool>, n: int, v: int, m: int)
    ensures Ascending(Upper(coins, n, v, m))
    decreases m - v
  {
    if m > v + 1 {
      UpperAscending(coins, n, v, m - 1);
      UpperBelow(coins, n, v, m - 1);
    }
  }

  /** The final list of `v`: its partners from earlier rows, then those of its own row. */
  function ErdosRenyiRow(coins: seq<bool>, n: int, v: int): seq<int>
  {
    Lower(coins, n, v, v) + Upper(coins, n, v, n)
  }

  function ErdosRenyi(n: nat, coins: seq<bool>): Links
  {
    seq(n, v => ErdosRenyiRow(coins, n, v))
  }

  /** The list of `v` once the pairs before `(i, j)` have been drawn. */
  function ErdosRenyiPartial(coins: seq<bool>, n: int, v: int, i: nat, j: int): seq<int>
  {
    if v < i then ErdosRenyiRow(coins, n, v)
    else if v == i then Lower(coins, n, v, v) + Upper(coins, n, v, j)
    else if v < j then Lower(coins, n, v, i + 1)
    else Lower(coins, n, v, i)
  }

  /** Drawing the coin of `(i, j)` appends `j` to the list of `i` and `i` to the list of `j`
   *  when it comes up, and changes nothing else. */
  lemma ErdosRenyiStep(coins: seq<bool>, n: int, v: int, i: nat, j: int)
    requires i < j
    ensures ErdosRenyiPartial(coins, n, v, i, j + 1) ==
              ErdosRenyiPartial(coins, n, v, i, j) +
              (if Coin(coins, i, j, n) && v == i then [j] else if Coin(coins, i, j, n) && v == j then [i] else [])
  {
  }

  /** The end of row `i` is the start of row `i + 1`. */
  lemma ErdosRenyiRowEnd(coins: seq<bool>, n: int, v: int, i: nat)
    requires i < n && 0 <= v < n
    ensures ErdosRenyiPartial(coins, n, v, i, n) == ErdosRenyiPartial(coins, n, v, i + 1, i + 2)
  {
    if v == i + 1 {
      assert Upper(coins, n, v, i + 2) == [];
    }
  }

  lemma ErdosRenyiStart(coins: seq<bool>, n: int, v: int)
    requires 0 <= v
    ensures ErdosRenyiPartial(coins, n, v, 0, 1) == []
  {
  }

  /** For `i < j`: `j` is listed by `i` exactly when the coin of `(i, j)` came up, and
   *  exactly then `i` is listed by `j`. */
  lemma ErdosRenyiLinked(n: nat, coins: seq<bool>, i: nat, j: nat)
    requires i < j < n
    ensures j in ErdosRenyi(n, coins)[i] <==> Coin(coins, i, j, n)
    ensures i in ErdosRenyi(n, coins)[j] <==> Coin(coins, i, j, n)
  {
    LowerMembers(coins, n, i, i);
    UpperMembers(coins, n, i, n);
    LowerMembers(coins, n, j, j);
    UpperMembers(coins, n, j, n);
  }

  /** Every list is strictly ascending, names only nodes other than its owner, and the
   *  whole is a simple graph. */
  lemma ErdosRenyiSimple(n: nat, coins: seq<bool>)
    ensures forall v :: 0 <= v < n ==> Ascending(ErdosRenyi(n, coins)[v])
    ensures Simple(ErdosRenyi(n, coins))
  {
    var links := ErdosRenyi(n, coins);
    forall v | 0 <= v < n
      ensures Ascending(links[v])
      ensures forall x :: x in links[v] <==> (0 <= x < v && Coin(coins, x, v, n)) || (v < x < n && Coin(coins, v, x, n))
    {
      LowerMembers(coins, n, v, v);
      UpperMembers(coins, n, v, n);
      var lo, up := Lower(coins, n, v, v), Upper(coins, n, v, n);
      assert links[v] == lo + up;
      forall a, b | 0 <= a < b < |links[v]|
        ensures links[v][a] < links[v][b]
      {
        if a < |lo| && b >= |lo| {
          assert links[v][a] == lo[a] && lo[a] in lo;
          assert links[v][b] == up[b - |lo|] && up[b - |lo|] in up;
        }
      }
    }
    forall u, k | 0 <= u < n && 0 <= k < |links[u]|
      ensures 0 <= links[u][k] < n
    {
      assert links[u][k] in links[u];
    }
  }

  // ------------------------------------------------------------- Barabási–Albert

  /** `deg(0) + ... + deg(k)`. */
  function DegreeUpTo(lists: Links, k: nat): nat
    requires k < |lists|
  {
    TotalDegree(lists[..k + 1])
  }

  /** The ticket scan from list `i` on: subtract the length of each list from the draw and
   *  stop at the first list that brings it to zero or below. */
  function WinnerFrom(lists: Links, i: nat, rest: int): (w: Option<nat>)
    requires i <= |lists|
    ensures w.Some? ==> i <= w.value < |lists|
    decreases |lists| - i
  {
    if i == |lists| then None
    else if rest - |lists[i]| <= 0 then Some(i)
    else WinnerFrom(lists, i + 1, rest - |lists[i]|)
  }

  /** The node a ticket draw `r` selects among `lists`. */
  function Winner(lists: Links, r: int): (w: Option<nat>)
    ensures w.Some? ==> w.value < |lists|
  {
    WinnerFrom(lists, 0, r)
  }

  /** The scan, having passed lists `0 .. i-1`, finds the smallest `w` whose degree prefix
   *  `deg(0) + ... + deg(w)` reaches the draw. */
  lemma {:induction false} WinnerFromSmallest(lists: Links, i: nat, r: int)
    requires 0 <= r < TotalDegree(lists) && i <= |lists|
    requires forall k :: 0 <= k < i ==> DegreeUpTo(lists, k) < r
    requires i > 0 ==> DegreeUpTo(lists, i - 1) < r
    ensures WinnerFrom(lists, i, r - TotalDegree(lists[..i])).Some?
    ensures var w := WinnerFrom(lists, i, r - TotalDegree(lists[..i])).value;
            r <= DegreeUpTo(lists, w) && forall k :: 0 <= k < w ==> DegreeUpTo(lists, k) < r
    decreases |lists| - i
  {
    if i < |lists| {
      assert lists[..i + 1][..i] == lists[..i];
      if r - TotalDegree(lists[..i]) - |lists[i]| > 0 {
        WinnerFromSmallest(lists, i + 1, r);
      }
    } else {
      WholePrefix(lists);
      assert false;
    }
  }

  lemma WholePrefix(lists: Links)
    ensures TotalDegree(lists[..|lists|]) == TotalDegree(lists)
  {
    assert lists[..|lists|] == lists;
  }

  /** A draw `0 <= r < tickets` selects the smallest node `w` with
   *  `deg(0) + ... + deg(w) >= r`; in particular a winner always exists among the lists. */
  lemma WinnerSmallest(lists: Links, r: int)
    requires 0 <= r < TotalDegree(lists)
    ensures Winner(lists, r).Some?
    ensures r <= DegreeUpTo(lists, Winner(lists, r).value)
    ensures forall k :: 0 <= k < Winner(lists, r).value ==> DegreeUpTo(lists, k) < r
  {
    assert lists[..0] == [];
    WinnerFromSmallest(lists, 0, r);
  }

  /** The draw 0 selects node 0. */
  lemma WinnerOfZero(lists: Links)
    requires |lists| > 0
    ensures Winner(lists, 0) == Some(0)
  {
  }

  /** The draws the generator may see: node `t` draws below its ticket count `2 * (t - 1)`. */
  predicate TicketDraws(n: nat, draws: seq<int>)
  {
    n >= 2 && |draws| == n - 2 && forall k :: 0 <= k < |draws| ==> 0 <= draws[k] < 2 * (k + 1)
  }

  /** The lists after nodes `0 .. n-1` have joined: nodes 0 and 1 start linked, and node `t`
   *  links to the winner of its draw, which lists it back. */
  function BarabasiAlbert(n: nat, draws: seq<int>): (links: Links)
    requires TicketDraws(n, draws)
    ensures |links| == n && TotalDegree(links) == 2 * (n - 1)
    decreases n
  {
    if n == 2 then
      assert [[1], [0]][..1] == [[1]];
      [[1], [0]]
    else
      var prev := BarabasiAlbert(n - 1, draws[..n - 3]);
      WinnerSmallest(prev, draws[n - 3]);
      var w := Winner(prev, draws[n - 3]).value;
      BarabasiAlbertStep(prev, w, n - 1)
  }

  /** Node `t` joins, linked to `w`. */
  function BarabasiAlbertStep(prev: Links, w: nat, t: int): (links: Links)
    requires w < |prev|
    ensures |links| == |prev| + 1 && TotalDegree(links) == TotalDegree(prev) + 2
  {
    var grown := prev[w := prev[w] + [t]];
    TotalDegreeAppend(prev, w, t);
    TotalDegreeSplit(grown, [[w]]);
    assert [[w]][..0] == [];
    grown + [[w]]
  }

  /** Row `u` after node `t = |prev|` joins through `w`. */
  lemma BarabasiAlbertStepRow(prev: Links, w: nat, u: int)
    requires Simple(prev) && w < |prev| && 0 <= u <= |prev|
    ensures var links := BarabasiAlbertStep(prev, w, |prev|);
            (forall v :: v in links[u] <==> (u < |prev| && v in prev[u]) || (u == w && v == |prev|) || (u == |prev| && v == w)) &&
            (forall k :: 0 <= k < |links[u]| ==> 0 <= links[u][k] <= |prev|) &&
            (forall a, b :: 0 <= a < b < |links[u]| ==> links[u][a] != links[u][b])
  {
    var t := |prev|;
    var links := BarabasiAlbertStep(prev, w, t);
    if u == t {
      assert links[u] == [w];
    } else if u == w {
      assert links[u] == prev[w] + [t];
      assert t !in prev[w];
      forall k | 0 <= k < |links[u]|
        ensures 0 <= links[u][k] <= t
      {
        if k < |prev[w]| {
          assert links[u][k] == prev[w][k];
        }
      }
    } else {
      assert links[u] == prev[u];
    }
  }

  /** A node joining a simple graph with a single link to an existing node keeps it simple. */
  lemma BarabasiAlbertStepSimple(prev: Links, w: nat)
    requires Simple(prev) && w < |prev|
    ensures Simple(BarabasiAlbertStep(prev, w, |prev|))
  {
    var t := |prev|;
    var links := BarabasiAlbertStep(prev, w, t);
    forall u | 0 <= u <= t
      ensures forall v :: v in links[u] <==> (u < t && v in prev[u]) || (u == w && v == t) || (u == t && v == w)
      ensures forall k :: 0 <= k < |links[u]| ==> 0 <= links[u][k] <= t
      ensures forall a, b :: 0 <= a < b < |links[u]| ==> links[u][a] != links[u][b]
    {
      BarabasiAlbertStepRow(prev, w, u);
    }
  }

  /** The generated network is a simple graph: a tree of `n - 1` links. */
  lemma {:induction false} BarabasiAlbertSimple(n: nat, draws: seq<int>)
    requires TicketDraws(n, draws)
    ensures Simple(BarabasiAlbert(n, draws))
    decreases n
  {
    if n > 2 {
      var prev := BarabasiAlbert(n - 1, draws[..n - 3]);
      BarabasiAlbertSimple(n - 1, draws[..n - 3]);
      WinnerSmallest(prev, draws[n - 3]);
      BarabasiAlbertStepSimple(prev, Winner(prev, draws[n - 3]).value);
    }
  }

  /** Every node but 0 lists first the earlier node it joined through (node 1 lists node 0). */
  lemma {:induction false} BarabasiAlbertFirstLink(n: nat, draws: seq<int>, t: nat)
    requires TicketDraws(n, draws) && 1 <= t < n
    ensures |BarabasiAlbert(n, draws)[t]| >= 1 && BarabasiAlbert(n, draws)[t][0] < t
    decreases n
  {
    if n > 2 {
      var prev := BarabasiAlbert(n - 1, draws[..n - 3]);
      WinnerSmallest(prev, draws[n - 3]);
      if t < n - 1 {
        BarabasiAlbertFirstLink(n - 1, draws[..n - 3], t);
      }
    }
  }
}
