# NetworkMetrics core in Dafny

This project models `Network.cs` of NetworkMetrics. That static C# class builds an
undirected network as one adjacency list per node (`LinksOfNodes`). It then computes the
network's structural metrics and saves the lists to, or loads them from, the text file
`Network.csv`.

The networks it builds are:
- square, triangular and honeycomb lattices on a torus;
- Erdős–Rényi random graphs;
- regular ring graphs;
- small-world graphs, which are ring graphs with rewired links;
- Barabási–Albert preferential-attachment trees.

The metrics it computes are:
- the degree frequency table;
- the link count;
- the triangle and connected-triple counts behind the clustering coefficient;
- breadth-first hop distances from every node;
- the labelling of connected components across successive searches;
- the largest component;
- the per-source distance sums.

The model is split into seven modules:

- `Topology` (`topology.dfy`) defines the adjacency-list type `Links` and the predicates of
  an undirected simple graph. It also holds the two pure helpers of the generators,
  `PeriodicCondition` and `FindTheTargetNode` (here `TargetNode`), an integer square root,
  and walks between nodes.
- `Lattices`, `Ring` and `RandomGraphs` give each generator's result as a function of its
  parameters and prove its shape: the number of links per node, ids within range,
  symmetry and simplicity.
- `Metrics` specifies the counting metrics, breadth-first distances and component
  bookkeeping as functions and predicates, and proves their properties.
- `NetworkFile` specifies the text `SaveNetwork` writes and what `LoadNetworkProcess`
  reads back. It proves the save/load round trip.
- `Networks` holds `class Network`, whose fields are the static fields of `Network.cs`
  (`LinksOfNodes`, `DegreeOfNodes`, `ComponentOfEachNode`, `ShortestPaths`,
  `CurrentComponentIndex`, `NextComponentIndex`, `ComponentsSize`, …). Its methods are
  the loops of the C# code. Each method is proved against the specification function of
  its module.

`System.Random` is replaced by draws passed in as parameters, in the order the code
consumes them:
- `coins: seq<bool>` holds the outcomes of `random.NextSingle() < p`: one per node pair for
  Erdős–Rényi, one per (node, right neighbour) for rewiring;
- `picks: seq<int>` holds the values of `random.Next(NodesCount)` in the rewiring retry loop;
- `draws: seq<int>` holds the values of `random.Next(tickets)` for Barabási–Albert.

The file system is replaced by strings: `networkFile` holds the content of `Network.csv`.

The class follows `Network.cs` as written, quirks included. They are recorded under
"## Findings". For the comma quirk and the stale component index, a corrected
definition is proved beside the as-written one. The triangular and honeycomb generators
produce lists that are not symmetric on an odd side of at least 3.
`Lattices.TriangularLatticeOddNotSymmetric` and `Lattices.HoneycombLatticeOddNotSymmetric`
exhibit this, and symmetry is proved for every even side.

## Model

| member | source | states |
|---|---|---|
| Topology.PeriodicCondition | Network.cs:219-227 | a value in `[-m, 2m)` is folded into `[0, m)` |
| Topology.PeriodicConditionMod | Network.cs:219-227 | on `[-m, 2m)` the fold is the value modulo `m`, i.e. the one value in `[0, m)` congruent to it |
| Topology.TargetNode | Network.cs:274-278 | for a column and row inside the lattice, the id `j*L+i` lies in `[0, L*L)` |
| Topology.TargetNodeDecodes | Network.cs:274-278 | the id decodes back to the same column (`% L`) and row (`/ L`) |
| Topology.TargetNodeInjective | Network.cs:274-278 | two cells of the lattice get the same id only when they are the same cell |
| Topology.FloorSqrt | Network.cs:70 | the integer square root: `r*r <= n < (r+1)*(r+1)` |
| Networks.LatticeSide | Network.cs:66-71 | the lattice side `L` taken from a non-negative node count satisfies `L*L <= n < (L+1)*(L+1)` |
| Networks.Network.Initialize | Network.cs:46-59 | the constructor stores every setting it is given and starts with an empty component map and empty arrays |
| Networks.Network.Create | Network.cs:61-111 | when loading: succeeds exactly when the file loads, and then takes the loaded settings and lists; otherwise the lattice sizing `NodesCount := L*L` is applied, the generator for the network type is run on the draws, and on success `linksOfNodes` is the generated network and `networkFile` is its saved text; a negative count fails |
| Networks.Network.CreateLoaded | Network.cs:61-78 | the loading path: succeeds exactly when `NetworkFile.Load` of the file's lines succeeds, and then holds the loaded settings and lists with the node count fitted to the type and `DegreeOfNodes` of that size |
| Networks.Network.CreateGenerated | Network.cs:66-111 | the generating path: the settings other than the node count are kept, a negative fitted count fails, and otherwise it succeeds exactly when the generator of the type does, leaving its lists and their saved text |
| Networks.Network.FitLattice | Network.cs:66-76 | a lattice type sets `LatticeLength` to the integer square root of the count and the count to its square; other types change nothing |
| Networks.Network.Generate | Network.cs:84-106 | the `switch` on the network type: the new lists are the specification network of that type; Barabási–Albert with fewer than 2 nodes and a rewiring that runs out of picks fail |
| Networks.Network.AssignLinksToNodes | Network.cs:113-119 | every node's list is copied from the temporary lists |
| Networks.Network.SimpleSquareLattice | Network.cs:121-157 | the lists built are `Lattices.SquareLattice(L)` |
| Lattices.SquareLinksOnTorus | Network.cs:129-151 | the four edge tests for the left, top, right and bottom links give the neighbours of `(i, j)` on the torus, with the column and row each folded by `PeriodicCondition` |
| Lattices.SquareLatticeInRange | Network.cs:121-157 | every node gets exactly 4 links, all of them ids in `[0, L*L)` |
| Lattices.SquareLatticeSymmetric | Network.cs:121-157 | `m` is in `n`'s list exactly when `n` is in `m`'s, for every side |
| Networks.Network.ErdosRenyiNetwork | Network.cs:159-182 | the lists built are `RandomGraphs.ErdosRenyi(n, coins)`: one coin per pair `i < j` in row-major order |
| RandomGraphs.PairCount | Network.cs:168-179 | the number of coins consumed is `n(n-1)/2` |
| RandomGraphs.PairIndexOrder | Network.cs:168-170 | pairs are consumed in strictly increasing row-major order, and each pair's index is below the pair count |
| RandomGraphs.ErdosRenyiLinked | Network.cs:168-179 | for `i < j`: `j` is in `i`'s list iff `i` is in `j`'s list iff the coin of pair `(i, j)` came up |
| RandomGraphs.ErdosRenyiSimple | Network.cs:161-179 | every list is strictly ascending, and the network is simple: ids in range, symmetric, no self-loop, no repeat |
| Networks.Network.RegularRingGraph | Network.cs:184-217 | without rewiring, the lists are `Ring.RegularRing(n, degree/2)`; with rewiring, they are the ring rewired by `Ring.RewireFrom` with the given coins and picks, and the method fails exactly when the picks run out |
| Ring.RingSteps | Network.cs:193 | the number of neighbours on each side is `degree / 2` for a non-negative degree, and 0 below 2 |
| Ring.RingLinks | Network.cs:190-200 | each node's list has `2 * steps` entries |
| Ring.RingLinksAt | Network.cs:196-197 | entry `2(d-1)` is `node+d` and entry `2d-1` is `node-d`, both folded modulo `n` |
| Ring.RegularRingInRange | Network.cs:188-203 | ids lie in `[0, n)` and the total degree is `n * 2 * steps` |
| Ring.RegularRingSymmetric | Network.cs:188-203 | the ring's lists are symmetric |
| Ring.RegularRingSimple | Network.cs:188-203 | when `2*steps < n`, the ring is a simple graph |
| Networks.Network.RingGraphRewiring | Network.cs:383-431 | the lists after the rewiring loops are `Ring.RewireFrom` of the lists before, with the same coins and picks, and the method succeeds exactly when that does not run out of picks |
| Networks.Network.RewireRetry | Network.cs:395-424 | the retry loop rewires to the first acceptable pick, or reports that no pick is acceptable and leaves the lists unchanged |
| Networks.Network.DuplicateLink | Network.cs:401-412 | the scan reports a duplicate exactly when the candidate is already a neighbour other than the link being rewired |
| Networks.Network.MoveLink | Network.cs:416-420 | the two `Remove`s and two `Add`s give `Ring.RewireLink` of the lists |
| Ring.RemoveFirst | Network.cs:416-417 | `List.Remove` shortens the list by one when the value is present and leaves it unchanged otherwise |
| Ring.RemoveFirstCount | Network.cs:416-417 | the removal takes exactly one copy of the value out of the list's multiset |
| Ring.RemoveFirstMembers | Network.cs:416-417 | on a list without repeats, the removal keeps it repeat-free and leaves exactly the other entries |
| Ring.CoinsLeftCount | Network.cs:383-393 | the rewiring pass draws one coin per node and right neighbour: `n * steps` for the whole pass |
| Ring.FirstAccepted | Network.cs:395-412 | finds the first pick that is neither the node nor a current neighbour other than the rewired one; when there is none, no pick is acceptable |
| Ring.RewireLinkSimple | Network.cs:414-420 | moving a link to an accepted pick keeps the network simple |
| Ring.RewireFromSimple | Network.cs:383-431 | a successful rewiring of a simple network yields a simple network |
| Networks.Network.BarabasiAlbertNetwork | Network.cs:351-381 | the lists built are `RandomGraphs.BarabasiAlbert(n, draws)`; the loop invariant keeps `tickets` equal to the total degree |
| Networks.Network.TicketScan | Network.cs:362-373 | the inner scan picks `RandomGraphs.Winner` of the draw, and `tickets` grows by 2 |
| RandomGraphs.WinnerSmallest | Network.cs:362-373 | for a draw `r` below the total degree, a winner exists; it is the smallest `i` with `deg(0)+…+deg(i) >= r` |
| RandomGraphs.WinnerOfZero | Network.cs:362-373 | a draw of 0 picks node 0 |
| RandomGraphs.BarabasiAlbert | Network.cs:351-381 | `n` lists whose total degree is `2(n-1)`, i.e. the ticket count at each loop head |
| RandomGraphs.BarabasiAlbertStepRow | Network.cs:375-376 | the new node's list is exactly its winner, and only the winner's list gains the new node |
| RandomGraphs.BarabasiAlbertSimple | Network.cs:351-381 | the network is simple |
| RandomGraphs.BarabasiAlbertFirstLink | Network.cs:375 | every node after the first has a first link, and it points to an earlier node |
| Networks.Network.TriangularLattice | Network.cs:230-272 | the lists built are `Lattices.TriangularLattice(L)`, with `condition` flipping after every row |
| Networks.Network.TriangularRow | Network.cs:237-268 | the inner loop fills row `j`: afterwards every node up to the end of the row holds its list of `Lattices.TriangularLattice(L)` |
| Networks.Network.TriangularNodeLinks | Network.cs:239-264 | one node's six links, given the row's `condition` |
| Lattices.TriangularLatticeInRange | Network.cs:230-270 | every node gets exactly 6 links, all of them ids in `[0, L*L)` |
| Lattices.RowConditionAlternates | Network.cs:234-269 | on an even side, the diagonal offset of the next and of the previous row is the negation of this row's, across the wrap too |
| Lattices.TriangularLatticeSymmetric | Network.cs:230-289 | for an even side, the triangular lattice is symmetric |
| Lattices.TriangularLatticeOddNotSymmetric | Network.cs:234-269 | for an odd side of at least 3, the node in column 0 of the last row lists the node in the last column of row 0, which does not list it back |
| Networks.Network.HoneycombNetwork | Network.cs:291-332 | the lists built are `Lattices.HoneycombLattice(L)`; `bottomLink` toggles after every node and again after every row |
| Networks.Network.HoneycombNodeLinks | Network.cs:300-322 | one node's three links, given `bottomLink` |
| Lattices.BottomLinkFlips | Network.cs:324-329 | the closed form of `bottomLink` flips from node to node and across the end of a row |
| Lattices.BottomLinkCheckerboard | Network.cs:295-329 | on an even side, a node has its bottom link exactly when `i + j` is even |
| Lattices.HoneycombLatticeInRange | Network.cs:291-330 | every node gets exactly 3 links, all of them ids in `[0, L*L)` |
| Lattices.HoneycombLatticeSymmetric | Network.cs:291-349 | for an even side, the honeycomb lattice is symmetric |
| Lattices.HoneycombLatticeOddNotSymmetric | Network.cs:295-329 | for an odd side of at least 3, node 0 lists node `L`, which does not list it back |
| Networks.Network.DegreeDistribution | Network.cs:457-471 | `DegreeOfNodes[v]` is the length of `v`'s list; the table has ascending degrees, and each degree is paired with the number of nodes that have it |
| Metrics.OrderByKey | Network.cs:471 | `OrderBy(x => x.Key)` lists every key of the map exactly once, with its value, in strictly ascending order |
| Metrics.CountDegreePositive | Network.cs:457-469 | a degree's count among the first `m` nodes is positive iff one of them has that degree |
| Metrics.DegreeTableTotal | Network.cs:457-471 | the frequencies of a degree table add up to the node count |
| Networks.Network.CountNumberOfLinks | Network.cs:444-455 | `LinksCount` is the sum of `DegreeOfNodes` halved; when the degrees were filled first, it is `Metrics.LinkCount` of the lists |
| Metrics.LinkCountIsEdges | Network.cs:444-455 | in a simple network, `LinksCount` is the number of links, i.e. of pairs `u < v` with `v` in `u`'s list; the total degree is twice that number |
| Networks.Network.CalculateClusteringCoefficient | Network.cs:503-529 | the two counters are `Metrics.Triangles` and `Metrics.Triples` of the lists, and `0 <= triangles <= triples` |
| Metrics.NodeTrianglesBound | Network.cs:510-520 | after the first `i` neighbours of a node, at most one triangle has been counted per index pair `a < b` |
| Metrics.TrianglesAtMostTriples | Network.cs:508-527 | the triangle count never exceeds the sum of `d(d-1)/2` |
| Networks.Network.FindShortestPaths | Network.cs:586-618 | the distances left in `ShortestPaths` satisfy `Metrics.BreadthFirst`; the loop invariant keeps every queued node reached and the queue in level order |
| Metrics.WalkReached | Network.cs:586-618 | the end of a walk from the source is reached, at a distance no greater than the walk's length |
| Metrics.ReachedByWalk | Network.cs:586-618 | every reached node is the end of a walk from the source whose length is its distance |
| Metrics.BreadthFirstDistances | Network.cs:586-618 | a node's distance is not `-1` iff it is reachable from the source, and then it is the shortest walk length |
| Metrics.TwoComponentSearch | Network.cs:586-618 | a concrete search from node 2 on a two-component network satisfies `BreadthFirst` |
| Networks.Network.AveragePathDistanceForOneNode | Network.cs:620-636 | the numerator is the sum of the distances that are not `-1`; the divisor is the size recorded for `CurrentComponentIndex`, and it is absent when no size is recorded for it |
| Metrics.ReachedSumNonNegative | Network.cs:622-629 | that sum is never negative |
| Networks.Network.ComponentAssigningProcess | Network.cs:638-666 | the new labels, current index, next index and size map are `Metrics.AssignComponent` of the old ones |
| Metrics.FirstReached | Network.cs:641-654 | the scan stops at the lowest-id reached node, or finds none |
| Metrics.AssignComponentRecorded | Network.cs:638-666 | the labelling invariant (`ComponentsSize` has exactly the keys `0..next-1`, each with a positive size; every label is `-1` or one of them) is preserved, and the current index names a recorded component |
| Metrics.AssignComponentSize | Network.cs:650-664 | for a new component, `NextComponentIndex` goes up by one and the size recorded for it equals the number of nodes that carry its label |
| Metrics.RelabelCount | Network.cs:652-653 | after relabelling with a fresh label, the nodes carrying it are exactly the reached nodes |
| Metrics.StaleCurrentComponent | Network.cs:646-663 | a concrete run where minting component 1 (of size 3) leaves the current index at component 0 (of size 2) |
| Metrics.FixedCurrentIsOwnComponent | Network.cs:638-666 | with the correction, the current index is the label of the source's own component, and a new component's size is the reached count |
| Networks.Network.AveragePathDistanceOfAllNodes | Network.cs:553-577 | starting from all labels `-1`: for every node, a search that satisfies `BreadthFirst` from it and its distance sum; the final labelling is `Metrics.AssignAll` of the searches in order, and node `v`'s divisor is the size the labelling after the first `v + 1` searches records for its current component |
| Networks.Network.SearchEveryNode | Network.cs:565-574 | the second loop: for every node, a breadth-first search and its distance sum; the labelling becomes `Metrics.AssignAll` of the searches from the given one, and node `v`'s divisor is the current component's size after the first `v + 1` searches |
| Networks.Network.PathDistancesFrom | Network.cs:566-574 | one iteration: a breadth-first search from the node and its distance sum; the labelling becomes `Metrics.AssignComponent` of the old one; the divisor is the size recorded for the current component afterwards |
| Metrics.AssignAll | Network.cs:566-574 | the labelling after the searches in turn keeps the labelling invariant and one label per node |
| Metrics.DivisorsExtend | Network.cs:568-574 | adding a node whose divisor is the current component's size after its own search keeps every earlier node's divisor statement |
| Networks.Network.FindTheLargestComponent | Network.cs:579-584 | `MaxBy` gives the first component of greatest size in key order, and there is none when no component exists |
| Metrics.LargestIsFirstMaximum | Network.cs:579-584 | the largest component has a size at least every recorded size, and no earlier key reaches it |
| Networks.Network.SaveNetwork | Network.cs:668-717 | the file text is exactly `NetworkFile.NetworkText` of the type, lists and settings |
| Networks.Network.WriteHeadSection | Network.cs:668-695 | the text before the rows is the load header, a blank line, one `title,value` line per metadata pair, a blank line and the links header |
| Networks.Network.WriteRows | Network.cs:697-714 | the rows loop appends every node's row as written, with a line break after every row but the last |
| Networks.Network.WriteRow | Network.cs:699-710 | one row is appended as written: `-1` when empty, and otherwise a comma after every value that differs from the row's last value |
| NetworkFile.Metrics | Network.cs:674-691 | the metadata always starts with the type and the node count |
| NetworkFile.WriteMetrics | FileManager.cs:37-48 | appends one `title,value` line per pair |
| NetworkFile.MetricLines | FileManager.cs:41-45 | one line per pair, in order |
| NetworkFile.TypeNameRoundTrip | Network.cs:756 | `Enum.Parse` of a type's name gives back the type, and a name holds no comma or line break |
| NetworkFile.IntText | Network.cs:700-709 | a number's text is non-empty, has no comma or line break, and starts with `-` exactly when the number is negative |
| NetworkFile.ParseInt | Network.cs:744 | `int.Parse` yields only 32-bit values |
| NetworkFile.IntTextRoundTrip | Network.cs:744 | `int.Parse` of a 32-bit number's text gives the number back |
| NetworkFile.SplitJoin | Network.cs:740 | `Split` undoes `Join` for parts that hold no separator |
| NetworkFile.ParseAll | Network.cs:744 | `Array.ConvertAll(parts, int.Parse)` succeeds exactly when every part parses, and then gives each part's value |
| NetworkFile.ReadJoinedLines | Network.cs:725 | `File.ReadLines` gives back the lines of a text joined by line breaks, with or without a final line break |
| NetworkFile.RowRoundTrip | Network.cs:740-749 | the corrected row text of every row of 32-bit values not starting with `-1` loads back as the same row, and the empty row is written `-1` |
| NetworkFile.RowTextAsWrittenAgrees | Network.cs:703-709 | when no earlier value equals a row's last value, the row as written is the corrected row text |
| NetworkFile.RowTextAsWrittenLosesCommas | Network.cs:705 | node 0 of the 2 by 2 square lattice lists `1, 2, 1, 2`; it is written `1,21,2` and read back as `1, 21, 2` |
| NetworkFile.Load | Network.cs:719-770 | a successful load gives exactly `NodesCount` lists |
| NetworkFile.LoadLinesAppend | Network.cs:725-762 | the loader's line loop over `a + b` is the loop over `a` continued over `b` |
| NetworkFile.MetricLinesLoad | Network.cs:751-761 | reading the metadata lines written for a network restores its type, node count, ring degree and rewiring text, but not the Erdős–Rényi probability |
| NetworkFile.SaveLoadRoundTrip | Network.cs:668-770 | loading the saved text of a network whose rows have 32-bit values, do not start with `-1` and repeat no last value restores its lists, type and node count |
| NetworkFile.SimplePersistable | Network.cs:668-770 | every simple network with a 32-bit node count meets the round-trip condition |
| Networks.Network.LoadNetworkProcess | Network.cs:719-770 | succeeds exactly when `NetworkFile.Load` of the file's lines succeeds; the settings and lists are then the loaded ones |

## Left out

- Doubles are not modelled, so the model stops at the integer numerators and divisors. This leaves out:
  - `CalculateAverageDegree` (Network.cs:483-501);
  - `CalculateLargestComponentAveragePathDistance` (Network.cs:534-551);
  - the degree fractions written by `DegreeDistribution`;
  - the clustering ratio, including its 0/0 case;
  - the per-node path averages.
- The probabilities `ErdosRenyiProbability` and `RewiringProbability` are kept as the text they are written as. Comparisons against them are the injected coins, and `double.Parse` in the loader always succeeds in the model.
- The culture-dependent formatting of doubles is not modelled.
- `System.Random` is not modelled: its draws are parameters. The `requires` of `Create`, `Generate`, `RegularRingGraph` and `RingGraphRewiring` demand that the draws come in the number and range `Random` produces. For the small-world type they also demand the one restriction below.
- Networks.Network.RegularRingGraph: with rewiring, the ring's half-degree `RingGraphDegree / 2` must not exceed the node count. Above that, the source builds ids outside `[0, NodesCount)`; for example `n = 2` with degree 6 lists 2 and -1. It throws only when such a link is rewired. The model does not cover this case. The configuration's validated range, an even `RingGraphDegree` below the node count, excludes it.
- Networks.Network.RingGraphRewiring, Networks.Network.Generate and Networks.Network.Create carry the same restriction for the small-world type.
- Networks.Network.CalculateClusteringCoefficient requires every listed id to lie in `[0, NodesCount)`. On an id outside it, the source throws `IndexOutOfRangeException`; the model does not cover that case. Every generator meets the range under the validated configuration. The ring without rewiring leaves it only when `RingGraphDegree / 2` exceeds the node count, which the validated range excludes.
- Networks.Network.FindShortestPaths requires every listed id to lie in `[0, NodesCount)`, for the same reason.
- Networks.Network.AveragePathDistanceOfAllNodes requires every listed id to lie in `[0, NodesCount)`, for the same reason.
- Networks.Network.PathDistancesFrom requires every listed id to lie in `[0, NodesCount)`, for the same reason.
- Networks.Network.RewireRetry: the source's `while (true)` retry is unbounded. The model consumes a finite sequence of picks, and running out of them is reported as a failure of the whole rewiring.
- Integers are unbounded. The model does not capture 32-bit overflow in node ids, `tickets`, `L*L`, the distance sums or the link count. `int.Parse` and the number text are bounded to 32 bits, because the round trip depends on it.
- Networks.LatticeSide: `(int)Math.Sqrt` of a negative count (NaN) is taken as 0.
- NetworkFile.ParseTypeName: `Enum.Parse` also accepts an integer's text, surrounding white space and comma-separated member lists. For example, `NetworkType,1` loads as `ErdosRenyi`, and `NetworkType,42` loads as an enum value with no member. The model accepts only the exact member names, which are the only texts `SaveNetwork` writes. A file with any other type text fails to load here.
- `int.Parse` is modelled as an optional sign followed by decimal digits. Surrounding white space, culture-specific signs and `\r\n` line ends are not modelled. `File.ReadLines` splits at `\n` only.
- Networks.Network.FindTheLargestComponent: `MaxBy` on an empty dictionary throws. Here it reports `false` and leaves both fields unchanged.
- Console output, the `StreamWriter`s and `File.ReadLines` are not modelled. The file is the string field `networkFile`.
- `Program.cs` (orchestration, timing, launching Python), the JSON configuration and console formatting in `FileManager.cs` other than `WriteMetrics`, and `Script.py` are not part of this model.

## Findings

| source | as written | input that shows it | evidently intended | confidence | as-written member | corrected member |
|---|---|---|---|---|---|---|
| Network.cs:705 | a comma is written after a value only when it differs from the row's last value, so an earlier copy of the last value loses its comma | the 2 by 2 square lattice: node 0 lists `1, 2, 1, 2`, which is written `1,21,2` and loads as `1, 21, 2` | a comma after every value except the one in the last position | high (proved; not executed) | NetworkFile.RowTextAsWrittenLosesCommas | NetworkFile.RowRoundTrip |
| Network.cs:646-663 | when a search mints a new component, `CurrentComponentIndex` is left unchanged, so the divisor used next is the size of a previously seen component | links `[[1],[0],[3],[2,4],[3]]`: after the search from node 0 labels component 0 (size 2), the search from node 2 mints component 1 (size 3), but the current index stays at 0, so the divisor is 2 | the new component becomes the current one | medium (proved; not executed) | Metrics.StaleCurrentComponent | Metrics.FixedCurrentIsOwnComponent |
| Network.cs:234-269 | the diagonal offset `condition` flips after every row, so on an odd side the last row and row 0 wrap around with the same offset, and their diagonal links do not match | side 3: node 6 (column 0, row 2) lists node 2 (column 2, row 0), but node 2 does not list node 6 | symmetric lists, as on every even side | medium (proved; not executed) | Lattices.TriangularLatticeOddNotSymmetric | Lattices.TriangularLatticeSymmetric |
| Network.cs:295-329 | `bottomLink` toggles after every node and once more after every row, so on an odd side the checkerboard of up and down links does not close around the torus | side 3: node 0 lists node 3 below it, but node 3 does not list node 0 | symmetric lists, as on every even side | medium (proved; not executed) | Lattices.HoneycombLatticeOddNotSymmetric | Lattices.HoneycombLatticeSymmetric |

The class `Networks.Network` keeps all four behaviours as written. `NetworkFile.SaveLoadRoundTrip` holds for the rows on which the two row texts agree (`NetworkFile.RowTextAsWrittenAgrees`), and every simple network's rows are among them (`NetworkFile.SimplePersistable`).
