/** The static class `Network` of Network.cs as a Dafny class: the parameters it is
 *  initialised with, the adjacency lists the generators fill, and the arrays and counters
 *  the metrics engine updates. The random draws the generators consume are passed in as
 *  sequences, in the order the code consumes them, and the file `Network.csv` is the
 *  string field `networkFile`. */
module Networks {
  import opened Topology
  import Lattices
  import Ring
  import RandomGraphs
  import Metrics
  import NetworkFile

  class Network {
    var loadNetwork: bool
    var ringGraphDegree: int
    var networkType: NetworkFile.NetworkType
    /** The two probabilities are kept as the text their `double` value is written as;
     *  their comparisons with random draws arrive as supplied booleans. */
    var erdosRenyiText: string
    var rewiringText: string
    var nodesCount: int
    var latticeLength: int
    var linksCount: int

    var linksOfNodes: array<seq<int>>
    var degreeOfNodes: array<int>
    var componentOfEachNode: array<int>
    var shortestPaths: array<int>

    var currentComponentIndex: int
    var nextComponentIndex: int
    var componentsSize: map<int, int>
    var largestComponentIndex: int
    var largestComponentNodeCount: int

    /** The content of `Network.csv`. */
    var networkFile: string

    /** `Initialize`: the parameters; every other field holds its default value. */
    constructor Initialize(load: bool, networkToCreate: NetworkFile.NetworkType, erdosRenyiProbability: string,
                           nodes: int, ringDegree: int, rewiringProbability: string, file: string)
      ensures loadNetwork == load && networkType == networkToCreate && erdosRenyiText == erdosRenyiProbability
      ensures nodesCount == nodes && ringGraphDegree == ringDegree && rewiringText == rewiringProbability
      ensures networkFile == file
      ensures componentsSize == map[] && nextComponentIndex == 0 && currentComponentIndex == 0
      ensures linksOfNodes.Length == 0 && degreeOfNodes.Length == 0
      ensures componentOfEachNode.Length == 0 && shortestPaths.Length == 0
    {
      loadNetwork := load;
      networkType := networkToCreate;
      erdosRenyiText := erdosRenyiProbability;
      nodesCount := nodes;
      ringGraphDegree := ringDegree;
      rewiringText := rewiringProbability;
      networkFile := file;
      latticeLength := 0;
      linksCount := 0;
      linksOfNodes := new seq<int>[0];
      degreeOfNodes := new int[0];
      componentOfEachNode := new int[0];
      shortestPaths := new int[0];
      currentComponentIndex := 0;
      nextComponentIndex := 0;
      componentsSize := map[];
      largestComponentIndex := 0;
      largestComponentNodeCount := 0;
    }

    /** `Create`: loads the network when asked to; for the three lattices, shrinks the node
     *  count to the largest square not above it; sizes `DegreeOfNodes`; and, when not
     *  loading, runs the generator of the network type and saves the result. `false` where
     *  the source throws (a failed load, a negative count, a Barabási–Albert network of
     *  fewer than two nodes) or where the rewiring runs out of picks. */
    method Create(coins: seq<bool>, picks: seq<int>, draws: seq<int>) returns (ok: bool)
      requires !loadNetwork ==> DrawsFit(networkType, nodesCount, ringGraphDegree, coins, picks, draws)
      modifies this
      ensures loadNetwork == old(loadNetwork)
      ensures !loadNetwork ==> GeneratedState(old(Settings()), old(nodesCount), coins, picks, draws, ok)
      ensures loadNetwork ==> LoadedState(old(Settings()), old(networkFile), ok)
    {
      if loadNetwork {
        ok := CreateLoaded();
      } else {
        ok := CreateGenerated(coins, picks, draws);
      }
    }

    /** What `Create` leaves behind when it generates: the settings but the node count
     *  unchanged, the node count fitted to the type, and, where the generator succeeds, its
     *  links and the text `SaveNetwork` writes for them. */
    ghost predicate GeneratedState(settings: NetworkFile.Settings, count: int, coins: seq<bool>, picks: seq<int>,
                                   draws: seq<int>, ok: bool)
      reads this, linksOfNodes, degreeOfNodes
    {
      Settings() == settings.(nodesCount := nodesCount) &&
      DrawsFit(networkType, count, ringGraphDegree, coins, picks, draws) &&
      var n := SizedCount(networkType, count);
      (IsLattice(networkType) ==> latticeLength == LatticeSide(count)) &&
      (n < 0 ==> !ok) &&
      (n >= 0 ==>
         var g := Generated(networkType, n, LatticeSide(count), ringGraphDegree, coins, picks, draws);
         (ok <==> g.Some?) &&
         (ok ==> nodesCount == n && degreeOfNodes.Length == n && linksOfNodes[..] == g.value &&
                 networkFile == NetworkFile.NetworkText(networkType, g.value, erdosRenyiText, ringGraphDegree, rewiringText)))
    }

    /** What `Create` leaves behind when it loads: the outcome of `LoadNetworkProcess` on
     *  the file, with the node count fitted to the type. */
    ghost predicate LoadedState(settings: NetworkFile.Settings, file: string, ok: bool)
      reads this, linksOfNodes, degreeOfNodes
    {
      var r := NetworkFile.Load(NetworkFile.ReadLines(file), settings);
      (ok <==> r.Loaded?) &&
      (ok ==> Settings() == r.settings.(nodesCount := nodesCount) && linksOfNodes[..] == r.links &&
              nodesCount == SizedCount(networkType, r.settings.nodesCount) && degreeOfNodes.Length == nodesCount)
    }

    /** `Create` with `LoadNetwork` set. */
    method CreateLoaded() returns (ok: bool)
      modifies this`networkType, this`nodesCount, this`ringGraphDegree, this`rewiringText, this`linksOfNodes,
               this`latticeLength, this`degreeOfNodes
      ensures LoadedState(old(Settings()), old(networkFile), ok)
    {
      ok := LoadNetworkProcess();
      if !ok {
        return;
      }
      FitLattice();
      if nodesCount < 0 {
        return false;
      }
      degreeOfNodes := new int[nodesCount];
    }

    /** `Create` with `LoadNetwork` unset. */
    method CreateGenerated(coins: seq<bool>, picks: seq<int>, draws: seq<int>) returns (ok: bool)
      requires DrawsFit(networkType, nodesCount, ringGraphDegree, coins, picks, draws)
      modifies this`latticeLength, this`nodesCount, this`degreeOfNodes, this`linksOfNodes, this`networkFile
      ensures GeneratedState(old(Settings()), old(nodesCount), coins, picks, draws, ok)
    {
      FitLattice();
      if nodesCount < 0 {
        return false;
      }
      degreeOfNodes := new int[nodesCount];
      linksOfNodes := new seq<int>[nodesCount];
      ok := Generate(coins, picks, draws);
      if !ok {
        return;
      }
      SaveNetwork();
    }

    /** The lattice step of `Create`: a lattice type rounds the node count down to the
     *  square of its side. */
    method FitLattice()
      modifies this`latticeLength, this`nodesCount
      ensures nodesCount == SizedCount(networkType, old(nodesCount))
      ensures IsLattice(networkType) ==> latticeLength == LatticeSide(old(nodesCount))
      ensures !IsLattice(networkType) ==> latticeLength == old(latticeLength)
    {
      if IsLattice(networkType) {
        latticeLength := LatticeSide(nodesCount);
        nodesCount := latticeLength * latticeLength;
      }
    }

    /** The `switch` of `Create`: the generator of the network type fills `LinksOfNodes`. */
    method Generate(coins: seq<bool>, picks: seq<int>, draws: seq<int>) returns (ok: bool)
      requires 0 <= nodesCount && linksOfNodes.Length == nodesCount
      requires IsLattice(networkType) ==> 0 <= latticeLength && nodesCount == latticeLength * latticeLength
      requires DrawsFit(networkType, nodesCount, ringGraphDegree, coins, picks, draws)
      modifies linksOfNodes
      ensures var g := Generated(networkType, nodesCount, latticeLength, ringGraphDegree, coins, picks, draws);
              (ok <==> g.Some?) && (ok ==> linksOfNodes[..] == g.value)
    {
      ok := true;
      match networkType {
        case SimpleSquareLattice =>
          SimpleSquareLattice();
        case ErdosRenyi =>
          ErdosRenyiNetwork(coins);
        case RegularRingGraph =>
          ok := RegularRingGraph(ringGraphDegree, false, coins, picks);
        case SmallWorld =>
          ok := RegularRingGraph(ringGraphDegree, true, coins, picks);
        case BarabasiAlbert =>
          if nodesCount < 2 {
            return false;
          }
          BarabasiAlbertNetwork(draws);
        case TriangularLattice =>
          TriangularLattice();
        case Honeycomb =>
          HoneycombNetwork();
      }
    }

    /** Copies the lists the generator built into `LinksOfNodes`. */
    method AssignLinksToNodes(tempLinks: array<seq<int>>)
      requires tempLinks != linksOfNodes
      requires tempLinks.Length == nodesCount == linksOfNodes.Length
      modifies linksOfNodes
      ensures linksOfNodes[..] == tempLinks[..]
    {
      for node := 0 to nodesCount
        invariant forall v :: 0 <= v < node ==> linksOfNodes[v] == tempLinks[v]
      {
        linksOfNodes[node] := tempLinks[node];
      }
    }

    // ------------------------------------------------------------------ generators

    /** The square lattice: left, top, right and bottom neighbour of every node. */
    method SimpleSquareLattice()
      requires 0 <= latticeLength && nodesCount == latticeLength * latticeLength
      requires linksOfNodes.Length == nodesCount
      modifies linksOfNodes
      ensures linksOfNodes[..] == Lattices.SquareLattice(latticeLength)
    {
      var side := latticeLength;
      var tempLinks := new seq<int>[nodesCount];
      for node := 0 to nodesCount
        invariant forall v :: 0 <= v < node ==> side > 0 && tempLinks[v] == Lattices.SquareLinks(v, side)
      {
        assert side > 0;
        var linksOfEachNode: seq<int> := [];
        if node % side == 0 {
          linksOfEachNode := linksOfEachNode + [node + side - 1];
        } else {
          linksOfEachNode := linksOfEachNode + [node - 1];
        }
        if node - side < 0 {
          linksOfEachNode := linksOfEachNode + [node + side * (side - 1)];
        } else {
          linksOfEachNode := linksOfEachNode + [node - side];
        }
        if (node + 1) % side == 0 {
          linksOfEachNode := linksOfEachNode + [node - side + 1];
        } else {
          linksOfEachNode := linksOfEachNode + [node + 1];
        }
        if node + side >= side * side {
          linksOfEachNode := linksOfEachNode + [node + side * (1 - side)];
        } else {
          linksOfEachNode := linksOfEachNode + [node + side];
        }
        tempLinks[node] := linksOfEachNode;
      }
      AssignLinksToNodes(tempLinks);
      if side == 0 {
        assert tempLinks[..] == [];
      } else {
        assert tempLinks[..] == Lattices.SquareLattice(side);
      }
    }

    /** Erdős–Rényi: one coin per pair `i < j` in row-major order; a true coin (the draw
     *  fell below the probability) links the pair. */
    method ErdosRenyiNetwork(coins: seq<bool>)
      requires 0 <= nodesCount && |coins| == RandomGraphs.PairCount(nodesCount)
      requires linksOfNodes.Length == nodesCount
      modifies linksOfNodes
      ensures linksOfNodes[..] == RandomGraphs.ErdosRenyi(nodesCount, coins)
    {
      var n := nodesCount;
      var tempLinks := new seq<int>[n];
      for i := 0 to n
        invariant forall v :: 0 <= v < i ==> tempLinks[v] == []
      {
        tempLinks[i] := [];
      }
      var k := 0;
      forall v | 0 <= v < n {
        RandomGraphs.ErdosRenyiStart(coins, n, v);
      }
      for i := 0 to n
        invariant k == RandomGraphs.RowStart(i, n)
        invariant forall v :: 0 <= v < n ==> tempLinks[v] == RandomGraphs.ErdosRenyiPartial(coins, n, v, i, i + 1)
      {
        for j := i + 1 to n
          invariant k == RandomGraphs.PairIndex(i, j, n)
          invariant forall v :: 0 <= v < n ==> tempLinks[v] == RandomGraphs.ErdosRenyiPartial(coins, n, v, i, j)
        {
          PairIndexBelowCount(i, j, n);
          var draw := coins[k];
          k := k + 1;
          forall v | 0 <= v < n {
            RandomGraphs.ErdosRenyiStep(coins, n, v, i, j);
          }
          if draw {
            tempLinks[i] := tempLinks[i] + [j];
            tempLinks[j] := tempLinks[j] + [i];
          }
        }
        forall v | 0 <= v < n {
          RandomGraphs.ErdosRenyiRowEnd(coins, n, v, i);
        }
      }
      AssignLinksToNodes(tempLinks);
    }

    /** Barabási–Albert: nodes 0 and 1 start linked and `tickets`, the number of list
     *  entries, starts at 2; node `node` then draws `r = Next(tickets)` (`draws[node - 2]`)
     *  and is linked to the node the ticket scan selects. */
    method BarabasiAlbertNetwork(draws: seq<int>)
      requires 2 <= nodesCount && RandomGraphs.TicketDraws(nodesCount, draws) && linksOfNodes.Length == nodesCount
      modifies linksOfNodes
      ensures linksOfNodes[..] == RandomGraphs.BarabasiAlbert(nodesCount, draws)
    {
      var n := nodesCount;
      var tmpLinks := new seq<int>[n];
      tmpLinks[0] := [1];
      tmpLinks[1] := [0];
      var tickets := 2;
      assert tmpLinks[..2] == RandomGraphs.BarabasiAlbert(2, draws[..0]);
      for node := 2 to n
        invariant tmpLinks[..node] == RandomGraphs.BarabasiAlbert(node, draws[..node - 2])
        invariant tickets == 2 * (node - 1)
        modifies tmpLinks
      {
        ghost var prev := tmpLinks[..node];
        var rndNumber := draws[node - 2];
        var winnerNode;
        winnerNode, tickets := TicketScan(tmpLinks, node, rndNumber, tickets);
        tmpLinks[node] := [winnerNode];
        tmpLinks[winnerNode] := tmpLinks[winnerNode] + [node];
        assert tmpLinks[..node + 1] == RandomGraphs.BarabasiAlbertStep(prev, winnerNode, node);
        BarabasiAlbertGrows(n, draws, node);
      }
      assert draws[..n - 2] == draws;
      assert tmpLinks[..] == tmpLinks[..n];
      AssignLinksToNodes(tmpLinks);
    }

    /** The ticket scan: subtract list lengths from the draw until it is zero or below, and
     *  count two more tickets for the link about to be made. */
    static method TicketScan(tmpLinks: array<seq<int>>, node: int, draw: int, tickets: int)
      returns (winnerNode: int, ticketsAfter: int)
      requires 0 <= node <= tmpLinks.Length && 0 <= draw < TotalDegree(tmpLinks[..node])
      ensures RandomGraphs.Winner(tmpLinks[..node], draw) == Some(winnerNode)
      ensures ticketsAfter == tickets + 2
    {
      ghost var prev := tmpLinks[..node];
      RandomGraphs.WinnerSmallest(prev, draw);
      ghost var winner := RandomGraphs.Winner(prev, draw).value;
      var rndNumber := draw;
      winnerNode := 0;
      ticketsAfter := tickets;
      var i := 0;
      while i < tmpLinks.Length
        invariant 0 <= i <= node
        invariant RandomGraphs.WinnerFrom(prev, i, rndNumber) == Some(winner)
        invariant ticketsAfter == tickets
        decreases tmpLinks.Length - i
      {
        assert tmpLinks[i] == prev[i];
        rndNumber := rndNumber - |tmpLinks[i]|;
        if rndNumber <= 0 {
          winnerNode := i;
          ticketsAfter := ticketsAfter + 2;
          break;
        }
        i := i + 1;
      }
    }

    /** The triangular lattice, row by row: left, right, top, bottom, and the two diagonals
     *  `i - condition`, where `condition` flips after every row. */
    method TriangularLattice()
      requires 0 <= latticeLength && nodesCount == latticeLength * latticeLength
      requires linksOfNodes.Length == nodesCount
      modifies linksOfNodes
      ensures linksOfNodes[..] == Lattices.TriangularLattice(latticeLength)
    {
      var side := latticeLength;
      var tempLinks := new seq<int>[nodesCount];
      ghost var lattice := Lattices.TriangularLattice(side);
      var condition := 1;
      for j := 0 to side
        invariant condition == Lattices.RowCondition(j)
        invariant j * side <= side * side
        invariant forall v :: 0 <= v < j * side ==> tempLinks[v] == lattice[v]
      {
        RowMajorBound(side, j, side);
        TriangularRow(tempLinks, j, side, condition);
        Lattices.RowConditionFlips(j);
        condition := -condition;
        assert (j + 1) * side == j * side + side;
      }
      AssignLinksToNodes(tempLinks);
      assert tempLinks[..] == lattice;
    }

    /** The inner loop of `TriangularLattice`: the lists of row `j`, column by column. */
    static method TriangularRow(tempLinks: array<seq<int>>, j: int, side: int, condition: int)
      requires 0 <= j < side && tempLinks.Length == side * side && condition == Lattices.RowCondition(j)
      requires j * side + side <= side * side
      requires forall v :: 0 <= v < j * side ==> tempLinks[v] == Lattices.TriangularLattice(side)[v]
      modifies tempLinks
      ensures forall v :: 0 <= v < j * side + side ==> tempLinks[v] == Lattices.TriangularLattice(side)[v]
    {
      ghost var lattice := Lattices.TriangularLattice(side);
      ghost var start := j * side;
      for i := 0 to side
        invariant start + i <= side * side
        invariant forall v :: 0 <= v < start + i ==> tempLinks[v] == lattice[v]
      {
        Lattices.TriangularAt(i, j, side);
        var linksOfEachNode := TriangularNodeLinks(i, j, side, condition);
        var node := TargetNode(i, j, side);
        assert node == start + i;
        tempLinks[node] := linksOfEachNode;
      }
    }

    /** The six appends of the triangular loop for column `i`, row `j`. */
    static method TriangularNodeLinks(i: int, j: int, side: int, condition: int) returns (linksOfEachNode: seq<int>)
      requires condition == Lattices.RowCondition(j)
      ensures linksOfEachNode == Lattices.TriangularLinks(i, j, side)
    {
      linksOfEachNode := [];
      linksOfEachNode := linksOfEachNode + [TargetNode(PeriodicCondition(i - 1, side), j, side)];
      linksOfEachNode := linksOfEachNode + [TargetNode(PeriodicCondition(i + 1, side), j, side)];
      linksOfEachNode := linksOfEachNode + [TargetNode(i, PeriodicCondition(j - 1, side), side)];
      linksOfEachNode := linksOfEachNode + [TargetNode(i, PeriodicCondition(j + 1, side), side)];
      linksOfEachNode := linksOfEachNode +
        [TargetNode(PeriodicCondition(i - condition, side), PeriodicCondition(j - 1, side), side)];
      linksOfEachNode := linksOfEachNode +
        [TargetNode(PeriodicCondition(i - condition, side), PeriodicCondition(j + 1, side), side)];
    }

    /** The honeycomb: left and right, then below when `bottomLink` is set and above
     *  otherwise; the flag flips after every node and once more after every row. */
    method HoneycombNetwork()
      requires 0 <= latticeLength && nodesCount == latticeLength * latticeLength
      requires linksOfNodes.Length == nodesCount
      modifies linksOfNodes
      ensures linksOfNodes[..] == Lattices.HoneycombLattice(latticeLength)
    {
      var side := latticeLength;
      var tempLinks := new seq<int>[nodesCount];
      ghost var lattice := Lattices.HoneycombLattice(side);
      var bottomLink := true;
      for j := 0 to side
        invariant bottomLink == Lattices.BottomLinkAt(0, j, side)
        invariant j * side <= side * side
        invariant forall v :: 0 <= v < j * side ==> tempLinks[v] == lattice[v]
      {
        for i := 0 to side
          invariant bottomLink == Lattices.BottomLinkAt(i, j, side)
          invariant j * side + i <= side * side
          invariant forall v :: 0 <= v < j * side + i ==> tempLinks[v] == lattice[v]
        {
          RowMajorBound(i + 1, j, side);
          Lattices.HoneycombAt(i, j, side);
          Lattices.BottomLinkFlips(i, j, side);
          var linksOfEachNode := HoneycombNodeLinks(i, j, side, bottomLink);
          bottomLink := !bottomLink;
          tempLinks[TargetNode(i, j, side)] := linksOfEachNode;
        }
        Lattices.BottomLinkFlips(side, j, side);
        bottomLink := !bottomLink;
        assert (j + 1) * side == j * side + side;
      }
      AssignLinksToNodes(tempLinks);
      assert tempLinks[..] == lattice;
    }

    /** The three appends of the honeycomb loop for column `i`, row `j`. */
    static method HoneycombNodeLinks(i: int, j: int, side: int, bottomLink: bool) returns (linksOfEachNode: seq<int>)
      requires bottomLink == Lattices.BottomLinkAt(i, j, side)
      ensures linksOfEachNode == Lattices.HoneycombLinks(i, j, side)
    {
      linksOfEachNode := [];
      linksOfEachNode := linksOfEachNode + [TargetNode(PeriodicCondition(i - 1, side), j, side)];
      linksOfEachNode := linksOfEachNode + [TargetNode(PeriodicCondition(i + 1, side), j, side)];
      if !bottomLink {
        linksOfEachNode := linksOfEachNode + [TargetNode(i, PeriodicCondition(j - 1, side), side)];
      } else {
        linksOfEachNode := linksOfEachNode + [TargetNode(i, PeriodicCondition(j + 1, side), side)];
      }
    }

    /** The regular ring: node `v` lists `v + d` and `v - d`, wrapped, for `d = 1 ..
     *  degree / 2` (`RingSteps`); with a rewiring probability (`rewiring`) the lists then go
     *  through `RingGraphRewiring` instead of straight into `LinksOfNodes`. */
    method RegularRingGraph(degree: int, rewiring: bool, coins: seq<bool>, picks: seq<int>) returns (ok: bool)
      requires 0 <= nodesCount && linksOfNodes.Length == nodesCount
      requires rewiring ==> RewiringDraws(nodesCount, ringGraphDegree, coins, picks)
      modifies linksOfNodes
      ensures !rewiring ==> ok && linksOfNodes[..] == Ring.RegularRing(nodesCount, Ring.RingSteps(degree))
      ensures rewiring ==>
                var r := Ring.RewireFrom(Ring.RegularRing(nodesCount, Ring.RingSteps(degree)), Ring.RingSteps(ringGraphDegree), 0, 1, coins, picks);
                (ok <==> r.Rewired?) && (ok ==> linksOfNodes[..] == r.links)
    {
      var n := nodesCount;
      var tempLinks := new seq<int>[n];
      for node := 0 to n
        invariant forall v :: 0 <= v < node ==> tempLinks[v] == Ring.RingLinks(v, n, Ring.RingSteps(degree))
      {
        var linksOfEachNode: seq<int> := [];
        var nodeIncrement := 1;
        while nodeIncrement <= Ring.RingSteps(degree)
          invariant 1 <= nodeIncrement <= Ring.RingSteps(degree) + 1
          invariant linksOfEachNode == Ring.RingLinks(node, n, nodeIncrement - 1)
        {
          linksOfEachNode := linksOfEachNode + [PeriodicCondition(node + nodeIncrement, n)];
          linksOfEachNode := linksOfEachNode + [PeriodicCondition(node - nodeIncrement, n)];
          nodeIncrement := nodeIncrement + 1;
        }
        tempLinks[node] := linksOfEachNode;
      }
      assert tempLinks[..] == Ring.RegularRing(n, Ring.RingSteps(degree));
      if rewiring {
        var linksOfNodesBeforeRewiring := new seq<int>[n];
        for node := 0 to n
          invariant forall v :: 0 <= v < node ==> linksOfNodesBeforeRewiring[v] == tempLinks[v]
          modifies linksOfNodesBeforeRewiring
        {
          linksOfNodesBeforeRewiring[node] := tempLinks[node];
        }
        assert linksOfNodesBeforeRewiring[..] == Ring.RegularRing(n, Ring.RingSteps(degree));
        ok := RingGraphRewiring(linksOfNodesBeforeRewiring, coins, picks);
        assert nodesCount == n;
      } else {
        AssignLinksToNodes(tempLinks);
        ok := true;
      }
    }

    /** Small-world rewiring of the ring lists in `before`. Each node visits its right
     *  neighbours `node + 1 .. node + RingGraphDegree / 2` (the field, not the ring's
     *  degree); a true coin starts the retry loop, which takes picks until one is neither
     *  the node nor, apart from the link being rewired, one of its neighbours, then moves
     *  the link. The retry loop of the source never gives up; here it fails when the
     *  supplied picks run out, and `LinksOfNodes` is then left as it was. */
    method RingGraphRewiring(before: array<seq<int>>, coins: seq<bool>, picks: seq<int>) returns (ok: bool)
      requires before != linksOfNodes && before.Length == nodesCount == linksOfNodes.Length
      requires RewiringDraws(nodesCount, ringGraphDegree, coins, picks)
      modifies before, linksOfNodes
      ensures var r := Ring.RewireFrom(old(before[..]), Ring.RingSteps(ringGraphDegree), 0, 1, coins, picks);
              (ok <==> r.Rewired?) && (ok ==> linksOfNodes[..] == r.links)
    {
      var n := nodesCount;
      var steps := Ring.RingSteps(ringGraphDegree);
      ghost var result := Ring.RewireFrom(before[..], steps, 0, 1, coins, picks);
      var c := 0;
      var q := 0;
      for node := 0 to n
        invariant 0 <= c <= |coins| && 0 <= q <= |picks|
        invariant |coins| - c == Ring.CoinsLeft(n, steps, node, 1)
        invariant Ring.RewireFrom(before[..], steps, node, 1, coins[c..], picks[q..]) == result
        modifies before
      {
        var nthRightNeighbor := 1;
        while nthRightNeighbor <= steps
          invariant 1 <= nthRightNeighbor <= steps + 1
          invariant 0 <= c <= |coins| && 0 <= q <= |picks|
          invariant |coins| - c == Ring.CoinsLeft(n, steps, node, nthRightNeighbor)
          invariant Ring.RewireFrom(before[..], steps, node, nthRightNeighbor, coins[c..], picks[q..]) == result
          modifies before
        {
          var linkedNodeToRewire := PeriodicCondition(node + nthRightNeighbor, n);
          var rewire := coins[c];
          RewireFromStep(before[..], steps, node, nthRightNeighbor, coins[c..], picks[q..]);
          assert coins[c..][1..] == coins[c + 1..];
          c := c + 1;
          if rewire {
            var rewired, next := RewireRetry(before, node, linkedNodeToRewire, picks, q);
            if !rewired {
              return false;
            }
            assert picks[q..][next - q..] == picks[next..];
            q := next;
          }
          nthRightNeighbor := nthRightNeighbor + 1;
        }
      }
      AssignLinksToNodes(before);
      ok := true;
    }

    /** The `while (true)` retry loop for one link `node`–`target`: take picks from `start`
     *  on until one is neither `node` nor a neighbour other than `target`, then remove the
     *  link on both sides and link the pick instead. Returns whether that happened before
     *  the picks ran out, and the position after the last pick taken. */
    static method RewireRetry(before: array<seq<int>>, node: int, target: int, picks: seq<int>, start: int)
      returns (rewired: bool, q: int)
      requires 0 <= node < before.Length && 0 <= target < before.Length && 0 <= start <= |picks|
      requires forall k :: 0 <= k < |picks| ==> 0 <= picks[k] < before.Length
      modifies before
      ensures start <= q <= |picks|
      ensures var first := Ring.FirstAccepted(old(before[node]), node, target, picks[start..]);
              if rewired then
                start < q && first == Some(q - 1 - start) &&
                before[..] == Ring.RewireLink(old(before[..]), node, target, picks[q - 1])
              else
                first.None? && before[..] == old(before[..])
    {
      q := start;
      while true
        invariant start <= q <= |picks|
        invariant before[..] == old(before[..])
        invariant forall m :: start <= m < q ==> !Ring.Accepts(before[node], node, target, picks[m])
        decreases |picks| - q
      {
        if q == |picks| {
          NoAcceptedPick(before[node], node, target, picks, start);
          return false, q;
        }
        var rndNode := picks[q];
        q := q + 1;
        if rndNode == node {
          continue;
        }
        var duplicateLink := DuplicateLink(before[node], target, rndNode);
        if !duplicateLink {
          FirstAcceptedPick(before[node], node, target, picks, start, q - 1);
          MoveLink(before, node, target, rndNode);
          return true, q;
        }
      }
    }

    /** `Remove` the link `node`–`target` from both lists, then `Add` the link
     *  `node`–`rndNode` to both. */
    static method MoveLink(before: array<seq<int>>, node: int, target: int, rndNode: int)
      requires 0 <= node < before.Length && 0 <= target < before.Length && 0 <= rndNode < before.Length
      modifies before
      ensures before[..] == Ring.RewireLink(old(before[..]), node, target, rndNode)
    {
      before[node] := Ring.RemoveFirst(before[node], target);
      before[target] := Ring.RemoveFirst(before[target], node);
      before[node] := before[node] + [rndNode];
      before[rndNode] := before[rndNode] + [node];
    }

    /** The `foreach` over the node's list: is `rndNode` already a neighbour, not counting
     *  the `target` being rewired? */
    static method DuplicateLink(row: seq<int>, target: int, rndNode: int) returns (duplicateLink: bool)
      ensures duplicateLink <==> rndNode in row && rndNode != target
    {
      duplicateLink := false;
      for k := 0 to |row|
        invariant forall m :: 0 <= m < k ==> row[m] == target || row[m] != rndNode
      {
        if row[k] == target {
          continue;
        }
        if row[k] == rndNode {
          duplicateLink := true;
          break;
        }
      }
    }

    // ------------------------------------------------------------------ metrics

    /** `DegreeDistribution`: records every node's degree in `DegreeOfNodes` and counts the
     *  nodes of each degree (`TryAdd`, else increment); the result is the table
     *  `OrderBy(x => x.Key)` yields, one row per degree with its node count. */
    method DegreeDistribution() returns (table: seq<(int, int)>)
      requires linksOfNodes.Length == nodesCount == degreeOfNodes.Length
      modifies degreeOfNodes
      ensures forall v :: 0 <= v < nodesCount ==> degreeOfNodes[v] == |linksOfNodes[v]|
      ensures Metrics.IsDegreeTable(linksOfNodes[..], table)
    {
      ghost var links := linksOfNodes[..];
      var degreeFrequency: map<int, int> := map[];
      for node := 0 to nodesCount
        invariant forall v :: 0 <= v < node ==> degreeOfNodes[v] == |links[v]|
        invariant forall d :: d in degreeFrequency ==>
                    degreeFrequency[d] == Metrics.CountDegree(links, d, node) && degreeFrequency[d] > 0
        invariant forall v :: 0 <= v < node ==> |links[v]| in degreeFrequency
      {
        var nodeDegree := |linksOfNodes[node]|;
        degreeOfNodes[node] := nodeDegree;
        if nodeDegree !in degreeFrequency {
          Metrics.CountDegreePositive(links, nodeDegree, node);
          degreeFrequency := degreeFrequency[nodeDegree := 1];
        } else {
          degreeFrequency := degreeFrequency[nodeDegree := degreeFrequency[nodeDegree] + 1];
        }
      }
      table := Metrics.OrderByKey(degreeFrequency);
    }

    /** `CountNumberOfLinks`: half the sum of `DegreeOfNodes`; once `DegreeDistribution` has
     *  filled the degrees, that is half the number of list entries. */
    method CountNumberOfLinks()
      requires degreeOfNodes.Length == nodesCount && 0 <= nodesCount
      modifies this`linksCount
      ensures linksCount == Sum(degreeOfNodes[..]) / 2
      ensures linksOfNodes.Length == nodesCount && (forall v :: 0 <= v < nodesCount ==> degreeOfNodes[v] == |linksOfNodes[v]|) ==>
                linksCount == Metrics.LinkCount(linksOfNodes[..])
    {
      var numberOfLinks := 0;
      for node := 0 to nodesCount
        invariant numberOfLinks == Sum(degreeOfNodes[..node])
      {
        assert degreeOfNodes[..node + 1][..node] == degreeOfNodes[..node];
        numberOfLinks := numberOfLinks + degreeOfNodes[node];
      }
      assert degreeOfNodes[..nodesCount] == degreeOfNodes[..];
      numberOfLinks := numberOfLinks / 2;
      linksCount := numberOfLinks;
      if linksOfNodes.Length == nodesCount && forall v :: 0 <= v < nodesCount ==> degreeOfNodes[v] == |linksOfNodes[v]| {
        DegreeSum(degreeOfNodes[..], linksOfNodes[..]);
      }
    }

    /** `CalculateClusteringCoefficient`, its two integer counts: for every node and every pair
     *  of neighbour positions `i < j`, one triangle when the `i`-th neighbour lists the
     *  `j`-th; and `d (d - 1) / 2` connected triples per node of degree `d`. */
    method CalculateClusteringCoefficient() returns (triangleCount: int, connectedTriplesCount: int)
      requires linksOfNodes.Length == nodesCount && InRange(linksOfNodes[..], nodesCount)
      ensures triangleCount == Metrics.Triangles(linksOfNodes[..], nodesCount)
      ensures connectedTriplesCount == Metrics.Triples(linksOfNodes[..], nodesCount)
      ensures 0 <= triangleCount <= connectedTriplesCount
    {
      ghost var links := linksOfNodes[..];
      triangleCount := 0;
      for node := 0 to nodesCount
        invariant triangleCount == Metrics.Triangles(links, node)
      {
        var neighbors := linksOfNodes[node];
        for i := 0 to |neighbors|
          invariant triangleCount == Metrics.Triangles(links, node) + Metrics.NodeTriangles(links, node, i)
        {
          var neighborsOfNeighbor := linksOfNodes[neighbors[i]];
          for j := i + 1 to |neighbors|
            invariant triangleCount == Metrics.Triangles(links, node) + Metrics.NodeTriangles(links, node, i) +
                                       Metrics.ClosedPairs(links, neighbors, i, j)
          {
            if neighbors[j] in neighborsOfNeighbor {
              triangleCount := triangleCount + 1;
            }
          }
        }
      }
      connectedTriplesCount := 0;
      for node := 0 to nodesCount
        invariant connectedTriplesCount == Metrics.Triples(links, node)
      {
        var nodeDegree := |linksOfNodes[node]|;
        connectedTriplesCount := connectedTriplesCount + nodeDegree * (nodeDegree - 1) / 2;
      }
      Metrics.TrianglesAtMostTriples(links, nodesCount);
    }

    /** `FindShortestPaths`: a breadth-first search from `sourceNode` over a FIFO queue;
     *  `ShortestPaths` ends with the hop distance of every node it reaches and `-1`
     *  everywhere else. */
    method FindShortestPaths(sourceNode: int)
      requires linksOfNodes.Length == nodesCount && InRange(linksOfNodes[..], nodesCount)
      requires 0 <= sourceNode < nodesCount
      modifies this`shortestPaths
      ensures fresh(shortestPaths)
      ensures Metrics.BreadthFirst(linksOfNodes[..], sourceNode, shortestPaths[..])
    {
      ghost var links := linksOfNodes[..];
      var paths := new int[nodesCount];
      for node := 0 to nodesCount
        invariant forall v :: 0 <= v < node ==> paths[v] == if v == sourceNode then 0 else -1
      {
        if node == sourceNode {
          paths[node] := 0;
        } else {
          paths[node] := -1;
        }
      }
      ghost var parent: seq<int> := seq(nodesCount, v => 0);
      var queue := [sourceNode];
      SearchStarts(links, sourceNode, paths[..], parent);
      while true
        invariant SearchState(links, sourceNode, paths[..], parent, queue)
        decreases 2 * Unreached(paths[..]) + |queue|
      {
        if |queue| == 0 {
          break;
        }
        var nextNode := queue[0];
        Dequeue(links, sourceNode, paths[..], parent, queue);
        queue := queue[1..];
        queue, parent := VisitNeighbours(links, sourceNode, paths, parent, queue, nextNode);
        FinishVisit(links, sourceNode, paths[..], parent, queue, nextNode);
      }
      SearchEnds(links, sourceNode, paths[..], parent);
      shortestPaths := paths;
    }

    /** The inner loop of `FindShortestPaths`: every unreached neighbour of `nextNode` gets
     *  the next distance and joins the queue. */
    method VisitNeighbours(ghost links: Links, sourceNode: int, paths: array<int>, ghost parent0: seq<int>,
                           queue0: seq<int>, nextNode: int)
      returns (queue: seq<int>, ghost parent: seq<int>)
      requires links == linksOfNodes[..] && 0 <= nextNode < |links|
      requires Visiting(links, sourceNode, paths[..], parent0, queue0, nextNode, 0)
      modifies paths
      ensures Visiting(links, sourceNode, paths[..], parent, queue, nextNode, |links[nextNode]|)
      ensures 2 * Unreached(paths[..]) + |queue| <= 2 * Unreached(old(paths[..])) + |queue0|
    {
      queue, parent := queue0, parent0;
      ghost var dist := paths[..];
      ghost var start := 2 * Unreached(dist) + |queue0|;
      var neighbors := linksOfNodes[nextNode];
      var distance := paths[nextNode];
      for k := 0 to |neighbors|
        invariant paths[..] == dist
        invariant Visiting(links, sourceNode, dist, parent, queue, nextNode, k)
        invariant dist[nextNode] == distance
        invariant 2 * Unreached(dist) + |queue| <= start
      {
        var neighbor := neighbors[k];
        if paths[neighbor] == -1 {
          ghost var before, parentBefore, queueBefore := dist, parent, queue;
          paths[neighbor] := distance + 1;
          dist := dist[neighbor := distance + 1];
          parent := parent[neighbor := nextNode];
          queue := queue + [neighbor];
          VisitUnreached(links, sourceNode, before, parentBefore, queueBefore, nextNode, k, dist, parent, queue);
        } else {
          VisitReached(links, sourceNode, dist, parent, queue, nextNode, k);
        }
      }
    }

    /** The labelling state the component methods work on. */
    function ComponentState(): Metrics.Components
      reads this, componentOfEachNode
    {
      Metrics.Components(componentOfEachNode[..], currentComponentIndex, nextComponentIndex, componentsSize)
    }

    /** `ComponentAssigningProcess`: scans the nodes the last search reached. If the first of
     *  them already has a label, that label becomes the current component; otherwise every
     *  reached node is labelled `NextComponentIndex`, `ComponentsSize.Add` records how many
     *  there were, and `NextComponentIndex` moves on. */
    method ComponentAssigningProcess()
      requires componentOfEachNode.Length == nodesCount == shortestPaths.Length
      requires componentOfEachNode != shortestPaths && nextComponentIndex !in componentsSize
      modifies componentOfEachNode, this`currentComponentIndex, this`nextComponentIndex, this`componentsSize
      ensures ComponentState() == Metrics.AssignComponent(old(ComponentState()), shortestPaths[..])
    {
      ghost var dist := shortestPaths[..];
      ghost var labels := componentOfEachNode[..];
      var memberCount := 0;
      var knownComponent := true;
      for node := 0 to nodesCount
        invariant currentComponentIndex == old(currentComponentIndex)
        invariant nextComponentIndex == old(nextComponentIndex) && componentsSize == old(componentsSize)
        invariant knownComponent ==> memberCount == 0 && componentOfEachNode[..] == labels &&
                                     forall v :: 0 <= v < node ==> dist[v] == -1
        invariant !knownComponent ==>
                    (exists f :: 0 <= f < node && Metrics.FirstReached(dist, 0) == Some(f) && labels[f] == -1) &&
                    memberCount == Metrics.ReachedCount(dist, node) &&
                    (forall v :: 0 <= v < node ==> componentOfEachNode[v] == if dist[v] != -1 then nextComponentIndex else labels[v]) &&
                    (forall v :: node <= v < nodesCount ==> componentOfEachNode[v] == labels[v])
      {
        if shortestPaths[node] != -1 {
          if knownComponent {
            if componentOfEachNode[node] != -1 {
              assert Metrics.FirstReached(dist, 0) == Some(node);
              currentComponentIndex := componentOfEachNode[node];
              assert ComponentState() == old(ComponentState()).(current := labels[node]);
              break;
            } else {
              Metrics.ReachedCountNone(dist, node);
              knownComponent := false;
            }
          }
          componentOfEachNode[node] := nextComponentIndex;
          memberCount := memberCount + 1;
        }
      }
      if !knownComponent {
        assert componentOfEachNode[..] == Metrics.Relabel(labels, dist, nextComponentIndex);
        componentsSize := componentsSize[nextComponentIndex := memberCount];
        nextComponentIndex := nextComponentIndex + 1;
      }
    }

    /** `AveragePathDistanceForOneNode`, as a fraction: the sum of the distances other than
     *  `-1`, over the size recorded for `CurrentComponentIndex` (`None` where `.Single()`
     *  finds no such key and throws). */
    method AveragePathDistanceForOneNode() returns (sumOfPathDistances: int, pathCountForTheNode: Option<int>)
      ensures sumOfPathDistances == Metrics.ReachedSum(shortestPaths[..])
      ensures pathCountForTheNode.Some? <==> currentComponentIndex in componentsSize
      ensures pathCountForTheNode.Some? ==> pathCountForTheNode.value == componentsSize[currentComponentIndex]
    {
      sumOfPathDistances := 0;
      for k := 0 to shortestPaths.Length
        invariant sumOfPathDistances == Metrics.ReachedSum(shortestPaths[..k])
      {
        assert shortestPaths[..k + 1][..k] == shortestPaths[..k];
        var pathDistance := shortestPaths[k];
        if pathDistance != -1 {
          sumOfPathDistances := sumOfPathDistances + pathDistance;
        }
      }
      assert shortestPaths[..shortestPaths.Length] == shortestPaths[..];
      if currentComponentIndex in componentsSize {
        pathCountForTheNode := Some(componentsSize[currentComponentIndex]);
      } else {
        pathCountForTheNode := None;
      }
    }

    /** `AveragePathDistanceOfAllNodes`: a search from every node in turn, each followed by
     *  component labelling, collecting each node's average as the fraction (sum of its
     *  distances, size of the current component). The labels start out as `-1`; the final
     *  labelling is the fold of `AssignComponent` over the searches, and node `v`'s divisor
     *  is the size of the current component after the first `v + 1` of them. */
    method AveragePathDistanceOfAllNodes() returns (averagePathDistanceOfNodes: seq<(int, int)>, ghost searches: seq<seq<int>>)
      requires linksOfNodes.Length == nodesCount && InRange(linksOfNodes[..], nodesCount)
      requires Metrics.Recorded(Metrics.Components([], currentComponentIndex, nextComponentIndex, componentsSize))
      modifies this`componentOfEachNode, this`shortestPaths, this`currentComponentIndex, this`nextComponentIndex,
               this`componentsSize
      ensures fresh(componentOfEachNode) && componentOfEachNode.Length == nodesCount
      ensures Metrics.Recorded(ComponentState())
      ensures |averagePathDistanceOfNodes| == nodesCount
      ensures Metrics.Averages(linksOfNodes[..], averagePathDistanceOfNodes, searches)
      ensures var start := Metrics.Components(seq(nodesCount, _ => -1), old(currentComponentIndex),
                                              old(nextComponentIndex), old(componentsSize));
              Metrics.Recorded(start) && (forall k :: 0 <= k < |searches| ==> |searches[k]| == nodesCount) &&
              ComponentState() == Metrics.AssignAll(start, searches) &&
              Metrics.Divisors(start, averagePathDistanceOfNodes, searches)
    {
      componentOfEachNode := new int[nodesCount];
      for node := 0 to nodesCount
        modifies componentOfEachNode
        invariant forall v :: 0 <= v < node ==> componentOfEachNode[v] == -1
      {
        componentOfEachNode[node] := -1;
      }
      ghost var start := ComponentState();
      assert start == Metrics.Components(seq(nodesCount, _ => -1), old(currentComponentIndex),
                                         old(nextComponentIndex), old(componentsSize));
      averagePathDistanceOfNodes, searches := SearchEveryNode(start);
    }

    /** The second loop of `AveragePathDistanceOfAllNodes`: `PathDistancesFrom` for every
     *  node in turn, from the labelling `start`. */
    method SearchEveryNode(ghost start: Metrics.Components) returns (averagePathDistanceOfNodes: seq<(int, int)>, ghost searches: seq<seq<int>>)
      requires linksOfNodes.Length == nodesCount && InRange(linksOfNodes[..], nodesCount)
      requires componentOfEachNode.Length == nodesCount && Metrics.Recorded(start) && ComponentState() == start
      modifies componentOfEachNode, this`shortestPaths, this`currentComponentIndex, this`nextComponentIndex,
               this`componentsSize
      ensures |averagePathDistanceOfNodes| == nodesCount
      ensures Metrics.Averages(linksOfNodes[..], averagePathDistanceOfNodes, searches)
      ensures forall k :: 0 <= k < |searches| ==> |searches[k]| == nodesCount
      ensures ComponentState() == Metrics.AssignAll(start, searches)
      ensures Metrics.Divisors(start, averagePathDistanceOfNodes, searches)
    {
      ghost var links := linksOfNodes[..];
      averagePathDistanceOfNodes := [];
      searches := [];
      for node := 0 to nodesCount
        invariant |averagePathDistanceOfNodes| == |searches| == node
        invariant Metrics.Averages(links, averagePathDistanceOfNodes, searches)
        invariant forall k :: 0 <= k < |searches| ==> |searches[k]| == nodesCount
        invariant ComponentState() == Metrics.AssignAll(start, searches)
        invariant Metrics.Divisors(start, averagePathDistanceOfNodes, searches)
      {
        var sum, pathCount, dist := PathDistancesFrom(node);
        Metrics.AssignAllStep(start, searches, dist);
        Metrics.DivisorsExtend(start, averagePathDistanceOfNodes, searches, dist, (sum, pathCount));
        Metrics.AveragesExtend(links, averagePathDistanceOfNodes, searches, dist, (sum, pathCount));
        averagePathDistanceOfNodes := averagePathDistanceOfNodes + [(sum, pathCount)];
        searches := searches + [dist];
      }
    }

    /** One pass of the loop of `AveragePathDistanceOfAllNodes`: search from `node`, label
     *  the component, and take the fraction for `node`, whose divisor is the size of the
     *  current component after the labelling. */
    method PathDistancesFrom(node: int) returns (sum: int, pathCount: int, ghost dist: seq<int>)
      requires linksOfNodes.Length == nodesCount && InRange(linksOfNodes[..], nodesCount) && 0 <= node < nodesCount
      requires componentOfEachNode.Length == nodesCount && Metrics.Recorded(ComponentState())
      modifies componentOfEachNode, this`shortestPaths, this`currentComponentIndex, this`nextComponentIndex,
               this`componentsSize
      ensures Metrics.Recorded(ComponentState())
      ensures Metrics.BreadthFirst(linksOfNodes[..], node, dist) && sum == Metrics.ReachedSum(dist) && pathCount >= 1
      ensures ComponentState() == Metrics.AssignComponent(old(ComponentState()), dist)
      ensures currentComponentIndex in componentsSize && pathCount == componentsSize[currentComponentIndex]
    {
      FindShortestPaths(node);
      dist := shortestPaths[..];
      Metrics.AssignComponentRecorded(ComponentState(), dist);
      assert dist[node] == 0;
      ComponentAssigningProcess();
      var pathCountForTheNode;
      sum, pathCountForTheNode := AveragePathDistanceForOneNode();
      pathCount := pathCountForTheNode.value;
    }

    // ------------------------------------------------------------------ file

    /** `SaveNetwork`: the load header, the metadata lines, the links header, then one row
     *  per node (`-1` when it has no links) with a line break between rows. A value is
     *  followed by a comma unless it equals the row's last value. */
    method SaveNetwork()
      requires linksOfNodes.Length == nodesCount
      modifies this`networkFile
      ensures networkFile == NetworkFile.NetworkText(networkType, linksOfNodes[..], erdosRenyiText, ringGraphDegree, rewiringText)
    {
      var sw := WriteHeadSection(networkType, nodesCount, erdosRenyiText, ringGraphDegree, rewiringText);
      sw := WriteRows(sw, linksOfNodes[..]);
      networkFile := sw;
    }

    /** The rows loop of `SaveNetwork`: each node's row, with a line break after every row
     *  but the last. */
    static method WriteRows(sw0: string, links: Links) returns (sw: string)
      ensures sw == sw0 + NetworkFile.WrittenRowsFrom(links, 0)
    {
      sw := sw0;
      for i := 0 to |links|
        invariant sw + NetworkFile.WrittenRowsFrom(links, i) == sw0 + NetworkFile.WrittenRowsFrom(links, 0)
      {
        var separator := if i != |links| - 1 then "\n" else "";
        NetworkFile.WrittenRowStep(sw, links, i, separator);
        sw := WriteRow(sw, links[i]);
        sw := sw + separator;
      }
      assert NetworkFile.WrittenRowsFrom(links, |links|) == "";
    }

    /** The first lines of `SaveNetwork`: the load header, a blank line, the metadata through
     *  `FileManager.WriteMetrics`, a blank line and the links header. */
    static method WriteHeadSection(t: NetworkFile.NetworkType, n: int, erdosRenyiText: string, ringDegree: int,
                                   rewiringText: string)
      returns (sw: string)
      ensures sw == NetworkFile.HeadSection(t, n, erdosRenyiText, ringDegree, rewiringText)
    {
      sw := NetworkFile.LoadHeader + "\n" + "\n";
      var metrics := NetworkFile.Metrics(t, n, erdosRenyiText, ringDegree, rewiringText);
      sw := NetworkFile.WriteMetrics(sw, metrics);
      sw := sw + "\n" + NetworkFile.LinksHeader + "\n";
    }

    /** The settings `LoadNetworkProcess` may overwrite. */
    function Settings(): NetworkFile.Settings
      reads this
    {
      NetworkFile.Settings(networkType, nodesCount, ringGraphDegree, rewiringText)
    }

    /** `LoadNetworkProcess`: reads `Network.csv` line by line. Lines before the load
     *  header are skipped; after it, `key,value` lines set the node count, the type, the
     *  ring degree and the rewiring probability; after the links header every line is a
     *  row, `-1` meaning no links. `LinksOfNodes` then takes the first `NodesCount` rows.
     *  `false` where the source throws: a value that does not parse, a negative count, or
     *  fewer rows than nodes. */
    method LoadNetworkProcess() returns (ok: bool)
      modifies this`networkType, this`nodesCount, this`ringGraphDegree, this`rewiringText, this`linksOfNodes
      ensures var r := NetworkFile.Load(NetworkFile.ReadLines(networkFile), old(Settings()));
              (ok <==> r.Loaded?) && (ok ==> Settings() == r.settings && linksOfNodes[..] == r.links)
      ensures ok ==> fresh(linksOfNodes)
    {
      var loadedLinksOfNodes: seq<seq<int>> := [];
      var readingNetworkParameters := false;
      var skipLines := true;
      var lines := NetworkFile.ReadLines(networkFile);
      ghost var result := NetworkFile.LoadLines(NetworkFile.StartState(Settings()), lines);
      assert lines[0..] == lines;
      for i := 0 to |lines|
        invariant result == NetworkFile.LoadLines(NetworkFile.LoadState(skipLines, readingNetworkParameters, Settings(), loadedLinksOfNodes), lines[i..])
      {
        var line := lines[i];
        NetworkFile.LoadLinesStep(NetworkFile.LoadState(skipLines, readingNetworkParameters, Settings(), loadedLinksOfNodes), lines, i);
        if NetworkFile.StartsWith(line, NetworkFile.LoadHeader) {
          skipLines := false;
          continue;
        } else if NetworkFile.StartsWith(line, NetworkFile.LinksHeader) {
          readingNetworkParameters := true;
          continue;
        } else if skipLines {
          continue;
        }
        var parts := NetworkFile.Split(line, ',');
        if readingNetworkParameters {
          var linksOfEachnode := NetworkFile.ParseAll(parts);
          if linksOfEachnode.None? {
            return false;
          }
          if linksOfEachnode.value[0] == -1 {
            loadedLinksOfNodes := loadedLinksOfNodes + [[]];
          } else {
            loadedLinksOfNodes := loadedLinksOfNodes + [linksOfEachnode.value];
          }
        } else {
          if |parts| == 2 && NetworkFile.StartsWith(parts[0], "NodesCount") {
            var value := NetworkFile.ParseInt(parts[1]);
            if value.None? {
              return false;
            }
            nodesCount := value.value;
          } else if |parts| == 2 && NetworkFile.StartsWith(parts[0], "NetworkType") {
            var value := NetworkFile.ParseTypeName(parts[1]);
            if value.None? {
              return false;
            }
            networkType := value.value;
          } else if |parts| == 2 && NetworkFile.StartsWith(parts[0], "RingGraphDegree") {
            var value := NetworkFile.ParseInt(parts[1]);
            if value.None? {
              return false;
            }
            ringGraphDegree := value.value;
          } else if |parts| == 2 && NetworkFile.StartsWith(parts[0], "RewiringProbability") {
            rewiringText := parts[1];
          }
        }
      }
      assert lines[|lines|..] == [];
      if nodesCount < 0 {
        return false;
      }
      linksOfNodes := new seq<int>[nodesCount];
      for n := 0 to nodesCount
        invariant n <= |loadedLinksOfNodes| && forall v :: 0 <= v < n ==> linksOfNodes[v] == loadedLinksOfNodes[v]
        modifies linksOfNodes
      {
        if n >= |loadedLinksOfNodes| {
          return false;
        }
        linksOfNodes[n] := loadedLinksOfNodes[n];
      }
      ok := true;
      assert linksOfNodes[..] == loadedLinksOfNodes[..nodesCount];
    }

    /** The row loop of `SaveNetwork` for one node: `-1` for a node without links, else
     *  each value, followed by a comma unless it equals the row's last value. */
    static method WriteRow(sw: string, row: seq<int>) returns (written: string)
      ensures written == sw + NetworkFile.RowTextAsWritten(row)
    {
      if |row| == 0 {
        written := sw + "-1";
      } else {
        var last := row[|row| - 1];
        written := sw;
        for k := 0 to |row|
          invariant written + NetworkFile.WrittenItems(row[k..], last) == sw + NetworkFile.WrittenItems(row, last)
        {
          NetworkFile.WrittenItemsStep(row, k, last);
          NetworkFile.Regroup(written, NetworkFile.WrittenItem(row[k], last), NetworkFile.WrittenItems(row[k + 1..], last));
          if row[k] != last {
            written := written + (NetworkFile.IntText(row[k]) + ",");
          } else {
            written := written + NetworkFile.IntText(row[k]);
          }
        }
        assert row[|row|..] == [];
      }
    }

    /** `FindTheLargestComponent`: `MaxBy` over `ComponentsSize` in insertion order, which is
     *  label order; `false`, with nothing changed, where `MaxBy` throws on an empty
     *  dictionary. */
    method FindTheLargestComponent() returns (found: bool)
      requires 0 <= nextComponentIndex && forall k :: k in componentsSize <==> 0 <= k < nextComponentIndex
      modifies this`largestComponentIndex, this`largestComponentNodeCount
      ensures found <==> Metrics.Largest(componentsSize, nextComponentIndex).Some?
      ensures found ==> (largestComponentIndex, largestComponentNodeCount) == Metrics.Largest(componentsSize, nextComponentIndex).value
      ensures !found ==> largestComponentIndex == old(largestComponentIndex) &&
                         largestComponentNodeCount == old(largestComponentNodeCount)
    {
      if nextComponentIndex == 0 {
        return false;
      }
      var largestKey, largestValue := 0, componentsSize[0];
      for key := 1 to nextComponentIndex
        invariant Metrics.Largest(componentsSize, key) == Some((largestKey, largestValue))
      {
        if componentsSize[key] > largestValue {
          largestKey, largestValue := key, componentsSize[key];
        }
      }
      largestComponentIndex := largestKey;
      largestComponentNodeCount := largestValue;
      return true;
    }
  }

  // ----------------------------------------------------- breadth-first search state

  /** The number of nodes the search has not reached. */
  function Unreached(dist: seq<int>): nat
  {
    if dist == [] then 0 else Unreached(dist[..|dist| - 1]) + (if dist[|dist| - 1] == -1 then 1 else 0)
  }

  /** Reaching one more node leaves one fewer unreached. */
  lemma {:induction false} UnreachedUpdate(dist: seq<int>, v: int, x: int)
    requires 0 <= v < |dist| && dist[v] == -1 && x != -1
    ensures Unreached(dist[v := x]) == Unreached(dist) - 1
  {
    var m := |dist| - 1;
    if v == m {
      assert dist[v := x][..m] == dist[..m];
    } else {
      assert dist[v := x][..m] == dist[..m][v := x];
      UnreachedUpdate(dist[..m], v, x);
    }
  }

  /** Node `u` has been taken off the queue: all of its neighbours are reached, none more
   *  than one level below it. */
  ghost predicate Settled(links: Links, dist: seq<int>, u: int)
    requires 0 <= u < |links|
  {
    |dist| == |links| && forall x :: x in links[u] ==> Metrics.Reached(dist, x) && dist[x] <= dist[u] + 1
  }

  /** What holds of every reached node: the source at level 0, and every other reached node
   *  one level below the reached node (`parent`) that discovered it. */
  ghost predicate Levels(links: Links, source: int, dist: seq<int>, parent: seq<int>)
  {
    InRange(links, |links|) && |dist| == |links| && |parent| == |links| && 0 <= source < |links| &&
    dist[source] == 0 && (forall v :: 0 <= v < |dist| ==> dist[v] >= -1) &&
    forall v {:trigger parent[v]} :: Metrics.Reached(dist, v) && v != source ==>
      0 <= parent[v] < |links| && Metrics.Reached(dist, parent[v]) && v in links[parent[v]] &&
      dist[parent[v]] == dist[v] - 1
  }

  /** The queue holds distinct reached nodes whose levels rise by at most one from front to
   *  back. */
  ghost predicate QueueOrdered(dist: seq<int>, queue: seq<int>)
  {
    (forall k :: 0 <= k < |queue| ==> Metrics.Reached(dist, queue[k])) &&
    (forall a, b :: 0 <= a < b < |queue| ==> queue[a] != queue[b]) &&
    (forall a, b :: 0 <= a <= b < |queue| ==> dist[queue[a]] <= dist[queue[b]] <= dist[queue[a]] + 1)
  }

  /** The loop invariant of the search, at the head of the `while` loop. */
  ghost predicate SearchState(links: Links, source: int, dist: seq<int>, parent: seq<int>, queue: seq<int>)
  {
    Levels(links, source, dist, parent) && QueueOrdered(dist, queue) &&
    (queue != [] ==> forall x :: Metrics.Reached(dist, x) ==> dist[x] <= dist[queue[0]] + 1) &&
    forall u :: Metrics.Reached(dist, u) && u !in queue ==> Settled(links, dist, u)
  }

  /** The invariant of the `foreach` over the neighbours of `u`, `k` of them visited. */
  ghost predicate Visiting(links: Links, source: int, dist: seq<int>, parent: seq<int>, queue: seq<int>, u: int, k: int)
  {
    Levels(links, source, dist, parent) && QueueOrdered(dist, queue) &&
    Around(links, dist, queue, u, k) && SettledOthers(links, dist, queue, u)
  }

  /** `u` is off the queue, no reached node lies more than one level below it, the queue
   *  holds levels no lower than its own, and its first `k` neighbours are reached. */
  ghost predicate Around(links: Links, dist: seq<int>, queue: seq<int>, u: int, k: int)
  {
    |dist| == |links| && Metrics.Reached(dist, u) && u !in queue && 0 <= k <= |links[u]| &&
    (forall x :: Metrics.Reached(dist, x) ==> dist[x] <= dist[u] + 1) &&
    (forall a :: 0 <= a < |queue| ==> 0 <= queue[a] < |dist| && dist[u] <= dist[queue[a]]) &&
    (forall m :: 0 <= m < k ==> Metrics.Reached(dist, links[u][m]) && dist[links[u][m]] <= dist[u] + 1)
  }

  /** Every reached node other than `u` and off the queue is settled. */
  ghost predicate SettledOthers(links: Links, dist: seq<int>, queue: seq<int>, u: int)
  {
    |dist| == |links| &&
    forall w :: Metrics.Reached(dist, w) && w !in queue && w != u ==> Settled(links, dist, w)
  }

  lemma SearchStarts(links: Links, source: int, dist: seq<int>, parent: seq<int>)
    requires InRange(links, |links|) && 0 <= source < |links| && |dist| == |links| == |parent|
    requires forall v :: 0 <= v < |dist| ==> dist[v] == if v == source then 0 else -1
    ensures SearchState(links, source, dist, parent, [source])
  {
  }

  /** The front of the queue is taken off to be visited. */
  lemma Dequeue(links: Links, source: int, dist: seq<int>, parent: seq<int>, queue: seq<int>)
    requires SearchState(links, source, dist, parent, queue) && queue != []
    ensures Visiting(links, source, dist, parent, queue[1..], queue[0], 0)
  {
    QueueTail(dist, queue);
    assert queue == [queue[0]] + queue[1..];
  }

  lemma QueueTail(dist: seq<int>, queue: seq<int>)
    requires QueueOrdered(dist, queue) && queue != []
    ensures QueueOrdered(dist, queue[1..]) && queue[0] !in queue[1..]
    ensures forall a :: 0 <= a < |queue| - 1 ==> dist[queue[0]] <= dist[queue[1..][a]]
  {
    var rest := queue[1..];
    forall a | 0 <= a < |rest|
      ensures rest[a] == queue[a + 1]
    {
    }
  }

  /** A neighbour of `u` that is already reached is at most one level below `u`. */
  lemma VisitReached(links: Links, source: int, dist: seq<int>, parent: seq<int>, queue: seq<int>, u: int, k: int)
    requires Visiting(links, source, dist, parent, queue, u, k) && k < |links[u]|
    requires 0 <= links[u][k] < |dist| && dist[links[u][k]] != -1
    ensures Visiting(links, source, dist, parent, queue, u, k + 1)
  {
  }

  /** An unreached neighbour of `u` is reached at the next level, parented by `u` and
   *  queued. */
  lemma VisitUnreached(links: Links, source: int, dist: seq<int>, parent: seq<int>, queue: seq<int>, u: int, k: int,
                       dist': seq<int>, parent': seq<int>, queue': seq<int>)
    requires Visiting(links, source, dist, parent, queue, u, k) && k < |links[u]|
    requires 0 <= links[u][k] < |dist| && dist[links[u][k]] == -1
    requires var x := links[u][k];
             dist' == dist[x := dist[u] + 1] && parent' == parent[x := u] && queue' == queue + [x]
    ensures Visiting(links, source, dist', parent', queue', u, k + 1)
    ensures Unreached(dist') == Unreached(dist) - 1
  {
    var x := links[u][k];
    UnreachedUpdate(dist, x, dist[u] + 1);
    LevelsExtend(links, source, dist, parent, u, x);
    QueueExtend(dist, queue, u, x);
    AroundExtend(links, dist, queue, u, k);
    SettledOthersExtend(links, dist, queue, u, x);
  }

  lemma AroundExtend(links: Links, dist: seq<int>, queue: seq<int>, u: int, k: int)
    requires Around(links, dist, queue, u, k) && k < |links[u]| && dist[u] >= 0
    requires 0 <= links[u][k] < |dist| && dist[links[u][k]] == -1
    ensures var x := links[u][k];
            Around(links, dist[x := dist[u] + 1], queue + [x], u, k + 1)
  {
    var x := links[u][k];
    var dist', queue' := dist[x := dist[u] + 1], queue + [x];
    forall a | 0 <= a < |queue'|
      ensures 0 <= queue'[a] < |dist'| && dist'[u] <= dist'[queue'[a]]
    {
      if a < |queue| {
        assert queue'[a] == queue[a];
      }
    }
  }

  lemma SettledOthersExtend(links: Links, dist: seq<int>, queue: seq<int>, u: int, x: int)
    requires SettledOthers(links, dist, queue, u) && 0 <= u < |dist| && dist[u] >= 0
    requires 0 <= x < |dist| && dist[x] == -1
    ensures SettledOthers(links, dist[x := dist[u] + 1], queue + [x], u)
  {
    var dist' := dist[x := dist[u] + 1];
    forall w | Metrics.Reached(dist', w) && w !in queue + [x] && w != u
      ensures Settled(links, dist', w)
    {
      SettledKeep(links, dist, w, x, dist[u] + 1);
    }
  }

  lemma LevelsExtend(links: Links, source: int, dist: seq<int>, parent: seq<int>, u: int, x: int)
    requires Levels(links, source, dist, parent) && Metrics.Reached(dist, u)
    requires x in links[u] && dist[x] == -1
    ensures Levels(links, source, dist[x := dist[u] + 1], parent[x := u])
  {
  }

  lemma QueueExtend(dist: seq<int>, queue: seq<int>, u: int, x: int)
    requires QueueOrdered(dist, queue) && Metrics.Reached(dist, u) && dist[u] >= 0 && 0 <= x < |dist| && dist[x] == -1
    requires forall a :: 0 <= a < |queue| ==> dist[u] <= dist[queue[a]] <= dist[u] + 1
    ensures QueueOrdered(dist[x := dist[u] + 1], queue + [x])
  {
    var dist', queue' := dist[x := dist[u] + 1], queue + [x];
    assert x !in queue;
    forall k | 0 <= k < |queue'|
      ensures Metrics.Reached(dist', queue'[k])
    {
      if k < |queue| {
        assert queue'[k] == queue[k] && Metrics.Reached(dist, queue[k]);
      }
    }
    forall a, b | 0 <= a < b < |queue'|
      ensures queue'[a] != queue'[b]
    {
      if b < |queue| {
        assert queue'[a] == queue[a] && queue'[b] == queue[b];
      } else {
        assert queue'[a] == queue[a];
      }
    }
    forall a, b | 0 <= a <= b < |queue'|
      ensures dist'[queue'[a]] <= dist'[queue'[b]] <= dist'[queue'[a]] + 1
    {
      if b < |queue| {
        assert queue'[a] == queue[a] && queue'[b] == queue[b];
      } else if a < |queue| {
        assert queue'[a] == queue[a];
      }
    }
  }

  /** Reaching a new node does not unsettle a settled one. */
  lemma SettledKeep(links: Links, dist: seq<int>, w: int, x: int, level: int)
    requires 0 <= w < |links| && Settled(links, dist, w) && 0 <= x < |dist| && dist[x] == -1 && w != x
    ensures Settled(links, dist[x := level], w)
  {
    forall y | y in links[w]
      ensures Metrics.Reached(dist[x := level], y) && dist[x := level][y] <= dist[x := level][w] + 1
    {
      assert Metrics.Reached(dist, y);
    }
  }

  lemma FinishVisit(links: Links, source: int, dist: seq<int>, parent: seq<int>, queue: seq<int>, u: int)
    requires 0 <= u < |links| && Visiting(links, source, dist, parent, queue, u, |links[u]|)
    ensures SearchState(links, source, dist, parent, queue)
  {
    assert Settled(links, dist, u) by {
      forall x | x in links[u]
        ensures Metrics.Reached(dist, x) && dist[x] <= dist[u] + 1
      {
        var m :| 0 <= m < |links[u]| && links[u][m] == x;
      }
    }
  }

  /** An empty queue: every reached node is settled, which is the breadth-first property. */
  lemma SearchEnds(links: Links, source: int, dist: seq<int>, parent: seq<int>)
    requires SearchState(links, source, dist, parent, [])
    ensures Metrics.BreadthFirst(links, source, dist)
  {
    forall v | Metrics.Reached(dist, v) && v != source
      ensures dist[v] >= 1 && exists w :: 0 <= w < |links| && v in links[w] && dist[w] == dist[v] - 1
    {
      assert v in links[parent[v]];
    }
    forall u, x | Metrics.Reached(dist, u) && x in links[u]
      ensures Metrics.Reached(dist, x) && dist[x] <= dist[u] + 1
    {
      assert Settled(links, dist, u);
    }
  }

  /** The three lattice types, whose node count `Create` rounds down to a square. */
  predicate IsLattice(t: NetworkFile.NetworkType)
  {
    t == NetworkFile.SimpleSquareLattice || t == NetworkFile.TriangularLattice || t == NetworkFile.Honeycomb
  }

  /** `(int)Math.Sqrt(n)`. The square root of a negative count is `NaN`, whose cast to
   *  `int` depends on the runtime; the model takes it as 0. */
  function LatticeSide(n: int): (side: nat)
    ensures n >= 0 ==> side * side <= n < (side + 1) * (side + 1)
  {
    if n < 0 then 0 else FloorSqrt(n)
  }

  /** The node count after the lattice adjustment of `Create`. */
  function SizedCount(t: NetworkFile.NetworkType, n: int): int
  {
    if IsLattice(t) then LatticeSide(n) * LatticeSide(n) else n
  }

  /** The random draws the generator of type `t` consumes on `n` nodes, in the order it
   *  consumes them. */
  predicate DrawsFit(t: NetworkFile.NetworkType, n: int, degree: int, coins: seq<bool>, picks: seq<int>, draws: seq<int>)
  {
    match t
    case ErdosRenyi => n >= 0 ==> |coins| == RandomGraphs.PairCount(n)
    case SmallWorld => n >= 0 ==> RewiringDraws(n, degree, coins, picks)
    case BarabasiAlbert => n >= 2 ==> RandomGraphs.TicketDraws(n, draws)
    case _ => true
  }

  /** The lists the generator of type `t` builds on `n` nodes (a lattice of side `side`),
   *  or `None` where it throws or runs out of picks. */
  function Generated(t: NetworkFile.NetworkType, n: nat, side: int, degree: int, coins: seq<bool>, picks: seq<int>, draws: seq<int>): Option<Links>
    requires DrawsFit(t, n, degree, coins, picks, draws) && (IsLattice(t) ==> 0 <= side)
  {
    match t
    case SimpleSquareLattice => Some(Lattices.SquareLattice(side))
    case ErdosRenyi => Some(RandomGraphs.ErdosRenyi(n, coins))
    case RegularRingGraph => Some(Ring.RegularRing(n, Ring.RingSteps(degree)))
    case SmallWorld =>
      (match Ring.RewireFrom(Ring.RegularRing(n, Ring.RingSteps(degree)), Ring.RingSteps(degree), 0, 1, coins, picks)
       case Rewired(links) => Some(links)
       case OutOfPicks => None)
    case BarabasiAlbert => if n < 2 then None else Some(RandomGraphs.BarabasiAlbert(n, draws))
    case TriangularLattice => Some(Lattices.TriangularLattice(side))
    case Honeycomb => Some(Lattices.HoneycombLattice(side))
  }

  lemma BarabasiAlbertGrows(n: nat, draws: seq<int>, node: nat)
    requires RandomGraphs.TicketDraws(n, draws) && 2 <= node < n
    ensures RandomGraphs.TicketDraws(node, draws[..node - 2]) && RandomGraphs.TicketDraws(node + 1, draws[..node - 1])
    ensures var prev := RandomGraphs.BarabasiAlbert(node, draws[..node - 2]);
            0 <= draws[node - 2] < TotalDegree(prev) &&
            RandomGraphs.Winner(prev, draws[node - 2]).Some? &&
            RandomGraphs.BarabasiAlbert(node + 1, draws[..node - 1]) ==
              RandomGraphs.BarabasiAlbertStep(prev, RandomGraphs.Winner(prev, draws[node - 2]).value, node)
  {
    assert draws[..node - 1][..node - 2] == draws[..node - 2];
    RandomGraphs.WinnerSmallest(RandomGraphs.BarabasiAlbert(node, draws[..node - 2]), draws[node - 2]);
  }

  /** The degrees, when they are the list lengths, add up to the total degree. */
  lemma {:induction false} DegreeSum(degrees: seq<int>, links: Links)
    requires |degrees| == |links| && forall v :: 0 <= v < |links| ==> degrees[v] == |links[v]|
    ensures Sum(degrees) == TotalDegree(links)
  {
    if links != [] {
      var m := |links| - 1;
      DegreeSum(degrees[..m], links[..m]);
    }
  }

  /** Row-major positions up to the end of row `j` stay within the lattice. */
  lemma RowMajorBound(i: int, j: int, side: int)
    requires 0 <= i <= side && 0 <= j < side
    ensures 0 <= j * side + i <= side * side
  {
    MulMonotone(j + 1, side, side);
    MulMonotone(0, j, side);
  }

  /** What the rewiring pass consumes for `n` nodes and a ring degree: one coin per right
   *  neighbour visit, and picks that are node ids (`Random.Next(NodesCount)`). */
  predicate RewiringDraws(n: int, degree: int, coins: seq<bool>, picks: seq<int>)
  {
    0 <= n && Ring.RingSteps(degree) <= n && |coins| == Ring.CoinsLeft(n, Ring.RingSteps(degree), 0, 1) &&
    forall k :: 0 <= k < |picks| ==> 0 <= picks[k] < n
  }

  /** One visit of the rewiring pass, unfolded: a false coin moves on, a true coin rewires
   *  to the first accepted pick or runs out of picks. */
  lemma RewireFromStep(links: Links, steps: nat, node: nat, d: nat, coins: seq<bool>, picks: seq<int>)
    requires steps <= |links| && node < |links| && 1 <= d <= steps
    requires |coins| == Ring.CoinsLeft(|links|, steps, node, d)
    requires forall k :: 0 <= k < |picks| ==> 0 <= picks[k] < |links|
    ensures var target := PeriodicCondition(node + d, |links|);
            var r := Ring.RewireFrom(links, steps, node, d, coins, picks);
            0 <= target < |links| &&
            (!coins[0] ==> r == Ring.RewireFrom(links, steps, node, d + 1, coins[1..], picks)) &&
            (coins[0] ==>
               match Ring.FirstAccepted(links[node], node, target, picks)
               case None => r.OutOfPicks?
               case Some(k) =>
                 r == Ring.RewireFrom(Ring.RewireLink(links, node, target, picks[k]), steps, node, d + 1, coins[1..], picks[k + 1..]))
  {
  }

  /** No pick from `start` on was accepted, so the retry loop runs out. */
  lemma NoAcceptedPick(row: seq<int>, node: int, target: int, picks: seq<int>, start: int)
    requires 0 <= start <= |picks|
    requires forall m :: start <= m < |picks| ==> !Ring.Accepts(row, node, target, picks[m])
    ensures Ring.FirstAccepted(row, node, target, picks[start..]).None?
  {
  }

  /** The first accepted pick from `start` on is the one at `q`. */
  lemma FirstAcceptedPick(row: seq<int>, node: int, target: int, picks: seq<int>, start: int, q: int)
    requires 0 <= start <= q < |picks|
    requires forall m :: start <= m < q ==> !Ring.Accepts(row, node, target, picks[m])
    requires Ring.Accepts(row, node, target, picks[q])
    ensures Ring.FirstAccepted(row, node, target, picks[start..]) == Some(q - start)
  {
    var first := Ring.FirstAccepted(row, node, target, picks[start..]);
    assert picks[start..][q - start] == picks[q];
    if first.Some? {
      assert picks[start..][first.value] == picks[start + first.value];
    }
  }

  /** The coin of pair `(i, j)` is one of the `PairCount(n)` coins. */
  lemma PairIndexBelowCount(i: nat, j: int, n: nat)
    requires i < j < n
    ensures 0 <= RandomGraphs.PairIndex(i, j, n) < RandomGraphs.PairCount(n)
  {
    RandomGraphs.RowStartMonotone(0, i, n);
    RandomGraphs.RowStartMonotone(i + 1, n, n);
    RandomGraphs.RowStartAll(n);
    assert RandomGraphs.RowStart(i + 1, n) == RandomGraphs.RowStart(i, n) + (n - i - 1);
  }
}
