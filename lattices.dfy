/** The three lattice generators of Network.cs as specification functions: the square
 *  lattice (4 links), the triangular lattice (6 links) and the honeycomb (3 links), all
 *  on an `side` by `side` grid with periodic wrap-around, node `j * side + i` sitting in
 *  column `i` of row `j`. */
module Lattices {
  import opened Topology

  // ---------------------------------------------------------------- square lattice

  /** The four links the square-lattice loop writes for `node`: left, top, right, bottom,
   *  each wrapped by the test the loop uses. */
  function SquareLinks(node: int, side: int): seq<int>
    requires side > 0
  {
    [ if node % side == 0 then node + side - 1 else node - 1,
      if node - side < 0 then node + side * (side - 1) else node - side,
      if (node + 1) % side == 0 then node - side + 1 else node + 1,
      if node + side >= side * side then node + side * (1 - side) else node + side ]
  }

  function SquareLattice(side: nat): (links: Links)
  {
    if side == 0 then [] else seq(side * side, node => SquareLinks(node, side))
  }

  /** The node left, above, right of and below column `i`, row `j` on the torus. */
  function TorusCross(i: int, j: int, side: int): seq<int>
  {
    [ TargetNode(PeriodicCondition(i - 1, side), j, side),
      TargetNode(i, PeriodicCondition(j - 1, side), side),
      TargetNode(PeriodicCondition(i + 1, side), j, side),
      TargetNode(i, PeriodicCondition(j + 1, side), side) ]
  }

  /** The edge tests of the square-lattice loop agree with wrap-around on coordinates. */
  lemma SquareLinksOnTorus(i: int, j: int, side: int)
    requires 0 <= i < side && 0 <= j < side
    ensures SquareLinks(TargetNode(i, j, side), side) == TorusCross(i, j, side)
  {
    var node := TargetNode(i, j, side);
    TargetNodeDecodes(i, j, side);
    assert node == j * side + i;
    // right: (node + 1) % side == 0 exactly in the last column
    if i + 1 < side {
      DecodeTarget(i + 1, j, side);
      assert node + 1 == j * side + (i + 1);
    } else {
      assert node + 1 == (j + 1) * side;
      DivModUnique(node + 1, side, j + 1, 0);
    }
    // top: node - side < 0 exactly in the first row
    if j > 0 {
      assert node - side == (j - 1) * side + i;
      MulMonotone(0, j - 1, side);
    }
    assert side * (side - 1) == (side - 1) * side;
    // bottom: node + side >= side * side exactly in the last row
    assert node + side == (j + 1) * side + i;
    if j + 1 < side {
      MulMonotone(j + 2, side, side);
      assert (j + 2) * side == (j + 1) * side + side;
    } else {
      assert (j + 1) * side == side * side;
      assert node + side * (1 - side) == i;
    }
  }

  /** Coordinates of a node id of the lattice. */
  lemma EncodeNode(node: int, side: nat)
    requires 0 <= node < side * side
    ensures side > 0 && 0 <= node % side < side && 0 <= node / side < side
    ensures TargetNode(node % side, node / side, side) == node
  {
    var q, r := node / side, node % side;
    assert node == q * side + r;
    if q >= side {
      MulMonotone(side, q, side);
    }
    DecodeTarget(r, q, side);
  }

  /** Left and right, top and bottom undo each other on the torus. */
  lemma TorusCrossReturns(i: int, j: int, side: int)
    requires 0 <= i < side && 0 <= j < side
    ensures TargetNode(i, j, side) in TorusCross(PeriodicCondition(i - 1, side), j, side)
    ensures TargetNode(i, j, side) in TorusCross(i, PeriodicCondition(j - 1, side), side)
    ensures TargetNode(i, j, side) in TorusCross(PeriodicCondition(i + 1, side), j, side)
    ensures TargetNode(i, j, side) in TorusCross(i, PeriodicCondition(j + 1, side), side)
  {
    assert PeriodicCondition(PeriodicCondition(i - 1, side) + 1, side) == i;
    assert PeriodicCondition(PeriodicCondition(i + 1, side) - 1, side) == i;
    assert PeriodicCondition(PeriodicCondition(j - 1, side) + 1, side) == j;
    assert PeriodicCondition(PeriodicCondition(j + 1, side) - 1, side) == j;
  }

  /** A neighbour `b` on the torus lists column `i`, row `j` back. */
  lemma TorusNeighbourReturns(i: int, j: int, side: nat, b: int)
    requires 0 <= i < side && 0 <= j < side && b in TorusCross(i, j, side)
    ensures 0 <= b < side * side && TargetNode(i, j, side) in SquareLattice(side)[b]
  {
    TorusCrossReturns(i, j, side);
    var left, up := PeriodicCondition(i - 1, side), PeriodicCondition(j - 1, side);
    var right, down := PeriodicCondition(i + 1, side), PeriodicCondition(j + 1, side);
    if b == TargetNode(left, j, side) {
      SquareLinksOnTorus(left, j, side);
    } else if b == TargetNode(i, up, side) {
      SquareLinksOnTorus(i, up, side);
    } else if b == TargetNode(right, j, side) {
      SquareLinksOnTorus(right, j, side);
    } else {
      SquareLinksOnTorus(i, down, side);
    }
  }

  lemma SquareLinkReturns(a: int, b: int, side: nat)
    requires 0 <= a < side * side && b in SquareLattice(side)[a]
    ensures 0 <= b < side * side && a in SquareLattice(side)[b]
  {
    EncodeNode(a, side);
    var i, j := a % side, a / side;
    SquareLinksOnTorus(i, j, side);
    TorusNeighbourReturns(i, j, side, b);
  }

  /** Square lattice: every node has exactly four entries, all node ids. */
  lemma SquareLatticeInRange(side: nat)
    ensures InRange(SquareLattice(side), side * side)
    ensures forall v :: 0 <= v < side * side ==> |SquareLattice(side)[v]| == 4
  {
    var links := SquareLattice(side);
    forall v, k | 0 <= v < |links| && 0 <= k < |links[v]|
      ensures 0 <= links[v][k] < side * side
    {
      SquareLinkReturns(v, links[v][k], side);
    }
  }

  /** Square lattice: left/right and top/bottom are inverse maps, so the lists are symmetric. */
  lemma SquareLatticeSymmetric(side: nat)
    ensures Symmetric(SquareLattice(side))
  {
    var links := SquareLattice(side);
    forall a, b | 0 <= a < |links| && 0 <= b < |links|
      ensures b in links[a] <==> a in links[b]
    {
      if b in links[a] { SquareLinkReturns(a, b, side); }
      if a in links[b] { SquareLinkReturns(b, a, side); }
    }
  }

  // ------------------------------------------------------------ triangular lattice

  /** The diagonal offset `condition` of the triangular loop: 1 on even rows, -1 on odd rows
   *  (it starts at 1 and flips at the end of every row). */
  function RowCondition(j: int): int
  {
    if j % 2 == 0 then 1 else -1
  }

  /** The six links of column `i`, row `j`: left, right, top, bottom, then the two
   *  diagonals shifted by `RowCondition(j)`. */
  function TriangularLinks(i: int, j: int, side: int): seq<int>
  {
    var c := RowCondition(j);
    [ TargetNode(PeriodicCondition(i - 1, side), j, side),
      TargetNode(PeriodicCondition(i + 1, side), j, side),
      TargetNode(i, PeriodicCondition(j - 1, side), side),
      TargetNode(i, PeriodicCondition(j + 1, side), side),
      TargetNode(PeriodicCondition(i - c, side), PeriodicCondition(j - 1, side), side),
      TargetNode(PeriodicCondition(i - c, side), PeriodicCondition(j + 1, side), side) ]
  }

  function TriangularLattice(side: nat): Links
  {
    if side == 0 then [] else seq(side * side, node => TriangularLinks(node % side, node / side, side))
  }

  lemma TriangularLinksInRange(i: int, j: int, side: int)
    requires 0 <= i < side && 0 <= j < side
    ensures |TriangularLinks(i, j, side)| == 6
    ensures forall k :: 0 <= k < 6 ==> 0 <= TriangularLinks(i, j, side)[k] < side * side
  {
  }

  /** Triangular lattice: six entries per node, all node ids. */
  lemma TriangularLatticeInRange(side: nat)
    ensures InRange(TriangularLattice(side), side * side)
    ensures forall v :: 0 <= v < side * side ==> |TriangularLattice(side)[v]| == 6
  {
    var links := TriangularLattice(side);
    forall v | 0 <= v < side * side
      ensures |links[v]| == 6 && forall k :: 0 <= k < 6 ==> 0 <= links[v][k] < side * side
    {
      EncodeNode(v, side);
      TriangularLinksInRange(v % side, v / side, side);
    }
  }

  /** With an even number of rows, neighbouring rows (including the wrap from the last row
   *  to row 0) always carry opposite diagonal offsets. */
  lemma RowConditionAlternates(j: int, side: int)
    requires side % 2 == 0 && 0 <= j < side
    ensures RowCondition(PeriodicCondition(j + 1, side)) == -RowCondition(j)
    ensures RowCondition(PeriodicCondition(j - 1, side)) == -RowCondition(j)
  {
  }

  /** The offset flips from one row to the next. */
  lemma RowConditionFlips(j: int)
    ensures RowCondition(j + 1) == -RowCondition(j)
  {
    assert j + 1 == 2 * ((j + 1) / 2) + (j + 1) % 2 && j == 2 * (j / 2) + j % 2;
  }

  lemma TriangularAt(i: int, j: int, side: nat)
    requires 0 <= i < side && 0 <= j < side
    ensures 0 <= TargetNode(i, j, side) < side * side
    ensures TriangularLattice(side)[TargetNode(i, j, side)] == TriangularLinks(i, j, side)
  {
    TargetNodeDecodes(i, j, side);
  }

  /** `(x, y)` lists column `i`, row `j` among its links. */
  ghost predicate TriangularListsBack(x: int, y: int, i: int, j: int, side: nat)
  {
    0 <= x < side && 0 <= y < side &&
    TargetNode(i, j, side) in TriangularLattice(side)[TargetNode(x, y, side)]
  }

  lemma TriangularLeftReturns(i: int, j: int, side: nat)
    requires 0 <= i < side && 0 <= j < side
    ensures TriangularListsBack(PeriodicCondition(i - 1, side), j, i, j, side)
  {
    var x := PeriodicCondition(i - 1, side);
    TriangularAt(x, j, side);
    TargetNodeDecodes(x, j, side);
    assert TriangularLinks(x, j, side)[1] == TargetNode(i, j, side);
  }

  lemma TriangularRightReturns(i: int, j: int, side: nat)
    requires 0 <= i < side && 0 <= j < side
    ensures TriangularListsBack(PeriodicCondition(i + 1, side), j, i, j, side)
  {
    var x := PeriodicCondition(i + 1, side);
    TriangularAt(x, j, side);
    TargetNodeDecodes(x, j, side);
    assert TriangularLinks(x, j, side)[0] == TargetNode(i, j, side);
  }

  lemma TriangularUpReturns(i: int, j: int, side: nat)
    requires 0 <= i < side && 0 <= j < side
    ensures TriangularListsBack(i, PeriodicCondition(j - 1, side), i, j, side)
  {
    var y := PeriodicCondition(j - 1, side);
    TriangularAt(i, y, side);
    TargetNodeDecodes(i, y, side);
    assert TriangularLinks(i, y, side)[3] == TargetNode(i, j, side);
  }

  lemma TriangularDownReturns(i: int, j: int, side: nat)
    requires 0 <= i < side && 0 <= j < side
    ensures TriangularListsBack(i, PeriodicCondition(j + 1, side), i, j, side)
  {
    var y := PeriodicCondition(j + 1, side);
    TriangularAt(i, y, side);
    TargetNodeDecodes(i, y, side);
    assert TriangularLinks(i, y, side)[2] == TargetNode(i, j, side);
  }

  lemma TriangularUpDiagonalReturns(i: int, j: int, side: nat)
    requires side % 2 == 0 && 0 <= i < side && 0 <= j < side
    ensures TriangularListsBack(PeriodicCondition(i - RowCondition(j), side), PeriodicCondition(j - 1, side), i, j, side)
  {
    RowConditionAlternates(j, side);
    var x, y := PeriodicCondition(i - RowCondition(j), side), PeriodicCondition(j - 1, side);
    TriangularAt(x, y, side);
    TargetNodeDecodes(x, y, side);
    assert TriangularLinks(x, y, side)[5] == TargetNode(i, j, side);
  }

  lemma TriangularDownDiagonalReturns(i: int, j: int, side: nat)
    requires side % 2 == 0 && 0 <= i < side && 0 <= j < side
    ensures TriangularListsBack(PeriodicCondition(i - RowCondition(j), side), PeriodicCondition(j + 1, side), i, j, side)
  {
    RowConditionAlternates(j, side);
    var x, y := PeriodicCondition(i - RowCondition(j), side), PeriodicCondition(j + 1, side);
    TriangularAt(x, y, side);
    TargetNodeDecodes(x, y, side);
    assert TriangularLinks(x, y, side)[4] == TargetNode(i, j, side);
  }

  /** On an even side, every one of the six neighbours of column `i`, row `j` lists it back. */
  lemma TriangularNeighbourReturns(i: int, j: int, side: nat, b: int)
    requires side % 2 == 0 && 0 <= i < side && 0 <= j < side && b in TriangularLinks(i, j, side)
    ensures 0 <= b < side * side && TargetNode(i, j, side) in TriangularLattice(side)[b]
  {
    var k :| 0 <= k < 6 && TriangularLinks(i, j, side)[k] == b;
    if k < 4 {
      TriangularStraightReturns(i, j, side, k);
    } else {
      TriangularDiagonalReturns(i, j, side, k);
    }
  }

  /** The left, right, upper and lower neighbours list the node back (any side). */
  lemma TriangularStraightReturns(i: int, j: int, side: nat, k: int)
    requires 0 <= i < side && 0 <= j < side && 0 <= k < 4
    ensures var b := TriangularLinks(i, j, side)[k];
            0 <= b < side * side && TargetNode(i, j, side) in TriangularLattice(side)[b]
  {
    var left, up := PeriodicCondition(i - 1, side), PeriodicCondition(j - 1, side);
    var right, down := PeriodicCondition(i + 1, side), PeriodicCondition(j + 1, side);
    var b := TriangularLinks(i, j, side)[k];
    if k == 0 {
      TriangularLeftReturns(i, j, side);
      assert b == TargetNode(left, j, side);
    } else if k == 1 {
      TriangularRightReturns(i, j, side);
      assert b == TargetNode(right, j, side);
    } else if k == 2 {
      TriangularUpReturns(i, j, side);
      assert b == TargetNode(i, up, side);
    } else {
      TriangularDownReturns(i, j, side);
      assert b == TargetNode(i, down, side);
    }
  }

  /** On an even side, the two diagonal neighbours list the node back. */
  lemma TriangularDiagonalReturns(i: int, j: int, side: nat, k: int)
    requires side % 2 == 0 && 0 <= i < side && 0 <= j < side && 4 <= k < 6
    ensures var b := TriangularLinks(i, j, side)[k];
            0 <= b < side * side && TargetNode(i, j, side) in TriangularLattice(side)[b]
  {
    var up, down := PeriodicCondition(j - 1, side), PeriodicCondition(j + 1, side);
    var diag := PeriodicCondition(i - RowCondition(j), side);
    var b := TriangularLinks(i, j, side)[k];
    if k == 4 {
      TriangularUpDiagonalReturns(i, j, side);
      assert b == TargetNode(diag, up, side);
    } else {
      TriangularDownDiagonalReturns(i, j, side);
      assert b == TargetNode(diag, down, side);
    }
  }

  lemma TriangularLinkReturns(a: int, b: int, side: nat)
    requires side % 2 == 0 && 0 <= a < side * side && b in TriangularLattice(side)[a]
    ensures 0 <= b < side * side && a in TriangularLattice(side)[b]
  {
    EncodeNode(a, side);
    TriangularNeighbourReturns(a % side, a / side, side, b);
  }

  /** Triangular lattice: symmetric whenever the side is even. */
  lemma TriangularLatticeSymmetric(side: nat)
    requires side % 2 == 0
    ensures Symmetric(TriangularLattice(side))
  {
    var links := TriangularLattice(side);
    forall a, b | 0 <= a < |links| && 0 <= b < |links|
      ensures b in links[a] <==> a in links[b]
    {
      if b in links[a] { TriangularLinkReturns(a, b, side); }
      if a in links[b] { TriangularLinkReturns(b, a, side); }
    }
  }

  /** Triangular lattice, odd side of at least 3: the last row and row 0 both have offset 1,
   *  so node (0, side - 1) lists (side - 1, 0) through its lower diagonal, but (side - 1, 0)
   *  does not list it back. */
  lemma TriangularLatticeOddNotSymmetric(side: nat)
    requires side >= 3 && side % 2 == 1
    ensures var links := TriangularLattice(side);
            var a, b := TargetNode(0, side - 1, side), TargetNode(side - 1, 0, side);
            0 <= a < |links| && 0 <= b < |links| && b in links[a] && a !in links[b]
    ensures !Symmetric(TriangularLattice(side))
  {
    TriangularAt(0, side - 1, side);
    TriangularAt(side - 1, 0, side);
    TriangularOddForward(side);
    TriangularOddNoReturn(side);
  }

  lemma TriangularOddForward(side: nat)
    requires side >= 3 && side % 2 == 1
    ensures TriangularLinks(0, side - 1, side)[5] == TargetNode(side - 1, 0, side)
  {
    assert RowCondition(side - 1) == 1 by { assert side - 1 == 2 * ((side - 1) / 2); }
  }

  lemma TriangularOddNoReturn(side: nat)
    requires side >= 3
    ensures TargetNode(0, side - 1, side) !in TriangularLinks(side - 1, 0, side)
  {
    var back := TriangularLinks(side - 1, 0, side);
    assert back == [TargetNode(side - 2, 0, side), TargetNode(0, 0, side),
                    TargetNode(side - 1, side - 1, side), TargetNode(side - 1, 1, side),
                    TargetNode(side - 2, side - 1, side), TargetNode(side - 2, 1, side)];
    TargetNodeInjective(0, side - 1, side - 2, 0, side);
    TargetNodeInjective(0, side - 1, 0, 0, side);
    TargetNodeInjective(0, side - 1, side - 1, side - 1, side);
    TargetNodeInjective(0, side - 1, side - 1, 1, side);
    TargetNodeInjective(0, side - 1, side - 2, side - 1, side);
    TargetNodeInjective(0, side - 1, side - 2, 1, side);
  }

  // ---------------------------------------------------------------------- honeycomb

  /** The `bottomLink` flag of the honeycomb loop at column `i`, row `j`: it starts true,
   *  flips after every node and once more after every row. */
  function BottomLinkAt(i: int, j: int, side: int): bool
  {
    (j * side + i + j) % 2 == 0
  }

  /** The flag flips from one node to the next, and across the end of a row (where the loop
   *  flips it once more) it flips too. */
  lemma BottomLinkFlips(i: int, j: int, side: int)
    ensures BottomLinkAt(i + 1, j, side) == !BottomLinkAt(i, j, side)
    ensures BottomLinkAt(0, j + 1, side) == !BottomLinkAt(side, j, side)
  {
    assert (j + 1) * side + 0 + (j + 1) == (j * side + side + j) + 1;
  }

  /** The three links of column `i`, row `j`: left, right, and below or above. */
  function HoneycombLinks(i: int, j: int, side: int): seq<int>
  {
    [ TargetNode(PeriodicCondition(i - 1, side), j, side),
      TargetNode(PeriodicCondition(i + 1, side), j, side),
      if BottomLinkAt(i, j, side) then TargetNode(i, PeriodicCondition(j + 1, side), side)
      else TargetNode(i, PeriodicCondition(j - 1, side), side) ]
  }

  function HoneycombLattice(side: nat): Links
  {
    if side == 0 then [] else seq(side * side, node => HoneycombLinks(node % side, node / side, side))
  }

  lemma HoneycombLinksInRange(i: int, j: int, side: int)
    requires 0 <= i < side && 0 <= j < side
    ensures |HoneycombLinks(i, j, side)| == 3
    ensures forall k :: 0 <= k < 3 ==> 0 <= HoneycombLinks(i, j, side)[k] < side * side
  {
  }

  /** Honeycomb: three entries per node, all node ids. */
  lemma HoneycombLatticeInRange(side: nat)
    ensures InRange(HoneycombLattice(side), side * side)
    ensures forall v :: 0 <= v < side * side ==> |HoneycombLattice(side)[v]| == 3
  {
    var links := HoneycombLattice(side);
    forall v | 0 <= v < side * side
      ensures |links[v]| == 3 && forall k :: 0 <= k < 3 ==> 0 <= links[v][k] < side * side
    {
      EncodeNode(v, side);
      HoneycombLinksInRange(v % side, v / side, side);
    }
  }

  /** With an even side the flag is the parity of `i + j`: a checkerboard. */
  lemma BottomLinkCheckerboard(i: int, j: int, side: int)
    requires side % 2 == 0
    ensures BottomLinkAt(i, j, side) == ((i + j) % 2 == 0)
  {
    assert j * side == 2 * (j * (side / 2));
  }

  lemma HoneycombAt(i: int, j: int, side: nat)
    requires 0 <= i < side && 0 <= j < side
    ensures 0 <= TargetNode(i, j, side) < side * side
    ensures HoneycombLattice(side)[TargetNode(i, j, side)] == HoneycombLinks(i, j, side)
  {
    TargetNodeDecodes(i, j, side);
  }

  /** `(x, y)` lists column `i`, row `j` among its links. */
  ghost predicate HoneycombListsBack(x: int, y: int, i: int, j: int, side: nat)
  {
    0 <= x < side && 0 <= y < side &&
    TargetNode(i, j, side) in HoneycombLattice(side)[TargetNode(x, y, side)]
  }

  lemma HoneycombLeftReturns(i: int, j: int, side: nat)
    requires 0 <= i < side && 0 <= j < side
    ensures HoneycombListsBack(PeriodicCondition(i - 1, side), j, i, j, side)
  {
    var x := PeriodicCondition(i - 1, side);
    HoneycombAt(x, j, side);
    TargetNodeDecodes(x, j, side);
    assert HoneycombLinks(x, j, side)[1] == TargetNode(i, j, side);
  }

  lemma HoneycombRightReturns(i: int, j: int, side: nat)
    requires 0 <= i < side && 0 <= j < side
    ensures HoneycombListsBack(PeriodicCondition(i + 1, side), j, i, j, side)
  {
    var x := PeriodicCondition(i + 1, side);
    HoneycombAt(x, j, side);
    TargetNodeDecodes(x, j, side);
    assert HoneycombLinks(x, j, side)[0] == TargetNode(i, j, side);
  }

  /** Folding by an even period keeps a value's parity. */
  lemma EvenFoldParity(value: int, side: int)
    requires side % 2 == 0 && 0 < side
    ensures PeriodicCondition(value, side) % 2 == value % 2
  {
    var h := side / 2;
    assert side == 2 * h;
    if value < 0 {
      DivModUnique(value + side, 2, value / 2 + h, value % 2);
    } else if value >= side {
      DivModUnique(value - side, 2, value / 2 - h, value % 2);
    }
  }

  /** On an even side, moving to a row of the other parity flips the flag. */
  lemma RowParityFlips(i: int, j: int, j2: int, side: nat)
    requires side % 2 == 0 && j2 % 2 != j % 2
    ensures BottomLinkAt(i, j2, side) == !BottomLinkAt(i, j, side)
  {
    BottomLinkCheckerboard(i, j, side);
    BottomLinkCheckerboard(i, j2, side);
    SumParityFlips(i, j, j2);
  }

  lemma SumParityFlips(i: int, j: int, j2: int)
    requires j2 % 2 != j % 2
    ensures ((i + j2) % 2 == 0) == !((i + j) % 2 == 0)
  {
    var d := j2 - j;
    assert d % 2 == 1 by { assert j2 == 2 * (j2 / 2) + j2 % 2 && j == 2 * (j / 2) + j % 2; }
    assert i + j2 == (i + j) + d;
  }

  /** On an even side, the rows above and below a node carry the opposite flag. */
  lemma NeighbourRowFlips(i: int, j: int, side: nat)
    requires side % 2 == 0 && 0 <= i < side && 0 <= j < side
    ensures BottomLinkAt(i, PeriodicCondition(j + 1, side), side) == !BottomLinkAt(i, j, side)
    ensures BottomLinkAt(i, PeriodicCondition(j - 1, side), side) == !BottomLinkAt(i, j, side)
  {
    EvenFoldParity(j + 1, side);
    EvenFoldParity(j - 1, side);
    RowParityFlips(i, j, PeriodicCondition(j + 1, side), side);
    RowParityFlips(i, j, PeriodicCondition(j - 1, side), side);
  }

  /** On an even side, a node linking downwards is linked upwards by the node below it. */
  lemma HoneycombDownReturns(i: int, j: int, side: nat)
    requires side % 2 == 0 && 0 <= i < side && 0 <= j < side && BottomLinkAt(i, j, side)
    ensures HoneycombListsBack(i, PeriodicCondition(j + 1, side), i, j, side)
  {
    var down := PeriodicCondition(j + 1, side);
    NeighbourRowFlips(i, j, side);
    HoneycombAt(i, down, side);
    TargetNodeDecodes(i, down, side);
    assert HoneycombLinks(i, down, side)[2] == TargetNode(i, j, side);
  }

  /** On an even side, a node linking upwards is linked downwards by the node above it. */
  lemma HoneycombUpReturns(i: int, j: int, side: nat)
    requires side % 2 == 0 && 0 <= i < side && 0 <= j < side && !BottomLinkAt(i, j, side)
    ensures HoneycombListsBack(i, PeriodicCondition(j - 1, side), i, j, side)
  {
    var up := PeriodicCondition(j - 1, side);
    NeighbourRowFlips(i, j, side);
    HoneycombAt(i, up, side);
    TargetNodeDecodes(i, up, side);
    assert HoneycombLinks(i, up, side)[2] == TargetNode(i, j, side);
  }

  /** On an even side, each of the three neighbours of column `i`, row `j` lists it back. */
  lemma HoneycombNeighbourReturns(i: int, j: int, side: nat, b: int)
    requires side % 2 == 0 && 0 <= i < side && 0 <= j < side && b in HoneycombLinks(i, j, side)
    ensures 0 <= b < side * side && TargetNode(i, j, side) in HoneycombLattice(side)[b]
  {
    var k :| 0 <= k < 3 && HoneycombLinks(i, j, side)[k] == b;
    if k == 0 {
      HoneycombLeftReturns(i, j, side);
    } else if k == 1 {
      HoneycombRightReturns(i, j, side);
    } else if BottomLinkAt(i, j, side) {
      HoneycombDownReturns(i, j, side);
    } else {
      HoneycombUpReturns(i, j, side);
    }
  }

  lemma HoneycombLinkReturns(a: int, b: int, side: nat)
    requires side % 2 == 0 && 0 <= a < side * side && b in HoneycombLattice(side)[a]
    ensures 0 <= b < side * side && a in HoneycombLattice(side)[b]
  {
    EncodeNode(a, side);
    HoneycombNeighbourReturns(a % side, a / side, side, b);
  }

  /** Honeycomb: symmetric whenever the side is even. */
  lemma HoneycombLatticeSymmetric(side: nat)
    requires side % 2 == 0
    ensures Symmetric(HoneycombLattice(side))
  {
    var links := HoneycombLattice(side);
    forall a, b | 0 <= a < |links| && 0 <= b < |links|
      ensures b in links[a] <==> a in links[b]
    {
      if b in links[a] { HoneycombLinkReturns(a, b, side); }
      if a in links[b] { HoneycombLinkReturns(b, a, side); }
    }
  }

  /** Honeycomb, odd side of at least 3: nodes (0, 0) and (0, 1) both link downwards, so
   *  node (0, 0) lists (0, 1) but (0, 1) does not list it back. */
  lemma HoneycombLatticeOddNotSymmetric(side: nat)
    requires side >= 3 && side % 2 == 1
    ensures var links := HoneycombLattice(side);
            0 < side < |links| && side in links[0] && 0 !in links[side]
    ensures !Symmetric(HoneycombLattice(side))
  {
    var links := HoneycombLattice(side);
    var a, b := TargetNode(0, 0, side), TargetNode(0, 1, side);
    assert a == 0 && b == side;
    HoneycombAt(0, 0, side);
    HoneycombAt(0, 1, side);
    assert links[a][2] == b;
    HoneycombOddNoReturn(side);
    assert b in links[a] && a !in links[b];
  }

  lemma HoneycombOddNoReturn(side: nat)
    requires side >= 3 && side % 2 == 1
    ensures TargetNode(0, 0, side) !in HoneycombLinks(0, 1, side)
  {
    assert BottomLinkAt(0, 1, side) by { assert side + 1 == 2 * ((side + 1) / 2); }
    assert HoneycombLinks(0, 1, side) ==
      [TargetNode(side - 1, 1, side), TargetNode(1, 1, side), TargetNode(0, 2, side)];
    TargetNodeInjective(0, 0, side - 1, 1, side);
    TargetNodeInjective(0, 0, 1, 1, side);
    TargetNodeInjective(0, 0, 0, 2, side);
  }
}
