/** Cell geometry of the maze generator: positions, grid sizes, the
    bounds test and the four unit offsets that define a cell's
    neighbours (maze.py, module level and class Cell). */
module Geometry {

  /** A position (row, col). Candidates produced by adding an offset can
      be negative; InBoundary rejects them. */
  datatype Pos = Pos(row: int, col: int)

  /** The size (rows, cols) of a matrix. */
  datatype Size = Size(rows: nat, cols: nat)

  /** The four unit offsets, in the order the neighbour search tries them:
      left, right, up, down. */
  const OFFSETS: seq<Pos> := [Pos(0, -1), Pos(0, 1), Pos(-1, 0), Pos(1, 0)]

  /** Cell.in_boundary: the position lies inside a matrix of the given size. */
  predicate InBoundary(pos: Pos, size: Size) {
    pos.row < size.rows && pos.col < size.cols && pos.row >= 0 && pos.col >= 0
  }

  /** The position reached from `p` by the offset `d`. */
  function Shift(p: Pos, d: Pos): Pos {
    Pos(p.row + d.row, p.col + d.col)
  }

  function Abs(x: int): nat {
    if x < 0 then -x else x
  }

  /** Grid adjacency, independent of OFFSETS: the two positions are one
      unit step apart along exactly one axis. */
  predicate Adjacent(p: Pos, q: Pos) {
    Abs(p.row - q.row) + Abs(p.col - q.col) == 1
  }

  /** The candidate at `d` from `p`, kept when it is in bounds. */
  function Keep(p: Pos, d: Pos, size: Size): seq<Pos> {
    if InBoundary(Shift(p, d), size) then [Shift(p, d)] else []
  }

  /** The in-bounds positions at the offsets `offs` from `p`, in the
      order of `offs`: the list the loop of Cell.neighbours builds. */
  function NeighboursFrom(p: Pos, size: Size, offs: seq<Pos>): seq<Pos>
    decreases |offs|
  {
    if offs == [] then []
    else NeighboursFrom(p, size, offs[..|offs| - 1]) + Keep(p, offs[|offs| - 1], size)
  }

  /** Cell.neighbours, on positions: the in-bounds neighbours of `p`, in OFFSETS order. */
  function Neighbours(p: Pos, size: Size): seq<Pos> {
    NeighboursFrom(p, size, OFFSETS)
  }

  /** The neighbour search unrolled over the four offsets. */
  lemma NeighboursUnfold(p: Pos, size: Size)
    ensures Neighbours(p, size)
         == Keep(p, OFFSETS[0], size) + Keep(p, OFFSETS[1], size)
          + Keep(p, OFFSETS[2], size) + Keep(p, OFFSETS[3], size)
  {
    var o := OFFSETS;
    assert o[..4][..3] == o[..3] && o[..3][..2] == o[..2] && o[..2][..1] == o[..1] && o[..1][..0] == [];
    assert NeighboursFrom(p, size, o[..1]) == Keep(p, o[0], size);
    assert NeighboursFrom(p, size, o[..2]) == NeighboursFrom(p, size, o[..1]) + Keep(p, o[1], size);
    assert NeighboursFrom(p, size, o[..3]) == NeighboursFrom(p, size, o[..2]) + Keep(p, o[2], size);
    assert o[..4] == o;
  }

  /** The index in OFFSETS of the offset that leads from `p` to `n`, or 4 when none does. */
  function OffsetRank(p: Pos, n: Pos): nat {
    if n == Shift(p, OFFSETS[0]) then 0
    else if n == Shift(p, OFFSETS[1]) then 1
    else if n == Shift(p, OFFSETS[2]) then 2
    else if n == Shift(p, OFFSETS[3]) then 3
    else 4
  }

  function Indicator(b: bool): nat {
    if b then 1 else 0
  }

  /** Membership: a position is returned exactly when it is in bounds and
      adjacent to `p`. */
  lemma NeighboursMembership(p: Pos, size: Size, n: Pos)
    ensures n in Neighbours(p, size) <==> InBoundary(n, size) && Adjacent(p, n)
  {
    NeighboursUnfold(p, size);
    AdjacentIffOffset(p, n);
  }

  /** The offsets are exactly the unit steps: `n` is adjacent to `p` iff
      some offset leads from `p` to `n`. */
  lemma AdjacentIffOffset(p: Pos, n: Pos)
    ensures Adjacent(p, n) <==> OffsetRank(p, n) < 4
  {
    var dr, dc := n.row - p.row, n.col - p.col;
    if Adjacent(p, n) {
      assert (dr == 0 && (dc == 1 || dc == -1)) || (dc == 0 && (dr == 1 || dr == -1));
    }
  }

  /** Every neighbour is in bounds and sits at one of the four offsets. */
  lemma NeighboursAtOffsets(p: Pos, size: Size)
    ensures forall n :: n in Neighbours(p, size) ==>
              InBoundary(n, size) && OffsetRank(p, n) < 4 && n == Shift(p, OFFSETS[OffsetRank(p, n)])
  {
    NeighboursUnfold(p, size);
  }

  /** The neighbours come in OFFSETS order (so, in particular, without repetition). */
  lemma NeighboursOrdered(p: Pos, size: Size)
    ensures forall i, j :: 0 <= i < j < |Neighbours(p, size)| ==>
              OffsetRank(p, Neighbours(p, size)[i]) < OffsetRank(p, Neighbours(p, size)[j])
  {
    NeighboursUnfold(p, size);
    var r := Neighbours(p, size);
    forall i, j | 0 <= i < j < |r|
      ensures OffsetRank(p, r[i]) < OffsetRank(p, r[j])
    {
    }
  }

  /** The neighbour count: one per axis direction that does not leave the matrix. */
  lemma NeighbourCount(p: Pos, size: Size)
    requires InBoundary(p, size)
    ensures |Neighbours(p, size)|
         == Indicator(p.col > 0) + Indicator(p.col + 1 < size.cols) + Indicator(p.row > 0) + Indicator(p.row + 1 < size.rows)
  {
    NeighboursUnfold(p, size);
  }

  /** On a matrix of at least 2 x 2: a corner cell has 2 neighbours, an
      edge cell 3 and an interior cell 4. */
  lemma CornerEdgeInterior(p: Pos, size: Size)
    requires InBoundary(p, size) && size.rows >= 2 && size.cols >= 2
    ensures var onRowEdge := p.row == 0 || p.row == size.rows - 1;
            var onColEdge := p.col == 0 || p.col == size.cols - 1;
            |Neighbours(p, size)| == 4 - Indicator(onRowEdge) - Indicator(onColEdge)
  {
    NeighbourCount(p, size);
  }

  /** Adjacency within the matrix is symmetric. */
  lemma NeighboursSymmetric(p: Pos, q: Pos, size: Size)
    requires InBoundary(p, size) && InBoundary(q, size)
    ensures q in Neighbours(p, size) <==> p in Neighbours(q, size)
  {
    NeighboursMembership(p, size, q);
    NeighboursMembership(q, size, p);
  }

  /** test_maze.py's geometry scenarios on a 6 x 8 matrix. */
  lemma Scenarios()
    ensures InBoundary(Pos(4, 5), Size(6, 8))
    ensures !InBoundary(Pos(6, 8), Size(6, 8))
    ensures Neighbours(Pos(5, 7), Size(6, 8)) == [Pos(5, 6), Pos(4, 7)]
    ensures Neighbours(Pos(4, 5), Size(6, 8)) == [Pos(4, 4), Pos(4, 6), Pos(3, 5), Pos(5, 5)]
  {
    NeighboursUnfold(Pos(5, 7), Size(6, 8));
    NeighboursUnfold(Pos(4, 5), Size(6, 8));
  }
}
