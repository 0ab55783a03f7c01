/** The positions and the adjacent pairs of a matrix, and how many of
    each there are. These are the reference sets that the cell map and
    the wall pool are compared with. */
module Edges {
  import opened Geometry

  /** The rows x cols valid positions, as the `matrix` comprehension enumerates them. */
  function GridSet(size: Size): set<Pos> {
    set r, c | 0 <= r < size.rows && 0 <= c < size.cols :: Pos(r, c)
  }

  /** The positions of one row, columns 0 .. cols-1. */
  function RowSet(r: int, cols: nat): set<Pos> {
    set c | 0 <= c < cols :: Pos(r, c)
  }

  /** n - 1, stopping at 0. */
  function MinusOneOrZero(n: nat): nat {
    if n == 0 then 0 else n - 1
  }

  /** The unordered pairs of adjacent valid positions: one per wall of a
      fully walled matrix. */
  function AllEdges(size: Size): set<set<Pos>> {
    set p, n | p in GridSet(size) && n in Neighbours(p, size) :: {p, n}
  }

  const RIGHT: Pos := Pos(0, 1)
  const DOWN: Pos := Pos(1, 0)

  /** The pair of `p` and the position at offset `d` from it. */
  function Edge(p: Pos, d: Pos): set<Pos> {
    {p, Shift(p, d)}
  }

  /** The image of a set of positions under Edge(., d). */
  function EdgeImage(s: set<Pos>, d: Pos): set<set<Pos>> {
    set p | p in s :: Edge(p, d)
  }

  /** The pairs between a cell and its right neighbour. */
  function HEdges(size: Size): set<set<Pos>> {
    EdgeImage(GridSet(Size(size.rows, MinusOneOrZero(size.cols))), RIGHT)
  }

  /** The pairs between a cell and the one below it. */
  function VEdges(size: Size): set<set<Pos>> {
    EdgeImage(GridSet(Size(MinusOneOrZero(size.rows), size.cols)), DOWN)
  }

  /** A position is one of the matrix's exactly when it is in bounds. */
  lemma InGridIffInBoundary(p: Pos, size: Size)
    ensures p in GridSet(size) <==> InBoundary(p, size)
  {
    if InBoundary(p, size) {
      assert Pos(p.row, p.col) == p;
    }
  }

  lemma {:induction false} RowCard(r: int, cols: nat)
    ensures |RowSet(r, cols)| == cols
    decreases cols
  {
    if cols > 0 {
      RowCard(r, cols - 1);
      assert RowSet(r, cols) == RowSet(r, cols - 1) + {Pos(r, cols - 1)};
    }
  }

  /** A matrix of `rows` rows is the one of `rows - 1` rows plus its last row, disjointly. */
  lemma GridSplit(size: Size)
    requires size.rows > 0
    ensures var smaller := Size(size.rows - 1, size.cols);
            GridSet(size) == GridSet(smaller) + RowSet(size.rows - 1, size.cols)
            && GridSet(smaller) * RowSet(size.rows - 1, size.cols) == {}
  {
    var smaller := Size(size.rows - 1, size.cols);
    forall p | p in GridSet(size)
      ensures p in GridSet(smaller) + RowSet(size.rows - 1, size.cols)
    {
      if p.row < size.rows - 1 { assert p == Pos(p.row, p.col); }
    }
  }

  /** One row fewer: a * b is (a - 1) * b plus b. */
  lemma MulPred(a: nat, b: nat)
    requires a > 0
    ensures a * b == (a - 1) * b + b
  {
  }

  /** A rows x cols matrix has rows * cols positions. */
  lemma {:induction false} GridCard(size: Size)
    ensures |GridSet(size)| == size.rows * size.cols
    decreases size.rows
  {
    if size.rows > 0 {
      var smaller := Size(size.rows - 1, size.cols);
      GridCard(smaller);
      RowCard(size.rows - 1, size.cols);
      GridSplit(size);
      MulPred(size.rows, size.cols);
    } else {
      assert GridSet(size) == {};
    }
  }

  /** Edge(., d) is injective for a non-zero offset. */
  lemma EdgeInjective(p: Pos, q: Pos, d: Pos)
    requires d != Pos(0, 0) && Edge(p, d) == Edge(q, d)
    ensures p == q
  {
    assert p in Edge(q, d);
    assert q in Edge(p, d);
  }

  lemma {:induction false} EdgeImageCard(s: set<Pos>, d: Pos)
    requires d != Pos(0, 0)
    ensures |EdgeImage(s, d)| == |s|
    decreases |s|
  {
    if s != {} {
      var x :| x in s;
      var rest := s - {x};
      EdgeImageCard(rest, d);
      assert EdgeImage(s, d) == EdgeImage(rest, d) + {Edge(x, d)};
      assert Edge(x, d) !in EdgeImage(rest, d) by {
        forall p | p in rest ensures Edge(p, d) != Edge(x, d) {
          if Edge(p, d) == Edge(x, d) { EdgeInjective(p, x, d); }
        }
      }
    }
  }

  lemma HVDisjoint(size: Size)
    ensures HEdges(size) * VEdges(size) == {}
  {
    forall k | k in HEdges(size) ensures k !in VEdges(size) {
      var p :| p in GridSet(Size(size.rows, MinusOneOrZero(size.cols))) && k == Edge(p, RIGHT);
      forall q | q in GridSet(Size(MinusOneOrZero(size.rows), size.cols)) ensures Edge(q, DOWN) != k {
        assert p in k && Shift(p, RIGHT) in k;
      }
    }
  }

  /** A pair of a valid position and one of its neighbours is a right pair or a down pair. */
  lemma NeighbourPairSplit(size: Size, p: Pos, n: Pos)
    requires InBoundary(p, size) && InBoundary(n, size) && OffsetRank(p, n) < 4
    requires n == Shift(p, OFFSETS[OffsetRank(p, n)])
    ensures {p, n} in HEdges(size) + VEdges(size)
  {
    var rank := OffsetRank(p, n);
    if rank == 0 {
      InGridIffInBoundary(n, Size(size.rows, MinusOneOrZero(size.cols)));
      assert {p, n} == Edge(n, RIGHT);
    } else if rank == 1 {
      InGridIffInBoundary(p, Size(size.rows, MinusOneOrZero(size.cols)));
      assert {p, n} == Edge(p, RIGHT);
    } else if rank == 2 {
      InGridIffInBoundary(n, Size(MinusOneOrZero(size.rows), size.cols));
      assert {p, n} == Edge(n, DOWN);
    } else {
      InGridIffInBoundary(p, Size(MinusOneOrZero(size.rows), size.cols));
      assert {p, n} == Edge(p, DOWN);
    }
  }

  lemma AllEdgesInHV(size: Size)
    ensures AllEdges(size) <= HEdges(size) + VEdges(size)
  {
    forall k | k in AllEdges(size) ensures k in HEdges(size) + VEdges(size) {
      var p, n :| p in GridSet(size) && n in Neighbours(p, size) && k == {p, n};
      InGridIffInBoundary(p, size);
      NeighboursAtOffsets(p, size);
      NeighbourPairSplit(size, p, n);
    }
  }

  /** The pair of a valid position and an in-bounds neighbour is in AllEdges. */
  lemma PairInAllEdges(size: Size, p: Pos, n: Pos)
    requires InBoundary(p, size) && InBoundary(n, size) && Adjacent(p, n)
    ensures {p, n} in AllEdges(size)
  {
    InGridIffInBoundary(p, size);
    NeighboursMembership(p, size, n);
  }

  lemma HVInAllEdges(size: Size)
    ensures HEdges(size) + VEdges(size) <= AllEdges(size)
  {
    forall p | p in GridSet(Size(size.rows, MinusOneOrZero(size.cols))) ensures Edge(p, RIGHT) in AllEdges(size) {
      InGridIffInBoundary(p, Size(size.rows, MinusOneOrZero(size.cols)));
      PairInAllEdges(size, p, Shift(p, RIGHT));
    }
    forall p | p in GridSet(Size(MinusOneOrZero(size.rows), size.cols)) ensures Edge(p, DOWN) in AllEdges(size) {
      InGridIffInBoundary(p, Size(MinusOneOrZero(size.rows), size.cols));
      PairInAllEdges(size, p, Shift(p, DOWN));
    }
  }

  /** Each adjacent pair of valid positions is a right pair or a down pair. */
  lemma AllEdgesSplit(size: Size)
    ensures AllEdges(size) == HEdges(size) + VEdges(size)
  {
    AllEdgesInHV(size);
    HVInAllEdges(size);
  }

  /** A rows x cols matrix has rows*(cols-1) + cols*(rows-1) adjacent pairs
      (with n - 1 read as 0 for n = 0). */
  lemma EdgeCount(size: Size)
    ensures |AllEdges(size)| == size.rows * MinusOneOrZero(size.cols) + size.cols * MinusOneOrZero(size.rows)
  {
    AllEdgesSplit(size);
    HVDisjoint(size);
    EdgeImageCard(GridSet(Size(size.rows, MinusOneOrZero(size.cols))), RIGHT);
    EdgeImageCard(GridSet(Size(MinusOneOrZero(size.rows), size.cols)), DOWN);
    GridCard(Size(size.rows, MinusOneOrZero(size.cols)));
    GridCard(Size(MinusOneOrZero(size.rows), size.cols));
  }

  /** The pairs in AllEdges are exactly the adjacent valid pairs. */
  lemma AllEdgesMembership(size: Size, p: Pos, q: Pos)
    ensures {p, q} in AllEdges(size) <==> InBoundary(p, size) && InBoundary(q, size) && Adjacent(p, q)
  {
    if {p, q} in AllEdges(size) {
      var a, n :| a in GridSet(size) && n in Neighbours(a, size) && {p, q} == {a, n};
      InGridIffInBoundary(a, size);
      NeighboursMembership(a, size, n);
      PairOrder(p, q, a, n);
    }
    if InBoundary(p, size) && InBoundary(q, size) && Adjacent(p, q) {
      PairInAllEdges(size, p, q);
    }
  }

  /** Two equal unordered pairs have the same members, in one order or the other. */
  lemma PairOrder(p: Pos, q: Pos, a: Pos, n: Pos)
    requires {p, q} == {a, n}
    ensures (p == a && q == n) || (p == n && q == a)
  {
    assert p in {a, n} && q in {a, n} && a in {p, q} && n in {p, q};
  }

  /** The grid is connected: a set of valid positions that holds `a` but
      not `b` has an adjacent pair of valid positions across its border. */
  lemma {:induction false} Crossing(size: Size, s: set<Pos>, a: Pos, b: Pos)
    requires InBoundary(a, size) && InBoundary(b, size) && a in s && b !in s
    ensures exists x, y :: InBoundary(x, size) && InBoundary(y, size) && Adjacent(x, y) && x in s && y !in s
    decreases Abs(a.row - b.row) + Abs(a.col - b.col)
  {
    var w := if a.row < b.row then Pos(a.row + 1, a.col)
             else if a.row > b.row then Pos(a.row - 1, a.col)
             else if a.col < b.col then Pos(a.row, a.col + 1)
             else Pos(a.row, a.col - 1);
    assert InBoundary(w, size) && Adjacent(a, w);
    if w !in s {
      assert InBoundary(a, size) && InBoundary(w, size) && Adjacent(a, w) && a in s && w !in s;
    } else {
      Crossing(size, s, w, b);
    }
  }
}
