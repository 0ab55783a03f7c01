/** The wall pool that Matrix.make_walls builds: every cell, in row-major
    order, offers a closed wall to each of its neighbours (maze.py,
    Matrix.make_walls and Cell.cell_walls). */
module WallBuild {
  import opened Geometry
  import opened Walls
  import opened Edges

  /** The pool after the cells (r, 0) .. (r, c-1) have offered their walls. */
  function RowPass(pool: seq<Wall>, size: Size, r: int, c: nat): seq<Wall>
    decreases c
  {
    if c == 0 then pool
    else AppendAll(RowPass(pool, size, r, c - 1), Pos(r, c - 1), Neighbours(Pos(r, c - 1), size))
  }

  /** The pool after rows 0 .. r-1 have offered their walls. */
  function GridPass(pool: seq<Wall>, size: Size, r: nat): seq<Wall>
    decreases r
  {
    if r == 0 then pool else RowPass(GridPass(pool, size, r - 1), size, r - 1, size.cols)
  }

  /** The pairs offered by the cells (r, 0) .. (r, c-1), cell by cell. */
  function RowEdges(size: Size, r: int, c: nat): set<set<Pos>>
    decreases c
  {
    if c == 0 then {}
    else RowEdges(size, r, c - 1) + Offered(Pos(r, c - 1), Neighbours(Pos(r, c - 1), size))
  }

  /** The pairs offered by the cells of rows 0 .. r-1, row by row. */
  function PrefixEdges(size: Size, r: nat): set<set<Pos>>
    decreases r
  {
    if r == 0 then {} else PrefixEdges(size, r - 1) + RowEdges(size, r - 1, size.cols)
  }

  /** Every pair a row offers is an adjacent pair of the matrix. */
  lemma {:induction false} RowEdgesSound(size: Size, r: int, c: nat, k: set<Pos>)
    requires 0 <= r < size.rows && c <= size.cols && k in RowEdges(size, r, c)
    ensures k in AllEdges(size)
    decreases c
  {
    var p := Pos(r, c - 1);
    if k !in RowEdges(size, r, c - 1) {
      OfferedMembership(p, Neighbours(p, size), k);
      var n :| n in Neighbours(p, size) && k == {p, n};
      NeighboursMembership(p, size, n);
      PairInAllEdges(size, p, n);
    } else {
      RowEdgesSound(size, r, c - 1, k);
    }
  }

  /** Each cell (r, j) with j < c offers its pair with each of its neighbours. */
  lemma {:induction false} RowEdgesComplete(size: Size, r: int, c: nat, j: int, n: Pos)
    requires 0 <= j < c && n in Neighbours(Pos(r, j), size)
    ensures {Pos(r, j), n} in RowEdges(size, r, c)
    decreases c
  {
    if j == c - 1 {
      OfferedMembership(Pos(r, j), Neighbours(Pos(r, j), size), {Pos(r, j), n});
    } else {
      RowEdgesComplete(size, r, c - 1, j, n);
    }
  }

  lemma {:induction false} PrefixEdgesSound(size: Size, r: nat, k: set<Pos>)
    requires r <= size.rows && k in PrefixEdges(size, r)
    ensures k in AllEdges(size)
    decreases r
  {
    if k in RowEdges(size, r - 1, size.cols) {
      RowEdgesSound(size, r - 1, size.cols, k);
    } else {
      PrefixEdgesSound(size, r - 1, k);
    }
  }

  lemma {:induction false} PrefixEdgesComplete(size: Size, r: nat, p: Pos, n: Pos)
    requires InBoundary(p, size) && p.row < r && n in Neighbours(p, size)
    ensures {p, n} in PrefixEdges(size, r)
    decreases r
  {
    if p.row == r - 1 {
      RowEdgesComplete(size, r - 1, size.cols, p.col, n);
    } else {
      PrefixEdgesComplete(size, r - 1, p, n);
    }
  }

  /** After all rows, the offered pairs are exactly the adjacent pairs of the matrix. */
  lemma PrefixEdgesAll(size: Size)
    ensures PrefixEdges(size, size.rows) == AllEdges(size)
  {
    forall k | k in PrefixEdges(size, size.rows) ensures k in AllEdges(size) {
      PrefixEdgesSound(size, size.rows, k);
    }
    forall k | k in AllEdges(size) ensures k in PrefixEdges(size, size.rows) {
      var p, n :| p in GridSet(size) && n in Neighbours(p, size) && k == {p, n};
      InGridIffInBoundary(p, size);
      PrefixEdgesComplete(size, size.rows, p, n);
    }
  }

  /** One row of Matrix.make_walls keeps the old walls and adds only closed ones. */
  lemma {:induction false} RowPassExtends(pool: seq<Wall>, size: Size, r: int, c: nat)
    ensures ExtendsClosed(pool, RowPass(pool, size, r, c))
    decreases c
  {
    if c > 0 {
      var mid := RowPass(pool, size, r, c - 1);
      RowPassExtends(pool, size, r, c - 1);
      AppendAllExtends(mid, Pos(r, c - 1), Neighbours(Pos(r, c - 1), size));
      ExtendsClosedTrans(pool, mid, RowPass(pool, size, r, c));
    }
  }

  /** One row of Matrix.make_walls makes `k` a key exactly when it was one or the row offers it. */
  lemma {:induction false} RowPassHas(pool: seq<Wall>, size: Size, r: int, c: nat, k: set<Pos>)
    ensures k in Keys(RowPass(pool, size, r, c)) <==> k in Keys(pool) || k in RowEdges(size, r, c)
    decreases c
  {
    if c > 0 {
      RowPassHas(pool, size, r, c - 1, k);
      AppendAllKeys(RowPass(pool, size, r, c - 1), Pos(r, c - 1), Neighbours(Pos(r, c - 1), size));
    }
  }

  /** One row of Matrix.make_walls introduces no duplicate. */
  lemma {:induction false} RowPassNoDuplicates(pool: seq<Wall>, size: Size, r: int, c: nat)
    requires NoDuplicates(pool)
    ensures NoDuplicates(RowPass(pool, size, r, c))
    decreases c
  {
    if c > 0 {
      RowPassNoDuplicates(pool, size, r, c - 1);
      AppendAllNoDuplicates(RowPass(pool, size, r, c - 1), Pos(r, c - 1), Neighbours(Pos(r, c - 1), size));
    }
  }

  /** Rows 0 .. r-1 of Matrix.make_walls keep the old walls and add only closed ones. */
  lemma {:induction false} GridPassExtends(pool: seq<Wall>, size: Size, r: nat)
    ensures ExtendsClosed(pool, GridPass(pool, size, r))
    decreases r
  {
    if r > 0 {
      var mid := GridPass(pool, size, r - 1);
      GridPassExtends(pool, size, r - 1);
      RowPassExtends(mid, size, r - 1, size.cols);
      ExtendsClosedTrans(pool, mid, GridPass(pool, size, r));
    }
  }

  /** Row r-1 of Matrix.make_walls: `k` is a key after it exactly when it
      was one before or that row offers it. */
  lemma GridStepHas(pool: seq<Wall>, size: Size, r: nat, k: set<Pos>)
    requires r > 0
    ensures k in Keys(GridPass(pool, size, r)) <==> k in Keys(GridPass(pool, size, r - 1)) || k in RowEdges(size, r - 1, size.cols)
  {
    var mid := GridPass(pool, size, r - 1);
    assert GridPass(pool, size, r) == RowPass(mid, size, r - 1, size.cols);
    RowPassHas(mid, size, r - 1, size.cols, k);
  }

  /** Rows 0 .. r-1 of Matrix.make_walls make `k` a key exactly when it was
      one or those rows offer it. */
  lemma {:induction false} GridPassHas(pool: seq<Wall>, size: Size, r: nat, k: set<Pos>)
    ensures k in Keys(GridPass(pool, size, r)) <==> k in Keys(pool) || k in PrefixEdges(size, r)
    decreases r
  {
    if r > 0 {
      GridPassHas(pool, size, r - 1, k);
      GridStepHas(pool, size, r, k);
    }
  }

  /** Rows 0 .. r-1 of Matrix.make_walls make their offered pairs keys and nothing else. */
  lemma GridPassKeys(pool: seq<Wall>, size: Size, r: nat)
    ensures Keys(GridPass(pool, size, r)) == Keys(pool) + PrefixEdges(size, r)
  {
    forall k ensures k in Keys(GridPass(pool, size, r)) <==> k in Keys(pool) || k in PrefixEdges(size, r) {
      GridPassHas(pool, size, r, k);
    }
  }

  /** Rows 0 .. r-1 of Matrix.make_walls introduce no duplicate. */
  lemma {:induction false} GridPassNoDuplicates(pool: seq<Wall>, size: Size, r: nat)
    requires NoDuplicates(pool)
    ensures NoDuplicates(GridPass(pool, size, r))
    decreases r
  {
    if r > 0 {
      GridPassNoDuplicates(pool, size, r - 1);
      RowPassNoDuplicates(GridPass(pool, size, r - 1), size, r - 1, size.cols);
    }
  }

  /** The pool Matrix.make_walls leaves, starting from `pool`. */
  function MakeWallsPool(pool: seq<Wall>, size: Size): seq<Wall> {
    GridPass(pool, size, size.rows)
  }

  /** Matrix.make_walls keeps the walls already in the pool as they are,
      adds only closed walls, leaves every adjacent pair of the matrix
      with a wall, adds no other pair, and introduces no duplicate. */
  lemma MakeWallsFacts(pool: seq<Wall>, size: Size)
    ensures var res := MakeWallsPool(pool, size);
            && ExtendsClosed(pool, res)
            && Keys(res) == Keys(pool) + AllEdges(size)
            && (NoDuplicates(pool) ==> NoDuplicates(res))
  {
    GridPassExtends(pool, size, size.rows);
    GridPassKeys(pool, size, size.rows);
    if NoDuplicates(pool) { GridPassNoDuplicates(pool, size, size.rows); }
    PrefixEdgesAll(size);
  }

  /** From an empty pool, Matrix.make_walls builds exactly one closed wall
      per adjacent pair: rows*(cols-1) + cols*(rows-1) walls in all. */
  lemma MakeWallsFromEmpty(size: Size)
    ensures var res := MakeWallsPool([], size);
            && NoDuplicates(res)
            && (forall i | 0 <= i < |res| :: res[i].closed)
            && Keys(res) == AllEdges(size)
            && |res| == size.rows * MinusOneOrZero(size.cols) + size.cols * MinusOneOrZero(size.rows)
  {
    var res := MakeWallsPool([], size);
    MakeWallsFacts([], size);
    assert Keys([]) == {};
    assert Keys(res) == AllEdges(size);
    NoDuplicatesCard(res);
    assert |res| == |AllEdges(size)|;
    EdgeCount(size);
  }

  /** In a pool without duplicates whose pairs are the adjacent pairs,
      each adjacent pair of valid positions has exactly one wall, and a
      pair that is not adjacent has none. */
  lemma ExactlyOneWallIn(res: seq<Wall>, size: Size, p: Pos, q: Pos)
    requires NoDuplicates(res) && Keys(res) == AllEdges(size)
    ensures (InBoundary(p, size) && InBoundary(q, size) && Adjacent(p, q)) <==>
              exists i | 0 <= i < |res| :: res[i].cells == {p, q}
    ensures forall i, j | 0 <= i < |res| && 0 <= j < |res| && res[i].cells == {p, q} && res[j].cells == {p, q} :: i == j
  {
    AllEdgesMembership(size, p, q);
    KeysMembership(res, {p, q});
  }

  /** In the pool that Matrix.make_walls builds from empty, each adjacent
      pair of valid positions has exactly one wall, and no other pair has one. */
  lemma ExactlyOneWall(size: Size, p: Pos, q: Pos)
    ensures var res := MakeWallsPool([], size);
            && ((InBoundary(p, size) && InBoundary(q, size) && Adjacent(p, q)) <==>
                  exists i | 0 <= i < |res| :: res[i].cells == {p, q})
            && (forall i, j | 0 <= i < |res| && 0 <= j < |res| && res[i].cells == {p, q} && res[j].cells == {p, q} :: i == j)
  {
    MakeWallsFromEmpty(size);
    ExactlyOneWallIn(MakeWallsPool([], size), size, p, q);
  }
}
