/** The matrix of the maze generator (maze.py, classes Cell and Matrix):
    a lazily filled map from positions to cells, the wall pool it owns,
    and the recursive-backtracker traversal that opens walls. */
module Maze {
  import opened Wrappers
  import opened Geometry
  import opened Walls
  import opened Edges
  import opened WallBuild

  /** A cell: its position and its visited marker. The matrix size and the
      back-reference to the matrix are those of the Matrix that holds it. */
  datatype Cell = Cell(pos: Pos, visited: bool)

  /** The exceptions the source raises: a dictionary lookup of a missing
      position (KeyError) and a use of a wall get_wall did not find. */
  datatype MazeError = KeyNotFound | NoWall

  /** Matrix.matrix: `rows` lists of `cols` new, unvisited cells. */
  function MatrixRows(size: Size): (m: seq<seq<Cell>>)
    ensures |m| == size.rows
    ensures forall r | 0 <= r < |m| :: |m[r]| == size.cols
    ensures forall r, c | 0 <= r < |m| && 0 <= c < |m[r]| :: m[r][c] == Cell(Pos(r, c), false)
  {
    seq(size.rows, r => seq(size.cols, c => Cell(Pos(r, c), false)))
  }

  /** Every valid position has exactly one place in Matrix.matrix, and
      nothing else has one. */
  lemma MatrixRowsCoverGrid(size: Size, p: Pos)
    ensures var m := MatrixRows(size);
            p in GridSet(size) <==> (0 <= p.row < |m| && 0 <= p.col < |m[p.row]| && m[p.row][p.col].pos == p)
  {
    InGridIffInBoundary(p, size);
  }

  /** The cell map populate_cells leaves: every valid position mapped to a new, unvisited cell. */
  function FreshCells(size: Size): map<Pos, Cell> {
    map p | p in GridSet(size) :: Cell(p, false)
  }

  /** The freshly populated map has rows * cols entries, each at its own position. */
  lemma FreshCellsFacts(size: Size)
    ensures |FreshCells(size)| == size.rows * size.cols
    ensures FreshCells(size).Keys == GridSet(size)
    ensures forall p | p in FreshCells(size) :: FreshCells(size)[p] == Cell(p, false)
  {
    GridCard(size);
    assert FreshCells(size).Keys == GridSet(size);
  }

  /** A map within the grid that holds a new cell at every position before
      row `rows` is the freshly populated map. */
  lemma FilledIsFresh(size: Size, cells: map<Pos, Cell>)
    requires cells.Keys <= GridSet(size)
    requires forall p | Before(p, size.cols, size.rows, 0) :: p in cells && cells[p] == Cell(p, false)
    ensures cells == FreshCells(size) && cells.Keys == GridSet(size)
    ensures forall p | p in cells :: cells[p].pos == p
  {
    forall p | p in GridSet(size) ensures p in cells {
      InGridIffInBoundary(p, size);
    }
    assert cells.Keys == FreshCells(size).Keys;
  }

  /** Storing the fresh cell of (r, c) extends the filled prefix by one position. */
  lemma FillOne(size: Size, cells: map<Pos, Cell>, r: nat, c: nat)
    requires r < size.rows && c < size.cols
    requires cells.Keys <= GridSet(size)
    requires forall p | Before(p, size.cols, r, c) :: p in cells && cells[p] == Cell(p, false)
    ensures var next := cells[Pos(r, c) := Cell(Pos(r, c), false)];
            && next.Keys <= GridSet(size)
            && forall p | Before(p, size.cols, r, c + 1) :: p in next && next[p] == Cell(p, false)
  {
    InGridIffInBoundary(Pos(r, c), size);
  }

  /** A valid position has a neighbour exactly when the matrix has at least two cells. */
  lemma HasNeighbour(p: Pos, size: Size)
    requires InBoundary(p, size)
    ensures Neighbours(p, size) != [] <==> size.rows * size.cols >= 2
  {
    HasNeighbourAxis(p, size);
    AreaAtLeastTwo(size.rows, size.cols);
  }

  /** A valid position has a neighbour exactly when the matrix has two rows or two columns. */
  lemma HasNeighbourAxis(p: Pos, size: Size)
    requires InBoundary(p, size)
    ensures Neighbours(p, size) != [] <==> size.rows >= 2 || size.cols >= 2
  {
    if size.rows >= 2 || size.cols >= 2 {
      var q := if size.rows < 2 then (if p.col > 0 then Pos(p.row, p.col - 1) else Pos(p.row, p.col + 1))
               else if p.row > 0 then Pos(p.row - 1, p.col) else Pos(p.row + 1, p.col);
      NeighboursMembership(p, size, q);
      assert q in Neighbours(p, size);
    } else if Neighbours(p, size) != [] {
      var q := Neighbours(p, size)[0];
      NeighboursMembership(p, size, q);
    }
  }

  /** Two positive factors have a product of at least 2 exactly when one of them is at least 2. */
  lemma AreaAtLeastTwo(a: nat, b: nat)
    ensures a >= 1 && b >= 1 ==> (a * b >= 2 <==> a >= 2 || b >= 2)
  {
    if a >= 2 && b >= 1 {
      assert a * b >= 2 * b;
    } else if a >= 1 && b >= 2 {
      assert a * b >= a * 2;
    }
  }

  /** The cells of the map `cells` at the positions `ps`, in order. */
  function CellsAt(cells: map<Pos, Cell>, ps: seq<Pos>): seq<Cell>
    requires forall q | q in ps :: q in cells
  {
    seq(|ps|, i requires 0 <= i < |ps| => cells[ps[i]])
  }

  /** One more offset of the neighbour search appends its kept candidate. */
  lemma NeighboursFromStep(p: Pos, size: Size, k: nat)
    requires k < |OFFSETS|
    ensures NeighboursFrom(p, size, OFFSETS[..k + 1]) == NeighboursFrom(p, size, OFFSETS[..k]) + Keep(p, OFFSETS[k], size)
  {
    assert OFFSETS[..k + 1][..k] == OFFSETS[..k];
  }

  /** Looking up one more position appends its cell. */
  lemma CellsAtSnoc(cells: map<Pos, Cell>, ps: seq<Pos>, q: Pos)
    requires forall r | r in ps :: r in cells
    requires q in cells
    ensures CellsAt(cells, ps + [q]) == CellsAt(cells, ps) + [cells[q]]
  {
  }

  /** The list comprehension of run_matrix: the cells of `cs` not yet visited, in order. */
  function UnvisitedOf(cs: seq<Cell>): (r: seq<Cell>)
    ensures forall c | c in r :: c in cs && !c.visited
    ensures forall c | c in cs && !c.visited :: c in r
    decreases |cs|
  {
    if cs == [] then []
    else if cs[0].visited then UnvisitedOf(cs[1..])
    else [cs[0]] + UnvisitedOf(cs[1..])
  }

  /** (0 <= p.row < r, or p.row == r and p.col < c): the positions populate_cells has reached. */
  predicate Before(p: Pos, cols: nat, r: int, c: int) {
    (0 <= p.row < r && 0 <= p.col < cols) || (p.row == r && 0 <= p.col < c)
  }

  /** The map is empty or holds exactly the valid positions, each cell
      sits under its own position, and the pool has no duplicates. */
  ghost predicate WellFormed(size: Size, cells: map<Pos, Cell>, walls: seq<Wall>) {
    && (cells == map[] || cells.Keys == GridSet(size))
    && (forall p | p in cells :: cells[p].pos == p)
    && NoDuplicates(walls)
  }

  class Matrix {
    const size: Size
    var cells: map<Pos, Cell>
    var walls: seq<Wall>

    /** The matrix is well formed: see WellFormed. */
    ghost predicate Valid()
      reads this
    {
      WellFormed(size, cells, walls)
    }

    /** The map after a lookup that populates it when it is empty. */
    ghost function Populated(before: map<Pos, Cell>): map<Pos, Cell> {
      if before == map[] then FreshCells(size) else before
    }

    /** Matrix.__init__: no cells yet, and an empty pool. */
    constructor (size: Size)
      ensures this.size == size && cells == map[] && walls == []
      ensures Valid()
    {
      this.size := size;
      cells := map[];
      walls := [];
    }

    /** Matrix.populate_cells: every valid position is (re)mapped to a new, unvisited cell. */
    method PopulateCells()
      requires Valid()
      modifies this`cells
      ensures Valid()
      ensures cells == FreshCells(size)
    {
      var m: seq<seq<Cell>> := MatrixRows(size);
      for r := 0 to |m|
        invariant cells.Keys <= GridSet(size)
        invariant forall p | Before(p, size.cols, r, 0) :: p in cells && cells[p] == Cell(p, false)
      {
        for c := 0 to |m[r]|
          invariant cells.Keys <= GridSet(size)
          invariant forall p | Before(p, size.cols, r, c) :: p in cells && cells[p] == Cell(p, false)
        {
          var cell: Cell := m[r][c];
          FillOne(size, cells, r, c);
          cells := cells[cell.pos := cell];
        }
      }
      FilledIsFresh(size, cells);
    }

    /** Matrix.get_cell: populate the map when it is empty, then look the position up. */
    method GetCell(pos: Pos) returns (r: Result<Cell, MazeError>)
      requires Valid()
      modifies this`cells
      ensures Valid()
      ensures cells == Populated(old(cells))
      ensures r == if pos in cells then Success(cells[pos]) else Failure(KeyNotFound)
      ensures r.Success? <==> InBoundary(pos, size)
      ensures r.Success? ==> r.value.pos == pos
    {
      if |cells| == 0 {
        PopulateCells();
      }
      InGridIffInBoundary(pos, size);
      if pos in cells {
        r := Success(cells[pos]);
      } else {
        r := Failure(KeyNotFound);
      }
    }

    /** Cell.neighbours: for each offset in order, the candidate position,
        resolved through get_cell when it is in bounds. */
    method NeighbourCells(p: Pos) returns (ns: seq<Cell>)
      requires Valid()
      modifies this`cells
      ensures Valid()
      ensures cells == if Neighbours(p, size) != [] then Populated(old(cells)) else old(cells)
      ensures p in old(cells) ==> cells == old(cells)
      ensures forall q | q in Neighbours(p, size) :: q in cells
      ensures ns == CellsAt(cells, Neighbours(p, size))
    {
      ns := [];
      for k := 0 to |OFFSETS|
        invariant Valid()
        invariant cells == if |NeighboursFrom(p, size, OFFSETS[..k])| > 0 then Populated(old(cells)) else old(cells)
        invariant forall q | q in NeighboursFrom(p, size, OFFSETS[..k]) :: q in cells
        invariant ns == CellsAt(cells, NeighboursFrom(p, size, OFFSETS[..k]))
      {
        ns := ResolveNeighbour(p, k, ns, old(cells));
      }
      assert OFFSETS[..|OFFSETS|] == OFFSETS;
    }

    /** The body of Cell.neighbours' loop for the offset OFFSETS[k]: the
        candidate, when in bounds, is resolved through get_cell and its
        cell appended to `ns`. `base` is the map before the loop. */
    method ResolveNeighbour(p: Pos, k: nat, ns: seq<Cell>, ghost base: map<Pos, Cell>) returns (ns': seq<Cell>)
      requires Valid() && k < |OFFSETS|
      requires cells == if |NeighboursFrom(p, size, OFFSETS[..k])| > 0 then Populated(base) else base
      requires forall q | q in NeighboursFrom(p, size, OFFSETS[..k]) :: q in cells
      requires ns == CellsAt(cells, NeighboursFrom(p, size, OFFSETS[..k]))
      modifies this`cells
      ensures Valid()
      ensures cells == if |NeighboursFrom(p, size, OFFSETS[..k + 1])| > 0 then Populated(base) else base
      ensures forall q | q in NeighboursFrom(p, size, OFFSETS[..k + 1]) :: q in cells
      ensures ns' == CellsAt(cells, NeighboursFrom(p, size, OFFSETS[..k + 1]))
    {
      NeighboursFromStep(p, size, k);
      ghost var found := NeighboursFrom(p, size, OFFSETS[..k]);
      ghost var start := cells;
      var q := Shift(p, OFFSETS[k]);
      ns' := ns;
      if InBoundary(q, size) {
        assert Keep(p, OFFSETS[k], size) == [q];
        var c := GetCell(q);
        assert found != [] ==> cells == start;
        CellsAtSnoc(cells, found, q);
        ns' := ns + [c.value];
      } else {
        assert Keep(p, OFFSETS[k], size) == [];
      }
    }

    /** Matrix.unvisited_exist: some cell whose visited marker is false, or None when there is none. */
    method UnvisitedExist() returns (r: Option<Cell>)
      requires Valid()
      ensures r.Some? ==> r.value.pos in cells && cells[r.value.pos] == r.value && !r.value.visited
      ensures r.None? <==> forall p | p in cells :: cells[p].visited
    {
      var todo := cells.Keys;
      while todo != {}
        invariant todo <= cells.Keys
        invariant forall p | p in cells && p !in todo :: cells[p].visited
        decreases todo
      {
        var p :| p in todo;
        if !cells[p].visited {
          return Some(cells[p]);
        }
        todo := todo - {p};
      }
      return None;
    }

    /** Python's `wall in walls`: a scan for a wall equal to `w`. */
    method ContainsWall(w: Wall) returns (found: bool)
      ensures found == Contains(walls, w)
    {
      var i := 0;
      while i < |walls|
        invariant 0 <= i <= |walls|
        invariant forall j | 0 <= j < i :: !SameWall(walls[j], w)
      {
        if SameWall(walls[i], w) {
          return true;
        }
        i := i + 1;
      }
      return false;
    }

    /** Cell.append_wall: a new closed wall between `p` and `q` joins the
        pool unless an equal wall is already there. */
    method AppendWall(p: Pos, q: Pos)
      requires Valid()
      modifies this`walls
      ensures Valid()
      ensures walls == PoolAppend(old(walls), NewWall(p, q))
    {
      var wall := NewWall(p, q);
      var present := ContainsWall(wall);
      if !present {
        walls := walls + [wall];
      }
      PoolAppendFacts(old(walls), wall);
    }

    /** Cell.cell_walls: offer a wall to each neighbour, in order. */
    method CellWalls(p: Pos)
      requires Valid()
      modifies this
      ensures Valid()
      ensures cells == if Neighbours(p, size) != [] then Populated(old(cells)) else old(cells)
      ensures walls == AppendAll(old(walls), p, Neighbours(p, size))
    {
      var ns := NeighbourCells(p);
      var expected := Neighbours(p, size);
      ghost var before := walls;
      for i := 0 to |ns|
        invariant Valid()
        invariant cells == if expected != [] then Populated(old(cells)) else old(cells)
        invariant walls == AppendAll(before, p, expected[..i])
      {
        assert expected[..i + 1][..i] == expected[..i];
        assert ns[i].pos == expected[i];
        AppendWall(p, ns[i].pos);
      }
      assert expected[..|ns|] == expected;
    }

    /** Matrix.make_walls: every cell of Matrix.matrix, row by row, offers
        its walls. The lookups populate an empty map as soon as some cell
        has a neighbour, that is, when the matrix has two cells or more.
        The result is the constant True of the source. */
    method MakeWalls() returns (done: bool)
      requires Valid()
      modifies this
      ensures Valid()
      ensures cells == if size.rows * size.cols >= 2 then Populated(old(cells)) else old(cells)
      ensures walls == MakeWallsPool(old(walls), size)
      ensures done
    {
      var m: seq<seq<Cell>> := MatrixRows(size);
      for r := 0 to |m|
        invariant Valid()
        invariant cells == if r > 0 && size.rows * size.cols >= 2 then Populated(old(cells)) else old(cells)
        invariant walls == GridPass(old(walls), size, r)
      {
        RowWalls(m[r], r);
      }
      return true;
    }

    /** The inner loop of Matrix.make_walls: every cell of row `r`, in
        column order, offers its walls. */
    method RowWalls(row: seq<Cell>, r: nat)
      requires Valid() && r < size.rows && row == MatrixRows(size)[r]
      modifies this
      ensures Valid()
      ensures cells == if size.rows * size.cols >= 2 then Populated(old(cells)) else old(cells)
      ensures walls == RowPass(old(walls), size, r, size.cols)
    {
      ghost var big := size.rows * size.cols >= 2;
      for c := 0 to |row|
        invariant Valid()
        invariant cells == if c > 0 && big then Populated(old(cells)) else old(cells)
        invariant walls == RowPass(old(walls), size, r, c)
      {
        var cell: Cell := row[c];
        HasNeighbour(cell.pos, size);
        CellWalls(cell.pos);
      }
      assert big ==> |row| > 0;
    }

    /** Matrix.get_wall: look up the cell (0, 0) first (populating the map,
        or failing with KeyNotFound on an empty matrix), then return the
        index of the first wall whose pair is `duo`, or None. */
    method GetWall(duo: set<Pos>) returns (r: Result<Option<nat>, MazeError>)
      requires Valid()
      modifies this`cells
      ensures Valid() && walls == old(walls)
      ensures cells == Populated(old(cells))
      ensures Pos(0, 0) in old(cells) ==> cells == old(cells)
      ensures r == if Pos(0, 0) in cells then Success(FindWall(walls, duo)) else Failure(KeyNotFound)
    {
      var origin := GetCell(Pos(0, 0));
      if origin.Failure? {
        return Failure(KeyNotFound);
      }
      r := Success(FindWall(walls, duo));
    }

    /** The wall step of run_matrix: get_wall for the pair {a, b}, then
        `closed = False` on the wall found. Returns whether one was found;
        when none is, the pool is left as it was. */
    method OpenSharedWall(a: Pos, b: Pos) returns (found: bool)
      requires Valid() && Pos(0, 0) in cells
      modifies this`cells, this`walls
      ensures Valid() && cells == old(cells)
      ensures found <==> FindWall(old(walls), {a, b}).Some?
      ensures found ==> var k := FindWall(old(walls), {a, b}).value;
                        walls == old(walls)[k := old(walls)[k].(closed := false)]
      ensures !found ==> walls == old(walls)
    {
      var shared := GetWall({a, b});
      if shared.Failure? || shared.value.None? {
        return false;
      }
      var k := shared.value.value;
      walls := walls[k := walls[k].(closed := false)];
      return true;
    }

    /** The forward move of run_matrix's loop body, after the current cell
        is marked and deleted from `unvisited`: open the wall between the
        current cell and the chosen unvisited neighbour `x`. `found` is
        false when get_wall finds no such wall; the pool is then unchanged. */
    method Forward(ghost c0: map<Pos, Cell>, ghost w0: seq<Wall>,
                   stack: seq<Pos>, unvisited: set<Pos>, current: Pos, jumps: nat,
                   ghost seen: set<Pos>, ghost count: nat, ghost untouched: bool, x: Cell)
      returns (found: bool)
      requires Walking(c0, w0, size, cells, walls, stack, unvisited, current, seen, count, jumps, untouched)
      requires cells != map[] && current in cells && cells[current].visited && current !in unvisited
      requires forall q | q in Neighbours(current, size) :: q in cells
      requires x in UnvisitedOf(CellsAt(cells, Neighbours(current, size)))
      modifies this`cells, this`walls
      ensures cells == old(cells)
      ensures x.pos in Neighbours(current, size) && x.pos in cells && !cells[x.pos].visited
      ensures found <==> FindWall(old(walls), {current, x.pos}).Some?
      ensures !found ==> walls == old(walls) && !(AllEdges(size) <= Keys(w0))
      ensures found ==> var k := FindWall(old(walls), {current, x.pos}).value;
                        && walls == old(walls)[k := old(walls)[k].(closed := false)]
                        && Walking(c0, w0, size, cells, walls, stack + [current], unvisited, x.pos,
                                   seen + {x.pos}, count + 1, jumps, untouched)
                        && |unvisited - {x.pos}| < |unvisited|
    {
      ChosenNeighbour(cells, size, current, x);
      WallFound(c0, w0, size, cells, walls, stack, unvisited, current, seen, count, jumps, untouched, x);
      ghost var pool := walls;
      found := OpenSharedWall(current, x.pos);
      if found {
        WalkMove(c0, w0, size, cells, pool, stack, unvisited, current, seen, count, jumps, untouched,
                 x, FindWall(pool, {current, x.pos}).value);
      }
    }

    /** One pass of run_matrix's loop body from the state (stack, unvisited,
        current): mark the current cell visited, delete it from `unvisited`,
        and move forward to an unvisited neighbour (opening the wall crossed),
        back to the top of the stack, or in a jump to a cell still in
        `unvisited`. The ghost arguments carry the loop invariant (Walking).
        `moved` is false only when no wall lies between the current cell and
        the neighbour chosen; the state returned is then the one before the move. */
    method Step(ghost c0: map<Pos, Cell>, ghost w0: seq<Wall>,
                stack: seq<Pos>, unvisited: set<Pos>, current: Pos, jumps: nat,
                ghost seen: set<Pos>, ghost count: nat, ghost untouched: bool)
      returns (moved: bool, stack': seq<Pos>, unvisited': set<Pos>, current': Pos, jumps': nat,
               ghost seen': set<Pos>, ghost count': nat)
      requires cells != map[]
      requires Walking(c0, w0, size, cells, walls, stack, unvisited, current, seen, count, jumps, untouched)
      modifies this`cells, this`walls
      ensures Walking(c0, w0, size, cells, walls, stack', unvisited', current', seen', count', jumps', untouched)
      ensures !moved ==> !(AllEdges(size) <= Keys(w0))
      ensures moved ==> Closer(unvisited', current', stack', unvisited, current, stack)
                        || (unvisited' - {current'} == unvisited - {current} && stack' == stack
                            && forall p | p in cells :: cells[p].visited)
      ensures current in old(cells) && cells == old(cells)[current := old(cells)[current].(visited := true)]
      ensures unvisited' == unvisited - {current}
      ensures !moved ==> stack' == stack && current' == current && jumps' == jumps
      ensures moved && |stack'| > |stack| ==>
                && stack' == stack + [current] && jumps' == jumps
                && current' in Neighbours(current, size) && current' in old(cells) && !old(cells)[current'].visited
                && FindWall(old(walls), {current, current'}).Some?
                && var k := FindWall(old(walls), {current, current'}).value;
                   walls == old(walls)[k := old(walls)[k].(closed := false)]
      ensures !(moved && |stack'| > |stack|) ==> walls == old(walls)
      ensures moved && |stack'| <= |stack| ==>
                forall q | q in Neighbours(current, size) :: q in cells && cells[q].visited
      ensures moved && |stack'| < |stack| ==>
                stack' == stack[..|stack| - 1] && current' == stack[|stack| - 1] && jumps' == jumps
      ensures moved && |stack'| == |stack| ==> stack == [] && stack' == []
      ensures moved && |stack'| == |stack| && current' != current ==>
                current' in unvisited' && current' in old(cells) && !old(cells)[current'].visited && jumps' == jumps + 1
      ensures moved && |stack'| == |stack| && current' == current ==>
                jumps' == jumps && forall p | p in cells :: cells[p].visited
    {
      WalkMark(c0, w0, size, cells, walls, stack, unvisited, current, seen, count, jumps, untouched);
      cells := cells[current := cells[current].(visited := true)];
      var rest := unvisited - {current};
      var neighbours := NeighbourCells(current);
      var unvisitedNeighs := UnvisitedOf(neighbours);
      if |unvisitedNeighs| > 0 {
        var i :| 0 <= i < |unvisitedNeighs|;
        var next := unvisitedNeighs[i].pos;
        moved := Forward(c0, w0, stack, rest, current, jumps, seen, count, untouched, unvisitedNeighs[i]);
        if !moved {
          return false, stack, rest, current, jumps, seen, count;
        }
        return true, stack + [current], rest, next, jumps, seen + {next}, count + 1;
      }
      NoneUnvisited(cells, size, current);
      if |stack| > 0 {
        WalkBack(c0, w0, size, cells, walls, stack, rest, current, seen, count, jumps, untouched);
        var top := stack[|stack| - 1];
        return true, stack[..|stack| - 1], rest, top, jumps, seen + {top}, count;
      } else if exists p :: p in rest && p in cells && !cells[p].visited {
        var target :| target in rest && target in cells && !cells[target].visited;
        WalkJump(c0, w0, size, cells, walls, stack, rest, current, seen, count, jumps, untouched, target);
        return true, stack, rest, target, jumps + 1, seen + {target}, count;
      } else {
        NothingToJump(cells, rest, current);
        return true, stack, rest, current, jumps, seen, count;
      }
    }

    /** Matrix.run_matrix: the recursive backtracker, iterative with an
        explicit stack. While some cell is unvisited, mark the current cell
        visited; if it has unvisited neighbours, push it, move to one of
        them (an arbitrary choice, for random.choice) and open the wall
        crossed; otherwise pop the stack; and when the stack is empty, jump
        without opening a wall to an arbitrary cell still in `unvisited`.
        The result counts those jumps. */
    method RunMatrix(start: Pos) returns (r: Result<nat, MazeError>)
      requires Valid() && InBoundary(start, size)
      modifies this`cells, this`walls
      ensures Valid()
      ensures cells.Keys == old(cells).Keys
      ensures forall p | p in cells :: old(cells)[p].visited ==> cells[p].visited
      ensures |walls| == |old(walls)|
      ensures forall i | 0 <= i < |walls| :: walls[i].cells == old(walls)[i].cells
      ensures forall i | 0 <= i < |walls| :: !old(walls)[i].closed ==> !walls[i].closed
      ensures forall i | i in Opened(old(walls), walls) :: walls[i].cells in AllEdges(size)
      ensures cells != map[] ==> |Opened(old(walls), walls)| <= |cells| - 1
      ensures r.Success? ==> forall p | p in cells :: cells[p].visited
      ensures AllEdges(size) <= Keys(old(walls)) ==> r.Success?
      ensures r.Success? && (forall p | p in old(cells) :: !old(cells)[p].visited) ==> r.value == 0
      ensures old(cells) == map[] ==> cells == old(cells) && walls == old(walls) && r == Success(0)
    {
      var stack: seq<Pos> := [];
      var unvisited := cells.Keys;
      var current := start;
      var jumps := 0;
      ghost var openCount := 0;
      ghost var seen := {start};
      ghost var freshStart := VisitedOf(cells) == {};
      WalkStart(cells, walls, size, start);
      var next := UnvisitedExist();
      while next.Some?
        invariant Walking(old(cells), old(walls), size, cells, walls, stack, unvisited, current, seen, openCount, jumps, freshStart)
        invariant next.Some? ==> cells != map[]
        invariant next.None? ==> forall p | p in cells :: cells[p].visited
        invariant old(cells) == map[] ==> next.None? && cells == old(cells) && walls == old(walls) && jumps == 0
        decreases |unvisited - {current}|, |stack|, if next.Some? then 1 else 0
      {
        var moved;
        moved, stack, unvisited, current, jumps, seen, openCount :=
          Step(old(cells), old(walls), stack, unvisited, current, jumps, seen, openCount, freshStart);
        if !moved {
          WalkDone(old(cells), old(walls), size, cells, walls, stack, unvisited, current, seen, openCount, jumps, freshStart);
          return Failure(NoWall);
        }
        next := UnvisitedExist();
      }
      WalkDone(old(cells), old(walls), size, cells, walls, stack, unvisited, current, seen, openCount, jumps, freshStart);
      return Success(jumps);
    }
  }

  /** The measure of run_matrix's loop, the cells left to enter and then
      the depth of the stack, is smaller in the first state than in the second. */
  predicate Closer(unvisited': set<Pos>, current': Pos, stack': seq<Pos>,
                   unvisited: set<Pos>, current: Pos, stack: seq<Pos>) {
    || |unvisited' - {current'}| < |unvisited - {current}|
    || (|unvisited' - {current'}| == |unvisited - {current}| && |stack'| < |stack|)
  }

  /** Every neighbour of `p` is a visited cell of `cells`: the traversal has nothing left to do at `p`. */
  ghost predicate FinishedIn(cells: map<Pos, Cell>, size: Size, p: Pos) {
    forall n | n in Neighbours(p, size) :: n in cells && cells[n].visited
  }

  /** The depth-first invariant of run_matrix: a visited cell that is
      neither the current one nor on the stack has no unvisited neighbour. */
  ghost predicate DepthFirst(cells: map<Pos, Cell>, size: Size, stack: seq<Pos>, current: Pos) {
    forall p {:trigger FinishedIn(cells, size, p)} | p in cells && cells[p].visited && p != current && p !in stack ::
      FinishedIn(cells, size, p)
  }

  /** What run_matrix keeps of the pool: the same walls between the same
      cells, none closed again, every opened wall between adjacent valid
      cells, and at most `count` of them opened. */
  ghost predicate WallsKept(before: seq<Wall>, after: seq<Wall>, size: Size, count: nat) {
    && |after| == |before|
    && (forall i | 0 <= i < |after| :: after[i].cells == before[i].cells)
    && (forall i | 0 <= i < |after| :: !before[i].closed ==> !after[i].closed)
    && (forall i | i in Opened(before, after) :: after[i].cells in AllEdges(size))
    && |Opened(before, after)| <= count
  }

  /** Opening one wall adds at most that wall to the opened ones. */
  lemma OpenedGrows(before: seq<Wall>, after: seq<Wall>, k: nat)
    requires k < |after|
    ensures Opened(before, after[k := after[k].(closed := false)]) <= Opened(before, after) + {k}
    ensures |Opened(before, after[k := after[k].(closed := false)])| <= |Opened(before, after)| + 1
  {
    var next := after[k := after[k].(closed := false)];
    forall i | i in Opened(before, next) ensures i in Opened(before, after) + {k} {
      if i != k {
        assert next[i] == after[i];
      }
    }
    SubsetCard(Opened(before, next), Opened(before, after) + {k});
  }

  /** Opening the wall at `k` (shared_wall.closed = False) keeps the pool's
      invariant with one more opening, and keeps it free of duplicates. */
  lemma OpenWall(before: seq<Wall>, after: seq<Wall>, size: Size, count: nat, k: nat)
    requires WallsKept(before, after, size, count)
    requires k < |after| && after[k].cells in AllEdges(size)
    ensures WallsKept(before, after[k := after[k].(closed := false)], size, count + 1)
    ensures NoDuplicates(after) ==> NoDuplicates(after[k := after[k].(closed := false)])
  {
    OpenedGrows(before, after, k);
    OpenedDistinct(after, k);
    var next := after[k := after[k].(closed := false)];
    forall i | 0 <= i < |next| ensures next[i].cells == before[i].cells && (!before[i].closed ==> !next[i].closed) {
      if i != k {
        assert next[i] == after[i];
      }
    }
    forall i | i in Opened(before, next) ensures next[i].cells in AllEdges(size) {
      if i != k {
        assert i in Opened(before, after);
      }
    }
  }

  /** Opening a wall changes no wall's pair of cells, so the pool stays free of duplicates. */
  lemma OpenedDistinct(pool: seq<Wall>, k: nat)
    requires k < |pool|
    ensures NoDuplicates(pool) ==> NoDuplicates(pool[k := pool[k].(closed := false)])
  {
    var next := pool[k := pool[k].(closed := false)];
    assert forall i | 0 <= i < |next| :: next[i].cells == pool[i].cells;
  }

  /** Marking the current cell visited keeps the depth-first invariant. */
  lemma MarkVisited(cells: map<Pos, Cell>, size: Size, stack: seq<Pos>, current: Pos)
    requires current in cells && DepthFirst(cells, size, stack, current)
    ensures DepthFirst(cells[current := cells[current].(visited := true)], size, stack, current)
  {
    var marked := cells[current := cells[current].(visited := true)];
    forall p | p in marked && marked[p].visited && p != current && p !in stack
      ensures FinishedIn(marked, size, p)
    {
      assert FinishedIn(cells, size, p);
    }
  }

  /** Moving to a neighbour after pushing the current cell keeps the depth-first invariant. */
  lemma Advance(cells: map<Pos, Cell>, size: Size, stack: seq<Pos>, current: Pos, next: Pos)
    requires DepthFirst(cells, size, stack, current)
    ensures DepthFirst(cells, size, stack + [current], next)
  {
    forall p | p in cells && cells[p].visited && p != next && p !in stack + [current]
      ensures FinishedIn(cells, size, p)
    {
      assert p !in stack && p != current;
    }
  }

  /** A cell picked from the unvisited neighbours is an in-bounds,
      unvisited neighbour of `p`. */
  lemma ChosenNeighbour(cells: map<Pos, Cell>, size: Size, p: Pos, x: Cell)
    requires forall q | q in cells :: cells[q].pos == q
    requires forall q | q in Neighbours(p, size) :: q in cells
    requires x in UnvisitedOf(CellsAt(cells, Neighbours(p, size)))
    ensures x.pos in Neighbours(p, size) && x.pos in cells && !cells[x.pos].visited
  {
    var ns := Neighbours(p, size);
    var j :| 0 <= j < |ns| && CellsAt(cells, ns)[j] == x;
    assert x == cells[ns[j]];
  }

  /** No unvisited neighbour cell means `p` is finished. */
  lemma NoneUnvisited(cells: map<Pos, Cell>, size: Size, p: Pos)
    requires forall q | q in Neighbours(p, size) :: q in cells
    requires UnvisitedOf(CellsAt(cells, Neighbours(p, size))) == []
    ensures FinishedIn(cells, size, p)
  {
    var ns := Neighbours(p, size);
    forall n | n in ns ensures cells[n].visited {
      var j :| 0 <= j < |ns| && ns[j] == n;
      assert CellsAt(cells, ns)[j] == cells[n];
    }
  }

  /** Popping the stack after a finished cell keeps the depth-first invariant. */
  lemma Backtrack(cells: map<Pos, Cell>, size: Size, stack: seq<Pos>, current: Pos)
    requires |stack| > 0 && DepthFirst(cells, size, stack, current) && FinishedIn(cells, size, current)
    ensures DepthFirst(cells, size, stack[..|stack| - 1], stack[|stack| - 1])
  {
    var top := stack[|stack| - 1];
    var rest := stack[..|stack| - 1];
    forall p | p in cells && cells[p].visited && p != top && p !in rest
      ensures FinishedIn(cells, size, p)
    {
      assert stack == rest + [top];
      assert p !in stack || p == current;
    }
  }

  /** Under the depth-first invariant with an empty stack and a finished
      current cell, every in-bounds neighbour of a visited cell is visited. */
  lemma VisitedClosed(cells: map<Pos, Cell>, size: Size, current: Pos, x: Pos, y: Pos)
    requires cells.Keys == GridSet(size)
    requires DepthFirst(cells, size, [], current) && FinishedIn(cells, size, current)
    requires x in cells && cells[x].visited
    requires InBoundary(y, size) && Adjacent(x, y)
    ensures y in cells && cells[y].visited
  {
    NeighboursMembership(x, size, y);
    if x != current {
      assert FinishedIn(cells, size, x);
    }
  }

  /** With an empty stack and a finished current cell, the depth-first
      invariant leaves no unvisited cell anywhere in the grid: otherwise
      some visited cell would have an unvisited neighbour. */
  lemma NothingLeft(cells: map<Pos, Cell>, size: Size, current: Pos)
    requires cells.Keys == GridSet(size)
    requires current in cells && cells[current].visited
    requires DepthFirst(cells, size, [], current) && FinishedIn(cells, size, current)
    ensures forall p | p in cells :: cells[p].visited
  {
    if q :| q in cells && !cells[q].visited {
      var s := set p | p in cells && cells[p].visited;
      InGridIffInBoundary(current, size);
      InGridIffInBoundary(q, size);
      Crossing(size, s, current, q);
      var x, y :| InBoundary(x, size) && InBoundary(y, size) && Adjacent(x, y) && x in s && y !in s;
      VisitedClosed(cells, size, current, x, y);
      assert false;
    }
  }

  /** A non-empty grid has the cell (0, 0). */
  lemma OriginInGrid(size: Size, p: Pos)
    requires p in GridSet(size)
    ensures Pos(0, 0) in GridSet(size)
  {
    InGridIffInBoundary(p, size);
    InGridIffInBoundary(Pos(0, 0), size);
  }

  /** The positions of the visited cells. */
  ghost function VisitedOf(cells: map<Pos, Cell>): set<Pos> {
    set p | p in cells && cells[p].visited
  }

  /** The positions of the cells not yet visited. */
  ghost function UnvisitedIn(cells: map<Pos, Cell>): set<Pos> {
    set p | p in cells && !cells[p].visited
  }

  /** The cells run_matrix keeps: the same positions, and every cell
      visited before is still visited. */
  ghost predicate CellsKept(before: map<Pos, Cell>, after: map<Pos, Cell>) {
    && after.Keys == before.Keys
    && VisitedOf(before) <= VisitedOf(after)
  }

  /** The cells still to visit: the current cell and the stack are cells
      of the grid, the stacked ones visited and out of `unvisited`, and
      every unvisited cell is still in `unvisited`. */
  ghost predicate Frontier(cells: map<Pos, Cell>, stack: seq<Pos>, unvisited: set<Pos>, current: Pos) {
    && (cells != map[] ==> current in cells)
    && (forall q | q in stack :: q in cells && cells[q].visited && q !in unvisited)
    && UnvisitedIn(cells) <= unvisited
  }

  /** The cells entered so far, `seen`, are visited or current, and there
      are more of them than walls opened (`count`). */
  ghost predicate Entered(cells: map<Pos, Cell>, current: Pos, seen: set<Pos>, count: nat) {
    cells != map[] ==>
      && current in seen && count + 1 <= |seen|
      && seen <= VisitedOf(cells) + {current}
  }

  /** `untouched` says no cell of `c0` was visited; the traversal from such
      a start never jumped and keeps the depth-first invariant. */
  ghost predicate Untouched(c0: map<Pos, Cell>, cells: map<Pos, Cell>, size: Size, stack: seq<Pos>, current: Pos,
                            jumps: int, untouched: bool)
  {
    && (untouched <==> VisitedOf(c0) == {})
    && (untouched ==> jumps == 0 && DepthFirst(cells, size, stack, current))
  }

  /** The invariant of run_matrix's loop, over the cells and pool it
      started from (`c0`, `w0`), the current cells and pool, its stack,
      its `unvisited` dictionary (as a set of positions) and its current
      cell; `seen` holds the cells entered so far, `count` the walls
      opened, `jumps` the fallback jumps. */
  ghost predicate Walking(c0: map<Pos, Cell>, w0: seq<Wall>, size: Size, cells: map<Pos, Cell>, walls: seq<Wall>,
                          stack: seq<Pos>, unvisited: set<Pos>, current: Pos,
                          seen: set<Pos>, count: nat, jumps: int, untouched: bool)
  {
    && WellFormed(size, cells, walls)
    && CellsKept(c0, cells)
    && Frontier(cells, stack, unvisited, current)
    && WallsKept(w0, walls, size, count)
    && Entered(cells, current, seen, count)
    && Untouched(c0, cells, size, stack, current, jumps, untouched)
  }

  /** The loop invariant holds on entry. */
  lemma WalkStart(c0: map<Pos, Cell>, w0: seq<Wall>, size: Size, start: Pos)
    requires WellFormed(size, c0, w0) && InBoundary(start, size)
    ensures Walking(c0, w0, size, c0, w0, [], c0.Keys, start, {start}, 0, 0, VisitedOf(c0) == {})
  {
    InGridIffInBoundary(start, size);
    assert Opened(w0, w0) == {};
    assert CellsKept(c0, c0);
    assert Frontier(c0, [], c0.Keys, start);
    assert WallsKept(w0, w0, size, 0);
    assert Entered(c0, start, {start}, 0);
    if VisitedOf(c0) == {} {
      forall p | p in c0 ensures !c0[p].visited {
        assert p !in VisitedOf(c0);
      }
      assert DepthFirst(c0, size, [], start);
    }
  }

  /** Marking the current cell visited and deleting it from `unvisited`
      keeps the loop invariant. */
  lemma WalkMark(c0: map<Pos, Cell>, w0: seq<Wall>, size: Size, cells: map<Pos, Cell>, walls: seq<Wall>,
                 stack: seq<Pos>, unvisited: set<Pos>, current: Pos,
                 seen: set<Pos>, count: nat, jumps: int, untouched: bool)
    requires Walking(c0, w0, size, cells, walls, stack, unvisited, current, seen, count, jumps, untouched)
    requires cells != map[]
    ensures current in cells
    ensures Walking(c0, w0, size, cells[current := cells[current].(visited := true)], walls,
                    stack, unvisited - {current}, current, seen, count, jumps, untouched)
  {
    MarkCells(c0, size, walls, cells, current);
    MarkFrontier(cells, stack, unvisited, current);
    MarkEntered(cells, current, seen, count);
    MarkUntouched(c0, cells, size, stack, current, jumps, untouched);
  }

  /** Marking a cell visited keeps the map well formed and every earlier visit,
      and adds exactly that cell to the visited ones. */
  lemma MarkCells(c0: map<Pos, Cell>, size: Size, walls: seq<Wall>, cells: map<Pos, Cell>, current: Pos)
    requires WellFormed(size, cells, walls) && CellsKept(c0, cells) && current in cells
    ensures var marked := cells[current := cells[current].(visited := true)];
            WellFormed(size, marked, walls) && CellsKept(c0, marked)
            && VisitedOf(marked) == VisitedOf(cells) + {current}
  {
    var marked := cells[current := cells[current].(visited := true)];
    assert marked.Keys == cells.Keys;
    assert VisitedOf(marked) == VisitedOf(cells) + {current};
  }

  /** Marking the current cell visited and deleting it from `unvisited` keeps the frontier. */
  lemma MarkFrontier(cells: map<Pos, Cell>, stack: seq<Pos>, unvisited: set<Pos>, current: Pos)
    requires Frontier(cells, stack, unvisited, current) && current in cells
    ensures Frontier(cells[current := cells[current].(visited := true)], stack, unvisited - {current}, current)
  {
    var marked := cells[current := cells[current].(visited := true)];
    assert UnvisitedIn(marked) == UnvisitedIn(cells) - {current};
  }

  /** Marking the current cell visited keeps `seen` within the visited cells and the current one. */
  lemma MarkEntered(cells: map<Pos, Cell>, current: Pos, seen: set<Pos>, count: nat)
    requires Entered(cells, current, seen, count) && current in cells
    ensures Entered(cells[current := cells[current].(visited := true)], current, seen, count)
  {
    var marked := cells[current := cells[current].(visited := true)];
    assert VisitedOf(cells) <= VisitedOf(marked);
  }

  /** Marking the current cell visited keeps the depth-first invariant of an untouched start. */
  lemma MarkUntouched(c0: map<Pos, Cell>, cells: map<Pos, Cell>, size: Size, stack: seq<Pos>, current: Pos,
                      jumps: int, untouched: bool)
    requires Untouched(c0, cells, size, stack, current, jumps, untouched) && current in cells
    ensures Untouched(c0, cells[current := cells[current].(visited := true)], size, stack, current, jumps, untouched)
  {
    if untouched {
      MarkVisited(cells, size, stack, current);
    }
  }

  /** At a cell with an unvisited neighbour `x`: the wall between them is
      one of the grid's, the lookup of (0, 0) succeeds, and the wall is
      found whenever the pool started with every wall of the grid. */
  lemma WallFound(c0: map<Pos, Cell>, w0: seq<Wall>, size: Size, cells: map<Pos, Cell>, walls: seq<Wall>,
                  stack: seq<Pos>, unvisited: set<Pos>, current: Pos,
                  seen: set<Pos>, count: nat, jumps: int, untouched: bool, x: Cell)
    requires Walking(c0, w0, size, cells, walls, stack, unvisited, current, seen, count, jumps, untouched)
    requires cells != map[]
    requires forall q | q in Neighbours(current, size) :: q in cells
    requires x in UnvisitedOf(CellsAt(cells, Neighbours(current, size)))
    ensures Pos(0, 0) in cells
    ensures {current, x.pos} in AllEdges(size)
    ensures AllEdges(size) <= Keys(w0) ==> FindWall(walls, {current, x.pos}).Some?
  {
    ChosenNeighbour(cells, size, current, x);
    NeighboursMembership(current, size, x.pos);
    InGridIffInBoundary(current, size);
    PairInAllEdges(size, current, x.pos);
    KeysSameCells(w0, walls);
    FindWallIffKey(walls, {current, x.pos});
    OriginInGrid(size, current);
  }

  /** Pushing the current cell, moving to the unvisited neighbour `x` and
      opening the wall `k` between them keeps the loop invariant, and
      `unvisited` loses the new current cell. */
  lemma WalkMove(c0: map<Pos, Cell>, w0: seq<Wall>, size: Size, cells: map<Pos, Cell>, walls: seq<Wall>,
                 stack: seq<Pos>, unvisited: set<Pos>, current: Pos,
                 seen: set<Pos>, count: nat, jumps: int, untouched: bool, x: Cell, k: nat)
    requires Walking(c0, w0, size, cells, walls, stack, unvisited, current, seen, count, jumps, untouched)
    requires cells != map[] && current in cells && cells[current].visited && current !in unvisited
    requires forall q | q in Neighbours(current, size) :: q in cells
    requires x in UnvisitedOf(CellsAt(cells, Neighbours(current, size)))
    requires FindWall(walls, {current, x.pos}) == Some(k)
    ensures Walking(c0, w0, size, cells, walls[k := walls[k].(closed := false)],
                    stack + [current], unvisited, x.pos, seen + {x.pos}, count + 1, jumps, untouched)
    ensures |unvisited - {x.pos}| < |unvisited|
  {
    ChosenNeighbour(cells, size, current, x);
    NeighboursMembership(current, size, x.pos);
    InGridIffInBoundary(current, size);
    PairInAllEdges(size, current, x.pos);
    OpenWall(w0, walls, size, count, k);
    MoveFrontier(cells, stack, unvisited, current, x.pos);
    MoveEntered(cells, current, seen, count, x.pos);
    MoveUntouched(c0, cells, size, stack, current, jumps, untouched, x.pos);
  }

  /** Pushing the current cell and moving to a cell of the grid keeps the frontier;
      an unvisited cell is still in `unvisited`. */
  lemma MoveFrontier(cells: map<Pos, Cell>, stack: seq<Pos>, unvisited: set<Pos>, current: Pos, next: Pos)
    requires Frontier(cells, stack, unvisited, current)
    requires current in cells && cells[current].visited && current !in unvisited
    requires next in cells && !cells[next].visited
    ensures Frontier(cells, stack + [current], unvisited, next)
    ensures |unvisited - {next}| < |unvisited|
  {
    assert next in UnvisitedIn(cells);
  }

  /** Entering an unvisited cell from a visited one adds a cell to `seen`. */
  lemma MoveEntered(cells: map<Pos, Cell>, current: Pos, seen: set<Pos>, count: nat, next: Pos)
    requires Entered(cells, current, seen, count)
    requires current in cells && cells[current].visited
    requires next in cells && !cells[next].visited
    ensures Entered(cells, next, seen + {next}, count + 1)
  {
    assert next !in VisitedOf(cells) + {current};
  }

  /** Pushing the current cell and moving on keeps the depth-first invariant of an untouched start. */
  lemma MoveUntouched(c0: map<Pos, Cell>, cells: map<Pos, Cell>, size: Size, stack: seq<Pos>, current: Pos,
                      jumps: int, untouched: bool, next: Pos)
    requires Untouched(c0, cells, size, stack, current, jumps, untouched)
    ensures Untouched(c0, cells, size, stack + [current], next, jumps, untouched)
  {
    if untouched {
      Advance(cells, size, stack, current, next);
    }
  }

  /** Popping the stack at a cell without unvisited neighbours keeps the
      loop invariant; the popped cell is not in `unvisited`. */
  lemma WalkBack(c0: map<Pos, Cell>, w0: seq<Wall>, size: Size, cells: map<Pos, Cell>, walls: seq<Wall>,
                 stack: seq<Pos>, unvisited: set<Pos>, current: Pos,
                 seen: set<Pos>, count: nat, jumps: int, untouched: bool)
    requires Walking(c0, w0, size, cells, walls, stack, unvisited, current, seen, count, jumps, untouched)
    requires cells != map[] && current in cells && cells[current].visited && |stack| > 0
    requires forall q | q in Neighbours(current, size) :: q in cells
    requires UnvisitedOf(CellsAt(cells, Neighbours(current, size))) == []
    ensures Walking(c0, w0, size, cells, walls, stack[..|stack| - 1], unvisited, stack[|stack| - 1],
                    seen + {stack[|stack| - 1]}, count, jumps, untouched)
    ensures unvisited - {stack[|stack| - 1]} == unvisited
  {
    NoneUnvisited(cells, size, current);
    BackFrontier(cells, stack, unvisited, current);
    BackEntered(cells, current, seen, count, stack[|stack| - 1]);
    BackUntouched(c0, cells, size, stack, current, jumps, untouched);
  }

  /** Popping the stack keeps the frontier; the popped cell is not in `unvisited`. */
  lemma BackFrontier(cells: map<Pos, Cell>, stack: seq<Pos>, unvisited: set<Pos>, current: Pos)
    requires Frontier(cells, stack, unvisited, current) && |stack| > 0
    ensures Frontier(cells, stack[..|stack| - 1], unvisited, stack[|stack| - 1])
    ensures unvisited - {stack[|stack| - 1]} == unvisited
  {
    assert stack[|stack| - 1] in stack;
    assert forall q | q in stack[..|stack| - 1] :: q in stack;
  }

  /** Returning from a visited cell to a visited cell keeps `seen` and its bound. */
  lemma BackEntered(cells: map<Pos, Cell>, current: Pos, seen: set<Pos>, count: nat, top: Pos)
    requires Entered(cells, current, seen, count)
    requires current in cells && cells[current].visited
    requires top in cells && cells[top].visited
    ensures Entered(cells, top, seen + {top}, count)
  {
    assert current in VisitedOf(cells) && top in VisitedOf(cells);
    if top in seen {
      assert seen + {top} == seen;
    }
  }

  /** Popping the stack at a finished cell keeps the depth-first invariant of an untouched start. */
  lemma BackUntouched(c0: map<Pos, Cell>, cells: map<Pos, Cell>, size: Size, stack: seq<Pos>, current: Pos,
                      jumps: int, untouched: bool)
    requires Untouched(c0, cells, size, stack, current, jumps, untouched)
    requires |stack| > 0 && FinishedIn(cells, size, current)
    ensures Untouched(c0, cells, size, stack[..|stack| - 1], stack[|stack| - 1], jumps, untouched)
  {
    if untouched {
      Backtrack(cells, size, stack, current);
    }
  }

  /** With an empty stack and no unvisited neighbour, a jump to a cell
      still in `unvisited` keeps the loop invariant; such a jump never
      happens when no cell was visited at the start. */
  lemma WalkJump(c0: map<Pos, Cell>, w0: seq<Wall>, size: Size, cells: map<Pos, Cell>, walls: seq<Wall>,
                 stack: seq<Pos>, unvisited: set<Pos>, current: Pos,
                 seen: set<Pos>, count: nat, jumps: int, untouched: bool, target: Pos)
    requires Walking(c0, w0, size, cells, walls, stack, unvisited, current, seen, count, jumps, untouched)
    requires cells != map[] && current in cells && cells[current].visited && stack == []
    requires forall q | q in Neighbours(current, size) :: q in cells
    requires UnvisitedOf(CellsAt(cells, Neighbours(current, size))) == []
    requires target in unvisited && target in cells && !cells[target].visited
    ensures !untouched
    ensures Walking(c0, w0, size, cells, walls, stack, unvisited, target, seen + {target}, count, jumps + 1, untouched)
    ensures |unvisited - {target}| < |unvisited|
  {
    NoneUnvisited(cells, size, current);
    JumpUntouched(c0, cells, size, current, jumps, untouched);
    assert target in UnvisitedIn(cells);
    assert Frontier(cells, stack, unvisited, target);
    MoveEntered(cells, current, seen, count, target);
    assert Entered(cells, target, seen + {target}, count);
  }

  /** A start with no visited cell never reaches a jump: with an empty stack
      and a finished current cell the whole grid is visited by then. */
  lemma JumpUntouched(c0: map<Pos, Cell>, cells: map<Pos, Cell>, size: Size, current: Pos,
                      jumps: int, untouched: bool)
    requires Untouched(c0, cells, size, [], current, jumps, untouched)
    requires cells.Keys == GridSet(size) && current in cells && cells[current].visited
    requires FinishedIn(cells, size, current)
    requires exists q :: q in cells && !cells[q].visited
    ensures !untouched
    ensures Untouched(c0, cells, size, [], current, jumps + 1, untouched)
  {
    if untouched {
      NothingLeft(cells, size, current);
      assert false;
    }
  }

  /** When `unvisited` holds no unvisited cell, every cell is visited,
      and `unvisited` no longer holds the current (just visited) cell. */
  lemma NothingToJump(cells: map<Pos, Cell>, unvisited: set<Pos>, current: Pos)
    requires forall p | p in cells && !cells[p].visited :: p in unvisited
    requires current !in unvisited
    requires !exists p :: p in unvisited && p in cells && !cells[p].visited
    ensures forall p | p in cells :: cells[p].visited
    ensures unvisited - {current} == unvisited
  {
  }

  /** What the loop invariant gives run_matrix's caller. */
  lemma WalkDone(c0: map<Pos, Cell>, w0: seq<Wall>, size: Size, cells: map<Pos, Cell>, walls: seq<Wall>,
                 stack: seq<Pos>, unvisited: set<Pos>, current: Pos,
                 seen: set<Pos>, count: nat, jumps: int, untouched: bool)
    requires Walking(c0, w0, size, cells, walls, stack, unvisited, current, seen, count, jumps, untouched)
    ensures WellFormed(size, cells, walls) && CellsKept(c0, cells)
    ensures cells.Keys == c0.Keys
    ensures forall p | p in cells :: c0[p].visited ==> cells[p].visited
    ensures |walls| == |w0|
    ensures forall i | 0 <= i < |walls| :: walls[i].cells == w0[i].cells
    ensures forall i | 0 <= i < |walls| :: !w0[i].closed ==> !walls[i].closed
    ensures forall i | i in Opened(w0, walls) :: walls[i].cells in AllEdges(size)
    ensures cells != map[] ==> |Opened(w0, walls)| <= |cells| - 1
    ensures (forall p | p in c0 :: !c0[p].visited) ==> jumps == 0
  {
    if cells != map[] {
      SubsetCard(seen, cells.Keys);
    }
    if forall p | p in c0 :: !c0[p].visited {
      assert forall p :: p !in VisitedOf(c0);
    }
    forall p | p in cells && c0[p].visited ensures cells[p].visited {
      assert p in VisitedOf(c0);
    }
  }

  /** A subset is no larger than its superset. */
  lemma {:induction false} SubsetCard<T>(a: set<T>, b: set<T>)
    requires a <= b
    ensures |a| <= |b|
    decreases |a|
  {
    if a != {} {
      var x :| x in a;
      SubsetCard(a - {x}, b - {x});
    }
  }

  /** The indices of the walls that were closed in `before` and are open in `after`. */
  ghost function Opened(before: seq<Wall>, after: seq<Wall>): set<int> {
    set i | 0 <= i < |after| && i < |before| && before[i].closed && !after[i].closed
  }
}
