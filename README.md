# Maze generator (recursive backtracker), modelled in Dafny

This project models `maze.py`, a maze generator for a rectangular matrix of
cells. The generator uses the recursive-backtracker method: a depth-first
search with an explicit stack. It has three parts.

- **Cell geometry.** `Cell.in_boundary` is the bounds test. `Cell.neighbours`
  returns the in-bounds cells at the four unit offsets of `OFFSETS`, in that
  order.
  - Module `Geometry` models these as `InBoundary`, `OFFSETS`,
    `NeighboursFrom` and `Neighbours`.
  - Module `Edges` holds the reference sets: `GridSet` holds the valid
    positions and `AllEdges` the adjacent pairs. It counts both.
- **Wall pool.** A `Wall` is an unordered pair of positions with a `closed`
  flag. `Wall.__eq__` compares only the pairs.
  - `Cell.append_wall` adds a closed wall unless an equal wall is already in
    the pool. `Cell.cell_walls` offers one wall per neighbour.
    `Matrix.make_walls` does this for every cell, row by row.
    `Matrix.get_wall` returns the first wall with a given pair, or `None`.
  - Module `Walls` models these for one cell as pure functions over the pool
    (`PoolAppend`, `AppendAll`, `FindWall`).
  - Module `WallBuild` models the whole of `make_walls` (`RowPass`,
    `GridPass`, `MakeWallsPool`). It proves that the pool ends up with
    exactly one closed wall per adjacent pair: rows·(cols−1) + cols·(rows−1)
    walls, with n−1 read as 0 for an empty dimension.
- **Matrix and traversal.** Module `Maze` holds class `Matrix`, which has:
  - the size;
  - the lazily filled map from positions to cells (`cells`);
  - the wall pool (`walls`).

  Its methods follow the source's loops:
  - `PopulateCells` and `GetCell`;
  - `NeighbourCells` (the `neighbours` property, which resolves cells
    through `get_cell`);
  - `UnvisitedExist`, `ContainsWall`, `AppendWall`, `CellWalls`,
    `MakeWalls` and `GetWall`;
  - `RunMatrix`, the backtracker. Its loop body is the method `Step`.

`RunMatrix` is proved against the loop invariant `Walking`. The invariant is
split into one predicate per concern, and each concern has a small
preservation lemma for each branch of the loop body. The concerns are:
- `WellFormed`: map and pool shape;
- `CellsKept`: visited flags are only ever set;
- `Frontier`: stack and `unvisited` bookkeeping;
- `WallsKept`: walls are only opened, only between adjacent cells, and the
  number opened is counted;
- `Entered`: cells entered outnumber walls opened;
- `Untouched`: the depth-first invariant for a start where no cell was
  visited.

From the invariant, `RunMatrix` promises the following:
- the loop ends, by a lexicographic measure;
- on success every cell is visited;
- no visited flag is reset;
- no wall is closed again, and every opened wall lies between adjacent
  valid cells;
- at most |cells| − 1 walls are opened;
- if the pool held every wall of the matrix, a wall is always found;
- from a start where no cell was visited, the fallback branch never jumps
  (`JumpUntouched`), so no jump is counted. This rules out the jump, not the
  branch: on such a start the branch can still be reached with nothing left
  to jump to (see "Left out").

Cells are values identified by their position (`datatype Cell`). The map is
a field that the methods reassign. Walls are values too, and opening one
replaces it in the pool sequence. `random.choice` is an arbitrary choice
(`:|`), so every proved property holds for every sequence of choices.

## Model

| member | source | states |
|---|---|---|
| `Geometry.InBoundary` | maze.py:34-44 | definition: the position lies in rows 0 .. rows-1 and columns 0 .. cols-1 |
| `Geometry.NeighboursFrom` | maze.py:64-70 | definition: the candidates at the given offsets, in their order, each kept when in bounds |
| `Geometry.Neighbours` | maze.py:60-70 | definition: NeighboursFrom over the four OFFSETS, left, right, up, down |
| `Geometry.NeighboursUnfold` | maze.py:60-70 | the neighbour list is the concatenation of the in-bounds candidates at the four offsets, in order |
| `Geometry.NeighboursMembership` | maze.py:60-70 | a position is a neighbour exactly when it is in bounds and one unit step away along one axis |
| `Geometry.AdjacentIffOffset` | maze.py:8-13 | the four offsets are exactly the unit steps: adjacency holds iff some offset leads from one position to the other |
| `Geometry.NeighboursAtOffsets` | maze.py:64-70 | every neighbour is in bounds and sits at one of the four offsets from the cell |
| `Geometry.NeighboursOrdered` | maze.py:65-69 | neighbours come in strictly increasing OFFSETS order, hence without repetition |
| `Geometry.NeighbourCount` | maze.py:60-70 | an in-bounds cell has one neighbour per direction that stays inside the matrix |
| `Geometry.CornerEdgeInterior` | maze.py:60-70 | on a matrix of at least 2 x 2, a corner cell has 2 neighbours, an edge cell 3, an interior cell 4 |
| `Geometry.NeighboursSymmetric` | maze.py:60-70 | for two valid positions, each is a neighbour of the other or neither is |
| `Geometry.Scenarios` | test_maze.py:24-42 | (4,5) is inside and (6,8) outside a 6 x 8 matrix; (5,7) has exactly the 2 neighbours (5,6), (4,7); (4,5) has (4,4), (4,6), (3,5), (5,5) |
| `Edges.InGridIffInBoundary` | maze.py:35-44 | a position is one of the rows x cols positions the matrix enumerates exactly when in_boundary accepts it |
| `Edges.GridCard` | maze.py:154-157 | the matrix enumerates rows * cols distinct positions |
| `Edges.PairInAllEdges` | maze.py:60-70 | the pair of a valid position and an adjacent valid position is one of the matrix's adjacent pairs |
| `Edges.AllEdgesMembership` | maze.py:60-70 | a pair is an adjacent pair of the matrix exactly when both positions are valid and adjacent |
| `Edges.AllEdgesSplit` | maze.py:60-70 | every adjacent pair is a horizontal pair or a vertical pair, and every such pair is adjacent |
| `Edges.EdgeCount` | maze.py:177-183 | a rows x cols matrix has rows*(cols-1) + cols*(rows-1) adjacent pairs (n-1 read as 0) |
| `Edges.Crossing` | maze.py:225-229 | the matrix is connected: any set of valid positions that holds one valid position and misses another has an adjacent pair across its border |
| `Walls.SameWall` | maze.py:113-120 | definition: two walls are equal when their position sets are, whatever their flags |
| `Walls.Contains` | maze.py:50 | definition: some wall of the pool is SameWall to the offered one |
| `Walls.PoolAppend` | maze.py:46-51 | definition: the offered wall is appended unless the pool Contains it |
| `Walls.AppendAll` | maze.py:53-57 | definition: one PoolAppend of the closed wall {p, n} per neighbour n, in neighbour order |
| `Walls.SameWallLaws` | maze.py:113-120 | wall equality is reflexive, symmetric and transitive, ignores the order of the pair and the closed flag, and holds exactly when the pairs are equal |
| `Walls.KeysMembership` | maze.py:50 | a pair is among the pool's pairs exactly when some wall of the pool carries it |
| `Walls.ContainsIffKey` | maze.py:50 | `wall in pool` (with Wall.__eq__) holds exactly when the wall's pair is among the pool's pairs |
| `Walls.PoolAppendFacts` | maze.py:46-51 | append_wall keeps the old walls in place, appends the offered wall exactly when its pair is new, leaves the pair present afterwards, and introduces no duplicate |
| `Walls.OfferedMembership` | maze.py:53-57 | cell_walls offers exactly the pairs of the cell with each of its listed neighbours |
| `Walls.AppendAllExtends` | maze.py:53-57 | cell_walls keeps the old pool as a prefix and adds only closed walls |
| `Walls.AppendAllKeys` | maze.py:53-57 | after cell_walls the pool's pairs are the old ones plus exactly the offered ones |
| `Walls.AppendAllNoDuplicates` | maze.py:53-57 | cell_walls introduces no duplicate wall |
| `Walls.NoDuplicatesCard` | maze.py:46-51 | a pool without duplicates has as many walls as distinct pairs |
| `Walls.KeysSameCells` | maze.py:222-224 | changing closed flags alone leaves the pool's pairs unchanged |
| `Walls.FindWall` | maze.py:185-192 | the lookup returns the index of the first wall whose pair is `duo`, and None exactly when no wall has that pair |
| `Walls.FindWallUnique` | maze.py:185-192 | in a pool without duplicates, the lookup of a wall's own pair returns that wall |
| `Walls.FindWallIffKey` | maze.py:185-192 | a wall is found exactly when the pair is among the pool's pairs |
| `WallBuild.RowPass` | maze.py:180-182 | definition: the cells (r, 0) .. (r, c-1) apply AppendAll with their neighbours, in column order |
| `WallBuild.GridPass` | maze.py:180-182 | definition: rows 0 .. r-1 apply RowPass over all columns, in row order |
| `WallBuild.MakeWallsPool` | maze.py:177-183 | definition: GridPass over every row of the matrix |
| `WallBuild.RowEdgesSound` | maze.py:180-182 | every pair a row's cells offer is an adjacent pair of the matrix |
| `WallBuild.RowEdgesComplete` | maze.py:180-182 | each cell of a row offers its pair with each of its neighbours |
| `WallBuild.PrefixEdgesSound` | maze.py:180-182 | every pair the first rows offer is an adjacent pair of the matrix |
| `WallBuild.PrefixEdgesComplete` | maze.py:180-182 | every cell of the first rows offers its pair with each of its neighbours |
| `WallBuild.PrefixEdgesAll` | maze.py:177-183 | all rows together offer exactly the adjacent pairs of the matrix |
| `WallBuild.RowPassExtends` | maze.py:181-182 | one row of make_walls keeps the old pool as a prefix and adds only closed walls |
| `WallBuild.RowPassHas` | maze.py:181-182 | after one row, a pair is present exactly when it was before or the row offers it |
| `WallBuild.RowPassNoDuplicates` | maze.py:181-182 | one row of make_walls introduces no duplicate |
| `WallBuild.GridPassExtends` | maze.py:180-182 | the first rows of make_walls keep the old pool as a prefix and add only closed walls |
| `WallBuild.GridStepHas` | maze.py:180-182 | after one more row, a pair is present exactly when it was before that row or that row offers it |
| `WallBuild.GridPassHas` | maze.py:180-182 | after the first rows, a pair is present exactly when it was at the start or those rows offer it |
| `WallBuild.GridPassKeys` | maze.py:180-182 | after the first rows, the pool's pairs are the starting ones plus exactly those the rows offered |
| `WallBuild.GridPassNoDuplicates` | maze.py:180-182 | the first rows of make_walls introduce no duplicate |
| `WallBuild.MakeWallsFacts` | maze.py:177-183 | make_walls keeps the old walls, adds only closed ones, leaves every adjacent pair with a wall, adds no other pair, and keeps a duplicate-free pool duplicate-free |
| `WallBuild.MakeWallsFromEmpty` | maze.py:177-183 | from an empty pool, make_walls leaves one closed wall per adjacent pair, no duplicate, and rows*(cols-1) + cols*(rows-1) walls (n-1 read as 0) |
| `WallBuild.ExactlyOneWallIn` | maze.py:185-192 | in a duplicate-free pool whose pairs are the adjacent pairs, an adjacent valid pair has exactly one wall and no other pair has one |
| `WallBuild.ExactlyOneWall` | maze.py:177-192 | after make_walls from an empty pool, each adjacent valid pair has exactly one wall and no other pair has one |
| `Maze.MatrixRows` | maze.py:148-157 | `matrix` has `rows` rows of `cols` cells, the cell at (r, c) carrying the position (r, c), unvisited |
| `Maze.MatrixRowsCoverGrid` | maze.py:148-157 | a position has a place in `matrix`, holding a cell with that position, exactly when it is a valid position |
| `Maze.FreshCells` | maze.py:159-168 | definition: the map from each valid position to a new unvisited cell carrying it |
| `Maze.FreshCellsFacts` | maze.py:159-168 | the populated map has rows * cols entries, exactly the valid positions, each mapped to an unvisited cell carrying its position |
| `Maze.FilledIsFresh` | maze.py:166-168 | once every row has been stored, the map holds exactly the valid positions, each with its own new cell |
| `Maze.FillOne` | maze.py:167-168 | storing the cell at (r, c) extends the stored prefix of the row-major order by that position |
| `Maze.NeighboursFromStep` | maze.py:65-69 | each further offset of the neighbour search appends its candidate when it is in bounds |
| `Maze.CellsAtSnoc` | maze.py:69 | looking up one more neighbour position appends its cell |
| `Maze.UnvisitedOf` | maze.py:215-217 | the comprehension keeps exactly the unvisited cells of the neighbour list |
| `Maze.Matrix.constructor` | maze.py:144-146 | a new matrix has the given size, no cells and an empty pool |
| `Maze.Matrix.PopulateCells` | maze.py:159-168 | after populate_cells the map is exactly the valid positions, each with a new unvisited cell |
| `Maze.Matrix.GetCell` | maze.py:170-175 | an empty map is populated first; the cell at `pos` is returned exactly when `pos` is in bounds, otherwise KeyError |
| `Maze.Matrix.NeighbourCells` | maze.py:59-70 | the result is the cells of the map at the in-bounds neighbour positions, in OFFSETS order; the map is populated (when empty) exactly when some neighbour is in bounds, and is otherwise unchanged |
| `Maze.Matrix.ResolveNeighbour` | maze.py:65-69 | one offset of the neighbour loop: the neighbour list and the resolved cells grow by the candidate exactly when it is in bounds, and the map is populated (when empty) by the first in-bounds candidate |
| `Maze.Matrix.UnvisitedExist` | maze.py:194-198 | returns a cell of the map that is unvisited, and None exactly when every cell is visited |
| `Maze.Matrix.ContainsWall` | maze.py:50 | the scan answers whether some wall of the pool equals `w` under Wall.__eq__ |
| `Maze.Matrix.AppendWall` | maze.py:46-51 | the pool becomes PoolAppend of the old pool and the closed wall {p, q}, and stays duplicate-free |
| `Maze.Matrix.CellWalls` | maze.py:53-57 | the pool becomes AppendAll of the old pool over the cell's neighbours, in order; the map is populated (when empty) exactly when the cell has a neighbour, and is otherwise unchanged |
| `Maze.Matrix.MakeWalls` | maze.py:177-183 | the pool becomes MakeWallsPool of the old pool; the map is populated (when empty) exactly when the matrix has at least two cells, and is otherwise unchanged; the result is True |
| `Maze.Matrix.RowWalls` | maze.py:180-182 | one row of make_walls: the pool becomes RowPass of the old pool over that row, and the map is populated (when empty) exactly when the matrix has at least two cells |
| `Maze.HasNeighbour` | maze.py:60-70 | a valid position has a neighbour exactly when the matrix has at least two cells |
| `Maze.HasNeighbourAxis` | maze.py:60-70 | a valid position has a neighbour exactly when the matrix has at least two rows or at least two columns |
| `Maze.Matrix.GetWall` | maze.py:185-192 | the cell (0, 0) is looked up first, so KeyError on an empty matrix; otherwise the index of the first wall whose pair is `duo`, or None; the pool is unchanged |
| `Maze.Matrix.OpenSharedWall` | maze.py:222-224 | a wall is found exactly when the pool has one for {a, b}; that wall, and only it, becomes open; with none found the pool is unchanged |
| `Maze.Matrix.Forward` | maze.py:218-224 | the chosen cell is an unvisited neighbour; exactly the first wall for the crossed pair becomes open, which keeps the loop invariant with the stack pushed; with no such wall the pool is unchanged and the pool lacks a wall of the matrix |
| `Maze.Matrix.Step` | maze.py:209-229 | one loop pass marks the current cell visited and deletes it from `unvisited`; it then either pushes it and moves to a neighbour unvisited at that moment, opening exactly the first wall for that pair, or (every neighbour visited) pops the stack, or with an empty stack jumps to an unvisited cell of `unvisited` (one more jump), or ends with every cell visited; only a forward move changes the pool; it keeps the loop invariant, strictly decreases the loop measure unless every cell is visited, and fails only when the pool lacks a wall of the matrix |
| `Maze.Matrix.RunMatrix` | maze.py:200-229 | on success every cell is visited; no visited flag is reset; the walls keep their pairs; none is closed again; every opened wall is between adjacent valid cells; at most cells-1 are opened; a complete pool never fails; a start with nothing visited counts no jump; on a map not yet populated the loop never runs, so cells and walls are unchanged and the result is Success(0) |
| `Maze.OpenedGrows` | maze.py:224 | opening one wall adds at most that wall to the opened ones |
| `Maze.OpenWall` | maze.py:222-224 | opening the wall between adjacent valid cells keeps the pool's invariant with one more opening, and keeps the pool duplicate-free |
| `Maze.OpenedDistinct` | maze.py:224 | opening a wall keeps a duplicate-free pool duplicate-free |
| `Maze.MarkVisited` | maze.py:209 | marking the current cell visited keeps the depth-first invariant |
| `Maze.Advance` | maze.py:218-221 | pushing the current cell and moving on keeps the depth-first invariant |
| `Maze.ChosenNeighbour` | maze.py:215-221 | the chosen cell is an in-bounds, unvisited neighbour of the current cell |
| `Maze.NoneUnvisited` | maze.py:215-218 | an empty list of unvisited neighbours means every neighbour is a visited cell |
| `Maze.Backtrack` | maze.py:225-226 | popping the stack at a finished cell keeps the depth-first invariant |
| `Maze.VisitedClosed` | maze.py:225-229 | with an empty stack and a finished current cell, every valid neighbour of a visited cell is visited |
| `Maze.NothingLeft` | maze.py:227-229 | with an empty stack and a finished current cell, the depth-first invariant leaves no unvisited cell in the matrix |
| `Maze.OriginInGrid` | maze.py:189 | a non-empty matrix has the cell (0, 0) |
| `Maze.WalkStart` | maze.py:205-207 | the loop invariant holds for the initial stack, `unvisited` copy and current cell |
| `Maze.WalkMark` | maze.py:209-213 | marking the current cell visited and deleting it from `unvisited` keeps the loop invariant |
| `Maze.MarkCells` | maze.py:209 | marking a cell visited keeps the map well formed and adds exactly that cell to the visited ones |
| `Maze.MarkFrontier` | maze.py:209-213 | marking and deleting the current cell keeps the stack and `unvisited` bookkeeping |
| `Maze.MarkEntered` | maze.py:209 | marking the current cell keeps the entered cells among the visited ones |
| `Maze.MarkUntouched` | maze.py:209 | marking the current cell keeps the depth-first invariant of an untouched start |
| `Maze.WallFound` | maze.py:218-223 | the pair of the current cell and the chosen neighbour is an adjacent valid pair, (0, 0) is a cell, and a complete pool has its wall |
| `Maze.WalkMove` | maze.py:218-224 | pushing, moving to the chosen neighbour and opening the wall between them keeps the loop invariant with one more opening |
| `Maze.MoveFrontier` | maze.py:218-221 | pushing the current cell and entering an unvisited cell keeps the stack and `unvisited` bookkeeping, and that cell is still in `unvisited` |
| `Maze.MoveEntered` | maze.py:221 | entering an unvisited cell adds a new cell to the entered ones |
| `Maze.MoveUntouched` | maze.py:218-221 | pushing and moving keeps the depth-first invariant of an untouched start |
| `Maze.WalkBack` | maze.py:225-226 | popping the stack at a cell without unvisited neighbours keeps the loop invariant |
| `Maze.BackFrontier` | maze.py:225-226 | popping keeps the stack and `unvisited` bookkeeping, and the popped cell is not in `unvisited` |
| `Maze.BackEntered` | maze.py:226 | returning to a visited cell keeps the entered cells and their bound |
| `Maze.BackUntouched` | maze.py:225-226 | popping at a finished cell keeps the depth-first invariant of an untouched start |
| `Maze.WalkJump` | maze.py:227-229 | jumping, with an empty stack, to a cell still in `unvisited` keeps the loop invariant; from an untouched start there is never such a cell to jump to |
| `Maze.JumpUntouched` | maze.py:227-229 | from a start with no visited cell, an empty stack at a finished cell leaves nothing to jump to |
| `Maze.NothingToJump` | maze.py:227-229 | when `unvisited` holds no unvisited cell, every cell is visited |
| `Maze.WalkDone` | maze.py:208-229 | the loop invariant gives run_matrix's promises: cells and pool kept, no flag reset, opened walls adjacent and at most cells-1, no jump from an untouched start |

## Left out

- `random.choice` (maze.py:221, 228) is an arbitrary choice (`:|`). The pseudo-random generator is not modelled.
- The fallback branch (maze.py:227-229) cannot run as written. `random.choice` indexes `unvisited` by an integer position: on a non-empty dictionary that raises KeyError, on an empty one IndexError. The tuple unpacking of `.items()` does not yield a cell either. The model follows the evident intent: it jumps, without opening a wall, to some cell still in `unvisited` that is not visited.
- The fallback branch with nothing to jump to: when `unvisited` holds no unvisited cell, the model does nothing and the loop then ends, where the source raises. From a start where no cell was visited this is the only way the branch is reached, and it happens on a 1 x 1 matrix: the single cell is marked, has no neighbour and the stack is empty, so `random.choice({})` raises IndexError, while `RunMatrix` returns Success(0). `JumpUntouched` rules out the jump there, not the branch.
- The pool is one sequence owned by the matrix. The source keeps it in the class attribute `Cell.walls` (maze.py:24), shared by every cell of every matrix.
- `Wall.__init__`'s mutable default pair (maze.py:109) is not modelled: every wall is built with an explicit pair.
- Cell identity is by position. `Cell.__eq__`, `__ne__` and `__hash__` (maze.py:72-95) also compare the visited flag and the matrix reference, so test_maze.py's equality and set tests are not modelled.
- `Cell.__str__`, `Cell.__repr__`, `Wall.__ne__` and `Wall.__str__` (maze.py:97-133) are formatting and negated equality; they are not modelled.
- A cell's `row`, `col`, `matrix_size` and `matrix` fields (maze.py:26-32) are implicit. They are the position's components and the size and map of the one `Matrix`.
- `Geometry.Neighbours` returns positions. `Maze.Matrix.NeighbourCells` turns them into cells through `GetCell`, as the property does.
- `Maze.Matrix.RunMatrix`: its contract states the bound on opened walls and that they lie between adjacent cells. It does not state, over the whole run, the timing property that each opening happens toward a cell unvisited at that moment (`Maze.Matrix.Step` states it for each pass), or that the open walls form a spanning tree.
- `Maze.Matrix.RunMatrix`: `initial_cell` is given as a position of the matrix (`requires InBoundary`). A cell object outside the map, which the source would accept, is not modelled.
- `Maze.Matrix.RunMatrix`: its result is a model addition. The source returns None. The model returns the number of fallback jumps on success, and Failure(NoWall) when get_wall finds no wall, where the source raises AttributeError on `None.closed`.
- `Maze.Matrix.GetCell`: a KeyError becomes Failure(KeyNotFound).
- `Maze.Matrix.UnvisitedExist`: returns some unvisited cell of the map, not the first in the dictionary's row-major insertion order; run_matrix uses its result only as a truth value. Where the source returns False, the model returns None.
- `import sys` and the unittest harness hold nothing to model.
