/** The wall pool (maze.py, class Wall and the pool-building part of
    class Cell): a wall is an unordered pair of positions with a closed
    flag, and the pool is a sequence of walls that never holds two walls
    with the same pair. */
module Walls {
  import opened Wrappers
  import opened Geometry

  /** Wall: the set of the two positions it separates and whether it is closed. */
  datatype Wall = Wall(cells: set<Pos>, closed: bool)

  /** Wall(closed=True, cells={p, q}), as Cell.append_wall builds it. */
  function NewWall(p: Pos, q: Pos): Wall {
    Wall({p, q}, true)
  }

  /** Wall.__eq__: two walls are equal when their position sets are; the
      flag plays no part. */
  predicate SameWall(w: Wall, v: Wall) {
    w.cells == v.cells
  }

  /** Python's `w in pool`, which compares with Wall.__eq__. */
  predicate Contains(pool: seq<Wall>, w: Wall) {
    exists i | 0 <= i < |pool| :: SameWall(pool[i], w)
  }

  /** The position sets present in the pool. */
  function Keys(pool: seq<Wall>): set<set<Pos>>
    decreases |pool|
  {
    if pool == [] then {} else Keys(pool[..|pool| - 1]) + {pool[|pool| - 1].cells}
  }

  /** A pair is a key exactly when some wall of the pool carries it. */
  lemma {:induction false} KeysMembership(pool: seq<Wall>, k: set<Pos>)
    ensures k in Keys(pool) <==> exists i | 0 <= i < |pool| :: pool[i].cells == k
    decreases |pool|
  {
    if pool != [] {
      var init := pool[..|pool| - 1];
      KeysMembership(init, k);
      assert forall i | 0 <= i < |init| :: init[i] == pool[i];
      if k in Keys(init) {
        var i :| 0 <= i < |init| && init[i].cells == k;
        assert pool[i].cells == k;
      }
    }
  }

  /** No two walls of the pool are equal. */
  predicate NoDuplicates(pool: seq<Wall>) {
    forall i, j | 0 <= i < j < |pool| :: pool[i].cells != pool[j].cells
  }

  /** The pool after Cell.append_wall offers it `w`: `w` is appended unless
      an equal wall is already there. */
  function PoolAppend(pool: seq<Wall>, w: Wall): seq<Wall> {
    if Contains(pool, w) then pool else pool + [w]
  }

  /** The pool after Cell.cell_walls for the cell at `p` whose neighbours are `ns`:
      one PoolAppend per neighbour, in order. */
  function AppendAll(pool: seq<Wall>, p: Pos, ns: seq<Pos>): seq<Wall>
    decreases |ns|
  {
    if ns == [] then pool
    else PoolAppend(AppendAll(pool, p, ns[..|ns| - 1]), NewWall(p, ns[|ns| - 1]))
  }

  /** Matrix.get_wall's search: the index of the first wall whose position
      set is `duo`, or None. */
  function FindWall(pool: seq<Wall>, duo: set<Pos>): (r: Option<nat>)
    ensures r.Some? ==> r.value < |pool| && pool[r.value].cells == duo
    ensures r.Some? ==> forall j | 0 <= j < r.value :: pool[j].cells != duo
    ensures r.None? ==> forall j | 0 <= j < |pool| :: pool[j].cells != duo
    decreases |pool|
  {
    if pool == [] then None
    else if pool[0].cells == duo then Some(0)
    else match FindWall(pool[1..], duo)
      case None => None
      case Some(k) => Some(k + 1)
  }

  /** With no duplicates in the pool, the wall found is the only one with that pair. */
  lemma FindWallUnique(pool: seq<Wall>, i: nat)
    requires NoDuplicates(pool) && i < |pool|
    ensures FindWall(pool, pool[i].cells) == Some(i)
  {
  }

  /** FindWall finds a wall exactly when the pair is a key of the pool. */
  lemma FindWallIffKey(pool: seq<Wall>, duo: set<Pos>)
    ensures FindWall(pool, duo).Some? <==> duo in Keys(pool)
  {
    KeysMembership(pool, duo);
  }

  /** Wall equality is an equivalence that ignores the order of the pair
      and the closed flag. */
  lemma SameWallLaws(p: Pos, q: Pos, a: Wall, b: Wall, c: Wall)
    ensures SameWall(a, a)
    ensures SameWall(a, b) ==> SameWall(b, a)
    ensures SameWall(a, b) && SameWall(b, c) ==> SameWall(a, c)
    ensures SameWall(NewWall(p, q), NewWall(q, p))
    ensures SameWall(Wall({p, q}, true), Wall({p, q}, false))
    ensures SameWall(NewWall(p, q), a) <==> a.cells == {p, q}
  {
  }

  /** Python's `in` finds an equal wall exactly when the pair is a key. */
  lemma ContainsIffKey(pool: seq<Wall>, w: Wall)
    ensures Contains(pool, w) <==> w.cells in Keys(pool)
  {
    KeysMembership(pool, w.cells);
  }

  /** PoolAppend: the old walls stay in place, at most the offered wall is
      added, and only when its pair is not yet a key; afterwards the pair
      is a key and no duplicate has appeared. */
  lemma PoolAppendFacts(pool: seq<Wall>, w: Wall)
    ensures var r := PoolAppend(pool, w);
            && |pool| <= |r| <= |pool| + 1
            && r[..|pool|] == pool
            && (|r| == |pool| + 1 <==> w.cells !in Keys(pool))
            && (|r| == |pool| + 1 ==> r[|pool|] == w)
            && Keys(r) == Keys(pool) + {w.cells}
            && (NoDuplicates(pool) ==> NoDuplicates(r))
  {
    ContainsIffKey(pool, w);
    var r := PoolAppend(pool, w);
    if !Contains(pool, w) {
      assert r[..|r| - 1] == pool;
    }
  }

  /** `res` keeps `pool` as its prefix, and every wall after it is closed. */
  predicate ExtendsClosed(pool: seq<Wall>, res: seq<Wall>) {
    && |pool| <= |res|
    && res[..|pool|] == pool
    && (forall i | |pool| <= i < |res| :: res[i].closed)
  }

  lemma ExtendsClosedTrans(a: seq<Wall>, b: seq<Wall>, c: seq<Wall>)
    requires ExtendsClosed(a, b) && ExtendsClosed(b, c)
    ensures ExtendsClosed(a, c)
  {
    assert c[..|a|] == c[..|b|][..|a|];
  }

  /** The position sets of the walls Cell.cell_walls offers for `p` and `ns`. */
  function Offered(p: Pos, ns: seq<Pos>): set<set<Pos>>
    decreases |ns|
  {
    if ns == [] then {} else Offered(p, ns[..|ns| - 1]) + {{p, ns[|ns| - 1]}}
  }

  /** The offered pairs are those of `p` with a member of `ns`. */
  lemma {:induction false} OfferedMembership(p: Pos, ns: seq<Pos>, k: set<Pos>)
    ensures k in Offered(p, ns) <==> exists n :: n in ns && k == {p, n}
    decreases |ns|
  {
    if ns != [] {
      var init := ns[..|ns| - 1];
      OfferedMembership(p, init, k);
      assert ns == init + [ns[|ns| - 1]];
      if k in Offered(p, init) {
        var n :| n in init && k == {p, n};
        assert n in ns;
      }
    }
  }

  /** Cell.cell_walls keeps the old walls in place and adds only closed walls. */
  lemma {:induction false} AppendAllExtends(pool: seq<Wall>, p: Pos, ns: seq<Pos>)
    ensures ExtendsClosed(pool, AppendAll(pool, p, ns))
    decreases |ns|
  {
    if ns != [] {
      var mid := AppendAll(pool, p, ns[..|ns| - 1]);
      AppendAllExtends(pool, p, ns[..|ns| - 1]);
      PoolAppendFacts(mid, NewWall(p, ns[|ns| - 1]));
      ExtendsClosedTrans(pool, mid, AppendAll(pool, p, ns));
    }
  }

  /** Cell.cell_walls makes every offered pair a key, and adds no other. */
  lemma {:induction false} AppendAllKeys(pool: seq<Wall>, p: Pos, ns: seq<Pos>)
    ensures Keys(AppendAll(pool, p, ns)) == Keys(pool) + Offered(p, ns)
    decreases |ns|
  {
    if ns != [] {
      AppendAllKeys(pool, p, ns[..|ns| - 1]);
      PoolAppendFacts(AppendAll(pool, p, ns[..|ns| - 1]), NewWall(p, ns[|ns| - 1]));
    }
  }

  /** Cell.cell_walls introduces no duplicate. */
  lemma {:induction false} AppendAllNoDuplicates(pool: seq<Wall>, p: Pos, ns: seq<Pos>)
    requires NoDuplicates(pool)
    ensures NoDuplicates(AppendAll(pool, p, ns))
    decreases |ns|
  {
    if ns != [] {
      AppendAllNoDuplicates(pool, p, ns[..|ns| - 1]);
      PoolAppendFacts(AppendAll(pool, p, ns[..|ns| - 1]), NewWall(p, ns[|ns| - 1]));
    }
  }

  /** A pool without duplicates has as many walls as it has distinct pairs. */
  lemma {:induction false} NoDuplicatesCard(pool: seq<Wall>)
    requires NoDuplicates(pool)
    ensures |Keys(pool)| == |pool|
    decreases |pool|
  {
    if pool != [] {
      var init, w := pool[..|pool| - 1], pool[|pool| - 1];
      assert NoDuplicates(init);
      NoDuplicatesCard(init);
      KeysMembership(init, w.cells);
      assert forall i | 0 <= i < |init| :: init[i] == pool[i];
    }
  }

  /** Two pools whose walls carry the same pairs, index by index, have
      the same keys; flags play no part. */
  lemma {:induction false} KeysSameCells(a: seq<Wall>, b: seq<Wall>)
    requires |a| == |b| && forall i | 0 <= i < |a| :: a[i].cells == b[i].cells
    ensures Keys(a) == Keys(b)
    decreases |a|
  {
    if a != [] {
      KeysSameCells(a[..|a| - 1], b[..|b| - 1]);
    }
  }
}
