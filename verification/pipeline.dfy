/**
 * One maze job of Mapper::execute (source/mapper/mapper.cxx:52-56): generate
 * a maze, then retile it, and what the two together guarantee.
 */
module Pipeline {
  import opened Wrappers
  import opened Geometry
  import opened Grids
  import opened Directions
  import opened Carving
  import opened Generator
  import opened Tiles
  import opened Mapper

  /** If following parents from a cell other than the start reaches the start, the start has a child. */
  lemma {:induction false} StartHasChild(parent: map<Cell, Cell>, w: Cell, d: nat)
    requires w != Start && Ancestor(parent, w, d) == Start
    ensures exists u :: u in parent && parent[u] == Start
    decreases d
  {
    if parent[w] != Start {
      StartHasChild(parent, parent[w], d - 1);
    }
  }

  /** The passage between adjacent cells a and b is one of the four cardinal neighbours of a's image. */
  lemma MidBesidePhys(a: Cell, b: Cell)
    requires Adjacent(a, b)
    ensures var p := Phys(a); var m := Mid(a, b);
      || m == Pos(p.row - 1, p.col) || m == Pos(p.row + 1, p.col)
      || m == Pos(p.row, p.col - 1) || m == Pos(p.row, p.col + 1)
  {
  }

  /** Each end of a passage is one of the four cardinal neighbours of the passage. */
  lemma PhysBesideMid(a: Cell, b: Cell)
    requires Adjacent(a, b)
    ensures var m := Mid(a, b); var p := Phys(a);
      || p == Pos(m.row - 1, m.col) || p == Pos(m.row + 1, m.col)
      || p == Pos(m.row, m.col - 1) || p == Pos(m.row, m.col + 1)
  {
  }

  /** A cell with at least one open cardinal neighbour q gets a tile. */
  lemma OpenNeighbourGivesTile(maze: Grid, dims: int, p: Pos, q: Pos)
    requires IsSquare(maze, dims) && Interior(p, dims)
    requires || q == Pos(p.row - 1, p.col) || q == Pos(p.row + 1, p.col)
             || q == Pos(p.row, p.col - 1) || q == Pos(p.row, p.col + 1)
    requires maze[q.row][q.col] != 0
    ensures Classify(NeighbourhoodAt(maze, dims, p)) != None
  {
    ClassifyTotal(NeighbourhoodAt(maze, dims, p));
  }

  /** An open position of a drawn maze holds gid. */
  lemma OpenHoldsGid(maze: Grid, t: Tree, L: nat, gid: int, q: Pos)
    requires IsSquare(maze, 2 * L + 1) && DrawnFrom(maze, t, L, gid)
    requires Interior(q, 2 * L + 1) && OpenAt(AllCells(L), t.parent, q)
    ensures maze[q.row][q.col] == gid
  {
  }

  /** An open cell with an open passage beside it has a tile. */
  lemma PassageGivesTile(maze: Grid, t: Tree, L: nat, gid: int, a: Cell, b: Cell)
    requires L >= 1 && gid != 0 && IsSquare(maze, 2 * L + 1) && DrawnFrom(maze, t, L, gid)
    requires InRange(a, L) && InRange(b, L) && Adjacent(a, b) && Linked(t.parent, a, b)
    ensures Classify(NeighbourhoodAt(maze, 2 * L + 1, Phys(a))) != None
  {
    PhysInterior(a, L);
    MidInterior(a, b, L);
    OpenAtMid(AllCells(L), t.parent, a, b);
    OpenHoldsGid(maze, t, L, gid, Mid(a, b));
    MidBesidePhys(a, b);
    OpenNeighbourGivesTile(maze, 2 * L + 1, Phys(a), Mid(a, b));
  }

  /** A cell of the tree has a passage: to its parent, or for the start to a child. */
  lemma CellTiled(maze: Grid, t: Tree, L: nat, gid: int, v: Cell)
    requires L >= 2 && gid != 0 && IsSquare(maze, 2 * L + 1)
    requires SpanningTree(t, L) && DrawnFrom(maze, t, L, gid) && InRange(v, L)
    ensures Classify(NeighbourhoodAt(maze, 2 * L + 1, Phys(v))) != None
  {
    if v != Start {
      PassageGivesTile(maze, t, L, gid, v, t.parent[v]);
    } else {
      var w := Cell(1, 2);
      assert w in t.depth;
      StartHasChild(t.parent, w, t.depth[w]);
      var u :| u in t.parent && t.parent[u] == Start;
      PassageGivesTile(maze, t, L, gid, Start, u);
    }
  }

  /** Both ends of a linked pair are cells of the tree. */
  lemma LinkedInRange(t: Tree, L: nat, u: Cell, w: Cell)
    requires SpanningTree(t, L) && Linked(t.parent, u, w)
    ensures InRange(u, L) && InRange(w, L)
  {
  }

  /** An open passage between two cells has an open cell (either end) beside it, so it has a tile. */
  lemma PassageTiled(maze: Grid, t: Tree, L: nat, gid: int, a: Cell, b: Cell)
    requires L >= 1 && gid != 0 && IsSquare(maze, 2 * L + 1) && DrawnFrom(maze, t, L, gid)
    requires InRange(a, L) && InRange(b, L) && Adjacent(a, b)
    ensures Interior(Mid(a, b), 2 * L + 1)
    ensures Classify(NeighbourhoodAt(maze, 2 * L + 1, Mid(a, b))) != None
  {
    MidInterior(a, b, L);
    PhysInterior(a, L);
    OpenAtPhys(AllCells(L), t.parent, a);
    OpenHoldsGid(maze, t, L, gid, Phys(a));
    PhysBesideMid(a, b);
    OpenNeighbourGivesTile(maze, 2 * L + 1, Mid(a, b), Phys(a));
  }

  /**
   * In a generated maze of logical side at least 2, every open cell has at
   * least one open cardinal neighbour, so the classifier finds a tile for it:
   * the chain's fall-through (no test passes) is never taken.
   */
  lemma EveryOpenCellTiled(maze: Grid, t: Tree, L: nat, gid: int, p: Pos)
    requires L >= 2 && gid != 0 && IsSquare(maze, 2 * L + 1)
    requires SpanningTree(t, L) && DrawnFrom(maze, t, L, gid)
    requires Interior(p, 2 * L + 1) && maze[p.row][p.col] != 0
    ensures Classify(NeighbourhoodAt(maze, 2 * L + 1, p)) != None
  {
    assert OpenAt(AllCells(L), t.parent, p);
    if p.row % 2 == 1 && p.col % 2 == 1 {
      CellAt(p);
      CellTiled(maze, t, L, gid, Logical(p));
    } else {
      var a, b := PassageAt(p);
      OpenAtMid(AllCells(L), t.parent, a, b);
      LinkedInRange(t, L, a, b);
      PassageTiled(maze, t, L, gid, a, b);
    }
  }

  /** With L = 1 the only open cell has no open neighbour, so it keeps the default id. */
  lemma SingleCellUntiled(maze: Grid, t: Tree, gid: int)
    requires gid != 0 && IsSquare(maze, 3) && SpanningTree(t, 1) && DrawnFrom(maze, t, 1, gid)
    ensures maze[1][1] == gid
    ensures Classify(NeighbourhoodAt(maze, 3, Pos(1, 1))) == None
  {
    assert Start in AllCells(1);
    assert Logical(Pos(1, 1)) == Start;
    assert t.parent.Keys == {} by {
      forall v | v in AllCells(1)
        ensures v == Start
      {
      }
    }
    ClassifyTotal(NeighbourhoodAt(maze, 3, Pos(1, 1)));
  }

  /** Every open cell of maze has a tile, and tiles holds that tile's id there. */
  predicate FullyTiled(maze: Grid, tiles: Grid, L: nat, ids: TileIds)
    requires IsSquare(maze, 2 * L + 1) && IsSquare(tiles, 2 * L + 1)
  {
    forall i, j | 1 <= i < 2 * L && 1 <= j < 2 * L && maze[i][j] != 0 ::
      && Classify(NeighbourhoodAt(maze, 2 * L + 1, Pos(i, j))).Some?
      && tiles[i][j] == ids(Classify(NeighbourhoodAt(maze, 2 * L + 1, Pos(i, j))).value)
  }

  /** With non-zero ids, each open cell of a generated maze of side L >= 2 gets the id of its tile. */
  lemma MappedMazeTiled(maze: Grid, t: Tree, L: nat, gid: int, ids: TileIds, tiles: Grid)
    requires IsSquare(maze, 2 * L + 1) && IsSquare(tiles, 2 * L + 1)
    requires SpanningTree(t, L) && DrawnFrom(maze, t, L, gid)
    requires NonZeroIds(ids) ==> tiles == ClassifyGrid(maze, 2 * L + 1, ids)
    ensures gid != 0 && NonZeroIds(ids) && L >= 2 ==> FullyTiled(maze, tiles, L, ids)
  {
    if gid != 0 && NonZeroIds(ids) && L >= 2 {
      forall i, j | 1 <= i < 2 * L && 1 <= j < 2 * L && maze[i][j] != 0
        ensures Classify(NeighbourhoodAt(maze, 2 * L + 1, Pos(i, j))).Some?
      {
        EveryOpenCellTiled(maze, t, L, gid, Pos(i, j));
      }
    }
  }

  /**
   * One job of Mapper::execute (source/mapper/mapper.cxx:52-56): generate a
   * maze from (1, 1) with the default id, then retile it. When the maze has
   * more than one cell (L >= 2, the grid side being 2L+1) and no configured id
   * is 0, every open cell ends up holding the id of the tile its neighbourhood
   * forms in the generated maze.
   */
  method Job(requested: int, gid: int, ids: TileIds, choose: nat -> DirIndex) returns (maze: Grid, tiles: Grid)
    requires requested >= 2
    ensures IsSquare(maze, Sizing(requested).dimensions) && IsSquare(tiles, Sizing(requested).dimensions)
    ensures var L := Sizing(requested).logical;
      gid != 0 && NonZeroIds(ids) && L >= 2 ==> FullyTiled(maze, tiles, L, ids)
  {
    var s := Sizing(requested);
    var tree, carves;
    maze, tree, carves := GenerateMaze(requested, gid, choose);
    tiles := MapTiles(maze, s.dimensions, ids);
    MappedMazeTiled(maze, tree, s.logical, gid, ids, tiles);
  }
}
