/**
 * The Generator class (source/generator/generator.cxx): the constructor's
 * sizing and generateMaze's loop, driven to completion.
 */
module Generator {
  import opened Geometry
  import opened Grids
  import opened Directions
  import opened Carving

  // ---------------------------------------------------------------------------
  // Sizing, lines 6-21 and 53-60

  /** dimensions_ (the grid side), L (the logical side) and matrix_ once the stack is allocated (L + 2). */
  datatype Size = Size(dimensions: int, logical: int, bound: int)

  /**
   * The constructor as written: matrix_ is bumped to odd and halved, but
   * dimensions_ keeps the requested value, so an even request gives an even
   * grid whose logical cells reach one row and column too far.
   */
  function SizingAsWritten(requested: int): (s: Size)
    ensures s.dimensions == requested
    ensures 2 * s.logical + 1 == (if requested % 2 == 0 then requested + 1 else requested)
    ensures s.bound == s.logical + 2
  {
    var m := if requested % 2 == 0 then requested + 1 else requested;
    var l := (m - 1) / 2;
    Size(requested, l, l + 2)
  }

  /** The sizing the constructor's comment promises: an even request is bumped to the next odd side. */
  function Sizing(requested: int): (s: Size)
    ensures s.dimensions % 2 == 1
    ensures s.dimensions == (if requested % 2 == 0 then requested + 1 else requested)
    ensures s.dimensions == 2 * s.logical + 1 && s.bound == s.logical + 2
  {
    var m := if requested % 2 == 0 then requested + 1 else requested;
    var l := (m - 1) / 2;
    Size(m, l, l + 2)
  }

  /**
   * With an even request the last logical cell, which the guard admits, is
   * drawn on the last row and column of the grid (its border), and the cell
   * forced open at the end, (D-2, D-2), has two even coordinates: a pillar
   * between four logical cells rather than a cell.
   */
  lemma EvenRequestBreaksBorder(requested: int)
    requires requested >= 2 && requested % 2 == 0
    ensures var s := SizingAsWritten(requested);
      var last := Cell(s.logical, s.logical);
      && InRange(last, s.logical)
      && Phys(last) == Pos(s.dimensions - 1, s.dimensions - 1)
      && (s.dimensions - 2) % 2 == 0
  {
  }

  /** The smallest witness: a request of 4 draws logical cell (2, 2) at (3, 3), the corner of the 4 x 4 border. */
  lemma RequestFourBreaksBorder()
    ensures SizingAsWritten(4).dimensions == 4
    ensures InRange(Cell(2, 2), SizingAsWritten(4).logical)
    ensures Phys(Cell(2, 2)) == Pos(3, 3)
  {
  }

  /** With the corrected sizing every logical cell is drawn inside the border, and (D-2, D-2) is the last cell. */
  lemma SizingKeepsCellsInside(requested: int)
    requires requested >= 2
    ensures var s := Sizing(requested);
      && s.logical >= 1
      && (forall c :: InRange(c, s.logical) ==> Interior(Phys(c), s.dimensions))
      && Phys(Cell(s.logical, s.logical)) == Pos(s.dimensions - 2, s.dimensions - 2)
  {
    var s := Sizing(requested);
    forall c | InRange(c, s.logical)
      ensures Interior(Phys(c), s.dimensions)
    {
      PhysInterior(c, s.logical);
    }
  }

  // ---------------------------------------------------------------------------
  // What the finished loop leaves behind

  /** The cell reached from v by following parent links k times (stopping at a cell without a parent). */
  function Ancestor(parent: map<Cell, Cell>, v: Cell, k: nat): Cell
    decreases k
  {
    if k == 0 || v !in parent then v else Ancestor(parent, parent[v], k - 1)
  }

  /** The carved tree: for each cell but the start the cell it was carved from, and each cell's depth. */
  datatype Tree = Tree(parent: map<Cell, Cell>, depth: map<Cell, nat>)

  /**
   * A spanning tree of the L x L logical grid rooted at the start: every cell
   * but the start has an adjacent parent, and following parents from any cell
   * reaches the start (so there is no cycle).
   */
  predicate SpanningTree(t: Tree, L: nat) {
    && t.parent.Keys == AllCells(L) - {Start}
    && (forall v | v in t.parent :: InRange(t.parent[v], L) && Adjacent(v, t.parent[v]))
    && t.depth.Keys == AllCells(L)
    && (forall v | v in t.depth :: Ancestor(t.parent, v, t.depth[v]) == Start)
  }

  /** maze is the drawing of tree t over the L x L cells, open cells holding gid. */
  predicate DrawnFrom(maze: Grid, t: Tree, L: nat, gid: int)
    requires IsSquare(maze, 2 * L + 1)
  {
    forall i, j | 0 <= i < 2 * L + 1 && 0 <= j < 2 * L + 1 ::
      maze[i][j] == (if OpenAt(AllCells(L), t.parent, Pos(i, j)) then gid else 0)
  }

  /** Following parents from a visited cell as many times as its depth ends at the start. */
  lemma {:induction false} RootedAtStart(g: Gen, v: Cell)
    requires TreeOk(g) && v in g.visited
    ensures Ancestor(g.parent, v, g.depth[v]) == Start
    decreases g.depth[v]
  {
    if v != Start {
      RootedAtStart(g, g.parent[v]);
    }
  }

  /**
   * Once the stack is empty every logical cell is visited: each visited cell
   * is closed, and every cell is reached from the start by steps south and east.
   */
  lemma {:induction false} EmptyStackVisitedAll(g: Gen, gid: int, r: int, c: int)
    requires Inv(g, gid) && g.stack == []
    requires 1 <= r <= g.logical && 1 <= c <= g.logical
    ensures Cell(r, c) in g.visited
    decreases r + c
  {
    if r > 1 {
      EmptyStackVisitedAll(g, gid, r - 1, c);
      assert Closed(g, Cell(r - 1, c));
      assert Neighbour(Cell(r - 1, c), 2) == Cell(r, c);
    } else if c > 1 {
      EmptyStackVisitedAll(g, gid, r, c - 1);
      assert Closed(g, Cell(r, c - 1));
      assert Neighbour(Cell(r, c - 1), 1) == Cell(r, c);
    }
  }

  lemma Finished(g: Gen, gid: int)
    requires Inv(g, gid) && g.stack == []
    ensures g.visited == AllCells(g.logical)
  {
    forall v | InRange(v, g.logical)
      ensures v in g.visited
    {
      EmptyStackVisitedAll(g, gid, v.row, v.col);
    }
  }

  /** Nothing on the outer ring of the grid is ever opened. */
  lemma BorderStaysWall(g: Gen, gid: int, p: Pos)
    requires ShapeOk(g) && TreeOk(g)
    requires InBounds(p, g.dims) && (p.row == 0 || p.col == 0 || p.row == g.dims - 1 || p.col == g.dims - 1)
    ensures !OpenAt(g.visited, g.parent, p)
  {
  }

  lemma {:induction false} DistinctCard(s: seq<Cell>)
    requires forall i, j | 0 <= i < j < |s| :: s[i] != s[j]
    ensures |(set x | x in s)| == |s|
  {
    if s != [] {
      var init := s[..|s| - 1];
      DistinctCard(init);
      assert (set x | x in s) == (set x | x in init) + {s[|s| - 1]};
    }
  }

  lemma {:induction false} SubsetCard(a: set<Cell>, b: set<Cell>)
    requires a <= b
    ensures |a| <= |b|
    decreases a
  {
    if a != {} {
      var x :| x in a;
      SubsetCard(a - {x}, b - {x});
    }
  }

  /** The stack never holds more entries than the L*L logical cells, far below its 100*L*L slots. */
  lemma StackDepthBounded(g: Gen)
    requires TreeOk(g) && StackOk(g)
    ensures |g.stack| <= g.logical * g.logical
  {
    forall i, j | 0 <= i < j < |g.stack|
      ensures g.stack[i] != g.stack[j]
    {
      assert g.depth[g.stack[i]] == i && g.depth[g.stack[j]] == j;
    }
    DistinctCard(g.stack);
    SubsetCard((set x | x in g.stack), AllCells(g.logical));
    AllCellsCard(g.logical);
  }

  lemma CompletedTree(g: Gen)
    requires TreeOk(g) && g.visited == AllCells(g.logical)
    ensures SpanningTree(Tree(g.parent, g.depth), g.logical)
    ensures |g.parent| == g.logical * g.logical - 1
  {
    AllCellsCard(g.logical);
    assert g.parent.Keys == g.visited - {Start};
    forall v | v in g.depth
      ensures Ancestor(g.parent, v, g.depth[v]) == Start
    {
      RootedAtStart(g, v);
    }
  }

  lemma CompletedGrid(g: Gen, gid: int)
    requires ShapeOk(g) && TreeOk(g) && GridOk(g, gid) && g.visited == AllCells(g.logical)
    ensures Bordered(g.grid, g.dims)
    ensures g.grid[1][1] == gid && g.grid[g.dims - 2][g.dims - 2] == gid
  {
    forall i, j | 0 <= i < g.dims && 0 <= j < g.dims && (i == 0 || j == 0 || i == g.dims - 1 || j == g.dims - 1)
      ensures g.grid[i][j] == 0
    {
      BorderStaysWall(g, gid, Pos(i, j));
    }
    OpenAtPhys(g.visited, g.parent, Start);
    OpenAtPhys(g.visited, g.parent, Cell(g.logical, g.logical));
  }

  /**
   * The state the loop stops in: its tree spans all L*L cells with L*L - 1
   * carves, and its grid is that tree's drawing, walled on the border and open
   * at the start and at the last cell (D-2, D-2).
   */
  lemma Completed(g: Gen, gid: int)
    requires Inv(g, gid) && g.stack == []
    ensures g.visited == AllCells(g.logical)
    ensures SpanningTree(Tree(g.parent, g.depth), g.logical)
    ensures |g.parent| == |g.visited| - 1 == g.logical * g.logical - 1
    ensures Bordered(g.grid, g.dims)
    ensures g.grid[1][1] == gid && g.grid[g.dims - 2][g.dims - 2] == gid
  {
    Finished(g, gid);
    CompletedTree(g);
    CompletedGrid(g, gid);
    AllCellsCard(g.logical);
  }

  // ---------------------------------------------------------------------------
  // generateMaze, lines 80-179

  /**
   * Carve a maze of the requested side from the start cell, with `choose(t)`
   * the oracle's direction for the t-th outer iteration. The result is the
   * drawing of a spanning tree of all L*L logical cells in the colour gid:
   * L*L - 1 carves, the border ring all walls, the start and (D-2, D-2) open,
   * and no value other than 0 and gid.
   */
  method GenerateMaze(requested: int, gid: int, choose: nat -> DirIndex) returns (maze: Grid, tree: Tree, carves: nat)
    requires requested >= 2
    ensures var s := Sizing(requested);
      && IsSquare(maze, s.dimensions)
      && SpanningTree(tree, s.logical)
      && carves == |tree.parent| == s.logical * s.logical - 1
      && DrawnFrom(maze, tree, s.logical, gid)
    ensures var d := Sizing(requested).dimensions;
      && IsSquare(maze, d)
      && Bordered(maze, d)
      && maze[1][1] == gid && maze[d - 2][d - 2] == gid
      && (forall i, j | 0 <= i < d && 0 <= j < d :: maze[i][j] == 0 || maze[i][j] == gid)
  {
    var s := Sizing(requested);
    var g;
    g, carves := Run(s.dimensions, s.logical, gid, choose);
    Completed(g, gid);
    // The last cell is already open, so forcing it open (line 171) changes nothing.
    maze := Set(g.grid, g.dims, Pos(g.dims - 2, g.dims - 2), gid);
    tree := Tree(g.parent, g.depth);
  }

  /**
   * The carve/backtrack loop of generateMaze: one Step per iteration until the
   * stack is empty, with choose(t) as the random start direction of iteration t.
   * Every carve adds exactly one cell to the visited set.
   */
  method Run(dims: int, logical: int, gid: int, choose: nat -> DirIndex) returns (g: Gen, carves: nat)
    requires logical >= 1 && dims == 2 * logical + 1
    ensures Inv(g, gid) && g.stack == [] && g.dims == dims && g.logical == logical
    ensures carves + 1 == |g.visited|
  {
    g := Init(dims, logical, gid);
    var t: nat := 0;
    carves := 0;
    while g.stack != []
      invariant Inv(g, gid) && g.dims == dims && g.logical == logical
      invariant carves + 1 == |g.visited|
      decreases Measure(g)
    {
      var first := choose(t);
      StepKeepsInv(g, first, gid);
      if ChooseDirection(Bound(g), g.visited, Top(g.stack), first).Found? {
        StepCarves(g, first, gid);
        carves := carves + 1;
      } else {
        StepBacktracks(g, first, gid);
      }
      g := Step(g, first, gid);
      t := t + 1;
    }
  }
}
