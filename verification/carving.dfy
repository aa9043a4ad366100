/**
 * The carving loop of Generator::generateMaze (source/generator/generator.cxx:80-179)
 * as a state machine over (grid, visited, stack, cursor).
 *
 * One call of Step is one iteration of the outer `while (stack_index_ != 0)`
 * loop. The state also records, for every visited cell but the start, the
 * cell it was carved from (`parent`) and its distance from the start
 * (`depth`); the source does not store these, they name the tree that the
 * carving draws into the grid.
 */
module Carving {
  import opened Geometry
  import opened Grids
  import opened Directions
  import Frames

  /** The start cell the only caller passes (source/mapper/mapper.cxx:53); its logical and physical coordinates coincide. */
  const Start: Cell := Cell(1, 1)

  datatype Gen = Gen(
    dims: int,                  // dimensions_: the grid is dims x dims
    logical: nat,               // L: logical cells range over 1..L
    grid: Grid,                 // generated_maze
    visited: set<Cell>,         // the cells whose `visited` entry is 1
    stack: seq<Cell>,           // the frontier stack, bottom first
    cursor: Pos,                // (t_row, t_col)
    parent: map<Cell, Cell>,    // the cell each visited cell was carved from
    depth: map<Cell, nat>       // the number of carves between the start and each visited cell
  )

  /** matrix_ once the stack is allocated: L plus the outer logical ring. */
  function Bound(g: Gen): int {
    g.logical + 2
  }

  function Top(s: seq<Cell>): Cell
    requires s != []
  {
    s[|s| - 1]
  }

  function Below(s: seq<Cell>): seq<Cell>
    requires s != []
  {
    s[..|s| - 1]
  }

  /** u and w are joined by a carved passage. */
  predicate Linked(parent: map<Cell, Cell>, u: Cell, w: Cell) {
    (u in parent && parent[u] == w) || (w in parent && parent[w] == u)
  }

  /**
   * Whether the tree (visited, parent) opens physical position p: a position
   * with two odd coordinates is the image of a cell and is open when that cell
   * is visited; a position with one odd coordinate lies between two cells and
   * is open when they are linked; the rest are pillars, always walls.
   */
  predicate OpenAt(visited: set<Cell>, parent: map<Cell, Cell>, p: Pos) {
    if p.row % 2 == 1 && p.col % 2 == 1 then
      Logical(p) in visited
    else if p.row % 2 == 1 then
      Linked(parent, Cell((p.row + 1) / 2, p.col / 2), Cell((p.row + 1) / 2, p.col / 2 + 1))
    else if p.col % 2 == 1 then
      Linked(parent, Cell(p.row / 2, (p.col + 1) / 2), Cell(p.row / 2 + 1, (p.col + 1) / 2))
    else
      false
  }

  lemma OpenAtPhys(visited: set<Cell>, parent: map<Cell, Cell>, c: Cell)
    ensures OpenAt(visited, parent, Phys(c)) <==> c in visited
  {
  }

  lemma OpenAtMid(visited: set<Cell>, parent: map<Cell, Cell>, a: Cell, b: Cell)
    requires Adjacent(a, b)
    ensures OpenAt(visited, parent, Mid(a, b)) <==> Linked(parent, a, b)
  {
  }

  // ---------------------------------------------------------------------------
  // The invariant

  predicate ShapeOk(g: Gen) {
    g.logical >= 1 && g.dims == 2 * g.logical + 1 && IsSquare(g.grid, g.dims)
  }

  /** visited, parent and depth describe a tree of in-range cells rooted at the start. */
  predicate TreeOk(g: Gen) {
    && Start in g.visited
    && (forall v | v in g.visited :: InRange(v, g.logical))
    && g.parent.Keys == g.visited - {Start}
    && (forall v | v in g.parent :: g.parent[v] in g.visited && Adjacent(v, g.parent[v]))
    && g.depth.Keys == g.visited
    && g.depth[Start] == 0
    && (forall v | v in g.parent :: g.depth[v] == g.depth[g.parent[v]] + 1)
  }

  /** The i-th stack entry was carved from the entry beneath it. */
  predicate ParentBeneath(g: Gen, i: int)
    requires 0 < i < |g.stack|
  {
    g.stack[i] in g.parent && g.parent[g.stack[i]] == g.stack[i - 1]
  }

  /** The stack is the tree path from the start to its top, and the cursor is the top's image. */
  predicate StackOk(g: Gen) {
    && (g.stack != [] ==> g.stack[0] == Start && g.cursor == Phys(Top(g.stack)))
    && (forall i | 0 <= i < |g.stack| :: g.stack[i] in g.visited && g.stack[i] in g.depth && g.depth[g.stack[i]] == i)
    && (forall i | 0 < i < |g.stack| :: ParentBeneath(g, i))
  }

  /** Every in-range neighbour of v is visited. */
  predicate Closed(g: Gen, v: Cell) {
    forall k: DirIndex :: InRange(Neighbour(v, k), g.logical) ==> Neighbour(v, k) in g.visited
  }

  /** A visited cell that has left the stack has no unvisited neighbour left. */
  predicate FinishedOk(g: Gen) {
    forall v | v in g.visited && v !in g.stack :: Closed(g, v)
  }

  /** The grid is exactly the drawing of the tree: open cells hold gid, all others 0. */
  predicate GridOk(g: Gen, gid: int)
    requires ShapeOk(g)
  {
    forall i, j | 0 <= i < g.dims && 0 <= j < g.dims ::
      g.grid[i][j] == (if OpenAt(g.visited, g.parent, Pos(i, j)) then gid else 0)
  }

  predicate Inv(g: Gen, gid: int) {
    ShapeOk(g) && TreeOk(g) && StackOk(g) && FinishedOk(g) && GridOk(g, gid)
  }

  /** What the loop consumes: twice the unvisited cells plus the stack height. */
  function Measure(g: Gen): nat {
    2 * |AllCells(g.logical) - g.visited| + |g.stack|
  }

  // ---------------------------------------------------------------------------
  // Initial state, lines 82-90

  /**
   * The state before the first iteration: a wall grid with the start opened,
   * the start visited and pushed, the cursor on the start.
   */
  function Init(dims: int, L: nat, gid: int): (g: Gen)
    requires L >= 1 && dims == 2 * L + 1
    ensures Inv(g, gid)
    ensures g.dims == dims && g.logical == L && g.stack != []
  {
    var grid := Set(Walls(dims), dims, Phys(Start), gid);
    var g := Gen(dims, L, grid, {Start}, [Start], Phys(Start), map[], map[Start := 0]);
    assert GridOk(g, gid) by {
      forall i, j | 0 <= i < dims && 0 <= j < dims
        ensures grid[i][j] == (if OpenAt(g.visited, g.parent, Pos(i, j)) then gid else 0)
      {
        assert OpenAt(g.visited, g.parent, Pos(i, j)) <==> Pos(i, j) == Phys(Start);
      }
    }
    g
  }

  // ---------------------------------------------------------------------------
  // The moves of the cursor, lines 118-137 and 152-160

  /**
   * Carving from the cursor toward the neighbour n of a (lines 118-137): the
   * two physical cells from the cursor toward n along the shared axis get gid,
   * which for a cursor on a's image are the wall between a and n and n's image.
   */
  function Carve(grid: Grid, L: nat, t: Pos, a: Cell, n: Cell, gid: int): (r: Grid)
    requires IsSquare(grid, 2 * L + 1) && Adjacent(a, n) && t == Phys(a)
    requires InRange(a, L) && InRange(n, L)
    ensures IsSquare(r, 2 * L + 1)
    ensures forall i, j | 0 <= i < 2 * L + 1 && 0 <= j < 2 * L + 1 ::
      r[i][j] == (if Pos(i, j) == Mid(a, n) || Pos(i, j) == Phys(n) then gid else grid[i][j])
  {
    var dims := 2 * L + 1;
    PhysInterior(a, L);
    PhysInterior(n, L);
    if a.row == n.row then
      if a.col > n.col then
        Set(Set(grid, dims, Pos(t.row, t.col - 1), gid), dims, Pos(t.row, t.col - 2), gid)
      else
        Set(Set(grid, dims, Pos(t.row, t.col + 1), gid), dims, Pos(t.row, t.col + 2), gid)
    else
      if a.row > n.row then
        Set(Set(grid, dims, Pos(t.row - 1, t.col), gid), dims, Pos(t.row - 2, t.col), gid)
      else
        Set(Set(grid, dims, Pos(t.row + 1, t.col), gid), dims, Pos(t.row + 2, t.col), gid)
  }

  /** The cursor moves two physical cells from a toward the adjacent cell b. */
  function Advance(t: Pos, a: Cell, b: Cell): (r: Pos)
    requires Adjacent(a, b)
    ensures t == Phys(a) ==> r == Phys(b)
    ensures || (r.row == t.row && (r.col == t.col + 2 || r.col == t.col - 2))
            || (r.col == t.col && (r.row == t.row + 2 || r.row == t.row - 2))
  {
    if a.row == b.row then
      if a.col > b.col then Pos(t.row, t.col - 2) else Pos(t.row, t.col + 2)
    else
      if a.row > b.row then Pos(t.row - 2, t.col) else Pos(t.row + 2, t.col)
  }

  // ---------------------------------------------------------------------------
  // One outer iteration, lines 92-168

  /**
   * What one iteration needs of the state to stay inside the grid: the
   * cursor is on the image of the in-range top of the stack, and the entry
   * beneath the top (if any) is adjacent to it.
   */
  predicate Steppable(g: Gen) {
    && ShapeOk(g) && g.stack != []
    && InRange(Top(g.stack), g.logical) && Top(g.stack) in g.depth
    && g.cursor == Phys(Top(g.stack))
    && (Below(g.stack) != [] ==> Adjacent(Top(g.stack), Top(Below(g.stack))))
  }

  lemma InvSteppable(g: Gen, gid: int)
    requires Inv(g, gid) && g.stack != []
    ensures Steppable(g)
  {
    var s := g.stack;
    if |s| >= 2 {
      assert ParentBeneath(g, |s| - 1);
    }
  }

  /**
   * Pop the active cell a and mark it visited (lines 96-101); search for an
   * acceptable neighbour with the oracle's direction `first`. On a move, carve
   * toward the neighbour n, mark it visited and push a and n (lines 118-143).
   * On a dead end, pop the cell beneath, step the cursor back toward it and
   * push it again (lines 152-162); at the bottom of the stack this empties it.
   */
  function Step(g: Gen, first: DirIndex, gid: int): (r: Gen)
    requires Steppable(g)
    ensures r.dims == g.dims && r.logical == g.logical && IsSquare(r.grid, r.dims)
    ensures g.visited <= r.visited
  {
    var a := Top(g.stack);
    var rest := Below(g.stack);
    var visited := g.visited + {a};
    match ChooseDirection(Bound(g), visited, a, first)
    case Found(k, _) =>
      var n := Neighbour(a, k);
      AcceptsIff(Bound(g), visited, a, k);
      g.(grid := Carve(g.grid, g.logical, g.cursor, a, n, gid),
         cursor := Advance(g.cursor, a, n),
         stack := rest + [a, n],
         visited := visited + {n},
         parent := g.parent[n := a],
         depth := g.depth[n := g.depth[a] + 1])
    case Exhausted(_) =>
      if rest == [] then
        g.(stack := rest, visited := visited)
      else
        var p := Top(rest);
        g.(stack := rest, cursor := Advance(g.cursor, a, p), visited := visited)
  }

  /**
   * A move goes to an unvisited in-range neighbour n of the active cell a: it
   * visits exactly n, records a as n's parent, leaves n on top of the stack
   * with a directly beneath it, puts the cursor on n's image and opens
   * exactly the two physical cells between a and n.
   */
  lemma StepCarves(g: Gen, first: DirIndex, gid: int)
    requires Steppable(g) && Top(g.stack) in g.visited
    requires ChooseDirection(Bound(g), g.visited, Top(g.stack), first).Found?
    ensures var r := Step(g, first, gid);
      var a := Top(g.stack);
      var n := Neighbour(a, ChooseDirection(Bound(g), g.visited, a, first).dir);
      && InRange(n, g.logical) && n !in g.visited
      && r.visited == g.visited + {n}
      && r.parent == g.parent[n := a]
      && r.depth == g.depth[n := g.depth[a] + 1]
      && r.stack == g.stack + [n]
      && r.cursor == Phys(n)
      && forall i, j | 0 <= i < g.dims && 0 <= j < g.dims ::
           r.grid[i][j] == (if Pos(i, j) == Mid(a, n) || Pos(i, j) == Phys(n) then gid else g.grid[i][j])
  {
    var a := Top(g.stack);
    assert g.visited + {a} == g.visited;
    assert g.stack == Below(g.stack) + [a];
    AcceptsIff(Bound(g), g.visited, a, ChooseDirection(Bound(g), g.visited, a, first).dir);
  }

  /**
   * A dead end changes neither the grid nor the tree: it pops the active cell
   * and leaves the cursor on the image of the entry beneath it, which becomes
   * the new top.
   */
  lemma StepBacktracks(g: Gen, first: DirIndex, gid: int)
    requires Steppable(g) && Top(g.stack) in g.visited
    requires ChooseDirection(Bound(g), g.visited, Top(g.stack), first).Exhausted?
    ensures var r := Step(g, first, gid);
      && r.visited == g.visited && r.parent == g.parent && r.depth == g.depth && r.grid == g.grid
      && r.stack == Below(g.stack)
      && (r.stack != [] ==> r.cursor == Phys(Top(r.stack)))
  {
    var a := Top(g.stack);
    var rest := Below(g.stack);
    var visited := g.visited + {a};
    assert visited == g.visited;
    assert ChooseDirection(Bound(g), visited, a, first).Exhausted?;
    if rest == [] {
      assert Step(g, first, gid) == g.(stack := rest);
    } else {
      assert Step(g, first, gid) == g.(stack := rest, cursor := Advance(g.cursor, a, Top(rest)));
    }
  }

  // ---------------------------------------------------------------------------
  // The invariant is kept by every iteration

  /** r's tree, stack and cursor are g's after a move from the top of g's stack to n. */
  predicate CarvedTree(g: Gen, r: Gen, n: Cell)
    requires g.stack != []
  {
    var a := Top(g.stack);
    && r.logical == g.logical
    && Adjacent(a, n) && InRange(n, g.logical) && n !in g.visited && a in g.depth
    && r.visited == g.visited + {n}
    && r.parent == g.parent[n := a]
    && r.depth == g.depth[n := g.depth[a] + 1]
    && r.stack == g.stack + [n]
    && r.cursor == Phys(n)
  }

  /** r's grid is g's after opening the two cells from the top of g's stack toward n. */
  predicate CarvedGrid(g: Gen, r: Gen, n: Cell, gid: int)
    requires ShapeOk(g) && g.stack != [] && Adjacent(Top(g.stack), n)
  {
    && r.dims == g.dims && IsSquare(r.grid, r.dims)
    && forall i, j | 0 <= i < g.dims && 0 <= j < g.dims ::
         r.grid[i][j] == (if Pos(i, j) == Mid(Top(g.stack), n) || Pos(i, j) == Phys(n) then gid else g.grid[i][j])
  }

  /** r is g after a dead end at the top of g's stack. */
  predicate Backtracked(g: Gen, r: Gen)
    requires g.stack != []
  {
    && r.dims == g.dims && r.logical == g.logical
    && r.visited == g.visited && r.parent == g.parent && r.depth == g.depth && r.grid == g.grid
    && r.stack == Below(g.stack)
    && (r.stack != [] ==> r.cursor == Phys(Top(r.stack)))
    && forall k: DirIndex :: !Accepts(Bound(g), g.visited, Neighbour(Top(g.stack), k))
  }

  /** Opening n from a adds exactly n's image and the wall between a and n to the drawing. */
  lemma OpenAfterCarve(visited: set<Cell>, parent: map<Cell, Cell>, a: Cell, n: Cell, p: Pos)
    requires a in visited && n !in visited && Adjacent(a, n)
    requires forall v | v in parent :: v in visited && parent[v] in visited
    ensures OpenAt(visited + {n}, parent[n := a], p) <==> OpenAt(visited, parent, p) || p == Phys(n) || p == Mid(a, n)
  {
    var parent' := parent[n := a];
    if p.row % 2 == 1 && p.col % 2 == 1 {
      assert p == Phys(Logical(p));
    } else if p.row % 2 == 1 {
      var u := Cell((p.row + 1) / 2, p.col / 2);
      var w := Cell((p.row + 1) / 2, p.col / 2 + 1);
      assert p == Mid(a, n) <==> (u == a && w == n) || (u == n && w == a);
      assert Linked(parent', u, w) <==> Linked(parent, u, w) || (u == a && w == n) || (u == n && w == a);
    } else if p.col % 2 == 1 {
      var u := Cell(p.row / 2, (p.col + 1) / 2);
      var w := Cell(p.row / 2 + 1, (p.col + 1) / 2);
      assert p == Mid(a, n) <==> (u == a && w == n) || (u == n && w == a);
      assert Linked(parent', u, w) <==> Linked(parent, u, w) || (u == a && w == n) || (u == n && w == a);
    }
  }

  lemma CarveKeepsTree(g: Gen, r: Gen, n: Cell)
    requires TreeOk(g) && g.stack != [] && Top(g.stack) in g.visited && CarvedTree(g, r, n)
    ensures TreeOk(r)
  {
    var a := Top(g.stack);
    assert r.parent.Keys == r.visited - {Start};
    forall v | v in r.parent
      ensures r.parent[v] in r.visited && Adjacent(v, r.parent[v])
      ensures r.depth[v] == r.depth[r.parent[v]] + 1
    {
      if v != n {
        assert r.parent[v] == g.parent[v] && g.parent[v] != n;
      }
    }
  }

  lemma CarveKeepsStack(g: Gen, r: Gen, n: Cell)
    requires StackOk(g) && g.stack != [] && CarvedTree(g, r, n)
    ensures StackOk(r)
  {
    var a := Top(g.stack);
    var m := |g.stack|;
    assert g.stack[m - 1] == a;
    assert a in g.visited && g.depth[a] == m - 1;
    assert r.stack[0] == g.stack[0];
    assert Top(r.stack) == n;
    forall i | 0 <= i < |r.stack|
      ensures r.stack[i] in r.visited && r.stack[i] in r.depth && r.depth[r.stack[i]] == i
    {
      if i < m {
        assert r.stack[i] == g.stack[i];
        assert g.stack[i] in g.visited && g.stack[i] in g.depth && g.depth[g.stack[i]] == i;
        assert g.stack[i] != n;
      } else {
        assert r.stack[i] == n;
      }
    }
    forall i | 0 < i < |r.stack|
      ensures ParentBeneath(r, i)
    {
      if i < m {
        assert r.stack[i] == g.stack[i] && r.stack[i - 1] == g.stack[i - 1];
        assert g.stack[i] in g.visited;
        assert ParentBeneath(g, i);
      } else {
        assert r.stack[i] == n && r.stack[i - 1] == a;
      }
    }
  }

  lemma CarveKeepsFinished(g: Gen, r: Gen, n: Cell)
    requires FinishedOk(g) && g.stack != [] && CarvedTree(g, r, n)
    ensures FinishedOk(r)
  {
    forall v | v in r.visited && v !in r.stack
      ensures Closed(r, v)
    {
      assert v in g.visited && v !in g.stack;
      assert Closed(g, v);
    }
  }

  lemma CarveKeepsGrid(g: Gen, r: Gen, n: Cell, gid: int)
    requires ShapeOk(g) && TreeOk(g) && GridOk(g, gid) && g.stack != [] && Top(g.stack) in g.visited
    requires CarvedTree(g, r, n) && CarvedGrid(g, r, n, gid)
    ensures ShapeOk(r) && GridOk(r, gid)
  {
    var a := Top(g.stack);
    forall i, j | 0 <= i < r.dims && 0 <= j < r.dims
      ensures r.grid[i][j] == (if OpenAt(r.visited, r.parent, Pos(i, j)) then gid else 0)
    {
      OpenAfterCarve(g.visited, g.parent, a, n, Pos(i, j));
    }
  }

  lemma CarveDecreases(g: Gen, r: Gen, n: Cell)
    requires g.stack != [] && CarvedTree(g, r, n)
    ensures Measure(r) < Measure(g)
  {
    var all := AllCells(g.logical);
    assert (all - r.visited) + {n} == all - g.visited;
  }

  lemma BacktrackKeepsStack(g: Gen, r: Gen)
    requires StackOk(g) && g.stack != [] && Backtracked(g, r)
    ensures StackOk(r)
  {
    forall i | 0 <= i < |r.stack|
      ensures r.stack[i] in r.visited && r.stack[i] in r.depth && r.depth[r.stack[i]] == i
    {
      assert r.stack[i] == g.stack[i];
    }
    forall i | 0 < i < |r.stack|
      ensures ParentBeneath(r, i)
    {
      assert r.stack[i] == g.stack[i] && r.stack[i - 1] == g.stack[i - 1];
      assert ParentBeneath(g, i);
    }
  }

  lemma BacktrackKeepsFinished(g: Gen, r: Gen)
    requires FinishedOk(g) && g.stack != [] && Backtracked(g, r)
    requires InRange(Top(g.stack), g.logical)
    ensures FinishedOk(r)
  {
    var a := Top(g.stack);
    assert g.stack == r.stack + [a];
    forall v | v in r.visited && v !in r.stack
      ensures Closed(r, v)
    {
      if v == a {
        forall k: DirIndex | InRange(Neighbour(v, k), r.logical)
          ensures Neighbour(v, k) in r.visited
        {
          AcceptsIff(Bound(g), g.visited, a, k);
        }
      } else {
        assert v !in g.stack;
        assert Closed(g, v);
      }
    }
  }

  lemma BacktrackKeepsTree(g: Gen, r: Gen, gid: int)
    requires ShapeOk(g) && TreeOk(g) && GridOk(g, gid) && g.stack != [] && Backtracked(g, r)
    ensures ShapeOk(r) && TreeOk(r) && GridOk(r, gid)
  {
  }

  lemma BacktrackDecreases(g: Gen, r: Gen)
    requires g.stack != [] && Backtracked(g, r)
    ensures Measure(r) < Measure(g)
  {
  }

  lemma StepKeepsInvCarving(g: Gen, first: DirIndex, gid: int)
    requires Inv(g, gid) && g.stack != []
    requires ChooseDirection(Bound(g), g.visited, Top(g.stack), first).Found?
    ensures Steppable(g)
    ensures Inv(Step(g, first, gid), gid)
    ensures Measure(Step(g, first, gid)) < Measure(g)
  {
    InvSteppable(g, gid);
    var a := Top(g.stack);
    var r := Step(g, first, gid);
    var n := Neighbour(a, ChooseDirection(Bound(g), g.visited, a, first).dir);
    StepCarves(g, first, gid);
    assert CarvedTree(g, r, n) && CarvedGrid(g, r, n, gid);
    CarveKeepsTree(g, r, n);
    CarveKeepsStack(g, r, n);
    CarveKeepsFinished(g, r, n);
    CarveKeepsGrid(g, r, n, gid);
    CarveDecreases(g, r, n);
  }

  lemma StepKeepsInvBacktracking(g: Gen, first: DirIndex, gid: int)
    requires Inv(g, gid) && g.stack != []
    requires ChooseDirection(Bound(g), g.visited, Top(g.stack), first).Exhausted?
    ensures Steppable(g)
    ensures Inv(Step(g, first, gid), gid)
    ensures Measure(Step(g, first, gid)) < Measure(g)
  {
    InvSteppable(g, gid);
    var r := Step(g, first, gid);
    StepBacktracks(g, first, gid);
    assert Backtracked(g, r);
    BacktrackKeepsTree(g, r, gid);
    BacktrackKeepsStack(g, r);
    BacktrackKeepsFinished(g, r);
    BacktrackDecreases(g, r);
  }

  /** One iteration keeps the invariant and consumes the measure. */
  lemma StepKeepsInv(g: Gen, first: DirIndex, gid: int)
    requires Inv(g, gid) && g.stack != []
    ensures Steppable(g)
    ensures Inv(Step(g, first, gid), gid)
    ensures Measure(Step(g, first, gid)) < Measure(g)
  {
    if ChooseDirection(Bound(g), g.visited, Top(g.stack), first).Found? {
      StepKeepsInvCarving(g, first, gid);
    } else {
      StepKeepsInvBacktracking(g, first, gid);
    }
  }

  /**
   * The array stack of push and pop (source/generator/generator.cxx:62-78)
   * follows the model's stack: when its entries are the model's stack, the
   * pops and pushes of one iteration leave it holding the next state's stack.
   * A move runs Frames.MoveFrames, a dead end Frames.BacktrackFrames.
   */
  lemma StepFrames(g: Gen, first: DirIndex, gid: int, s: Frames.FrameStack, stale: Cell)
    requires Steppable(g) && Top(g.stack) in g.visited
    requires 0 <= s.index < |s.slots| && Frames.Contents(s) == g.stack
    ensures var choice := ChooseDirection(Bound(g), g.visited, Top(g.stack), first);
      && (choice.Found? ==>
            Frames.Contents(Frames.MoveFrames(s, Neighbour(Top(g.stack), choice.dir))) == Step(g, first, gid).stack)
      && (choice.Exhausted? ==>
            Frames.Contents(Frames.BacktrackFrames(s, stale)) == Step(g, first, gid).stack)
  {
    if ChooseDirection(Bound(g), g.visited, Top(g.stack), first).Found? {
      StepCarves(g, first, gid);
    } else {
      StepBacktracks(g, first, gid);
    }
  }
}
