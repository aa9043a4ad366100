/**
 * Mapper::map (source/mapper/mapper.cxx:75-133): every open cell of the maze
 * is overwritten, in place and in row-major order, with the tile id of the
 * shape its four cardinal neighbours form.
 */
module Mapper {
  import opened Wrappers
  import opened Geometry
  import opened Grids
  import opened Tiles

  /** getGIDFromJson: the configured tile id of each category. */
  type TileIds = Category -> int

  /** The open/wall state of the four cardinal neighbours of p (the diagonal reads are never consulted). */
  function NeighbourhoodAt(g: Grid, dims: int, p: Pos): Nbhd
    requires IsSquare(g, dims) && Interior(p, dims)
  {
    Nbhd(g[p.row - 1][p.col] != 0, g[p.row + 1][p.col] != 0, g[p.row][p.col - 1] != 0, g[p.row][p.col + 1] != 0)
  }

  /**
   * The value Mapper::map leaves at p when it reaches p in grid g: walls are
   * skipped, an open cell takes the id of its first matching category and
   * keeps its value when nothing matches.
   */
  function Tile(g: Grid, dims: int, ids: TileIds, p: Pos): int
    requires IsSquare(g, dims) && InBounds(p, dims)
  {
    if g[p.row][p.col] == 0 || !Interior(p, dims) then
      g[p.row][p.col]
    else
      match Classify(NeighbourhoodAt(g, dims, p))
      case Some(c) => ids(c)
      case None => g[p.row][p.col]
  }

  /**
   * The classified grid, every cell retiled against the ORIGINAL maze (every
   * neighbour read taken before any write).
   */
  function ClassifyGrid(g: Grid, dims: int, ids: TileIds): (r: Grid)
    requires IsSquare(g, dims)
    ensures IsSquare(r, dims)
    ensures forall i, j | 0 <= i < dims && 0 <= j < dims :: r[i][j] == Tile(g, dims, ids, Pos(i, j))
  {
    seq(dims, i requires 0 <= i < dims => seq(dims, j requires 0 <= j < dims => Tile(g, dims, ids, Pos(i, j))))
  }

  /** No configured id is 0, so a retiled cell stays open. */
  predicate NonZeroIds(ids: TileIds) {
    forall c :: ids(c) != 0
  }

  /** The tile of a cell depends only on its own value and on which of its neighbours are open. */
  lemma TileDependsOnOpenness(g: Grid, h: Grid, dims: int, ids: TileIds, p: Pos)
    requires IsSquare(g, dims) && IsSquare(h, dims) && InBounds(p, dims)
    requires g[p.row][p.col] == h[p.row][p.col]
    requires Interior(p, dims) ==>
      && (g[p.row - 1][p.col] != 0) == (h[p.row - 1][p.col] != 0)
      && (g[p.row + 1][p.col] != 0) == (h[p.row + 1][p.col] != 0)
      && (g[p.row][p.col - 1] != 0) == (h[p.row][p.col - 1] != 0)
      && (g[p.row][p.col + 1] != 0) == (h[p.row][p.col + 1] != 0)
    ensures Tile(g, dims, ids, p) == Tile(h, dims, ids, p)
  {
    if Interior(p, dims) {
      assert NeighbourhoodAt(g, dims, p) == NeighbourhoodAt(h, dims, p);
    }
  }

  /** With non-zero ids a tile is open exactly when the cell was. */
  lemma TileKeepsOpenness(g: Grid, dims: int, ids: TileIds, p: Pos)
    requires IsSquare(g, dims) && InBounds(p, dims) && NonZeroIds(ids)
    ensures (Tile(g, dims, ids, p) != 0) == (g[p.row][p.col] != 0)
  {
  }

  /**
   * The body of the inner loop (source/mapper/mapper.cxx:79-130) at p: a wall
   * is skipped; an open cell is overwritten with the id of the first matching
   * category, or left alone when none matches. Only p is written.
   */
  function Retile(g: Grid, dims: int, ids: TileIds, p: Pos): (r: Grid)
    requires IsSquare(g, dims) && InBounds(p, dims)
    requires g[p.row][p.col] != 0 ==> Interior(p, dims)
    ensures IsSquare(r, dims)
    ensures r[p.row][p.col] == Tile(g, dims, ids, p)
    ensures forall i, j | 0 <= i < dims && 0 <= j < dims && Pos(i, j) != p :: r[i][j] == g[i][j]
  {
    if g[p.row][p.col] == 0 then
      g
    else
      match Classify(NeighbourhoodAt(g, dims, p))
      case Some(c) => Set(g, dims, p, ids(c))
      case None => g
  }

  /**
   * One pass of the inner loop (source/mapper/mapper.cxx:77-131) over row ii of
   * cur, writing each tile back before the next cell reads its west neighbour.
   */
  method MapRow(cur: Grid, dims: int, ids: TileIds, ii: int) returns (next: Grid)
    requires IsSquare(cur, dims) && Bordered(cur, dims) && 0 <= ii < dims
    ensures IsSquare(next, dims)
    ensures forall i, j | 0 <= i < dims && 0 <= j < dims && i != ii :: next[i][j] == cur[i][j]
    ensures forall j | 0 <= j < dims && cur[ii][j] == 0 :: next[ii][j] == 0
    ensures NonZeroIds(ids) ==> forall j | 0 <= j < dims :: next[ii][j] == Tile(cur, dims, ids, Pos(ii, j))
  {
    next := cur;
    var jj := 0;
    while jj < dims
      invariant 0 <= jj <= dims
      invariant IsSquare(next, dims)
      invariant forall i, j | 0 <= i < dims && 0 <= j < dims && (i != ii || jj <= j) :: next[i][j] == cur[i][j]
      invariant forall j | 0 <= j < jj && cur[ii][j] == 0 :: next[ii][j] == 0
      invariant NonZeroIds(ids) ==> forall j | 0 <= j < jj :: next[ii][j] == Tile(cur, dims, ids, Pos(ii, j))
    {
      var p := Pos(ii, jj);
      ghost var before := next;
      next := Retile(next, dims, ids, p);
      if NonZeroIds(ids) {
        if 0 < jj {
          TileKeepsOpenness(cur, dims, ids, Pos(ii, jj - 1));
        }
        TileDependsOnOpenness(before, cur, dims, ids, p);
      }
      jj := jj + 1;
    }
  }

  /**
   * Mapper::map: retile the whole maze in place, row by row. The border must be
   * all walls, since the neighbour reads of an open border cell would leave
   * the matrix. Walls stay walls whatever the ids; when no id is 0 the
   * in-place update agrees with classifying the original maze.
   */
  method MapTiles(maze: Grid, dims: int, ids: TileIds) returns (out: Grid)
    requires IsSquare(maze, dims) && Bordered(maze, dims)
    ensures IsSquare(out, dims)
    ensures forall i, j | 0 <= i < dims && 0 <= j < dims && maze[i][j] == 0 :: out[i][j] == 0
    ensures NonZeroIds(ids) ==> out == ClassifyGrid(maze, dims, ids)
  {
    out := maze;
    var ii := 0;
    while ii < dims
      invariant 0 <= ii <= dims
      invariant IsSquare(out, dims) && Bordered(out, dims)
      invariant forall i, j | ii <= i < dims && 0 <= j < dims :: out[i][j] == maze[i][j]
      invariant forall i, j | 0 <= i < dims && 0 <= j < dims && maze[i][j] == 0 :: out[i][j] == 0
      invariant NonZeroIds(ids) ==> forall i, j | 0 <= i < ii && 0 <= j < dims :: out[i][j] == Tile(maze, dims, ids, Pos(i, j))
    {
      ghost var before := out;
      out := MapRow(out, dims, ids, ii);
      if NonZeroIds(ids) {
        RowSeesOriginal(maze, before, dims, ids, ii);
      }
      ii := ii + 1;
    }
    if NonZeroIds(ids) {
      GridsEqual(out, ClassifyGrid(maze, dims, ids), dims);
    }
  }

  /**
   * Before row ii is retiled, the rows above it hold tiles and the rows from ii
   * on are untouched; with non-zero ids every cell is still open exactly where
   * the maze was, so row ii sees the neighbourhoods of the original maze.
   */
  lemma RowSeesOriginal(maze: Grid, cur: Grid, dims: int, ids: TileIds, ii: int)
    requires IsSquare(maze, dims) && IsSquare(cur, dims) && 0 <= ii < dims && NonZeroIds(ids)
    requires forall i, j | ii <= i < dims && 0 <= j < dims :: cur[i][j] == maze[i][j]
    requires forall i, j | 0 <= i < ii && 0 <= j < dims :: cur[i][j] == Tile(maze, dims, ids, Pos(i, j))
    ensures forall j | 0 <= j < dims :: Tile(cur, dims, ids, Pos(ii, j)) == Tile(maze, dims, ids, Pos(ii, j))
  {
    forall j | 0 <= j < dims
      ensures Tile(cur, dims, ids, Pos(ii, j)) == Tile(maze, dims, ids, Pos(ii, j))
    {
      if 0 < ii && 0 < j < dims - 1 {
        TileKeepsOpenness(maze, dims, ids, Pos(ii - 1, j));
      }
      TileDependsOnOpenness(cur, maze, dims, ids, Pos(ii, j));
    }
  }

  lemma GridsEqual(g: Grid, h: Grid, dims: int)
    requires IsSquare(g, dims) && IsSquare(h, dims)
    requires forall i, j | 0 <= i < dims && 0 <= j < dims :: g[i][j] == h[i][j]
    ensures g == h
  {
    forall i | 0 <= i < dims
      ensures g[i] == h[i]
    {
    }
  }
}
