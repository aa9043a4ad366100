/** The D x D integer matrix both algorithms work on: 0 is a wall, any other value an open tile. */
module Grids {
  import opened Geometry

  type Grid = seq<seq<int>>

  /** g has dims rows of dims entries each. */
  predicate IsSquare(g: Grid, dims: int) {
    |g| == dims && forall i | 0 <= i < |g| :: |g[i]| == dims
  }

  /** p indexes an entry of a dims x dims grid. */
  predicate InBounds(p: Pos, dims: int) {
    0 <= p.row < dims && 0 <= p.col < dims
  }

  /** The dims x dims grid of walls (the matrix the generator starts from). */
  function Walls(dims: nat): (g: Grid)
    ensures IsSquare(g, dims)
    ensures forall i, j | 0 <= i < dims && 0 <= j < dims :: g[i][j] == 0
  {
    seq(dims, i => seq(dims, j => 0))
  }

  /** g with the entry at p replaced by v. */
  function Set(g: Grid, dims: int, p: Pos, v: int): (r: Grid)
    requires IsSquare(g, dims) && InBounds(p, dims)
    ensures IsSquare(r, dims)
    ensures r[p.row][p.col] == v
    ensures forall i, j | 0 <= i < dims && 0 <= j < dims && Pos(i, j) != p :: r[i][j] == g[i][j]
    ensures g[p.row][p.col] == v ==> r == g
  {
    if g[p.row][p.col] == v then
      assert g[p.row][p.col := v] == g[p.row];
      g[p.row := g[p.row][p.col := v]]
    else
      g[p.row := g[p.row][p.col := v]]
  }

  /** Every entry on the outer ring (row or column 0 or dims-1) is a wall. */
  predicate Bordered(g: Grid, dims: int)
    requires IsSquare(g, dims)
  {
    forall i, j | 0 <= i < dims && 0 <= j < dims && (i == 0 || j == 0 || i == dims - 1 || j == dims - 1) :: g[i][j] == 0
  }
}
