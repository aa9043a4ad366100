/**
 * The two coordinate spaces of the carving engine (source/generator/generator.cxx).
 *
 * A logical cell is a node of the spanning tree; the generator's `visited`
 * matrix and its frontier stack are indexed by logical cells, which range over
 * 1..L for a maze of logical size L. A physical position indexes the output
 * grid. Logical cell (r, c) is drawn at physical position (2r-1, 2c-1), and the
 * wall between two adjacent cells sits at the midpoint of their images.
 */
module Geometry {

  /** A node of the logical cell grid. */
  datatype Cell = Cell(row: int, col: int)

  /** A position of the physical output grid. */
  datatype Pos = Pos(row: int, col: int)

  /** An index into the four-entry neighbour table. */
  type DirIndex = k: int | 0 <= k < 4

  /** Row component of the neighbour table entry k: 0 is north, 1 east, 2 south, 3 west. */
  function DeltaRow(k: DirIndex): int {
    if k == 0 then -1 else if k == 2 then 1 else 0
  }

  /** Column component of the neighbour table entry k. */
  function DeltaCol(k: DirIndex): int {
    if k == 1 then 1 else if k == 3 then -1 else 0
  }

  /** The candidate neighbour of c in direction k. */
  function Neighbour(c: Cell, k: DirIndex): (n: Cell)
    ensures Adjacent(c, n)
  {
    Cell(c.row + DeltaRow(k), c.col + DeltaCol(k))
  }

  /** Two logical cells one step apart along exactly one axis. */
  predicate Adjacent(a: Cell, b: Cell) {
    || (a.row == b.row && (a.col == b.col + 1 || b.col == a.col + 1))
    || (a.col == b.col && (a.row == b.row + 1 || b.row == a.row + 1))
  }

  /** Every adjacent cell is reached by exactly one entry of the neighbour table. */
  lemma NeighbourTableComplete(a: Cell, b: Cell)
    requires Adjacent(a, b)
    ensures exists k: DirIndex :: Neighbour(a, k) == b
    ensures forall k: DirIndex, k': DirIndex :: Neighbour(a, k) == b && Neighbour(a, k') == b ==> k == k'
  {
    if b.row == a.row - 1 {
      assert Neighbour(a, 0) == b;
    } else if b.row == a.row + 1 {
      assert Neighbour(a, 2) == b;
    } else if b.col == a.col + 1 {
      assert Neighbour(a, 1) == b;
    } else {
      assert Neighbour(a, 3) == b;
    }
  }

  /** A logical cell of a maze of logical size L. */
  predicate InRange(c: Cell, L: int) {
    1 <= c.row <= L && 1 <= c.col <= L
  }

  /** A physical position strictly inside the border ring of a dims x dims grid. */
  predicate Interior(p: Pos, dims: int) {
    1 <= p.row <= dims - 2 && 1 <= p.col <= dims - 2
  }

  /** The physical image of a logical cell. */
  function Phys(c: Cell): (p: Pos)
    ensures p.row % 2 == 1 && p.col % 2 == 1
    ensures Logical(p) == c
  {
    Pos(2 * c.row - 1, 2 * c.col - 1)
  }

  /** The logical cell drawn at a physical position with odd coordinates. */
  function Logical(p: Pos): Cell {
    Cell((p.row + 1) / 2, (p.col + 1) / 2)
  }

  /** The physical wall cell between two adjacent logical cells. */
  function Mid(a: Cell, b: Cell): (p: Pos)
    requires Adjacent(a, b)
    ensures (p.row % 2 == 1) != (p.col % 2 == 1)
  {
    Pos(a.row + b.row - 1, a.col + b.col - 1)
  }

  /** The images of logical cells in range lie inside the border ring of a (2L+1) x (2L+1) grid. */
  lemma PhysInterior(c: Cell, L: int)
    requires InRange(c, L)
    ensures Interior(Phys(c), 2 * L + 1)
  {
  }

  /** The wall between two in-range cells lies inside the border ring as well. */
  lemma MidInterior(a: Cell, b: Cell, L: int)
    requires InRange(a, L) && InRange(b, L) && Adjacent(a, b)
    ensures Interior(Mid(a, b), 2 * L + 1)
  {
  }

  lemma HalfOdd(x: int)
    requires x % 2 == 1
    ensures x == 2 * ((x + 1) / 2) - 1
  {
  }

  lemma HalfEven(x: int)
    requires x % 2 == 0
    ensures x == 2 * (x / 2)
  {
  }

  /** A position with two odd coordinates is the image of a logical cell. */
  lemma CellAt(p: Pos)
    requires p.row % 2 == 1 && p.col % 2 == 1
    ensures Phys(Logical(p)) == p
  {
    HalfOdd(p.row);
    HalfOdd(p.col);
  }

  /** A position with exactly one odd coordinate is the wall between two adjacent cells. */
  lemma PassageAt(p: Pos) returns (a: Cell, b: Cell)
    requires (p.row % 2 == 1) != (p.col % 2 == 1)
    ensures Adjacent(a, b) && Mid(a, b) == p
  {
    if p.row % 2 == 1 {
      HalfOdd(p.row);
      HalfEven(p.col);
      a := Cell((p.row + 1) / 2, p.col / 2);
      b := Cell((p.row + 1) / 2, p.col / 2 + 1);
    } else {
      HalfEven(p.row);
      HalfOdd(p.col);
      a := Cell(p.row / 2, (p.col + 1) / 2);
      b := Cell(p.row / 2 + 1, (p.col + 1) / 2);
    }
  }

  /** The cells of row r with columns 1..C. */
  function RowCells(r: int, C: nat): set<Cell> {
    set c | 1 <= c <= C :: Cell(r, c)
  }

  /** The cells with rows 1..R and columns 1..C. */
  function Block(R: nat, C: nat): set<Cell> {
    set r, c | 1 <= r <= R && 1 <= c <= C :: Cell(r, c)
  }

  /** All logical cells of a maze of logical size L. */
  function AllCells(L: nat): (s: set<Cell>)
    ensures forall c :: c in s <==> InRange(c, L)
  {
    Block(L, L)
  }

  lemma {:induction false} RowCellsCard(r: int, C: nat)
    ensures |RowCells(r, C)| == C
  {
    if C > 0 {
      RowCellsCard(r, C - 1);
      assert RowCells(r, C) == RowCells(r, C - 1) + {Cell(r, C)};
    } else {
      assert RowCells(r, C) == {};
    }
  }

  /** A block is the block one row shorter plus its last row, which it does not already hold. */
  lemma BlockLastRow(R: nat, C: nat)
    requires R > 0
    ensures Block(R, C) == Block(R - 1, C) + RowCells(R, C)
    ensures Block(R - 1, C) !! RowCells(R, C)
  {
  }

  lemma {:induction false} BlockCard(R: nat, C: nat)
    ensures |Block(R, C)| == R * C
  {
    if R > 0 {
      BlockCard(R - 1, C);
      RowCellsCard(R, C);
      BlockLastRow(R, C);
      assert (R - 1) * C + C == R * C;
    } else {
      assert Block(R, C) == {};
    }
  }

  /** A maze of logical size L has exactly L*L logical cells. */
  lemma AllCellsCard(L: nat)
    ensures |AllCells(L)| == L * L
  {
    BlockCard(L, L);
  }
}
