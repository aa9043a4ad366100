/**
 * One outer iteration's search for a move (source/generator/generator.cxx:103-150).
 *
 * The source draws random indices into the neighbour table until it finds an
 * acceptable neighbour or decides it is at a dead end, and records each
 * direction it evaluated in a "tried" flag (n_matrix_[k][2]). Here the random
 * draws are replaced by an oracle index `first`: the directions are tried in
 * the rotation first, first+1, first+2, first+3 (mod 4), each at most once, and
 * the iteration is a dead end exactly when all four were tried and none was
 * accepted. Because the first try is always `first`, every acceptable direction
 * is reachable by some oracle value (lemma ChooseAcceptedFirst).
 */
module Directions {
  import opened Geometry

  /** The four tried flags, one per entry of the neighbour table. */
  type Flags = f: seq<bool> | |f| == 4 witness [false, false, false, false]

  /** The flags as they are reset at the end of every outer iteration (lines 164-167). */
  const Cleared: Flags := [false, false, false, false]

  /** The dead-end counter: the number of flags that are set (lines 146-147). */
  function Counter(f: Flags): (n: nat)
    ensures n <= 4
    ensures n == 4 <==> forall k: DirIndex :: f[k]
  {
    (if f[0] then 1 else 0) + (if f[1] then 1 else 0) + (if f[2] then 1 else 0) + (if f[3] then 1 else 0)
  }

  /**
   * The guard of lines 115-117: the candidate is not on or beyond the outer
   * logical ring (row or column 0 or bound-1) and not yet visited.
   */
  predicate Accepts(bound: int, visited: set<Cell>, n: Cell) {
    && !(n.row < 0 || n.col < 0 || (n.row == 0 || n.col == 0 || n.row == bound - 1 || n.col == bound - 1))
    && n !in visited
  }

  /** The first half of the guard (lines 115-116): not on or beyond the outer logical ring. */
  predicate InsideRing(bound: int, n: Cell) {
    !(n.row < 0 || n.col < 0 || (n.row == 0 || n.col == 0 || n.row == bound - 1 || n.col == bound - 1))
  }

  /**
   * For a neighbour of an in-range cell, the guard accepts exactly the
   * unvisited cells with row and column in 1..bound-2.
   */
  lemma AcceptsIff(bound: int, visited: set<Cell>, a: Cell, k: DirIndex)
    requires InRange(a, bound - 2)
    ensures Accepts(bound, visited, Neighbour(a, k)) <==>
      (InRange(Neighbour(a, k), bound - 2) && Neighbour(a, k) !in visited)
  {
  }

  /** The outcome of one iteration's search, with the flags it set. */
  datatype Probe = Found(dir: DirIndex, flags: Flags) | Exhausted(flags: Flags)

  /** The i-th direction tried when the oracle says `first`. */
  function Try(first: DirIndex, i: int): DirIndex
    requires 0 <= i < 4
  {
    if first + i < 4 then first + i else first + i - 4
  }

  /** The position of direction k in the rotation that starts at `first`. */
  function Slot(first: DirIndex, k: DirIndex): (j: int)
    ensures 0 <= j < 4 && Try(first, j) == k
  {
    if first <= k then k - first else k - first + 4
  }

  /** Distinct positions of the rotation name distinct directions. */
  lemma TryInjective(first: DirIndex)
    ensures forall i, j | 0 <= i < 4 && 0 <= j < 4 && Try(first, i) == Try(first, j) :: i == j
  {
  }

  /**
   * Tries directions i, i+1, .. of the rotation. The first i have been tried
   * and rejected already and their flags are set; the others are clear.
   */
  function Search(bound: int, visited: set<Cell>, a: Cell, first: DirIndex, i: nat, flags: Flags): (r: Probe)
    requires i <= 4
    requires forall j | 0 <= j < 4 :: flags[Try(first, j)] == (j < i)
    requires forall j | 0 <= j < i :: !Accepts(bound, visited, Neighbour(a, Try(first, j)))
    ensures r.Found? ==> Accepts(bound, visited, Neighbour(a, r.dir)) && r.flags[r.dir]
    ensures r.Exhausted? <==> forall k: DirIndex :: !Accepts(bound, visited, Neighbour(a, k))
    ensures r.Exhausted? ==> Counter(r.flags) == 4
    decreases 4 - i
  {
    TryInjective(first);
    if i == 4 then
      assert forall k: DirIndex :: flags[k] && !Accepts(bound, visited, Neighbour(a, k)) by {
        forall k: DirIndex ensures flags[k] && !Accepts(bound, visited, Neighbour(a, k)) {
          var j := Slot(first, k);
          assert flags[Try(first, j)] == (j < i);
          assert !Accepts(bound, visited, Neighbour(a, Try(first, j)));
        }
      }
      Exhausted(flags)
    else
      var k := Try(first, i);
      var flags' := flags[k := true];
      if Accepts(bound, visited, Neighbour(a, k)) then Found(k, flags')
      else Search(bound, visited, a, first, i + 1, flags')
  }

  /**
   * One iteration's choice, starting from cleared flags. A move is found
   * exactly when some direction is acceptable; a dead end leaves all four
   * flags set, which is the source's `counter == 4`.
   */
  function ChooseDirection(bound: int, visited: set<Cell>, a: Cell, first: DirIndex): (r: Probe)
    ensures r.Found? ==> Accepts(bound, visited, Neighbour(a, r.dir)) && r.flags[r.dir]
    ensures r.Exhausted? <==> forall k: DirIndex :: !Accepts(bound, visited, Neighbour(a, k))
    ensures r.Exhausted? ==> Counter(r.flags) == 4
  {
    TryInjective(first);
    Search(bound, visited, a, first, 0, Cleared)
  }

  /** The oracle can steer the search to any acceptable direction: the first try wins. */
  lemma ChooseAcceptedFirst(bound: int, visited: set<Cell>, a: Cell, k: DirIndex)
    requires Accepts(bound, visited, Neighbour(a, k))
    ensures ChooseDirection(bound, visited, a, k).Found?
    ensures ChooseDirection(bound, visited, a, k).dir == k
    ensures Counter(ChooseDirection(bound, visited, a, k).flags) == 1
  {
    assert Try(k, 0) == k;
  }

  // ---------------------------------------------------------------------------
  // The inner loop as written, lines 93 and 103-150

  /** The variables of the inner loop: the tried flags, `counter` and `k` (a move was made). */
  datatype Probing = Probing(flags: Flags, counter: int, moved: bool)

  /**
   * One pass of the inner loop body with the drawn index k: set k's flag; an
   * acceptable neighbour is a move; an in-ring visited neighbour recomputes the
   * counter; a neighbour outside the ring changes nothing else.
   */
  function ProbeAsWritten(bound: int, visited: set<Cell>, a: Cell, s: Probing, k: DirIndex): (r: Probing)
    ensures r.flags == s.flags[k := true]
    ensures r.moved <==> s.moved || Accepts(bound, visited, Neighbour(a, k))
    ensures r.counter != s.counter ==> InsideRing(bound, Neighbour(a, k)) && Neighbour(a, k) in visited
    ensures InsideRing(bound, Neighbour(a, k)) && Neighbour(a, k) in visited ==> r.counter == Counter(r.flags)
  {
    var flags := s.flags[k := true];
    var n := Neighbour(a, k);
    if InsideRing(bound, n) then
      if n !in visited then Probing(flags, s.counter, true)
      else Probing(flags, Counter(flags), s.moved)
    else
      Probing(flags, s.counter, s.moved)
  }

  /** The inner loop run on the drawn indices ks while its condition `k == 0 && counter < 4` holds. */
  function ProbesAsWritten(bound: int, visited: set<Cell>, a: Cell, s: Probing, ks: seq<DirIndex>): Probing
    decreases |ks|
  {
    if |ks| == 0 || s.moved || s.counter >= 4 then s
    else ProbesAsWritten(bound, visited, a, ProbeAsWritten(bound, visited, a, s, ks[0]), ks[1..])
  }

  /** With one logical cell (bound 3) every neighbour of (1, 1) is on the outer ring. */
  lemma LoneCellBoxedIn(k: DirIndex)
    ensures !InsideRing(3, Neighbour(Cell(1, 1), k))
  {
  }

  /**
   * With one logical cell the loop as written never leaves: after any finite
   * run of draws no move was made and the counter is still 0, so the loop
   * condition still holds and the next draw follows.
   */
  lemma {:induction false} LoneCellSpins(s: Probing, ks: seq<DirIndex>)
    requires !s.moved && s.counter == 0
    ensures var r := ProbesAsWritten(3, {Cell(1, 1)}, Cell(1, 1), s, ks);
      !r.moved && r.counter == 0
    decreases |ks|
  {
    if |ks| > 0 {
      LoneCellBoxedIn(ks[0]);
      LoneCellSpins(ProbeAsWritten(3, {Cell(1, 1)}, Cell(1, 1), s, ks[0]), ks[1..]);
    }
  }

  /** The corrected search ends the same iteration with a dead end, whatever the oracle says. */
  lemma LoneCellDeadEnd(first: DirIndex)
    ensures ChooseDirection(3, {Cell(1, 1)}, Cell(1, 1), first).Exhausted?
    ensures Counter(ChooseDirection(3, {Cell(1, 1)}, Cell(1, 1), first).flags) == 4
  {
    forall k: DirIndex
      ensures !Accepts(3, {Cell(1, 1)}, Neighbour(Cell(1, 1), k))
    {
      LoneCellBoxedIn(k);
    }
  }
}
