/**
 * The fifteen tile shapes Mapper::map chooses between (source/mapper/mapper.cxx:101-130)
 * and the first-match rule that picks one from the four cardinal neighbours
 * of an open cell.
 *
 * The shape tests themselves (isCross, isHorizontalDown, ...) live in a
 * header that is not part of this model; each is defined here from its name
 * as a condition on which of north, south, west and east are open. A
 * junction, corner or straight test only asks for the arms it names, so the
 * tests overlap and their order matters; a dead-end test asks for its one
 * arm and no other.
 */
module Tiles {
  import opened Wrappers

  /** Which of the four cardinal neighbours of a cell are open (non-zero). */
  datatype Nbhd = Nbhd(north: bool, south: bool, west: bool, east: bool)

  /** The tile categories, declared in the order the source tests them. */
  datatype Category =
    | Cross
    | HorizontalDown
    | HorizontalUp
    | VerticalLeft
    | VerticalRight
    | BottomLeft
    | BottomRight
    | UpLeft
    | UpRight
    | Horizontal
    | Vertical
    | EndDown
    | EndLeft
    | EndRight
    | EndUp

  /** The position of c's test in the if/else-if chain, 0 for the first. */
  function Rank(c: Category): nat {
    match c
    case Cross => 0
    case HorizontalDown => 1
    case HorizontalUp => 2
    case VerticalLeft => 3
    case VerticalRight => 4
    case BottomLeft => 5
    case BottomRight => 6
    case UpLeft => 7
    case UpRight => 8
    case Horizontal => 9
    case Vertical => 10
    case EndDown => 11
    case EndLeft => 12
    case EndRight => 13
    case EndUp => 14
  }

  /** The shape test for category c. */
  predicate Matches(c: Category, nb: Nbhd) {
    match c
    case Cross => nb.north && nb.south && nb.west && nb.east
    case HorizontalDown => nb.south && nb.west && nb.east
    case HorizontalUp => nb.north && nb.west && nb.east
    case VerticalLeft => nb.north && nb.south && nb.west
    case VerticalRight => nb.north && nb.south && nb.east
    case BottomLeft => nb.south && nb.west
    case BottomRight => nb.south && nb.east
    case UpLeft => nb.north && nb.west
    case UpRight => nb.north && nb.east
    case Horizontal => nb.west && nb.east
    case Vertical => nb.north && nb.south
    case EndDown => nb.north && !nb.south && !nb.west && !nb.east
    case EndLeft => !nb.north && !nb.south && nb.west && !nb.east
    case EndRight => !nb.north && !nb.south && !nb.west && nb.east
    case EndUp => !nb.north && nb.south && !nb.west && !nb.east
  }

  /**
   * The if/else-if chain of Mapper::map: the first category whose test
   * passes, or None when no test passes (the chain has no final else).
   */
  function Classify(nb: Nbhd): (r: Option<Category>)
    ensures r.Some? ==> Matches(r.value, nb)
    ensures r.None? ==> forall d :: !Matches(d, nb)
  {
    if Matches(Cross, nb) then Some(Cross)
    else if Matches(HorizontalDown, nb) then Some(HorizontalDown)
    else if Matches(HorizontalUp, nb) then Some(HorizontalUp)
    else if Matches(VerticalLeft, nb) then Some(VerticalLeft)
    else if Matches(VerticalRight, nb) then Some(VerticalRight)
    else if Matches(BottomLeft, nb) then Some(BottomLeft)
    else if Matches(BottomRight, nb) then Some(BottomRight)
    else if Matches(UpLeft, nb) then Some(UpLeft)
    else if Matches(UpRight, nb) then Some(UpRight)
    else if Matches(Horizontal, nb) then Some(Horizontal)
    else if Matches(Vertical, nb) then Some(Vertical)
    else if Matches(EndDown, nb) then Some(EndDown)
    else if Matches(EndLeft, nb) then Some(EndLeft)
    else if Matches(EndRight, nb) then Some(EndRight)
    else if Matches(EndUp, nb) then Some(EndUp)
    else None
  }

  /** The neighbourhood a tile depicts: exactly the arms its name describes. */
  function Pattern(c: Category): Nbhd {
    match c
    case Cross => Nbhd(true, true, true, true)
    case HorizontalDown => Nbhd(false, true, true, true)
    case HorizontalUp => Nbhd(true, false, true, true)
    case VerticalLeft => Nbhd(true, true, true, false)
    case VerticalRight => Nbhd(true, true, false, true)
    case BottomLeft => Nbhd(false, true, true, false)
    case BottomRight => Nbhd(false, true, false, true)
    case UpLeft => Nbhd(true, false, true, false)
    case UpRight => Nbhd(true, false, false, true)
    case Horizontal => Nbhd(false, false, true, true)
    case Vertical => Nbhd(true, true, false, false)
    case EndDown => Nbhd(true, false, false, false)
    case EndLeft => Nbhd(false, false, true, false)
    case EndRight => Nbhd(false, false, false, true)
    case EndUp => Nbhd(false, true, false, false)
  }

  /** No open neighbour at all. */
  const Isolated: Nbhd := Nbhd(false, false, false, false)

  /**
   * With the order fixed, the overlapping tests become exact: the chain picks
   * c precisely for the neighbourhood c depicts.
   */
  lemma ClassifyExact(nb: Nbhd, c: Category)
    ensures Classify(nb) == Some(c) <==> nb == Pattern(c)
  {
  }

  /** A test earlier in the chain than c rejects the neighbourhood c depicts. */
  lemma EarlierRejects(c: Category, d: Category)
    requires Rank(d) < Rank(c)
    ensures !Matches(d, Pattern(c))
  {
  }

  /**
   * First match wins: the chosen category's test passes and every test before
   * it in the chain fails.
   */
  lemma ClassifyFirstMatch(nb: Nbhd)
    requires Classify(nb).Some?
    ensures Matches(Classify(nb).value, nb)
    ensures forall d :: Rank(d) < Rank(Classify(nb).value) ==> !Matches(d, nb)
  {
    var c := Classify(nb).value;
    ClassifyExact(nb, c);
    forall d | Rank(d) < Rank(c)
      ensures !Matches(d, nb)
    {
      EarlierRejects(c, d);
    }
  }

  /** Every neighbourhood but the isolated one gets a tile; the isolated one gets none. */
  lemma ClassifyTotal(nb: Nbhd)
    ensures Classify(nb).None? <==> nb == Isolated
  {
  }

  /** Drawing a tile and classifying the drawing gives the tile back. */
  lemma ClassifyPattern(c: Category)
    ensures Classify(Pattern(c)) == Some(c)
  {
    ClassifyExact(Pattern(c), c);
  }

  /** Distinct tiles depict distinct neighbourhoods. */
  lemma PatternInjective(c: Category, d: Category)
    requires Pattern(c) == Pattern(d)
    ensures c == d
  {
    ClassifyPattern(c);
    ClassifyPattern(d);
  }

  /**
   * A cell open on all four sides gets the cross although the T-junction,
   * corner and straight tests after it pass as well.
   */
  lemma CrossWins(nb: Nbhd)
    requires nb.north && nb.south && nb.west && nb.east
    ensures Classify(nb) == Some(Cross)
    ensures forall d :: Rank(d) <= Rank(Vertical) ==> Matches(d, nb)
  {
  }
}
