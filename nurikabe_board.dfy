/**
 * The vocabulary of the Nurikabe solver: coordinates, cell states, regions and
 * the solver's situation report, with the pure queries the engine asks of them.
 */
module NurikabeBoard {

  /** A cell position; the origin is the upper-left corner, x grows rightwards, y downwards. */
  datatype Coord = Coord(x: int, y: int)

  /** A clue is a positive number. */
  type Clue = n: int | n > 0 witness 1

  /**
   * The state of one cell. The source encodes these as one int: UNKNOWN = -3,
   * WHITE = -2, BLACK = -1 and a clue as itself, so they are ordered
   * Unknown < White < Black < every clue.
   */
  datatype State = Unknown | White | Black | Numbered(n: Clue)

  /** The outcome of one solving step. */
  datatype SitRep = ContradictionFound | SolutionFound | KeepGoing | CannotProceed

  /** Regions live in an arena and are named by these ids instead of shared pointers. */
  type RegionId = nat

  /**
   * A connected area of known cells of one colour: black, white, or numbered
   * (white cells joined to a clue). It remembers its members and the unknown
   * cells next to them (its liberties).
   */
  datatype Region = Region(state: State, coords: set<Coord>, unknowns: set<Coord>) {

    predicate IsWhite() { state == White }

    predicate IsBlack() { state == Black }

    predicate IsNumbered() { state.Numbered? }

    function Number(): (n: int)
      requires IsNumbered()
      ensures n > 0
    {
      state.n
    }

    function Size(): nat { |coords| }

    function UnkSize(): nat { |unknowns| }

    /**
     * Whether the region still has to grow: a black region smaller than the whole
     * sea, any white region (it must still reach a number), a numbered region
     * below its number. Both the single-liberty rule and the confinement test use
     * this test, the latter with a size other than the current one.
     */
    predicate NeedsMore(size: int, totalBlack: int) {
      || (IsBlack() && size < totalBlack)
      || IsWhite()
      || (IsNumbered() && size < Number())
    }
  }

  /** The order of `set<pair<int, int>>`: by x, then by y. */
  predicate LexLess(a: Coord, b: Coord) {
    a.x < b.x || (a.x == b.x && a.y < b.y)
  }

  function Abs(n: int): (r: nat)
    ensures r == n || r == -n
  {
    if n < 0 then -n else n
  }

  /** The taxicab distance between two cells. */
  function Manhattan(a: Coord, b: Coord): (d: nat)
    ensures d == 0 <==> a == b
  {
    Abs(a.x - b.x) + Abs(a.y - b.y)
  }

  /** Whether two cells share an edge. */
  predicate Adjacent(a: Coord, b: Coord) {
    Manhattan(a, b) == 1
  }

  /** A cell sharing an edge with c is one of its four neighbours. */
  lemma AdjacentCases(c: Coord, nb: Coord)
    requires Adjacent(c, nb)
    ensures nb == Coord(c.x - 1, c.y) || nb == Coord(c.x + 1, c.y) || nb == Coord(c.x, c.y - 1) || nb == Coord(c.x, c.y + 1)
  {
  }

  /** Whether two cells touch at a corner only. */
  predicate Diagonal(a: Coord, b: Coord) {
    Abs(a.x - b.x) == 1 && Abs(a.y - b.y) == 1
  }

  /** Whether c lies on a width by height board. */
  predicate InGrid(width: int, height: int, c: Coord) {
    0 <= c.x < width && 0 <= c.y < height
  }

  /** The cells sharing an edge with c and lying on the board (for_valid_neighbors). */
  function Neighbors(width: int, height: int, c: Coord): (ns: set<Coord>)
    requires InGrid(width, height, c)
    ensures forall n :: n in ns <==> InGrid(width, height, n) && Adjacent(c, n)
  {
    var ns := (if c.x > 0 then {Coord(c.x - 1, c.y)} else {})
      + (if c.x + 1 < width then {Coord(c.x + 1, c.y)} else {})
      + (if c.y > 0 then {Coord(c.x, c.y - 1)} else {})
      + (if c.y + 1 < height then {Coord(c.x, c.y + 1)} else {});
    assert forall n :: InGrid(width, height, n) && Adjacent(c, n) ==> n in ns by {
      forall n | InGrid(width, height, n) && Adjacent(c, n) ensures n in ns {
        AdjacentCases(c, n);
      }
    }
    ns
  }

  /** The valid neighbours of c in the order for_valid_neighbors visits them: left, right, up, down. */
  function NeighborOrder(width: int, height: int, c: Coord): (ns: seq<Coord>)
    requires InGrid(width, height, c)
    ensures forall n :: n in ns <==> n in Neighbors(width, height, c)
  {
    var ns := (if c.x > 0 then [Coord(c.x - 1, c.y)] else [])
      + (if c.x + 1 < width then [Coord(c.x + 1, c.y)] else [])
      + (if c.y > 0 then [Coord(c.x, c.y - 1)] else [])
      + (if c.y + 1 < height then [Coord(c.x, c.y + 1)] else []);
    assert forall n :: n in Neighbors(width, height, c) ==> n in ns by {
      forall n | n in Neighbors(width, height, c) ensures n in ns {
        AdjacentCases(c, n);
      }
    }
    ns
  }

  /** Whether a sequence of region ids has no repetitions (it stands for a set). */
  predicate Distinct(s: seq<RegionId>) {
    forall i, j :: 0 <= i < j < |s| ==> s[i] != s[j]
  }
}
