/**
 * One square of the Sudoku grid: the set of digits it may still hold. The set
 * {0} marks a blank square that has not been given candidates yet; a single
 * non-zero digit is a solved square. The functions below are the value form
 * of the queries and updates of a cell; class Cell applies them in place.
 */
module SudokuCell {

  type Candidates = set<int>

  /** solved(): one candidate, and not the blank marker 0. */
  predicate IsSolved(cs: Candidates) {
    |cs| == 1 && 0 !in cs
  }

  /** empty(): one candidate, and it is the blank marker 0. */
  predicate IsBlank(cs: Candidates) {
    |cs| == 1 && 0 in cs
  }

  /** A set with elements has a member. */
  lemma Member(cs: Candidates)
    requires |cs| > 0
    ensures exists v :: v in cs
  {
    if forall v :: v !in cs {
      assert false;
    }
  }

  /** A one-element set is the singleton of any of its members. */
  lemma Singleton(cs: Candidates, v: int)
    requires |cs| == 1 && v in cs
    ensures cs == {v}
  {
    assert |cs - {v}| == 0;
  }

  /** A square is solved exactly when it holds a single non-zero digit, and blank exactly when it holds {0}. */
  lemma SolvedOrBlank(cs: Candidates)
    ensures IsSolved(cs) <==> exists v :: v != 0 && cs == {v}
    ensures IsBlank(cs) <==> cs == {0}
    ensures !(IsSolved(cs) && IsBlank(cs))
  {
    if IsSolved(cs) {
      Member(cs);
      var v :| v in cs;
      Singleton(cs, v);
    }
    if IsBlank(cs) {
      Singleton(cs, 0);
    }
  }

  /** get_solution(): the digit of a solved square, 0 for any other. */
  function SolutionOf(cs: Candidates): (v: int)
    ensures IsSolved(cs) ==> v != 0 && cs == {v}
    ensures !IsSolved(cs) ==> v == 0
  {
    if IsSolved(cs) then
      Member(cs);
      var v :| v in cs;
      Singleton(cs, v);
      v
    else 0
  }

  /** `operator=(value)`: a non-zero value replaces the candidates, 0 leaves them alone. */
  function Assigned(cs: Candidates, value: int): (r: Candidates)
    ensures value != 0 ==> IsSolved(r) && SolutionOf(r) == value
    ensures value == 0 ==> r == cs
  {
    if value != 0 then {value} else cs
  }

  /**
   * The candidates add_candidates leaves in a square: the solutions of the
   * given squares, each square named by its candidates.
   */
  function Solutions(sources: set<Candidates>): set<int> {
    set s | s in sources :: SolutionOf(s)
  }

  /** One more square contributes its solution. */
  lemma SolutionsAdd(sources: set<Candidates>, s: Candidates)
    ensures Solutions(sources + {s}) == Solutions(sources) + {SolutionOf(s)}
  {
  }

  /**
   * Squares that each hold one digit of ds, and nothing else, contribute
   * exactly those digits: this is how initialise hands a square its feasible digits.
   */
  lemma {:induction false} SolutionsOfDigits(ds: set<int>)
    requires 0 !in ds
    ensures Solutions(set d | d in ds :: {d}) == ds
  {
    var sources := set d | d in ds :: {d};
    forall d | d in ds ensures d in Solutions(sources) {
      assert {d} in sources;
      assert SolutionOf({d}) == d;
    }
    forall v | v in Solutions(sources) ensures v in ds {
      var s :| s in sources && SolutionOf(s) == v;
      var d :| d in ds && s == {d};
      assert SolutionOf({d}) == d;
    }
  }

  /** A square of the grid, holding its candidate digits. */
  class Cell {
    var candidates: Candidates

    /** `Cell(void)`: a blank square. */
    constructor ()
      ensures candidates == {0}
    {
      candidates := {0};
    }

    /** `Cell(value)`: the square solved as value, or with no candidates at all for 0. */
    constructor Of(value: int)
      ensures value != 0 ==> candidates == {value}
      ensures value == 0 ==> candidates == {}
    {
      candidates := {};
      if value != 0 {
        candidates := {value};
      }
    }

    /** The copy constructor: the same candidates in a new square. */
    constructor Copy(rhs: Cell)
      ensures candidates == rhs.candidates
    {
      candidates := rhs.candidates;
    }

    predicate Solved()
      reads this
    {
      IsSolved(candidates)
    }

    predicate Blank()
      reads this
    {
      IsBlank(candidates)
    }

    function Solution(): int
      reads this
    {
      SolutionOf(candidates)
    }

    /** `operator=(value)`. */
    method Assign(value: int)
      modifies this
      ensures candidates == Assigned(old(candidates), value)
    {
      if value != 0 {
        candidates := {};
        candidates := candidates + {value};
      }
    }

    /**
     * `operator==`: the same square, or squares with equal candidates; the
     * identity test is a shortcut that never changes the answer.
     */
    predicate Equals(rhs: Cell): (r: bool)
      reads this, rhs
      ensures r <==> candidates == rhs.candidates
    {
      this == rhs || candidates == rhs.candidates
    }

    /** add_candidate: value becomes a candidate, and no other candidate changes. */
    method AddCandidate(value: int)
      modifies this
      ensures candidates == old(candidates) + {value}
    {
      candidates := candidates + {value};
    }

    /** remove_candidate: value stops being a candidate, and no other candidate changes. */
    method RemoveCandidate(value: int)
      modifies this
      ensures candidates == old(candidates) - {value}
    {
      candidates := candidates - {value};
    }

    /**
     * add_candidates: the candidates become the solutions of the given
     * squares, whatever they were before; for no squares, nothing at all.
     */
    method AddCandidates(sources: set<Candidates>)
      modifies this
      ensures candidates == Solutions(sources)
    {
      if Blank() && |sources| > 0 {
        RemoveCandidate(0);
      }
      candidates := {};
      var todo := sources;
      while todo != {}
        invariant todo <= sources
        invariant candidates == Solutions(sources - todo)
        decreases todo
      {
        var s :| s in todo;
        AddCandidate(SolutionOf(s));
        todo := todo - {s};
        assert sources - todo == (sources - (todo + {s})) + {s};
      }
    }
  }

  /** A new square is blank, unsolved and has solution 0; a square made from a digit is solved as that digit. */
  lemma NewCells(value: int)
    ensures IsBlank({0}) && !IsSolved({0}) && SolutionOf({0}) == 0
    ensures value != 0 ==> IsSolved({value}) && SolutionOf({value}) == value
    ensures !IsSolved({}) && !IsBlank({}) && SolutionOf({}) == 0
  {
    SolvedOrBlank({0});
  }
}
