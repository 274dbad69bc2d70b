/**
 * The 9x9 Sudoku grid: the candidate sets of its squares, updated in place by
 * candidate elimination passes, a fixpoint loop over them, and a guess on a
 * two-candidate square when the passes get stuck.
 */
module SudokuGrid {
  import opened SudokuCell
  import opened SudokuBoard

  /**
   * The loop of remove_candidates over the solved squares of one square's
   * units: each one's solution stops being a candidate.
   */
  method RemoveSolutions(cands: Candidates, rcs: set<Candidates>) returns (r: Candidates)
    requires forall s :: s in rcs ==> IsSolved(s)
    ensures r == cands - Solutions(rcs)
  {
    r := cands;
    var todo := rcs;
    assert rcs - todo == {};
    while todo != {}
      invariant todo <= rcs
      invariant r == cands - Solutions(rcs - todo)
      decreases todo
    {
      var s :| s in todo;
      ghost var done := rcs - todo;
      SolutionsAdd(done, s);
      if IsSolved(s) {
        r := r - {SolutionOf(s)};
      }
      todo := todo - {s};
      assert rcs - todo == done + {s};
    }
    assert rcs - todo == rcs;
  }

  /**
   * The loop of initialise over the digits: one single-digit square for each
   * digit that no solved square of the units holds.
   */
  method FeasibleSources(rcs: set<Candidates>) returns (sources: set<Candidates>)
    ensures sources == set d | 1 <= d <= SizeGrid && {d} !in rcs :: {d}
  {
    sources := {};
    for i := 1 to SizeGrid + 1
      invariant sources == set d | 1 <= d < i && {d} !in rcs :: {d}
    {
      if {i} !in rcs {
        sources := sources + {{i}};
      }
    }
  }

  /**
   * The loop of solve_for_row, solve_for_col and solve_for_subgrid over the
   * candidates of one unsolved square, in ascending order: unless the other
   * squares of the unit hold nine digits between them, each candidate they
   * lack is assigned to the square.
   */
  method SingleOutCandidates(cands: Candidates, values: set<int>) returns (r: Candidates)
    ensures r == SingleOut(cands, values)
  {
    r := cands;
    if |values| != SizeGrid {
      var todo := cands;
      ghost var done: set<int> := {};
      assert Lonely({}, values) == {};
      while todo != {}
        invariant done <= cands && todo == cands - done
        invariant forall x, y :: x in done && y in todo ==> x < y
        invariant r == Tried(cands, values, done)
        decreases todo
      {
        var v := Least(todo);
        TriedStep(cands, values, done, v);
        if v !in values {
          r := Assigned(r, v);
        }
        todo, done := todo - {v}, done + {v};
      }
      assert done == cands;
      TriedAll(cands, values);
    }
  }

  /** The two candidates of a two-candidate square, the smaller first (its set's iteration order). */
  method PairOf(cs: Candidates) returns (first: int, second: int)
    requires |cs| == 2
    ensures cs == {first, second} && first < second
  {
    ghost var m := Smallest(cs);
    first :| first in cs && forall x :: x in cs ==> first <= x;
    assert |cs - {first}| == 1;
    Member(cs - {first});
    second :| second in cs - {first};
    Pair(cs, first, second);
  }

  /** The first candidate of a set in its iteration order: the smallest. */
  method Least(cs: set<int>) returns (m: int)
    requires cs != {}
    ensures m in cs && forall x :: x in cs ==> m <= x
  {
    ghost var w := Smallest(cs);
    m :| m in cs && forall x :: x in cs ==> m <= x;
  }

  class Grid {
    /** m_cells: the candidates of square (row, col) are cells[row, col]. */
    const cells: array2<Candidates>

    predicate Shape() {
      cells.Length0 == SizeGrid && cells.Length1 == SizeGrid
    }

    /** The candidate sets as a board value. */
    ghost function Board(): (b: Board)
      requires Shape()
      reads cells
      ensures Full(b)
      ensures forall p :: OnBoard(p) ==> b[p] == cells[p.row, p.col]
    {
      assert forall p :: p in AllPos() <==> OnBoard(p) by {
        forall p ensures p in AllPos() <==> OnBoard(p) {
          AllPosOnBoard(p);
        }
      }
      map p | p in AllPos() :: cells[p.row, p.col]
    }

    /** Every square is blank or holds digits only. */
    ghost predicate Valid()
      reads cells
    {
      Shape() && Digits(Board())
    }

    /** `*m_cells[row][col] = ...`: square p now holds v. */
    method Put(p: Pos, v: Candidates)
      requires Shape() && OnBoard(p)
      modifies cells
      ensures Board() == old(Board())[p := v]
    {
      cells[p.row, p.col] := v;
    }

    /** `Grid(void)`: every square blank. */
    constructor ()
      ensures Valid() && fresh(cells)
      ensures forall p :: OnBoard(p) ==> Board()[p] == {0}
    {
      cells := new Candidates[SizeGrid, SizeGrid]((r, c) => {0});
    }

    /** The copy constructor: a new grid whose squares hold the candidates of rhs's. */
    constructor Copy(rhs: Grid)
      requires rhs.Valid()
      ensures Valid() && fresh(cells)
      ensures Board() == rhs.Board()
    {
      var a := new Candidates[SizeGrid, SizeGrid];
      for row := 0 to SizeGrid
        invariant forall r, c :: 0 <= r < row && 0 <= c < SizeGrid ==> a[r, c] == rhs.cells[r, c]
      {
        for col := 0 to SizeGrid
          invariant forall r, c :: 0 <= r < row && 0 <= c < SizeGrid ==> a[r, c] == rhs.cells[r, c]
          invariant forall c :: 0 <= c < col ==> a[row, c] == rhs.cells[row, c]
        {
          a[row, col] := rhs.cells[row, col];
        }
      }
      cells := a;
    }

    /** get_row_cells: the eight other squares of row. */
    method RowCells(row: int, exclude: int) returns (ps: set<Pos>)
      ensures ps == RowPeers(row, exclude)
      ensures 0 <= exclude < SizeGrid ==> |ps| == SizeGrid - 1
    {
      ps := {};
      for i := 0 to SizeGrid
        invariant ps == RowPart(row, i) - {Pos(row, exclude)}
      {
        RowPartStep(row, i);
        if i != exclude {
          ps := ps + {Pos(row, i)};
        }
      }
      RowPartSize(row, SizeGrid);
      if 0 <= exclude < SizeGrid {
        assert Pos(row, exclude) in RowPart(row, SizeGrid);
      }
    }

    /** get_col_cells: the eight other squares of column col. */
    method ColCells(exclude: int, col: int) returns (ps: set<Pos>)
      ensures ps == ColPeers(exclude, col)
      ensures 0 <= exclude < SizeGrid ==> |ps| == SizeGrid - 1
    {
      ps := {};
      for i := 0 to SizeGrid
        invariant ps == ColPart(col, i) - {Pos(exclude, col)}
      {
        ColPartStep(col, i);
        if i != exclude {
          ps := ps + {Pos(i, col)};
        }
      }
      ColPartSize(col, SizeGrid);
      if 0 <= exclude < SizeGrid {
        assert Pos(exclude, col) in ColPart(col, SizeGrid);
      }
    }

    /** get_subgrid_cells: the eight other squares of the box of (row, col). */
    method SubgridCells(row: int, col: int) returns (ps: set<Pos>)
      requires OnBoard(Pos(row, col))
      ensures ps == BoxPeers(Pos(row, col))
      ensures |ps| == SizeGrid - 1
    {
      var p := Pos(row, col);
      ps := {};
      for i := 0 to SizeSubgrid
        invariant ps == BoxPart(p, i * SizeSubgrid) - {p}
      {
        for j := 0 to SizeSubgrid
          invariant ps == BoxPart(p, i * SizeSubgrid + j) - {p}
        {
          var q := Pos(Corner(p).row + i, Corner(p).col + j);
          BoxSquareAt(p, i, j);
          BoxPartStep(p, i * SizeSubgrid + j);
          if q != p {
            ps := ps + {q};
          }
        }
      }
      BoxPartSize(p, SizeGrid);
      PartsOnBoard(p);
    }

    /** get_row_values: every candidate of the squares of row outside column exclude. */
    method RowValues(row: int, exclude: int) returns (vs: set<int>)
      requires Shape() && 0 <= row < SizeGrid
      ensures vs == Values(Board(), RowPeers(row, exclude))
    {
      vs := {};
      for i := 0 to SizeGrid
        invariant vs == Values(Board(), RowPart(row, i) - {Pos(row, exclude)})
      {
        RowPartStep(row, i);
        if i != exclude {
          ValuesAdd(Board(), RowPart(row, i) - {Pos(row, exclude)}, Pos(row, i));
          assert RowPart(row, i + 1) - {Pos(row, exclude)} == (RowPart(row, i) - {Pos(row, exclude)}) + {Pos(row, i)};
          vs := vs + cells[row, i];
        } else {
          assert RowPart(row, i + 1) - {Pos(row, exclude)} == RowPart(row, i) - {Pos(row, exclude)};
        }
      }
    }

    /** get_col_values: every candidate of the squares of column col outside row exclude. */
    method ColValues(exclude: int, col: int) returns (vs: set<int>)
      requires Shape() && 0 <= col < SizeGrid
      ensures vs == Values(Board(), ColPeers(exclude, col))
    {
      vs := {};
      for i := 0 to SizeGrid
        invariant vs == Values(Board(), ColPart(col, i) - {Pos(exclude, col)})
      {
        ColPartStep(col, i);
        if i != exclude {
          ValuesAdd(Board(), ColPart(col, i) - {Pos(exclude, col)}, Pos(i, col));
          assert ColPart(col, i + 1) - {Pos(exclude, col)} == (ColPart(col, i) - {Pos(exclude, col)}) + {Pos(i, col)};
          vs := vs + cells[i, col];
        } else {
          assert ColPart(col, i + 1) - {Pos(exclude, col)} == ColPart(col, i) - {Pos(exclude, col)};
        }
      }
    }

    /** get_subgrid_values: every candidate of the other squares of the box of (row, col). */
    method SubgridValues(row: int, col: int) returns (vs: set<int>)
      requires Shape() && OnBoard(Pos(row, col))
      ensures vs == Values(Board(), BoxPeers(Pos(row, col)))
    {
      var p := Pos(row, col);
      vs := {};
      for i := 0 to SizeSubgrid
        invariant vs == Values(Board(), BoxPart(p, i * SizeSubgrid) - {p})
      {
        for j := 0 to SizeSubgrid
          invariant vs == Values(Board(), BoxPart(p, i * SizeSubgrid + j) - {p})
        {
          var k := i * SizeSubgrid + j;
          var q := Pos(Corner(p).row + i, Corner(p).col + j);
          BoxSquareAt(p, i, j);
          BoxPartStep(p, k);
          BoxSquareFacts(p, k, k);
          if q != p {
            ValuesAdd(Board(), BoxPart(p, k) - {p}, q);
            assert BoxPart(p, k + 1) - {p} == (BoxPart(p, k) - {p}) + {q};
            vs := vs + cells[q.row, q.col];
          } else {
            assert BoxPart(p, k + 1) - {p} == BoxPart(p, k) - {p};
          }
        }
      }
    }

    /** Adds to rs the candidates of square q when it is solved. */
    method AddIfSolved(rs: set<Candidates>, ghost qs: set<Pos>, q: Pos) returns (rs': set<Candidates>)
      requires Shape() && OnBoard(q) && rs == SolvedOf(Board(), qs)
      ensures rs' == SolvedOf(Board(), qs + {q})
    {
      SolvedOfAdd(Board(), qs, q);
      rs' := rs;
      if IsSolved(cells[q.row, q.col]) {
        rs' := rs' + {cells[q.row, q.col]};
      }
    }

    /**
     * get_solved_RCS: the solved squares of the row, column and box of
     * (row, col). The result is ordered by candidates, so it holds one entry
     * per solution: here, the set of the solved squares' candidate sets.
     */
    method SolvedRCS(row: int, col: int) returns (rs: set<Candidates>)
      requires Shape() && OnBoard(Pos(row, col))
      ensures rs == SolvedSets(Board(), Pos(row, col))
    {
      rs := SolvedLines(row, col);
      rs := SolvedBox(rs, RowPart(row, SizeGrid) + ColPart(col, SizeGrid), Pos(row, col));
    }

    /** The first loop of SolvedRCS: the solved squares of the row and the column. */
    method SolvedLines(row: int, col: int) returns (rs: set<Candidates>)
      requires Shape() && OnBoard(Pos(row, col))
      ensures rs == SolvedOf(Board(), RowPart(row, SizeGrid) + ColPart(col, SizeGrid))
    {
      rs := {};
      for i := 0 to SizeGrid
        invariant rs == SolvedOf(Board(), RowPart(row, i) + ColPart(col, i))
      {
        LinesStep(row, col, i);
        rs := AddIfSolved(rs, RowPart(row, i) + ColPart(col, i), Pos(row, i));
        rs := AddIfSolved(rs, RowPart(row, i) + ColPart(col, i) + {Pos(row, i)}, Pos(i, col));
      }
    }

    /** The box loops of SolvedRCS: adds the solved squares of p's box to those of lines. */
    method SolvedBox(rs: set<Candidates>, ghost lines: set<Pos>, p: Pos) returns (rs': set<Candidates>)
      requires Shape() && OnBoard(p) && rs == SolvedOf(Board(), lines)
      ensures rs' == SolvedOf(Board(), lines + BoxPart(p, SizeGrid))
    {
      rs' := rs;
      assert lines + BoxPart(p, 0) == lines;
      for i := 0 to SizeSubgrid
        invariant rs' == SolvedOf(Board(), lines + BoxPart(p, i * SizeSubgrid))
      {
        for j := 0 to SizeSubgrid
          invariant rs' == SolvedOf(Board(), lines + BoxPart(p, i * SizeSubgrid + j))
        {
          var k := i * SizeSubgrid + j;
          var q := Pos(Corner(p).row + i, Corner(p).col + j);
          BoxStep(p, i, j);
          rs' := AddIfSolved(rs', lines + BoxPart(p, k), q);
          assert lines + BoxPart(p, k + 1) == lines + BoxPart(p, k) + {q};
        }
      }
    }

    /** Adds square q to ps when it is unsolved. */
    method AddIfUnsolved(ps: set<Pos>, ghost qs: set<Pos>, q: Pos) returns (ps': set<Pos>)
      requires Shape() && OnBoard(q) && ps == UnsolvedOf(Board(), qs)
      ensures ps' == UnsolvedOf(Board(), qs + {q})
    {
      UnsolvedOfAdd(Board(), qs, q);
      ps' := ps;
      if !IsSolved(cells[q.row, q.col]) {
        ps' := ps' + {q};
      }
    }

    /** get_unsolved_RCS: the unsolved squares of the row, column and box of (row, col). */
    method UnsolvedRCSOf(row: int, col: int) returns (ps: set<Pos>)
      requires Shape() && OnBoard(Pos(row, col))
      ensures ps == UnsolvedRCS(Board(), Pos(row, col))
    {
      ps := UnsolvedLines(row, col);
      ps := UnsolvedBox(ps, RowPart(row, SizeGrid) + ColPart(col, SizeGrid), Pos(row, col));
    }

    /** The first loop of UnsolvedRCSOf: the unsolved squares of the row and the column. */
    method UnsolvedLines(row: int, col: int) returns (ps: set<Pos>)
      requires Shape() && OnBoard(Pos(row, col))
      ensures ps == UnsolvedOf(Board(), RowPart(row, SizeGrid) + ColPart(col, SizeGrid))
    {
      ps := {};
      for i := 0 to SizeGrid
        invariant ps == UnsolvedOf(Board(), RowPart(row, i) + ColPart(col, i))
      {
        LinesStep(row, col, i);
        ps := AddIfUnsolved(ps, RowPart(row, i) + ColPart(col, i), Pos(row, i));
        ps := AddIfUnsolved(ps, RowPart(row, i) + ColPart(col, i) + {Pos(row, i)}, Pos(i, col));
      }
    }

    /** The box loops of UnsolvedRCSOf: adds the unsolved squares of p's box to those of lines. */
    method UnsolvedBox(ps: set<Pos>, ghost lines: set<Pos>, p: Pos) returns (ps': set<Pos>)
      requires Shape() && OnBoard(p) && ps == UnsolvedOf(Board(), lines)
      ensures ps' == UnsolvedOf(Board(), lines + BoxPart(p, SizeGrid))
    {
      ps' := ps;
      assert lines + BoxPart(p, 0) == lines;
      for i := 0 to SizeSubgrid
        invariant ps' == UnsolvedOf(Board(), lines + BoxPart(p, i * SizeSubgrid))
      {
        for j := 0 to SizeSubgrid
          invariant ps' == UnsolvedOf(Board(), lines + BoxPart(p, i * SizeSubgrid + j))
        {
          var k := i * SizeSubgrid + j;
          var q := Pos(Corner(p).row + i, Corner(p).col + j);
          BoxStep(p, i, j);
          ps' := AddIfUnsolved(ps', lines + BoxPart(p, k), q);
          assert lines + BoxPart(p, k + 1) == lines + BoxPart(p, k) + {q};
        }
      }
    }

    /** intersect: the squares in both sets. */
    function Intersect(first: set<Pos>, second: set<Pos>): (r: set<Pos>)
      ensures forall q :: q in r <==> q in first && q in second
      ensures r <= first && r <= second
    {
      first * second
    }

    /** The running total of candidates solve computes after each round of passes. */
    method TotalCandidates() returns (n: int)
      requires Shape()
      ensures n == Count(Board())
    {
      n := 0;
      for row := 0 to SizeGrid
        invariant n == CountUpTo(Board(), row * SizeGrid)
      {
        n := CountRow(row, n);
      }
    }

    /** The inner loop of the total: the candidates of one row added to the count of the rows above it. */
    method CountRow(row: int, n: int) returns (n': int)
      requires Shape() && 0 <= row < SizeGrid && n == CountUpTo(Board(), row * SizeGrid)
      ensures n' == CountUpTo(Board(), row * SizeGrid + SizeGrid)
    {
      ghost var b := Board();
      n' := n;
      for col := 0 to SizeGrid
        invariant b == Board() && n' == CountUpTo(b, row * SizeGrid + col)
      {
        CountStep(b, row, col);
        n' := n' + |cells[row, col]|;
      }
    }

    /**
     * One square of initialise: an unsolved square gets as candidates exactly
     * the digits no solved square of its row, column or box holds.
     */
    method InitialiseSquare(row: int, col: int) returns (solved: bool)
      requires Shape() && OnBoard(Pos(row, col))
      modifies cells
      ensures var b, p := old(Board()), Pos(row, col);
        if IsSolved(b[p]) then Board() == b && !solved
        else Board() == b[p := Feasible(b, p)] && (solved <==> IsSolved(Feasible(b, p)))
    {
      var p := Pos(row, col);
      solved := false;
      if !IsSolved(cells[row, col]) {
        var rcs := SolvedRCS(row, col);
        var sources := FeasibleSources(rcs);
        ghost var digits := Feasible(Board(), p);
        assert sources == set d | d in digits :: {d};
        SolutionsOfDigits(digits);
        Put(p, Solutions(sources));
        solved := IsSolved(cells[row, col]);
      }
    }

    /**
     * initialise: sweeps the grid in row-major order, starting again from the
     * top whenever a square becomes solved, until every unsolved square holds
     * exactly its feasible digits. A square it solves holds the one digit
     * that the other squares of its units leave free.
     */
    method Initialise()
      requires Valid()
      modifies cells
      ensures Valid() && Keeps(old(Board()), Board())
      ensures forall p :: p in Board() && !IsSolved(Board()[p]) ==> Board()[p] == Feasible(Board(), p)
      ensures forall p :: p in old(Board()) && Board()[p] != old(Board())[p] && IsSolved(Board()[p])
                ==> Board()[p] == Feasible(Board()[p := {0}], p)
    {
      ghost var b0 := Board();
      var row, col := 0, 0;
      while row < SizeGrid
        invariant 0 <= row <= SizeGrid && 0 <= col < SizeGrid
        invariant Valid() && Keeps(b0, Board()) && FeasibleBefore(Board(), row, col)
        invariant ForcedSince(b0, Board())
        decreases Unsolved(Board()), NumCells - (row * SizeGrid + col)
      {
        ghost var b := Board();
        var solved := InitialiseSquare(row, col);
        if !IsSolved(b[Pos(row, col)]) {
          ForcedStep(b0, b, Pos(row, col), Board());
        }
        var row', col' := row, col + 1;
        if col + 1 == SizeGrid {
          row', col' := row + 1, 0;
        }
        InitialiseStep(b, row, col, Board(), solved, row', col');
        KeepsTrans(b0, b, Board());
        if solved {
          row, col := 0, 0;
        } else {
          row, col := row', col';
        }
      }
    }

    /** One square of remove_candidates: an unsolved square loses every digit solved in its units. */
    method RemoveAt(row: int, col: int)
      requires Shape() && OnBoard(Pos(row, col))
      modifies cells
      ensures var b, p := old(Board()), Pos(row, col);
        Board() == if IsSolved(b[p]) then b else b[p := b[p] - Solutions(SolvedSets(b, p))]
    {
      var p := Pos(row, col);
      if !IsSolved(cells[row, col]) {
        ghost var b := Board();
        var rcs := SolvedRCS(row, col);
        var cands := RemoveSolutions(cells[row, col], rcs);
        Put(p, cands);
      }
    }

    /**
     * remove_candidates: one row-major sweep. Every square unsolved at the
     * start ends with no digit that was solved in its units at the start, and
     * every digit a square lost is solved in one of its units at the end.
     */
    method RemoveCandidates()
      requires Valid()
      modifies cells
      ensures Valid() && Keeps(old(Board()), Board()) && Shrinks(old(Board()), Board())
      ensures NoSolvedLeft(old(Board()), Board())
      ensures forall p, v :: p in Board() && v in old(Board())[p] && v !in Board()[p]
                ==> v in Solutions(SolvedSets(Board(), p))
    {
      ghost var b0 := Board();
      for row := 0 to SizeGrid
        invariant Shape() && RemovedUpTo(b0, Board(), row, 0)
      {
        for col := 0 to SizeGrid
          invariant Shape() && RemovedUpTo(b0, Board(), row, col)
        {
          RemovedNext(b0, Board(), row, col);
          RemoveAt(row, col);
        }
        RemovedRow(b0, Board(), row);
      }
      assert forall q :: q in Board() ==> Before(q, SizeGrid, 0);
    }

    /** get_row_values, get_col_values or get_subgrid_values, by the kind of unit. */
    method UnitValues(kind: Unit, row: int, col: int) returns (vs: set<int>)
      requires Shape() && OnBoard(Pos(row, col))
      ensures vs == Values(Board(), UnitPeers(kind, Pos(row, col)))
    {
      match kind
      case RowUnit => vs := RowValues(row, col);
      case ColUnit => vs := ColValues(row, col);
      case BoxUnit => vs := SubgridValues(row, col);
    }

    /** One square of solve_for_row, solve_for_col or solve_for_subgrid. */
    method SingleOutSquare(kind: Unit, row: int, col: int) returns (solved: bool)
      requires Shape() && OnBoard(Pos(row, col))
      modifies cells
      ensures var b, p := old(Board()), Pos(row, col);
        if IsSolved(b[p]) then Board() == b && !solved
        else Board() == b[p := SingleOut(b[p], Values(b, UnitPeers(kind, p)))] && (solved <==> IsSolved(Board()[p]))
    {
      solved := false;
      if !IsSolved(cells[row, col]) {
        var values := UnitValues(kind, row, col);
        var cands := SingleOutCandidates(cells[row, col], values);
        Put(Pos(row, col), cands);
        solved := IsSolved(cells[row, col]);
      }
    }

    /**
     * solve_for_row (kind RowUnit), solve_for_col (ColUnit) and
     * solve_for_subgrid (BoxUnit): sweeps the grid in row-major order,
     * starting again from the top whenever a square becomes solved. Only
     * unsolved squares change, each into a solved square holding one of its
     * candidates that no other square of its unit holds; at the end no
     * unsolved square has a candidate the other squares of its unit lack,
     * unless those hold nine digits between them.
     */
    method SolveForUnit(kind: Unit)
      requires Valid()
      modifies cells
      ensures Valid() && Keeps(old(Board()), Board()) && Shrinks(old(Board()), Board())
      ensures forall p :: p in old(Board()) && Board()[p] != old(Board())[p] ==> IsSolved(Board()[p])
      ensures forall p :: p in old(Board()) && Board()[p] != old(Board())[p]
                ==> SolutionOf(Board()[p]) in Lonely(old(Board())[p], Values(Board(), UnitPeers(kind, p)))
      ensures NoLonelyLeft(Board(), kind)
    {
      ghost var b0 := Board();
      var row, col := 0, 0;
      while row < SizeGrid
        invariant 0 <= row <= SizeGrid && 0 <= col < SizeGrid
        invariant Shape() && SingledUpTo(b0, Board(), kind, row, col)
        decreases Unsolved(Board()), NumCells - (row * SizeGrid + col)
      {
        ghost var b := Board();
        var solved := SingleOutSquare(kind, row, col);
        var row', col' := row, col + 1;
        if col + 1 == SizeGrid {
          row', col' := row + 1, 0;
        }
        SingledStep(b0, b, kind, row, col, Board(), solved, row', col');
        if solved {
          row, col := 0, 0;
        } else {
          row, col := row', col';
        }
      }
      assert forall q :: q in Board() ==> Before(q, SizeGrid, 0);
    }

    /** The loop of solve_for_naked_pairs over an intercept: each of its squares loses a and c. */
    method RemovePair(rs: set<Pos>, a: int, c: int)
      requires Shape() && forall r :: r in rs ==> OnBoard(r)
      modifies cells
      ensures PairRemoved(old(Board()), Board(), rs, a, c)
    {
      ghost var b := Board();
      var todo := rs;
      while todo != {}
        invariant todo <= rs
        invariant PairRemoved(b, Board(), rs - todo, a, c)
        decreases todo
      {
        var r :| r in todo;
        Put(r, cells[r.row, r.col] - {a} - {c});
        todo := todo - {r};
      }
      assert rs - todo == rs;
    }

    /**
     * One square p of solve_for_naked_pairs: when p holds two candidates,
     * each unsolved square q of its units holding the same two makes a pair
     * with it, and the unsolved squares in the units of both lose those two.
     * p keeps its candidates, and every pair with p as its first square
     * that still holds at the end has been cleared.
     */
    method NakedPairsAt(row: int, col: int)
      requires Shape() && OnBoard(Pos(row, col))
      modifies cells
      ensures PairedSince(old(Board()), Board())
      ensures Board()[Pos(row, col)] == old(Board())[Pos(row, col)]
      ensures ClearedAt(old(Board()), Board(), Pos(row, col))
    {
      ghost var b := Board();
      var p := Pos(row, col);
      var first := UnsolvedRCSOf(row, col);
      first := first - {p};
      if |cells[row, col]| == 2 {
        var todo := first;
        while todo != {}
          invariant todo <= first
          invariant Shape() && PairedSince(b, Board()) && Board()[p] == b[p]
          invariant forall q :: q in first - todo ==> ClearedWith(b, Board(), p, q)
          decreases todo
        {
          var q :| q in todo;
          assert q in UnsolvedRCS(b, p) && OnBoard(q);
          ghost var bm := Board();
          NakedPairWith(p, q, first, b);
          forall q' | q' in first - todo ensures ClearedWith(b, Board(), p, q') {
            ClearedWithShrinks(b, bm, Board(), p, q');
          }
          todo := todo - {q};
        }
        forall q ensures ClearedWith(b, Board(), p, q) {
          if PairHeld(b, Board(), p, q) {
            assert q in first;
          }
        }
      }
    }

    /**
     * The inner step of solve_for_naked_pairs at the two-candidate square p
     * (first is p's unsolved unit squares but p, on the board b of p's turn):
     * when q holds the same two candidates, the unsolved squares in the units
     * of both lose them. p keeps its candidates, and the pair p, q, if it
     * held from b, is cleared.
     */
    method NakedPairWith(p: Pos, q: Pos, first: set<Pos>, ghost b: Board)
      requires Shape() && OnBoard(p) && q in first && first == UnsolvedRCS(b, p) - {p}
      requires PairedSince(b, Board()) && Board()[p] == b[p] && |b[p]| == 2
      modifies cells
      ensures PairedSince(b, Board()) && Board()[p] == b[p]
      ensures Keeps(old(Board()), Board()) && Shrinks(old(Board()), Board())
      ensures ClearedWith(b, Board(), p, q)
    {
      ghost var bm := Board();
      assert OnBoard(q);
      if |cells[q.row, q.col]| == 2 && cells[p.row, p.col] == cells[q.row, q.col] {
        var second := UnsolvedRCSOf(q.row, q.col);
        second := second - {q};
        var intercept := Intersect(first, second);
        var a, c := PairOf(cells[p.row, p.col]);
        RemovePair(intercept, a, c);
        PairStep(b, bm, Board(), p, q, intercept, a, c);
        PairClears(b, bm, Board(), p, q, intercept, a, c);
      } else {
        assert !PairHeld(b, Board(), p, q);
      }
    }

    /**
     * solve_for_naked_pairs: when two squares sharing a unit hold the same
     * two candidates, the unsolved squares in the units of both lose them.
     * Solved squares stay, no square gains a candidate, and every candidate
     * a square loses was taken by such a naked pair on a board between the
     * first and the last.
     */
    method NakedPairs()
      requires Valid()
      modifies cells
      ensures Valid() && PairedSince(old(Board()), Board())
      ensures PairsCleared(old(Board()), Board())
    {
      ghost var b0 := Board();
      for row := 0 to SizeGrid
        invariant Valid() && PairedSince(b0, Board()) && ClearedBefore(b0, Board(), row, 0)
      {
        for col := 0 to SizeGrid
          invariant Valid() && PairedSince(b0, Board()) && ClearedBefore(b0, Board(), row, col)
        {
          ghost var b := Board();
          NakedPairsAt(row, col);
          PairedTrans(b0, b, Board());
          DigitsShrink(b0, Board());
          ClearedRebase(b0, b, Board(), Pos(row, col));
          forall p | p in b0 && Before(p, row, col + 1) ensures ClearedAt(b0, Board(), p) {
            if p != Pos(row, col) {
              ClearedShrinks(b0, b, Board(), p);
            }
          }
        }
        assert forall p :: p in b0 && Before(p, row + 1, 0) ==> Before(p, row, SizeGrid);
      }
      assert forall p :: p in b0 ==> Before(p, SizeGrid, 0);
    }

    /** Whether some square of rs holds a candidate other than a and c. */
    method HoldsOther(rs: set<Pos>, a: int, c: int) returns (found: bool)
      requires Shape() && forall r :: r in rs ==> OnBoard(r)
      ensures found <==> exists r :: r in rs && !(Board()[r] <= {a, c})
    {
      found := false;
      var todo := rs;
      while todo != {}
        invariant todo <= rs
        invariant found <==> exists r :: r in rs - todo && !(Board()[r] <= {a, c})
        decreases todo
      {
        var r :| r in todo;
        if !(cells[r.row, r.col] <= {a, c}) {
          found := true;
        }
        assert rs - (todo - {r}) == (rs - todo) + {r};
        todo := todo - {r};
      }
      assert rs - todo == rs;
    }

    /**
     * The intercept test of solve_for_hidden_pairs for squares (row, col) and
     * q: whether a square in the rows, boxes or columns of both holds a
     * candidate other than a and c.
     */
    method InterceptHoldsOther(row: int, col: int, q: Pos, a: int, c: int) returns (other: bool)
      requires Shape() && OnBoard(Pos(row, col)) && OnBoard(q)
      ensures other <==> exists r :: r in HiddenIntercept(Pos(row, col), q) && r in Board() && !(Board()[r] <= {a, c})
    {
      var rowSet := RowCells(row, col);
      var rowSet2 := RowCells(q.row, q.col);
      var colSet := ColCells(row, col);
      var colSet2 := ColCells(q.row, q.col);
      var subgridSet := SubgridCells(row, col);
      var subgridSet2 := SubgridCells(q.row, q.col);
      var rs := Intersect(rowSet, rowSet2) + Intersect(subgridSet, subgridSet2) + Intersect(colSet, colSet2);
      assert rs == HiddenIntercept(Pos(row, col), q);
      InterceptOnBoard(Pos(row, col), q);
      other := HoldsOther(rs, a, c);
    }

    /**
     * One square of solve_for_hidden_pairs: the copy of the square's
     * candidates the pass narrows. For each unsolved square q of its units
     * (itself included) sharing exactly two candidates with the copy, the
     * copy becomes that pair when a square in the rows, boxes or columns of
     * both holds some other candidate. The copy ends as the square's
     * candidates or as two of them.
     */
    method HiddenPairCandidates(row: int, col: int) returns (candidates: Candidates)
      requires Shape() && OnBoard(Pos(row, col))
      ensures candidates <= Board()[Pos(row, col)]
      ensures candidates == Board()[Pos(row, col)] || |candidates| == 2
    {
      var p := Pos(row, col);
      candidates := cells[row, col];
      var first := UnsolvedRCSOf(row, col);
      var todo := first;
      while todo != {}
        invariant todo <= first
        invariant candidates <= Board()[p]
        invariant candidates == Board()[p] || |candidates| == 2
        decreases todo
      {
        var q :| q in todo;
        assert q in UnsolvedRCS(Board(), p) && OnBoard(q);
        var candidates2 := cells[q.row, q.col];
        var common := candidates * candidates2;
        if |common| == 2 {
          var a, c := PairOf(common);
          var other := InterceptHoldsOther(row, col, q, a, c);
          if other {
            candidates := {a, c};
          }
        }
        todo := todo - {q};
      }
    }

    /**
     * solve_for_hidden_pairs: the narrowed candidates are copies local to
     * each square's step and are dropped, so no square of the grid changes.
     */
    method SolveForHiddenPairs()
      requires Shape()
      ensures Board() == old(Board())
    {
      for row := 0 to SizeGrid {
        for col := 0 to SizeGrid {
          var candidates := HiddenPairCandidates(row, col);
        }
      }
    }

    /** reducing_candidates_and_not_solved: the total moved in the last round and is not 81 yet. */
    predicate Reducing(before: int, after: int) {
      before != after && after != NumCells
    }

    /**
     * One round of solve's loop: remove_candidates, the row, column and box
     * passes and solve_for_naked_pairs. Solved squares stay and no square
     * gains a candidate; a round that changes nothing leaves a board on
     * which each pass has nothing left to do.
     */
    method Round()
      requires Valid()
      modifies cells
      ensures Valid() && Keeps(old(Board()), Board()) && Shrinks(old(Board()), Board())
      ensures Board() == old(Board()) ==> Stuck(Board())
    {
      ghost var b := Board();
      RemoveCandidates();
      ghost var b1 := Board();
      SolveForUnit(RowUnit);
      ghost var b2 := Board();
      SolveForUnit(ColUnit);
      ghost var b3 := Board();
      SolveForUnit(BoxUnit);
      ghost var b4 := Board();
      NakedPairs();
      KeepsTrans(b, b1, b2);
      KeepsTrans(b, b2, b3);
      KeepsTrans(b, b3, b4);
      KeepsTrans(b, b4, Board());
      ShrinksTrans(b, b1, b2);
      ShrinksTrans(b, b2, b3);
      ShrinksTrans(b, b3, b4);
      ShrinksTrans(b, b4, Board());
      if Board() == b {
        RoundStuck(b, b1, b2, b3, b4);
      }
    }

    /**
     * solve: initialise, then rounds of remove_candidates, the row, column
     * and box passes and solve_for_naked_pairs, while the total number of
     * candidates keeps falling and has not reached 81. The answer is whether
     * it reached 81; solved squares of the input stay as they are.
     */
    method Solve() returns (r: bool)
      requires Valid()
      modifies cells
      ensures Valid() && Keeps(old(Board()), Board())
      ensures r <==> Count(Board()) == NumCells
      ensures !r ==> Stuck(Board())
    {
      ghost var b0 := Board();
      var before, after := 0, -1;
      Initialise();
      while Reducing(before, after)
        invariant Valid() && Keeps(b0, Board())
        invariant after == -1 ==> before == 0
        invariant after != -1 ==> after == Count(Board())
        invariant after != -1 && before == after ==> Stuck(Board())
        decreases Count(Board()), if after == -1 then 2 else if before != after then 1 else 0
      {
        ghost var b := Board();
        before := after;
        after := 0;
        Round();
        KeepsTrans(b0, b, Board());
        CountShrinks(b, Board(), NumCells);
        after := TotalCandidates();
        if before == after {
          SameCountSame(b, Board());
        }
      }
      r := after == NumCells;
    }

    /**
     * The guesses of solve_by_guessing at the two-candidate square (row, col).
     * A copy of the grid with the smaller candidate assigned is solved first
     * (first is that copy's board); when it reaches 81 candidates, the guess
     * is assigned here and the grid solved. Otherwise a copy with the smaller
     * candidate removed is solved (second); when that reaches 81, the other
     * candidate is assigned here and the grid solved. When neither gets there
     * the grid is left as it was.
     */
    method GuessAt(row: int, col: int) returns (r: bool, ghost first: Board, ghost second: Board)
      requires Valid() && OnBoard(Pos(row, col)) && |Board()[Pos(row, col)]| == 2
      modifies cells
      ensures Valid() && Keeps(old(Board()), Board())
      ensures var b0, p := old(Board()), Pos(row, col);
        Full(first) && Keeps(b0[p := {Smallest(b0[p])}], first)
      ensures Count(first) != NumCells ==> Stuck(first)
      ensures var b0, p := old(Board()), Pos(row, col);
        Count(first) == NumCells ==> r && Keeps(b0[p := {Smallest(b0[p])}], Board())
      ensures var b0, p := old(Board()), Pos(row, col);
        Count(first) != NumCells ==>
          && Full(second) && Keeps(b0[p := b0[p] - {Smallest(b0[p])}], second)
          && (r <==> Count(second) == NumCells)
          && (r ==> Keeps(b0[p := b0[p] - {Smallest(b0[p])}], Board()))
      ensures !r ==> Board() == old(Board()) && Stuck(second)
    {
      var p := Pos(row, col);
      ghost var b0 := Board();
      var firstGuess := Least(cells[row, col]);
      GuessDigits(b0, p, firstGuess);
      assert firstGuess == Smallest(b0[p]) && Assigned(cells[row, col], firstGuess) == {firstGuess};
      var solved1, _, board1 := SolveCopyWith(p, Assigned(cells[row, col], firstGuess));
      assert Full(board1) && Keeps(b0[p := {Smallest(b0[p])}], board1);
      first, second := board1, board1;
      if solved1 {
        Settle(p, firstGuess);
        return true, first, second;
      }
      r, second := GuessOther(row, col, firstGuess);
    }

    /**
     * The second guess of solve_by_guessing at the two-candidate square
     * (row, col), once the copy with the smaller candidate firstGuess failed:
     * a copy with firstGuess removed is solved (second); when that reaches 81
     * candidates, what the copy's square holds is assigned here and the grid
     * solved, else the grid is left as it was.
     */
    method GuessOther(row: int, col: int, firstGuess: int) returns (r: bool, ghost second: Board)
      requires Valid() && OnBoard(Pos(row, col)) && |Board()[Pos(row, col)]| == 2
      requires firstGuess == Smallest(Board()[Pos(row, col)])
      modifies cells
      ensures Valid() && Keeps(old(Board()), Board())
      ensures var b0, p := old(Board()), Pos(row, col);
        && Full(second) && Keeps(b0[p := b0[p] - {firstGuess}], second)
        && (r <==> Count(second) == NumCells)
        && (r ==> Keeps(b0[p := b0[p] - {firstGuess}], Board()))
      ensures !r ==> Board() == old(Board()) && Stuck(second)
    {
      var p := Pos(row, col);
      ghost var b0 := Board();
      assert b0[p] == cells[row, col];
      var rest := cells[row, col] - {firstGuess};
      assert |rest| == 1;
      var secondGuess := Least(rest);
      GuessDigits(b0, p, secondGuess);
      Singleton(rest, secondGuess);
      var solved2, at, board2 := SolveCopyWith(p, rest);
      second := board2;
      r := solved2;
      if solved2 {
        var other := Least(at);
        Settle(p, other);
      }
    }

    /**
     * One of solve_by_guessing's temporary grids: a copy of this grid whose
     * square p holds v, solved. Reports whether the copy reached 81 candidates
     * and what square p of the copy holds then; the copy's board is board,
     * and this grid is not touched.
     */
    method SolveCopyWith(p: Pos, v: Candidates) returns (solved: bool, at: Candidates, ghost board: Board)
      requires Valid() && OnBoard(p) && Digits(Board()[p := v])
      ensures Full(board) && Digits(board) && Keeps(Board()[p := v], board)
      ensures at == board[p]
      ensures solved <==> Count(board) == NumCells
      ensures !solved ==> Stuck(board)
    {
      var copy := new Grid.Copy(this);
      copy.Put(p, v);
      solved := copy.Solve();
      at := copy.cells[p.row, p.col];
      board := copy.Board();
    }

    /** `*m_cells[row][col] = value` followed by solve(), for a digit value of a two-candidate square. */
    method Settle(p: Pos, value: int)
      requires Valid() && OnBoard(p) && |Board()[p]| == 2 && value in Board()[p]
      modifies cells
      ensures Valid() && Keeps(old(Board()), Board())
      ensures Keeps(old(Board())[p := {value}], Board()) && Board()[p] == {value}
    {
      ghost var b0 := Board();
      GuessDigits(b0, p, value);
      Put(p, Assigned(cells[p.row, p.col], value));
      ghost var b1 := Board();
      var solvedAgain := Solve();
      KeepsTrans(b0, b1, Board());
    }

    /**
     * solve_by_guessing: guesses at each two-candidate square in row-major
     * order (GuessAt) until one succeeds. The guesses that failed are
     * recorded in failed with the boards of their two copies. The answer
     * false leaves the grid as it was, every two-candidate square having
     * failed; true means some two-candidate square is now solved as one of
     * its candidates, every two-candidate square before it having failed.
     */
    method SolveByGuessing() returns (r: bool, ghost failed: map<Pos, (Board, Board)>)
      requires Valid()
      modifies cells
      ensures Valid() && Keeps(old(Board()), Board())
      ensures forall q :: q in failed ==> GuessFailed(old(Board()), q, failed[q].0, failed[q].1)
      ensures !r ==> Board() == old(Board())
      ensures !r ==> forall q :: q in old(Board()) && |old(Board())[q]| == 2 ==> q in failed
      ensures r ==> exists p :: p in old(Board()) && |old(Board())[p]| == 2
                      && IsSolved(Board()[p]) && Board()[p] <= old(Board())[p]
                      && forall q :: q in old(Board()) && |old(Board())[q]| == 2 && Before(q, p.row, p.col) ==> q in failed
    {
      ghost var b0 := Board();
      failed := map[];
      for row := 0 to SizeGrid
        invariant Valid() && Board() == b0
        invariant forall q :: q in failed ==> GuessFailed(b0, q, failed[q].0, failed[q].1)
        invariant forall q :: q in b0 && |b0[q]| == 2 && Before(q, row, 0) ==> q in failed
      {
        r, failed := GuessRow(row, b0, failed);
        if r {
          return;
        }
      }
      return false, failed;
    }

    /**
     * One row of solve_by_guessing, every two-candidate square of the rows
     * above having failed (failed). The answer false leaves the grid and adds
     * the squares of this row to failed; true solves a square of this row as
     * one of its candidates, every two-candidate square before it having failed.
     */
    method GuessRow(row: int, ghost b0: Board, ghost failed: map<Pos, (Board, Board)>)
      returns (r: bool, ghost failed': map<Pos, (Board, Board)>)
      requires Valid() && 0 <= row < SizeGrid && Board() == b0
      requires forall q :: q in failed ==> GuessFailed(b0, q, failed[q].0, failed[q].1)
      requires forall q :: q in b0 && |b0[q]| == 2 && Before(q, row, 0) ==> q in failed
      modifies cells
      ensures Valid() && Keeps(b0, Board())
      ensures forall q :: q in failed' ==> GuessFailed(b0, q, failed'[q].0, failed'[q].1)
      ensures !r ==> Board() == b0
      ensures !r ==> forall q :: q in b0 && |b0[q]| == 2 && Before(q, row + 1, 0) ==> q in failed'
      ensures r ==> exists p :: p in b0 && |b0[p]| == 2
                      && IsSolved(Board()[p]) && Board()[p] <= b0[p]
                      && forall q :: q in b0 && |b0[q]| == 2 && Before(q, p.row, p.col) ==> q in failed'
    {
      failed' := failed;
      for col := 0 to SizeGrid
        invariant Valid() && Board() == b0
        invariant forall q :: q in failed' ==> GuessFailed(b0, q, failed'[q].0, failed'[q].1)
        invariant forall q :: q in b0 && |b0[q]| == 2 && Before(q, row, col) ==> q in failed'
      {
        ghost var p := Pos(row, col);
        r, failed' := GuessSquare(row, col, b0, failed');
        if r {
          assert forall q :: q in b0 && |b0[q]| == 2 && Before(q, p.row, p.col) ==> q in failed';
          return;
        }
        assert forall q :: q in b0 ==> (Before(q, row, col + 1) <==> Before(q, row, col) || q == p);
      }
      assert forall q :: q in b0 ==> (Before(q, row + 1, 0) <==> Before(q, row, SizeGrid));
      r := false;
    }

    /**
     * One square of solve_by_guessing: when it holds two candidates, guess
     * there (GuessAt). The answer false leaves the grid, recording a
     * two-candidate square in failed; true solves it as one of its candidates.
     */
    method GuessSquare(row: int, col: int, ghost b0: Board, ghost failed: map<Pos, (Board, Board)>)
      returns (r: bool, ghost failed': map<Pos, (Board, Board)>)
      requires Valid() && OnBoard(Pos(row, col)) && Board() == b0
      requires forall q :: q in failed ==> GuessFailed(b0, q, failed[q].0, failed[q].1)
      modifies cells
      ensures Valid() && Keeps(b0, Board())
      ensures forall q :: q in failed' ==> GuessFailed(b0, q, failed'[q].0, failed'[q].1)
      ensures !r ==> Board() == b0
      ensures !r ==> forall q :: q in failed || (q == Pos(row, col) && |b0[q]| == 2) ==> q in failed'
      ensures r ==> var p := Pos(row, col);
        |b0[p]| == 2 && IsSolved(Board()[p]) && Board()[p] <= b0[p] && failed' == failed
    {
      var p := Pos(row, col);
      failed' := failed;
      r := false;
      if |cells[row, col]| == 2 {
        ghost var first, second;
        r, first, second := GuessAt(row, col);
        if r {
          GuessSolved(b0, p, first, Board());
          return;
        }
        failed' := failed[p := (first, second)];
      }
    }
  }
}
