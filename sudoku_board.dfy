/**
 * The Sudoku board as a value: squares named by (row, column), the row, column
 * and 3x3 box ("RCS") each square belongs to, and the facts about candidate
 * sets that the grid's elimination passes establish.
 */
module SudokuBoard {
  import opened SudokuCell

  const SizeSubgrid: int := 3
  const SizeGrid: int := 9
  const NumCells: int := 81

  /** A square, by row and column (the grid's m_cells[row][col]). */
  datatype Pos = Pos(row: int, col: int)

  predicate OnBoard(p: Pos) {
    0 <= p.row < SizeGrid && 0 <= p.col < SizeGrid
  }

  /** The upper-left square of p's box: ((row / 3) * 3, (col / 3) * 3). */
  function Corner(p: Pos): Pos {
    Pos((p.row / SizeSubgrid) * SizeSubgrid, (p.col / SizeSubgrid) * SizeSubgrid)
  }

  /** The k-th square of p's box in the order of the source's (i, j) loops, k = 3 * i + j. */
  function BoxSquare(p: Pos, k: int): Pos {
    Pos(Corner(p).row + k / SizeSubgrid, Corner(p).col + k % SizeSubgrid)
  }

  function AllPos(): set<Pos> {
    set r, c | 0 <= r < SizeGrid && 0 <= c < SizeGrid :: Pos(r, c)
  }

  lemma AllPosOnBoard(p: Pos)
    ensures p in AllPos() <==> OnBoard(p)
  {
    if OnBoard(p) {
      assert p == Pos(p.row, p.col);
    }
  }

  /** The squares of row in columns [0, n). */
  function RowPart(row: int, n: int): set<Pos> {
    set c | 0 <= c < n :: Pos(row, c)
  }

  /** The squares of column col in rows [0, n). */
  function ColPart(col: int, n: int): set<Pos> {
    set r | 0 <= r < n :: Pos(r, col)
  }

  /** The first n squares of p's box. */
  function BoxPart(p: Pos, n: int): set<Pos> {
    set k | 0 <= k < n :: BoxSquare(p, k)
  }

  /** The squares get_solved_RCS and get_unsolved_RCS scan for p: its row, its column and its box, p included. */
  function RCS(p: Pos): set<Pos> {
    RowPart(p.row, SizeGrid) + ColPart(p.col, SizeGrid) + BoxPart(p, SizeGrid)
  }

  /** get_row_cells(row, exclude): the squares of row outside column exclude. */
  function RowPeers(row: int, exclude: int): set<Pos> {
    RowPart(row, SizeGrid) - {Pos(row, exclude)}
  }

  /** get_col_cells(exclude, col): the squares of column col outside row exclude. */
  function ColPeers(exclude: int, col: int): set<Pos> {
    ColPart(col, SizeGrid) - {Pos(exclude, col)}
  }

  /** The three kinds of unit solve_for_row, solve_for_col and solve_for_subgrid work on. */
  datatype Unit = RowUnit | ColUnit | BoxUnit

  /** The other squares of p's unit of the given kind. */
  function UnitPeers(kind: Unit, p: Pos): set<Pos> {
    match kind
    case RowUnit => RowPeers(p.row, p.col)
    case ColUnit => ColPeers(p.row, p.col)
    case BoxUnit => BoxPeers(p)
  }

  lemma RowPartStep(row: int, n: int)
    requires n >= 0
    ensures RowPart(row, n + 1) == RowPart(row, n) + {Pos(row, n)}
    ensures Pos(row, n) !in RowPart(row, n)
  {
  }

  lemma ColPartStep(col: int, n: int)
    requires n >= 0
    ensures ColPart(col, n + 1) == ColPart(col, n) + {Pos(n, col)}
    ensures Pos(n, col) !in ColPart(col, n)
  {
  }

  lemma BoxPartStep(p: Pos, n: int)
    requires OnBoard(p) && 0 <= n < SizeGrid
    ensures BoxPart(p, n + 1) == BoxPart(p, n) + {BoxSquare(p, n)}
    ensures BoxSquare(p, n) !in BoxPart(p, n)
  {
    forall k | 0 <= k < n ensures BoxSquare(p, k) != BoxSquare(p, n) {
      BoxSquareFacts(p, k, n);
    }
  }

  /** The first n box squares are n distinct squares. */
  lemma {:induction false} BoxPartSize(p: Pos, n: int)
    requires OnBoard(p) && 0 <= n <= SizeGrid
    ensures |BoxPart(p, n)| == n
  {
    if n == 0 {
      assert BoxPart(p, 0) == {};
    } else {
      BoxPartSize(p, n - 1);
      BoxPartStep(p, n - 1);
    }
  }

  /** One more step of the row and column loops adds one square of each. */
  lemma LinesStep(row: int, col: int, i: int)
    requires i >= 0
    ensures RowPart(row, i + 1) + ColPart(col, i + 1) == RowPart(row, i) + ColPart(col, i) + {Pos(row, i)} + {Pos(i, col)}
  {
    RowPartStep(row, i);
    ColPartStep(col, i);
  }

  /** The first n squares of a row are n distinct squares. */
  lemma {:induction false} RowPartSize(row: int, n: int)
    requires n >= 0
    ensures |RowPart(row, n)| == n
  {
    if n == 0 {
      assert RowPart(row, 0) == {};
    } else {
      RowPartSize(row, n - 1);
      RowPartStep(row, n - 1);
    }
  }

  /** The first n squares of a column are n distinct squares. */
  lemma {:induction false} ColPartSize(col: int, n: int)
    requires n >= 0
    ensures |ColPart(col, n)| == n
  {
    if n == 0 {
      assert ColPart(col, 0) == {};
    } else {
      ColPartSize(col, n - 1);
      ColPartStep(col, n - 1);
    }
  }

  /**
   * The source's loops over a box visit, at (i, j), the square i rows and j
   * columns past the box corner: an on-board square, new to the box part
   * before it, which it extends by one.
   */
  lemma BoxStep(p: Pos, i: int, j: int)
    requires OnBoard(p) && 0 <= i < SizeSubgrid && 0 <= j < SizeSubgrid
    ensures 0 <= i * SizeSubgrid + j < SizeGrid
    ensures OnBoard(Pos(Corner(p).row + i, Corner(p).col + j))
    ensures Pos(Corner(p).row + i, Corner(p).col + j) !in BoxPart(p, i * SizeSubgrid + j)
    ensures BoxPart(p, i * SizeSubgrid + j + 1) == BoxPart(p, i * SizeSubgrid + j) + {Pos(Corner(p).row + i, Corner(p).col + j)}
  {
    var k := i * SizeSubgrid + j;
    BoxSquareAt(p, i, j);
    BoxPartStep(p, k);
    BoxSquareFacts(p, k, k);
  }

  /** The source's box square ((row / 3) * 3 + i, (col / 3) * 3 + j) is box square 3 * i + j. */
  lemma BoxSquareAt(p: Pos, i: int, j: int)
    requires 0 <= i < SizeSubgrid && 0 <= j < SizeSubgrid
    ensures BoxSquare(p, i * SizeSubgrid + j) == Pos(Corner(p).row + i, Corner(p).col + j)
  {
  }

  /** The squares of a unit are on the board, and p lies in its own box. */
  lemma PartsOnBoard(p: Pos)
    requires OnBoard(p)
    ensures forall q :: q in RowPart(p.row, SizeGrid) ==> OnBoard(q)
    ensures forall q :: q in ColPart(p.col, SizeGrid) ==> OnBoard(q)
    ensures forall q :: q in BoxPart(p, SizeGrid) ==> OnBoard(q)
    ensures p in BoxPart(p, SizeGrid)
  {
    forall q | q in BoxPart(p, SizeGrid) ensures OnBoard(q) {
      var k :| 0 <= k < SizeGrid && q == BoxSquare(p, k);
      BoxSquareFacts(p, k, k);
    }
    InBox(p, p);
  }

  /** get_subgrid_cells(row, col): the squares of p's box other than p. */
  function BoxPeers(p: Pos): set<Pos> {
    BoxPart(p, SizeGrid) - {p}
  }

  /**
   * The squares solve_for_hidden_pairs inspects for the squares p and q:
   * those in the rows of both, the boxes of both and the columns of both,
   * other than p and q themselves.
   */
  function HiddenIntercept(p: Pos, q: Pos): set<Pos> {
    (RowPeers(p.row, p.col) * RowPeers(q.row, q.col))
    + (BoxPeers(p) * BoxPeers(q))
    + (ColPeers(p.row, p.col) * ColPeers(q.row, q.col))
  }

  /** The intercept of an on-board square lies on the board. */
  lemma InterceptOnBoard(p: Pos, q: Pos)
    requires OnBoard(p)
    ensures forall r :: r in HiddenIntercept(p, q) ==> OnBoard(r)
  {
    PartsOnBoard(p);
  }

  lemma DivBox(n: int)
    requires 0 <= n < SizeGrid
    ensures 0 <= n / SizeSubgrid < SizeSubgrid && (n / SizeSubgrid) * SizeSubgrid <= n < (n / SizeSubgrid) * SizeSubgrid + SizeSubgrid
  {
  }

  /** The box of an on-board square is made of on-board squares, and the box squares are distinct. */
  lemma BoxSquareFacts(p: Pos, k: int, k': int)
    requires OnBoard(p) && 0 <= k < SizeGrid && 0 <= k' < SizeGrid
    ensures OnBoard(BoxSquare(p, k))
    ensures Corner(BoxSquare(p, k)) == Corner(p)
    ensures k != k' ==> BoxSquare(p, k) != BoxSquare(p, k')
  {
    DivBox(p.row);
    DivBox(p.col);
    var c := Corner(p);
    var q := BoxSquare(p, k);
    assert 0 <= k / 3 < 3 && 0 <= k % 3 < 3;
    assert q.row / 3 == p.row / 3 by {
      assert c.row == (p.row / 3) * 3;
      assert c.row <= q.row < c.row + 3;
    }
    assert q.col / 3 == p.col / 3 by {
      assert c.col == (p.col / 3) * 3;
      assert c.col <= q.col < c.col + 3;
    }
    if k != k' {
      assert k == (k / 3) * 3 + k % 3 && k' == (k' / 3) * 3 + k' % 3;
    }
  }

  /** Every square sharing p's box is one of the box squares. */
  lemma InBox(p: Pos, q: Pos)
    requires OnBoard(p) && OnBoard(q) && Corner(q) == Corner(p)
    ensures q in BoxPart(p, SizeGrid)
  {
    DivBox(q.row);
    DivBox(q.col);
    var k := (q.row - Corner(p).row) * 3 + (q.col - Corner(p).col);
    assert 0 <= q.row - Corner(p).row < 3 && 0 <= q.col - Corner(p).col < 3;
    assert k / 3 == q.row - Corner(p).row && k % 3 == q.col - Corner(p).col;
    assert BoxSquare(p, k) == q;
  }

  /** A square's units, described directly: the same row, the same column, or the same box. */
  lemma RCSMembers(p: Pos, q: Pos)
    requires OnBoard(p)
    ensures q in RCS(p) <==> OnBoard(q) && (q.row == p.row || q.col == p.col || Corner(q) == Corner(p))
  {
    if q in BoxPart(p, SizeGrid) {
      var k :| 0 <= k < SizeGrid && q == BoxSquare(p, k);
      BoxSquareFacts(p, k, k);
    }
    if OnBoard(q) && Corner(q) == Corner(p) {
      InBox(p, q);
    }
    if OnBoard(q) && q.row == p.row {
      assert q in RowPart(p.row, SizeGrid);
    }
    if OnBoard(q) && q.col == p.col {
      assert q in ColPart(p.col, SizeGrid);
    }
  }

  /** The candidate sets of a whole grid, square by square. */
  type Board = map<Pos, Candidates>

  /** A board with exactly the 81 squares. */
  ghost predicate Full(b: Board) {
    forall p :: p in b <==> OnBoard(p)
  }

  /** The candidate sets of the solved squares among qs (one entry per distinct solution). */
  function SolvedOf(b: Board, qs: set<Pos>): set<Candidates> {
    set q | q in qs && q in b && IsSolved(b[q]) :: b[q]
  }

  /** get_solved_RCS: the solved squares of p's row, column and box, told apart by their candidates. */
  function SolvedSets(b: Board, p: Pos): set<Candidates> {
    SolvedOf(b, RCS(p))
  }

  /** The unsolved squares among qs. */
  function UnsolvedOf(b: Board, qs: set<Pos>): set<Pos> {
    set q | q in qs && q in b && !IsSolved(b[q])
  }

  /** get_unsolved_RCS: the unsolved squares of p's row, column and box. */
  function UnsolvedRCS(b: Board, p: Pos): set<Pos> {
    UnsolvedOf(b, RCS(p))
  }

  /** get_*_values: every candidate of the squares qs. */
  function Values(b: Board, qs: set<Pos>): set<int> {
    set q, v | q in qs && q in b && v in b[q] :: v
  }

  /** The digits initialise gives an unsolved square: 1 to 9, less those solved in p's units. */
  function Feasible(b: Board, p: Pos): set<int> {
    set i | 1 <= i <= SizeGrid && {i} !in SolvedSets(b, p)
  }

  /**
   * A digit is feasible for p exactly when no square of p's row, column or
   * box is solved as that digit; the solved squares' solutions are exactly
   * the digits solved there.
   */
  lemma FeasibleMeaning(b: Board, p: Pos, i: int)
    ensures i in Feasible(b, p) <==>
      1 <= i <= SizeGrid && !exists q :: q in RCS(p) && q in b && IsSolved(b[q]) && SolutionOf(b[q]) == i
    ensures i in Solutions(SolvedSets(b, p)) <==>
      exists q :: q in RCS(p) && q in b && IsSolved(b[q]) && SolutionOf(b[q]) == i
  {
    if 1 <= i <= SizeGrid && {i} in SolvedSets(b, p) {
      var q :| q in RCS(p) && q in b && IsSolved(b[q]) && b[q] == {i};
      assert SolutionOf(b[q]) == i;
    }
    if exists q :: q in RCS(p) && q in b && IsSolved(b[q]) && SolutionOf(b[q]) == i {
      var q :| q in RCS(p) && q in b && IsSolved(b[q]) && SolutionOf(b[q]) == i;
      assert b[q] in SolvedSets(b, p);
    }
  }

  lemma SolvedOfAdd(b: Board, qs: set<Pos>, q: Pos)
    requires q in b
    ensures SolvedOf(b, qs + {q}) == SolvedOf(b, qs) + (if IsSolved(b[q]) then {b[q]} else {})
  {
  }

  lemma UnsolvedOfAdd(b: Board, qs: set<Pos>, q: Pos)
    requires q in b
    ensures UnsolvedOf(b, qs + {q}) == UnsolvedOf(b, qs) + (if IsSolved(b[q]) then {} else {q})
  {
  }

  lemma ValuesAdd(b: Board, qs: set<Pos>, q: Pos)
    requires q in b
    ensures Values(b, qs + {q}) == Values(b, qs) + b[q]
  {
    forall v | v in b[q] ensures v in Values(b, qs + {q}) {
      assert q in qs + {q};
    }
  }

  /** Solved squares stay as they are. */
  predicate Keeps(b0: Board, b: Board) {
    b.Keys == b0.Keys && forall p :: p in b0 && IsSolved(b0[p]) ==> b[p] == b0[p]
  }

  /** No square gains a candidate. */
  predicate Shrinks(b0: Board, b: Board) {
    b.Keys == b0.Keys && forall p :: p in b0 ==> b[p] <= b0[p]
  }

  /** Two boards with the same solved squares. */
  predicate SameSolved(b1: Board, b2: Board) {
    b1.Keys == b2.Keys && forall p :: p in b1 && (IsSolved(b1[p]) || IsSolved(b2[p])) ==> b1[p] == b2[p]
  }

  /** The number of unsolved squares, the measure of the passes that restart from the top. */
  function Unsolved(b: Board): nat {
    |UnsolvedOf(b, b.Keys)|
  }

  /** Changing an unsolved square into another unsolved one leaves the solved squares alone. */
  lemma SameSolvedUpdate(b: Board, p: Pos, v: Candidates)
    requires p in b && !IsSolved(b[p]) && !IsSolved(v)
    ensures SameSolved(b, b[p := v]) && Keeps(b, b[p := v])
    ensures Unsolved(b[p := v]) == Unsolved(b)
  {
    assert UnsolvedOf(b[p := v], b[p := v].Keys) == UnsolvedOf(b, b.Keys);
  }

  /** Solving an unsolved square leaves one square fewer unsolved. */
  lemma SolvingUpdate(b: Board, p: Pos, v: Candidates)
    requires p in b && !IsSolved(b[p]) && IsSolved(v)
    ensures Keeps(b, b[p := v])
    ensures Unsolved(b[p := v]) < Unsolved(b)
  {
    assert UnsolvedOf(b[p := v], b[p := v].Keys) == UnsolvedOf(b, b.Keys) - {p};
  }

  /** Boards with the same solved squares give every square the same feasible digits. */
  lemma SameSolvedFeasible(b1: Board, b2: Board)
    requires SameSolved(b1, b2)
    ensures forall q :: Feasible(b1, q) == Feasible(b2, q)
  {
    forall q ensures Feasible(b1, q) == Feasible(b2, q) {
      SameSolvedSets(b1, b2, RCS(q));
    }
  }

  /** Keeping solved squares keeps, for every square, the digits solved in its units. */
  lemma KeepsSolutions(b0: Board, b: Board)
    requires Keeps(b0, b)
    ensures forall q :: Solutions(SolvedSets(b0, q)) <= Solutions(SolvedSets(b, q))
  {
    forall q ensures Solutions(SolvedSets(b0, q)) <= Solutions(SolvedSets(b, q)) {
      KeepsSolvedSets(b0, b, RCS(q));
    }
  }

  /**
   * Every square is blank or holds digits 1 to 9 only: what the grid's input
   * reader can produce, and what every pass keeps.
   */
  predicate Digits(b: Board) {
    forall p :: p in b ==> b[p] == {0} || forall v :: v in b[p] ==> 1 <= v <= SizeGrid
  }

  /** Losing candidates keeps a board of digits one. */
  lemma DigitsShrink(b0: Board, b: Board)
    requires Digits(b0) && Shrinks(b0, b)
    ensures Digits(b)
  {
    forall p | p in b ensures b[p] == {0} || forall v :: v in b[p] ==> 1 <= v <= SizeGrid {
      if b0[p] == {0} && b[p] != {0} {
        assert forall v :: v in b[p] ==> v in b0[p];
      }
    }
  }

  /** What initialise and the passes compute depends only on the solved squares. */
  lemma SameSolvedSets(b1: Board, b2: Board, qs: set<Pos>)
    requires SameSolved(b1, b2)
    ensures SolvedOf(b1, qs) == SolvedOf(b2, qs)
  {
    forall s | s in SolvedOf(b1, qs) ensures s in SolvedOf(b2, qs) {
      var q :| q in qs && q in b1 && IsSolved(b1[q]) && b1[q] == s;
      assert b2[q] == s;
    }
    forall s | s in SolvedOf(b2, qs) ensures s in SolvedOf(b1, qs) {
      var q :| q in qs && q in b2 && IsSolved(b2[q]) && b2[q] == s;
      assert b1[q] == s;
    }
  }

  /** Keeping solved squares can only add solved squares. */
  lemma KeepsSolvedSets(b0: Board, b: Board, qs: set<Pos>)
    requires Keeps(b0, b)
    ensures SolvedOf(b0, qs) <= SolvedOf(b, qs)
  {
    forall s | s in SolvedOf(b0, qs) ensures s in SolvedOf(b, qs) {
      var q :| q in qs && q in b0 && IsSolved(b0[q]) && b0[q] == s;
      assert b[q] == s;
    }
  }

  /** Whether every square of rows before row, and of row before col, comes earlier in row-major order. */
  predicate Before(p: Pos, row: int, col: int) {
    p.row < row || (p.row == row && p.col < col)
  }

  /** The largest member of a non-empty finite set. */
  ghost function Largest(s: set<int>): (m: int)
    requires s != {}
    ensures m in s && forall x :: x in s ==> x <= m
    decreases s
  {
    Member(s);
    var x :| x in s;
    if s - {x} == {} then
      assert forall y :: y in s ==> y == x by {
        forall y | y in s ensures y == x {
          assert y !in s - {x};
        }
      }
      x
    else
      var m := Largest(s - {x});
      assert forall y :: y in s ==> y == x || y in s - {x};
      if x < m then m else x
  }

  /** The smallest member of a non-empty finite set. */
  ghost function Smallest(s: set<int>): (m: int)
    requires s != {}
    ensures m in s && forall x :: x in s ==> m <= x
    decreases s
  {
    Member(s);
    var x :| x in s;
    if s - {x} == {} then
      assert forall y :: y in s ==> y == x by {
        forall y | y in s ensures y == x {
          assert y !in s - {x};
        }
      }
      x
    else
      var m := Smallest(s - {x});
      assert forall y :: y in s ==> y == x || y in s - {x};
      if x < m then x else m
  }

  /** The non-zero candidates of cs that no other square of the unit holds. */
  function Lonely(cs: Candidates, values: set<int>): set<int> {
    set v | v in cs && v !in values && v != 0
  }

  /**
   * What solve_for_row, solve_for_col and solve_for_subgrid do to an unsolved
   * square whose unit's other squares hold the candidates values: unless
   * values numbers nine digits, each candidate of cs the unit lacks is
   * assigned in ascending order, so the square ends solved as the largest such
   * non-zero candidate, or unchanged when there is none.
   */
  ghost function SingleOut(cs: Candidates, values: set<int>): (r: Candidates)
    ensures r <= cs
    ensures r == cs || IsSolved(r)
    ensures |values| != SizeGrid && Lonely(cs, values) != {} ==> IsSolved(r) && SolutionOf(r) in Lonely(cs, values)
    ensures |values| == SizeGrid || Lonely(cs, values) == {} ==> r == cs
  {
    var u := Lonely(cs, values);
    if |values| == SizeGrid || u == {} then cs
    else
      NewCells(Largest(u));
      {Largest(u)}
  }

  /**
   * A naked pair of board bm that takes the candidate v from square r: two
   * squares p and q sharing a unit hold the same two candidates, v among
   * them, and r is another square, unsolved and in the units of both.
   */
  ghost predicate NakedPair(bm: Board, p: Pos, q: Pos, r: Pos, v: int) {
    && p != q && p != r && q != r && p in bm && q in bm && r in bm
    && q in RCS(p) && r in RCS(p) && r in RCS(q)
    && |bm[p]| == 2 && bm[q] == bm[p] && v in bm[p] && !IsSolved(bm[r])
  }

  /**
   * Whether solve_for_naked_pairs may have removed the candidate v of square r
   * on its way from b to b': some board bm between the two, holding no
   * candidate b lacks and none b' gains, has a naked pair that takes v from r.
   */
  ghost predicate PairJustified(b: Board, b': Board, r: Pos, v: int) {
    exists bm: Board, p: Pos, q: Pos :: Shrinks(b, bm) && Shrinks(bm, b') && NakedPair(bm, p, q, r, v)
  }

  /**
   * The candidate a square of the single-value passes is left with once the
   * candidates done of cs have been tried in ascending order: the last lonely
   * one, or cs itself while there is none.
   */
  ghost function Tried(cs: Candidates, values: set<int>, done: set<int>): Candidates {
    var u := Lonely(done, values);
    if u == {} then cs else {Largest(u)}
  }

  /** Once every candidate has been tried, the square holds what SingleOut says. */
  lemma TriedAll(cs: Candidates, values: set<int>)
    requires |values| != SizeGrid
    ensures Tried(cs, values, cs) == SingleOut(cs, values)
  {
  }

  /** Trying the next candidate v, larger than every one tried before. */
  lemma TriedStep(cs: Candidates, values: set<int>, done: set<int>, v: int)
    requires forall x :: x in done ==> x < v
    ensures Tried(cs, values, done + {v})
         == if v !in values then Assigned(Tried(cs, values, done), v) else Tried(cs, values, done)
  {
    var u, u' := Lonely(done, values), Lonely(done + {v}, values);
    if v !in values && v != 0 {
      assert u' == u + {v};
      assert Largest(u') == v;
    } else {
      assert u' == u;
    }
  }

  /**
   * What remove_candidates has done once it reaches square (row, col), b0
   * being the board it started from: squares not reached yet are untouched;
   * every square reached and unsolved at the start has lost the digits solved
   * in its units at the start; every digit lost is solved in one of the
   * square's units now.
   */
  ghost predicate RemovedUpTo(b0: Board, b: Board, row: int, col: int) {
    && Keeps(b0, b) && Shrinks(b0, b) && Digits(b)
    && (forall q :: q in b && !Before(q, row, col) ==> b[q] == b0[q])
    && (forall q :: q in b && Before(q, row, col) && !IsSolved(b0[q]) ==> b[q] !! Solutions(SolvedSets(b0, q)))
    && (forall q, v :: q in b && v in b0[q] && v !in b[q] ==> v in Solutions(SolvedSets(b, q)))
  }

  /** remove_candidates on square (row, col) takes the pass one square further. */
  lemma RemovedNext(b0: Board, b: Board, row: int, col: int)
    requires Digits(b0) && RemovedUpTo(b0, b, row, col) && Pos(row, col) in b
    ensures var p := Pos(row, col);
      RemovedUpTo(b0, if IsSolved(b[p]) then b else b[p := b[p] - Solutions(SolvedSets(b, p))], row, col + 1)
  {
    var p := Pos(row, col);
    if !IsSolved(b[p]) {
      var b' := b[p := b[p] - Solutions(SolvedSets(b, p))];
      RemovedKeeps(b0, b, b', p);
      RemovedDisjoint(b0, b, b', row, col);
      RemovedJustified(b0, b, b', p);
    }
  }

  lemma RemovedKeeps(b0: Board, b: Board, b': Board, p: Pos)
    requires Digits(b0) && Keeps(b0, b) && Shrinks(b0, b) && p in b && !IsSolved(b[p])
    requires b' == b[p := b[p] - Solutions(SolvedSets(b, p))]
    ensures Keeps(b0, b') && Shrinks(b0, b') && Keeps(b, b') && Digits(b')
  {
    DigitsShrink(b0, b');
  }

  lemma RemovedDisjoint(b0: Board, b: Board, b': Board, row: int, col: int)
    requires Keeps(b0, b) && Pos(row, col) in b && !IsSolved(b[Pos(row, col)])
    requires forall q :: q in b && !Before(q, row, col) ==> b[q] == b0[q]
    requires forall q :: q in b && Before(q, row, col) && !IsSolved(b0[q]) ==> b[q] !! Solutions(SolvedSets(b0, q))
    requires b' == b[Pos(row, col) := b[Pos(row, col)] - Solutions(SolvedSets(b, Pos(row, col)))]
    ensures forall q :: q in b' && !Before(q, row, col + 1) ==> b'[q] == b0[q]
    ensures forall q :: q in b' && Before(q, row, col + 1) && !IsSolved(b0[q]) ==> b'[q] !! Solutions(SolvedSets(b0, q))
  {
    var p := Pos(row, col);
    KeepsSolutions(b0, b);
    assert Solutions(SolvedSets(b0, p)) <= Solutions(SolvedSets(b, p));
  }

  lemma RemovedJustified(b0: Board, b: Board, b': Board, p: Pos)
    requires Keeps(b0, b) && p in b && !IsSolved(b[p]) && b[p] == b0[p]
    requires forall q, v :: q in b && v in b0[q] && v !in b[q] ==> v in Solutions(SolvedSets(b, q))
    requires b' == b[p := b[p] - Solutions(SolvedSets(b, p))]
    ensures forall q, v :: q in b' && v in b0[q] && v !in b'[q] ==> v in Solutions(SolvedSets(b', q))
  {
    assert Keeps(b, b');
    KeepsSolutions(b, b');
  }

  /** Passing the end of a row is starting the next one. */
  lemma RemovedRow(b0: Board, b: Board, row: int)
    requires Full(b) && RemovedUpTo(b0, b, row, SizeGrid)
    ensures RemovedUpTo(b0, b, row + 1, 0)
  {
    assert forall q :: q in b ==> (Before(q, row, SizeGrid) <==> Before(q, row + 1, 0));
  }

  /**
   * What solve_for_row, solve_for_col or solve_for_subgrid has done once it
   * reaches square (row, col), b0 being the board it started from: only
   * squares unsolved in b0 changed, each into a solved one whose digit was a
   * candidate that no other square of its unit holds, and every unsolved
   * square before (row, col) is left alone by the unit rule.
   */
  ghost predicate SingledUpTo(b0: Board, b: Board, kind: Unit, row: int, col: int) {
    && Keeps(b0, b) && Shrinks(b0, b) && Digits(b)
    && (forall q :: q in b0 && b[q] != b0[q] ==> IsSolved(b[q]))
    && (forall q :: q in b0 && b[q] != b0[q] ==> SolutionOf(b[q]) in Lonely(b0[q], Values(b, UnitPeers(kind, q))))
    && (forall q :: q in b && Before(q, row, col) && !IsSolved(b[q]) ==> SingleOut(b[q], Values(b, UnitPeers(kind, q))) == b[q])
  }

  /** A square the unit rule solves: the pass starts again with one unsolved square fewer. */
  lemma SingledSolved(b0: Board, b: Board, b': Board, kind: Unit, row: int, col: int)
    requires Full(b) && Digits(b0) && SingledUpTo(b0, b, kind, row, col)
    requires Pos(row, col) in b && !IsSolved(b[Pos(row, col)])
    requires b' == b[Pos(row, col) := SingleOut(b[Pos(row, col)], Values(b, UnitPeers(kind, Pos(row, col))))]
    requires IsSolved(b'[Pos(row, col)])
    ensures SingledUpTo(b0, b', kind, 0, 0) && Unsolved(b') < Unsolved(b)
  {
    var p := Pos(row, col);
    SolvingUpdate(b, p, b'[p]);
    DigitsShrink(b0, b');
    assert forall q :: q in b' ==> !Before(q, 0, 0);
    forall q | q in b0 && b'[q] != b0[q]
      ensures SolutionOf(b'[q]) in Lonely(b0[q], Values(b', UnitPeers(kind, q)))
    {
      ValuesShrink(b, b', UnitPeers(kind, q));
      if q == p {
        assert b[p] == b0[p];
        UnitPeersOther(kind, p);
        ValuesOutside(b, p, b'[p], UnitPeers(kind, p));
      }
    }
  }

  /** A square's unit peers do not include the square itself. */
  lemma UnitPeersOther(kind: Unit, p: Pos)
    ensures p !in UnitPeers(kind, p)
  {
  }

  /** Squares losing candidates take candidates away from the values of a unit, never add them. */
  lemma ValuesShrink(b: Board, b': Board, qs: set<Pos>)
    requires Shrinks(b, b')
    ensures Values(b', qs) <= Values(b, qs)
  {
    forall v | v in Values(b', qs) ensures v in Values(b, qs) {
      var q :| q in qs && q in b' && v in b'[q];
      assert v in b[q];
    }
  }

  /** Changing a square outside qs leaves the values of qs alone. */
  lemma ValuesOutside(b: Board, p: Pos, cs: Candidates, qs: set<Pos>)
    requires p !in qs
    ensures Values(b[p := cs], qs) == Values(b, qs)
  {
    forall v | v in Values(b, qs) ensures v in Values(b[p := cs], qs) {
      var q :| q in qs && q in b && v in b[q];
      assert b[p := cs][q] == b[q];
    }
    forall v | v in Values(b[p := cs], qs) ensures v in Values(b, qs) {
      var q :| q in qs && q in b[p := cs] && v in b[p := cs][q];
      assert b[p := cs][q] == b[q];
    }
  }

  /** A square the unit rule leaves alone: the pass moves on. */
  lemma SingledNext(b0: Board, b: Board, kind: Unit, row: int, col: int)
    requires SingledUpTo(b0, b, kind, row, col) && Pos(row, col) in b
    requires !IsSolved(b[Pos(row, col)]) ==> SingleOut(b[Pos(row, col)], Values(b, UnitPeers(kind, Pos(row, col)))) == b[Pos(row, col)]
    ensures SingledUpTo(b0, b, kind, row, col + 1)
  {
  }

  /** Passing the end of a row is starting the next one. */
  lemma SingledRow(b0: Board, b: Board, kind: Unit, row: int)
    requires Full(b) && SingledUpTo(b0, b, kind, row, SizeGrid)
    ensures SingledUpTo(b0, b, kind, row + 1, 0)
  {
    assert forall q :: q in b ==> (Before(q, row, SizeGrid) <==> Before(q, row + 1, 0));
  }

  /**
   * One square of a unit pass: a square the rule solves restarts the pass
   * with one unsolved square fewer; otherwise the board is the same and the
   * invariant reaches the next square (row', col').
   */
  lemma SingledStep(b0: Board, b: Board, kind: Unit, row: int, col: int, b': Board, solved: bool, row': int, col': int)
    requires Full(b) && Digits(b0) && OnBoard(Pos(row, col)) && SingledUpTo(b0, b, kind, row, col)
    requires col + 1 < SizeGrid ==> row' == row && col' == col + 1
    requires col + 1 >= SizeGrid ==> row' == row + 1 && col' == 0
    requires var p := Pos(row, col);
      if IsSolved(b[p]) then b' == b && !solved
      else b' == b[p := SingleOut(b[p], Values(b, UnitPeers(kind, p)))] && (solved <==> IsSolved(b'[p]))
    ensures solved ==> SingledUpTo(b0, b', kind, 0, 0) && Unsolved(b') < Unsolved(b)
    ensures !solved ==> b' == b && SingledUpTo(b0, b', kind, row', col')
  {
    var p := Pos(row, col);
    if solved {
      SingledSolved(b0, b, b', kind, row, col);
    } else {
      assert b' == b;
      SingledNext(b0, b, kind, row, col);
      if col + 1 >= SizeGrid {
        SingledRow(b0, b, kind, row);
      }
    }
  }

  /** The board after removing a and c from each square of rs. */
  ghost predicate PairRemoved(b: Board, b': Board, rs: set<Pos>, a: int, c: int) {
    b'.Keys == b.Keys && forall q :: q in b ==> b'[q] == if q in rs then b[q] - {a} - {c} else b[q]
  }

  /**
   * What solve_for_naked_pairs promises of b' against the board b it started
   * from: solved squares kept, no candidate gained, and every candidate lost
   * taken by a naked pair of a board on the way.
   */
  ghost predicate PairedSince(b: Board, b': Board) {
    && Keeps(b, b') && Shrinks(b, b')
    && forall r, v :: r in b' && v in b[r] && v !in b'[r] ==> PairJustified(b, b', r, v)
  }

  /**
   * One naked pair of solve_for_naked_pairs: p and q, sharing a unit, hold
   * the same two candidates {a, c}, and the squares rs, unsolved and in the
   * units of both, lose them. Every candidate lost since b is still
   * accounted for.
   */
  lemma PairStep(b: Board, bm: Board, b': Board, p: Pos, q: Pos, rs: set<Pos>, a: int, c: int)
    requires PairedSince(b, bm) && p in bm && q in bm && p != q && q in RCS(p)
    requires bm[p] == bm[q] == {a, c} && a != c
    requires forall r :: r in rs ==> r in bm && !IsSolved(bm[r]) && r != p && r != q && r in RCS(p) && r in RCS(q)
    requires PairRemoved(bm, b', rs, a, c)
    ensures PairedSince(b, b') && b'[p] == bm[p] && Keeps(bm, b') && Shrinks(bm, b')
  {
    assert Keeps(bm, b') && Shrinks(bm, b') by {
      forall r | r in bm && IsSolved(bm[r]) ensures b'[r] == bm[r] {
        assert r !in rs;
      }
    }
    KeepsTrans(b, bm, b');
    ShrinksTrans(b, bm, b');
    forall r, v | r in b' && v in b[r] && v !in b'[r] ensures PairJustified(b, b', r, v) {
      if v in bm[r] {
        assert r in rs && (v == a || v == c);
        assert NakedPair(bm, p, q, r, v);
        assert Shrinks(b, bm) && Shrinks(bm, b');
      } else {
        var bm0, p0, q0 :| Shrinks(b, bm0) && Shrinks(bm0, bm) && NakedPair(bm0, p0, q0, r, v);
        ShrinksTrans(bm0, bm, b');
      }
    }
  }

  /** Candidates accounted for against an intermediate board are accounted for against the first one. */
  lemma PairedTrans(b0: Board, b: Board, b': Board)
    requires PairedSince(b0, b) && PairedSince(b, b')
    ensures PairedSince(b0, b')
  {
    KeepsTrans(b0, b, b');
    ShrinksTrans(b0, b, b');
    forall r, v | r in b' && v in b0[r] && v !in b'[r] ensures PairJustified(b0, b', r, v) {
      if v in b[r] {
        var bm, p, q :| Shrinks(b, bm) && Shrinks(bm, b') && NakedPair(bm, p, q, r, v);
        ShrinksTrans(b0, b, bm);
      } else {
        var bm, p, q :| Shrinks(b0, bm) && Shrinks(bm, b) && NakedPair(bm, p, q, r, v);
        ShrinksTrans(bm, b, b');
      }
    }
  }

  /**
   * p and q share a unit and held the same two candidates on b0, and still
   * hold them on b: a naked pair solve_for_naked_pairs meets on its way
   * from b0 to b.
   */
  ghost predicate PairHeld(b0: Board, b: Board, p: Pos, q: Pos) {
    && p in b0 && q in b0 && p in b && q in b && p != q && q in RCS(p)
    && |b0[p]| == 2 && b0[q] == b0[p] && b[p] == b0[p] && b[q] == b0[p]
  }

  /** r, other than p and q, lies in the units of both and is unsolved on b. */
  ghost predicate Intercepted(b: Board, p: Pos, q: Pos, r: Pos) {
    r in b && r != p && r != q && r in RCS(p) && r in RCS(q) && !IsSolved(b[r])
  }

  /** When p and q are a pair held from b0 to b, every square they intercept on b holds neither of its candidates. */
  ghost predicate ClearedWith(b0: Board, b: Board, p: Pos, q: Pos) {
    PairHeld(b0, b, p, q) ==> forall r :: Intercepted(b, p, q, r) ==> b[r] !! b0[p]
  }

  /** Every pair held from b0 to b with p as its first square has been cleared from its intercept. */
  ghost predicate ClearedAt(b0: Board, b: Board, p: Pos) {
    forall q :: ClearedWith(b0, b, p, q)
  }

  /** The pairs of the squares before (row, col) in row-major order are cleared. */
  ghost predicate ClearedBefore(b0: Board, b: Board, row: int, col: int) {
    forall p :: p in b0 && Before(p, row, col) ==> ClearedAt(b0, b, p)
  }

  /**
   * What solve_for_naked_pairs achieves from b0 to b: every two squares
   * sharing a unit that held the same two candidates on b0 and still do on b
   * have taken both from each unsolved square in the units of both.
   */
  ghost predicate PairsCleared(b0: Board, b: Board) {
    forall p :: p in b0 ==> ClearedAt(b0, b, p)
  }

  /**
   * The removal at the pair p, q of solve_for_naked_pairs clears it: the
   * intercept rs is p's unsolved unit squares on the board b of p's turn
   * met with q's on the board bm of q's turn, and every square of it loses
   * the pair's two candidates.
   */
  lemma PairClears(b: Board, bm: Board, b': Board, p: Pos, q: Pos, rs: set<Pos>, a: int, c: int)
    requires Keeps(b, bm) && Keeps(bm, b') && p in b && b[p] == {a, c}
    requires rs == (UnsolvedRCS(b, p) - {p}) * (UnsolvedRCS(bm, q) - {q})
    requires PairRemoved(bm, b', rs, a, c)
    ensures ClearedWith(b, b', p, q)
  {
    forall r | PairHeld(b, b', p, q) && Intercepted(b', p, q, r) ensures b'[r] !! b[p] {
      assert r in bm && !IsSolved(bm[r]);
      assert r in b && !IsSolved(b[r]);
      assert r in UnsolvedOf(b, RCS(p)) && r in UnsolvedOf(bm, RCS(q));
      assert b'[r] == bm[r] - {a} - {c};
    }
  }

  /** A cleared pair stays cleared while squares only shrink and the solved ones stay. */
  lemma ClearedWithShrinks(b0: Board, b: Board, b': Board, p: Pos, q: Pos)
    requires ClearedWith(b0, b, p, q) && Shrinks(b0, b) && Shrinks(b, b') && Keeps(b, b')
    ensures ClearedWith(b0, b', p, q)
  {
    if PairHeld(b0, b', p, q) {
      assert b[p] == b0[p] && b[q] == b0[p];
      assert PairHeld(b0, b, p, q);
      forall r | Intercepted(b', p, q, r) ensures b'[r] !! b0[p] {
        assert Intercepted(b, p, q, r);
      }
    }
  }

  /** The pairs of p stay cleared while squares only shrink and the solved ones stay. */
  lemma ClearedShrinks(b0: Board, b: Board, b': Board, p: Pos)
    requires ClearedAt(b0, b, p) && Shrinks(b0, b) && Shrinks(b, b') && Keeps(b, b')
    ensures ClearedAt(b0, b', p)
  {
    forall q ensures ClearedWith(b0, b', p, q) {
      ClearedWithShrinks(b0, b, b', p, q);
    }
  }

  /** A pair cleared from an intermediate board b is cleared from the first board b0. */
  lemma ClearedRebase(b0: Board, b: Board, b': Board, p: Pos)
    requires ClearedAt(b, b', p) && Shrinks(b0, b) && Shrinks(b, b')
    ensures ClearedAt(b0, b', p)
  {
    forall q ensures ClearedWith(b0, b', p, q) {
      if PairHeld(b0, b', p, q) {
        assert b[p] == b0[p] && b[q] == b0[p];
        assert PairHeld(b, b', p, q) && ClearedWith(b, b', p, q);
      }
    }
  }

  /**
   * Both guesses of solve_by_guessing at the two-candidate square p of b0
   * failed: first, the board of the copy given the smaller candidate, and
   * second, that of the copy given the other one, keep the solved squares
   * they started from and got stuck short of 81 candidates.
   */
  ghost predicate GuessFailed(b0: Board, p: Pos, first: Board, second: Board) {
    && p in b0 && |b0[p]| == 2
    && Full(first) && Keeps(b0[p := {Smallest(b0[p])}], first) && Count(first) != NumCells && Stuck(first)
    && Full(second) && Keeps(b0[p := b0[p] - {Smallest(b0[p])}], second) && Count(second) != NumCells && Stuck(second)
  }

  /**
   * A guess that succeeded at the two-candidate square p of b0 leaves p
   * solved as one of its two candidates: the smaller when the first copy
   * reached 81 candidates, the other one otherwise.
   */
  lemma GuessSolved(b0: Board, p: Pos, first: Board, b: Board)
    requires Digits(b0) && p in b0 && |b0[p]| == 2 && Full(first)
    requires Count(first) == NumCells ==> Keeps(b0[p := {Smallest(b0[p])}], b)
    requires Count(first) != NumCells ==> Keeps(b0[p := b0[p] - {Smallest(b0[p])}], b)
    ensures IsSolved(b[p]) && b[p] <= b0[p]
  {
    var least := Smallest(b0[p]);
    NewCells(least);
    if Count(first) != NumCells {
      var rest := b0[p] - {least};
      assert |rest| == 1;
      Member(rest);
      var other :| other in rest;
      Singleton(rest, other);
      NewCells(other);
    }
  }

  /** A candidate of a two-candidate square is a digit, and assigning it keeps a board of digits. */
  lemma GuessDigits(b: Board, p: Pos, v: int)
    requires Digits(b) && p in b && |b[p]| == 2 && v in b[p]
    ensures 1 <= v <= SizeGrid && Digits(b[p := {v}])
  {
  }

  /** initialise's sweep invariant: every unsolved square before (row, col) holds exactly its feasible digits. */
  ghost predicate FeasibleBefore(b: Board, row: int, col: int) {
    forall q :: q in b && Before(q, row, col) && !IsSolved(b[q]) ==> b[q] == Feasible(b, q)
  }

  /**
   * One square of initialise's sweep, from b to b'. A square solved before
   * is left alone; an unsolved one takes its feasible digits. When that
   * solves it, one square fewer is unsolved; otherwise the solved squares are
   * the same, so the invariant reaches the next square (row', col').
   */
  lemma InitialiseStep(b: Board, row: int, col: int, b': Board, solved: bool, row': int, col': int)
    requires Full(b) && Digits(b) && OnBoard(Pos(row, col)) && FeasibleBefore(b, row, col)
    requires col + 1 < SizeGrid ==> row' == row && col' == col + 1
    requires col + 1 >= SizeGrid ==> row' == row + 1 && col' == 0
    requires var p := Pos(row, col);
      if IsSolved(b[p]) then b' == b && !solved
      else b' == b[p := Feasible(b, p)] && (solved <==> IsSolved(Feasible(b, p)))
    ensures Keeps(b, b') && Full(b') && Digits(b')
    ensures solved ==> Unsolved(b') < Unsolved(b) && FeasibleBefore(b', 0, 0)
    ensures !solved ==> Unsolved(b') == Unsolved(b) && FeasibleBefore(b', row', col')
  {
    var p := Pos(row, col);
    assert forall q :: q in b ==> (Before(q, row', col') <==> Before(q, row, col) || q == p);
    if IsSolved(b[p]) {
    } else if solved {
      SolvingUpdate(b, p, b'[p]);
    } else {
      SameSolvedUpdate(b, p, b'[p]);
      SameSolvedFeasible(b, b');
    }
  }

  /**
   * Squares initialise has solved since b0: each holds the one digit its
   * units leave free once the square itself is set aside, that is, the other
   * squares of its row, column and box are solved as every other digit and
   * none of them as this one.
   */
  ghost predicate ForcedSince(b0: Board, b: Board) {
    forall q :: q in b0 && q in b && b[q] != b0[q] && IsSolved(b[q]) ==> b[q] == Feasible(b[q := {0}], q)
  }

  /** Two squares share a unit both ways round. */
  lemma RCSSymmetric(p: Pos, q: Pos)
    requires OnBoard(p) && OnBoard(q)
    ensures q in RCS(p) <==> p in RCS(q)
  {
    RCSMembers(p, q);
    RCSMembers(q, p);
  }

  /** Solving an unsolved square p as e takes e from the feasible digits of the squares sharing a unit with p. */
  lemma FeasibleSolve(x: Board, p: Pos, e: int, q: Pos)
    requires p in x && !IsSolved(x[p]) && e != 0
    ensures Feasible(x[p := {e}], q) == Feasible(x, q) - (if p in RCS(q) then {e} else {})
  {
    var x' := x[p := {e}];
    NewCells(e);
    assert SolvedSets(x', q) == SolvedSets(x, q) + (if p in RCS(q) then {{e}} else {}) by {
      forall s | s in SolvedSets(x', q) ensures s in SolvedSets(x, q) + (if p in RCS(q) then {{e}} else {}) {
        var r :| r in RCS(q) && r in x' && IsSolved(x'[r]) && x'[r] == s;
        if r != p {
          assert s in SolvedSets(x, q);
        }
      }
      forall s | s in SolvedSets(x, q) ensures s in SolvedSets(x', q) {
        var r :| r in RCS(q) && r in x && IsSolved(x[r]) && x[r] == s;
        assert r != p && x'[r] == s;
      }
      if p in RCS(q) {
        assert {e} in SolvedSets(x', q);
      }
    }
  }

  /**
   * One square of initialise keeps ForcedSince: the square it solves takes
   * the only digit left free, and a square it solves in the units of an
   * earlier one takes another digit than that one.
   */
  lemma ForcedStep(b0: Board, b: Board, p: Pos, b': Board)
    requires Full(b) && p in b && !IsSolved(b[p]) && b' == b[p := Feasible(b, p)]
    requires ForcedSince(b0, b)
    ensures ForcedSince(b0, b')
  {
    forall q | q in b0 && q in b' && b'[q] != b0[q] && IsSolved(b'[q]) ensures b'[q] == Feasible(b'[q := {0}], q) {
      if q == p {
        assert b'[p := {0}] == b[p := {0}];
        NewCells(0);
        SameSolvedUpdate(b, p, {0});
        SameSolvedFeasible(b, b[p := {0}]);
      } else {
        assert b'[q] == b[q];
        var x := b[q := {0}];
        NewCells(0);
        assert b'[q := {0}] == x[p := b'[p]];
        if IsSolved(b'[p]) {
          var e := SolutionOf(b'[p]);
          FeasibleSolve(x, p, e, q);
          if p in RCS(q) {
            RCSSymmetric(p, q);
            var d := SolutionOf(b[q]);
            FeasibleMeaning(b, p, d);
            assert d != e;
          }
        } else {
          SameSolvedUpdate(x, p, b'[p]);
          SameSolvedFeasible(x, x[p := b'[p]]);
        }
      }
    }
  }

  lemma ShrinksTrans(b0: Board, b1: Board, b2: Board)
    requires Shrinks(b0, b1) && Shrinks(b1, b2)
    ensures Shrinks(b0, b2)
  {
  }

  lemma KeepsTrans(b0: Board, b1: Board, b2: Board)
    requires Keeps(b0, b1) && Keeps(b1, b2)
    ensures Keeps(b0, b2)
  {
  }

  /** A two-element set is the set of any two distinct members. */
  lemma Pair(cs: set<int>, a: int, c: int)
    requires |cs| == 2 && a in cs && c in cs && a != c
    ensures cs == {a, c}
  {
    assert |cs - {a, c}| == 0 by {
      assert cs == (cs - {a, c}) + {a, c};
    }
  }

  /** The k-th square in row-major order. */
  function Square(k: int): Pos {
    Pos(k / SizeGrid, k % SizeGrid)
  }

  lemma SquareOnBoard(k: int)
    requires 0 <= k < NumCells
    ensures OnBoard(Square(k))
  {
  }

  /** Square row * 9 + col is (row, col). */
  lemma SquareAt(row: int, col: int)
    requires 0 <= row < SizeGrid && 0 <= col < SizeGrid
    ensures Square(row * SizeGrid + col) == Pos(row, col)
  {
  }

  /** The number of candidates in the first k squares in row-major order. */
  function CountUpTo(b: Board, k: int): nat
    requires Full(b) && 0 <= k <= NumCells
  {
    if k == 0 then 0
    else
      SquareOnBoard(k - 1);
      CountUpTo(b, k - 1) + |b[Square(k - 1)]|
  }

  /** Counting one more square in row-major order adds that square's candidates. */
  lemma CountStep(b: Board, row: int, col: int)
    requires Full(b) && 0 <= row < SizeGrid && 0 <= col < SizeGrid
    ensures 0 <= row * SizeGrid + col < NumCells && Pos(row, col) in b
    ensures CountUpTo(b, row * SizeGrid + col + 1) == CountUpTo(b, row * SizeGrid + col) + |b[Pos(row, col)]|
  {
    SquareAt(row, col);
    SquareOnBoard(row * SizeGrid + col);
  }

  /** The total number of candidates on the board, the quantity solve watches. */
  function Count(b: Board): nat
    requires Full(b)
  {
    CountUpTo(b, NumCells)
  }

  /** A board whose squares only lost candidates holds no more candidates in total. */
  lemma {:induction false} CountShrinks(b0: Board, b: Board, k: int)
    requires Full(b0) && Shrinks(b0, b) && 0 <= k <= NumCells
    ensures CountUpTo(b, k) <= CountUpTo(b0, k)
  {
    if k > 0 {
      CountShrinks(b0, b, k - 1);
      SquareOnBoard(k - 1);
      var p := Square(k - 1);
      assert b[p] <= b0[p];
      SubsetSize(b[p], b0[p]);
    }
  }

  /** A board whose squares only lost candidates, with the same total over the first k squares, has lost none there. */
  lemma {:induction false} CountKeepsSquares(b0: Board, b: Board, k: int)
    requires Full(b0) && Shrinks(b0, b) && 0 <= k <= NumCells && CountUpTo(b, k) == CountUpTo(b0, k)
    ensures forall i :: 0 <= i < k ==> Square(i) in b0 && b[Square(i)] == b0[Square(i)]
  {
    if k > 0 {
      CountShrinks(b0, b, k - 1);
      SquareOnBoard(k - 1);
      var p := Square(k - 1);
      SubsetSize(b[p], b0[p]);
      assert |b[p]| == |b0[p]|;
      assert b0[p] == b[p] + (b0[p] - b[p]);
      CountKeepsSquares(b0, b, k - 1);
    }
  }

  /** solve's stopping test: a round that only shrank squares and left the total as it was changed nothing. */
  lemma SameCountSame(b0: Board, b: Board)
    requires Full(b0) && Shrinks(b0, b) && Full(b) && Count(b) == Count(b0)
    ensures b == b0
  {
    CountKeepsSquares(b0, b, NumCells);
    forall p | p in b0 ensures b[p] == b0[p] {
      SquareAt(p.row, p.col);
      assert Square(p.row * SizeGrid + p.col) == p;
    }
  }

  /** Two boards each shrinking into the other are the same board. */
  lemma ShrinksBoth(b: Board, b': Board)
    requires Shrinks(b, b') && Shrinks(b', b)
    ensures b == b'
  {
    forall p | p in b ensures b[p] == b'[p] {
      assert b[p] <= b'[p] && b'[p] <= b[p];
    }
  }

  /**
   * What remove_candidates leaves on b after starting from b0: no square
   * unsolved on b0 holds the solution of a square of its units solved on b0.
   */
  ghost predicate NoSolvedLeft(b0: Board, b: Board) {
    forall p :: p in b && p in b0 && !IsSolved(b0[p]) ==> b[p] !! Solutions(SolvedSets(b0, p))
  }

  /** What a unit pass leaves: no unsolved square has a lonely candidate in its unit of that kind left to take. */
  ghost predicate NoLonelyLeft(b: Board, kind: Unit) {
    forall p :: p in b && !IsSolved(b[p]) ==> SingleOut(b[p], Values(b, UnitPeers(kind, p))) == b[p]
  }

  /**
   * A board on which a round of solve changes nothing: no unsolved square
   * holds the solution of a solved square of its units, none has a lonely
   * candidate left to take in its row, column or box, and every naked pair
   * has been cleared from the squares in both its units.
   */
  ghost predicate Stuck(b: Board) {
    && NoSolvedLeft(b, b)
    && NoLonelyLeft(b, RowUnit) && NoLonelyLeft(b, ColUnit) && NoLonelyLeft(b, BoxUnit)
    && PairsCleared(b, b)
  }

  /**
   * A round of solve that ends where it started, through the boards b1 to
   * b4 after its first four passes, changed nothing at any pass; so what
   * each pass leaves holds of the board, which is stuck.
   */
  lemma RoundStuck(b: Board, b1: Board, b2: Board, b3: Board, b4: Board)
    requires Shrinks(b, b1) && Shrinks(b1, b2) && Shrinks(b2, b3) && Shrinks(b3, b4) && Shrinks(b4, b)
    requires NoSolvedLeft(b, b1) && NoLonelyLeft(b2, RowUnit) && NoLonelyLeft(b3, ColUnit) && NoLonelyLeft(b4, BoxUnit)
    requires PairsCleared(b4, b)
    ensures Stuck(b)
  {
    ShrinksTrans(b1, b2, b3);
    ShrinksTrans(b1, b3, b4);
    ShrinksTrans(b1, b4, b);
    ShrinksBoth(b, b1);
    ShrinksTrans(b2, b3, b4);
    ShrinksTrans(b2, b4, b);
    ShrinksBoth(b, b2);
    ShrinksTrans(b3, b4, b);
    ShrinksBoth(b, b3);
    ShrinksBoth(b, b4);
  }

  /** With no square empty, the first k squares hold at least k candidates, and exactly k when each holds one. */
  lemma {:induction false} CountSingles(b: Board, k: int)
    requires Full(b) && 0 <= k <= NumCells && forall p :: p in b ==> b[p] != {}
    ensures CountUpTo(b, k) >= k
    ensures CountUpTo(b, k) == k <==> forall i :: 0 <= i < k ==> Square(i) in b && |b[Square(i)]| == 1
  {
    if k > 0 {
      CountSingles(b, k - 1);
      SquareOnBoard(k - 1);
    }
  }

  /**
   * What solve's answer means: on a board with no empty square, the total
   * is 81 exactly when every square holds a single candidate.
   */
  lemma CountMeansSingles(b: Board)
    requires Full(b) && forall p :: p in b ==> b[p] != {}
    ensures Count(b) == NumCells <==> forall p :: p in b ==> |b[p]| == 1
  {
    CountSingles(b, NumCells);
    if Count(b) == NumCells {
      forall p | p in b ensures |b[p]| == 1 {
        SquareAt(p.row, p.col);
        assert Square(p.row * SizeGrid + p.col) == p;
      }
    } else {
      var i :| 0 <= i < NumCells && !(Square(i) in b && |b[Square(i)]| == 1);
      SquareOnBoard(i);
    }
  }

  lemma SubsetSize(a: set<int>, b: set<int>)
    requires a <= b
    ensures |a| <= |b|
  {
    assert b == a + (b - a);
  }

}
