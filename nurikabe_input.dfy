/**
 * The puzzle description after tokenising: a row-major sequence of
 * width * height numbers, 0 for a blank cell and a positive number for a clue.
 * This module states which descriptions the grid's constructor accepts and
 * how many black cells the solution of an accepted one has.
 */
module NurikabeInput {
  import opened NurikabeBoard
  import opened Wrappers

  /**
   * Why the constructor refuses a description (its runtime_error cases), and
   * the refusal of horizontally adjacent clues that the corrected check adds.
   */
  datatype InputError = WidthTooSmall | HeightTooSmall | WrongTokenCount | VerticallyAdjacentNumbers | HorizontallyAdjacentNumbers

  lemma IndexInRange(width: int, height: int, c: Coord)
    requires InGrid(width, height, c)
    ensures 0 <= c.x + c.y * width < width * height
  {
    assert c.y * width <= (height - 1) * width;
  }

  /** The token of cell c: tokens[x + y * width]. */
  function TokenAt(tokens: seq<nat>, width: int, height: int, c: Coord): nat
    requires |tokens| == width * height && InGrid(width, height, c)
  {
    IndexInRange(width, height, c);
    tokens[c.x + c.y * width]
  }

  /** Some clue sits directly below another clue. */
  predicate HasVerticalClues(tokens: seq<nat>, width: int, height: int)
    requires |tokens| == width * height
  {
    exists x, y | 0 <= x < width && 1 <= y < height ::
      TokenAt(tokens, width, height, Coord(x, y)) > 0 && TokenAt(tokens, width, height, Coord(x, y - 1)) > 0
  }

  /**
   * No clue sits directly right of another clue. The tokeniser does not
   * guarantee this: adjacent digits form one number, but a newline between
   * two numbers is dropped, so "1\n2 " on a board 3 wide and 1 high gives the
   * tokens 1, 2, 0.
   */
  predicate NoHorizontalClues(tokens: seq<nat>, width: int, height: int)
    requires |tokens| == width * height
  {
    forall x, y | 1 <= x < width && 0 <= y < height ::
      TokenAt(tokens, width, height, Coord(x, y)) > 0 ==> TokenAt(tokens, width, height, Coord(x - 1, y)) == 0
  }

  /**
   * The first check of the constructor that fails, if any, in the constructor's
   * order. A description is accepted exactly when none of the four refusals
   * applies; one token short is a wrong count.
   */
  function CheckInput(width: int, height: int, tokens: seq<nat>): (r: Option<InputError>)
    ensures r.None? <==>
      && width >= 1 && height >= 1 && |tokens| == width * height
      && !HasVerticalClues(tokens, width, height)
    ensures width >= 1 && height >= 1 && |tokens| == width * height - 1 ==> r == Some(WrongTokenCount)
  {
    if width < 1 then Some(WidthTooSmall)
    else if height < 1 then Some(HeightTooSmall)
    else if |tokens| != width * height then Some(WrongTokenCount)
    else if HasVerticalClues(tokens, width, height) then Some(VerticallyAdjacentNumbers)
    else None
  }

  /**
   * The constructor's checks with horizontally adjacent clues refused as well,
   * as vertically adjacent ones are: the check the constructor needs for no
   * region ever to have a clue as a liberty.
   */
  function CheckInputCorrected(width: int, height: int, tokens: seq<nat>): (r: Option<InputError>)
    ensures r.None? <==> CheckInput(width, height, tokens).None? && NoHorizontalClues(tokens, width, height)
    ensures CheckInput(width, height, tokens).Some? ==> r == CheckInput(width, height, tokens)
  {
    match CheckInput(width, height, tokens)
    case Some(e) => Some(e)
    case None => if NoHorizontalClues(tokens, width, height) then None else Some(HorizontallyAdjacentNumbers)
  }

  /**
   * As written, the constructor accepts two clues side by side: the tokens
   * 1, 2, 0 of "1\n2 " on a board 3 wide and 1 high pass every check it makes,
   * while the corrected check refuses them.
   */
  lemma HorizontalCluesAccepted()
    ensures CheckInput(3, 1, [1, 2, 0]).None?
    ensures !NoHorizontalClues([1, 2, 0], 3, 1)
    ensures CheckInputCorrected(3, 1, [1, 2, 0]) == Some(HorizontallyAdjacentNumbers)
  {
    assert TokenAt([1, 2, 0], 3, 1, Coord(1, 0)) == 2 && TokenAt([1, 2, 0], 3, 1, Coord(0, 0)) == 1;
  }

  /** The sum of all tokens; blanks count 0, so this is the sum of the clues. */
  function ClueSum(tokens: seq<nat>): nat {
    if tokens == [] then 0 else ClueSum(tokens[..|tokens| - 1]) + tokens[|tokens| - 1]
  }

  /**
   * The sum of column x's tokens in rows [0, rows): the order in which the
   * constructor visits cells (x outer, y inner).
   */
  function ColumnSum(tokens: seq<nat>, width: int, height: int, x: int, rows: nat): nat
    requires |tokens| == width * height && 0 <= x < width && rows <= height
  {
    if rows == 0 then 0
    else ColumnSum(tokens, width, height, x, rows - 1) + TokenAt(tokens, width, height, Coord(x, rows - 1))
  }

  /** The sum of columns [0, cols), each over all rows. */
  function ColumnMajorSum(tokens: seq<nat>, width: int, height: int, cols: nat): nat
    requires |tokens| == width * height && cols <= width && height >= 0
  {
    if cols == 0 then 0
    else ColumnMajorSum(tokens, width, height, cols - 1) + ColumnSum(tokens, width, height, cols - 1, height)
  }

  /** The sum of row y's tokens in columns [0, cols). */
  function RowSum(tokens: seq<nat>, width: int, height: int, y: int, cols: nat): nat
    requires |tokens| == width * height && 0 <= y < height && cols <= width
  {
    if cols == 0 then 0
    else RowSum(tokens, width, height, y, cols - 1) + TokenAt(tokens, width, height, Coord(cols - 1, y))
  }

  /** The sum of rows [0, rows), each over columns [0, cols). */
  function RowMajorSum(tokens: seq<nat>, width: int, height: int, rows: nat, cols: nat): nat
    requires |tokens| == width * height && rows <= height && cols <= width
  {
    if rows == 0 then 0
    else RowMajorSum(tokens, width, height, rows - 1, cols) + RowSum(tokens, width, height, rows - 1, cols)
  }

  lemma {:induction false} RowMajorAddColumn(tokens: seq<nat>, width: int, height: int, rows: nat, cols: nat)
    requires |tokens| == width * height && rows <= height && cols < width
    ensures RowMajorSum(tokens, width, height, rows, cols + 1)
         == RowMajorSum(tokens, width, height, rows, cols) + ColumnSum(tokens, width, height, cols, rows)
  {
    if rows > 0 {
      RowMajorAddColumn(tokens, width, height, rows - 1, cols);
    }
  }

  /** Summing column by column and row by row give the same total. */
  lemma {:induction false} ColumnMajorIsRowMajor(tokens: seq<nat>, width: int, height: int, cols: nat)
    requires |tokens| == width * height && cols <= width && height >= 0
    ensures ColumnMajorSum(tokens, width, height, cols) == RowMajorSum(tokens, width, height, height, cols)
  {
    if cols == 0 {
      RowMajorZeroColumns(tokens, width, height, height);
    } else {
      ColumnMajorIsRowMajor(tokens, width, height, cols - 1);
      RowMajorAddColumn(tokens, width, height, height, cols - 1);
    }
  }

  lemma {:induction false} RowMajorZeroColumns(tokens: seq<nat>, width: int, height: int, rows: nat)
    requires |tokens| == width * height && rows <= height && width >= 0
    ensures RowMajorSum(tokens, width, height, rows, 0) == 0
  {
    if rows > 0 {
      RowMajorZeroColumns(tokens, width, height, rows - 1);
    }
  }

  lemma {:induction false} ClueSumAppend(a: seq<nat>, b: seq<nat>)
    ensures ClueSum(a + b) == ClueSum(a) + ClueSum(b)
  {
    if b != [] {
      assert (a + b)[..|a + b| - 1] == a + b[..|b| - 1];
      ClueSumAppend(a, b[..|b| - 1]);
    } else {
      assert a + b == a;
    }
  }

  /** Row y over columns [0, cols) is the slice of the token sequence it occupies. */
  lemma {:induction false} RowSumIsSlice(tokens: seq<nat>, width: int, height: int, y: int, cols: nat)
    requires |tokens| == width * height && 0 <= y < height && cols <= width && width >= 1
    ensures y * width + cols <= |tokens|
    ensures RowSum(tokens, width, height, y, cols) == ClueSum(tokens[y * width .. y * width + cols])
  {
    IndexInRange(width, height, Coord(0, y));
    assert y * width + width <= |tokens| by {
      assert (y + 1) * width <= height * width;
    }
    if cols > 0 {
      RowSumIsSlice(tokens, width, height, y, cols - 1);
      var s := tokens[y * width .. y * width + cols];
      assert s[..|s| - 1] == tokens[y * width .. y * width + cols - 1];
      assert s[|s| - 1] == TokenAt(tokens, width, height, Coord(cols - 1, y));
    } else {
      assert tokens[y * width .. y * width + cols] == [];
    }
  }

  /** All rows together are the whole prefix of the token sequence. */
  lemma {:induction false} RowMajorIsPrefix(tokens: seq<nat>, width: int, height: int, rows: nat)
    requires |tokens| == width * height && rows <= height && width >= 1
    ensures rows * width <= |tokens|
    ensures RowMajorSum(tokens, width, height, rows, width) == ClueSum(tokens[..rows * width])
  {
    MulStep(rows, width, height);
    if rows == 0 {
      assert tokens[..0] == [];
    } else {
      RowMajorIsPrefix(tokens, width, height, rows - 1);
      RowSumIsSlice(tokens, width, height, rows - 1, width);
      PrefixSplit(tokens, (rows - 1) * width, rows * width);
    }
  }

  lemma MulStep(rows: nat, width: int, height: int)
    requires rows <= height && width >= 1
    ensures rows * width <= height * width
    ensures rows >= 1 ==> (rows - 1) * width + width == rows * width
  {
  }

  lemma PrefixSplit(tokens: seq<nat>, lo: nat, hi: nat)
    requires lo <= hi <= |tokens|
    ensures ClueSum(tokens[..hi]) == ClueSum(tokens[..lo]) + ClueSum(tokens[lo .. hi])
  {
    assert tokens[..hi] == tokens[..lo] + tokens[lo .. hi];
    ClueSumAppend(tokens[..lo], tokens[lo .. hi]);
  }

  /** The constructor's column-by-column total is the sum of all clues. */
  lemma ColumnMajorIsClueSum(tokens: seq<nat>, width: int, height: int)
    requires |tokens| == width * height && width >= 1 && height >= 0
    ensures ColumnMajorSum(tokens, width, height, width) == ClueSum(tokens)
  {
    ColumnMajorIsRowMajor(tokens, width, height, width);
    RowMajorIsPrefix(tokens, width, height, height);
    assert tokens[..height * width] == tokens;
  }
}
