/**
 * The scratch board of the confinement test: one flag per cell, NONE, OPEN
 * (a cell the region might grow into), CLOSED (a cell the region has taken)
 * or VERBOTEN (a cell the region may not take). The flags are described by
 * three sets of cells, so that the flood fill can be reasoned about with sets.
 */
module FloodFlags {
  import opened NurikabeBoard

  datatype Flag = NoFlag | Open | Closed | Verboten

  /** The flag a cell carries when closed, open and verboten hold the cells so flagged. */
  function FlagOf(c: Coord, closed: set<Coord>, open: set<Coord>, verboten: set<Coord>): Flag {
    if c in closed then Closed else if c in open then Open else if c in verboten then Verboten else NoFlag
  }

  /** The flags of a width by height board are those of the three disjoint sets. */
  ghost predicate Mirrors(flags: array2<Flag>, width: int, height: int,
                          closed: set<Coord>, open: set<Coord>, verboten: set<Coord>)
    reads flags
  {
    && flags.Length0 == width && flags.Length1 == height
    && closed !! open && closed !! verboten && open !! verboten
    && forall x, y :: 0 <= x < width && 0 <= y < height ==> flags[x, y] == FlagOf(Coord(x, y), closed, open, verboten)
  }

  /** Whether c comes before p in the order of the source's flat index x + y * width. */
  predicate IndexBefore(c: Coord, p: Coord) {
    c.y < p.y || (c.y == p.y && c.x < p.x)
  }

  /** A board with no flag set. */
  method Blank(width: nat, height: nat) returns (flags: array2<Flag>)
    ensures fresh(flags) && Mirrors(flags, width, height, {}, {}, {})
  {
    flags := new Flag[width, height]((x, y) => NoFlag);
  }

  /** Set flag f on every cell of s. */
  method Paint(flags: array2<Flag>, s: set<Coord>, f: Flag)
    requires forall c :: c in s ==> 0 <= c.x < flags.Length0 && 0 <= c.y < flags.Length1
    modifies flags
    ensures forall x, y :: 0 <= x < flags.Length0 && 0 <= y < flags.Length1 ==>
      flags[x, y] == if Coord(x, y) in s then f else old(flags[x, y])
  {
    var todo := s;
    while todo != {}
      invariant todo <= s
      invariant forall x, y :: 0 <= x < flags.Length0 && 0 <= y < flags.Length1 ==>
        flags[x, y] == if Coord(x, y) in s - todo then f else old(flags[x, y])
      decreases todo
    {
      var c :| c in todo;
      flags[c.x, c.y] := f;
      todo := todo - {c};
    }
  }

  /** Open every cell of s that carries no flag (the `if (f == NONE) f = OPEN;` loops). */
  method OpenUnflagged(flags: array2<Flag>, s: set<Coord>)
    requires forall c :: c in s ==> 0 <= c.x < flags.Length0 && 0 <= c.y < flags.Length1
    modifies flags
    ensures forall x, y :: 0 <= x < flags.Length0 && 0 <= y < flags.Length1 ==>
      flags[x, y] == if Coord(x, y) in s && old(flags[x, y]) == NoFlag then Open else old(flags[x, y])
  {
    var todo := s;
    while todo != {}
      invariant todo <= s
      invariant forall x, y :: 0 <= x < flags.Length0 && 0 <= y < flags.Length1 ==>
        flags[x, y] == if Coord(x, y) in s - todo && old(flags[x, y]) == NoFlag then Open else old(flags[x, y])
      decreases todo
    {
      var c :| c in todo;
      if flags[c.x, c.y] == NoFlag {
        flags[c.x, c.y] := Open;
      }
      todo := todo - {c};
    }
  }

  /** Painting s with f turns the board of (closed, open, verboten) into that of the new sets. */
  lemma PaintMirrors(flags: array2<Flag>, width: int, height: int, s: set<Coord>, f: Flag,
                     closed: set<Coord>, open: set<Coord>, verboten: set<Coord>,
                     closed': set<Coord>, open': set<Coord>, verboten': set<Coord>)
    requires flags.Length0 == width && flags.Length1 == height
    requires closed' !! open' && closed' !! verboten' && open' !! verboten'
    requires forall c :: FlagOf(c, closed', open', verboten') == if c in s then f else FlagOf(c, closed, open, verboten)
    requires forall x, y :: 0 <= x < width && 0 <= y < height ==>
      flags[x, y] == if Coord(x, y) in s then f else FlagOf(Coord(x, y), closed, open, verboten)
    ensures Mirrors(flags, width, height, closed', open', verboten')
  {
    forall x, y | 0 <= x < width && 0 <= y < height
      ensures flags[x, y] == FlagOf(Coord(x, y), closed', open', verboten')
    {
      assert FlagOf(Coord(x, y), closed', open', verboten')
          == if Coord(x, y) in s then f else FlagOf(Coord(x, y), closed, open, verboten);
    }
  }

  /**
   * confined's set-up of a width by height board: the cells of open flagged
   * open, then those of closed closed, then those of verboten verboten, each
   * overwriting the flags before it.
   */
  method Start(width: nat, height: nat, open: set<Coord>, closed: set<Coord>, verboten: set<Coord>)
    returns (flags: array2<Flag>)
    requires forall c :: c in open ==> InGrid(width, height, c)
    requires forall c :: c in closed ==> InGrid(width, height, c)
    requires forall c :: c in verboten ==> InGrid(width, height, c)
    ensures fresh(flags) && Mirrors(flags, width, height, closed - verboten, open - closed - verboten, verboten)
  {
    flags := Blank(width, height);
    Paint(flags, open, Open);
    PaintMirrors(flags, width, height, open, Open, {}, {}, {}, {}, open, {});
    Paint(flags, closed, Closed);
    PaintMirrors(flags, width, height, closed, Closed, {}, open, {}, closed, open - closed, {});
    Paint(flags, verboten, Verboten);
    PaintMirrors(flags, width, height, verboten, Verboten, closed, open - closed, {},
                 closed - verboten, open - closed - verboten, verboten);
  }

  /**
   * find(flags.begin(), flags.end(), OPEN): the first open cell in flat index
   * order, if there is one.
   */
  method FindOpen(flags: array2<Flag>, ghost closed: set<Coord>, ghost open: set<Coord>, ghost verboten: set<Coord>)
    returns (found: bool, p: Coord)
    requires Mirrors(flags, flags.Length0, flags.Length1, closed, open, verboten)
    ensures found ==> InGrid(flags.Length0, flags.Length1, p) && p in open
    ensures found ==> forall c :: InGrid(flags.Length0, flags.Length1, c) && IndexBefore(c, p) ==> c !in open
    ensures !found ==> forall c :: InGrid(flags.Length0, flags.Length1, c) ==> c !in open
  {
    var y := 0;
    while y < flags.Length1
      invariant 0 <= y <= flags.Length1
      invariant forall c :: InGrid(flags.Length0, flags.Length1, c) && c.y < y ==> c !in open
    {
      var x := 0;
      while x < flags.Length0
        invariant 0 <= x <= flags.Length0
        invariant forall c :: InGrid(flags.Length0, flags.Length1, c) && (c.y < y || (c.y == y && c.x < x)) ==> c !in open
      {
        if flags[x, y] == Open {
          return true, Coord(x, y);
        }
        x := x + 1;
      }
      y := y + 1;
    }
    return false, Coord(0, 0);
  }

  /** `*iter = NONE`: the open cell p loses its flag. */
  method Discard(flags: array2<Flag>, p: Coord, ghost closed: set<Coord>, ghost open: set<Coord>, ghost verboten: set<Coord>)
    requires Mirrors(flags, flags.Length0, flags.Length1, closed, open, verboten)
    requires InGrid(flags.Length0, flags.Length1, p) && p in open
    modifies flags
    ensures Mirrors(flags, flags.Length0, flags.Length1, closed, open - {p}, verboten)
  {
    Paint(flags, {p}, NoFlag);
    PaintMirrors(flags, flags.Length0, flags.Length1, {p}, NoFlag, closed, open, verboten, closed, open - {p}, verboten);
  }

  /**
   * The region takes the cells of taken (they become closed) and may grow into
   * the unflagged cells of around (they become open).
   */
  method Take(flags: array2<Flag>, taken: set<Coord>, around: set<Coord>,
              ghost closed: set<Coord>, ghost open: set<Coord>, ghost verboten: set<Coord>)
    requires Mirrors(flags, flags.Length0, flags.Length1, closed, open, verboten)
    requires forall c :: c in taken ==> InGrid(flags.Length0, flags.Length1, c)
    requires forall c :: c in around ==> InGrid(flags.Length0, flags.Length1, c)
    modifies flags
    ensures Mirrors(flags, flags.Length0, flags.Length1, closed + taken,
                    (open - taken) + (around - (closed + taken) - open - verboten), verboten - taken)
  {
    var w, h := flags.Length0, flags.Length1;
    Paint(flags, taken, Closed);
    PaintMirrors(flags, w, h, taken, Closed, closed, open, verboten, closed + taken, open - taken, verboten - taken);
    ghost var c1, o1, v1 := closed + taken, open - taken, verboten - taken;
    OpenUnflagged(flags, around);
    ghost var o2 := o1 + (around - c1 - o1 - v1);
    forall x, y | 0 <= x < w && 0 <= y < h ensures flags[x, y] == FlagOf(Coord(x, y), c1, o2, v1) {
    }
    assert around - c1 - o1 - v1 == around - (closed + taken) - open - verboten;
  }
}
