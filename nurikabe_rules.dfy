/**
 * What the forced-move rules that look at one region at a time conclude from
 * it: the liberties of a complete island are black, the only liberty of a
 * region that must grow takes the region's colour, and the far corner of an
 * island one cell short with two diagonal liberties is black.
 */
module NurikabeRules {
  import opened NurikabeBoard

  /** The union, over the regions named in ids, of what marks concludes from each. */
  ghost function Gather(rs: map<RegionId, Region>, ids: set<RegionId>, marks: Region -> set<Coord>): set<Coord> {
    set id, p | id in ids && id in rs && p in marks(rs[id]) :: p
  }

  lemma GatherEmpty(rs: map<RegionId, Region>, marks: Region -> set<Coord>)
    ensures Gather(rs, {}, marks) == {}
  {
  }

  /** Adding one region to those looked at adds exactly its conclusions. */
  lemma GatherStep(rs: map<RegionId, Region>, ids: set<RegionId>, id: RegionId, marks: Region -> set<Coord>)
    requires id in rs
    ensures Gather(rs, ids + {id}, marks) == Gather(rs, ids, marks) + marks(rs[id])
  {
    var g := Gather(rs, ids + {id}, marks);
    forall p | p in marks(rs[id]) ensures p in g {
      assert id in ids + {id};
    }
  }

  /** A cell is gathered exactly when some region named in ids concludes it. */
  lemma GatherMember(rs: map<RegionId, Region>, ids: set<RegionId>, marks: Region -> set<Coord>, p: Coord)
    ensures p in Gather(rs, ids, marks) <==> exists id :: id in ids && id in rs && p in marks(rs[id])
  {
  }

  /** Whether r is a numbered region that has reached its number. */
  predicate CompleteIsland(r: Region) {
    r.IsNumbered() && r.Size() == r.Number()
  }

  /** analyze_complete_islands on one region: a complete island's liberties must all be black. */
  function CompleteMarks(r: Region): set<Coord> {
    if CompleteIsland(r) then r.unknowns else {}
  }

  /** Whether r still has to grow and can only grow into one cell. */
  predicate SoleLiberty(r: Region, totalBlack: int) {
    r.NeedsMore(r.Size(), totalBlack) && |r.unknowns| == 1
  }

  /**
   * analyze_single_liberties on one region, for the colour black (black true)
   * or white (black false): the only liberty of a region that has to grow joins it.
   */
  function SoleMarks(r: Region, totalBlack: int, black: bool): set<Coord> {
    if SoleLiberty(r, totalBlack) && r.IsBlack() == black then r.unknowns else {}
  }

  /** Whether r is an island one cell short of its number with exactly two liberties. */
  predicate DualCandidate(r: Region) {
    r.IsNumbered() && r.Size() == r.Number() - 1 && |r.unknowns| == 2
  }

  /**
   * The corner of the 2x2 square spanned by the diagonal cells f and s that is
   * not (f.x, s.y) when the region holds (f.x, s.y), else (f.x, s.y) itself.
   */
  function FarCorner(coords: set<Coord>, f: Coord, s: Coord): Coord {
    if Coord(f.x, s.y) in coords then Coord(s.x, f.y) else Coord(f.x, s.y)
  }

  /** The far corner touches both diagonal liberties, whichever of the two it is. */
  lemma FarCornerAdjacent(coords: set<Coord>, f: Coord, s: Coord)
    requires Diagonal(f, s)
    ensures Adjacent(FarCorner(coords, f, s), f) && Adjacent(FarCorner(coords, f, s), s)
  {
  }

  /**
   * analyze_dual_liberties on one region: when the two liberties f < s (in the
   * order of the source's coordinate set) are diagonal, the far corner must be
   * black if it is still unknown, because whichever liberty the island takes
   * last, the corner would join it beyond its number.
   */
  ghost function DualMarks(r: Region, cells: map<Coord, State>): set<Coord> {
    set f, s | f in r.unknowns && s in r.unknowns && DualCandidate(r) && LexLess(f, s) && Diagonal(f, s)
               && FarCorner(r.coords, f, s) in cells && cells[FarCorner(r.coords, f, s)] == Unknown
      :: FarCorner(r.coords, f, s)
  }

  /** A two-element set is the set of any two distinct members. */
  lemma TwoMembers(u: set<Coord>, a: Coord, b: Coord)
    requires |u| == 2 && a in u && b in u && a != b
    ensures u == {a, b}
  {
    assert |u - {a, b}| == 0 by {
      assert u == (u - {a, b}) + {a, b};
    }
  }

  /**
   * For an island with exactly the two liberties a and b, the rule concludes at
   * most the far corner of the pair taken in coordinate order.
   */
  lemma DualMarksOf(r: Region, cells: map<Coord, State>, a: Coord, b: Coord)
    requires DualCandidate(r) && a in r.unknowns && b in r.unknowns && a != b
    ensures var f := if LexLess(a, b) then a else b;
      var s := if LexLess(a, b) then b else a;
      var p := FarCorner(r.coords, f, s);
      DualMarks(r, cells) == if Diagonal(f, s) && p in cells && cells[p] == Unknown then {p} else {}
  {
    TwoMembers(r.unknowns, a, b);
    var f := if LexLess(a, b) then a else b;
    var s := if LexLess(a, b) then b else a;
    var p := FarCorner(r.coords, f, s);
    if Diagonal(f, s) && p in cells && cells[p] == Unknown {
      assert p in DualMarks(r, cells);
    }
  }

  /** The total number of members of the regions named in ids. */
  ghost function TotalSize(rs: map<RegionId, Region>, ids: set<RegionId>): nat
    requires ids <= rs.Keys
    decreases ids
  {
    if ids == {} then 0
    else
      var id :| id in ids;
      rs[id].Size() + TotalSize(rs, ids - {id})
  }

  /** Any region can be summed first: the total does not depend on the order of summation. */
  lemma {:induction false} TotalSizeRemove(rs: map<RegionId, Region>, ids: set<RegionId>, id: RegionId)
    requires ids <= rs.Keys && id in ids
    ensures TotalSize(rs, ids) == rs[id].Size() + TotalSize(rs, ids - {id})
    decreases ids
  {
    var y :| y in ids && TotalSize(rs, ids) == rs[y].Size() + TotalSize(rs, ids - {y});
    if y != id {
      TotalSizeRemove(rs, ids - {y}, id);
      TotalSizeRemove(rs, ids - {id}, y);
      assert ids - {y} - {id} == ids - {id} - {y};
    }
  }

  /** The loop that adds up the sizes of a set of regions. */
  method SumSizes(rs: map<RegionId, Region>, ids: set<RegionId>) returns (size: int)
    requires ids <= rs.Keys
    ensures size == TotalSize(rs, ids)
  {
    size := 0;
    var todo := ids;
    while todo != {}
      invariant todo <= ids
      invariant size + TotalSize(rs, todo) == TotalSize(rs, ids)
    {
      var id :| id in todo;
      TotalSizeRemove(rs, todo, id);
      size := size + rs[id].Size();
      todo := todo - {id};
    }
  }
}
