/**
 * The Nurikabe solving engine: the grid of cell states, the arena of regions,
 * the single mutator that marks a cell and fuses regions, the forced-move
 * rules, the reachability and confinement analyses, the contradiction check,
 * the guessing order, one-level hypothesis search and the step orchestrator.
 */
module Nurikabe {
  import opened Wrappers
  import opened NurikabeBoard
  import opened NurikabeInput
  import opened GuessOrder
  import opened NurikabeRules
  import opened FloodFlags

  /**
   * The region that survives when regions a and b are fused. The source first
   * makes the bigger one primary (a on a tie), then swaps if the secondary is
   * numbered.
   */
  function Primary(rs: map<RegionId, Region>, a: RegionId, b: RegionId): (p: RegionId)
    requires a in rs && b in rs && a != b
    ensures p == a || p == b
    ensures !(rs[a].IsNumbered() && rs[b].IsNumbered()) ==>
      && (rs[a].IsNumbered() ==> p == a)
      && (rs[b].IsNumbered() ==> p == b)
      && (!rs[a].IsNumbered() && !rs[b].IsNumbered() ==>
            rs[p].Size() >= rs[a].Size() && rs[p].Size() >= rs[b].Size() && (p == b ==> rs[b].Size() > rs[a].Size()))
  {
    if rs[b].Size() > rs[a].Size() then (if rs[a].IsNumbered() then a else b)
    else (if rs[b].IsNumbered() then b else a)
  }

  /** Region keep after absorbing gone: the union of the members and of the liberties. */
  function Absorb(keep: Region, gone: Region): (r: Region)
    ensures r.state == keep.state
    ensures forall c :: c in r.coords <==> c in keep.coords || c in gone.coords
    ensures forall c :: c in r.unknowns <==> c in keep.unknowns || c in gone.unknowns
  {
    Region(keep.state, keep.coords + gone.coords, keep.unknowns + gone.unknowns)
  }

  /** Whether fuse_regions merges the regions named by r1 and r2 (rather than returning early). */
  predicate Fusible(rs: map<RegionId, Region>, r1: Option<RegionId>, r2: Option<RegionId>)
    requires r1.Some? ==> r1.value in rs
    requires r2.Some? ==> r2.value in rs
  {
    && r1.Some? && r2.Some? && r1 != r2
    && !(rs[r1.value].IsNumbered() && rs[r2.value].IsNumbered())
    && rs[r1.value].IsBlack() == rs[r2.value].IsBlack()
  }

  /** The cell states after marking each cell of m with s; a known cell keeps its state. */
  function MarkSet(cells: map<Coord, State>, m: set<Coord>, s: State): (r: map<Coord, State>)
    ensures r.Keys == cells.Keys
  {
    map c | c in cells :: if c in m && cells[c] == Unknown then s else cells[c]
  }

  /** The cells of a board that are no longer unknown. */
  ghost function KnownCells(cells: map<Coord, State>): set<Coord> {
    set c | c in cells && cells[c] != Unknown
  }

  /** Marking the cells of m (all on the board) makes exactly them known in addition. */
  lemma MarkSetKnown(cells: map<Coord, State>, m: set<Coord>, s: State)
    requires s != Unknown && m <= cells.Keys
    ensures KnownCells(MarkSet(cells, m, s)) == KnownCells(cells) + m
  {
  }

  /** Marking c after the cells of done is marking done + {c}, whether or not c was still unknown. */
  lemma MarkSetStep(cells: map<Coord, State>, done: set<Coord>, c: Coord, s: State)
    requires c in cells && c !in done
    ensures var before := MarkSet(cells, done, s);
      MarkSet(cells, done + {c}, s) == if before[c] == Unknown then before[c := s] else before
  {
  }

  /** The known (or, with known false, the unknown) cells visited before (x, y) in column order. */
  ghost function CountedCells(cells: map<Coord, State>, known: bool, x: int, y: int): set<Coord> {
    set c | c in cells && (cells[c] != Unknown) == known && VisitedBefore(c, x, y)
  }

  /** Visiting one more cell adds it to the set it belongs to. */
  lemma CountedStep(cells: map<Coord, State>, x: int, y: int, known: bool)
    requires Coord(x, y) in cells
    ensures var c := Coord(x, y);
      CountedCells(cells, known, x, y + 1)
        == CountedCells(cells, known, x, y) + (if (cells[c] != Unknown) == known then {c} else {})
    ensures Coord(x, y) !in CountedCells(cells, known, x, y)
  {
  }

  /** Whether marking the cells of m meets a cell that is already known. */
  predicate HitsKnown(cells: map<Coord, State>, m: set<Coord>) {
    exists c :: c in m && c in cells && cells[c] != Unknown
  }

  lemma HitsKnownStep(cells: map<Coord, State>, done: set<Coord>, c: Coord)
    ensures HitsKnown(cells, done + {c}) <==> HitsKnown(cells, done) || (c in cells && cells[c] != Unknown)
  {
    if HitsKnown(cells, done + {c}) {
      var d :| d in done + {c} && d in cells && cells[d] != Unknown;
      if d != c {
        assert d in done;
      }
    }
  }

  /** The cell states after process marks the cells of b black and then those of w white. */
  function Marked(cells: map<Coord, State>, b: set<Coord>, w: set<Coord>): (r: map<Coord, State>)
    ensures r.Keys == cells.Keys
  {
    MarkSet(MarkSet(cells, b, Black), w, White)
  }

  /** Whether process meets an already known cell: one of b, or one of w known before or made black by b. */
  predicate Clashes(cells: map<Coord, State>, b: set<Coord>, w: set<Coord>) {
    HitsKnown(cells, b) || HitsKnown(MarkSet(cells, b, Black), w)
  }

  /** A process without clashes that has something to mark makes new cells known. */
  lemma ClashFreeProgress(cells: map<Coord, State>, b: set<Coord>, w: set<Coord>)
    requires !Clashes(cells, b, w) && (b != {} || w != {}) && b + w <= cells.Keys
    ensures KnownCells(cells) < KnownCells(cells) + b + w
  {
    var c :| c in b + w;
    if c !in b {
      assert MarkSet(cells, b, Black)[c] == Unknown;
    }
    assert c !in KnownCells(cells);
  }

  /**
   * Whether the board after is the board before with some unknown cells made
   * known in one of the states of allowed, and nothing else changed.
   */
  predicate Grows(before: map<Coord, State>, after: map<Coord, State>, allowed: set<State>) {
    && after.Keys == before.Keys
    && forall c :: c in before ==> after[c] == before[c] || (before[c] == Unknown && after[c] in allowed)
  }

  /** Marking one unknown cell, black or white, sets that cell alone. */
  lemma MarkedOne(cells: map<Coord, State>, c: Coord, black: bool)
    requires c in cells && cells[c] == Unknown
    ensures Marked(cells, if black then {c} else {}, if black then {} else {c}) == cells[c := if black then Black else White]
  {
    var b, w := if black then {c} else {}, if black then {} else {c};
    assert MarkSet(cells, b, Black) == if black then cells[c := Black] else cells;
  }

  /** process only turns unknown cells black (those of b) or white (those of w). */
  lemma MarkedGrows(cells: map<Coord, State>, b: set<Coord>, w: set<Coord>)
    ensures Grows(cells, Marked(cells, b, w), (if b == {} then {} else {Black}) + (if w == {} then {} else {White}))
  {
  }

  /** Removing c from every region's liberties keeps the invariants that speak of regions, and leaves only unknown liberties. */
  lemma ErasedKeeps(cells: map<Coord, State>, owner: map<Coord, RegionId>, rs: map<RegionId, Region>,
                    rs': map<RegionId, Region>, c: Coord, next: RegionId)
    requires c in cells && cells[c] != Unknown
    requires forall id, u :: id in rs && u in rs[id].unknowns && u != c ==> u in cells && cells[u] == Unknown
    requires MembersOwned(owner, rs) && OwnerSound(owner, rs) && IdsFresh(rs, next) && ColoursAgree(cells, owner, rs)
    requires Frontier(cells, rs)
    requires rs'.Keys == rs.Keys && forall id :: id in rs' ==> rs'[id] == rs[id].(unknowns := rs[id].unknowns - {c})
    ensures LibertiesUnknown(cells, rs') && MembersOwned(owner, rs') && OwnerSound(owner, rs')
    ensures IdsFresh(rs', next) && ColoursAgree(cells, owner, rs') && Frontier(cells, rs')
  {
    forall id, u | id in rs' && u in cells && cells[u] == Unknown ensures (u in rs'[id].unknowns <==> Touches(rs'[id].coords, u)) {
      assert u in rs'[id].unknowns <==> u in rs[id].unknowns;
    }
    forall id, u | id in rs' && u in rs'[id].unknowns ensures u in cells && cells[u] == Unknown {
      assert u in rs[id].unknowns;
    }
    forall id, d | id in rs' && d in rs'[id].coords ensures d in owner && owner[d] == id {
      assert d in rs[id].coords;
    }
  }

  /** Every region a cell points to exists and holds that cell. */
  ghost predicate OwnerSound(owner: map<Coord, RegionId>, rs: map<RegionId, Region>) {
    forall c :: c in owner ==> owner[c] in rs && c in rs[owner[c]].coords
  }

  /** Every member of a region points back to that region. */
  ghost predicate MembersOwned(owner: map<Coord, RegionId>, rs: map<RegionId, Region>) {
    forall id, c :: id in rs && c in rs[id].coords ==> c in owner && owner[c] == id
  }

  /** Region ids are below next, and no region is of unknown colour. */
  ghost predicate IdsFresh(rs: map<RegionId, Region>, next: RegionId) {
    forall id :: id in rs ==> id < next && rs[id].state != Unknown
  }

  /** A region's liberties are unknown cells of the board. */
  ghost predicate LibertiesUnknown(cells: map<Coord, State>, rs: map<RegionId, Region>) {
    forall id, u :: id in rs && u in rs[id].unknowns ==> u in cells && cells[u] == Unknown
  }

  /** Whether some member of coords shares an edge with u. */
  ghost predicate Touches(coords: set<Coord>, u: Coord) {
    exists m :: m in coords && Adjacent(m, u)
  }

  /**
   * An unknown cell is a liberty of a region exactly when it touches one of the
   * region's members: with LibertiesUnknown, a region's liberties are exactly
   * the unknown cells around it.
   */
  ghost predicate Frontier(cells: map<Coord, State>, rs: map<RegionId, Region>) {
    forall id, u {:trigger Touches(rs[id].coords, u)} ::
      id in rs && u in cells && cells[u] == Unknown ==> (u in rs[id].unknowns <==> Touches(rs[id].coords, u))
  }

  /** A cell is black exactly when its region is black. */
  ghost predicate ColoursAgree(cells: map<Coord, State>, owner: map<Coord, RegionId>, rs: map<RegionId, Region>) {
    forall c :: c in owner && c in cells && owner[c] in rs ==> (cells[c] == Black <==> rs[owner[c]].IsBlack())
  }

  /** Exactly the known cells have a region. */
  ghost predicate OwnedIffKnown(cells: map<Coord, State>, owner: map<Coord, RegionId>) {
    forall c :: c in owner <==> c in cells && cells[c] != Unknown
  }

  /**
   * The regions partition the known cells: each known cell points to a region
   * holding it, each member points back, liberties are exactly the unknown
   * cells around each region, colours agree.
   */
  ghost predicate Consistent(cells: map<Coord, State>, owner: map<Coord, RegionId>, rs: map<RegionId, Region>, next: RegionId) {
    && OwnedIffKnown(cells, owner) && OwnerSound(owner, rs) && MembersOwned(owner, rs)
    && IdsFresh(rs, next) && LibertiesUnknown(cells, rs) && Frontier(cells, rs) && ColoursAgree(cells, owner, rs)
  }

  /**
   * A newly known cell c, not yet owned, with a fresh region of its own whose
   * liberties are unknown cells and whose colour is c's, keeps the regions consistent.
   */
  lemma NewRegionKeeps(cells: map<Coord, State>, owner: map<Coord, RegionId>, rs: map<RegionId, Region>, next: RegionId,
                       c: Coord, r: Region)
    requires c in cells && cells[c] != Unknown && c !in owner
    requires OwnedIffKnown(cells, owner[c := next])
    requires OwnerSound(owner, rs) && MembersOwned(owner, rs) && IdsFresh(rs, next)
    requires LibertiesUnknown(cells, rs) && Frontier(cells, rs) && ColoursAgree(cells, owner, rs)
    requires r.state == cells[c] && r.coords == {c}
    requires forall u :: u in r.unknowns ==> u in cells && cells[u] == Unknown
    requires forall u :: u in cells && cells[u] == Unknown ==> (u in r.unknowns <==> Adjacent(c, u))
    ensures Consistent(cells, owner[c := next], rs[next := r], next + 1)
  {
    var owner', rs' := owner[c := next], rs[next := r];
    forall i, u | i in rs' && u in cells && cells[u] == Unknown ensures (u in rs'[i].unknowns <==> Touches(rs'[i].coords, u)) {
      if i == next && Adjacent(c, u) {
        assert c in r.coords;
      }
    }
    forall i, d | i in rs' && d in rs'[i].coords ensures d in owner' && owner'[d] == i {
      if i != next {
        assert d in rs[i].coords;
      }
    }
    forall d | d in owner' ensures owner'[d] in rs' && d in rs'[owner'[d]].coords {
      if d != c {
        assert owner[d] in rs && owner[d] < next;
      }
    }
  }

  /** The arena after region keep absorbs region gone. */
  function Fused(rs: map<RegionId, Region>, keep: RegionId, gone: RegionId): (r: map<RegionId, Region>)
    requires keep in rs && gone in rs && keep != gone
    ensures r.Keys == rs.Keys - {gone} + {keep}
  {
    rs[keep := Absorb(rs[keep], rs[gone])] - {gone}
  }

  /** The cell-to-region pointers after gone's members are repointed to keep. */
  function Repointed(owner: map<Coord, RegionId>, gone: RegionId, keep: RegionId): (r: map<Coord, RegionId>)
    ensures r.Keys == owner.Keys
    ensures forall c :: c in r ==> r[c] == (if owner[c] == gone then keep else owner[c])
  {
    map c | c in owner :: if owner[c] == gone then keep else owner[c]
  }

  /** Fusing two distinct regions of the same blackness keeps the partition consistent. */
  lemma FuseKeepsConsistent(cells: map<Coord, State>, owner: map<Coord, RegionId>, rs: map<RegionId, Region>,
                            next: RegionId, keep: RegionId, gone: RegionId)
    requires Consistent(cells, owner, rs, next)
    requires keep in rs && gone in rs && keep != gone && rs[keep].IsBlack() == rs[gone].IsBlack()
    ensures Consistent(cells, Repointed(owner, gone, keep), Fused(rs, keep, gone), next)
  {
    var o, r := Repointed(owner, gone, keep), Fused(rs, keep, gone);
    assert OwnerSound(o, r) by {
      forall c | c in o ensures o[c] in r && c in r[o[c]].coords {
        assert owner[c] in rs && c in rs[owner[c]].coords;
      }
    }
    assert MembersOwned(o, r) by {
      forall id, c | id in r && c in r[id].coords ensures c in o && o[c] == id {
        if id == keep {
          assert c in rs[keep].coords || c in rs[gone].coords;
        } else {
          assert c in rs[id].coords;
        }
      }
    }
    assert ColoursAgree(cells, o, r) by {
      forall c | c in o && c in cells && o[c] in r ensures (cells[c] == Black <==> r[o[c]].IsBlack()) {
        assert owner[c] in rs;
      }
    }
    assert LibertiesUnknown(cells, r) by {
      forall id, u | id in r && u in r[id].unknowns ensures u in cells && cells[u] == Unknown {
        if id == keep {
          assert u in rs[keep].unknowns || u in rs[gone].unknowns;
        } else {
          assert u in rs[id].unknowns;
        }
      }
    }
    assert Frontier(cells, r) by {
      forall id, u | id in r && u in cells && cells[u] == Unknown ensures (u in r[id].unknowns <==> Touches(r[id].coords, u)) {
        if id == keep {
          TouchesUnion(rs[keep].coords, rs[gone].coords, u);
        } else {
          assert r[id] == rs[id];
        }
      }
    }
  }

  /** The regions that do not hold c are regions of re, unchanged. */
  ghost predicate Untouched(rs: map<RegionId, Region>, c: Coord, re: map<RegionId, Region>) {
    forall id :: id in rs && c !in rs[id].coords ==> id in re && rs[id] == re[id]
  }

  /**
   * Every member of c's region other than c itself was, under the pointers oe,
   * in the region of one of the cells ns.
   */
  ghost predicate GrownFrom(rs: map<RegionId, Region>, owner: map<Coord, RegionId>, c: Coord, ns: set<Coord>, oe: map<Coord, RegionId>) {
    && c in owner && owner[c] in rs
    && forall d :: d in rs[owner[c]].coords && d != c ==> d in oe && exists n :: n in ns && n in oe && oe[n] == oe[d]
  }

  /**
   * The known cell m, if its region has the blackness of c's, shares c's
   * region, unless both regions are numbered and a contradiction is reported.
   */
  ghost predicate Joined(rs: map<RegionId, Region>, owner: map<Coord, RegionId>, sr: SitRep, c: Coord, m: Coord) {
    (m in owner && c in owner && owner[m] in rs && owner[c] in rs && rs[owner[m]].IsBlack() == rs[owner[c]].IsBlack()) ==>
      owner[m] == owner[c] || (rs[owner[c]].IsNumbered() && rs[owner[m]].IsNumbered() && sr == ContradictionFound)
  }

  /** What fuse_regions does to the regions, the pointers and the situation, given the ids r1 and r2. */
  ghost predicate FuseOutcome(rs: map<RegionId, Region>, owner: map<Coord, RegionId>, sr: SitRep,
                              rs': map<RegionId, Region>, owner': map<Coord, RegionId>, sr': SitRep,
                              r1: Option<RegionId>, r2: Option<RegionId>)
    requires r1.Some? ==> r1.value in rs
    requires r2.Some? ==> r2.value in rs
  {
    && (!Fusible(rs, r1, r2) ==> rs' == rs && owner' == owner)
    && (Fusible(rs, r1, r2) ==>
          var keep := Primary(rs, r1.value, r2.value);
          var gone := if keep == r1.value then r2.value else r1.value;
          rs' == Fused(rs, keep, gone) && owner' == Repointed(owner, gone, keep))
    && sr' == (if r1.Some? && r2.Some? && r1 != r2 && rs[r1.value].IsNumbered() && rs[r2.value].IsNumbered()
               then ContradictionFound else sr)
  }

  /**
   * One step of mark's neighbour walk, fusing c's region with that of its
   * neighbour n: the regions without c stay those of re, c's region still grows
   * only from the regions of neighbours, and n joins c's region unless the
   * colours differ or both are numbered; cells joined before stay joined.
   */
  lemma FuseStep(owner: map<Coord, RegionId>, rs: map<RegionId, Region>, sr: SitRep,
                 owner': map<Coord, RegionId>, rs': map<RegionId, Region>, sr': SitRep,
                 c: Coord, order: seq<Coord>, i: nat, ns: set<Coord>, re: map<RegionId, Region>, oe: map<Coord, RegionId>)
    requires OwnerSound(owner, rs) && MembersOwned(owner, rs) && MembersOwned(oe, re)
    requires c in owner && i < |order| && order[i] in ns && order[i] != c
    requires Untouched(rs, c, re) && GrownFrom(rs, owner, c, ns, oe)
    requires forall j :: 0 <= j < i ==> Joined(rs, owner, sr, c, order[j])
    requires FuseOutcome(rs, owner, sr, rs', owner', sr', Some(owner[c]), if order[i] in owner then Some(owner[order[i]]) else None)
    ensures Untouched(rs', c, re) && GrownFrom(rs', owner', c, ns, oe)
    ensures forall j :: 0 <= j <= i ==> Joined(rs', owner', sr', c, order[j])
  {
    var n := order[i];
    var oc := owner[c];
    var r2 := if n in owner then Some(owner[n]) else None;
    assert sr == ContradictionFound ==> sr' == ContradictionFound;
    if Fusible(rs, Some(oc), r2) {
      var on := r2.value;
      var keep := Primary(rs, oc, on);
      var gone := if keep == oc then on else oc;
      assert owner'[c] == keep && owner'[n] == keep;
      FusedUntouched(rs, keep, gone, c, re);
      FusedGrown(owner, rs, keep, gone, oc, on, c, n, ns, re, oe);
      forall j | 0 <= j < i ensures Joined(rs', owner', sr', c, order[j]) {
        FusedJoined(owner, rs, keep, gone, oc, on, c, order[j], sr, sr');
      }
    }
  }

  /** Fusing c's region oc with on keeps every cell joined to c joined to it. */
  lemma FusedJoined(owner: map<Coord, RegionId>, rs: map<RegionId, Region>, keep: RegionId, gone: RegionId, oc: RegionId, on: RegionId,
                    c: Coord, m: Coord, sr: SitRep, sr': SitRep)
    requires oc in rs && on in rs && oc != on && Fusible(rs, Some(oc), Some(on))
    requires keep == Primary(rs, oc, on) && gone == (if keep == oc then on else oc)
    requires OwnerSound(owner, rs) && c in owner && owner[c] == oc
    requires sr == ContradictionFound ==> sr' == ContradictionFound
    requires Joined(rs, owner, sr, c, m)
    ensures Joined(Fused(rs, keep, gone), Repointed(owner, gone, keep), sr', c, m)
  {
    var rs', owner' := Fused(rs, keep, gone), Repointed(owner, gone, keep);
    assert owner'[c] == keep;
    assert rs'[keep].IsBlack() == rs[oc].IsBlack();
    assert rs[oc].IsNumbered() ==> keep == oc;
    if m in owner {
      var om := owner[m];
      if om != oc && om != on {
        assert owner'[m] == om && rs'[om] == rs[om];
      }
    }
  }

  /** After a fusion into keep, which holds c, the regions without c are untouched. */
  lemma FusedUntouched(rs: map<RegionId, Region>, keep: RegionId, gone: RegionId, c: Coord, re: map<RegionId, Region>)
    requires keep in rs && gone in rs && keep != gone && Untouched(rs, c, re)
    requires c in rs[keep].coords || c in rs[gone].coords
    ensures Untouched(Fused(rs, keep, gone), c, re)
  {
    var rs' := Fused(rs, keep, gone);
    forall id | id in rs' && c !in rs'[id].coords ensures id in re && rs'[id] == re[id] {
      assert id != keep;
      assert rs'[id] == rs[id];
    }
  }

  /**
   * After c's region oc and n's region on are fused, c's region still grows
   * only from the regions of the cells ns: the members of on were, under oe,
   * in n's region.
   */
  lemma FusedGrown(owner: map<Coord, RegionId>, rs: map<RegionId, Region>, keep: RegionId, gone: RegionId, oc: RegionId, on: RegionId,
                   c: Coord, n: Coord, ns: set<Coord>, re: map<RegionId, Region>, oe: map<Coord, RegionId>)
    requires OwnerSound(owner, rs) && MembersOwned(owner, rs) && MembersOwned(oe, re)
    requires oc in rs && on in rs && oc != on && ((keep == oc && gone == on) || (keep == on && gone == oc))
    requires c in owner && owner[c] == oc && n in owner && owner[n] == on && n in ns
    requires Untouched(rs, c, re) && GrownFrom(rs, owner, c, ns, oe)
    ensures GrownFrom(Fused(rs, keep, gone), Repointed(owner, gone, keep), c, ns, oe)
  {
    var rs', owner' := Fused(rs, keep, gone), Repointed(owner, gone, keep);
    assert owner'[c] == keep;
    assert c !in rs[on].coords;
    assert on in re && rs[on] == re[on];
    forall d | d in rs'[keep].coords && d != c ensures d in oe && exists m :: m in ns && m in oe && oe[m] == oe[d] {
      if d !in rs[oc].coords {
        assert d in rs[on].coords && n in rs[on].coords;
        assert oe[n] == oe[d];
      }
    }
  }

  /** The regions rs with c removed from every region's liberties (unk_erase on each region). */
  function Erased(rs: map<RegionId, Region>, c: Coord): (r: map<RegionId, Region>)
    ensures r.Keys == rs.Keys
    ensures forall id :: id in r ==> r[id] == rs[id].(unknowns := rs[id].unknowns - {c})
  {
    map id | id in rs :: rs[id].(unknowns := rs[id].unknowns - {c})
  }

  /**
   * When c's fresh region was added as id to the erased regions ro, giving re,
   * and the regions without c are still those of re, they are regions of ro
   * with c erased from their liberties.
   */
  lemma UntouchedSincePlaced(rs: map<RegionId, Region>, c: Coord, re: map<RegionId, Region>, ro: map<RegionId, Region>,
                             id: RegionId, r: Region)
    requires Untouched(rs, c, re) && c in r.coords && re == Erased(ro, c)[id := r]
    ensures forall k :: k in rs && c !in rs[k].coords ==> k in ro && rs[k] == ro[k].(unknowns := ro[k].unknowns - {c})
  {
    forall k | k in rs && c !in rs[k].coords ensures k in ro && rs[k] == ro[k].(unknowns := ro[k].unknowns - {c}) {
      assert k in re && rs[k] == re[k];
    }
  }

  /** Growth from the regions of ns does not depend on where the pointers sent c itself, when c is not in ns. */
  lemma GrownFromElsewhere(rs: map<RegionId, Region>, owner: map<Coord, RegionId>, c: Coord, ns: set<Coord>,
                           oe: map<Coord, RegionId>, x: RegionId)
    requires c !in ns && GrownFrom(rs, owner, c, ns, oe[c := x])
    ensures GrownFrom(rs, owner, c, ns, oe)
  {
    forall d | d in rs[owner[c]].coords && d != c ensures d in oe && exists n :: n in ns && n in oe && oe[n] == oe[d] {
      var n :| n in ns && n in oe[c := x] && oe[c := x][n] == oe[c := x][d];
      assert n != c;
    }
  }

  /** A cell touches the union of two sets of cells exactly when it touches one of them. */
  lemma TouchesUnion(a: set<Coord>, b: set<Coord>, u: Coord)
    ensures Touches(a + b, u) <==> Touches(a, u) || Touches(b, u)
  {
    if Touches(a + b, u) {
      var m :| m in a + b && Adjacent(m, u);
      assert m in a || m in b;
    }
  }

  /**
   * Turning the unknown cell c to the known state s keeps the colours in
   * agreement, makes c the one known cell without a region, and leaves c as the
   * only liberty that is no longer unknown.
   */
  lemma SetCellKeeps(cells: map<Coord, State>, owner: map<Coord, RegionId>, rs: map<RegionId, Region>,
                     next: RegionId, c: Coord, s: State)
    requires Consistent(cells, owner, rs, next) && c in cells && cells[c] == Unknown && s != Unknown
    ensures c !in owner
    ensures ColoursAgree(cells[c := s], owner, rs)
    ensures OwnedIffKnown(cells[c := s], owner[c := next])
    ensures forall id, u :: id in rs && u in rs[id].unknowns && u != c ==> u in cells[c := s] && cells[c := s][u] == Unknown
    ensures Frontier(cells[c := s], rs)
  {
  }

  /** A width by height board with every cell unknown. */
  function BlankBoard(width: int, height: int): (m: map<Coord, State>)
    ensures forall c :: c in m <==> InGrid(width, height, c)
    ensures forall c :: c in m ==> m[c] == Unknown
  {
    var all := set x, y | 0 <= x < width && 0 <= y < height :: Coord(x, y);
    map c | c in all :: Unknown
  }

  /** Whether the constructor's loops (x outer, y inner) have visited c before reaching (x, y). */
  predicate VisitedBefore(c: Coord, x: int, y: int) {
    c.x < x || (c.x == x && c.y < y)
  }

  /** The state of c once the constructor's loops have reached (x, y). */
  function Initial(tokens: seq<nat>, width: int, height: int, c: Coord, x: int, y: int): State
    requires |tokens| == width * height && InGrid(width, height, c)
  {
    var n := TokenAt(tokens, width, height, c);
    if VisitedBefore(c, x, y) && n > 0 then Numbered(n) else Unknown
  }

  /**
   * In a description the corrected check accepts no clue has a clue beside it:
   * a clue above or below is refused by the constructor, one to the left or
   * right by the corrected check (see HorizontalCluesAccepted).
   */
  lemma {:induction false} ClueNeighborsBlank(tokens: seq<nat>, width: int, height: int, c: Coord, n: Coord)
    requires |tokens| == width * height && InGrid(width, height, c)
    requires !HasVerticalClues(tokens, width, height) && NoHorizontalClues(tokens, width, height)
    requires TokenAt(tokens, width, height, c) > 0 && n in Neighbors(width, height, c)
    ensures TokenAt(tokens, width, height, n) == 0
  {
    if n.y == c.y + 1 {
      var below, above := TokenAt(tokens, width, height, Coord(n.x, n.y)), TokenAt(tokens, width, height, Coord(n.x, n.y - 1));
    } else if n.y == c.y - 1 {
      var below, above := TokenAt(tokens, width, height, Coord(c.x, c.y)), TokenAt(tokens, width, height, Coord(c.x, c.y - 1));
    } else if n.x == c.x + 1 {
      var right, left := TokenAt(tokens, width, height, Coord(n.x, n.y)), TokenAt(tokens, width, height, Coord(n.x - 1, n.y));
    } else {
      var right, left := TokenAt(tokens, width, height, Coord(c.x, c.y)), TokenAt(tokens, width, height, Coord(c.x - 1, c.y));
    }
  }

  /**
   * As written, a clue's region takes as liberties the neighbours still unknown
   * when the loops reach it. On the tokens 1, 2, 0 of a board 3 wide and 1 high,
   * which the constructor accepts, the region of the clue 1 takes the cell of
   * the clue 2 as a liberty, and that cell is numbered once the loops finish.
   */
  lemma ClueLibertyNumberedAsWritten()
    ensures Coord(1, 0) in Neighbors(3, 1, Coord(0, 0))
    ensures Initial([1, 2, 0], 3, 1, Coord(1, 0), 0, 0) == Unknown
    ensures Initial([1, 2, 0], 3, 1, Coord(1, 0), 3, 0) == Numbered(2)
  {
    assert Manhattan(Coord(0, 0), Coord(1, 0)) == 1;
    assert !VisitedBefore(Coord(1, 0), 0, 0) && VisitedBefore(Coord(1, 0), 3, 0);
    assert TokenAt([1, 2, 0], 3, 1, Coord(1, 0)) == 2;
  }

  /**
   * What the constructor has built once its loops reach (x, y): the visited clue
   * cells are numbered, each in a region of its own whose liberties are its
   * neighbours, and every other cell is unknown.
   */
  ghost predicate Loaded(tokens: seq<nat>, width: int, height: int, x: int, y: int,
                         cs: map<Coord, State>, own: map<Coord, RegionId>, rs: map<RegionId, Region>, next: RegionId)
  {
    && |tokens| == width * height
    && (forall c :: c in cs <==> InGrid(width, height, c))
    && (forall c :: c in cs ==> cs[c] == Initial(tokens, width, height, c, x, y))
    && OwnedIffKnown(cs, own) && MembersOwned(own, rs) && IdsFresh(rs, next)
    && AloneInRegions(cs, own, rs) && LibertiesBlank(tokens, width, height, rs) && LibertiesAround(width, height, rs)
  }

  /** A cell of the board is a liberty of a region exactly when it touches one of the region's members. */
  ghost predicate LibertiesAround(width: int, height: int, rs: map<RegionId, Region>) {
    forall id, u {:trigger Touches(rs[id].coords, u)} ::
      id in rs && InGrid(width, height, u) ==> (u in rs[id].unknowns <==> Touches(rs[id].coords, u))
  }

  /** Every known cell is the one cell of its region, which has its state. */
  ghost predicate AloneInRegions(cs: map<Coord, State>, own: map<Coord, RegionId>, rs: map<RegionId, Region>) {
    forall c :: c in own ==> c in cs && own[c] in rs && rs[own[c]].state == cs[c] && rs[own[c]].coords == {c}
  }

  /** Every liberty of every region is a blank cell of the description. */
  ghost predicate LibertiesBlank(tokens: seq<nat>, width: int, height: int, rs: map<RegionId, Region>)
    requires |tokens| == width * height
  {
    forall id, u :: id in rs && u in rs[id].unknowns ==> InGrid(width, height, u) && TokenAt(tokens, width, height, u) == 0
  }

  /** Before the loops start, every cell is unknown and there are no regions. */
  lemma LoadedStart(tokens: seq<nat>, width: int, height: int)
    requires |tokens| == width * height
    ensures Loaded(tokens, width, height, 0, 0, BlankBoard(width, height), map[], map[], 0)
  {
    var cs := BlankBoard(width, height);
    forall c | c in cs ensures cs[c] == Initial(tokens, width, height, c, 0, 0) {
      assert !VisitedBefore(c, 0, 0);
    }
  }

  /** Having visited all of column x is having reached the top of column x + 1. */
  lemma LoadedNextColumn(tokens: seq<nat>, width: int, height: int, x: int,
                         cs: map<Coord, State>, own: map<Coord, RegionId>, rs: map<RegionId, Region>, next: RegionId)
    requires Loaded(tokens, width, height, x, height, cs, own, rs, next)
    ensures Loaded(tokens, width, height, x + 1, 0, cs, own, rs, next)
  {
    forall c | c in cs ensures cs[c] == Initial(tokens, width, height, c, x + 1, 0) {
      assert VisitedBefore(c, x, height) == VisitedBefore(c, x + 1, 0);
    }
  }

  lemma InitialStep(tokens: seq<nat>, width: int, height: int, d: Coord, c: Coord)
    requires |tokens| == width * height && InGrid(width, height, d) && InGrid(width, height, c)
    ensures Initial(tokens, width, height, d, c.x, c.y + 1)
         == if d != c then Initial(tokens, width, height, d, c.x, c.y)
            else if TokenAt(tokens, width, height, c) > 0 then Numbered(TokenAt(tokens, width, height, c))
            else Unknown
  {
    assert VisitedBefore(d, c.x, c.y + 1) <==> VisitedBefore(d, c.x, c.y) || d == c;
  }

  /** Reaching past a blank cell c changes nothing the constructor has built. */
  lemma BlankStep(tokens: seq<nat>, width: int, height: int, c: Coord,
                  cs: map<Coord, State>, own: map<Coord, RegionId>, rs: map<RegionId, Region>, next: RegionId)
    requires InGrid(width, height, c) && Loaded(tokens, width, height, c.x, c.y, cs, own, rs, next)
    requires TokenAt(tokens, width, height, c) == 0
    ensures Loaded(tokens, width, height, c.x, c.y + 1, cs, own, rs, next)
  {
    forall d | d in cs ensures cs[d] == Initial(tokens, width, height, d, c.x, c.y + 1) {
      InitialStep(tokens, width, height, d, c);
    }
  }

  /** Reaching past a clue cell c numbers it and gives it a region of its own. */
  lemma ClueStep(tokens: seq<nat>, width: int, height: int, c: Coord,
                 cs: map<Coord, State>, own: map<Coord, RegionId>, rs: map<RegionId, Region>, next: RegionId)
    requires InGrid(width, height, c) && Loaded(tokens, width, height, c.x, c.y, cs, own, rs, next)
    requires !HasVerticalClues(tokens, width, height) && NoHorizontalClues(tokens, width, height)
    requires TokenAt(tokens, width, height, c) > 0
    ensures var s := Numbered(TokenAt(tokens, width, height, c));
      Loaded(tokens, width, height, c.x, c.y + 1, cs[c := s], own[c := next],
             rs[next := Region(s, {c}, Neighbors(width, height, c))], next + 1)
  {
    var s := Numbered(TokenAt(tokens, width, height, c));
    var cs', own', rs' := cs[c := s], own[c := next], rs[next := Region(s, {c}, Neighbors(width, height, c))];
    forall d | d in cs' ensures cs'[d] == Initial(tokens, width, height, d, c.x, c.y + 1) {
      InitialStep(tokens, width, height, d, c);
    }
    assert !VisitedBefore(c, c.x, c.y);
    ClueLibertiesBlank(tokens, width, height, c, rs, next, s);
    ClueLibertiesAround(width, height, c, rs, next, s);
    ClueOwned(cs, own, rs, next, c, s, Region(s, {c}, Neighbors(width, height, c)));
  }

  /** The liberties of a clue's new region, its neighbours, hold no clue; nor do those of the other regions. */
  lemma ClueLibertiesBlank(tokens: seq<nat>, width: int, height: int, c: Coord, rs: map<RegionId, Region>, next: RegionId, s: State)
    requires |tokens| == width * height && InGrid(width, height, c)
    requires !HasVerticalClues(tokens, width, height) && NoHorizontalClues(tokens, width, height)
    requires TokenAt(tokens, width, height, c) > 0
    requires LibertiesBlank(tokens, width, height, rs)
    ensures LibertiesBlank(tokens, width, height, rs[next := Region(s, {c}, Neighbors(width, height, c))])
  {
    var rs' := rs[next := Region(s, {c}, Neighbors(width, height, c))];
    forall id, u | id in rs' && u in rs'[id].unknowns
      ensures InGrid(width, height, u) && TokenAt(tokens, width, height, u) == 0
    {
      if id != next {
        assert u in rs[id].unknowns;
      } else {
        ClueNeighborsBlank(tokens, width, height, c, u);
      }
    }
  }

  /** The liberties of a clue's new region, its neighbours, are the cells around it. */
  lemma ClueLibertiesAround(width: int, height: int, c: Coord, rs: map<RegionId, Region>, next: RegionId, s: State)
    requires InGrid(width, height, c) && LibertiesAround(width, height, rs)
    ensures LibertiesAround(width, height, rs[next := Region(s, {c}, Neighbors(width, height, c))])
  {
    var rs' := rs[next := Region(s, {c}, Neighbors(width, height, c))];
    forall id, u | id in rs' && InGrid(width, height, u) ensures (u in rs'[id].unknowns <==> Touches(rs'[id].coords, u)) {
      if id == next && Adjacent(c, u) {
        assert c in rs'[id].coords;
      }
    }
  }

  /** A cell c without a region that becomes known, with a fresh region r of its own, keeps every known cell alone in its region. */
  lemma ClueOwned(cs: map<Coord, State>, own: map<Coord, RegionId>, rs: map<RegionId, Region>, next: RegionId,
                  c: Coord, s: State, r: Region)
    requires c in cs && cs[c] == Unknown && s != Unknown && r.state == s && r.coords == {c}
    requires OwnedIffKnown(cs, own) && MembersOwned(own, rs) && IdsFresh(rs, next)
    requires AloneInRegions(cs, own, rs)
    ensures OwnedIffKnown(cs[c := s], own[c := next]) && MembersOwned(own[c := next], rs[next := r])
    ensures IdsFresh(rs[next := r], next + 1)
    ensures AloneInRegions(cs[c := s], own[c := next], rs[next := r])
  {
    var cs', own', rs' := cs[c := s], own[c := next], rs[next := r];
    assert MembersOwned(own', rs') by {
      forall id, d | id in rs' && d in rs'[id].coords ensures d in own' && own'[d] == id {
        if id != next {
          assert d in rs[id].coords;
        }
      }
    }
    forall d | d in own' ensures own'[d] in rs' && rs'[own'[d]].state == cs'[d] && rs'[own'[d]].coords == {d} {
      if d != c {
        assert own[d] in rs && own[d] < next;
      }
    }
  }

  /** Once every column is visited, the board holds exactly the clues and its regions are consistent. */
  lemma LoadedComplete(tokens: seq<nat>, width: int, height: int,
                       cs: map<Coord, State>, own: map<Coord, RegionId>, rs: map<RegionId, Region>, next: RegionId)
    requires Loaded(tokens, width, height, width, 0, cs, own, rs, next)
    ensures Consistent(cs, own, rs, next)
    ensures forall c :: c in cs ==>
      cs[c] == (if TokenAt(tokens, width, height, c) > 0 then Numbered(TokenAt(tokens, width, height, c)) else Unknown)
    ensures forall c :: c in own ==> InGrid(width, height, c) && rs[own[c]] == Region(cs[c], {c}, Neighbors(width, height, c))
  {
    forall c | c in own ensures InGrid(width, height, c) && rs[own[c]] == Region(cs[c], {c}, Neighbors(width, height, c)) {
      ClueRegion(tokens, width, height, cs, own, rs, c);
    }
    forall c | c in cs
      ensures cs[c] == (if TokenAt(tokens, width, height, c) > 0 then Numbered(TokenAt(tokens, width, height, c)) else Unknown)
    {
      assert VisitedBefore(c, width, 0);
    }
    forall c | c in own && c in cs && own[c] in rs ensures (cs[c] == Black <==> rs[own[c]].IsBlack()) {
      assert cs[c].Numbered?;
    }
  }

  /** Once every column is visited, a clue's region is the clue alone, with its neighbours as liberties. */
  lemma ClueRegion(tokens: seq<nat>, width: int, height: int,
                   cs: map<Coord, State>, own: map<Coord, RegionId>, rs: map<RegionId, Region>, c: Coord)
    requires |tokens| == width * height && (forall d :: d in cs <==> InGrid(width, height, d))
    requires OwnedIffKnown(cs, own) && AloneInRegions(cs, own, rs)
    requires LibertiesBlank(tokens, width, height, rs) && LibertiesAround(width, height, rs)
    requires c in own
    ensures InGrid(width, height, c) && rs[own[c]] == Region(cs[c], {c}, Neighbors(width, height, c))
  {
    var id := own[c];
    var r := rs[id];
    assert r.coords == {c};
    forall u | u in r.unknowns ensures u in Neighbors(width, height, c) {
      assert InGrid(width, height, u);
      assert Touches(rs[id].coords, u);
      var m :| m in r.coords && Adjacent(m, u);
    }
    forall u | u in Neighbors(width, height, c) ensures u in r.unknowns {
      assert c in r.coords && Adjacent(c, u);
      assert Touches(rs[id].coords, u);
    }
  }

  /**
   * One step of the constructor's loops, at cell c: a clue becomes a numbered
   * cell with a region of its own, whose liberties are its unknown neighbours.
   * Returns the clue (0 for a blank).
   */
  method LoadCell(tokens: seq<nat>, width: int, height: int, c: Coord,
                  cs: map<Coord, State>, own: map<Coord, RegionId>, rs: map<RegionId, Region>, next: RegionId)
    returns (cs': map<Coord, State>, own': map<Coord, RegionId>, rs': map<RegionId, Region>, next': RegionId, n: nat)
    requires InGrid(width, height, c) && Loaded(tokens, width, height, c.x, c.y, cs, own, rs, next)
    requires !HasVerticalClues(tokens, width, height) && NoHorizontalClues(tokens, width, height)
    ensures Loaded(tokens, width, height, c.x, c.y + 1, cs', own', rs', next')
    ensures n == TokenAt(tokens, width, height, c)
  {
    IndexInRange(width, height, c);
    n := tokens[c.x + c.y * width];
    if n > 0 {
      cs' := cs[c := Numbered(n)];
      var liberties := set u | u in Neighbors(width, height, c) && u in cs' && cs'[u] == Unknown;
      ClueStep(tokens, width, height, c, cs, own, rs, next);
      assert liberties == Neighbors(width, height, c) by {
        forall u | u in Neighbors(width, height, c) ensures u in cs' && cs'[u] == Unknown {
          ClueNeighborsBlank(tokens, width, height, c, u);
        }
      }
      own', rs', next' := own[c := next], rs[next := Region(Numbered(n), {c}, liberties)], next + 1;
    } else {
      BlankStep(tokens, width, height, c, cs, own, rs, next);
      cs', own', rs', next' := cs, own, rs, next;
    }
  }

  /** The constructor's inner loop over column x. Returns the sum of the column's clues. */
  method LoadColumn(tokens: seq<nat>, width: int, height: int, x: int,
                    cs: map<Coord, State>, own: map<Coord, RegionId>, rs: map<RegionId, Region>, next: RegionId)
    returns (cs': map<Coord, State>, own': map<Coord, RegionId>, rs': map<RegionId, Region>, next': RegionId, sum: nat)
    requires 0 <= x < width && 0 <= height && Loaded(tokens, width, height, x, 0, cs, own, rs, next)
    requires !HasVerticalClues(tokens, width, height) && NoHorizontalClues(tokens, width, height)
    ensures Loaded(tokens, width, height, x + 1, 0, cs', own', rs', next')
    ensures sum == ColumnSum(tokens, width, height, x, height)
  {
    cs', own', rs', next', sum := cs, own, rs, next, 0;
    var y := 0;
    while y < height
      invariant 0 <= y <= height
      invariant Loaded(tokens, width, height, x, y, cs', own', rs', next')
      invariant sum == ColumnSum(tokens, width, height, x, y)
    {
      var n;
      cs', own', rs', next', n := LoadCell(tokens, width, height, Coord(x, y), cs', own', rs', next');
      sum := sum + n;
      y := y + 1;
    }
    LoadedNextColumn(tokens, width, height, x, cs', own', rs', next');
  }

  /**
   * The constructor's loops over the columns: the board, its regions and the
   * number of black cells the solution has.
   */
  method LoadBoard(tokens: seq<nat>, width: int, height: int)
    returns (cs: map<Coord, State>, own: map<Coord, RegionId>, rs: map<RegionId, Region>, next: RegionId, black: int)
    requires CheckInputCorrected(width, height, tokens).None?
    ensures forall c :: c in cs <==> InGrid(width, height, c)
    ensures Consistent(cs, own, rs, next)
    ensures forall c :: c in cs ==>
      cs[c] == (if TokenAt(tokens, width, height, c) > 0 then Numbered(TokenAt(tokens, width, height, c)) else Unknown)
    ensures forall c :: c in own ==> InGrid(width, height, c) && rs[own[c]] == Region(cs[c], {c}, Neighbors(width, height, c))
    ensures black == width * height - ClueSum(tokens)
  {
    var sum;
    cs, own, rs, next, sum := LoadColumns(tokens, width, height);
    black := width * height - sum;
    ColumnMajorIsClueSum(tokens, width, height);
    LoadedComplete(tokens, width, height, cs, own, rs, next);
  }

  /** The running clue sum, one column further. */
  function AddColumn(tokens: seq<nat>, width: int, height: int, x: int, sum: int, n: nat): (sum': int)
    requires |tokens| == width * height && 0 <= x < width && height >= 0
    requires sum == ColumnMajorSum(tokens, width, height, x) && n == ColumnSum(tokens, width, height, x, height)
    ensures sum' == ColumnMajorSum(tokens, width, height, x + 1)
  {
    sum + n
  }

  /** The constructor's outer loop: every column visited, and the sum of all clues. */
  method LoadColumns(tokens: seq<nat>, width: int, height: int)
    returns (cs: map<Coord, State>, own: map<Coord, RegionId>, rs: map<RegionId, Region>, next: RegionId, sum: int)
    requires width >= 1 && height >= 1 && |tokens| == width * height
    requires !HasVerticalClues(tokens, width, height) && NoHorizontalClues(tokens, width, height)
    ensures Loaded(tokens, width, height, width, 0, cs, own, rs, next)
    ensures sum == ColumnMajorSum(tokens, width, height, width)
  {
    cs := BlankBoard(width, height);
    own, rs, next, sum := map[], map[], 0, 0;
    LoadedStart(tokens, width, height);
    var x := 0;
    while x < width
      invariant 0 <= x <= width
      invariant Loaded(tokens, width, height, x, 0, cs, own, rs, next)
      invariant sum == ColumnMajorSum(tokens, width, height, x)
    {
      var n;
      cs, own, rs, next, n := LoadColumn(tokens, width, height, x, cs, own, rs, next);
      sum := AddColumn(tokens, width, height, x, sum, n);
      x := x + 1;
    }
  }

  /** analyze_single_liberties's rule for one colour, as a function of a region. */
  function SoleRule(totalBlack: int, black: bool): Region -> set<Coord> {
    r => SoleMarks(r, totalBlack, black)
  }

  /** analyze_dual_liberties's rule on the board cells, as a function of a region. */
  ghost function DualRule(cells: map<Coord, State>): Region -> set<Coord> {
    r => DualMarks(r, cells)
  }

  /** Every rule concludes only liberties, so whatever it gathers is unknown on the board. */
  lemma GatherLiberties(rs: map<RegionId, Region>, cells: map<Coord, State>, ids: set<RegionId>, marks: Region -> set<Coord>)
    requires LibertiesUnknown(cells, rs)
    requires forall r :: marks(r) <= r.unknowns
    ensures forall c :: c in Gather(rs, ids, marks) ==> c in cells && cells[c] == Unknown
  {
    forall c | c in Gather(rs, ids, marks) ensures c in cells && cells[c] == Unknown {
      GatherMember(rs, ids, marks, c);
      var id :| id in ids && id in rs && c in marks(rs[id]);
      assert c in rs[id].unknowns;
    }
  }

  /** The loop of analyze_complete_islands: the liberties of every numbered region that has reached its number. */
  method CollectComplete(rs: map<RegionId, Region>) returns (b: set<Coord>)
    ensures b == Gather(rs, rs.Keys, CompleteMarks)
  {
    b := {};
    var todo := rs.Keys;
    GatherEmpty(rs, CompleteMarks);
    while todo != {}
      invariant todo <= rs.Keys
      invariant b == Gather(rs, rs.Keys - todo, CompleteMarks)
    {
      var id :| id in todo;
      var r := rs[id];
      if r.IsNumbered() && r.Size() == r.Number() {
        b := b + r.unknowns;
      }
      GatherStep(rs, rs.Keys - todo, id, CompleteMarks);
      assert rs.Keys - (todo - {id}) == (rs.Keys - todo) + {id};
      todo := todo - {id};
    }
  }

  /** One more region adds its only liberty to the colour it needs. */
  lemma SoleGatherStep(rs: map<RegionId, Region>, done: set<RegionId>, id: RegionId, totalBlack: int)
    requires id in rs
    ensures Gather(rs, done + {id}, SoleRule(totalBlack, true))
         == Gather(rs, done, SoleRule(totalBlack, true)) + SoleMarks(rs[id], totalBlack, true)
    ensures Gather(rs, done + {id}, SoleRule(totalBlack, false))
         == Gather(rs, done, SoleRule(totalBlack, false)) + SoleMarks(rs[id], totalBlack, false)
  {
    GatherStep(rs, done, id, SoleRule(totalBlack, true));
    GatherStep(rs, done, id, SoleRule(totalBlack, false));
  }

  /**
   * The loop of analyze_single_liberties: the only liberty of every region that
   * still has to grow, black ones in b and white or numbered ones in w.
   */
  method CollectSole(rs: map<RegionId, Region>, totalBlack: int) returns (b: set<Coord>, w: set<Coord>)
    ensures b == Gather(rs, rs.Keys, SoleRule(totalBlack, true))
    ensures w == Gather(rs, rs.Keys, SoleRule(totalBlack, false))
  {
    b, w := {}, {};
    var todo := rs.Keys;
    ghost var done: set<RegionId> := {};
    GatherEmpty(rs, SoleRule(totalBlack, true));
    GatherEmpty(rs, SoleRule(totalBlack, false));
    while todo != {}
      invariant done !! todo && done + todo == rs.Keys
      invariant b == Gather(rs, done, SoleRule(totalBlack, true))
      invariant w == Gather(rs, done, SoleRule(totalBlack, false))
    {
      var id :| id in todo;
      SoleGatherStep(rs, done, id, totalBlack);
      var mb, mw := SoleOf(rs[id], totalBlack);
      b, w := b + mb, w + mw;
      todo, done := todo - {id}, done + {id};
    }
  }

  /** The body of analyze_single_liberties's loop: the only liberty of r, in the colour r has, when r has to grow. */
  method SoleOf(r: Region, totalBlack: int) returns (b: set<Coord>, w: set<Coord>)
    ensures b == SoleMarks(r, totalBlack, true) && w == SoleMarks(r, totalBlack, false)
  {
    b, w := {}, {};
    if r.NeedsMore(r.Size(), totalBlack) && |r.unknowns| == 1 {
      if r.IsBlack() {
        b := r.unknowns;
      } else {
        w := r.unknowns;
      }
    }
  }

  /** The body of analyze_dual_liberties's loop for one region. */
  method DualCorner(r: Region, cells: map<Coord, State>) returns (m: set<Coord>)
    ensures m == DualMarks(r, cells)
  {
    m := {};
    if r.IsNumbered() && r.Size() == r.Number() - 1 && |r.unknowns| == 2 {
      var a :| a in r.unknowns;
      assert |r.unknowns - {a}| == 1;
      var a' :| a' in r.unknowns - {a};
      var first, second := if LexLess(a, a') then a else a', if LexLess(a, a') then a' else a;
      DualMarksOf(r, cells, a, a');
      if Abs(first.x - second.x) == 1 && Abs(first.y - second.y) == 1 {
        var p := FarCorner(r.coords, first, second);
        if p in cells && cells[p] == Unknown {
          m := {p};
        }
      }
    } else {
      assert !DualCandidate(r);
    }
  }

  /**
   * The loop of analyze_dual_liberties: for every island one cell short with
   * two diagonal liberties, the far corner of their square when it is unknown.
   */
  method CollectDual(rs: map<RegionId, Region>, cells: map<Coord, State>) returns (b: set<Coord>)
    ensures b == Gather(rs, rs.Keys, DualRule(cells))
  {
    b := {};
    var todo := rs.Keys;
    GatherEmpty(rs, DualRule(cells));
    while todo != {}
      invariant todo <= rs.Keys
      invariant b == Gather(rs, rs.Keys - todo, DualRule(cells))
    {
      var id :| id in todo;
      var r := rs[id];
      var m := DualCorner(r, cells);
      b := b + m;
      GatherStep(rs, rs.Keys - todo, id, DualRule(cells));
      assert rs.Keys - (todo - {id}) == (rs.Keys - todo) + {id};
      todo := todo - {id};
    }
  }

  /** The 2x2 square with upper-left corner (x, y), in the order the source lists it. */
  function Square(x: int, y: int): seq<Coord> {
    [Coord(x, y), Coord(x + 1, y), Coord(x, y + 1), Coord(x + 1, y + 1)]
  }

  /** Whether c is the one unknown cell of the square at (x, y), the other three being black. */
  predicate LoneUnknown(cells: map<Coord, State>, x: int, y: int, c: Coord) {
    && c in Square(x, y) && c in cells && cells[c] == Unknown
    && forall d :: d in Square(x, y) && d != c ==> d in cells && cells[d] == Black
  }

  /** 1 when s is t, else 0: one term of a count of the cells in state t. */
  function Tally(s: State, t: State): int {
    if s == t then 1 else 0
  }

  /** An entry of unreachable's queue: a cell and the number of white cells on the path ending there. */
  datatype Step = Step(c: Coord, n: int)

  /** What unreachable's search does with a dequeued cell. */
  datatype ProbeVerdict = Connect | Skip | Expand

  /** The cells of the steps of s. */
  ghost function StepCells(s: seq<Step>): set<Coord> {
    set i | 0 <= i < |s| :: s[i].c
  }

  lemma StepCellsSnoc(s: seq<Step>, e: Step)
    ensures StepCells(s + [e]) == StepCells(s) + {e.c}
  {
    StepCellsAppend(s, [e]);
    assert [e][0] == e;
  }

  lemma StepCellsAppend(s: seq<Step>, t: seq<Step>)
    ensures StepCells(s + t) == StepCells(s) + StepCells(t)
  {
    forall c | c in StepCells(s) ensures c in StepCells(s + t) {
      var i :| 0 <= i < |s| && s[i].c == c;
      assert (s + t)[i] == s[i];
    }
    forall c | c in StepCells(t) ensures c in StepCells(s + t) {
      var i :| 0 <= i < |t| && t[i].c == c;
      assert (s + t)[|s| + i] == t[i];
    }
  }

  lemma TailAppend(s: seq<Step>, t: seq<Step>, k: nat)
    requires k <= |s|
    ensures s[k..] + t == (s + t)[k..]
  {
  }

  /** Adding cells of the board not yet found shrinks what is left to find. */
  lemma FewerLeft(all: set<Coord>, found: set<Coord>, more: set<Coord>)
    requires more <= all && more !! found && more != {}
    ensures |all - (found + more)| < |all - found|
  {
    var x :| x in more;
    var left, taken := all - (found + more), (all - found) * more;
    assert all - found == left + taken && left !! taken;
    assert x in taken;
  }

  /**
   * A board that only grows into known states has no more unknown cells than
   * before, and strictly fewer when it knows some cell more.
   */
  lemma FewerUnknown(before: map<Coord, State>, after: map<Coord, State>, allowed: set<State>)
    requires Grows(before, after, allowed) && Unknown !in allowed
    ensures KnownCells(before) <= KnownCells(after)
    ensures |after.Keys - KnownCells(after)| <= |before.Keys - KnownCells(before)|
    ensures KnownCells(before) < KnownCells(after) ==>
      |after.Keys - KnownCells(after)| < |before.Keys - KnownCells(before)|
  {
    var all, found, now := before.Keys, KnownCells(before), KnownCells(after);
    forall c | c in found ensures c in now {
      assert c in before;
    }
    var more := now - found;
    assert now == found + more;
    if more != {} {
      FewerLeft(all, found, more);
    } else {
      assert all - now == all - found;
    }
  }

  /** Whether a region reg may take over the region area in confined: black takes black, white and numbered take white. */
  predicate Joins(reg: Region, area: Region) {
    if reg.IsBlack() then area.IsBlack() else area.IsWhite()
  }

  /**
   * How confined may change its cache for region id: not at all when verboten
   * is not empty; otherwise only id's entry, which only grows, and only by
   * unknown cells of taken.
   */
  ghost predicate CacheGrows(cells: map<Coord, State>, cache: map<RegionId, set<Coord>>, cache': map<RegionId, set<Coord>>,
                             id: RegionId, verboten: set<Coord>, taken: set<Coord>) {
    && (verboten != {} ==> cache' == cache)
    && cache' - {id} == cache - {id}
    && (id in cache ==> id in cache' && cache[id] <= cache'[id])
    && (id in cache' ==> forall c :: c in cache'[id] && !(id in cache && c in cache[id]) ==> c in taken && c in cells && cells[c] == Unknown)
  }

  /** Recording the unknown cell p for region id when there are no verboten cells keeps the cache's growth within the closed cells. */
  lemma CacheAdd(cells: map<Coord, State>, cache0: map<RegionId, set<Coord>>, cache: map<RegionId, set<Coord>>,
                 id: RegionId, taken: set<Coord>, p: Coord)
    requires CacheGrows(cells, cache0, cache, id, {}, taken) && p in cells && cells[p] == Unknown
    ensures CacheGrows(cells, cache0, cache[id := (if id in cache then cache[id] else {}) + {p}], id, {}, taken + {p})
  {
  }

  /** The cache's growth stays within any superset of the closed cells. */
  lemma CacheWithin(cells: map<Coord, State>, cache0: map<RegionId, set<Coord>>, cache: map<RegionId, set<Coord>>,
                    id: RegionId, verboten: set<Coord>, taken: set<Coord>, taken': set<Coord>)
    requires CacheGrows(cells, cache0, cache, id, verboten, taken) && taken <= taken'
    ensures CacheGrows(cells, cache0, cache, id, verboten, taken')
  {
  }

  /** `if (verboten.empty()) cache[r].insert(p);`: record the unknown cell p as taken by region id. */
  method Record(cells: map<Coord, State>, cache: map<RegionId, set<Coord>>, id: RegionId, verboten: set<Coord>, p: Coord,
                ghost cache0: map<RegionId, set<Coord>>, ghost taken: set<Coord>)
    returns (cache': map<RegionId, set<Coord>>)
    requires CacheGrows(cells, cache0, cache, id, verboten, taken) && p in cells && cells[p] == Unknown
    ensures CacheGrows(cells, cache0, cache', id, verboten, taken + {p})
    ensures verboten == {} ==> id in cache' && p in cache'[id]
  {
    cache' := cache;
    if verboten == {} {
      cache' := cache[id := (if id in cache then cache[id] else {}) + {p}];
      CacheAdd(cells, cache0, cache, id, taken, p);
    } else {
      CacheWithin(cells, cache0, cache, id, verboten, taken, taken + {p});
    }
  }

  /** Whether the 2x2 square with upper-left corner (x, y) is all black: a pool. */
  predicate Pool(cells: map<Coord, State>, x: int, y: int) {
    forall d :: d in Square(x, y) ==> d in cells && cells[d] == Black
  }

  /** The ids among ids of black regions (black true) or of white and numbered ones (black false). */
  function OfColour(rs: map<RegionId, Region>, ids: set<RegionId>, black: bool): (r: set<RegionId>)
    ensures r <= ids && r <= rs.Keys
  {
    set id | id in ids && id in rs && rs[id].IsBlack() == black
  }

  /** The number of cells in the black (black true) or the white and numbered (black false) regions among ids. */
  ghost function ColourSize(rs: map<RegionId, Region>, ids: set<RegionId>, black: bool): nat {
    TotalSize(rs, OfColour(rs, ids, black))
  }

  /** Counting one more region adds its size to the total of its colour and nothing to the other. */
  lemma ColourSizeStep(rs: map<RegionId, Region>, ids: set<RegionId>, id: RegionId, black: bool)
    requires id in rs && id !in ids
    ensures ColourSize(rs, ids + {id}, black)
         == ColourSize(rs, ids, black) + (if rs[id].IsBlack() == black then rs[id].Size() else 0)
  {
    var more := OfColour(rs, ids + {id}, black);
    if rs[id].IsBlack() == black {
      TotalSizeRemove(rs, more, id);
      assert more - {id} == OfColour(rs, ids, black);
    } else {
      assert more == OfColour(rs, ids, black);
    }
  }

  /** Every cell the cache records is still unknown. */
  ghost predicate CacheUnknown(cells: map<Coord, State>, cache: map<RegionId, set<Coord>>) {
    forall id, c :: id in cache && c in cache[id] ==> c in cells && cells[c] == Unknown
  }

  /** confined's changes to the cache record only unknown cells. */
  lemma CacheGrowsUnknown(cells: map<Coord, State>, cache: map<RegionId, set<Coord>>, cache': map<RegionId, set<Coord>>,
                          id: RegionId, verboten: set<Coord>, taken: set<Coord>)
    requires CacheGrows(cells, cache, cache', id, verboten, taken) && CacheUnknown(cells, cache)
    ensures CacheUnknown(cells, cache')
  {
    forall i, c | i in cache' && c in cache'[i] ensures c in cells && cells[c] == Unknown {
      if i != id {
        assert i in cache' - {id};
      }
    }
  }

  /** Growth composes: two boards that each only fill in unknown cells fill them in together. */
  lemma GrowsTrans(a: map<Coord, State>, b: map<Coord, State>, c: map<Coord, State>, allowed: set<State>)
    requires Grows(a, b, allowed) && Grows(b, c, allowed)
    ensures Grows(a, c, allowed)
  {
  }

  /** Processing nothing leaves the board as it was. */
  lemma MarkedNothing(cells: map<Coord, State>)
    ensures Marked(cells, {}, {}) == cells
  {
    assert MarkSet(cells, {}, Black) == cells;
    assert MarkSet(cells, {}, White) == cells;
  }

  class Grid {
    const width: int
    const height: int
    /** The number of black cells in the solution: width * height minus the sum of the clues. */
    const totalBlack: int
    /** m_cells[x][y].first */
    var cells: map<Coord, State>
    /** m_cells[x][y].second; a cell without an entry has no region. */
    var owner: map<Coord, RegionId>
    /** m_regions, as an arena of regions named by id. */
    var regions: map<RegionId, Region>
    /** The id the next region gets. */
    var nextId: RegionId
    /** KEEP_GOING until a contradiction is met, then CONTRADICTION_FOUND. */
    var sitrep: SitRep
    /** The outputs the pseudo-random generator has still to produce. */
    var prng: seq<nat>

    predicate InBounds(c: Coord) {
      InGrid(width, height, c)
    }

    ghost predicate Shape()
      reads this
    {
      && 1 <= width && 1 <= height
      && (forall c :: c in cells <==> InBounds(c))
      && (sitrep == KeepGoing || sitrep == ContradictionFound)
    }

    /**
     * The grid's invariant: the board has its shape, and the regions partition
     * the known cells consistently (see Consistent).
     */
    ghost predicate Valid()
      reads this
    {
      Shape() && Consistent(cells, owner, regions, nextId)
    }

    /** The cells that are no longer unknown. */
    ghost function KnownSet(): set<Coord>
      reads this
    {
      KnownCells(cells)
    }

    /** region(x, y), as an optional id. */
    function OwnerOf(c: Coord): (r: Option<RegionId>)
      reads this
      ensures r.Some? <==> c in owner
      ensures r.Some? ==> r.value == owner[c]
    {
      if c in owner then Some(owner[c]) else None
    }

    /** The unknown neighbours of c (insert_valid_unknown_neighbors). */
    function UnknownNeighbors(c: Coord): (us: set<Coord>)
      requires InBounds(c)
      reads this
      ensures forall u :: u in us <==> u in Neighbors(width, height, c) && u in cells && cells[u] == Unknown
    {
      set u | u in Neighbors(width, height, c) && u in cells && cells[u] == Unknown
    }

    /**
     * Grid(width, height, s) on a description the corrected check accepts, given as its tokens:
     * every clue cell becomes a numbered region of its own, every other cell is
     * unknown, and the number of black cells of the solution is the area minus
     * the sum of the clues.
     */
    constructor (width: int, height: int, tokens: seq<nat>, prng: seq<nat>)
      requires CheckInputCorrected(width, height, tokens).None?
      ensures Valid()
      ensures this.width == width && this.height == height && this.prng == prng && sitrep == KeepGoing
      ensures totalBlack == width * height - ClueSum(tokens)
      ensures forall c :: c in cells ==>
        cells[c] == (if TokenAt(tokens, width, height, c) > 0 then Numbered(TokenAt(tokens, width, height, c)) else Unknown)
      ensures forall c :: c in owner ==> InBounds(c) && regions[owner[c]] == Region(cells[c], {c}, UnknownNeighbors(c))
    {
      var cs, own, rs, next, black := LoadBoard(tokens, width, height);
      this.width, this.height, totalBlack := width, height, black;
      cells, owner, regions, nextId := cs, own, rs, next;
      sitrep, this.prng := KeepGoing, prng;
      new;
      assert Valid();
      forall c | c in owner ensures InBounds(c) && regions[owner[c]] == Region(cells[c], {c}, UnknownNeighbors(c)) {
        NeighborsUnknown(c);
      }
    }

    /** A cell whose liberties are all its neighbours has only unknown neighbours. */
    lemma NeighborsUnknown(c: Coord)
      requires Valid() && c in owner && InBounds(c) && regions[owner[c]].unknowns == Neighbors(width, height, c)
      ensures UnknownNeighbors(c) == Neighbors(width, height, c)
    {
      forall u | u in Neighbors(width, height, c) ensures u in cells && cells[u] == Unknown {
        assert u in regions[owner[c]].unknowns;
      }
    }

    /**
     * add_region: give the newly known cell c a region of its own, holding c and
     * its unknown neighbours as liberties.
     */
    method AddRegion(c: Coord)
      requires Shape() && InBounds(c) && cells[c] != Unknown && c !in owner
      requires OwnedIffKnown(cells, owner[c := nextId])
      requires OwnerSound(owner, regions) && MembersOwned(owner, regions) && IdsFresh(regions, nextId)
      requires LibertiesUnknown(cells, regions) && Frontier(cells, regions) && ColoursAgree(cells, owner, regions)
      modifies this`owner, this`regions, this`nextId
      ensures Valid()
      ensures owner == old(owner)[c := old(nextId)]
      ensures regions == old(regions)[old(nextId) := Region(cells[c], {c}, UnknownNeighbors(c))]
      ensures nextId == old(nextId) + 1
    {
      var r := Region(cells[c], {c}, UnknownNeighbors(c));
      NewRegionKeeps(cells, owner, regions, nextId, c, r);
      var id := nextId;
      nextId := nextId + 1;
      owner := owner[c := id];
      regions := regions[id := r];
    }

    /** Remove the newly known cell c from every region's liberties (unk_erase on each region). */
    method EraseLiberty(c: Coord)
      requires Shape() && InBounds(c) && cells[c] != Unknown
      requires forall id, u :: id in regions && u in regions[id].unknowns && u != c ==> u in cells && cells[u] == Unknown
      requires MembersOwned(owner, regions) && OwnerSound(owner, regions)
      requires IdsFresh(regions, nextId) && ColoursAgree(cells, owner, regions) && Frontier(cells, regions)
      modifies this`regions
      ensures regions.Keys == old(regions).Keys
      ensures regions == Erased(old(regions), c)
      ensures LibertiesUnknown(cells, regions) && MembersOwned(owner, regions) && OwnerSound(owner, regions)
      ensures IdsFresh(regions, nextId) && ColoursAgree(cells, owner, regions) && Frontier(cells, regions)
    {
      var rs, todo := regions, regions.Keys;
      while todo != {}
        invariant todo <= rs.Keys && rs.Keys == regions.Keys
        invariant forall id :: id in rs && id !in todo ==> rs[id] == regions[id].(unknowns := regions[id].unknowns - {c})
        invariant forall id :: id in todo ==> rs[id] == regions[id]
        decreases todo
      {
        var id :| id in todo;
        rs := rs[id := rs[id].(unknowns := rs[id].unknowns - {c})];
        todo := todo - {id};
      }
      ErasedKeeps(cells, owner, regions, rs, c, nextId);
      regions := rs;
    }

    /**
     * mark: turn the unknown cell c white or black. Marking a known cell is a
     * contradiction that changes nothing but sitrep. Otherwise c takes colour s,
     * leaves every region's liberties, gets a region of its own and is fused
     * with the regions of its neighbours.
     */
    method Mark(s: State, c: Coord)
      requires Valid() && InBounds(c) && (s == White || s == Black)
      modifies this`cells, this`owner, this`regions, this`nextId, this`sitrep
      ensures Valid()
      ensures prng == old(prng)
      ensures old(cells[c]) != Unknown ==>
        cells == old(cells) && owner == old(owner) && regions == old(regions) && sitrep == ContradictionFound
      ensures old(cells[c]) == Unknown ==> cells == old(cells)[c := s]
      ensures sitrep == old(sitrep) || sitrep == ContradictionFound
      ensures forall id :: id in regions ==> c !in regions[id].unknowns
      ensures old(cells[c]) == Unknown ==> forall id :: id in regions && c !in regions[id].coords ==>
        id in old(regions) && regions[id] == old(regions)[id].(unknowns := old(regions)[id].unknowns - {c})
      ensures old(cells[c]) == Unknown ==> GrownFrom(regions, owner, c, Neighbors(width, height, c), old(owner))
      ensures old(cells[c]) == Unknown ==> forall n :: n in Neighbors(width, height, c) ==> Joined(regions, owner, sitrep, c, n)
    {
      if cells[c] != Unknown {
        sitrep := ContradictionFound;
        return;
      }
      MarkUnknown(s, c);
    }

    /** mark on an unknown cell: c takes colour s and is no region's liberty any more. */
    method MarkUnknown(s: State, c: Coord)
      requires Valid() && InBounds(c) && (s == White || s == Black) && cells[c] == Unknown
      modifies this`cells, this`owner, this`regions, this`nextId, this`sitrep
      ensures Valid()
      ensures cells == old(cells)[c := s]
      ensures sitrep == old(sitrep) || sitrep == ContradictionFound
      ensures forall id :: id in regions ==> c !in regions[id].unknowns
      ensures forall id :: id in regions && c !in regions[id].coords ==>
        id in old(regions) && regions[id] == old(regions)[id].(unknowns := old(regions)[id].unknowns - {c})
      ensures GrownFrom(regions, owner, c, Neighbors(width, height, c), old(owner))
      ensures forall n :: n in Neighbors(width, height, c) ==> Joined(regions, owner, sitrep, c, n)
    {
      Place(s, c);
      ghost var re, oe := regions, owner;
      FuseNeighbors(c);
      KnownNotLiberty(c);
      GrownFromElsewhere(regions, owner, c, Neighbors(width, height, c), old(owner), oe[c]);
      UntouchedSincePlaced(regions, c, re, old(regions), old(nextId), re[old(nextId)]);
    }

    /**
     * The first half of mark on an unknown cell: c takes colour s, leaves every
     * region's liberties and gets a fresh region of its own.
     */
    method Place(s: State, c: Coord)
      requires Valid() && InBounds(c) && (s == White || s == Black) && cells[c] == Unknown
      modifies this`cells, this`owner, this`regions, this`nextId
      ensures Valid() && c in owner && regions[owner[c]].coords == {c}
      ensures cells == old(cells)[c := s]
      ensures owner == old(owner)[c := old(nextId)] && nextId == old(nextId) + 1 && old(nextId) !in old(regions)
      ensures regions == Erased(old(regions), c)[old(nextId) := Region(s, {c}, UnknownNeighbors(c))]
    {
      SetCellKeeps(cells, owner, regions, nextId, c, s);
      cells := cells[c := s];
      EraseLiberty(c);
      AddRegion(c);
    }

    /** In a valid grid a known cell is no region's liberty. */
    lemma KnownNotLiberty(c: Coord)
      requires Valid() && InBounds(c) && cells[c] != Unknown
      ensures forall id :: id in regions ==> c !in regions[id].unknowns
    {
    }

    /**
     * mark's walk over the valid neighbours of c, whose region is c alone: fuse
     * c's region with each neighbour's, in the order left, right, up, down.
     * Afterwards every region without c is one from before, c's region is made
     * of c and the regions of neighbours, and each known neighbour whose region
     * has the blackness of c's shares it, unless both are numbered (a
     * contradiction).
     */
    method FuseNeighbors(c: Coord)
      requires Valid() && InBounds(c) && c in owner && regions[owner[c]].coords == {c}
      modifies this`regions, this`owner, this`sitrep
      ensures Valid()
      ensures sitrep == old(sitrep) || sitrep == ContradictionFound
      ensures Untouched(regions, c, old(regions))
      ensures GrownFrom(regions, owner, c, Neighbors(width, height, c), old(owner))
      ensures forall n :: n in Neighbors(width, height, c) ==> Joined(regions, owner, sitrep, c, n)
    {
      var order := NeighborOrder(width, height, c);
      FuseAlong(c, order, Neighbors(width, height, c), regions, owner);
    }

    /**
     * The loop of mark's neighbour walk: fuse c's region with the region of each
     * cell of order in turn, each of them one of the cells ns.
     */
    method FuseAlong(c: Coord, order: seq<Coord>, ghost ns: set<Coord>, ghost re: map<RegionId, Region>, ghost oe: map<Coord, RegionId>)
      requires Valid() && c in owner && MembersOwned(oe, re)
      requires forall j :: 0 <= j < |order| ==> order[j] in ns && order[j] != c
      requires Untouched(regions, c, re) && GrownFrom(regions, owner, c, ns, oe)
      modifies this`regions, this`owner, this`sitrep
      ensures Valid()
      ensures sitrep == old(sitrep) || sitrep == ContradictionFound
      ensures Untouched(regions, c, re) && GrownFrom(regions, owner, c, ns, oe)
      ensures forall j :: 0 <= j < |order| ==> Joined(regions, owner, sitrep, c, order[j])
    {
      var i := 0;
      while i < |order|
        invariant 0 <= i <= |order|
        invariant Valid() && c in owner
        invariant sitrep == old(sitrep) || sitrep == ContradictionFound
        invariant Untouched(regions, c, re) && GrownFrom(regions, owner, c, ns, oe)
        invariant forall j :: 0 <= j < i ==> Joined(regions, owner, sitrep, c, order[j])
      {
        FuseWithNeighbor(c, order, i, ns, re, oe);
        i := i + 1;
      }
    }

    /**
     * One step of mark's neighbour walk: fuse the region of c with that of its
     * neighbour n = order[i], keeping what the walk has established since the regions were
     * re and the pointers oe, and joining n to c's region where fuse_regions does.
     */
    method FuseWithNeighbor(c: Coord, order: seq<Coord>, i: nat, ghost ns: set<Coord>, ghost re: map<RegionId, Region>,
                            ghost oe: map<Coord, RegionId>)
      requires Valid() && c in owner && i < |order| && order[i] in ns && order[i] != c && MembersOwned(oe, re)
      requires Untouched(regions, c, re) && GrownFrom(regions, owner, c, ns, oe)
      requires forall j :: 0 <= j < i ==> Joined(regions, owner, sitrep, c, order[j])
      modifies this`regions, this`owner, this`sitrep
      ensures Valid()
      ensures sitrep == old(sitrep) || sitrep == ContradictionFound
      ensures Untouched(regions, c, re) && GrownFrom(regions, owner, c, ns, oe)
      ensures forall j :: 0 <= j <= i ==> Joined(regions, owner, sitrep, c, order[j])
    {
      FuseRegions(OwnerOf(c), OwnerOf(order[i]));
      FuseStep(old(owner), old(regions), old(sitrep), owner, regions, sitrep, c, order, i, ns, re, oe);
    }

    /**
     * process: mark the cells of b black, then those of w white. Returns whether
     * there was anything to mark. Marking a cell that is already known, by an
     * earlier step or by this call, is a contradiction; fusing two numbered
     * regions may be one too.
     */
    method Process(b: set<Coord>, w: set<Coord>) returns (r: bool)
      requires Valid()
      requires forall c :: c in b || c in w ==> InBounds(c)
      modifies this
      ensures Valid()
      ensures r <==> b != {} || w != {}
      ensures cells == Marked(old(cells), b, w)
      ensures KnownSet() == old(KnownSet()) + b + w
      ensures Clashes(old(cells), b, w) ==> sitrep == ContradictionFound
      ensures sitrep == old(sitrep) || sitrep == ContradictionFound
      ensures r && sitrep == KeepGoing ==> old(KnownSet()) < KnownSet()
      ensures !r ==> owner == old(owner) && regions == old(regions) && nextId == old(nextId) && sitrep == old(sitrep)
      ensures prng == old(prng)
    {
      if b == {} && w == {} {
        assert Marked(old(cells), b, w) == cells;
        return false;
      }
      MarkAll(Black, b);
      MarkAll(White, w);
      if sitrep == KeepGoing {
        ClashFreeProgress(old(cells), b, w);
      }
      return true;
    }

    /** One of process's loops: mark every cell of m with s. */
    method MarkAll(s: State, m: set<Coord>)
      requires Valid() && (s == Black || s == White)
      requires forall c :: c in m ==> InBounds(c)
      modifies this`cells, this`owner, this`regions, this`nextId, this`sitrep
      ensures Valid()
      ensures cells == MarkSet(old(cells), m, s)
      ensures KnownSet() == old(KnownSet()) + m
      ensures HitsKnown(old(cells), m) ==> sitrep == ContradictionFound
      ensures sitrep == old(sitrep) || sitrep == ContradictionFound
      ensures prng == old(prng)
    {
      var todo := m;
      ghost var done: set<Coord> := {};
      while todo != {}
        invariant Valid() && done !! todo && done + todo == m
        invariant cells == MarkSet(old(cells), done, s)
        invariant HitsKnown(old(cells), done) ==> sitrep == ContradictionFound
        invariant sitrep == old(sitrep) || sitrep == ContradictionFound
        decreases todo
      {
        var c :| c in todo;
        MarkNext(s, c, old(cells), done);
        HitsKnownStep(old(cells), done, c);
        todo, done := todo - {c}, done + {c};
      }
      assert done == m;
      MarkSetKnown(old(cells), m, s);
    }

    /**
     * known: the number of cells that are no longer unknown. It equals the area
     * exactly when no cell is unknown.
     */
    method Known() returns (k: int)
      requires Shape()
      ensures k == |KnownSet()|
      ensures k == width * height <==> forall c :: c in cells ==> cells[c] != Unknown
    {
      k := 0;
      var u := 0;
      var x := 0;
      while x < width
        invariant 0 <= x <= width
        invariant k == |CountedCells(cells, true, x, 0)| && u == |CountedCells(cells, false, x, 0)|
        invariant k + u == x * height
      {
        var kc, uc := CountColumn(x);
        k, u := k + kc, u + uc;
        x := x + 1;
      }
      assert CountedCells(cells, true, width, 0) == KnownSet();
      if k == width * height {
        forall c | c in cells ensures cells[c] != Unknown {
          assert c !in CountedCells(cells, false, width, 0);
        }
      } else {
        ghost var c :| c in CountedCells(cells, false, width, 0);
      }
    }

    /** known's inner loop over column x: how many of its cells are known and how many unknown. */
    method CountColumn(x: int) returns (kc: int, uc: int)
      requires Shape() && 0 <= x < width
      ensures |CountedCells(cells, true, x + 1, 0)| == |CountedCells(cells, true, x, 0)| + kc
      ensures |CountedCells(cells, false, x + 1, 0)| == |CountedCells(cells, false, x, 0)| + uc
      ensures kc + uc == height
    {
      kc, uc := 0, 0;
      var y := 0;
      while y < height
        invariant 0 <= y <= height
        invariant |CountedCells(cells, true, x, y)| == |CountedCells(cells, true, x, 0)| + kc
        invariant |CountedCells(cells, false, x, y)| == |CountedCells(cells, false, x, 0)| + uc
        invariant kc + uc == y
      {
        var c := Coord(x, y);
        CountedStep(cells, x, y, true);
        CountedStep(cells, x, y, false);
        if cells[c] != Unknown {
          kc := kc + 1;
        } else {
          uc := uc + 1;
        }
        y := y + 1;
      }
      assert CountedCells(cells, true, x, height) == CountedCells(cells, true, x + 1, 0);
      assert CountedCells(cells, false, x, height) == CountedCells(cells, false, x + 1, 0);
    }

    /**
     * impossibly_big_white_region: a white region of n cells could join no
     * island, because every island has room for at most n more cells and
     * joining needs one more for the bridge.
     */
    function ImpossiblyBig(n: int): (r: bool)
      reads this
      ensures r <==> forall id :: id in regions && regions[id].IsNumbered() ==> regions[id].Number() - regions[id].Size() <= n
    {
      forall id :: id in regions ==> !(regions[id].IsNumbered() && regions[id].Size() + n + 1 <= regions[id].Number())
    }

    /** The white (white true) or numbered (white false) regions of the valid neighbours of c. */
    function RegionsAround(c: Coord, white: bool): (ids: set<RegionId>)
      requires InBounds(c)
      reads this
      ensures ids <= regions.Keys
      ensures forall id :: id in ids ==> if white then regions[id].IsWhite() else regions[id].IsNumbered()
    {
      set n | n in Neighbors(width, height, c) && n in owner && owner[n] in regions
                && (if white then regions[owner[n]].IsWhite() else regions[owner[n]].IsNumbered()) :: owner[n]
    }

    /** Every white (white true) or numbered (white false) region of a valid neighbour of c is among RegionsAround(c, white). */
    lemma RegionsAroundHas(c: Coord, white: bool)
      requires InBounds(c)
      ensures forall n ::
        (InBounds(n) && Adjacent(c, n) && n in owner && owner[n] in regions
         && (if white then regions[owner[n]].IsWhite() else regions[owner[n]].IsNumbered()))
        ==> owner[n] in RegionsAround(c, white)
    {
      forall n | InBounds(n) && Adjacent(c, n) && n in owner && owner[n] in regions
        && (if white then regions[owner[n]].IsWhite() else regions[owner[n]].IsNumbered())
        ensures owner[n] in RegionsAround(c, white)
      {
        assert n in Neighbors(width, height, c);
      }
    }

    /**
     * Whether a chain of white cells n long ending at c could be joined to a
     * region: to exactly one neighbouring island without exceeding its number,
     * or, with no island around, to neighbouring white regions that would not
     * become impossibly big.
     */
    ghost predicate Connects(c: Coord, n: int)
      requires InBounds(c)
      reads this
    {
      var ws, ns := RegionsAround(c, true), RegionsAround(c, false);
      var size := TotalSize(regions, ws) + TotalSize(regions, ns);
      || (exists id :: ns == {id} && id in regions && regions[id].IsNumbered() && n + size <= regions[id].Number())
      || (ns == {} && ws != {} && !ImpossiblyBig(n + size))
    }

    /** The body of unreachable's loop for the dequeued cell c with path length n. */
    method Probe(c: Coord, n: int) returns (v: ProbeVerdict)
      requires InBounds(c)
      ensures v == Connect <==> Connects(c, n)
      ensures v == Expand <==> RegionsAround(c, true) == {} && RegionsAround(c, false) == {}
    {
      var ws, ns := RegionsAround(c, true), RegionsAround(c, false);
      var whiteSize := SumSizes(regions, ws);
      var numberedSize := SumSizes(regions, ns);
      var size := whiteSize + numberedSize;
      if |ns| > 1 {
        assert forall id :: ns != {id};
        return Skip;
      }
      if |ns| == 1 {
        var id :| id in ns;
        assert ns == {id} by {
          assert |ns - {id}| == 0;
        }
        if n + size <= regions[id].Number() {
          return Connect;
        }
        return Skip;
      }
      if ws != {} {
        if ImpossiblyBig(n + size) {
          return Skip;
        }
        return Connect;
      }
      return Expand;
    }

    /**
     * What unreachable's expansion of one cell has enqueued: distinct unknown
     * cells, none found before (base), each at path length n.
     */
    ghost predicate FreshSteps(pushed: seq<Step>, base: set<Coord>, n: int)
      reads this
    {
      && (forall i :: 0 <= i < |pushed| ==>
            InBounds(pushed[i].c) && pushed[i].c in cells && cells[pushed[i].c] == Unknown && pushed[i].c !in base && pushed[i].n == n)
      && (forall i, j :: 0 <= i < j < |pushed| ==> pushed[i].c != pushed[j].c)
    }

    /** One of for_valid_neighbors's calls in unreachable: enqueue nb if it is unknown and undiscovered. */
    method Discover(nb: Coord, n: int, pushed: seq<Step>, found: set<Coord>, ghost base: set<Coord>, ghost from: Coord)
      returns (pushed': seq<Step>, found': set<Coord>)
      requires Shape() && InBounds(nb) && Adjacent(from, nb)
      requires found == base + StepCells(pushed) && FreshSteps(pushed, base, n)
      requires forall i :: 0 <= i < |pushed| ==> Adjacent(from, pushed[i].c)
      ensures found' == base + StepCells(pushed') && FreshSteps(pushed', base, n)
      ensures forall i :: 0 <= i < |pushed'| ==> Adjacent(from, pushed'[i].c)
      ensures found <= found' && (cells[nb] == Unknown ==> nb in found')
    {
      pushed', found' := pushed, found;
      if cells[nb] == Unknown && nb !in found {
        pushed', found' := pushed + [Step(nb, n)], found + {nb};
        StepCellsSnoc(pushed, Step(nb, n));
        forall i | 0 <= i < |pushed| ensures pushed[i].c != nb {
          assert pushed[i].c in StepCells(pushed);
        }
      }
    }

    /**
     * unreachable's expansion of cur: the unknown, undiscovered valid neighbours
     * of cur, in the order left, right, up, down, each one step further away.
     */
    method ExpandFrom(cur: Step, found: set<Coord>) returns (pushed: seq<Step>, found': set<Coord>)
      requires Shape() && InBounds(cur.c)
      ensures found' == found + StepCells(pushed) && FreshSteps(pushed, found, cur.n + 1)
      ensures forall i :: 0 <= i < |pushed| ==> Adjacent(cur.c, pushed[i].c)
      ensures NeighboursFound(cur.c, found')
    {
      var c, n := cur.c, cur.n + 1;
      var left, right, up, down := Coord(c.x - 1, c.y), Coord(c.x + 1, c.y), Coord(c.x, c.y - 1), Coord(c.x, c.y + 1);
      pushed, found' := [], found;
      assert StepCells([]) == {};
      if c.x > 0 {
        pushed, found' := Discover(left, n, pushed, found', found, c);
      }
      ghost var f1 := found';
      if c.x + 1 < width {
        pushed, found' := Discover(right, n, pushed, found', found, c);
      }
      ghost var f2 := found';
      if c.y > 0 {
        pushed, found' := Discover(up, n, pushed, found', found, c);
      }
      ghost var f3 := found';
      if c.y + 1 < height {
        pushed, found' := Discover(down, n, pushed, found', found, c);
      }
      assert f1 <= f2 <= f3 <= found';
      FourFound(c, found');
    }

    /** Each of c's four neighbours that is an unknown cell is in found: then all are. */
    lemma FourFound(c: Coord, found: set<Coord>)
      requires Shape() && InBounds(c)
      requires c.x > 0 && cells[Coord(c.x - 1, c.y)] == Unknown ==> Coord(c.x - 1, c.y) in found
      requires c.x + 1 < width && cells[Coord(c.x + 1, c.y)] == Unknown ==> Coord(c.x + 1, c.y) in found
      requires c.y > 0 && cells[Coord(c.x, c.y - 1)] == Unknown ==> Coord(c.x, c.y - 1) in found
      requires c.y + 1 < height && cells[Coord(c.x, c.y + 1)] == Unknown ==> Coord(c.x, c.y + 1) in found
      ensures NeighboursFound(c, found)
    {
      forall nb | InBounds(nb) && Adjacent(c, nb) && cells[nb] == Unknown ensures nb in found {
        AdjacentCases(c, nb);
      }
    }

    /** Whether unreachable's search goes on from c: no white or numbered region touches it. */
    ghost predicate Expands(c: Coord)
      requires InBounds(c)
      reads this
    {
      RegionsAround(c, true) == {} && RegionsAround(c, false) == {}
    }

    /**
     * unreachable: a breadth-first search from root over unknown cells,
     * imagining them white, that never steps on a cell of discovered. The root
     * is unreachable when it is unknown and no cell the search reaches could
     * join a region (Connects). The search reaches the root first, then only
     * distinct unknown cells outside discovered, and it is closed: every unknown
     * neighbour of a cell it expanded is reached or in discovered.
     */
    method Unreachable(root: Coord, discovered: set<Coord>) returns (r: bool, ghost reached: seq<Step>)
      requires Shape() && InBounds(root)
      ensures cells[root] != Unknown ==> !r && reached == []
      ensures cells[root] == Unknown ==> |reached| >= 1 && reached[0] == Step(root, 1)
      ensures forall i :: 0 <= i < |reached| ==> InBounds(reached[i].c) && cells[reached[i].c] == Unknown
      ensures forall i :: 1 <= i < |reached| ==> reached[i].c !in discovered
      ensures forall i, j :: 0 <= i < j < |reached| ==> reached[i].c != reached[j].c
      ensures r <==> cells[root] == Unknown && forall i :: 0 <= i < |reached| ==> !Connects(reached[i].c, reached[i].n)
      ensures r ==> forall i :: 0 <= i < |reached| && Expands(reached[i].c) ==> NeighboursFound(reached[i].c, discovered + StepCells(reached))
      ensures forall i :: 1 <= i < |reached| ==> HasParent(reached, i, i)
    {
      reached := [];
      if cells[root] != Unknown {
        return false, [];
      }
      var q := [Step(root, 1)];
      var found := discovered + {root};
      reached := q;
      assert StepCells(reached) == {root} by {
        assert reached[0].c == root;
      }
      assert Searching(root, discovered, 0, reached, found);
      var connect;
      ghost var done;
      connect, done, reached, found := Drain(root, discovered, q, reached, found);
      SearchEnds(root, discovered, done, reached, found);
      r := !connect;
    }

    /**
     * unreachable's loop: visit the queued cells in turn until one connects
     * (it is then the done-th reached) or the queue runs out (all are done).
     */
    method Drain(root: Coord, discovered: set<Coord>, q: seq<Step>, ghost reached: seq<Step>, found: set<Coord>)
      returns (connect: bool, ghost done: nat, ghost reached': seq<Step>, found': set<Coord>)
      requires Shape() && Searching(root, discovered, 0, reached, found) && q == reached
      ensures Searching(root, discovered, done, reached', found')
      ensures connect ==> done < |reached'| && Connects(reached'[done].c, reached'[done].n)
      ensures !connect ==> done == |reached'|
    {
      var queue := q;
      done, reached', found' := 0, reached, found;
      while queue != []
        invariant Searching(root, discovered, done, reached', found') && queue == reached'[done..]
        decreases |cells.Keys - found'|, |queue|
      {
        connect, queue, reached', found' := Visit(root, discovered, done, queue, reached', found');
        if connect {
          return;
        }
        done := done + 1;
      }
      connect := false;
    }

    /**
     * One turn of unreachable's loop: dequeue the next cell; report whether it
     * connects, else enqueue its expansion if it has no white or numbered neighbour.
     */
    method Visit(root: Coord, discovered: set<Coord>, ghost done: nat, q: seq<Step>, ghost reached: seq<Step>, found: set<Coord>)
      returns (connect: bool, q': seq<Step>, ghost reached': seq<Step>, found': set<Coord>)
      requires Shape() && Searching(root, discovered, done, reached, found) && q == reached[done..] && q != []
      ensures connect ==> done < |reached| && reached' == reached && found' == found && Connects(reached[done].c, reached[done].n)
      ensures !connect ==> Searching(root, discovered, done + 1, reached', found') && q' == reached'[done + 1..]
      ensures found <= found' <= cells.Keys + found
      ensures |cells.Keys - found'| < |cells.Keys - found| || (found' == found && |q'| < |q|)
    {
      var cur := q[0];
      assert cur == reached[done];
      q', reached', found' := q[1..], reached, found;
      var v := Probe(cur.c, cur.n);
      if v == Connect {
        return true, q', reached', found';
      }
      connect := false;
      if v == Expand {
        q', reached', found' := Enqueue(root, discovered, done + 1, cur, q', reached, found);
      } else {
        SkipKeepsSearching(root, discovered, done, reached, found);
      }
    }

    /** unreachable's expansion of the dequeued cell cur, the done-th reached, which does not connect. */
    method Enqueue(root: Coord, discovered: set<Coord>, ghost done: nat, cur: Step, q: seq<Step>, ghost reached: seq<Step>, found: set<Coord>)
      returns (q': seq<Step>, ghost reached': seq<Step>, found': set<Coord>)
      requires Shape() && 1 <= done <= |reached| && Searching(root, discovered, done - 1, reached, found)
      requires cur == reached[done - 1] && !Connects(cur.c, cur.n) && Expands(cur.c) && q == reached[done..]
      ensures Searching(root, discovered, done, reached', found') && q' == reached'[done..]
      ensures found <= found' <= cells.Keys + found
      ensures |cells.Keys - found'| < |cells.Keys - found| || (found' == found && q' == q)
    {
      var pushed;
      pushed, found' := ExpandFrom(cur, found);
      PushedFewer(found, pushed, found', cur.n + 1);
      ExpandKeepsSearching(root, discovered, done, reached, found, pushed, found');
      TailAppend(reached, pushed, done);
      q', reached' := q + pushed, reached + pushed;
    }

    /** Pushing steps to fresh unknown cells finds more of the board, unless nothing is pushed. */
    lemma PushedFewer(found: set<Coord>, pushed: seq<Step>, found': set<Coord>, n: int)
      requires found' == found + StepCells(pushed) && FreshSteps(pushed, found, n)
      ensures found <= found' <= cells.Keys + found
      ensures pushed == [] ==> found' == found
      ensures pushed != [] ==> |cells.Keys - found'| < |cells.Keys - found|
    {
      if pushed != [] {
        assert pushed[0].c in StepCells(pushed);
        FewerLeft(cells.Keys, found, StepCells(pushed));
      } else {
        assert StepCells(pushed) == {};
      }
    }

    /** Every unknown valid neighbour of c is in found. */
    ghost predicate NeighboursFound(c: Coord, found: set<Coord>)
      requires Shape()
      reads this
    {
      forall nb :: InBounds(nb) && Adjacent(c, nb) && cells[nb] == Unknown ==> nb in found
    }

    /** The cells of the search: distinct unknown cells, the root first, the others outside discovered. */
    ghost predicate SearchCells(root: Coord, discovered: set<Coord>, reached: seq<Step>)
      requires Shape()
      reads this
    {
      && |reached| >= 1 && reached[0] == Step(root, 1)
      && (forall i :: 0 <= i < |reached| ==> InBounds(reached[i].c) && cells[reached[i].c] == Unknown)
      && (forall i :: 1 <= i < |reached| ==> reached[i].c !in discovered)
      && (forall i, j :: 0 <= i < j < |reached| ==> reached[i].c != reached[j].c)
    }

    /**
     * unreachable's loop invariant: the first done steps of reached have been
     * dequeued, the rest wait in the queue; found is discovered plus the
     * reached cells; no dequeued cell connects, and every expanded one has
     * its unknown neighbours found.
     */
    ghost predicate Searching(root: Coord, discovered: set<Coord>, done: nat, reached: seq<Step>, found: set<Coord>)
      requires Shape()
      reads this
    {
      && SearchCells(root, discovered, reached) && done <= |reached|
      && found == discovered + StepCells(reached)
      && (forall i :: 0 <= i < done ==> !Connects(reached[i].c, reached[i].n))
      && (forall i :: 0 <= i < done && Expands(reached[i].c) ==> NeighboursFound(reached[i].c, found))
      && (forall i :: 1 <= i < |reached| ==> HasParent(reached, i, done))
    }

    /**
     * reached[i] was enqueued by the expansion of an earlier cell, dequeued
     * before done: a neighbour of it, one step nearer to the root. With done
     * equal to i this says only that the parent comes earlier in the search.
     */
    ghost predicate HasParent(reached: seq<Step>, i: int, done: nat)
      requires Shape() && 0 <= i < |reached|
      reads this
    {
      exists j :: 0 <= j < i && j < done && ParentOf(reached[j], reached[i])
    }

    /** s is one step further than p, on a square next to p that p expands. */
    ghost predicate ParentOf(p: Step, s: Step)
      requires Shape()
      reads this
    {
      InBounds(p.c) && Expands(p.c) && Adjacent(p.c, s.c) && s.n == p.n + 1
    }

    lemma NeighboursFoundGrows(c: Coord, found: set<Coord>, found': set<Coord>)
      requires Shape() && NeighboursFound(c, found) && found <= found'
      ensures NeighboursFound(c, found')
    {
    }

    /** Appending fresh steps keeps the search's cells distinct, unknown and outside discovered. */
    lemma AppendKeepsCells(root: Coord, discovered: set<Coord>, reached: seq<Step>, pushed: seq<Step>, n: int)
      requires Shape() && SearchCells(root, discovered, reached)
      requires FreshSteps(pushed, discovered + StepCells(reached), n)
      ensures SearchCells(root, discovered, reached + pushed)
    {
      var r' := reached + pushed;
      forall i | 0 <= i < |r'| ensures InBounds(r'[i].c) && cells[r'[i].c] == Unknown {
        if i >= |reached| {
          assert r'[i] == pushed[i - |reached|];
        }
      }
      forall i | 1 <= i < |r'| ensures r'[i].c !in discovered {
        if i >= |reached| {
          assert r'[i] == pushed[i - |reached|];
        }
      }
      forall i, j | 0 <= i < j < |r'| ensures r'[i].c != r'[j].c {
        if j >= |reached| {
          assert r'[j] == pushed[j - |reached|];
          if i >= |reached| {
            assert r'[i] == pushed[i - |reached|];
          } else {
            assert r'[i].c in StepCells(reached);
          }
        }
      }
    }

    /** Dequeueing a cell that neither connects nor expands keeps unreachable's loop invariant. */
    lemma SkipKeepsSearching(root: Coord, discovered: set<Coord>, done: nat, reached: seq<Step>, found: set<Coord>)
      requires Shape() && done < |reached| && Searching(root, discovered, done, reached, found)
      requires !Connects(reached[done].c, reached[done].n) && !Expands(reached[done].c)
      ensures Searching(root, discovered, done + 1, reached, found)
    {
      var later := done + 1;
      forall i | 1 <= i < |reached| ensures HasParent(reached, i, later) {
        assert HasParent(reached, i, done);
      }
    }

    /** Enqueueing the expansion of the last dequeued cell keeps unreachable's loop invariant. */
    lemma ExpandKeepsSearching(root: Coord, discovered: set<Coord>, done: nat, reached: seq<Step>,
                               found: set<Coord>, pushed: seq<Step>, found': set<Coord>)
      requires Shape() && 1 <= done <= |reached|
      requires Searching(root, discovered, done - 1, reached, found)
      requires InBounds(reached[done - 1].c) && !Connects(reached[done - 1].c, reached[done - 1].n) && Expands(reached[done - 1].c)
      requires found' == found + StepCells(pushed) && FreshSteps(pushed, found, reached[done - 1].n + 1)
      requires forall i :: 0 <= i < |pushed| ==> Adjacent(reached[done - 1].c, pushed[i].c)
      requires NeighboursFound(reached[done - 1].c, found')
      ensures Searching(root, discovered, done, reached + pushed, found')
    {
      var r' := reached + pushed;
      StepCellsAppend(reached, pushed);
      AppendKeepsCells(root, discovered, reached, pushed, reached[done - 1].n + 1);
      forall i | 0 <= i < done ensures r'[i] == reached[i] {
      }
      forall i | 0 <= i < done && Expands(r'[i].c) ensures NeighboursFound(r'[i].c, found') {
        if i < done - 1 {
          NeighboursFoundGrows(r'[i].c, found, found');
        }
      }
      ParentsAppend(reached, pushed, done - 1, done);
    }

    /**
     * Appending the expansion of reached[done - 1], cells next to it and one
     * step further, gives each appended cell its parent; the others keep theirs.
     */
    lemma ParentsAppend(reached: seq<Step>, pushed: seq<Step>, prev: nat, done: nat)
      requires Shape() && done == prev + 1 && done <= |reached|
      requires forall i :: 1 <= i < |reached| ==> HasParent(reached, i, prev)
      requires InBounds(reached[prev].c) && Expands(reached[prev].c)
      requires forall i :: 0 <= i < |pushed| ==> Adjacent(reached[prev].c, pushed[i].c) && pushed[i].n == reached[prev].n + 1
      ensures forall i :: 1 <= i < |reached + pushed| ==> HasParent(reached + pushed, i, done)
    {
      forall i | 1 <= i < |reached + pushed| ensures HasParent(reached + pushed, i, done) {
        if i < |reached| {
          ParentKept(reached, pushed, prev, done, i);
        } else {
          ParentPushed(reached, pushed, prev, done, i);
        }
      }
    }

    /** A cell reached before the expansion keeps its parent. */
    lemma ParentKept(reached: seq<Step>, pushed: seq<Step>, prev: nat, done: nat, i: nat)
      requires Shape() && done == prev + 1 && 1 <= i < |reached|
      requires HasParent(reached, i, prev)
      ensures HasParent(reached + pushed, i, done)
    {
      var r' := reached + pushed;
      var j :| 0 <= j < i && j < prev && ParentOf(reached[j], reached[i]);
      assert r'[j] == reached[j] && r'[i] == reached[i];
    }

    /** A cell pushed by the expansion of reached[prev] has it as its parent. */
    lemma ParentPushed(reached: seq<Step>, pushed: seq<Step>, prev: nat, done: nat, i: nat)
      requires Shape() && done == prev + 1 && done <= |reached| <= i < |reached| + |pushed|
      requires InBounds(reached[prev].c) && Expands(reached[prev].c)
      requires forall k :: 0 <= k < |pushed| ==> Adjacent(reached[prev].c, pushed[k].c) && pushed[k].n == reached[prev].n + 1
      ensures HasParent(reached + pushed, i, done)
    {
      var r' := reached + pushed;
      assert r'[i] == pushed[i - |reached|] && r'[prev] == reached[prev];
      assert ParentOf(r'[prev], r'[i]);
    }

    /** What unreachable promises of every search it stops, whatever its outcome. */
    lemma SearchEnds(root: Coord, discovered: set<Coord>, done: nat, reached: seq<Step>, found: set<Coord>)
      requires Shape() && Searching(root, discovered, done, reached, found)
      ensures |reached| >= 1 && reached[0] == Step(root, 1)
      ensures forall i :: 0 <= i < |reached| ==> InBounds(reached[i].c) && cells[reached[i].c] == Unknown
      ensures forall i :: 1 <= i < |reached| ==> reached[i].c !in discovered
      ensures forall i, j :: 0 <= i < j < |reached| ==> reached[i].c != reached[j].c
      ensures forall i :: 1 <= i < |reached| ==> HasParent(reached, i, i)
      ensures done == |reached| ==> forall i :: 0 <= i < |reached| ==> !Connects(reached[i].c, reached[i].n)
      ensures done == |reached| ==> forall i :: 0 <= i < |reached| && Expands(reached[i].c) ==> NeighboursFound(reached[i].c, discovered + StepCells(reached))
    {
      ParentsEarlier(reached, done);
    }

    /** Each reached cell but the root has a parent earlier in the search. */
    lemma ParentsEarlier(reached: seq<Step>, done: nat)
      requires Shape() && forall i :: 1 <= i < |reached| ==> HasParent(reached, i, done)
      ensures forall i :: 1 <= i < |reached| ==> HasParent(reached, i, i)
    {
      forall i | 1 <= i < |reached| ensures HasParent(reached, i, i) {
        assert HasParent(reached, i, done);
      }
    }

    /** analyze_unreachable_cells's loops: every cell that unreachable reports, column by column. */
    method CollectUnreachable() returns (b: set<Coord>)
      requires Valid()
      ensures forall c :: c in b ==> InBounds(c) && cells[c] == Unknown
    {
      b := {};
      var x := 0;
      while x < width
        invariant 0 <= x <= width
        invariant forall c :: c in b ==> InBounds(c) && cells[c] == Unknown
      {
        var y := 0;
        while y < height
          invariant 0 <= y <= height
          invariant forall c :: c in b ==> InBounds(c) && cells[c] == Unknown
        {
          var u;
          ghost var reached;
          u, reached := Unreachable(Coord(x, y), {});
          if u {
            b := b + {Coord(x, y)};
          }
          y := y + 1;
        }
        x := x + 1;
      }
    }

    /** analyze_unreachable_cells: blacken every unknown cell no white chain from it could join to a region. */
    method AnalyzeUnreachableCells() returns (r: bool)
      requires Valid()
      modifies this
      ensures Valid() && prng == old(prng)
      ensures Grows(old(cells), cells, {Black}) && (r <==> cells != old(cells))
      ensures r && sitrep == KeepGoing ==> old(KnownSet()) < KnownSet()
      ensures sitrep == old(sitrep) || sitrep == ContradictionFound
    {
      var b := CollectUnreachable();
      r := Process(b, {});
      MarkedGrows(old(cells), b, {});
      if r {
        var c :| c in b;
        assert cells[c] == Black;
      }
    }

    /** How many cells of the square at (x, y) are in state t. */
    function CountIn(x: int, y: int, t: State): int
      requires Shape() && 0 <= x < width - 1 && 0 <= y < height - 1
      reads this
    {
      var sq := Square(x, y);
      Tally(cells[sq[0]], t) + Tally(cells[sq[1]], t) + Tally(cells[sq[2]], t) + Tally(cells[sq[3]], t)
    }

    /** The first unknown cell of the square at (x, y), in the order of Square. */
    function FirstUnknown(x: int, y: int): (u: Coord)
      requires Shape() && 0 <= x < width - 1 && 0 <= y < height - 1 && CountIn(x, y, Unknown) >= 1
      reads this
      ensures u in Square(x, y) && cells[u] == Unknown
    {
      var sq := Square(x, y);
      if cells[sq[0]] == Unknown then sq[0] else if cells[sq[1]] == Unknown then sq[1]
      else if cells[sq[2]] == Unknown then sq[2] else sq[3]
    }

    /** A lone unknown cell among three black ones is what the counts single out. */
    lemma LoneUnknownCounts(x: int, y: int, c: Coord)
      requires Shape() && 0 <= x < width - 1 && 0 <= y < height - 1 && LoneUnknown(cells, x, y, c)
      ensures CountIn(x, y, Unknown) == 1 && CountIn(x, y, Black) == 3 && FirstUnknown(x, y) == c
    {
      var sq := Square(x, y);
      assert forall i :: 0 <= i < 4 && sq[i] != c ==> cells[sq[i]] == Black;
    }

    /**
     * The body of analyze_potential_pools's loops for the square at (x, y): with
     * one unknown and three black cells, the unknown one must be white; with two
     * unknown and two black cells, an unknown one must be white if imagining it
     * black leaves the other unreachable.
     */
    method PoolSquare(x: int, y: int) returns (w: set<Coord>)
      requires Valid() && 0 <= x < width - 1 && 0 <= y < height - 1
      ensures forall c :: c in w ==> InBounds(c) && cells[c] == Unknown
      ensures forall c :: LoneUnknown(cells, x, y, c) ==> c in w
    {
      w := {};
      var nu, nb := CountIn(x, y, Unknown), CountIn(x, y, Black);
      if nu == 1 && nb == 3 {
        w := {FirstUnknown(x, y)};
      } else if nu == 2 && nb == 2 {
        w := PairSquare(x, y);
      }
      forall c | LoneUnknown(cells, x, y, c) ensures c in w {
        LoneUnknownCounts(x, y, c);
      }
    }

    /** The two-unknown case of PoolSquare: try imagining each unknown cell black in turn. */
    method PairSquare(x: int, y: int) returns (w: set<Coord>)
      requires Valid() && 0 <= x < width - 1 && 0 <= y < height - 1 && CountIn(x, y, Unknown) == 2
      ensures forall c :: c in w ==> InBounds(c) && cells[c] == Unknown
    {
      w := {};
      var sq := Square(x, y);
      var u0 := FirstUnknown(x, y);
      var u1 := if cells[sq[3]] == Unknown then sq[3] else if cells[sq[2]] == Unknown then sq[2] else sq[1];
      assert cells[u1] == Unknown;
      var t := Imagine(u1, u0);
      if t {
        w := w + {u0};
      }
      t := Imagine(u0, u1);
      if t {
        w := w + {u1};
      }
    }

    /** unreachable(root, {black}): whether root is unknown and cannot be reached once black is imagined black. */
    method Imagine(root: Coord, black: Coord) returns (t: bool)
      requires Valid() && InBounds(root)
      ensures t ==> cells[root] == Unknown
    {
      ghost var reached;
      t, reached := Unreachable(root, {black});
    }

    /** analyze_potential_pools's inner loop over the squares whose left column is x. */
    method PoolColumn(x: int) returns (w: set<Coord>)
      requires Valid() && 0 <= x < width - 1
      ensures forall c :: c in w ==> InBounds(c) && cells[c] == Unknown
      ensures forall y, c :: 0 <= y < height - 1 && LoneUnknown(cells, x, y, c) ==> c in w
    {
      w := {};
      var y := 0;
      while y < height - 1
        invariant 0 <= y <= height - 1
        invariant forall c :: c in w ==> InBounds(c) && cells[c] == Unknown
        invariant forall yy, c :: 0 <= yy < y && LoneUnknown(cells, x, yy, c) ==> c in w
      {
        var m := PoolSquare(x, y);
        w := w + m;
        y := y + 1;
      }
    }

    /** analyze_potential_pools's loops: the cells that must be white so that no square turns all black. */
    method CollectPools() returns (w: set<Coord>)
      requires Valid()
      ensures forall c :: c in w ==> InBounds(c) && cells[c] == Unknown
      ensures forall x, y, c :: 0 <= x < width - 1 && 0 <= y < height - 1 && LoneUnknown(cells, x, y, c) ==> c in w
    {
      w := {};
      var x := 0;
      while x < width - 1
        invariant 0 <= x <= width - 1 || (x == 0 && width == 1)
        invariant forall c :: c in w ==> InBounds(c) && cells[c] == Unknown
        invariant forall xx, y, c :: 0 <= xx < x && 0 <= y < height - 1 && LoneUnknown(cells, xx, y, c) ==> c in w
      {
        var m := PoolColumn(x);
        w := w + m;
        x := x + 1;
      }
    }

    /**
     * analyze_potential_pools: whiten cells so that no 2x2 square becomes all
     * black. In particular the lone unknown cell of a square whose other three
     * cells are black becomes white.
     */
    method AnalyzePotentialPools() returns (r: bool)
      requires Valid()
      modifies this
      ensures Valid() && prng == old(prng)
      ensures Grows(old(cells), cells, {White}) && (r <==> cells != old(cells))
      ensures forall x, y, c :: 0 <= x < width - 1 && 0 <= y < height - 1 && LoneUnknown(old(cells), x, y, c) ==> cells[c] == White
      ensures r && sitrep == KeepGoing ==> old(KnownSet()) < KnownSet()
      ensures sitrep == old(sitrep) || sitrep == ContradictionFound
    {
      var w := CollectPools();
      r := Process({}, w);
      MarkedGrows(old(cells), {}, w);
      assert MarkSet(old(cells), {}, Black) == old(cells);
      forall x, y, c | 0 <= x < width - 1 && 0 <= y < height - 1 && LoneUnknown(old(cells), x, y, c) ensures cells[c] == White {
        assert c in w;
      }
      if r {
        var c :| c in w;
        assert cells[c] == White;
      }
    }

    /** analyze_complete_islands: blacken the liberties of every complete island. */
    method AnalyzeCompleteIslands() returns (r: bool)
      requires Valid()
      modifies this
      ensures Valid() && prng == old(prng)
      ensures var b := Gather(old(regions), old(regions).Keys, CompleteMarks);
        (r <==> b != {}) && cells == Marked(old(cells), b, {}) && KnownSet() == old(KnownSet()) + b
      ensures r && sitrep == KeepGoing ==> old(KnownSet()) < KnownSet()
      ensures sitrep == old(sitrep) || sitrep == ContradictionFound
    {
      var b := CollectComplete(regions);
      GatherLiberties(regions, cells, regions.Keys, CompleteMarks);
      r := Process(b, {});
    }

    /** analyze_single_liberties: a region that has to grow and has one liberty expands into it. */
    method AnalyzeSingleLiberties() returns (r: bool)
      requires Valid()
      modifies this
      ensures Valid() && prng == old(prng)
      ensures var b := Gather(old(regions), old(regions).Keys, SoleRule(totalBlack, true));
        var w := Gather(old(regions), old(regions).Keys, SoleRule(totalBlack, false));
        (r <==> b != {} || w != {}) && cells == Marked(old(cells), b, w) && KnownSet() == old(KnownSet()) + b + w
      ensures r && sitrep == KeepGoing ==> old(KnownSet()) < KnownSet()
      ensures sitrep == old(sitrep) || sitrep == ContradictionFound
    {
      var b, w := CollectSole(regions, totalBlack);
      GatherLiberties(regions, cells, regions.Keys, SoleRule(totalBlack, true));
      GatherLiberties(regions, cells, regions.Keys, SoleRule(totalBlack, false));
      r := Process(b, w);
    }

    /** analyze_dual_liberties: blacken the far corner of an N - 1 island's two diagonal liberties. */
    method AnalyzeDualLiberties() returns (r: bool)
      requires Valid()
      modifies this
      ensures Valid() && prng == old(prng)
      ensures var b := Gather(old(regions), old(regions).Keys, DualRule(old(cells)));
        (r <==> b != {}) && cells == Marked(old(cells), b, {}) && KnownSet() == old(KnownSet()) + b
      ensures r && sitrep == KeepGoing ==> old(KnownSet()) < KnownSet()
      ensures sitrep == old(sitrep) || sitrep == ContradictionFound
    {
      var b := CollectDual(regions, cells);
      forall c | c in b ensures InBounds(c) {
        GatherMember(regions, regions.Keys, DualRule(cells), c);
      }
      r := Process(b, {});
    }

    /** One turn of MarkAll's loop: mark c, after the cells of done have been marked on the board orig. */
    method MarkNext(s: State, c: Coord, ghost orig: map<Coord, State>, ghost done: set<Coord>)
      requires Valid() && (s == Black || s == White) && InBounds(c) && c !in done
      requires c in orig && cells == MarkSet(orig, done, s)
      modifies this`cells, this`owner, this`regions, this`nextId, this`sitrep
      ensures Valid() && prng == old(prng)
      ensures cells == MarkSet(orig, done + {c}, s)
      ensures orig[c] != Unknown ==> sitrep == ContradictionFound
      ensures sitrep == old(sitrep) || sitrep == ContradictionFound
    {
      MarkSetStep(orig, done, c, s);
      Mark(s, c);
    }

    /** Point the members of region gone, the cells of members, to region keep instead. */
    method Repoint(members: set<Coord>, gone: RegionId, keep: RegionId)
      requires forall d :: d in owner ==> (owner[d] == gone <==> d in members)
      modifies this`owner
      ensures owner == Repointed(old(owner), gone, keep)
    {
      var todo := members;
      while todo != {}
        invariant todo <= members
        invariant owner.Keys == old(owner).Keys
        invariant forall d :: d in owner ==> owner[d] == (if d in members && d !in todo then keep else old(owner)[d])
        decreases todo
      {
        var d :| d in todo;
        if d in owner {
          owner := owner[d := keep];
        }
        todo := todo - {d};
      }
    }

    /**
     * fuse_regions: merge two regions. Nothing happens when either is absent,
     * both are the same, or exactly one is black; two numbered regions are a
     * contradiction. Otherwise the numbered one (else the bigger) absorbs the
     * other's members and liberties, the absorbed members point to it, and the
     * absorbed region leaves the arena.
     */
    method FuseRegions(r1: Option<RegionId>, r2: Option<RegionId>)
      requires Valid()
      requires r1.Some? ==> r1.value in regions
      requires r2.Some? ==> r2.value in regions
      modifies this`regions, this`owner, this`sitrep
      ensures Valid()
      ensures !Fusible(old(regions), r1, r2) ==> regions == old(regions) && owner == old(owner)
      ensures sitrep == (if r1.Some? && r2.Some? && r1 != r2
                           && old(regions)[r1.value].IsNumbered() && old(regions)[r2.value].IsNumbered()
                         then ContradictionFound else old(sitrep))
      ensures Fusible(old(regions), r1, r2) ==>
        var keep := Primary(old(regions), r1.value, r2.value);
        var gone := if keep == r1.value then r2.value else r1.value;
        regions == Fused(old(regions), keep, gone) && owner == Repointed(old(owner), gone, keep)
    {
      if r1.None? || r2.None? || r1 == r2 {
        return;
      }
      if regions[r1.value].IsNumbered() && regions[r2.value].IsNumbered() {
        sitrep := ContradictionFound;
        return;
      }
      if regions[r1.value].IsBlack() != regions[r2.value].IsBlack() {
        return;
      }
      var keep := Primary(regions, r1.value, r2.value);
      var gone := if keep == r1.value then r2.value else r1.value;
      var goneRegion := regions[gone];
      FuseKeepsConsistent(cells, owner, regions, nextId, keep, gone);
      regions := Fused(regions, keep, gone);
      Repoint(goneRegion.coords, gone, keep);
    }

    /** Whether every cell of s lies on the board. */
    predicate OnBoard(s: set<Coord>) {
      forall c :: c in s ==> InBounds(c)
    }

    /** Whether every valid neighbour of c is in s. */
    ghost predicate Surrounded(c: Coord, s: set<Coord>)
      reads this
    {
      forall n :: InBounds(n) && Adjacent(c, n) ==> n in s
    }

    /** Whether confined's flood for region id may take cell c: an unknown cell, a cell of id, or a cell of a region id joins. */
    ghost predicate Takeable(id: RegionId, c: Coord)
      requires id in regions
      reads this
    {
      && InBounds(c) && c in cells
      && (cells[c] == Unknown || (c in owner && owner[c] in regions && (owner[c] == id || Joins(regions[id], regions[owner[c]]))))
    }

    /**
     * Whether confined's flood for region id discards cell p (its `continue`
     * cases): a black region refuses white and numbered cells, the others refuse
     * black cells, and a numbered region refuses an unknown cell next to another
     * numbered region.
     */
    predicate Refused(id: RegionId, p: Coord)
      requires id in regions && InBounds(p)
      reads this
    {
      if p in owner && owner[p] in regions then
        if regions[id].IsBlack() then !regions[owner[p]].IsBlack() else regions[owner[p]].IsBlack()
      else regions[id].IsNumbered() && RegionsAround(p, false) - {id} != {}
    }

    /**
     * confined's loop invariant, with C, O and V the closed, open and verboten
     * cells of the flags, D the cells discarded as refused and closedSize the
     * running size: every closed cell is takeable; the neighbours of a closed
     * unknown cell and the liberties of a closed region are closed, open,
     * verboten or refused; the region's own cells are closed or verboten;
     * closedSize counts at least the closed cells; and the open cells of a
     * numbered region's flood are never cells of a numbered region.
     */
    ghost predicate Flooding(id: RegionId, verboten: set<Coord>, C: set<Coord>, O: set<Coord>, V: set<Coord>,
                             D: set<Coord>, closedSize: int)
      requires Shape() && id in regions
      reads this
    {
      var reg := regions[id];
      && OnBoard(C) && OnBoard(O) && OnBoard(V)
      && V <= verboten && verboten <= C + V && reg.coords <= C + V
      && reg.unknowns <= C + O + verboten + D
      && (forall c :: c in C ==> Takeable(id, c))
      && (forall c :: c in C && c in cells && cells[c] == Unknown ==> Surrounded(c, C + O + verboten + D))
      && (forall c :: c in C && c in owner ==>
            && owner[c] in regions && regions[owner[c]].coords <= C + V
            && regions[owner[c]].unknowns <= C + O + verboten + D)
      && (forall d :: d in D ==> InBounds(d) && Refused(id, d))
      && closedSize >= |C| && closedSize >= reg.Size()
      && (reg.IsNumbered() ==> forall c :: c in O && c in owner && owner[c] in regions ==> !regions[owner[c]].IsNumbered())
    }

    /**
     * What confined establishes when it finds region id confined: taken holds
     * the region's cells that are not verboten, only takeable cells, and is
     * closed: every neighbour of a taken unknown cell, and every cell and
     * liberty of a taken region, is taken, verboten or refused. So every area
     * the region could grow to without entering verboten lies within taken.
     */
    ghost predicate ShutIn(id: RegionId, verboten: set<Coord>, taken: set<Coord>, refused: set<Coord>)
      requires Shape() && id in regions
      reads this
    {
      && regions[id].coords <= taken + verboten
      && regions[id].unknowns <= taken + verboten + refused
      && (forall c :: c in taken ==> Takeable(id, c))
      && (forall c :: c in taken && c in cells && cells[c] == Unknown ==> Surrounded(c, taken + verboten + refused))
      && (forall c :: c in taken && c in owner ==>
            && owner[c] in regions && regions[owner[c]].coords <= taken + verboten
            && regions[owner[c]].unknowns <= taken + verboten + refused)
      && (forall d :: d in refused ==> InBounds(d) && Refused(id, d))
    }

    lemma FloodingShutIn(id: RegionId, verboten: set<Coord>, C: set<Coord>, V: set<Coord>, D: set<Coord>, closedSize: int)
      requires Shape() && id in regions && Flooding(id, verboten, C, {}, V, D, closedSize)
      ensures ShutIn(id, verboten, C, D)
    {
    }

    /**
     * confined: whether region id could not be completed if it may not take the
     * cells of verboten. A black region must reach the number of black cells, a
     * white region must reach a numbered region, a numbered region must reach
     * its number. The flood takes unknown cells one at a time and whole regions
     * it joins; with verboten cells, a region for which the earlier run without
     * them took none of them is not confined (the cache). When the region is
     * found confined, the cells it could cover (taken) are shut in and too few.
     */
    method Confined(id: RegionId, cache: map<RegionId, set<Coord>>, verboten: set<Coord>)
      returns (r: bool, cache': map<RegionId, set<Coord>>, ghost taken: set<Coord>, ghost refused: set<Coord>)
      requires Valid() && id in regions && OnBoard(verboten)
      ensures r ==> regions[id].NeedsMore(regions[id].Size(), totalBlack)
      ensures r ==> regions[id].NeedsMore(|taken|, totalBlack) && ShutIn(id, verboten, taken, refused)
      ensures verboten != {} && (id !in cache || cache[id] !! verboten) ==> !r
      ensures regions[id].unknowns == {} && (verboten == {} || (id in cache && !(cache[id] !! verboten))) ==>
        (r <==> regions[id].NeedsMore(regions[id].Size(), totalBlack))
      ensures CacheGrows(cells, cache, cache', id, verboten, taken)
    {
      if verboten != {} && (id !in cache || cache[id] !! verboten) {
        return false, cache, {}, {};
      }
      r, cache', taken, refused := FloodFrom(id, cache, verboten);
    }

    /** confined past its cache shortcut: flood from region id and judge whether what it covers is too small. */
    method FloodFrom(id: RegionId, cache: map<RegionId, set<Coord>>, verboten: set<Coord>)
      returns (r: bool, cache': map<RegionId, set<Coord>>, ghost taken: set<Coord>, ghost refused: set<Coord>)
      requires Valid() && id in regions && OnBoard(verboten)
      ensures r ==> regions[id].NeedsMore(regions[id].Size(), totalBlack)
      ensures r ==> regions[id].NeedsMore(|taken|, totalBlack) && ShutIn(id, verboten, taken, refused)
      ensures regions[id].unknowns == {} ==> (r <==> regions[id].NeedsMore(regions[id].Size(), totalBlack))
      ensures CacheGrows(cells, cache, cache', id, verboten, taken)
    {
      taken, refused := {}, {};
      var flags, closedSize;
      ghost var C, O, V, D;
      flags, closedSize, C, O, V := StartFlood(id, verboten, cache);
      var escaped;
      escaped, closedSize, cache', C, O, V, D := Flood(id, flags, closedSize, cache, verboten, C, O, V);
      if escaped {
        return false, cache', C, D;
      }
      r := regions[id].NeedsMore(closedSize, totalBlack);
      taken, refused := C, D;
      if r {
        FloodingShutIn(id, verboten, C, V, D, closedSize);
      }
    }

    /**
     * confined's loop: consider the first open cell until none is left, the
     * region has grown enough, or a white region meets a numbered one.
     */
    method Flood(id: RegionId, flags: array2<Flag>, closedSize: int, cache: map<RegionId, set<Coord>>,
                 verboten: set<Coord>, ghost C: set<Coord>, ghost O: set<Coord>, ghost V: set<Coord>)
      returns (escaped: bool, closedSize': int, cache': map<RegionId, set<Coord>>,
               ghost C': set<Coord>, ghost O': set<Coord>, ghost V': set<Coord>, ghost D': set<Coord>)
      requires Valid() && id in regions
      requires FloodState(id, verboten, flags, cache, cache, C, O, V, {}, closedSize)
      requires regions[id].unknowns == {} ==> O == {} && closedSize == regions[id].Size()
      modifies flags
      ensures escaped ==> regions[id].IsWhite() && regions[id].unknowns != {}
      ensures !escaped ==> Flooding(id, verboten, C', O', V', D', closedSize')
      ensures !escaped ==> O' == {} || !regions[id].NeedsMore(closedSize', totalBlack)
      ensures !escaped && regions[id].unknowns == {} ==> closedSize' == regions[id].Size()
      ensures CacheGrows(cells, cache, cache', id, verboten, C')
    {
      var reg := regions[id];
      escaped, closedSize', cache', C', O', V', D' := false, closedSize, cache, C, O, V, {};
      while reg.NeedsMore(closedSize', totalBlack)
        invariant FloodState(id, verboten, flags, cache, cache', C', O', V', D', closedSize')
        invariant reg.unknowns == {} ==> O' == {} && closedSize' == reg.Size()
        decreases |cells.Keys - C'|, |O'|
      {
        var stop, e, size, ca;
        ghost var C2, O2, V2, D2;
        stop, e, size, ca, C2, O2, V2, D2 := Turn(id, flags, closedSize', cache', verboten, cache, C', O', V', D');
        if stop || e {
          return e, closedSize', cache', C', O', V', D';
        }
        closedSize', cache', C', O', V', D' := size, ca, C2, O2, V2, D2;
      }
    }

    /** The state confined's loop keeps: the flags mirror the sets, the flood invariant holds and the cache only grows. */
    ghost predicate FloodState(id: RegionId, verboten: set<Coord>, flags: array2<Flag>, cache0: map<RegionId, set<Coord>>,
                               cache: map<RegionId, set<Coord>>, C: set<Coord>, O: set<Coord>, V: set<Coord>,
                               D: set<Coord>, closedSize: int)
      requires Shape() && id in regions
      reads this, flags
    {
      Mirrors(flags, width, height, C, O, V) && Flooding(id, verboten, C, O, V, D, closedSize)
      && CacheGrows(cells, cache0, cache, id, verboten, C)
    }

    /**
     * One turn of confined's loop: find the first open cell (stop when there is
     * none) and consider it.
     */
    method Turn(id: RegionId, flags: array2<Flag>, closedSize: int,
                cache: map<RegionId, set<Coord>>, verboten: set<Coord>, ghost cache0: map<RegionId, set<Coord>>,
                ghost C: set<Coord>, ghost O: set<Coord>, ghost V: set<Coord>, ghost D: set<Coord>)
      returns (stop: bool, escaped: bool, closedSize': int, cache': map<RegionId, set<Coord>>,
               ghost C': set<Coord>, ghost O': set<Coord>, ghost V': set<Coord>, ghost D': set<Coord>)
      requires Valid() && id in regions
      requires FloodState(id, verboten, flags, cache0, cache, C, O, V, D, closedSize)
      modifies flags
      ensures stop ==> O == {} && !escaped
      ensures escaped ==> regions[id].IsWhite() && O != {}
      ensures !stop && !escaped ==> FloodState(id, verboten, flags, cache0, cache', C', O', V', D', closedSize')
      ensures !stop && !escaped ==> O != {} && (|cells.Keys - C'| < |cells.Keys - C| || (C' == C && |O'| < |O|))
    {
      var found, p := FindOpen(flags, C, O, V);
      if !found {
        assert forall c :: c in O ==> InBounds(c);
        return true, false, closedSize, cache, C, O, V, D;
      }
      stop := false;
      escaped, closedSize', cache', C', O', V', D' := Consider(id, flags, p, closedSize, cache, verboten, cache0, C, O, V, D);
    }

    /**
     * confined's set-up: the region's liberties open, then its cells closed,
     * then the verboten cells verboten; the running size is the region's size.
     */
    method StartFlood(id: RegionId, verboten: set<Coord>, ghost cache: map<RegionId, set<Coord>>)
      returns (flags: array2<Flag>, closedSize: int, ghost C: set<Coord>, ghost O: set<Coord>, ghost V: set<Coord>)
      requires Valid() && id in regions && OnBoard(verboten)
      ensures fresh(flags) && FloodState(id, verboten, flags, cache, cache, C, O, V, {}, closedSize)
      ensures closedSize == regions[id].Size() && (regions[id].unknowns == {} ==> O == {})
    {
      var reg := regions[id];
      StartFlooding(id, verboten);
      flags := Start(width, height, reg.unknowns, reg.coords, verboten);
      C, O, V := reg.coords - verboten, reg.unknowns - reg.coords - verboten, verboten;
      closedSize := reg.Size();
    }

    /** The flags confined starts from: the region's liberties open, its cells closed, the verboten cells verboten. */
    lemma StartFlooding(id: RegionId, verboten: set<Coord>)
      requires Valid() && id in regions && OnBoard(verboten)
      ensures OnBoard(regions[id].coords) && OnBoard(regions[id].unknowns)
      ensures var reg := regions[id];
        Flooding(id, verboten, reg.coords - verboten, reg.unknowns - reg.coords - verboten, verboten, {}, reg.Size())
    {
      var reg := regions[id];
      forall c | c in reg.coords ensures c in owner && owner[c] == id && InBounds(c) && cells[c] != Unknown {
      }
      forall c | c in reg.unknowns ensures InBounds(c) && cells[c] == Unknown && c !in owner {
      }
      StartFloodingOf(id, verboten);
    }

    /** StartFlooding from the facts of Valid it needs: the region's cells are its own known cells, its liberties unknown. */
    lemma StartFloodingOf(id: RegionId, verboten: set<Coord>)
      requires Shape() && id in regions && OnBoard(verboten)
      requires forall c :: c in regions[id].coords ==> c in owner && owner[c] == id && InBounds(c) && cells[c] != Unknown
      requires forall c :: c in regions[id].unknowns ==> InBounds(c) && cells[c] == Unknown && c !in owner
      ensures OnBoard(regions[id].coords) && OnBoard(regions[id].unknowns)
      ensures var reg := regions[id];
        Flooding(id, verboten, reg.coords - verboten, reg.unknowns - reg.coords - verboten, verboten, {}, reg.Size())
    {
      var reg := regions[id];
      var C, O := reg.coords - verboten, reg.unknowns - reg.coords - verboten;
      assert |C| <= |reg.coords| by {
        assert C <= reg.coords;
      }
    }

    /**
     * One turn of confined's loop for the open cell p: discard p, then refuse
     * it, escape (a white region reaching a numbered one), or take it (an
     * unknown cell) or its whole region.
     */
    method Consider(id: RegionId, flags: array2<Flag>, p: Coord, closedSize: int,
                    cache: map<RegionId, set<Coord>>, verboten: set<Coord>, ghost cache0: map<RegionId, set<Coord>>,
                    ghost C: set<Coord>, ghost O: set<Coord>, ghost V: set<Coord>, ghost D: set<Coord>)
      returns (escaped: bool, closedSize': int, cache': map<RegionId, set<Coord>>,
               ghost C': set<Coord>, ghost O': set<Coord>, ghost V': set<Coord>, ghost D': set<Coord>)
      requires Valid() && id in regions && InBounds(p) && p in O
      requires Mirrors(flags, width, height, C, O, V) && Flooding(id, verboten, C, O, V, D, closedSize)
      requires CacheGrows(cells, cache0, cache, id, verboten, C)
      modifies flags
      ensures escaped ==> regions[id].IsWhite()
      ensures !escaped ==> Mirrors(flags, width, height, C', O', V') && Flooding(id, verboten, C', O', V', D', closedSize')
      ensures !escaped ==> CacheGrows(cells, cache0, cache', id, verboten, C')
      ensures !escaped ==> |cells.Keys - C'| < |cells.Keys - C| || (C' == C && |O'| < |O|)
    {
      Discard(flags, p, C, O, V);
      escaped, closedSize', cache', C', O', V', D' := false, closedSize, cache, C, O - {p}, V, D;
      var a := OwnerOf(p);
      if Refused(id, p) {
        RefuseKeepsFlooding(id, verboten, C, O, V, D, closedSize, p);
        D' := D + {p};
        return;
      }
      OpenNumberedEscapes(id, verboten, C, O, V, D, closedSize, p);
      if a.Some? && regions[a.value].IsNumbered() {
        if regions[id].IsWhite() {
          return true, closedSize', cache', C', O', V', D';
        }
        assert false;
      }
      if a.None? {
        closedSize', cache', C', O', V' := ConsumeCell(id, flags, p, closedSize, cache, verboten, cache0, C, O, V, D);
      } else {
        closedSize', C', O', V' := TakeArea(id, flags, p, closedSize, verboten, C, O, V, D);
        CacheWithin(cells, cache0, cache, id, verboten, C, C');
      }
    }

    /** Discarding a refused open cell keeps confined's loop invariant. */
    lemma RefuseKeepsFlooding(id: RegionId, verboten: set<Coord>, C: set<Coord>, O: set<Coord>, V: set<Coord>,
                              D: set<Coord>, closedSize: int, p: Coord)
      requires Shape() && id in regions && InBounds(p) && p in O && Refused(id, p)
      requires Flooding(id, verboten, C, O, V, D, closedSize)
      ensures Flooding(id, verboten, C, O - {p}, V, D + {p}, closedSize)
    {
      assert O - {p} + verboten + (D + {p}) == O + verboten + D + {p};
    }

    /** An open cell of a numbered region that the flood does not refuse can only be met by a white region. */
    lemma OpenNumberedEscapes(id: RegionId, verboten: set<Coord>, C: set<Coord>, O: set<Coord>, V: set<Coord>,
                              D: set<Coord>, closedSize: int, p: Coord)
      requires Valid() && id in regions && InBounds(p) && p in O && !Refused(id, p)
      requires Flooding(id, verboten, C, O, V, D, closedSize)
      ensures p in owner && owner[p] in regions && regions[owner[p]].IsNumbered() ==> regions[id].IsWhite()
    {
    }

    /** confined's consumption of the unknown cell p: close it, open its unflagged neighbours, record it in the cache. */
    method ConsumeCell(id: RegionId, flags: array2<Flag>, p: Coord, closedSize: int,
                       cache: map<RegionId, set<Coord>>, verboten: set<Coord>, ghost cache0: map<RegionId, set<Coord>>,
                       ghost C: set<Coord>, ghost O: set<Coord>, ghost V: set<Coord>, ghost D: set<Coord>)
      returns (closedSize': int, cache': map<RegionId, set<Coord>>, ghost C': set<Coord>, ghost O': set<Coord>, ghost V': set<Coord>)
      requires Valid() && id in regions && InBounds(p) && p in O && p !in owner && !Refused(id, p)
      requires Mirrors(flags, width, height, C, O - {p}, V) && C !! O && C !! V && O !! V
      requires Flooding(id, verboten, C, O, V, D, closedSize)
      requires CacheGrows(cells, cache0, cache, id, verboten, C)
      modifies flags
      ensures Mirrors(flags, width, height, C', O', V') && Flooding(id, verboten, C', O', V', D, closedSize')
      ensures CacheGrows(cells, cache0, cache', id, verboten, C')
      ensures |cells.Keys - C'| < |cells.Keys - C|
    {
      closedSize', cache', C', O', V' := TakeCell(id, flags, p, closedSize, cache, verboten, cache0, C, O, V);
      CellKeepsFlooding(id, verboten, C, O, V, D, closedSize, p);
    }

    /** The flag changes of ConsumeCell: p closed, its unflagged neighbours opened, p recorded in the cache. */
    method TakeCell(id: RegionId, flags: array2<Flag>, p: Coord, closedSize: int,
                    cache: map<RegionId, set<Coord>>, verboten: set<Coord>, ghost cache0: map<RegionId, set<Coord>>,
                    ghost C: set<Coord>, ghost O: set<Coord>, ghost V: set<Coord>)
      returns (closedSize': int, cache': map<RegionId, set<Coord>>, ghost C': set<Coord>, ghost O': set<Coord>, ghost V': set<Coord>)
      requires Shape() && InBounds(p) && p in O && cells[p] == Unknown && OnBoard(C)
      requires Mirrors(flags, width, height, C, O - {p}, V) && C !! O
      requires CacheGrows(cells, cache0, cache, id, verboten, C)
      modifies flags
      ensures C' == C + {p} && V' == V - {p} && closedSize' == closedSize + 1
      ensures O' == (O - {p} - {p}) + (Neighbors(width, height, p) - (C + {p}) - (O - {p}) - V)
      ensures Mirrors(flags, width, height, C', O', V')
      ensures CacheGrows(cells, cache0, cache', id, verboten, C')
      ensures |cells.Keys - C'| < |cells.Keys - C|
    {
      var ns := Neighbors(width, height, p);
      FewerLeft(cells.Keys, C, {p});
      Take(flags, {p}, ns, C, O - {p}, V);
      C', O', V' := C + {p}, (O - {p} - {p}) + (ns - (C + {p}) - (O - {p}) - V), V - {p};
      closedSize' := closedSize + 1;
      cache' := Record(cells, cache, id, verboten, p, cache0, C);
    }

    /** confined's consumption of the region of the open cell p: close its cells, open its unflagged liberties. */
    method TakeArea(id: RegionId, flags: array2<Flag>, p: Coord, closedSize: int, verboten: set<Coord>,
                    ghost C: set<Coord>, ghost O: set<Coord>, ghost V: set<Coord>, ghost D: set<Coord>)
      returns (closedSize': int, ghost C': set<Coord>, ghost O': set<Coord>, ghost V': set<Coord>)
      requires Valid() && id in regions && InBounds(p) && p in O && p in owner && !Refused(id, p)
      requires !regions[owner[p]].IsNumbered()
      requires Mirrors(flags, width, height, C, O - {p}, V) && C !! O && C !! V && O !! V
      requires Flooding(id, verboten, C, O, V, D, closedSize)
      modifies flags
      ensures Mirrors(flags, width, height, C', O', V') && Flooding(id, verboten, C', O', V', D, closedSize')
      ensures C <= C' && |cells.Keys - C'| < |cells.Keys - C|
    {
      AreaFacts(id, C, O, V, p);
      closedSize', C', O', V' := TakeRegion(id, p, flags, closedSize, verboten, C, O, V, D);
    }

    /**
     * The flag changes of TakeArea, for the area AreaFacts describes: the
     * area's cells closed, its unflagged liberties opened.
     */
    method TakeRegion(id: RegionId, p: Coord, flags: array2<Flag>, closedSize: int, verboten: set<Coord>,
                      ghost C: set<Coord>, ghost O: set<Coord>, ghost V: set<Coord>, ghost D: set<Coord>)
      returns (closedSize': int, ghost C': set<Coord>, ghost O': set<Coord>, ghost V': set<Coord>)
      requires Shape() && id in regions && InBounds(p) && p in O && p in owner && owner[p] in regions
      requires var area := regions[owner[p]];
        && Joins(regions[id], area) && p in area.coords && area.coords !! C
        && (forall c :: c in area.coords ==> c in owner && owner[c] == owner[p] && InBounds(c) && c in cells && cells[c] != Unknown)
        && (forall c :: c in area.unknowns ==> InBounds(c) && c in cells && cells[c] == Unknown && c !in owner)
      requires C !! O && C !! V && O !! V
      requires Flooding(id, verboten, C, O, V, D, closedSize) && Mirrors(flags, width, height, C, O - {p}, V)
      modifies flags
      ensures var area := regions[owner[p]];
        && C' == C + area.coords && V' == V - area.coords && closedSize' == closedSize + area.Size()
        && O' == (O - {p} - area.coords) + (area.unknowns - (C + area.coords) - (O - {p}) - V)
      ensures Mirrors(flags, width, height, C', O', V') && Flooding(id, verboten, C', O', V', D, closedSize')
      ensures C <= C' && |cells.Keys - C'| < |cells.Keys - C|
    {
      var area := regions[owner[p]];
      Take(flags, area.coords, area.unknowns, C, O - {p}, V);
      AreaKeepsFlooding(id, verboten, C, O, V, D, closedSize, p);
      C', O', V' := C + area.coords, (O - {p} - area.coords) + (area.unknowns - (C + area.coords) - (O - {p}) - V), V - area.coords;
      closedSize' := closedSize + area.Size();
      FewerLeft(cells.Keys, C, area.coords);
    }

    /** Taking the unknown cell p, and opening its unflagged neighbours, keeps confined's loop invariant. */
    lemma CellKeepsFlooding(id: RegionId, verboten: set<Coord>, C: set<Coord>, O: set<Coord>, V: set<Coord>,
                            D: set<Coord>, closedSize: int, p: Coord)
      requires Valid() && id in regions && InBounds(p) && p in O && p !in owner && !Refused(id, p)
      requires C !! O && C !! V && O !! V
      requires Flooding(id, verboten, C, O, V, D, closedSize)
      ensures p in cells && cells[p] == Unknown && OnBoard(Neighbors(width, height, p))
      ensures var ns := Neighbors(width, height, p);
        Flooding(id, verboten, C + {p}, (O - {p} - {p}) + (ns - (C + {p}) - (O - {p}) - V), V - {p}, D, closedSize + 1)
    {
      var ns := Neighbors(width, height, p);
      var C', O', V' := C + {p}, (O - {p} - {p}) + (ns - (C + {p}) - (O - {p}) - V), V - {p};
      var reg := regions[id];
      assert V' == V;
      assert cells[p] == Unknown;
      assert |C'| == |C| + 1;
      assert OnBoard(C') && OnBoard(O') && OnBoard(V');
      assert V' <= verboten && verboten <= C' + V' && reg.coords <= C' + V';
      assert reg.unknowns <= C' + O' + verboten + D;
      assert forall c :: c in C' ==> Takeable(id, c);
      var S, S' := C + O + verboten + D, C' + O' + verboten + D;
      assert S <= S';
      assert Surrounded(p, S') by {
        forall n | InBounds(n) && Adjacent(p, n) ensures n in S' {
          assert n in ns;
        }
      }
      SurroundedGrows(C, {p}, S, S');
      OwnersClosedGrows(C, {p}, C + V, S, C' + V', S');
      assert forall d :: d in D ==> InBounds(d) && Refused(id, d);
      if reg.IsNumbered() {
        CellOpensNoNumbered(id, C, O, V, p);
      }
    }

    /** Closed unknown cells stay surrounded when the surrounding set grows, and cells of X surrounded by the larger set join them. */
    lemma SurroundedGrows(C: set<Coord>, X: set<Coord>, S: set<Coord>, S': set<Coord>)
      requires S <= S'
      requires forall c :: c in C && c in cells && cells[c] == Unknown ==> Surrounded(c, S)
      requires forall c :: c in X && c in cells && cells[c] == Unknown ==> Surrounded(c, S')
      ensures forall c :: c in C + X && c in cells && cells[c] == Unknown ==> Surrounded(c, S')
    {
    }

    /**
     * The regions of closed cells stay within the closed and verboten cells T,
     * and their liberties within S, when T and S grow; regions of cells of X
     * that lie within the larger sets join them.
     */
    lemma OwnersClosedGrows(C: set<Coord>, X: set<Coord>, T: set<Coord>, S: set<Coord>, T': set<Coord>, S': set<Coord>)
      requires T <= T' && S <= S'
      requires forall c :: c in C && c in owner ==>
        owner[c] in regions && regions[owner[c]].coords <= T && regions[owner[c]].unknowns <= S
      requires forall c :: c in X && c in owner ==>
        owner[c] in regions && regions[owner[c]].coords <= T' && regions[owner[c]].unknowns <= S'
      ensures forall c :: c in C + X && c in owner ==>
        owner[c] in regions && regions[owner[c]].coords <= T' && regions[owner[c]].unknowns <= S'
    {
    }

    /** The cells a numbered region's flood opens around the unknown cell p it takes belong to no numbered region. */
    lemma CellOpensNoNumbered(id: RegionId, C: set<Coord>, O: set<Coord>, V: set<Coord>, p: Coord)
      requires Valid() && id in regions && regions[id].IsNumbered() && InBounds(p) && p !in owner && !Refused(id, p)
      requires regions[id].coords <= C + V
      requires forall c :: c in O && c in owner && owner[c] in regions ==> !regions[owner[c]].IsNumbered()
      ensures var ns := Neighbors(width, height, p);
        forall c :: c in (O - {p} - {p}) + (ns - (C + {p}) - (O - {p}) - V) && c in owner && owner[c] in regions ==>
          !regions[owner[c]].IsNumbered()
    {
      var ns := Neighbors(width, height, p);
      RegionsAroundHas(p, false);
      forall c | c in (O - {p} - {p}) + (ns - (C + {p}) - (O - {p}) - V) && c in owner && owner[c] in regions
        ensures !regions[owner[c]].IsNumbered()
      {
        if c !in O {
          assert c in ns && c !in C + V;
          assert InBounds(c) && Adjacent(p, c);
          assert c in regions[owner[c]].coords;
          assert owner[c] != id;
          assert RegionsAround(p, false) - {id} == {};
          assert owner[c] !in RegionsAround(p, false) - {id};
        }
      }
    }

    /**
     * The region of the open cell p: it holds p, its cells are its own and on
     * the board, none of them is closed yet, its liberties are unknown, and the
     * flooding region joins it unless it refuses p or it is numbered.
     */
    lemma AreaFacts(id: RegionId, C: set<Coord>, O: set<Coord>, V: set<Coord>, p: Coord)
      requires Valid() && id in regions && InBounds(p) && p in O && p in owner && !Refused(id, p)
      requires !regions[owner[p]].IsNumbered()
      requires C !! O && C !! V && O !! V
      requires forall c :: c in C && c in owner ==> owner[c] in regions && regions[owner[c]].coords <= C + V
      ensures var area := regions[owner[p]];
        && Joins(regions[id], area) && p in area.coords && area.coords !! C
        && (forall c :: c in area.coords ==> c in owner && owner[c] == owner[p] && InBounds(c) && c in cells && cells[c] != Unknown)
        && (forall c :: c in area.unknowns ==> InBounds(c) && c in cells && cells[c] == Unknown && c !in owner)
    {
      var a := owner[p];
      var area := regions[a];
      forall c | c in area.coords ensures c in owner && owner[c] == a && InBounds(c) && c in cells && cells[c] != Unknown {
      }
      forall c | c in area.unknowns ensures InBounds(c) && c in cells && cells[c] == Unknown && c !in owner {
      }
      assert p !in C + V;
      assert forall d :: d in area.coords && d in C ==> area.coords <= C + V;
    }

    /**
     * Taking the region of the open cell p whole, and opening its unflagged
     * liberties, keeps confined's loop invariant; the area is as AreaFacts states it.
     */
    lemma AreaKeepsFlooding(id: RegionId, verboten: set<Coord>, C: set<Coord>, O: set<Coord>, V: set<Coord>,
                            D: set<Coord>, closedSize: int, p: Coord)
      requires Shape() && id in regions && InBounds(p) && p in O && p in owner && owner[p] in regions
      requires var area := regions[owner[p]];
        && Joins(regions[id], area) && p in area.coords && area.coords !! C
        && (forall c :: c in area.coords ==> c in owner && owner[c] == owner[p] && InBounds(c) && c in cells && cells[c] != Unknown)
        && (forall c :: c in area.unknowns ==> InBounds(c) && c in cells && cells[c] == Unknown && c !in owner)
      requires C !! O && C !! V && O !! V
      requires Flooding(id, verboten, C, O, V, D, closedSize)
      ensures var area := regions[owner[p]];
        && p in area.coords && area.coords <= cells.Keys && area.coords !! C
        && OnBoard(area.coords) && OnBoard(area.unknowns)
        && Flooding(id, verboten, C + area.coords,
                    (O - {p} - area.coords) + (area.unknowns - (C + area.coords) - (O - {p}) - V),
                    V - area.coords, D, closedSize + area.Size())
    {
      var a := owner[p];
      var area := regions[a];
      assert |C + area.coords| == |C| + |area.coords|;
      var C', O', V' := C + area.coords, (O - {p} - area.coords) + (area.unknowns - (C + area.coords) - (O - {p}) - V), V - area.coords;
      assert OnBoard(C') && OnBoard(O') && OnBoard(V');
      assert V' <= verboten && verboten <= C' + V' && regions[id].coords <= C' + V';
      assert regions[id].unknowns <= C' + O' + verboten + D;
      assert forall c :: c in C' ==> Takeable(id, c);
      var S, S' := C + O + verboten + D, C' + O' + verboten + D;
      assert S <= S';
      assert area.unknowns <= S';
      SurroundedGrows(C, area.coords, S, S');
      OwnersClosedGrows(C, area.coords, C + V, S, C' + V', S');
      assert closedSize + area.Size() >= |C'|;
      if regions[id].IsNumbered() {
        AreaOpensNoNumbered(C, O, V, p, area.coords, area.unknowns);
      }
    }

    /**
     * Taking a region A whose liberties U belong to no region opens only open
     * cells and cells of no region, so no cell of a numbered region.
     */
    lemma AreaOpensNoNumbered(C: set<Coord>, O: set<Coord>, V: set<Coord>, p: Coord, A: set<Coord>, U: set<Coord>)
      requires forall c :: c in U ==> c !in owner
      requires forall c :: c in O && c in owner && owner[c] in regions ==> !regions[owner[c]].IsNumbered()
      ensures forall c :: c in (O - {p} - A) + (U - (C + A) - (O - {p}) - V) && c in owner && owner[c] in regions ==>
        !regions[owner[c]].IsNumbered()
    {
    }

    /** Whether some 2x2 square of the board is all black. */
    ghost predicate AnyPool()
      reads this
    {
      exists x, y :: 0 <= x < width - 1 && 0 <= y < height - 1 && Pool(cells, x, y)
    }

    /**
     * A region detect_contradictions calls gigantic: a white region too big to
     * join any island, or an island beyond its number.
     */
    predicate Gigantic(id: RegionId)
      requires id in regions
      reads this
    {
      var r := regions[id];
      (r.IsWhite() && ImpossiblyBig(r.Size())) || (r.IsNumbered() && r.Size() > r.Number())
    }

    /**
     * Region id has to grow, yet some set of cells shuts it in while leaving it
     * too small, when it may not take the cells of verboten: what confined
     * establishes when it answers true.
     */
    ghost predicate ShownConfined(id: RegionId, verboten: set<Coord>)
      requires Shape() && id in regions
      reads this
    {
      && regions[id].NeedsMore(regions[id].Size(), totalBlack)
      && exists taken, refused :: regions[id].NeedsMore(|taken|, totalBlack) && ShutIn(id, verboten, taken, refused)
    }

    /** detect_contradictions's count check: more black cells than the solution has. */
    ghost predicate TooManyBlack()
      reads this
    {
      ColourSize(regions, regions.Keys, true) > totalBlack
    }

    /** detect_contradictions's count check: more white and numbered cells than the solution has. */
    ghost predicate TooManyWhite()
      reads this
    {
      ColourSize(regions, regions.Keys, false) > width * height - totalBlack
    }

    /** detect_contradictions's pool loops over the squares whose left column is x. */
    method PoolInColumn(x: int) returns (found: bool)
      requires Shape() && 0 <= x < width - 1
      ensures found <==> exists y :: 0 <= y < height - 1 && Pool(cells, x, y)
    {
      var y := 0;
      while y < height - 1
        invariant 0 <= y <= height - 1
        invariant forall yy :: 0 <= yy < y ==> !Pool(cells, x, yy)
      {
        if Pool(cells, x, y) {
          return true;
        }
        y := y + 1;
      }
      return false;
    }

    /** detect_contradictions's pool loops: whether some 2x2 square is all black. */
    method FindPool() returns (found: bool)
      requires Shape()
      ensures found <==> AnyPool()
    {
      var x := 0;
      while x < width - 1
        invariant 0 <= x <= width - 1
        invariant forall xx, yy :: 0 <= xx < x && 0 <= yy < height - 1 ==> !Pool(cells, xx, yy)
      {
        found := PoolInColumn(x);
        if found {
          return;
        }
        x := x + 1;
      }
      return false;
    }

    /**
     * detect_contradictions's tests of one region: gigantic, then confined
     * without verboten cells. A region without liberties is confined exactly
     * when it still has to grow.
     */
    method Inspect(id: RegionId, cache: map<RegionId, set<Coord>>) returns (bad: bool, cache': map<RegionId, set<Coord>>)
      requires Valid() && id in regions
      ensures bad ==> Gigantic(id) || ShownConfined(id, {})
      ensures Gigantic(id) ==> bad
      ensures regions[id].unknowns == {} && regions[id].NeedsMore(regions[id].Size(), totalBlack) ==> bad
      ensures CacheUnknown(cells, cache) ==> CacheUnknown(cells, cache')
    {
      if Gigantic(id) {
        return true, cache;
      }
      ghost var taken, refused;
      bad, cache', taken, refused := Confined(id, cache, {});
      if CacheUnknown(cells, cache) {
        CacheGrowsUnknown(cells, cache, cache', id, {}, taken);
      }
    }

    /**
     * detect_contradictions's loop over the regions: stop at the first
     * gigantic or confined one; otherwise add up the sizes of the black and of
     * the other regions.
     */
    method ScanRegions(cache: map<RegionId, set<Coord>>)
      returns (bad: bool, black: int, white: int, cache': map<RegionId, set<Coord>>)
      requires Valid()
      ensures bad ==> exists id :: id in regions && (Gigantic(id) || ShownConfined(id, {}))
      ensures !bad ==> forall id :: id in regions ==>
        !Gigantic(id) && (regions[id].unknowns == {} ==> !regions[id].NeedsMore(regions[id].Size(), totalBlack))
      ensures !bad ==> black == ColourSize(regions, regions.Keys, true) && white == ColourSize(regions, regions.Keys, false)
      ensures CacheUnknown(cells, cache) ==> CacheUnknown(cells, cache')
    {
      bad, black, white, cache' := false, 0, 0, cache;
      var todo := regions.Keys;
      assert OfColour(regions, {}, true) == {} && OfColour(regions, {}, false) == {};
      assert regions.Keys - todo == {};
      while todo != {}
        invariant todo <= regions.Keys
        invariant forall id :: id in regions && id !in todo ==>
          !Gigantic(id) && (regions[id].unknowns == {} ==> !regions[id].NeedsMore(regions[id].Size(), totalBlack))
        invariant black == ColourSize(regions, regions.Keys - todo, true)
        invariant white == ColourSize(regions, regions.Keys - todo, false)
        invariant CacheUnknown(cells, cache) ==> CacheUnknown(cells, cache')
        decreases todo
      {
        var id :| id in todo;
        ghost var done := regions.Keys - todo;
        ColourSizeStep(regions, done, id, true);
        ColourSizeStep(regions, done, id, false);
        if regions[id].IsBlack() {
          black := black + regions[id].Size();
        } else {
          white := white + regions[id].Size();
        }
        var b;
        b, cache' := Inspect(id, cache');
        if b {
          return true, black, white, cache';
        }
        todo := todo - {id};
        assert regions.Keys - todo == done + {id};
      }
      assert regions.Keys - todo == regions.Keys;
    }

    /**
     * detect_contradictions without its side effect: whether the board shows a
     * pool, a gigantic or confined region, or too many black or white cells. A
     * board free of all of them passes. The cache of cells confined took keeps
     * holding only unknown cells.
     */
    method FindContradiction(cache: map<RegionId, set<Coord>>) returns (r: bool, cache': map<RegionId, set<Coord>>)
      requires Valid()
      ensures r ==> AnyPool() || TooManyBlack() || TooManyWhite()
                    || exists id :: id in regions && (Gigantic(id) || ShownConfined(id, {}))
      ensures !r ==> && !AnyPool() && !TooManyBlack() && !TooManyWhite()
                     && forall id :: id in regions ==>
                          !Gigantic(id) && (regions[id].unknowns == {} ==> !regions[id].NeedsMore(regions[id].Size(), totalBlack))
      ensures CacheUnknown(cells, cache) ==> CacheUnknown(cells, cache')
    {
      var pool := FindPool();
      if pool {
        return true, cache;
      }
      var bad, black, white;
      bad, black, white, cache' := ScanRegions(cache);
      r := bad || black > totalBlack || white > width * height - totalBlack;
    }

    /** detect_contradictions: FindContradiction, setting sitrep to CONTRADICTION_FOUND when it finds one. */
    method DetectContradictions(cache: map<RegionId, set<Coord>>) returns (r: bool, cache': map<RegionId, set<Coord>>)
      requires Valid()
      modifies this`sitrep
      ensures Valid() && sitrep == (if r then ContradictionFound else old(sitrep))
      ensures r ==> old(AnyPool() || TooManyBlack() || TooManyWhite()
                        || exists id :: id in regions && (Gigantic(id) || ShownConfined(id, {})))
      ensures !r ==> old(&& !AnyPool() && !TooManyBlack() && !TooManyWhite()
                         && forall id :: id in regions ==>
                              !Gigantic(id) && (regions[id].unknowns == {} ==> !regions[id].NeedsMore(regions[id].Size(), totalBlack)))
      ensures CacheUnknown(cells, cache) ==> CacheUnknown(cells, cache')
    {
      r, cache' := FindContradiction(cache);
      if r {
        sitrep := ContradictionFound;
      }
    }

    /**
     * The unknown cell c must be black (black true) or white (black false):
     * some region of that colour (white meaning white or numbered) is shown
     * confined when barred from c.
     */
    ghost predicate ColourNeeds(c: Coord, black: bool)
      requires Shape()
      reads this
    {
      exists id :: id in regions && regions[id].IsBlack() == black && ShownConfined(id, {c})
    }

    /**
     * The liberty u must be black: u is a liberty of an island i that has to
     * grow, so a white u would join i, and another island k is shown confined
     * when barred from u and from u's unknown neighbours.
     */
    ghost predicate IslandNeeds(u: Coord)
      requires Shape() && InBounds(u)
      reads this
    {
      exists i, k :: && i in regions && k in regions && i != k
                     && regions[i].IsNumbered() && regions[i].Size() < regions[i].Number() && u in regions[i].unknowns
                     && regions[k].IsNumbered() && ShownConfined(k, {u} + UnknownNeighbors(u))
    }

    /** analyze_confinement's loop over the regions with the unknown cell c verboten. */
    method ConfineCell(c: Coord, cache: map<RegionId, set<Coord>>) returns (black: bool, white: bool)
      requires Valid() && InBounds(c)
      ensures black ==> ColourNeeds(c, true)
      ensures white ==> ColourNeeds(c, false)
    {
      black, white := false, false;
      var todo := regions.Keys;
      while todo != {}
        invariant todo <= regions.Keys
        invariant black ==> ColourNeeds(c, true)
        invariant white ==> ColourNeeds(c, false)
        decreases todo
      {
        var id :| id in todo;
        var t, ca;
        ghost var taken, refused;
        t, ca, taken, refused := Confined(id, cache, {c});
        if t {
          assert ShownConfined(id, {c});
          if regions[id].IsBlack() {
            black := true;
          } else {
            white := true;
          }
        }
        todo := todo - {id};
      }
    }

    /** analyze_confinement's first inner loop, over the cells of column x. */
    method ConfineColumn(x: int, cache: map<RegionId, set<Coord>>) returns (b: set<Coord>, w: set<Coord>)
      requires Valid() && 0 <= x < width
      ensures forall c :: c in b ==> InBounds(c) && cells[c] == Unknown && ColourNeeds(c, true)
      ensures forall c :: c in w ==> InBounds(c) && cells[c] == Unknown && ColourNeeds(c, false)
    {
      b, w := {}, {};
      var y := 0;
      while y < height
        invariant 0 <= y <= height
        invariant forall c :: c in b ==> InBounds(c) && cells[c] == Unknown && ColourNeeds(c, true)
        invariant forall c :: c in w ==> InBounds(c) && cells[c] == Unknown && ColourNeeds(c, false)
      {
        var c := Coord(x, y);
        if cells[c] == Unknown {
          var black, white := ConfineCell(c, cache);
          if black {
            b := b + {c};
          }
          if white {
            w := w + {c};
          }
        }
        y := y + 1;
      }
    }

    /**
     * analyze_confinement's first loops: every unknown cell made verboten in
     * turn; a region then shown confined needs the cell in its colour.
     */
    method ConfineCells(cache: map<RegionId, set<Coord>>) returns (b: set<Coord>, w: set<Coord>)
      requires Valid()
      ensures forall c :: c in b ==> InBounds(c) && cells[c] == Unknown && ColourNeeds(c, true)
      ensures forall c :: c in w ==> InBounds(c) && cells[c] == Unknown && ColourNeeds(c, false)
    {
      b, w := {}, {};
      var x := 0;
      while x < width
        invariant 0 <= x <= width
        invariant forall c :: c in b ==> InBounds(c) && cells[c] == Unknown && ColourNeeds(c, true)
        invariant forall c :: c in w ==> InBounds(c) && cells[c] == Unknown && ColourNeeds(c, false)
      {
        var bc, wc := ConfineColumn(x, cache);
        b, w := b + bc, w + wc;
        x := x + 1;
      }
    }

    /**
     * analyze_confinement's innermost second loop: the liberty u of the island
     * i that has to grow is black when another island is confined without u
     * and u's unknown neighbours.
     */
    method ConfineLiberty(i: RegionId, u: Coord, cache: map<RegionId, set<Coord>>) returns (black: bool)
      requires Valid() && i in regions && regions[i].IsNumbered() && regions[i].Size() < regions[i].Number()
      requires u in regions[i].unknowns
      ensures black ==> InBounds(u) && IslandNeeds(u)
    {
      assert InBounds(u) && u in cells;
      var verboten := {u} + UnknownNeighbors(u);
      assert OnBoard(verboten);
      black := false;
      var todo := regions.Keys;
      while todo != {}
        invariant todo <= regions.Keys
        invariant black ==> IslandNeeds(u)
        decreases todo
      {
        var k :| k in todo;
        if k != i && regions[k].IsNumbered() {
          var t, ca;
          ghost var taken, refused;
          t, ca, taken, refused := Confined(k, cache, verboten);
          if t {
            assert ShownConfined(k, verboten);
            black := true;
          }
        }
        todo := todo - {k};
      }
    }

    /** analyze_confinement's second loop over the liberties of region i, an island that has to grow. */
    method ConfineIsland(i: RegionId, cache: map<RegionId, set<Coord>>) returns (b: set<Coord>)
      requires Valid() && i in regions
      ensures forall u :: u in b ==> InBounds(u) && cells[u] == Unknown && IslandNeeds(u)
    {
      b := {};
      if !(regions[i].IsNumbered() && regions[i].Size() < regions[i].Number()) {
        return;
      }
      var todo := regions[i].unknowns;
      while todo != {}
        invariant todo <= regions[i].unknowns
        invariant forall u :: u in b ==> InBounds(u) && cells[u] == Unknown && IslandNeeds(u)
        decreases todo
      {
        var u :| u in todo;
        var black := ConfineLiberty(i, u, cache);
        if black {
          b := b + {u};
        }
        todo := todo - {u};
      }
    }

    /** analyze_confinement's second loops, over the islands that have to grow. */
    method ConfineIslands(cache: map<RegionId, set<Coord>>) returns (b: set<Coord>)
      requires Valid()
      ensures forall u :: u in b ==> InBounds(u) && cells[u] == Unknown && IslandNeeds(u)
    {
      b := {};
      var todo := regions.Keys;
      while todo != {}
        invariant todo <= regions.Keys
        invariant forall u :: u in b ==> InBounds(u) && cells[u] == Unknown && IslandNeeds(u)
        decreases todo
      {
        var i :| i in todo;
        var bi := ConfineIsland(i, cache);
        b := b + bi;
        todo := todo - {i};
      }
    }

    /**
     * analyze_confinement: mark the cells the two confinement searches
     * conclude, each justified by a region shown confined without it.
     */
    method AnalyzeConfinement(cache: map<RegionId, set<Coord>>) returns (r: bool, ghost b: set<Coord>, ghost w: set<Coord>)
      requires Valid()
      modifies this
      ensures Valid() && prng == old(prng)
      ensures (r <==> b != {} || w != {}) && cells == Marked(old(cells), b, w) && KnownSet() == old(KnownSet()) + b + w
      ensures forall c :: c in b ==> InBounds(c) && old(cells[c]) == Unknown && old(ColourNeeds(c, true) || IslandNeeds(c))
      ensures forall c :: c in w ==> InBounds(c) && old(cells[c]) == Unknown && old(ColourNeeds(c, false))
      ensures r && sitrep == KeepGoing ==> old(KnownSet()) < KnownSet()
      ensures sitrep == old(sitrep) || sitrep == ContradictionFound
    {
      var bm, wm := Confinements(cache);
      b, w := bm, wm;
      r := Process(bm, wm);
    }

    /** Both confinement searches together: the cells each concludes black or white. */
    method Confinements(cache: map<RegionId, set<Coord>>) returns (b: set<Coord>, w: set<Coord>)
      requires Valid()
      ensures forall c :: c in b ==> InBounds(c) && cells[c] == Unknown && (ColourNeeds(c, true) || IslandNeeds(c))
      ensures forall c :: c in w ==> InBounds(c) && cells[c] == Unknown && ColourNeeds(c, false)
    {
      var b1, b2;
      b1, w := ConfineCells(cache);
      b2 := ConfineIslands(cache);
      b := b1 + b2;
    }

    /** guessing_order's first loops over column x: its unknown and its white cells, top to bottom. */
    method ColumnCells(x: int) returns (unk: seq<Coord>, ws: seq<Coord>)
      requires Shape() && 0 <= x < width
      ensures forall c :: c in unk <==> InBounds(c) && c.x == x && cells[c] == Unknown
      ensures forall c :: c in ws <==> InBounds(c) && c.x == x && cells[c] == White
      ensures Unique(unk)
    {
      unk, ws := [], [];
      var y := 0;
      while y < height
        invariant 0 <= y <= height
        invariant forall c :: c in unk <==> InBounds(c) && c.x == x && c.y < y && cells[c] == Unknown
        invariant forall c :: c in ws <==> InBounds(c) && c.x == x && c.y < y && cells[c] == White
        invariant forall i, j :: 0 <= i < j < |unk| ==> unk[i].y < unk[j].y
      {
        var c := Coord(x, y);
        if cells[c] == Unknown {
          assert forall d :: d in unk ==> d.y < y;
          unk := unk + [c];
        } else if cells[c] == White {
          ws := ws + [c];
        }
        y := y + 1;
      }
    }

    /** guessing_order's first loops: the unknown cells, each once, and the white cells. */
    method GuessableCells() returns (unk: seq<Coord>, ws: seq<Coord>)
      requires Shape()
      ensures forall c :: c in unk <==> InBounds(c) && cells[c] == Unknown
      ensures forall c :: c in ws <==> InBounds(c) && cells[c] == White
      ensures Unique(unk)
    {
      unk, ws := [], [];
      var x := 0;
      while x < width
        invariant 0 <= x <= width
        invariant forall c :: c in unk <==> InBounds(c) && c.x < x && cells[c] == Unknown
        invariant forall c :: c in ws <==> InBounds(c) && c.x < x && cells[c] == White
        invariant Unique(unk)
      {
        var cu, cw := ColumnCells(x);
        assert forall i, j :: 0 <= i < |unk| && 0 <= j < |cu| ==> unk[i].x < x == cu[j].x;
        unk, ws := unk + cu, ws + cw;
        x := x + 1;
      }
    }

    /**
     * guessing_order: the unknown cells, each once, nearest to a white cell
     * first (ties in the order of a shuffle driven by the generator, which
     * advances).
     */
    method GuessingOrder() returns (v: seq<Coord>, ghost whites: seq<Coord>)
      requires Valid()
      modifies this`prng
      ensures Valid() && |prng| <= |old(prng)|
      ensures forall c :: c in v <==> InBounds(c) && cells[c] == Unknown
      ensures Unique(v)
      ensures forall c :: c in whites <==> InBounds(c) && cells[c] == White
      ensures forall i, j :: 0 <= i < j < |v| ==>
        NearestWhite(v[i], whites, width + height) <= NearestWhite(v[j], whites, width + height)
    {
      var unk, ws := GuessableCells();
      var rest;
      v, rest := OrderGuesses(unk, ws, width + height, prng);
      prng, whites := rest, ws;
    }

    /**
     * A board the solver declares solved: every cell known and
     * detect_contradictions finds nothing wrong with it.
     */
    ghost predicate Solved()
      requires Shape()
      reads this
    {
      && (forall c :: c in cells ==> cells[c] != Unknown)
      && !AnyPool() && !TooManyBlack() && !TooManyWhite()
      && forall id :: id in regions ==>
           !Gigantic(id) && (regions[id].unknowns == {} ==> !regions[id].NeedsMore(regions[id].Size(), totalBlack))
    }

    /**
     * What a solved board is: no 2x2 pool, no white region left over, every
     * island exactly its number, and every black region as big as the whole
     * sea, so the sea is a single region.
     */
    lemma SolvedRegions()
      requires Valid() && Solved()
      ensures !AnyPool()
      ensures forall id :: id in regions ==> !regions[id].IsWhite()
      ensures forall id :: id in regions && regions[id].IsNumbered() ==> regions[id].Size() == regions[id].Number()
      ensures forall id :: id in regions && regions[id].IsBlack() ==> regions[id].Size() >= totalBlack
    {
      var unknown := set c | c in cells && cells[c] == Unknown;
      assert unknown == {};
      forall id | id in regions ensures regions[id].unknowns == {} {
        assert regions[id].unknowns <= unknown;
      }
    }

    /**
     * The copy constructor analyze_hypotheticals uses: the same board, regions,
     * situation and generator state.
     */
    constructor Copy(other: Grid)
      requires other.Valid()
      ensures Valid()
      ensures width == other.width && height == other.height && totalBlack == other.totalBlack
      ensures cells == other.cells && owner == other.owner && regions == other.regions
      ensures nextId == other.nextId && sitrep == other.sitrep && prng == other.prng
    {
      width, height, totalBlack := other.width, other.height, other.totalBlack;
      cells, owner, regions, nextId := other.cells, other.owner, other.regions, other.nextId;
      sitrep, prng := other.sitrep, other.prng;
      new;
    }

    /**
     * One guess of analyze_hypotheticals: a copy of the grid with the unknown
     * cell c marked s, solved without guessing until it stops. When the copy
     * is solved, board is a complete board that fills in the unknown cells of
     * this one, with c in state s.
     */
    method Suppose(s: State, c: Coord) returns (sr: SitRep, ghost board: map<Coord, State>)
      requires Valid() && InBounds(c) && cells[c] == Unknown && (s == Black || s == White)
      decreases 3
      ensures sr != KeepGoing
      ensures sr == SolutionFound ==>
        Grows(cells[c := s], board, {Black, White}) && forall d :: d in board ==> board[d] != Unknown
    {
      var other := new Grid.Copy(this);
      other.Mark(s, c);
      ghost var start := other.cells;
      sr := other.SolveUntilStuck();
      GrowsTrans(cells[c := s], start, other.cells, {Black, White});
      board := other.cells;
    }

    /** The number of cells still unknown. */
    ghost function Left(): nat
      reads this
    {
      |cells.Keys - KnownSet()|
    }

    /** analyze_hypotheticals's `while (sr == KEEP_GOING) sr = other.solve(false, false);`. */
    method SolveUntilStuck() returns (sr: SitRep)
      requires Valid()
      modifies this
      decreases 2
      ensures Valid() && sr != KeepGoing
      ensures Grows(old(cells), cells, {Black, White})
      ensures sr == SolutionFound ==> Solved()
    {
      sr := KeepGoing;
      while sr == KeepGoing
        invariant Valid() && Grows(old(cells), cells, {Black, White})
        invariant sr == SolutionFound ==> Solved()
        decreases Left(), if sr == KeepGoing then 1 else 0
      {
        ghost var before := cells;
        sr := SolveStep();
        GrowsTrans(old(cells), before, cells, {Black, White});
      }
    }

    /** One solve without guessing, with its effect on the number of unknown cells. */
    method SolveStep() returns (sr: SitRep)
      requires Valid()
      modifies this
      decreases 1
      ensures Valid() && Grows(old(cells), cells, {Black, White})
      ensures sr == SolutionFound ==> Solved()
      ensures Left() <= old(Left()) && (sr == KeepGoing ==> Left() < old(Left()))
    {
      sr := Solve(false);
      FewerUnknown(old(cells), cells, {Black, White});
    }

    /**
     * analyze_hypotheticals: for each cell in guessing order, imagine it black,
     * then white; a contradiction proves the other colour, a solution proves
     * that colour. The first such finding marks that one cell; when no guess
     * decides anything the board is unchanged.
     */
    method AnalyzeHypotheticals() returns (r: bool)
      requires Valid()
      modifies this
      decreases 5
      ensures Valid()
      ensures Grows(old(cells), cells, {Black, White})
      ensures !r ==> cells == old(cells) && sitrep == old(sitrep)
      ensures r ==> exists c :: InBounds(c) && old(cells)[c] == Unknown && KnownSet() == old(KnownSet()) + {c}
                      && (cells == old(cells)[c := Black] || cells == old(cells)[c := White])
      ensures r && sitrep == KeepGoing ==> old(KnownSet()) < KnownSet()
      ensures sitrep == old(sitrep) || sitrep == ContradictionFound
    {
      var v;
      ghost var whites;
      v, whites := GuessingOrder();
      var i := 0;
      while i < |v|
        invariant 0 <= i <= |v|
        invariant Valid() && cells == old(cells) && sitrep == old(sitrep) && owner == old(owner) && regions == old(regions)
      {
        var c := v[i];
        var black, white;
        ghost var srB, srW;
        black, white, srB, srW := Guess(c);
        if black || white {
          r := Decide(c, black);
          return;
        }
        i := i + 1;
      }
      MarkedNothing(cells);
      return false;
    }

    /** analyze_hypotheticals's finding: the guessed cell c is marked black (black) or white. */
    method Decide(c: Coord, black: bool) returns (r: bool)
      requires Valid() && InBounds(c) && cells[c] == Unknown
      modifies this
      ensures Valid() && r
      ensures cells == old(cells)[c := if black then Black else White]
      ensures Grows(old(cells), cells, {Black, White})
      ensures KnownSet() == old(KnownSet()) + {c}
      ensures sitrep == KeepGoing ==> old(KnownSet()) < KnownSet()
      ensures sitrep == old(sitrep) || sitrep == ContradictionFound
    {
      var b, w := if black then {c} else {}, if black then {} else {c};
      r := Process(b, w);
      MarkedGrows(old(cells), b, w);
      MarkedOne(old(cells), c, black);
    }

    /**
     * analyze_hypotheticals's two guesses for the unknown cell c, black first:
     * srB is how the solver stopped on the copy with c black, and srW, when
     * that one could not proceed, how it stopped with c white. A contradiction
     * proves the other colour and a solution proves the same one; black and
     * white say which colour is proved, neither when both copies got stuck.
     */
    method Guess(c: Coord) returns (black: bool, white: bool, ghost srB: SitRep, ghost srW: SitRep)
      requires Valid() && InBounds(c) && cells[c] == Unknown
      decreases 4
      ensures srB != KeepGoing && (srB == CannotProceed ==> srW != KeepGoing)
      ensures black <==> srB == SolutionFound || (srB == CannotProceed && srW == ContradictionFound)
      ensures white <==> srB == ContradictionFound || (srB == CannotProceed && srW == SolutionFound)
    {
      var sr;
      ghost var board;
      sr, board := Suppose(Black, c);
      srB, srW := sr, sr;
      if sr == ContradictionFound {
        black, white := false, true;
        return;
      }
      if sr == SolutionFound {
        black, white := true, false;
        return;
      }
      sr, board := Suppose(White, c);
      srW := sr;
      if sr == ContradictionFound {
        black, white := true, false;
        return;
      }
      if sr == SolutionFound {
        black, white := false, true;
        return;
      }
      black, white := false, false;
    }

    /**
     * solve: one step of the solver. A board with every cell known is solved
     * unless detect_contradictions objects. Otherwise the analyses run from
     * cheapest to most expensive, hypotheticals only when guessing, and the
     * first that marks something (or finds a contradiction) ends the step;
     * when none does the solver cannot proceed and the board is unchanged.
     */
    method Solve(guessing: bool) returns (sr: SitRep)
      requires Valid()
      modifies this
      decreases if guessing then 6 else 0
      ensures Valid()
      ensures Grows(old(cells), cells, {Black, White})
      ensures sr == SolutionFound ==> Solved() && cells == old(cells)
      ensures sr == KeepGoing ==> sitrep == KeepGoing && old(KnownSet()) < KnownSet()
      ensures sr == ContradictionFound ==> sitrep == ContradictionFound
      ensures sr == CannotProceed ==> cells == old(cells)
    {
      var cache: map<RegionId, set<Coord>> := map[];
      var k := Known();
      if k == width * height {
        var bad;
        bad, cache := DetectContradictions(cache);
        if bad {
          return ContradictionFound;
        }
        return SolutionFound;
      }
      var r := Deduce(cache);
      if !r && guessing {
        r := AnalyzeHypotheticals();
      }
      if r {
        return sitrep;
      }
      return CannotProceed;
    }

    /** solve's analyses short of hypotheticals, in solve's order, stopping at the first that succeeds. */
    method Deduce(cache: map<RegionId, set<Coord>>) returns (r: bool)
      requires Valid()
      modifies this
      ensures Valid()
      ensures Grows(old(cells), cells, {Black, White})
      ensures !r ==> cells == old(cells)
      ensures r && sitrep == KeepGoing ==> old(KnownSet()) < KnownSet()
      ensures sitrep == old(sitrep) || sitrep == ContradictionFound
    {
      r := Forced();
      if r {
        return;
      }
      var ca;
      r, ca := DetectContradictions(cache);
      if r {
        return;
      }
      ghost var b, w;
      r, b, w := AnalyzeConfinement(ca);
      MarkedGrows(old(cells), b, w);
      if !r {
        MarkedNothing(old(cells));
      }
    }

    /** solve's five cheap analyses, in order, stopping at the first that succeeds. */
    method Forced() returns (r: bool)
      requires Valid()
      modifies this
      ensures Valid()
      ensures Grows(old(cells), cells, {Black, White})
      ensures !r ==> cells == old(cells)
      ensures r && sitrep == KeepGoing ==> old(KnownSet()) < KnownSet()
      ensures sitrep == old(sitrep) || sitrep == ContradictionFound
    {
      r := IslandRules();
      if r {
        return;
      }
      r := AnalyzeUnreachableCells();
      if r {
        return;
      }
      r := AnalyzePotentialPools();
    }

    /** solve's first three analyses (complete islands, single liberties, dual liberties), stopping at the first that succeeds. */
    method IslandRules() returns (r: bool)
      requires Valid()
      modifies this
      ensures Valid()
      ensures Grows(old(cells), cells, {Black, White})
      ensures !r ==> cells == old(cells)
      ensures r && sitrep == KeepGoing ==> old(KnownSet()) < KnownSet()
      ensures sitrep == old(sitrep) || sitrep == ContradictionFound
    {
      r := AnalyzeCompleteIslands();
      MarkedGrows(old(cells), Gather(old(regions), old(regions).Keys, CompleteMarks), {});
      MarkedNothing(old(cells));
      if r {
        return;
      }
      r := SoleThenDual();
    }

    /** solve's single-liberty analysis, then its dual-liberty analysis when the first marks nothing. */
    method SoleThenDual() returns (r: bool)
      requires Valid()
      modifies this
      ensures Valid()
      ensures Grows(old(cells), cells, {Black, White})
      ensures !r ==> cells == old(cells)
      ensures r && sitrep == KeepGoing ==> old(KnownSet()) < KnownSet()
      ensures sitrep == old(sitrep) || sitrep == ContradictionFound
    {
      r := AnalyzeSingleLiberties();
      MarkedGrows(old(cells), Gather(old(regions), old(regions).Keys, SoleRule(totalBlack, true)),
                  Gather(old(regions), old(regions).Keys, SoleRule(totalBlack, false)));
      MarkedNothing(old(cells));
      if r {
        return;
      }
      r := AnalyzeDualLiberties();
      MarkedGrows(old(cells), Gather(old(regions), old(regions).Keys, DualRule(old(cells))), {});
      MarkedNothing(old(cells));
    }
  }
}
