/**
 * The ingredients of the guessing order: the shuffle of the unknown cells
 * (std::random_shuffle driven by the grid's generator) and the stable sort by
 * distance to the nearest white cell (std::stable_sort).
 */
module GuessOrder {
  import opened NurikabeBoard

  /** An unknown cell with its sort key, the tuple (x, y, manhattan) of the source. */
  datatype Keyed = Keyed(c: Coord, key: int)

  /** The elements of s whose key is k, in their order in s. */
  function Filter(s: seq<Keyed>, k: int): (r: seq<Keyed>)
    ensures |r| <= |s|
    ensures forall e :: e in r ==> e in s && e.key == k
  {
    if s == [] then []
    else Filter(s[..|s| - 1], k) + (if s[|s| - 1].key == k then [s[|s| - 1]] else [])
  }

  /** The elements with key lo, then those with key lo + 1, ..., then those with key hi. */
  function Buckets(s: seq<Keyed>, lo: int, hi: int): seq<Keyed>
    decreases hi - lo
  {
    if lo > hi then [] else Filter(s, lo) + Buckets(s, lo + 1, hi)
  }

  /**
   * What std::stable_sort with the comparison "key less than" yields when every
   * key lies in [0, top]: the elements ordered by key, equal keys kept in their
   * original relative order.
   */
  function StableSortByKey(s: seq<Keyed>, top: int): seq<Keyed> {
    Buckets(s, 0, top)
  }

  predicate KeysIn(s: seq<Keyed>, lo: int, hi: int) {
    forall e :: e in s ==> lo <= e.key <= hi
  }

  predicate SortedByKey(s: seq<Keyed>) {
    forall i, j :: 0 <= i < j < |s| ==> s[i].key <= s[j].key
  }

  lemma {:induction false} BucketsKeys(s: seq<Keyed>, lo: int, hi: int)
    ensures KeysIn(Buckets(s, lo, hi), lo, hi)
    decreases hi - lo
  {
    if lo <= hi {
      BucketsKeys(s, lo + 1, hi);
    }
  }

  lemma {:induction false} BucketsSorted(s: seq<Keyed>, lo: int, hi: int)
    ensures SortedByKey(Buckets(s, lo, hi))
    decreases hi - lo
  {
    if lo <= hi {
      BucketsSorted(s, lo + 1, hi);
      BucketsKeys(s, lo + 1, hi);
      var a, b := Filter(s, lo), Buckets(s, lo + 1, hi);
      var r := a + b;
      forall i, j | 0 <= i < j < |r| ensures r[i].key <= r[j].key {
        if j < |a| {
          assert r[i] in a && r[j] in a;
        } else if i < |a| {
          assert r[i] in a && r[j] == b[j - |a|] && r[j] in b;
        } else {
          assert r[i] == b[i - |a|] && r[j] == b[j - |a|];
        }
      }
    }
  }

  lemma {:induction false} FilterAppend(a: seq<Keyed>, b: seq<Keyed>, k: int)
    ensures Filter(a + b, k) == Filter(a, k) + Filter(b, k)
    decreases |b|
  {
    if b == [] {
      assert a + b == a;
    } else {
      var e := b[|b| - 1];
      assert (a + b)[..|a + b| - 1] == a + b[..|b| - 1];
      FilterAppend(a, b[..|b| - 1], k);
    }
  }

  lemma {:induction false} FilterFilter(s: seq<Keyed>, j: int, k: int)
    ensures Filter(Filter(s, j), k) == if j == k then Filter(s, j) else []
  {
    if s != [] {
      var e := s[|s| - 1];
      FilterFilter(s[..|s| - 1], j, k);
      FilterAppend(Filter(s[..|s| - 1], j), if e.key == j then [e] else [], k);
      if e.key == j {
        assert Filter([e], k) == Filter([], k) + (if e.key == k then [e] else []) by {
          assert [e][..0] == [];
        }
      }
    }
  }

  lemma {:induction false} FilterBuckets(s: seq<Keyed>, lo: int, hi: int, k: int)
    ensures Filter(Buckets(s, lo, hi), k) == if lo <= k <= hi then Filter(s, k) else []
    decreases hi - lo
  {
    if lo <= hi {
      FilterBuckets(s, lo + 1, hi, k);
      FilterAppend(Filter(s, lo), Buckets(s, lo + 1, hi), k);
      FilterFilter(s, lo, k);
    }
  }

  lemma {:induction false} BucketsSnoc(s: seq<Keyed>, e: Keyed, lo: int, hi: int)
    ensures multiset(Buckets(s + [e], lo, hi))
         == multiset(Buckets(s, lo, hi)) + (if lo <= e.key <= hi then multiset{e} else multiset{})
    decreases hi - lo
  {
    if lo <= hi {
      BucketsSnoc(s, e, lo + 1, hi);
      assert (s + [e])[..|s + [e]| - 1] == s;
    }
  }

  lemma {:induction false} BucketsPermutation(s: seq<Keyed>, top: int)
    requires KeysIn(s, 0, top)
    ensures multiset(Buckets(s, 0, top)) == multiset(s)
  {
    if s != [] {
      var init, e := s[..|s| - 1], s[|s| - 1];
      assert s == init + [e];
      assert e in s;
      forall x | x in init ensures 0 <= x.key <= top {
        assert x in s;
      }
      BucketsPermutation(init, top);
      BucketsSnoc(init, e, 0, top);
    } else {
      BucketsEmpty(0, top);
    }
  }

  lemma {:induction false} BucketsEmpty(lo: int, hi: int)
    ensures Buckets([], lo, hi) == []
    decreases hi - lo
  {
    if lo <= hi {
      BucketsEmpty(lo + 1, hi);
    }
  }

  /**
   * The stable sort is what std::stable_sort promises: a permutation of its
   * input, ordered by key, and for every key the elements carrying it appear in
   * the same relative order as in the input.
   */
  lemma StableSortCorrect(s: seq<Keyed>, top: int)
    requires KeysIn(s, 0, top)
    ensures multiset(StableSortByKey(s, top)) == multiset(s)
    ensures SortedByKey(StableSortByKey(s, top))
    ensures forall k :: Filter(StableSortByKey(s, top), k) == Filter(s, k)
  {
    BucketsPermutation(s, top);
    BucketsSorted(s, 0, top);
    forall k ensures Filter(StableSortByKey(s, top), k) == Filter(s, k) {
      FilterBuckets(s, 0, top, k);
      if !(0 <= k <= top) {
        FilterOutside(s, k, top);
      }
    }
  }

  lemma {:induction false} FilterOutside(s: seq<Keyed>, k: int, top: int)
    requires KeysIn(s, 0, top) && !(0 <= k <= top)
    ensures Filter(s, k) == []
  {
    if s != [] {
      assert s[|s| - 1] in s;
      forall x | x in s[..|s| - 1] ensures 0 <= x.key <= top {
        assert x in s;
      }
      FilterOutside(s[..|s| - 1], k, top);
    }
  }

  /**
   * One draw of the generator through uniform_int_distribution(0, bound - 1):
   * the head of the stream reduced into range. An exhausted stream yields 0.
   */
  function Draw(stream: seq<nat>, bound: nat): (d: nat)
    requires bound > 0
    ensures d < bound
  {
    if stream == [] then 0 else stream[0] % bound
  }

  function Advance(stream: seq<nat>): seq<nat> {
    if stream == [] then [] else stream[1..]
  }

  /**
   * std::random_shuffle: for i = 1 .. |s| - 1, swap element i with an element
   * at a drawn position in [0, i]. Returns the permutation and the rest of the stream.
   */
  method Shuffle<T>(s: seq<T>, stream: seq<nat>) returns (r: seq<T>, rest: seq<nat>)
    ensures multiset(r) == multiset(s)
    ensures |rest| <= |stream|
  {
    r, rest := s, stream;
    var i := 1;
    while i < |r|
      invariant multiset(r) == multiset(s) && |r| == |s|
      invariant |rest| <= |stream|
    {
      var j := Draw(rest, i + 1);
      rest := Advance(rest);
      r := r[i := r[j]][j := r[i]];
      i := i + 1;
    }
  }

  /** Whether no element of s occurs twice. */
  predicate Unique<T(==)>(s: seq<T>) {
    forall i, j :: 0 <= i < j < |s| ==> s[i] != s[j]
  }

  lemma {:induction false} OnceCounted<T>(s: seq<T>, x: T)
    requires Unique(s)
    ensures multiset(s)[x] <= 1
  {
    if s != [] {
      var p, e := s[..|s| - 1], s[|s| - 1];
      assert s == p + [e];
      OnceCounted(p, x);
      if e == x {
        assert forall k :: 0 <= k < |p| ==> p[k] != e;
        assert x !in p;
      }
    }
  }

  lemma TwiceCounted<T>(s: seq<T>, i: int, j: int)
    requires 0 <= i < j < |s| && s[i] == s[j]
    ensures multiset(s)[s[i]] >= 2
  {
    assert s == s[..j] + s[j..];
    assert s[i] in s[..j];
    assert s[j..][0] == s[i];
  }

  /** A permutation of a sequence without repetitions has none either. */
  lemma PermutationUnique<T>(a: seq<T>, b: seq<T>)
    requires multiset(a) == multiset(b) && Unique(a)
    ensures Unique(b)
  {
    forall i, j | 0 <= i < j < |b| ensures b[i] != b[j] {
      if b[i] == b[j] {
        TwiceCounted(b, i, j);
        OnceCounted(a, b[i]);
        assert false;
      }
    }
  }

  /**
   * The taxicab distance from c to the nearest cell of whites, or cap when
   * none is nearer (the source starts every distance at width + height, which
   * exceeds any distance on the board).
   */
  function NearestWhite(c: Coord, whites: seq<Coord>, cap: nat): (d: nat)
    ensures d <= cap
  {
    if whites == [] then cap
    else
      var d := NearestWhite(c, whites[..|whites| - 1], cap);
      var e := Manhattan(c, whites[|whites| - 1]);
      if e < d then e else d
  }

  /** The nearest distance is no more than any white cell's distance, and is the cap or some white cell's distance. */
  lemma {:induction false} NearestWhiteIsNearest(c: Coord, whites: seq<Coord>, cap: nat)
    ensures forall k :: 0 <= k < |whites| ==> NearestWhite(c, whites, cap) <= Manhattan(c, whites[k])
    ensures var d := NearestWhite(c, whites, cap);
      d == cap || exists k :: 0 <= k < |whites| && d == Manhattan(c, whites[k])
  {
    if whites != [] {
      var front := whites[..|whites| - 1];
      NearestWhiteIsNearest(c, front, cap);
      assert forall k :: 0 <= k < |front| ==> front[k] == whites[k];
      var d := NearestWhite(c, front, cap);
      if d != cap && Manhattan(c, whites[|whites| - 1]) >= d {
        var k :| 0 <= k < |front| && d == Manhattan(c, front[k]);
        assert whites[k] == front[k];
      }
    }
  }

  /** Looking at one more white cell takes the smaller of the distance so far and the distance to that cell. */
  lemma NearestStep(c: Coord, whites: seq<Coord>, k: int, cap: nat)
    requires 0 <= k < |whites|
    ensures var d, e := NearestWhite(c, whites[..k], cap), Manhattan(c, whites[k]);
      NearestWhite(c, whites[..k + 1], cap) == if e < d then e else d
  {
    assert whites[..k + 1][..k] == whites[..k];
  }

  /** guessing_order's loop over the white cells for one unknown cell c: the smallest distance, starting from cap. */
  method MinDistance(c: Coord, whites: seq<Coord>, cap: nat) returns (d: nat)
    ensures d == NearestWhite(c, whites, cap)
  {
    d := cap;
    var k := 0;
    while k < |whites|
      invariant 0 <= k <= |whites|
      invariant d == NearestWhite(c, whites[..k], cap)
    {
      var e := Abs(c.x - whites[k].x) + Abs(c.y - whites[k].y);
      NearestStep(c, whites, k, cap);
      if e < d {
        d := e;
      }
      k := k + 1;
    }
    assert whites[..k] == whites;
  }

  /** guessing_order's loop over the shuffled cells: each one's key becomes its distance to the nearest white cell. */
  method Distances(cs: seq<Keyed>, whites: seq<Coord>, cap: nat) returns (ds: seq<Keyed>)
    ensures |ds| == |cs|
    ensures forall i :: 0 <= i < |cs| ==> ds[i] == Keyed(cs[i].c, NearestWhite(cs[i].c, whites, cap))
  {
    ds := [];
    var i := 0;
    while i < |cs|
      invariant 0 <= i <= |cs| && |ds| == i
      invariant forall k :: 0 <= k < i ==> ds[k] == Keyed(cs[k].c, NearestWhite(cs[k].c, whites, cap))
    {
      var d := MinDistance(cs[i].c, whites, cap);
      ghost var ds0 := ds;
      ds := ds + [Keyed(cs[i].c, d)];
      assert forall k :: 0 <= k < i ==> ds[k] == ds0[k];
      i := i + 1;
    }
  }

  /** The cells of a keyed sequence, in order (the source's final transform). */
  function CellsOf(s: seq<Keyed>): (r: seq<Coord>)
    ensures |r| == |s| && forall i :: 0 <= i < |s| ==> r[i] == s[i].c
  {
    seq(|s|, i requires 0 <= i < |s| => s[i].c)
  }

  /** Permuting a keyed sequence permutes its cells: the same cells occur. */
  lemma CellsOfPermutation(a: seq<Keyed>, b: seq<Keyed>)
    requires multiset(a) == multiset(b)
    ensures forall c :: c in CellsOf(a) <==> c in CellsOf(b)
  {
    forall c | c in CellsOf(a) ensures c in CellsOf(b) {
      var i :| 0 <= i < |a| && a[i].c == c;
      assert a[i] in multiset(b);
      var j :| 0 <= j < |b| && b[j] == a[i];
      assert CellsOf(b)[j] == c;
    }
    forall c | c in CellsOf(b) ensures c in CellsOf(a) {
      var j :| 0 <= j < |b| && b[j].c == c;
      assert b[j] in multiset(a);
      var i :| 0 <= i < |a| && a[i] == b[j];
      assert CellsOf(a)[i] == c;
    }
  }

  /** Permuting a keyed sequence whose cells occur once each keeps its cells occurring once each. */
  lemma UniqueCellsPermutation(a: seq<Keyed>, b: seq<Keyed>)
    requires multiset(a) == multiset(b) && Unique(CellsOf(a))
    ensures Unique(CellsOf(b))
  {
    assert Unique(a) by {
      forall i, j | 0 <= i < j < |a| ensures a[i] != a[j] {
        assert CellsOf(a)[i] != CellsOf(a)[j];
      }
    }
    PermutationUnique(a, b);
    forall i, j | 0 <= i < j < |b| ensures b[i].c != b[j].c {
      assert b[i] in multiset(a) && b[j] in multiset(a);
      var p :| 0 <= p < |a| && a[p] == b[i];
      var q :| 0 <= q < |a| && a[q] == b[j];
      assert p != q;
      assert CellsOf(a)[p] == b[i].c && CellsOf(a)[q] == b[j].c;
    }
  }

  /** A stable sort of keys that are distances keeps every key the distance of its cell. */
  lemma SortedDistances(ds: seq<Keyed>, sorted: seq<Keyed>, whites: seq<Coord>, cap: nat)
    requires multiset(sorted) == multiset(ds) && SortedByKey(sorted)
    requires forall i :: 0 <= i < |ds| ==> ds[i].key == NearestWhite(ds[i].c, whites, cap)
    ensures forall i, j :: 0 <= i < j < |sorted| ==>
      NearestWhite(sorted[i].c, whites, cap) <= NearestWhite(sorted[j].c, whites, cap)
  {
    forall i | 0 <= i < |sorted| ensures sorted[i].key == NearestWhite(sorted[i].c, whites, cap) {
      assert sorted[i] in multiset(ds);
    }
  }

  /**
   * The order of guessing_order, given the unknown cells, the white cells and
   * the generator's stream: the unknown cells shuffled, then stably sorted by
   * distance to the nearest white cell. The result holds the same cells,
   * each once when they were given once, nearer ones first.
   */
  method OrderGuesses(unknowns: seq<Coord>, whites: seq<Coord>, cap: nat, stream: seq<nat>)
    returns (v: seq<Coord>, rest: seq<nat>)
    ensures |rest| <= |stream|
    ensures |v| == |unknowns| && forall c :: c in v <==> c in unknowns
    ensures Unique(unknowns) ==> Unique(v)
    ensures forall i, j :: 0 <= i < j < |v| ==> NearestWhite(v[i], whites, cap) <= NearestWhite(v[j], whites, cap)
  {
    var keyed := seq(|unknowns|, i requires 0 <= i < |unknowns| => Keyed(unknowns[i], cap));
    assert CellsOf(keyed) == unknowns;
    var shuffled;
    shuffled, rest := Shuffle(keyed, stream);
    var ds := Distances(shuffled, whites, cap);
    assert CellsOf(ds) == CellsOf(shuffled);
    assert KeysIn(ds, 0, cap);
    var sorted := StableSortByKey(ds, cap);
    StableSortCorrect(ds, cap);
    v := CellsOf(sorted);
    assert |sorted| == |multiset(sorted)| == |multiset(ds)| == |ds|;
    assert |keyed| == |multiset(keyed)| == |multiset(shuffled)| == |shuffled|;
    CellsOfPermutation(keyed, shuffled);
    CellsOfPermutation(ds, sorted);
    SortedDistances(ds, sorted, whites, cap);
    if Unique(unknowns) {
      UniqueCellsPermutation(keyed, shuffled);
      UniqueCellsPermutation(ds, sorted);
    }
  }
}
