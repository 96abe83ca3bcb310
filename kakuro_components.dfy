/**
 * The four-connected components of the non-clue cells of a Kakuro
 * placement, the quantity `check_connectivity` of src/kakuro/generator.rs
 * reports about them, and the facts about paths the search relies on.
 *
 * A placement is a `Grid<bool>` whose `true` cells hold clues. The
 * statements here are about its `Board`: the dimensions and the set of
 * clue cells.
 */
module KakuroComponents {
  import opened Common

  /** A placement seen as its size and its clue cells. */
  datatype Board = Board(height: int, width: int, clues: set<Coord>)

  predicate InBoard(b: Board, c: Coord) {
    0 <= c.y < b.height && 0 <= c.x < b.width
  }

  /** The board of a placement grid. */
  function BoardOf(g: Grid<bool>): (b: Board)
    requires g.Valid()
    ensures b.height == g.height && b.width == g.width
    ensures forall c :: c in b.clues <==> g.IsValidCoord(c) && g.Get(c)
  {
    Board(g.height, g.width, set c | c in Cells(g.height, g.width) && g.Get(c))
  }

  /**
   * The grid `g` holds the clues of `b`: stated cell by cell, for the
   * cells whose value the code reads.
   */
  ghost predicate Agrees(g: Grid<bool>, b: Board)
    requires g.Valid()
  {
    b.height == g.height && b.width == g.width
    && forall c {:trigger g.Get(c)} :: g.IsValidCoord(c) ==> (g.Get(c) <==> c in b.clues)
  }

  lemma AgreesBoardOf(g: Grid<bool>)
    requires g.Valid()
    ensures Agrees(g, BoardOf(g))
  {
  }

  /** The board with one more clue cell. */
  function AddClue(b: Board, c: Coord): Board {
    Board(b.height, b.width, b.clues + {c})
  }

  /** Making a cell of the grid a clue adds it to the board's clues. */
  lemma BoardOfSet(g: Grid<bool>, c: Coord)
    requires g.Valid() && g.IsValidCoord(c)
    ensures BoardOf(g.Set(c, true)) == AddClue(BoardOf(g), c)
  {
    forall d | g.IsValidCoord(d) ensures g.Set(c, true).Get(d) == (d == c || g.Get(d)) {
      GetSet(g, c, true, d);
    }
  }

  /** The cells of an `h` by `w` board. */
  function Cells(h: int, w: int): (r: set<Coord>)
    ensures forall c :: c in r <==> 0 <= c.y < h && 0 <= c.x < w
  {
    var r := set y, x | 0 <= y < h && 0 <= x < w :: Coord(y, x);
    assert forall c: Coord :: 0 <= c.y < h && 0 <= c.x < w ==> c == Coord(c.y, c.x) && c in r;
    r
  }

  /** A non-clue cell on the board. */
  predicate Free(b: Board, c: Coord)
  {
    InBoard(b, c) && c !in b.clues
  }

  /** Cells sharing a side. */
  predicate Adjacent(a: Coord, b: Coord) {
    (a.y == b.y && (a.x == b.x + 1 || b.x == a.x + 1)) || (a.x == b.x && (a.y == b.y + 1 || b.y == a.y + 1))
  }

  /** A walk through non-clue cells, each step to a side neighbour. */
  ghost predicate IsPath(b: Board, p: seq<Coord>)
  {
    |p| >= 1
    && (forall k :: 0 <= k < |p| ==> Free(b, p[k]))
    && (forall k :: 0 <= k < |p| - 1 ==> Adjacent(p[k], p[k + 1]))
  }

  /** `e` can be reached from `a` through non-clue cells. */
  ghost predicate Reach(b: Board, a: Coord, e: Coord)
  {
    exists p :: IsPath(b, p) && p[0] == a && p[|p| - 1] == e
  }

  /** The non-clue cells of the board. */
  function FreeCells(b: Board): (r: set<Coord>)
    ensures forall c :: c in r <==> Free(b, c)
  {
    set c | c in Cells(b.height, b.width) && Free(b, c)
  }

  /** The component of `a`: every cell reachable from it. */
  ghost function Comp(b: Board, a: Coord): (r: set<Coord>)
    ensures forall c :: c in r <==> Reach(b, a, c)
  {
    forall c | Reach(b, a, c) ensures c in Cells(b.height, b.width) {
      ReachEnds(b, a, c);
    }
    set c | c in Cells(b.height, b.width) && Reach(b, a, c)
  }

  /** The largest element of a set of sizes, 0 for none. */
  ghost function Max(s: set<nat>): (m: nat)
    ensures forall x :: x in s ==> x <= m
    ensures s != {} ==> m in s
  {
    if s == {} then 0
    else
      var x :| x in s;
      var m := Max(s - {x});
      assert forall y :: y in s ==> y == x || y in s - {x};
      if x < m then m else x
  }

  /** The sizes of the components. */
  ghost function Sizes(b: Board): set<nat>
  {
    set c | c in FreeCells(b) :: |Comp(b, c)|
  }

  /** The size of the largest component, 0 when every cell holds a clue. */
  ghost function LargestComponent(b: Board): nat
  {
    Max(Sizes(b))
  }

  /**
   * What `check_connectivity` reports: the non-clue cells outside the
   * largest component.
   */
  ghost function Disconnection(b: Board): int
  {
    |FreeCells(b)| - LargestComponent(b)
  }

  /** Every non-clue cell reaches every other. */
  ghost predicate Connected(b: Board)
  {
    forall a, e :: Free(b, a) && Free(b, e) ==> Reach(b, a, e)
  }

  // ---- paths ----

  lemma ReachSelf(b: Board, a: Coord)
    requires Free(b, a)
    ensures Reach(b, a, a)
  {
    assert IsPath(b, [a]);
  }

  lemma ReachEnds(b: Board, a: Coord, e: Coord)
    requires Reach(b, a, e)
    ensures Free(b, a) && Free(b, e)
  {
    var p :| IsPath(b, p) && p[0] == a && p[|p| - 1] == e;
  }

  /** A reached cell extends to its free side neighbours. */
  lemma ReachStep(b: Board, a: Coord, e: Coord, c: Coord)
    requires Reach(b, a, e) && Adjacent(e, c) && Free(b, c)
    ensures Reach(b, a, c)
  {
    var p :| IsPath(b, p) && p[0] == a && p[|p| - 1] == e;
    var q := p + [c];
    assert forall k :: 0 <= k < |p| ==> q[k] == p[k];
    assert IsPath(b, q);
  }

  lemma ReachTrans(b: Board, a: Coord, e: Coord, c: Coord)
    requires Reach(b, a, e) && Reach(b, e, c)
    ensures Reach(b, a, c)
  {
    var p :| IsPath(b, p) && p[0] == a && p[|p| - 1] == e;
    var q :| IsPath(b, q) && q[0] == e && q[|q| - 1] == c;
    var r := p + q[1..];
    assert forall k :: 0 <= k < |p| ==> r[k] == p[k];
    assert forall k :: |p| <= k < |r| ==> r[k] == q[k - |p| + 1];
    assert IsPath(b, r);
  }

  lemma ReachSym(b: Board, a: Coord, e: Coord)
    requires Reach(b, a, e)
    ensures Reach(b, e, a)
  {
    var p :| IsPath(b, p) && p[0] == a && p[|p| - 1] == e;
    var r := seq(|p|, k requires 0 <= k < |p| => p[|p| - 1 - k]);
    forall k | 0 <= k < |r| ensures Free(b, r[k]) {
      assert r[k] == p[|p| - 1 - k];
    }
    forall k | 0 <= k < |r| - 1 ensures Adjacent(r[k], r[k + 1]) {
      var j := |p| - 2 - k;
      assert Adjacent(p[j], p[j + 1]) && r[k] == p[j + 1] && r[k + 1] == p[j];
    }
    assert IsPath(b, r);
  }

  /** From a non-clue cell, one step to a free side neighbour. */
  lemma ReachNeighbour(b: Board, a: Coord, e: Coord)
    requires Free(b, a) && Free(b, e) && Adjacent(a, e)
    ensures Reach(b, a, e)
  {
    ReachSelf(b, a);
    ReachStep(b, a, a, e);
  }

  // ---- sets of visited cells ----

  /** The cells of `s` outside `a` have all their free side neighbours in `c`. */
  ghost predicate NbrsIn(b: Board, a: set<Coord>, s: set<Coord>, c: set<Coord>)
  {
    forall u, d {:trigger Adjacent(u, d), u in s} :: u in s && u !in a && Adjacent(u, d) && Free(b, d) ==> d in c
  }

  /** No free cell is next to `w` without being in it. */
  ghost predicate Closed(b: Board, w: set<Coord>)
  {
    NbrsIn(b, {}, w, w)
  }

  /** The cells of `s` outside `a` can all be reached from `u`. */
  ghost predicate ReachNew(b: Board, u: Coord, a: set<Coord>, s: set<Coord>)
  {
    forall c :: c in s && c !in a ==> Reach(b, u, c)
  }

  /** A closed set holds everything reachable from its cells. */
  lemma ClosedReach(b: Board, w: set<Coord>, a: Coord, e: Coord)
    requires Closed(b, w) && a in w && Reach(b, a, e)
    ensures e in w
  {
    var p :| IsPath(b, p) && p[0] == a && p[|p| - 1] == e;
    var k := 0;
    while k < |p| - 1
      invariant 0 <= k < |p| && p[k] in w
    {
      assert Adjacent(p[k], p[k + 1]) && Free(b, p[k + 1]);
      k := k + 1;
    }
  }

  /** Cells reaching each other have the same component. */
  lemma CompSame(b: Board, a: Coord, e: Coord)
    requires Reach(b, a, e)
    ensures Comp(b, a) == Comp(b, e)
  {
    ReachSym(b, a, e);
    forall c | Reach(b, e, c) ensures Reach(b, a, c) {
      ReachTrans(b, a, e, c);
    }
    forall c | Reach(b, a, c) ensures Reach(b, e, c) {
      ReachTrans(b, e, a, c);
    }
  }

  /** A component lies among the free cells. */
  lemma CompFree(b: Board, a: Coord)
    ensures Comp(b, a) <= FreeCells(b) && |Comp(b, a)| <= |FreeCells(b)|
  {
    forall c | c in Comp(b, a) ensures c in FreeCells(b) {
      ReachEnds(b, a, c);
    }
    SubsetCard(Comp(b, a), FreeCells(b));
  }

  /**
   * The cells a search adds from a free start `s` outside the closed set
   * `v`, when it leaves a closed set `v'` and adds only cells `s` reaches,
   * are exactly the component of `s`.
   */
  lemma SearchFindsComp(b: Board, s: Coord, v: set<Coord>, v': set<Coord>)
    requires Free(b, s) && s !in v && s in v' && v <= v'
    requires Closed(b, v) && ReachNew(b, s, v, v') && NbrsIn(b, v, v', v')
    ensures v' == v + Comp(b, s) && v !! Comp(b, s)
    ensures |v'| == |v| + |Comp(b, s)|
  {
    assert Closed(b, v');
    forall c | Reach(b, s, c) ensures c in v' && c !in v {
      ClosedReach(b, v', s, c);
      if c in v {
        ReachSym(b, s, c);
        ClosedReach(b, v, c, s);
      }
    }
    assert v' == v + Comp(b, s);
    assert v * Comp(b, s) == {};
  }

  // ---- the depth-first search ----

  /**
   * Part way through the search from `u`, begun on the visited set `w0`:
   * `u` and every cell added since can be reached from `u`, the cells
   * added after `u` have their free neighbours visited, and so have the
   * neighbours `nb` of `u` searched so far.
   */
  ghost predicate Partial(b: Board, u: Coord, w0: set<Coord>, w: set<Coord>, nb: set<Coord>, cnt: int)
  {
    u in w && w0 <= w <= FreeCells(b) && ReachNew(b, u, w0, w) && NbrsIn(b, w0 + {u}, w, w)
    && (forall d :: d in nb && Free(b, d) ==> d in w)
    && cnt == |w| - |w0|
  }

  /**
   * What a search from `u` begun on the visited set `w0` leaves: `w`
   * grows the visited set within the free cells by `ret` cells that
   * `u` reaches, each with its free neighbours visited, and `u` itself
   * when it is free.
   */
  ghost predicate DfsPost(b: Board, u: Coord, w0: set<Coord>, w: set<Coord>, ret: int)
  {
    w0 <= w <= FreeCells(b) && ret == |w| - |w0|
    && ReachNew(b, u, w0, w) && NbrsIn(b, w0, w, w)
    && (Free(b, u) ==> u in w)
  }

  /** A search that finds its start visited, or a clue, adds nothing. */
  lemma DfsNothing(b: Board, u: Coord, w0: set<Coord>)
    requires w0 <= FreeCells(b) && (u in w0 || !Free(b, u))
    ensures DfsPost(b, u, w0, w0, 0)
  {
  }

  /** Marking `u` starts the search. */
  lemma DfsStart(b: Board, u: Coord, w0: set<Coord>)
    requires Free(b, u) && u !in w0 && w0 <= FreeCells(b)
    ensures Partial(b, u, w0, w0 + {u}, {}, 1)
  {
    ReachSelf(b, u);
  }

  /** The search from a neighbour `n` of `u` keeps the search from `u` on track. */
  lemma DfsExtend(b: Board, u: Coord, n: Coord, w0: set<Coord>, w: set<Coord>, w': set<Coord>, nb: set<Coord>,
                  cnt: int, r: int)
    requires Free(b, u) && Adjacent(u, n) && Partial(b, u, w0, w, nb, cnt)
    requires DfsPost(b, n, w, w', r)
    ensures Partial(b, u, w0, w', nb + {n}, cnt + r)
  {
    forall c | c in w' && c !in w0 ensures Reach(b, u, c) {
      if c !in w {
        ReachEnds(b, n, c);
        ReachNeighbour(b, u, n);
        ReachTrans(b, u, n, c);
      }
    }
  }

  /** Once every neighbour of `u` is searched, the added cells have their free neighbours visited. */
  lemma DfsFinish(b: Board, u: Coord, w0: set<Coord>, w: set<Coord>, nb: set<Coord>, cnt: int)
    requires Free(b, u) && Partial(b, u, w0, w, nb, cnt)
    requires u.y > 0 ==> Coord(u.y - 1, u.x) in nb
    requires u.x > 0 ==> Coord(u.y, u.x - 1) in nb
    requires u.y + 1 < b.height ==> Coord(u.y + 1, u.x) in nb
    requires u.x + 1 < b.width ==> Coord(u.y, u.x + 1) in nb
    ensures DfsPost(b, u, w0, w, cnt)
  {
    forall c, d | c in w && c !in w0 && Adjacent(c, d) && Free(b, d) ensures d in w {
      if c == u {
        assert d in nb;
      }
    }
  }

  // ---- the scan over the board ----

  /** `c` comes before `(y, x)` in row-major order. */
  predicate Before(c: Coord, y: int, x: int) {
    c.y < y || (c.y == y && c.x < x)
  }

  /**
   * The state of `check_connectivity` before cell `(y, x)`: the visited
   * cells are whole components covering every free cell scanned so far,
   * `sum` counts them, and `largest` is the size of the largest, found at
   * `best`.
   */
  ghost predicate ScanInv(b: Board, v: set<Coord>, y: int, x: int, sum: int, largest: int, best: Coord)
  {
    v <= FreeCells(b) && Closed(b, v)
    && (forall c :: Free(b, c) && Before(c, y, x) ==> c in v)
    && sum == |v|
    && (forall c :: c in v ==> |Comp(b, c)| <= largest)
    && (v == {} ==> largest == 0)
    && (v != {} ==> best in v && |Comp(b, best)| == largest)
  }

  lemma ScanStart(b: Board)
    ensures ScanInv(b, {}, 0, 0, 0, 0, Coord(0, 0))
  {
  }

  /** A search from an unvisited free cell adds its component. */
  lemma ScanFound(b: Board, v: set<Coord>, v': set<Coord>, y: int, x: int, sum: int, largest: int, best: Coord)
    requires ScanInv(b, v, y, x, sum, largest, best)
    requires Free(b, Coord(y, x)) && Coord(y, x) !in v && Coord(y, x) in v' && v <= v' <= FreeCells(b)
    requires ReachNew(b, Coord(y, x), v, v') && NbrsIn(b, v, v', v')
    ensures |v'| - |v| == |Comp(b, Coord(y, x))|
    ensures var sz := |v'| - |v|;
      ScanInv(b, v', y, x + 1, sum + sz, if largest < sz then sz else largest, if largest < sz then Coord(y, x) else best)
  {
    var s := Coord(y, x);
    SearchFindsComp(b, s, v, v');
    assert Closed(b, v');
    var sz := |v'| - |v|;
    var l := if largest < sz then sz else largest;
    forall c | c in v' ensures |Comp(b, c)| <= l {
      if c !in v {
        CompSame(b, s, c);
      }
    }
    forall c | Free(b, c) && Before(c, y, x + 1) ensures c in v' {
      if !Before(c, y, x) {
        assert c == s;
      }
    }
    if largest >= sz {
      assert v != {};
    }
  }

  /** A clue cell, or one already visited, changes nothing. */
  lemma ScanSkip(b: Board, v: set<Coord>, y: int, x: int, sum: int, largest: int, best: Coord)
    requires ScanInv(b, v, y, x, sum, largest, best)
    requires InBoard(b, Coord(y, x)) && (Coord(y, x) in b.clues || Coord(y, x) in v)
    ensures ScanInv(b, v, y, x + 1, sum, largest, best)
  {
    assert forall c :: Before(c, y, x + 1) ==> Before(c, y, x) || c == Coord(y, x);
  }

  lemma ScanNextRow(b: Board, v: set<Coord>, y: int, sum: int, largest: int, best: Coord)
    requires ScanInv(b, v, y, b.width, sum, largest, best)
    ensures ScanInv(b, v, y + 1, 0, sum, largest, best)
  {
  }

  /** After the last row every component is visited, so the counts give `Disconnection`. */
  lemma ScanDone(b: Board, v: set<Coord>, sum: int, largest: int, best: Coord)
    requires ScanInv(b, v, b.height, 0, sum, largest, best)
    ensures sum - largest == Disconnection(b)
  {
    assert v == FreeCells(b);
    if v == {} {
      SizesEmpty(b);
    } else {
      LargestIs(b, best);
    }
  }

  // ---- the disconnectivity score ----

  /** The cells `(y, 0) .. (y, x - 1)`, each in turn made a clue, summed by `Disconnection`. */
  ghost function RowScore(b: Board, y: int, x: int): int
    requires 0 <= y < b.height && 0 <= x <= b.width
  {
    if x == 0 then 0
    else
      RowScore(b, y, x - 1)
      + (if Free(b, Coord(y, x - 1)) then Disconnection(AddClue(b, Coord(y, x - 1))) else 0)
  }

  /** The rows above `y`, summed by `RowScore`. */
  ghost function RowsScore(b: Board, y: int): int
    requires 0 <= y <= b.height && b.width >= 0
  {
    if y == 0 then 0 else RowsScore(b, y - 1) + RowScore(b, y - 1, b.width)
  }

  /** What `disconnectivity_score` computes. */
  ghost function Score(b: Board): int
    requires b.height >= 0 && b.width >= 0
  {
    RowsScore(b, b.height)
  }

  /** No free cell of the board whose removal disconnects the others comes before `(y, x)`. */
  ghost predicate NoCutBefore(b: Board, y: int, x: int)
  {
    forall c :: Before(c, y, x) ==> NoCut(b, c)
  }

  /** Cell `c`, if free, can be made a clue without disconnecting the other free cells. */
  ghost predicate NoCut(b: Board, c: Coord)
  {
    Free(b, c) ==> Connected(AddClue(b, c))
  }

  lemma {:induction false} RowScoreZero(b: Board, y: int, x: int)
    requires 0 <= y < b.height && 0 <= x <= b.width
    ensures RowScore(b, y, x) >= 0
    ensures RowScore(b, y, x) == 0 <==> forall c: Coord :: c.y == y && c.x < x ==> NoCut(b, c)
  {
    if x > 0 {
      var c := Coord(y, x - 1);
      RowScoreZero(b, y, x - 1);
      if Free(b, c) {
        DisconnectionBounds(AddClue(b, c));
        DisconnectionZero(AddClue(b, c));
      }
      var t := if Free(b, c) then Disconnection(AddClue(b, c)) else 0;
      assert t >= 0 && (t == 0 <==> NoCut(b, c));
      assert forall d: Coord :: d.y == y && d.x < x ==> d.x < x - 1 || d == c;
    }
  }

  lemma {:induction false} RowsScoreZero(b: Board, y: int)
    requires 0 <= y <= b.height && b.width >= 0
    ensures RowsScore(b, y) >= 0
    ensures RowsScore(b, y) == 0 <==> NoCutBefore(b, y, 0)
  {
    if y > 0 {
      RowsScoreZero(b, y - 1);
      RowScoreZero(b, y - 1, b.width);
    }
  }

  /**
   * The score is never negative, and it is 0 exactly when turning any
   * single non-clue cell into a clue leaves the other non-clue cells
   * connected.
   */
  lemma ScoreZero(b: Board)
    requires b.height >= 0 && b.width >= 0
    ensures Score(b) >= 0
    ensures Score(b) == 0 <==> forall c :: Free(b, c) ==> Connected(AddClue(b, c))
  {
    RowsScoreZero(b, b.height);
    assert forall c :: Free(b, c) ==> Before(c, b.height, 0);
  }

  // ---- the largest component ----

  lemma SizesEmpty(b: Board)
    requires FreeCells(b) == {}
    ensures LargestComponent(b) == 0
  {
    assert Sizes(b) == {};
  }

  /** The largest component is the size of some component and of none smaller. */
  lemma LargestIs(b: Board, best: Coord)
    requires Free(b, best)
    requires forall c :: Free(b, c) ==> |Comp(b, c)| <= |Comp(b, best)|
    ensures LargestComponent(b) == |Comp(b, best)|
  {
    forall x | x in Sizes(b) ensures x <= |Comp(b, best)| {
      var c :| c in FreeCells(b) && x == |Comp(b, c)|;
    }
    assert |Comp(b, best)| in Sizes(b);
  }

  /** Some free cell has a component of the largest size, and none is larger. */
  lemma LargestBounds(b: Board)
    ensures forall c :: Free(b, c) ==> |Comp(b, c)| <= LargestComponent(b)
    ensures FreeCells(b) != {} ==> exists c :: Free(b, c) && |Comp(b, c)| == LargestComponent(b)
    ensures LargestComponent(b) <= |FreeCells(b)|
  {
    forall c | Free(b, c) ensures |Comp(b, c)| in Sizes(b) {
    }
    if FreeCells(b) == {} {
      SizesEmpty(b);
    } else {
      var c :| c in FreeCells(b) && |Comp(b, c)| == LargestComponent(b);
      CompFree(b, c);
    }
  }

  lemma SubsetSameCard<T>(a: set<T>, b: set<T>)
    requires a <= b && |a| == |b|
    ensures a == b
  {
    if a != b {
      var x :| x in b && x !in a;
      SubsetCard(a, b - {x});
    }
  }

  /** `check_connectivity` reports a count between 0 and the number of free cells. */
  lemma DisconnectionBounds(b: Board)
    ensures 0 <= Disconnection(b) <= |FreeCells(b)|
  {
    LargestBounds(b);
  }

  /** The count is 0 exactly when the non-clue cells are connected. */
  lemma DisconnectionZero(b: Board)
    ensures Disconnection(b) == 0 <==> Connected(b)
  {
    LargestBounds(b);
    if FreeCells(b) == {} {
      assert Connected(b);
    } else {
      if Connected(b) {
        var a :| a in FreeCells(b);
        assert Comp(b, a) == FreeCells(b);
      }
      if Disconnection(b) == 0 {
        var a :| Free(b, a) && |Comp(b, a)| == LargestComponent(b);
        CompFree(b, a);
        SubsetSameCard(Comp(b, a), FreeCells(b));
        forall e, c | Free(b, e) && Free(b, c) ensures Reach(b, e, c) {
          assert e in Comp(b, a) && c in Comp(b, a);
          ReachSym(b, a, e);
          ReachTrans(b, e, a, c);
        }
      }
    }
  }
}
