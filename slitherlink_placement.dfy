/**
 * src/slitherlink/generator.rs, `generate_placement` and `update_grp`:
 * the board is cut into the orbits of the chosen symmetries, and whole
 * orbits are marked until enough clue cells are placed, so the placement
 * is symmetric.
 *
 * The weights of the orbits (`powf` of a neighbourhood score) and the
 * random draw among them are the parameter `choose`.
 */
module SlitherlinkPlacement {
  import opened Common
  import opened DecidedGrid

  /** `Symmetry`: half-turn, quarter-turn, and the two mirror lines. */
  datatype Symmetry = Symmetry(dyad: bool, tetrad: bool, horizontal: bool, vertical: bool)

  /** A quarter turn needs a square board and brings a half turn with it. */
  predicate Normalised(s: Symmetry, height: int, width: int) {
    s.tetrad ==> s.dyad && height == width
  }

  /** The normalisation at src/slitherlink/generator.rs:228-229. */
  function Normalise(s: Symmetry, height: int, width: int): (r: Symmetry)
    ensures Normalised(r, height, width)
    ensures r.horizontal == s.horizontal && r.vertical == s.vertical
  {
    var dyad := s.dyad || s.tetrad;
    s.(dyad := dyad, tetrad := s.tetrad && height == width)
  }

  /**
   * Normalising keeps a normalised symmetry as it is, so it is
   * idempotent; it only adds the half turn implied by a quarter turn and
   * drops a quarter turn the board cannot have.
   */
  lemma NormaliseProjects(s: Symmetry, height: int, width: int)
    ensures Normalised(s, height, width) ==> Normalise(s, height, width) == s
    ensures Normalise(Normalise(s, height, width), height, width) == Normalise(s, height, width)
    ensures Normalise(s, height, width).dyad <==> s.dyad || s.tetrad
    ensures Normalise(s, height, width).tetrad <==> s.tetrad && height == width
  {
  }

  // ---------------------------------------------------------------
  // Moves and orbits
  // ---------------------------------------------------------------

  /**
   * The cells `update_grp` visits from `c`: its quarter turn, or else its
   * half turn, then its mirror images in the two lines.
   */
  function Moves(s: Symmetry, height: int, width: int, c: Coord): seq<Coord> {
    (if s.tetrad then [Coord(height - 1 - c.x, c.y)]
     else if s.dyad then [Coord(height - 1 - c.y, width - 1 - c.x)]
     else [])
    + (if s.horizontal then [Coord(height - 1 - c.y, c.x)] else [])
    + (if s.vertical then [Coord(c.y, width - 1 - c.x)] else [])
  }

  /** The moves, one by one: each enabled move is among them, and nothing else is. */
  lemma MovesAre(s: Symmetry, height: int, width: int, c: Coord)
    ensures s.tetrad ==> Coord(height - 1 - c.x, c.y) in Moves(s, height, width, c)
    ensures !s.tetrad && s.dyad ==> Coord(height - 1 - c.y, width - 1 - c.x) in Moves(s, height, width, c)
    ensures s.horizontal ==> Coord(height - 1 - c.y, c.x) in Moves(s, height, width, c)
    ensures s.vertical ==> Coord(c.y, width - 1 - c.x) in Moves(s, height, width, c)
    ensures forall m :: m in Moves(s, height, width, c) ==>
      || (s.tetrad && m == Coord(height - 1 - c.x, c.y))
      || (!s.tetrad && s.dyad && m == Coord(height - 1 - c.y, width - 1 - c.x))
      || (s.horizontal && m == Coord(height - 1 - c.y, c.x))
      || (s.vertical && m == Coord(c.y, width - 1 - c.x))
  {
  }

  /** A set that holds every enabled move holds all of them. */
  lemma MovesDone(s: Symmetry, height: int, width: int, c: Coord, done: set<Coord>)
    requires s.tetrad ==> Coord(height - 1 - c.x, c.y) in done
    requires !s.tetrad && s.dyad ==> Coord(height - 1 - c.y, width - 1 - c.x) in done
    requires s.horizontal ==> Coord(height - 1 - c.y, c.x) in done
    requires s.vertical ==> Coord(c.y, width - 1 - c.x) in done
    ensures forall m :: m in Moves(s, height, width, c) ==> m in done
  {
    MovesAre(s, height, width, c);
  }

  predicate InBoard(height: int, width: int, c: Coord) {
    0 <= c.y < height && 0 <= c.x < width
  }

  /** Under a normalised symmetry every move stays on the board. */
  lemma MovesInBoard(s: Symmetry, height: int, width: int, c: Coord)
    requires Normalised(s, height, width) && InBoard(height, width, c)
    ensures forall m :: m in Moves(s, height, width, c) ==> InBoard(height, width, m)
  {
  }

  /** Each step of `p` is a move. */
  ghost predicate Path(s: Symmetry, height: int, width: int, p: seq<Coord>) {
    forall i :: 0 <= i < |p| - 1 ==> p[i + 1] in Moves(s, height, width, p[i])
  }

  /** `a` is in the orbit of `c`: some path of moves leads from `c` to `a`. */
  ghost predicate Reachable(s: Symmetry, height: int, width: int, c: Coord, a: Coord) {
    exists p :: |p| >= 1 && p[0] == c && p[|p| - 1] == a && Path(s, height, width, p)
  }

  lemma ReachRefl(s: Symmetry, height: int, width: int, c: Coord)
    ensures Reachable(s, height, width, c, c)
  {
    assert Path(s, height, width, [c]);
  }

  lemma ReachMove(s: Symmetry, height: int, width: int, c: Coord, m: Coord)
    requires m in Moves(s, height, width, c)
    ensures Reachable(s, height, width, c, m)
  {
    assert Path(s, height, width, [c, m]);
  }

  lemma ReachTrans(s: Symmetry, height: int, width: int, a: Coord, b: Coord, c: Coord)
    requires Reachable(s, height, width, a, b) && Reachable(s, height, width, b, c)
    ensures Reachable(s, height, width, a, c)
  {
    var p :| |p| >= 1 && p[0] == a && p[|p| - 1] == b && Path(s, height, width, p);
    var q :| |q| >= 1 && q[0] == b && q[|q| - 1] == c && Path(s, height, width, q);
    var r := p + q[1..];
    assert Path(s, height, width, r) by {
      forall i | 0 <= i < |r| - 1
        ensures r[i + 1] in Moves(s, height, width, r[i])
      {
        if i < |p| - 1 {
        } else {
          assert r[i] == q[i - |p| + 1] && r[i + 1] == q[i - |p| + 2];
        }
      }
    }
  }

  /** A set of cells closed under the moves contains the orbit of each of its cells. */
  lemma {:induction false} ReachInClosed(s: Symmetry, height: int, width: int, S: set<Coord>, p: seq<Coord>)
    requires forall a, m :: a in S && m in Moves(s, height, width, a) ==> m in S
    requires |p| >= 1 && p[0] in S && Path(s, height, width, p)
    ensures p[|p| - 1] in S
  {
    if |p| > 1 {
      var q := p[..|p| - 1];
      assert Path(s, height, width, q) by {
        forall i | 0 <= i < |q| - 1
          ensures q[i + 1] in Moves(s, height, width, q[i])
        {
          assert q[i] == p[i] && q[i + 1] == p[i + 1];
        }
      }
      ReachInClosed(s, height, width, S, q);
      assert p[|p| - 1] in Moves(s, height, width, p[|p| - 2]);
    }
  }

  /** Every cell of the orbit of a cell of the board is on the board. */
  lemma {:induction false} PathInBoard(s: Symmetry, height: int, width: int, p: seq<Coord>)
    requires Normalised(s, height, width) && |p| >= 1 && InBoard(height, width, p[0]) && Path(s, height, width, p)
    ensures InBoard(height, width, p[|p| - 1])
  {
    var S := set y: int, x: int | 0 <= y < height && 0 <= x < width :: Coord(y, x);
    forall a, m | a in S && m in Moves(s, height, width, a)
      ensures m in S
    {
      MovesInBoard(s, height, width, a);
    }
    assert p[0] == Coord(p[0].y, p[0].x);
    ReachInClosed(s, height, width, S, p);
  }

  /** The marked cells of `g` are closed under the moves. */
  ghost predicate MarkedClosed(s: Symmetry, g: Grid<bool>)
    requires g.Valid()
  {
    forall a, m :: g.IsValidCoord(a) && g.Get(a) && m in Moves(s, g.height, g.width, a) ==> g.IsValidCoord(m) && g.Get(m)
  }

  /**
   * Every move can be undone by moves (a quarter turn by three more, the
   * others by themselves), so in a closed marking the cell a move comes
   * from is marked whenever the cell it leads to is.
   */
  lemma InverseMarked(s: Symmetry, g: Grid<bool>, a: Coord, m: Coord)
    requires g.Valid() && Normalised(s, g.height, g.width) && MarkedClosed(s, g)
    requires g.IsValidCoord(a) && m in Moves(s, g.height, g.width, a) && g.IsValidCoord(m) && g.Get(m)
    ensures g.Get(a)
  {
    var h, w := g.height, g.width;
    if s.tetrad && m == Coord(h - 1 - a.x, a.y) {
      var m2 := Coord(h - 1 - m.x, m.y);
      var m3 := Coord(h - 1 - m2.x, m2.y);
      assert m2 in Moves(s, h, w, m) && m3 in Moves(s, h, w, m2) && a in Moves(s, h, w, m3);
    } else if !s.tetrad && s.dyad && m == Coord(h - 1 - a.y, w - 1 - a.x) {
      assert a in Moves(s, h, w, m);
    } else if s.horizontal && m == Coord(h - 1 - a.y, a.x) {
      assert a in Moves(s, h, w, m);
    } else {
      assert a in Moves(s, h, w, m);
    }
  }

  // ---------------------------------------------------------------
  // update_grp
  // ---------------------------------------------------------------

  /** The cells of `added` were unmarked in `g0` and are marked in `g1`. */
  ghost predicate Fresh(g0: Grid<bool>, g1: Grid<bool>, added: seq<Coord>)
    requires g0.Valid() && g1.Valid() && g1.height == g0.height && g1.width == g0.width
  {
    forall a :: a in added ==> g0.IsValidCoord(a) && !g0.Get(a) && g1.Get(a)
  }

  /** Every cell marked in `g1` but not in `g0` is in `added`. */
  ghost predicate Covers(g0: Grid<bool>, g1: Grid<bool>, added: seq<Coord>)
    requires g0.Valid() && g1.Valid() && g1.height == g0.height && g1.width == g0.width
  {
    forall p :: g0.IsValidCoord(p) && g1.Get(p) && !g0.Get(p) ==> p in added
  }

  /** The moves of each cell of `added` outside `open` are marked in `g`. */
  ghost predicate MovesMarked(s: Symmetry, g: Grid<bool>, added: seq<Coord>, open: set<Coord>)
    requires g.Valid()
  {
    forall a, m :: a in added && a !in open && m in Moves(s, g.height, g.width, a) ==> g.IsValidCoord(m) && g.Get(m)
  }

  /** Every cell of `added` is in the orbit of `root`. */
  ghost predicate InOrbit(s: Symmetry, height: int, width: int, root: Coord, added: seq<Coord>) {
    forall a :: a in added ==> Reachable(s, height, width, root, a)
  }

  /**
   * From `g0` to `g1` only cells were marked, and `added` lists the
   * marked ones once each: cells that were unmarked, in the orbit of
   * `root`, whose moves are marked unless they are in `open`.
   */
  ghost predicate Grew(s: Symmetry, g0: Grid<bool>, g1: Grid<bool>, added: seq<Coord>, root: Coord, open: set<Coord>)
    requires g0.Valid()
  {
    && Settled(g0, g1, false) && g1.Valid()
    && Fresh(g0, g1, added) && Distinct(added) && Covers(g0, g1, added)
    && MovesMarked(s, g1, added, open) && InOrbit(s, g0.height, g0.width, root, added)
  }

  lemma FreshTrans(g0: Grid<bool>, g1: Grid<bool>, g2: Grid<bool>, a: seq<Coord>, b: seq<Coord>)
    requires g0.Valid() && Settled(g0, g1, false) && Settled(g1, g2, false) && g1.Valid() && g2.Valid()
    requires Fresh(g0, g1, a) && Fresh(g1, g2, b)
    ensures Fresh(g0, g2, a + b)
    ensures forall x :: x in a ==> x !in b
  {
    forall x | x in a + b
      ensures g0.IsValidCoord(x) && !g0.Get(x) && g2.Get(x)
    {
      if x in a {
        SettledAt(g1, g2, false, x);
      } else if g0.Get(x) {
        SettledAt(g0, g1, false, x);
      }
    }
  }

  lemma DistinctAppend(a: seq<Coord>, b: seq<Coord>)
    requires Distinct(a) && Distinct(b) && forall x :: x in a ==> x !in b
    ensures Distinct(a + b)
  {
    forall i, j | 0 <= i < j < |a + b|
      ensures (a + b)[i] != (a + b)[j]
    {
      if i < |a| && j >= |a| {
        assert (a + b)[i] in a && (a + b)[j] in b;
      }
    }
  }

  lemma CoversTrans(g0: Grid<bool>, g1: Grid<bool>, g2: Grid<bool>, a: seq<Coord>, b: seq<Coord>)
    requires g0.Valid() && Settled(g0, g1, false) && Settled(g1, g2, false) && g1.Valid() && g2.Valid()
    requires Covers(g0, g1, a) && Covers(g1, g2, b)
    ensures Covers(g0, g2, a + b)
  {
  }

  lemma MarkedTrans(s: Symmetry, g1: Grid<bool>, g2: Grid<bool>, a: seq<Coord>, b: seq<Coord>, open: set<Coord>)
    requires g1.Valid() && Settled(g1, g2, false) && g2.Valid()
    requires MovesMarked(s, g1, a, open) && MovesMarked(s, g2, b, {})
    ensures MovesMarked(s, g2, a + b, open)
  {
    forall x, m | x in a + b && x !in open && m in Moves(s, g2.height, g2.width, x)
      ensures g2.IsValidCoord(m) && g2.Get(m)
    {
      if x in a {
        SettledAt(g1, g2, false, m);
      }
    }
  }

  lemma OrbitTrans(s: Symmetry, height: int, width: int, root: Coord, root2: Coord, a: seq<Coord>, b: seq<Coord>)
    requires InOrbit(s, height, width, root, a) && InOrbit(s, height, width, root2, b)
    requires Reachable(s, height, width, root, root2)
    ensures InOrbit(s, height, width, root, a + b)
  {
    forall x | x in a + b
      ensures Reachable(s, height, width, root, x)
    {
      if x in b {
        ReachTrans(s, height, width, root, root2, x);
      }
    }
  }

  /** Two growths in a row, the second from a cell of the first's orbit, make one growth. */
  lemma GrewTrans(s: Symmetry, g0: Grid<bool>, g1: Grid<bool>, g2: Grid<bool>, a: seq<Coord>, b: seq<Coord>,
                  root: Coord, root2: Coord, open: set<Coord>)
    requires g0.Valid() && Grew(s, g0, g1, a, root, open)
    requires Grew(s, g1, g2, b, root2, {}) && Reachable(s, g0.height, g0.width, root, root2)
    ensures Grew(s, g0, g2, a + b, root, open)
  {
    SettledTrans(g0, g1, g2, false);
    FreshTrans(g0, g1, g2, a, b);
    DistinctAppend(a, b);
    CoversTrans(g0, g1, g2, a, b);
    MarkedTrans(s, g1, g2, a, b, open);
    OrbitTrans(s, g0.height, g0.width, root, root2, a, b);
  }

  /** The cell `update_grp` marks first. */
  lemma GrewStart(s: Symmetry, g: Grid<bool>, c: Coord)
    requires g.Valid() && g.IsValidCoord(c) && !g.Get(c)
    ensures Grew(s, g, g.Set(c, true), [c], c, {c})
  {
    SetDecides(g, c, true, false);
    ReachRefl(s, g.height, g.width, c);
    var g1 := g.Set(c, true);
    forall p | g.IsValidCoord(p) && g1.Get(p) && !g.Get(p)
      ensures p == c
    {
      GetSet(g, c, true, p);
    }
  }

  /** Once every move of the root is marked, nothing is left open. */
  lemma GrewClose(s: Symmetry, g0: Grid<bool>, g1: Grid<bool>, a: seq<Coord>, c: Coord)
    requires g0.Valid() && Grew(s, g0, g1, a, c, {c})
    requires forall m :: m in Moves(s, g0.height, g0.width, c) ==> g1.IsValidCoord(m) && g1.Get(m)
    ensures Grew(s, g0, g1, a, c, {})
  {
    assert MovesMarked(s, g1, a, {});
  }

  /**
   * `update_grp` (src/slitherlink/generator.rs:291-309): marks `c` and,
   * recursively, every unmarked cell its moves reach, appending each to
   * `sto` once. The `id` argument of the source is never read.
   */
  method UpdateGrp(c: Coord, s: Symmetry, grp: Grid<bool>, sto: seq<Coord>) returns (grp1: Grid<bool>, sto1: seq<Coord>)
    requires grp.Valid() && grp.IsValidCoord(c) && Normalised(s, grp.height, grp.width)
    ensures |sto1| >= |sto| && sto1[..|sto|] == sto
    ensures Grew(s, grp, grp1, sto1[|sto|..], c, {})
    ensures grp1.IsValidCoord(c) && grp1.Get(c)
    ensures !grp.Get(c) ==> |sto1| > |sto| && sto1[|sto|] == c
    ensures CountOf(grp1.data, false) <= CountOf(grp.data, false)
    decreases CountOf(grp.data, false), 1
  {
    var h, w := grp.height, grp.width;
    if grp.Get(c) {
      SettledRefl(grp, false);
      return grp, sto;
    }
    SetDecides(grp, c, true, false);
    GrewStart(s, grp, c);
    grp1, sto1 := grp.Set(c, true), sto + [c];
    ghost var added := [c];
    ghost var done: set<Coord> := {c};
    MovesInBoard(s, h, w, c);
    MovesAre(s, h, w, c);
    if s.tetrad || s.dyad {
      var m := if s.tetrad then Coord(h - 1 - c.x, c.y) else Coord(h - 1 - c.y, w - 1 - c.x);
      grp1, sto1, added, done := Visit(m, c, s, grp, grp1, sto, sto1, added, done);
    }
    if s.horizontal {
      grp1, sto1, added, done := Visit(Coord(h - 1 - c.y, c.x), c, s, grp, grp1, sto, sto1, added, done);
    }
    if s.vertical {
      grp1, sto1, added, done := Visit(Coord(c.y, w - 1 - c.x), c, s, grp, grp1, sto, sto1, added, done);
    }
    MovesDone(s, h, w, c, done);
    GrewClose(s, grp, grp1, added, c);
  }

  /**
   * One recursive call of `update_grp` on a move `m` of `c`, after `c`
   * was marked: the growth so far goes on, `m` ends up marked, and the
   * unmarked count does not rise.
   */
  method Visit(m: Coord, ghost c: Coord, s: Symmetry, ghost grp: Grid<bool>, g: Grid<bool>, ghost sto: seq<Coord>, st: seq<Coord>,
               ghost added: seq<Coord>, ghost done: set<Coord>)
    returns (g1: Grid<bool>, st1: seq<Coord>, ghost added1: seq<Coord>, ghost done1: set<Coord>)
    requires grp.Valid() && Normalised(s, grp.height, grp.width) && grp.IsValidCoord(c) && !grp.Get(c)
    requires m in Moves(s, grp.height, grp.width, c)
    requires Grew(s, grp, g, added, c, {c}) && st == sto + added && |added| >= 1 && added[0] == c
    requires forall x :: x in done ==> g.IsValidCoord(x) && g.Get(x)
    requires CountOf(g.data, false) < CountOf(grp.data, false)
    ensures Grew(s, grp, g1, added1, c, {c}) && st1 == sto + added1 && |added1| >= 1 && added1[0] == c
    ensures done1 == done + {m} && forall x :: x in done1 ==> g1.IsValidCoord(x) && g1.Get(x)
    ensures CountOf(g1.data, false) < CountOf(grp.data, false)
    decreases CountOf(grp.data, false), 0
  {
    MovesInBoard(s, grp.height, grp.width, c);
    ReachMove(s, grp.height, grp.width, c, m);
    g1, st1 := UpdateGrp(m, s, g, st);
    added1 := added + st1[|st|..];
    assert st1 == st + st1[|st|..];
    GrewTrans(s, grp, g, g1, added, st1[|st|..], c, m, {c});
    done1 := done + {m};
    forall x | x in done
      ensures g1.IsValidCoord(x) && g1.Get(x)
    {
      SettledAt(g, g1, false, x);
    }
  }

  // ---------------------------------------------------------------
  // The orbit partition of generate_placement
  // ---------------------------------------------------------------

  /** The unmarked cells of the board. */
  ghost function Unmarked(g: Grid<bool>): set<Coord>
    requires g.Valid()
  {
    set y: int, x: int | 0 <= y < g.height && 0 <= x < g.width && !g.Get(Coord(y, x)) :: Coord(y, x)
  }

  /** The marked cells of the board. */
  ghost function Marked(g: Grid<bool>): set<Coord>
    requires g.Valid()
  {
    set y: int, x: int | 0 <= y < g.height && 0 <= x < g.width && g.Get(Coord(y, x)) :: Coord(y, x)
  }

  /** In a closed marking the unmarked cells are closed under the moves too. */
  lemma UnmarkedClosed(s: Symmetry, g: Grid<bool>)
    requires g.Valid() && Normalised(s, g.height, g.width) && MarkedClosed(s, g)
    ensures forall a, m :: a in Unmarked(g) && m in Moves(s, g.height, g.width, a) ==> m in Unmarked(g)
  {
    forall a, m | a in Unmarked(g) && m in Moves(s, g.height, g.width, a)
      ensures m in Unmarked(g)
    {
      MovesInBoard(s, g.height, g.width, a);
      if g.Get(m) {
        InverseMarked(s, g, a, m);
      }
      assert m == Coord(m.y, m.x);
    }
  }

  /** Marking cells whose moves are all marked keeps a marking closed. */
  lemma ClosedGrowth(s: Symmetry, g0: Grid<bool>, g1: Grid<bool>, added: seq<Coord>)
    requires g0.Valid() && MarkedClosed(s, g0) && Settled(g0, g1, false) && g1.Valid()
    requires Covers(g0, g1, added) && MovesMarked(s, g1, added, {})
    ensures MarkedClosed(s, g1)
  {
    forall a, m | g1.IsValidCoord(a) && g1.Get(a) && m in Moves(s, g1.height, g1.width, a)
      ensures g1.IsValidCoord(m) && g1.Get(m)
    {
      if g0.Get(a) {
        SettledAt(g0, g1, false, m);
      }
    }
  }

  /**
   * A cell of the board in the orbit of a cell that was unmarked and is
   * now marked, in markings closed before and after, was itself among
   * the cells marked in between.
   */
  lemma ReachedAdded(s: Symmetry, g0: Grid<bool>, g1: Grid<bool>, added: seq<Coord>, c: Coord, a: Coord)
    requires g0.Valid() && Normalised(s, g0.height, g0.width) && MarkedClosed(s, g0)
    requires Settled(g0, g1, false) && g1.Valid() && MarkedClosed(s, g1) && Covers(g0, g1, added)
    requires g0.IsValidCoord(c) && !g0.Get(c) && g1.Get(c)
    requires InBoard(g0.height, g0.width, a) && Reachable(s, g0.height, g0.width, c, a)
    ensures a in added
  {
    var h, w := g0.height, g0.width;
    UnmarkedClosed(s, g0);
    var p :| |p| >= 1 && p[0] == c && p[|p| - 1] == a && Path(s, h, w, p);
    assert c == Coord(c.y, c.x);
    ReachInClosed(s, h, w, Marked(g1), p);
    ReachInClosed(s, h, w, Unmarked(g0), p);
  }

  /**
   * What `update_grp` adds to a closed marking from an unmarked cell is
   * exactly the orbit of that cell, and the marking stays closed.
   */
  lemma OrbitExact(s: Symmetry, g0: Grid<bool>, g1: Grid<bool>, added: seq<Coord>, c: Coord)
    requires g0.Valid() && Normalised(s, g0.height, g0.width) && MarkedClosed(s, g0)
    requires g0.IsValidCoord(c) && !g0.Get(c) && Grew(s, g0, g1, added, c, {}) && g1.Get(c)
    ensures MarkedClosed(s, g1)
    ensures forall a :: a in added <==> InBoard(g0.height, g0.width, a) && Reachable(s, g0.height, g0.width, c, a)
  {
    ClosedGrowth(s, g0, g1, added);
    forall a | InBoard(g0.height, g0.width, a) && Reachable(s, g0.height, g0.width, c, a)
      ensures a in added
    {
      ReachedAdded(s, g0, g1, added, c, a);
    }
  }

  /** `a` lies in one of the groups. */
  ghost predicate InSome(groups: seq<seq<Coord>>, a: Coord) {
    exists i :: 0 <= i < |groups| && a in groups[i]
  }

  /** `g` lists, once each, the cells of the board in the orbit of its first cell. */
  ghost predicate IsOrbit(s: Symmetry, height: int, width: int, g: seq<Coord>) {
    && |g| >= 1 && Distinct(g)
    && forall a :: a in g <==> InBoard(height, width, a) && Reachable(s, height, width, g[0], a)
  }

  /** No cell lies in two groups. */
  ghost predicate Disjoint(groups: seq<seq<Coord>>) {
    forall i, j, a :: 0 <= i < j < |groups| && a in groups[i] ==> a !in groups[j]
  }

  /** The state of the partition loop: marked cells are exactly those of the orbits found so far. */
  ghost predicate PartInv(s: Symmetry, grp: Grid<bool>, groups: seq<seq<Coord>>) {
    && grp.Valid() && Normalised(s, grp.height, grp.width) && MarkedClosed(s, grp)
    && (forall a :: grp.IsValidCoord(a) ==> (grp.Get(a) <==> InSome(groups, a)))
    && (forall i :: 0 <= i < |groups| ==> IsOrbit(s, grp.height, grp.width, groups[i]))
    && Disjoint(groups)
  }

  lemma PartStart(s: Symmetry, grp: Grid<bool>)
    requires grp.Valid() && Normalised(s, grp.height, grp.width)
    requires forall i :: 0 <= i < |grp.data| ==> !grp.data[i]
    ensures PartInv(s, grp, [])
  {
    forall a | grp.IsValidCoord(a)
      ensures !grp.Get(a)
    {
      grp.IndexInRange(a);
    }
  }

  /** The cells marked by a growth are those of one more group. */
  lemma PartMembers(grp: Grid<bool>, grp1: Grid<bool>, groups: seq<seq<Coord>>, sto: seq<Coord>)
    requires grp.Valid() && Settled(grp, grp1, false) && grp1.Valid() && Fresh(grp, grp1, sto) && Covers(grp, grp1, sto)
    requires forall a :: grp.IsValidCoord(a) ==> (grp.Get(a) <==> InSome(groups, a))
    ensures forall a :: grp1.IsValidCoord(a) ==> (grp1.Get(a) <==> InSome(groups + [sto], a))
  {
    forall a | grp1.IsValidCoord(a)
      ensures grp1.Get(a) <==> InSome(groups + [sto], a)
    {
      PartMember(grp, grp1, groups, sto, a);
    }
  }

  lemma PartMember(grp: Grid<bool>, grp1: Grid<bool>, groups: seq<seq<Coord>>, sto: seq<Coord>, a: Coord)
    requires grp.Valid() && Settled(grp, grp1, false) && grp1.Valid() && Fresh(grp, grp1, sto) && Covers(grp, grp1, sto)
    requires grp.IsValidCoord(a) && (grp.Get(a) <==> InSome(groups, a))
    ensures grp1.Get(a) <==> InSome(groups + [sto], a)
  {
    InSomeAppend(groups, sto, a);
    if grp.Get(a) {
      SettledAt(grp, grp1, false, a);
    }
  }

  /** A cell is in some group of `groups + [g]` exactly when it is in some group of `groups` or in `g`. */
  lemma InSomeAppend(groups: seq<seq<Coord>>, g: seq<Coord>, a: Coord)
    ensures InSome(groups + [g], a) <==> InSome(groups, a) || a in g
  {
    var gs := groups + [g];
    if InSome(groups, a) {
      var i :| 0 <= i < |groups| && a in groups[i];
      assert a in gs[i];
    }
    if a in g {
      assert a in gs[|groups|];
    }
    if InSome(gs, a) {
      var i :| 0 <= i < |gs| && a in gs[i];
      if i < |groups| {
        assert a in groups[i];
      }
    }
  }

  /** A group of cells none of which was in a group before keeps the groups disjoint. */
  lemma PartDisjoint(grp: Grid<bool>, groups: seq<seq<Coord>>, sto: seq<Coord>)
    requires grp.Valid() && Disjoint(groups)
    requires forall a :: grp.IsValidCoord(a) ==> (grp.Get(a) <==> InSome(groups, a))
    requires forall a :: a in sto ==> grp.IsValidCoord(a) && !grp.Get(a)
    ensures Disjoint(groups + [sto])
  {
    var gs := groups + [sto];
    forall i, j, a | 0 <= i < j < |gs| && a in gs[i]
      ensures a !in gs[j]
    {
      if j == |groups| && a in sto {
        assert InSome(groups, a);
      }
    }
  }

  /** A new orbit found from an unmarked cell extends the partition. */
  lemma PartStep(s: Symmetry, grp: Grid<bool>, groups: seq<seq<Coord>>, c: Coord, grp1: Grid<bool>, sto: seq<Coord>)
    requires PartInv(s, grp, groups) && grp.IsValidCoord(c) && !grp.Get(c)
    requires Grew(s, grp, grp1, sto, c, {}) && grp1.Get(c) && |sto| >= 1 && sto[0] == c
    ensures PartInv(s, grp1, groups + [sto])
    ensures grp1.height == grp.height && grp1.width == grp.width
    ensures forall a :: grp.IsValidCoord(a) && grp.Get(a) ==> grp1.Get(a)
  {
    OrbitExact(s, grp, grp1, sto, c);
    PartMembers(grp, grp1, groups, sto);
    PartDisjoint(grp, groups, sto);
    forall a | grp.IsValidCoord(a) && grp.Get(a)
      ensures grp1.Get(a)
    {
      SettledAt(grp, grp1, false, a);
    }
  }

  /** Every cell read before `(y, x)` in row-major order is marked. */
  ghost predicate MarkedBefore(grp: Grid<bool>, y: int, x: int) {
    grp.Valid() && forall a :: grp.IsValidCoord(a) && (a.y < y || (a.y == y && a.x < x)) ==> grp.Get(a)
  }

  lemma MarkedBeforeStep(grp: Grid<bool>, grp1: Grid<bool>, y: int, x: int)
    requires MarkedBefore(grp, y, x) && grp1.Valid() && grp1.IsValidCoord(Coord(y, x)) && grp1.Get(Coord(y, x))
    requires grp1.height == grp.height && grp1.width == grp.width
    requires forall a :: grp.IsValidCoord(a) && grp.Get(a) ==> grp1.Get(a)
    ensures MarkedBefore(grp1, y, x + 1)
  {
    forall a | grp1.IsValidCoord(a) && (a.y < y || (a.y == y && a.x < x + 1))
      ensures grp1.Get(a)
    {
      if a != Coord(y, x) {
        assert grp.IsValidCoord(a) && grp.Get(a);
      }
    }
  }

  lemma MarkedBeforeRow(grp: Grid<bool>, y: int)
    requires MarkedBefore(grp, y, grp.width)
    ensures MarkedBefore(grp, y + 1, 0)
  {
  }

  /**
   * The first half of `generate_placement` (src/slitherlink/generator.rs:224-244):
   * the symmetry is normalised and the board is cut, cell by cell in
   * reading order, into the orbits of its unmarked cells.
   */
  method Orbits(height: int, width: int, symmetry: Symmetry) returns (s: Symmetry, groups: seq<seq<Coord>>)
    requires height >= 0 && width >= 0
    ensures s == Normalise(symmetry, height, width)
    ensures forall i :: 0 <= i < |groups| ==> IsOrbit(s, height, width, groups[i])
    ensures Disjoint(groups)
    ensures forall a :: InBoard(height, width, a) ==> InSome(groups, a)
  {
    s := Normalise(symmetry, height, width);
    var grp := NewGrid(height, width, false);
    PartStart(s, grp);
    groups := [];
    var y := 0;
    while y < height
      invariant 0 <= y <= height
      invariant PartInv(s, grp, groups) && grp.height == height && grp.width == width
      invariant MarkedBefore(grp, y, 0)
    {
      grp, groups := OrbitsRow(s, grp, groups, y);
      MarkedBeforeRow(grp, y);
      y := y + 1;
    }
    forall a | InBoard(height, width, a)
      ensures InSome(groups, a)
    {
      assert grp.IsValidCoord(a);
    }
  }

  /** One row of the scan in Orbits. */
  method OrbitsRow(s: Symmetry, grp: Grid<bool>, groups: seq<seq<Coord>>, y: int) returns (grp1: Grid<bool>, groups1: seq<seq<Coord>>)
    requires PartInv(s, grp, groups) && 0 <= y < grp.height && MarkedBefore(grp, y, 0)
    ensures PartInv(s, grp1, groups1) && grp1.height == grp.height && grp1.width == grp.width
    ensures MarkedBefore(grp1, y, grp.width)
  {
    grp1, groups1 := grp, groups;
    var x := 0;
    while x < grp.width
      invariant 0 <= x <= grp.width
      invariant PartInv(s, grp1, groups1) && grp1.height == grp.height && grp1.width == grp.width
      invariant MarkedBefore(grp1, y, x)
    {
      var c := Coord(y, x);
      if !grp1.Get(c) {
        var grp2, sto := UpdateGrp(c, s, grp1, []);
        PartStep(s, grp1, groups1, c, grp2, sto);
        MarkedBeforeStep(grp1, grp2, y, x);
        grp1, groups1 := grp2, groups1 + [sto];
      } else {
        MarkedBeforeStep(grp1, grp1, y, x);
      }
      x := x + 1;
    }
  }

  // ---------------------------------------------------------------
  // The selection loop of generate_placement
  // ---------------------------------------------------------------

  /** `Vec::swap_remove`: the last element takes the place of element `i`. */
  function SwapRemove<T>(v: seq<T>, i: int): (r: seq<T>)
    requires 0 <= i < |v|
    ensures |r| == |v| - 1
    ensures forall j :: 0 <= j < |r| ==> r[j] == if j == i then v[|v| - 1] else v[j]
  {
    v[i := v[|v| - 1]][..|v| - 1]
  }

  /** `swap_remove` drops exactly element `i`: what is left is the rest, as a multiset. */
  lemma SwapRemoveMultiset<T>(v: seq<T>, i: int)
    requires 0 <= i < |v|
    ensures multiset(SwapRemove(v, i)) == multiset(v) - multiset{v[i]}
  {
    var n := |v| - 1;
    if i == n {
      assert v == SwapRemove(v, i) + [v[i]];
    } else {
      assert v == v[..i] + [v[i]] + v[i + 1..n] + [v[n]];
      assert SwapRemove(v, i) == v[..i] + [v[n]] + v[i + 1..n];
    }
  }

  /** The moves of a cell of an orbit stay in the orbit. */
  lemma OrbitClosed(s: Symmetry, height: int, width: int, g: seq<Coord>, a: Coord, m: Coord)
    requires Normalised(s, height, width) && IsOrbit(s, height, width, g)
    requires a in g && m in Moves(s, height, width, a)
    ensures m in g
  {
    MovesInBoard(s, height, width, a);
    ReachMove(s, height, width, a, m);
    ReachTrans(s, height, width, g[0], a, m);
  }

  /** Removing a group of a disjoint list removes exactly its cells. */
  lemma InSomeSwap(groups: seq<seq<Coord>>, i: int, a: Coord)
    requires 0 <= i < |groups| && Disjoint(groups)
    ensures InSome(SwapRemove(groups, i), a) <==> InSome(groups, a) && a !in groups[i]
  {
    var r := SwapRemove(groups, i);
    var n := |groups| - 1;
    if InSome(r, a) {
      var j :| 0 <= j < |r| && a in r[j];
      var k := if j == i then n else j;
      assert a in groups[k] && k != i;
    }
    if InSome(groups, a) && a !in groups[i] {
      var k :| 0 <= k < |groups| && a in groups[k];
      var j := if k == n then i else k;
      assert a in r[j];
    }
  }

  /** Removing a group keeps the others orbits, and disjoint. */
  lemma SwapKeeps(s: Symmetry, height: int, width: int, groups: seq<seq<Coord>>, i: int)
    requires 0 <= i < |groups| && Disjoint(groups)
    requires forall k :: 0 <= k < |groups| ==> IsOrbit(s, height, width, groups[k])
    ensures Disjoint(SwapRemove(groups, i))
    ensures forall k :: 0 <= k < |groups| - 1 ==> IsOrbit(s, height, width, SwapRemove(groups, i)[k])
  {
    var r := SwapRemove(groups, i);
    var n := |groups| - 1;
    forall j, k, a | 0 <= j < k < |r| && a in r[j]
      ensures a !in r[k]
    {
      var j' := if j == i then n else j;
      var k' := if k == i then n else k;
      assert r[j] == groups[j'] && r[k] == groups[k'] && j' != k';
    }
  }

  /**
   * The state of the selection loop: the marked cells are closed under
   * the moves, and they are exactly the cells of no remaining group.
   */
  ghost predicate SelInv(s: Symmetry, ret: Grid<bool>, remaining: seq<seq<Coord>>) {
    && ret.Valid() && Normalised(s, ret.height, ret.width) && MarkedClosed(s, ret)
    && (forall a :: ret.IsValidCoord(a) ==> (ret.Get(a) <==> !InSome(remaining, a)))
    && (forall i :: 0 <= i < |remaining| ==> IsOrbit(s, ret.height, ret.width, remaining[i]))
    && Disjoint(remaining)
  }

  /**
   * The inner loop at src/slitherlink/generator.rs:276-279: every cell of
   * the chosen group is marked, and the clue budget drops by one per cell.
   */
  method MarkGroup(ret: Grid<bool>, g: seq<Coord>, n: int) returns (ret1: Grid<bool>, n1: int)
    requires ret.Valid() && Distinct(g) && forall a :: a in g ==> ret.IsValidCoord(a) && !ret.Get(a)
    ensures ret1.Valid() && ret1.height == ret.height && ret1.width == ret.width
    ensures forall a :: ret.IsValidCoord(a) ==> (ret1.Get(a) <==> ret.Get(a) || a in g)
    ensures CountTrue(ret1.data) == CountTrue(ret.data) + |g|
    ensures n1 == n - |g|
  {
    ret1, n1 := ret, n;
    var k := 0;
    while k < |g|
      invariant 0 <= k <= |g|
      invariant ret1.Valid() && ret1.height == ret.height && ret1.width == ret.width
      invariant forall a :: ret.IsValidCoord(a) ==> (ret1.Get(a) <==> ret.Get(a) || a in g[..k])
      invariant CountTrue(ret1.data) == CountTrue(ret.data) + k
      invariant n1 == n - k
    {
      var c := g[k];
      assert c !in g[..k];
      ret1.IndexInRange(c);
      CountUpdate(ret1.data, ret1.Index(c), true);
      forall a | ret.IsValidCoord(a)
        ensures ret1.Set(c, true).Get(a) <==> ret.Get(a) || a in g[..k + 1]
      {
        GetSet(ret1, c, true, a);
        assert g[..k + 1] == g[..k] + [c];
      }
      ret1, n1 := ret1.Set(c, true), n1 - 1;
      k := k + 1;
    }
    assert g[..k] == g;
  }

  /** Marking a whole remaining group and dropping it keeps the selection state. */
  lemma SelStep(s: Symmetry, ret: Grid<bool>, remaining: seq<seq<Coord>>, i: int, ret1: Grid<bool>)
    requires SelInv(s, ret, remaining) && 0 <= i < |remaining|
    requires ret1.Valid() && ret1.height == ret.height && ret1.width == ret.width
    requires forall a :: ret.IsValidCoord(a) ==> (ret1.Get(a) <==> ret.Get(a) || a in remaining[i])
    ensures SelInv(s, ret1, SwapRemove(remaining, i))
  {
    SelClosed(s, ret, remaining, i, ret1);
    SelMarks(s, ret, remaining, i, ret1);
    SwapKeeps(s, ret.height, ret.width, remaining, i);
  }

  /** Marking a whole orbit keeps the marking closed under the moves. */
  lemma SelClosed(s: Symmetry, ret: Grid<bool>, remaining: seq<seq<Coord>>, i: int, ret1: Grid<bool>)
    requires SelInv(s, ret, remaining) && 0 <= i < |remaining|
    requires ret1.Valid() && ret1.height == ret.height && ret1.width == ret.width
    requires forall a :: ret.IsValidCoord(a) ==> (ret1.Get(a) <==> ret.Get(a) || a in remaining[i])
    ensures MarkedClosed(s, ret1)
  {
    var h, w := ret.height, ret.width;
    var g := remaining[i];
    forall a, m | ret1.IsValidCoord(a) && ret1.Get(a) && m in Moves(s, h, w, a)
      ensures ret1.IsValidCoord(m) && ret1.Get(m)
    {
      if a in g {
        OrbitClosed(s, h, w, g, a, m);
      }
    }
  }

  /** After the step, the marked cells are those in none of the groups left. */
  lemma SelMarks(s: Symmetry, ret: Grid<bool>, remaining: seq<seq<Coord>>, i: int, ret1: Grid<bool>)
    requires SelInv(s, ret, remaining) && 0 <= i < |remaining|
    requires ret1.Valid() && ret1.height == ret.height && ret1.width == ret.width
    requires forall a :: ret.IsValidCoord(a) ==> (ret1.Get(a) <==> ret.Get(a) || a in remaining[i])
    ensures forall a :: ret1.IsValidCoord(a) ==> (ret1.Get(a) <==> !InSome(SwapRemove(remaining, i), a))
  {
    var g := remaining[i];
    forall a | ret1.IsValidCoord(a)
      ensures ret1.Get(a) <==> !InSome(SwapRemove(remaining, i), a)
    {
      InSomeSwap(remaining, i, a);
      if a in g {
        assert InSome(remaining, a);
      }
    }
  }

  /** The cells of a remaining group can all be marked. */
  lemma GroupUnmarked(s: Symmetry, ret: Grid<bool>, remaining: seq<seq<Coord>>, i: int)
    requires SelInv(s, ret, remaining) && 0 <= i < |remaining|
    ensures Distinct(remaining[i])
    ensures forall a :: a in remaining[i] ==> ret.IsValidCoord(a) && !ret.Get(a)
  {
    forall a | a in remaining[i]
      ensures ret.IsValidCoord(a) && !ret.Get(a)
    {
      assert InSome(remaining, a);
    }
  }

  /** At the start nothing is marked and every cell is in a group. */
  lemma SelStart(s: Symmetry, ret: Grid<bool>, groups: seq<seq<Coord>>)
    requires ret.Valid() && Normalised(s, ret.height, ret.width)
    requires forall i :: 0 <= i < |ret.data| ==> !ret.data[i]
    requires forall i :: 0 <= i < |groups| ==> IsOrbit(s, ret.height, ret.width, groups[i])
    requires Disjoint(groups) && forall a :: InBoard(ret.height, ret.width, a) ==> InSome(groups, a)
    ensures SelInv(s, ret, groups)
  {
    forall a | ret.IsValidCoord(a)
      ensures !ret.Get(a)
    {
      ret.IndexInRange(a);
    }
  }

  /** With no group left every cell is marked. */
  lemma AllMarked(s: Symmetry, ret: Grid<bool>)
    requires SelInv(s, ret, [])
    ensures CountTrue(ret.data) == |ret.data|
  {
    forall k | 0 <= k < |ret.data|
      ensures ret.data[k]
    {
      ret.IndexCoordOf(k);
      assert !InSome([], ret.CoordOf(k));
    }
    CountTrueAll(ret.data);
  }

  /** A sequence of `true` counts its length. */
  lemma {:induction false} CountTrueAll(b: seq<bool>)
    requires forall k :: 0 <= k < |b| ==> b[k]
    ensures CountTrue(b) == |b|
  {
    if |b| > 0 {
      CountTrueAll(b[..|b| - 1]);
    }
  }

  /**
   * `generate_placement` (src/slitherlink/generator.rs:224-289): whole
   * orbits are marked, one drawn at a time by `choose` (which the source
   * weights by how few marked cells lie near the orbit's first cell),
   * until `numClues` cells are marked or no orbit is left. The marked
   * cells are then closed under the normalised symmetry, and their number
   * reaches `numClues` unless the whole board is marked.
   */
  method GeneratePlacement(height: int, width: int, numClues: int, symmetry: Symmetry,
                           choose: (nat, Grid<bool>, seq<seq<Coord>>) -> int) returns (ret: Grid<bool>)
    requires height >= 0 && width >= 0
    requires forall t, r, gs :: |gs| > 0 ==> 0 <= choose(t, r, gs) < |gs|
    ensures ret.Valid() && ret.height == height && ret.width == width
    ensures MarkedClosed(Normalise(symmetry, height, width), ret)
    ensures CountTrue(ret.data) >= numClues || CountTrue(ret.data) == height * width
    ensures numClues <= 0 ==> CountTrue(ret.data) == 0
  {
    var s, groups := Orbits(height, width, symmetry);
    ret := NewGrid(height, width, false);
    SelStart(s, ret, groups);
    CountOfNoneTrue(ret.data);
    var n := numClues;
    var t := 0;
    while |groups| > 0 && n > 0
      invariant SelInv(s, ret, groups) && ret.height == height && ret.width == width
      invariant CountTrue(ret.data) + n == numClues
      invariant numClues <= 0 ==> CountTrue(ret.data) == 0
      decreases |groups|
    {
      var i := choose(t, ret, groups);
      GroupUnmarked(s, ret, groups, i);
      var ret1, n1 := MarkGroup(ret, groups[i], n);
      SelStep(s, ret, groups, i, ret1);
      ret, n, groups := ret1, n1, SwapRemove(groups, i);
      t := t + 1;
    }
    if |groups| == 0 {
      AllMarked(s, ret);
    }
  }

  /** A sequence with no `true` counts zero. */
  lemma {:induction false} CountOfNoneTrue(b: seq<bool>)
    requires forall k :: 0 <= k < |b| ==> !b[k]
    ensures CountTrue(b) == 0
  {
    if |b| > 0 {
      CountOfNoneTrue(b[..|b| - 1]);
    }
  }
}
