/**
 * `generate_placement` of src/kakuro/generator.rs: the clue placement of a
 * Kakuro board. The board is enlarged by one row and one column, framed
 * with clue cells, and grown by marking a candidate cell together with its
 * 180-degree mirror until the non-clue cells are connected and no row or
 * column has ten of them in a row. The top-left part is returned.
 *
 * The random choices are a parameter: `draw(t)` is the `t`-th number the
 * weighted sampler yields, taken modulo the number of candidates.
 */
module KakuroPlacement {
  import opened Wrappers
  import opened Common
  import opened KakuroComponents
  import opened KakuroGenerator

  // ---- the board-level statements ----

  predicate OnBorder(b: Board, c: Coord) {
    c.y == 0 || c.y == b.height - 1 || c.x == 0 || c.x == b.width - 1
  }

  /** Every border cell holds a clue. */
  ghost predicate Framed(b: Board) {
    forall c :: InBoard(b, c) && OnBorder(b, c) ==> c in b.clues
  }

  /** The cell opposite `c` under a half-turn of the board. */
  function Mirror(b: Board, c: Coord): Coord {
    Coord(b.height - 1 - c.y, b.width - 1 - c.x)
  }

  /** The clues are unchanged by a half-turn. */
  ghost predicate Symmetric(b: Board) {
    forall c :: InBoard(b, c) ==> (c in b.clues <==> Mirror(b, c) in b.clues)
  }

  /** One marking step: `c` and its mirror become clues. */
  function Mark(b: Board, c: Coord): Board {
    AddClue(AddClue(b, c), Mirror(b, c))
  }

  /**
   * The test of the candidate loop toward one side `(dy, dx)` of `c`:
   * the cell two steps away is on the board and holds a clue while the cell
   * between is free, so marking `c` would leave that cell alone in its run.
   * For a cell on the board, the left test is the source's
   * `x >= 2 && !placement[(y, x - 1)] && placement[(y, x - 2)]`, and the
   * other three are alike.
   */
  predicate Gap(b: Board, c: Coord, dy: int, dx: int) {
    var n, f := Coord(c.y + dy, c.x + dx), Coord(c.y + 2 * dy, c.x + 2 * dx);
    InBoard(b, f) && n !in b.clues && f in b.clues
  }

  /** The centre test: on a board of odd height and width, a free centre keeps its side neighbours unmarked. */
  predicate CentreBlocked(b: Board, c: Coord) {
    var y, x, h, w := c.y, c.x, b.height, b.width;
    h % 2 == 1 && w % 2 == 1 && Coord(h / 2, w / 2) !in b.clues
    && ((y == h / 2 && (x == w / 2 - 1 || x == w / 2 + 1)) || (x == w / 2 && (y == h / 2 - 1 || y == h / 2 + 1)))
  }

  /** A cell the candidate loop keeps: unmarked, and passing every test. */
  predicate Eligible(b: Board, c: Coord) {
    c !in b.clues && !Gap(b, c, 0, -1) && !Gap(b, c, 0, 1) && !Gap(b, c, -1, 0) && !Gap(b, c, 1, 0)
    && !CentreBlocked(b, c)
  }

  /** The board right after framing: clues exactly on the border. */
  function FrameBoard(h: int, w: int): (b: Board)
    ensures b.height == h && b.width == w
    ensures forall c :: c in b.clues <==> InBoard(b, c) && OnBorder(b, c)
  {
    Board(h, w, set c | c in Cells(h, w) && (c.y == 0 || c.y == h - 1 || c.x == 0 || c.x == w - 1))
  }

  /** The frame is framed and symmetric, and its free cells are the inner ones. */
  lemma FrameProps(h: int, w: int)
    ensures Framed(FrameBoard(h, w)) && Symmetric(FrameBoard(h, w))
    ensures forall c :: Free(FrameBoard(h, w), c) <==> 1 <= c.y < h - 1 && 1 <= c.x < w - 1
  {
  }

  /** Half-turning twice gives the cell back, and a board cell turns into a board cell. */
  lemma MirrorProps(b: Board, c: Coord)
    ensures Mirror(b, Mirror(b, c)) == c
    ensures InBoard(b, c) <==> InBoard(b, Mirror(b, c))
    ensures OnBorder(b, c) <==> OnBorder(b, Mirror(b, c))
  {
  }

  /** Marking a board cell keeps the frame and the symmetry, and only adds clues. */
  lemma MarkKeeps(b: Board, c: Coord)
    requires InBoard(b, c)
    ensures var m := Mark(b, c);
      m.height == b.height && m.width == b.width && b.clues <= m.clues && c in m.clues
      && (Framed(b) ==> Framed(m)) && (Symmetric(b) ==> Symmetric(m))
  {
    var m := Mark(b, c);
    if Symmetric(b) {
      forall d | InBoard(m, d) ensures d in m.clues <==> Mirror(m, d) in m.clues {
        MirrorProps(b, d);
        assert d == Mirror(b, c) <==> Mirror(b, d) == c;
        assert d == c <==> Mirror(b, d) == Mirror(b, c);
      }
    }
  }

  /** Marking the mirror of `c` is marking `c`. */
  lemma MarkMirror(b: Board, c: Coord)
    ensures Mark(b, Mirror(b, c)) == Mark(b, c)
  {
    MirrorProps(b, c);
  }

  /**
   * On a symmetric board a cell is a candidate exactly when its mirror
   * is: the tests toward one side of a cell are the tests toward the other
   * side of its mirror.
   */
  lemma EligibleMirror(b: Board, c: Coord)
    requires Symmetric(b) && InBoard(b, c)
    ensures Eligible(b, c) <==> Eligible(b, Mirror(b, c))
  {
    MirrorProps(b, c);
    GapMirror(b, c, 0, -1);
    GapMirror(b, c, 0, 1);
    GapMirror(b, c, -1, 0);
    GapMirror(b, c, 1, 0);
    var h, w := b.height, b.width;
    if h % 2 == 1 && w % 2 == 1 {
      assert Mirror(b, Coord(h / 2, w / 2)) == Coord(h / 2, w / 2);
    }
  }

  /** On a symmetric board, the test toward one side of `c` is the test toward the other side of its mirror. */
  lemma GapMirror(b: Board, c: Coord, dy: int, dx: int)
    requires Symmetric(b) && InBoard(b, c)
    ensures Gap(b, c, dy, dx) <==> Gap(b, Mirror(b, c), -dy, -dx)
  {
    var m := Mirror(b, c);
    var n, f := Coord(c.y + dy, c.x + dx), Coord(c.y + 2 * dy, c.x + 2 * dx);
    assert Mirror(b, n) == Coord(m.y - dy, m.x - dx) && Mirror(b, f) == Coord(m.y - 2 * dy, m.x - 2 * dx);
    MirrorProps(b, n);
    MirrorProps(b, f);
  }

  /**
   * What the tests are for: marking a candidate `c` of a framed board
   * together with its mirror never leaves a free side neighbour `d` of `c`
   * as a run of one cell in the direction of `c`: the cell beyond `d` is
   * free too.
   */
  lemma NoSingleRun(b: Board, c: Coord, d: Coord)
    requires Framed(b) && InBoard(b, c) && Eligible(b, c)
    requires Adjacent(c, d) && Free(Mark(b, c), d)
    ensures Free(Mark(b, c), Coord(2 * d.y - c.y, 2 * d.x - c.x))
  {
    var e := Coord(2 * d.y - c.y, 2 * d.x - c.x);
    assert !OnBorder(b, d);
    assert !Gap(b, c, d.y - c.y, d.x - c.x);
    assert e != c;
  }

  /** The same next to the mirror of the marked cell, on a symmetric board. */
  lemma NoSingleRunMirror(b: Board, c: Coord, d: Coord)
    requires Framed(b) && Symmetric(b) && InBoard(b, c) && Eligible(b, c)
    requires Adjacent(Mirror(b, c), d) && Free(Mark(b, c), d)
    ensures Free(Mark(b, c), Coord(2 * d.y - Mirror(b, c).y, 2 * d.x - Mirror(b, c).x))
  {
    MirrorProps(b, c);
    EligibleMirror(b, c);
    MarkMirror(b, c);
    NoSingleRun(b, Mirror(b, c), d);
  }

  // ---- runs of free cells ----

  /** Cell `k` of row `i` (`horizontal`) or of column `i`. */
  function At(horizontal: bool, i: int, k: int): Coord {
    if horizontal then Coord(i, k) else Coord(k, i)
  }

  /** The length of the run of free cells that ends just before cell `k` of the line. */
  function Streak(b: Board, horizontal: bool, i: int, k: nat): (r: nat)
    ensures r <= k
  {
    if k == 0 then 0
    else if Free(b, At(horizontal, i, k - 1)) then Streak(b, horizontal, i, k - 1) + 1
    else 0
  }

  /** Cells `k .. k + 9` of the line are free. */
  ghost predicate RunOfTen(b: Board, horizontal: bool, i: int, k: int) {
    forall j :: k <= j < k + 10 ==> Free(b, At(horizontal, i, j))
  }

  /** Ten free cells in a row, in some row or column. */
  ghost predicate LongRun(b: Board) {
    exists horizontal: bool, i: int, k: int :: RunOfTen(b, horizontal, i, k)
  }

  /** A streak of at least `n` is `n` free cells just before `k`, and conversely. */
  lemma {:induction false} StreakMeaning(b: Board, horizontal: bool, i: int, k: nat, n: nat)
    requires n <= k
    ensures Streak(b, horizontal, i, k) >= n <==> forall j :: k - n <= j < k ==> Free(b, At(horizontal, i, j))
  {
    if n > 0 {
      StreakMeaning(b, horizontal, i, k - 1, n - 1);
      if Streak(b, horizontal, i, k) >= n {
        assert Free(b, At(horizontal, i, k - 1));
      }
    }
  }

  /** The lines of one direction: rows for `horizontal`, else columns, and their length. */
  function Lines(b: Board, horizontal: bool): int {
    if horizontal then b.height else b.width
  }

  function LineLength(b: Board, horizontal: bool): int {
    if horizontal then b.width else b.height
  }

  /** No streak of line `i` reaches 10. */
  ghost predicate LineOk(b: Board, horizontal: bool, i: int) {
    ShortStreaks(b, horizontal, i, LineLength(b, horizontal))
  }

  /** No streak among the first `n` cells of line `i` reaches 10. */
  ghost predicate ShortStreaks(b: Board, horizontal: bool, i: int, n: int) {
    forall k: nat :: k <= n ==> Streak(b, horizontal, i, k) < 10
  }

  /** The count of the loops is the same thing as having no run of ten. */
  lemma LongRunLines(b: Board)
    requires b.height >= 0 && b.width >= 0
    ensures !LongRun(b) <==> forall horizontal: bool, i :: 0 <= i < Lines(b, horizontal) ==> LineOk(b, horizontal, i)
  {
    if LongRun(b) {
      var horizontal: bool, i: int, k: int :| RunOfTen(b, horizontal, i, k);
      assert Free(b, At(horizontal, i, k)) && Free(b, At(horizontal, i, k + 9));
      assert 0 <= i < Lines(b, horizontal) && 0 <= k && k + 10 <= LineLength(b, horizontal);
      StreakMeaning(b, horizontal, i, k + 10, 10);
      assert !LineOk(b, horizontal, i);
    }
    forall horizontal: bool, i, k: nat | 0 <= i < Lines(b, horizontal) && k <= LineLength(b, horizontal) && Streak(b, horizontal, i, k) >= 10
      ensures LongRun(b)
    {
      StreakMeaning(b, horizontal, i, k, 10);
      assert RunOfTen(b, horizontal, i, k - 10);
    }
  }

  // ---- the result ----

  /** The `h - 1` by `w - 1` top-left part of a board. */
  function CropBoard(b: Board): (r: Board)
    ensures r.height == b.height - 1 && r.width == b.width - 1
    ensures forall c :: c in r.clues <==> c in b.clues && InBoard(r, c)
  {
    Board(b.height - 1, b.width - 1, set c | c in b.clues && 0 <= c.y < b.height - 1 && 0 <= c.x < b.width - 1)
  }

  /** Boards with the same free cells have the same paths. */
  lemma SameFree(b1: Board, b2: Board)
    requires forall c :: Free(b1, c) <==> Free(b2, c)
    ensures Connected(b1) <==> Connected(b2)
    ensures LongRun(b1) <==> LongRun(b2)
  {
    forall a, e | Reach(b1, a, e) ensures Reach(b2, a, e) {
      var p :| IsPath(b1, p) && p[0] == a && p[|p| - 1] == e;
      assert IsPath(b2, p);
    }
    forall a, e | Reach(b2, a, e) ensures Reach(b1, a, e) {
      var p :| IsPath(b2, p) && p[0] == a && p[|p| - 1] == e;
      assert IsPath(b1, p);
    }
    forall horizontal: bool, i, k | RunOfTen(b1, horizontal, i, k) ensures RunOfTen(b2, horizontal, i, k) {
    }
    forall horizontal: bool, i, k | RunOfTen(b2, horizontal, i, k) ensures RunOfTen(b1, horizontal, i, k) {
    }
  }

  /**
   * What `generate_placement` promises of a board it returns: the top row
   * and the left column hold clues, the rest is unchanged by a half-turn,
   * the non-clue cells are connected, and no row or column has ten of
   * them in a row.
   */
  ghost predicate PlacementOk(r: Board) {
    (forall c :: InBoard(r, c) && (c.y == 0 || c.x == 0) ==> c in r.clues)
    && (forall c: Coord :: 1 <= c.y < r.height && 1 <= c.x < r.width
          ==> (c in r.clues <==> Coord(r.height - c.y, r.width - c.x) in r.clues))
    && Connected(r) && !LongRun(r)
  }

  /** Cropping a framed, symmetric, connected board without long runs gives a good placement. */
  lemma CropOk(b: Board)
    requires Framed(b) && Symmetric(b) && Connected(b) && !LongRun(b)
    ensures PlacementOk(CropBoard(b))
  {
    var r := CropBoard(b);
    forall c ensures Free(r, c) <==> Free(b, c) {
      if InBoard(b, c) && !InBoard(r, c) {
        assert OnBorder(b, c);
      }
    }
    SameFree(r, b);
    forall c: Coord | 1 <= c.y < r.height && 1 <= c.x < r.width
      ensures c in r.clues <==> Coord(r.height - c.y, r.width - c.x) in r.clues
    {
      assert Mirror(b, c) == Coord(r.height - c.y, r.width - c.x);
    }
  }

  // ---- marking, draw by draw ----

  /** The board after the marks of draws `t .. t + n - 1`, each picking a candidate. */
  function MarkDraws(b: Board, cand: seq<Coord>, draw: nat -> nat, t: nat, n: nat): Board
    requires |cand| > 0
  {
    if n == 0 then b else Mark(MarkDraws(b, cand, draw, t, n - 1), cand[draw(t + n - 1) % |cand|])
  }

  /** Marking board cells keeps the frame and the symmetry, only adds clues, and holds the last pick. */
  lemma {:induction false} MarkDrawsKeeps(b: Board, cand: seq<Coord>, draw: nat -> nat, t: nat, n: nat)
    requires |cand| > 0 && forall c :: c in cand ==> InBoard(b, c)
    ensures var m := MarkDraws(b, cand, draw, t, n);
      m.height == b.height && m.width == b.width && b.clues <= m.clues
      && (Framed(b) ==> Framed(m)) && (Symmetric(b) ==> Symmetric(m))
      && (n > 0 ==> cand[draw(t + n - 1) % |cand|] in m.clues)
  {
    if n > 0 {
      MarkDrawsKeeps(b, cand, draw, t, n - 1);
      assert cand[draw(t + n - 1) % |cand|] in cand;
      MarkKeeps(MarkDraws(b, cand, draw, t, n - 1), cand[draw(t + n - 1) % |cand|]);
    }
  }

  // ---- the grid-level code ----

  /** Every clue lies on the board. */
  ghost predicate WellFormed(b: Board) {
    forall c :: c in b.clues ==> InBoard(b, c)
  }

  /** A grid agreeing with a board whose clues lie on it has that board. */
  lemma AgreesIsBoardOf(g: Grid<bool>, b: Board)
    requires g.Valid() && Agrees(g, b) && WellFormed(b)
    ensures BoardOf(g) == b
  {
    assert BoardOf(g).clues == b.clues;
  }

  /** `placement[c] = v`: the grid now agrees with the board where `c` is a clue exactly when `v`. */
  method Write(p: Grid<bool>, c: Coord, v: bool, ghost b: Board) returns (p': Grid<bool>)
    requires p.Valid() && Agrees(p, b) && p.IsValidCoord(c)
    ensures p'.Valid() && Agrees(p', Board(b.height, b.width, if v then b.clues + {c} else b.clues - {c}))
  {
    p' := p.Set(c, v);
    forall d | p.IsValidCoord(d) ensures p'.Get(d) == (if d == c then v else p.Get(d)) {
      GetSet(p, c, v, d);
    }
  }

  /** `Grid::new(h, w, false)` agrees with the board without clues. */
  lemma NewGridAgrees(h: int, w: int)
    requires h >= 0 && w >= 0
    ensures Agrees(NewGrid(h, w, false), Board(h, w, {}))
  {
    var g := NewGrid(h, w, false);
    forall c | g.IsValidCoord(c) ensures !g.Get(c) {
      g.IndexInRange(c);
    }
  }

  lemma FrameFits(h: int, w: int)
    ensures WellFormed(FrameBoard(h, w))
  {
  }

  /** The first two loops: a `height + 1` by `width + 1` grid with clues on its border. */
  method Frame(height: int, width: int) returns (p: Grid<bool>)
    requires height >= 0 && width >= 0
    ensures p.Valid() && Agrees(p, FrameBoard(height + 1, width + 1))
  {
    var h, w := height + 1, width + 1;
    p := NewGrid(h, w, false);
    NewGridAgrees(h, w);
    ghost var cl: set<Coord> := {};
    var y := 0;
    while y < h
      invariant 0 <= y <= h && p.Valid() && Agrees(p, Board(h, w, cl))
      invariant forall c :: c in cl <==> 0 <= c.y < y && (c.x == 0 || c.x == w - 1)
    {
      p := Write(p, Coord(y, 0), true, Board(h, w, cl));
      cl := cl + {Coord(y, 0)};
      p := Write(p, Coord(y, w - 1), true, Board(h, w, cl));
      cl := cl + {Coord(y, w - 1)};
      y := y + 1;
    }
    var x := 0;
    while x < w
      invariant 0 <= x <= w && p.Valid() && Agrees(p, Board(h, w, cl))
      invariant forall c :: c in cl <==> InBoard(Board(h, w, {}), c) && (c.x == 0 || c.x == w - 1 || (c.x < x && (c.y == 0 || c.y == h - 1)))
    {
      p := Write(p, Coord(0, x), true, Board(h, w, cl));
      cl := cl + {Coord(0, x)};
      p := Write(p, Coord(h - 1, x), true, Board(h, w, cl));
      cl := cl + {Coord(h - 1, x)};
      x := x + 1;
    }
    assert cl == FrameBoard(h, w).clues;
  }

  /** One side test of the candidate loop, read off the grid. */
  method GapAt(p: Grid<bool>, c: Coord, dy: int, dx: int, ghost b: Board) returns (g: bool)
    requires p.Valid() && Agrees(p, b) && p.IsValidCoord(c) && -1 <= dy <= 1 && -1 <= dx <= 1
    ensures g == Gap(b, c, dy, dx)
  {
    var n, f := Coord(c.y + dy, c.x + dx), Coord(c.y + 2 * dy, c.x + 2 * dx);
    g := p.IsValidCoord(f) && !p.Get(n) && p.Get(f);
  }

  /** The centre test of the candidate loop, read off the grid. */
  method CentreAt(p: Grid<bool>, c: Coord, ghost b: Board) returns (r: bool)
    requires p.Valid() && Agrees(p, b) && p.height >= 1 && p.width >= 1
    ensures r == CentreBlocked(b, c)
  {
    var y, x, h, w := c.y, c.x, p.height, p.width;
    r := false;
    if h % 2 == 1 && w % 2 == 1 && !p.Get(Coord(h / 2, w / 2)) {
      if y == h / 2 && (x == w / 2 - 1 || x == w / 2 + 1) {
        r := true;
      }
      if x == w / 2 && (y == h / 2 - 1 || y == h / 2 + 1) {
        r := true;
      }
    }
  }

  /** The `continue` tests of the candidate loop: they pass exactly the `Eligible` cells. */
  method IsCandidate(p: Grid<bool>, c: Coord, ghost b: Board) returns (r: bool)
    requires p.Valid() && Agrees(p, b) && p.IsValidCoord(c)
    ensures r == Eligible(b, c)
  {
    if p.Get(c) {
      return false;
    }
    var left := GapAt(p, c, 0, -1, b);
    var right := GapAt(p, c, 0, 1, b);
    var up := GapAt(p, c, -1, 0, b);
    var down := GapAt(p, c, 1, 0, b);
    if left || right || up || down {
      return false;
    }
    var centre := CentreAt(p, c, b);
    r := !centre;
  }

  /** The candidates found before `(y, x)`, in row-major order. */
  ghost predicate CandidatesUpTo(b: Board, cand: seq<Coord>, y: int, x: int) {
    (forall c :: c in cand <==> InBoard(b, c) && Eligible(b, c) && Before(c, y, x))
    && (forall i, j :: 0 <= i < j < |cand| ==> Before(cand[i], cand[j].y, cand[j].x))
  }

  method CandidateRow(p: Grid<bool>, y: int, cand: seq<Coord>, ghost b: Board) returns (cand': seq<Coord>)
    requires p.Valid() && Agrees(p, b) && 0 <= y < p.height && CandidatesUpTo(b, cand, y, 0)
    ensures CandidatesUpTo(b, cand', y + 1, 0)
  {
    cand' := cand;
    var x := 0;
    while x < p.width
      invariant 0 <= x <= p.width && CandidatesUpTo(b, cand', y, x)
    {
      var ok := IsCandidate(p, Coord(y, x), b);
      if ok {
        cand' := cand' + [Coord(y, x)];
      }
      x := x + 1;
    }
  }

  /**
   * The candidate loop: every cell passing the tests, in row-major order.
   * The weight each one gets is left out; the draw may pick any of them.
   */
  method Candidates(p: Grid<bool>, ghost b: Board) returns (cand: seq<Coord>)
    requires p.Valid() && Agrees(p, b)
    ensures forall c :: c in cand <==> InBoard(b, c) && Eligible(b, c)
    ensures forall i, j :: 0 <= i < j < |cand| ==> Before(cand[i], cand[j].y, cand[j].x)
  {
    cand := [];
    var y := 0;
    while y < p.height
      invariant 0 <= y <= p.height && CandidatesUpTo(b, cand, y, 0)
    {
      cand := CandidateRow(p, y, cand, b);
      y := y + 1;
    }
  }

  /** One try: the drawn candidate `c` and its mirror become clues. */
  method MarkPair(p: Grid<bool>, c: Coord, ghost b: Board) returns (p': Grid<bool>)
    requires p.Valid() && Agrees(p, b) && p.IsValidCoord(c)
    ensures p'.Valid() && Agrees(p', Mark(b, c))
  {
    p' := Write(p, c, true, b);
    p' := Write(p', Coord(p.height - 1 - c.y, p.width - 1 - c.x), true, AddClue(b, c));
  }

  /**
   * The ten tries of one round: each draws a candidate, marks it and its
   * mirror, and stops once the non-clue cells are connected. A failed try
   * is not undone. The draws used so far are `t`; the round uses `n` more.
   */
  method Attempts(p: Grid<bool>, cand: seq<Coord>, draw: nat -> nat, t: nat, ghost b: Board)
    returns (p': Grid<bool>, upd: bool, n: nat)
    requires p.Valid() && Agrees(p, b) && WellFormed(b) && |cand| > 0 && forall c :: c in cand ==> InBoard(b, c)
    ensures p'.Valid() && 1 <= n <= 10 && Agrees(p', MarkDraws(b, cand, draw, t, n))
    ensures upd <==> Connected(MarkDraws(b, cand, draw, t, n))
    ensures !upd ==> n == 10
    ensures TriesFailed(b, cand, draw, t, n - 1)
  {
    p', upd, n := p, false, 0;
    while n < 10
      invariant 0 <= n <= 10 && p'.Valid() && Agrees(p', MarkDraws(b, cand, draw, t, n))
      invariant TriesFailed(b, cand, draw, t, n)
    {
      MarkDrawsFits(b, cand, draw, t, n);
      ghost var m := MarkDraws(b, cand, draw, t, n);
      var c := cand[draw(t + n) % |cand|];
      assert c in cand;
      var connected;
      p', connected := Try(p', c, m);
      MarkDrawsNext(b, cand, draw, t, n);
      if connected {
        upd, n := true, n + 1;
        return;
      }
      TriesFailedStep(b, cand, draw, t, n);
      n := n + 1;
    }
    TriesFailedLess(b, cand, draw, t, 10);
  }

  lemma TriesFailedLess(b: Board, cand: seq<Coord>, draw: nat -> nat, t: nat, i: nat)
    requires |cand| > 0 && i > 0 && TriesFailed(b, cand, draw, t, i)
    ensures TriesFailed(b, cand, draw, t, i - 1)
  {
  }

  lemma MarkDrawsNext(b: Board, cand: seq<Coord>, draw: nat -> nat, t: nat, n: nat)
    requires |cand| > 0
    ensures MarkDraws(b, cand, draw, t, n + 1) == Mark(MarkDraws(b, cand, draw, t, n), cand[draw(t + n) % |cand|])
  {
  }

  /** One try: mark `c` and its mirror, then ask whether the non-clue cells are connected. */
  method Try(p: Grid<bool>, c: Coord, ghost m: Board) returns (p': Grid<bool>, connected: bool)
    requires p.Valid() && Agrees(p, m) && WellFormed(m) && InBoard(m, c)
    ensures p'.Valid() && Agrees(p', Mark(m, c)) && (connected <==> Connected(Mark(m, c)))
  {
    p' := MarkPair(p, c, m);
    MirrorProps(m, c);
    AgreesIsBoardOf(p', Mark(m, c));
    var k := CheckConnectivity(p');
    DisconnectionZero(Mark(m, c));
    connected := k == 0;
  }

  /** None of the first `i` tries left the non-clue cells connected. */
  ghost predicate TriesFailed(b: Board, cand: seq<Coord>, draw: nat -> nat, t: nat, i: int)
    requires |cand| > 0
  {
    forall n :: 1 <= n <= i ==> !Connected(MarkDraws(b, cand, draw, t, n))
  }

  lemma TriesFailedStep(b: Board, cand: seq<Coord>, draw: nat -> nat, t: nat, i: nat)
    requires |cand| > 0 && TriesFailed(b, cand, draw, t, i) && !Connected(MarkDraws(b, cand, draw, t, i + 1))
    ensures TriesFailed(b, cand, draw, t, i + 1)
  {
  }

  /** A try that draws a free cell takes it out of the free cells. */
  lemma MarkDrawsShrinks(b: Board, cand: seq<Coord>, draw: nat -> nat, t: nat, n: nat)
    requires |cand| > 0 && n > 0 && forall c :: c in cand ==> Free(b, c)
    ensures FreeCells(MarkDraws(b, cand, draw, t, n)) < FreeCells(b)
  {
    var m := MarkDraws(b, cand, draw, t, n);
    MarkDrawsKeeps(b, cand, draw, t, n);
    var pick := cand[draw(t + n - 1) % |cand|];
    assert pick in cand;
    assert pick in FreeCells(b) && pick !in FreeCells(m);
  }

  /** The marks of board cells keep every clue on the board. */
  lemma {:induction false} MarkDrawsFits(b: Board, cand: seq<Coord>, draw: nat -> nat, t: nat, n: nat)
    requires WellFormed(b) && |cand| > 0 && forall c :: c in cand ==> InBoard(b, c)
    ensures var m := MarkDraws(b, cand, draw, t, n); WellFormed(m) && m.height == b.height && m.width == b.width
  {
    if n > 0 {
      MarkDrawsFits(b, cand, draw, t, n - 1);
      MarkDrawsKeeps(b, cand, draw, t, n - 1);
      var c := cand[draw(t + n - 1) % |cand|];
      assert c in cand;
      MirrorProps(b, c);
    }
  }

  /** One line of the run check: `con` counts the free cells since the last clue. */
  method LineRuns(p: Grid<bool>, horizontal: bool, i: int, isok: bool, ghost b: Board) returns (isok': bool)
    requires p.Valid() && Agrees(p, b) && 0 <= i < Lines(b, horizontal)
    ensures isok' == (isok && LineOk(b, horizontal, i))
  {
    var n := if horizontal then p.width else p.height;
    isok' := isok;
    var con := 0;
    var k := 0;
    while k < n
      invariant 0 <= k <= n && con == Streak(b, horizontal, i, k)
      invariant isok' == (isok && ShortStreaks(b, horizontal, i, k))
    {
      assert p.Get(At(horizontal, i, k)) <==> !Free(b, At(horizontal, i, k));
      if p.Get(At(horizontal, i, k)) {
        con := 0;
      } else {
        con := con + 1;
        if con >= 10 {
          isok' := false;
        }
      }
      ShortStreaksStep(b, horizontal, i, k);
      k := k + 1;
    }
  }

  lemma ShortStreaksStep(b: Board, horizontal: bool, i: int, k: nat)
    ensures ShortStreaks(b, horizontal, i, k + 1) <==> ShortStreaks(b, horizontal, i, k) && Streak(b, horizontal, i, k + 1) < 10
  {
    if ShortStreaks(b, horizontal, i, k) && Streak(b, horizontal, i, k + 1) < 10 {
      forall j: nat | j <= k + 1 ensures Streak(b, horizontal, i, j) < 10 {
      }
    }
  }

  /** The two run loops: every row, then every column. */
  method RunsOk(p: Grid<bool>, ghost b: Board) returns (isok: bool)
    requires p.Valid() && Agrees(p, b)
    ensures isok <==> !LongRun(b)
  {
    isok := true;
    var y := 0;
    while y < p.height
      invariant 0 <= y <= p.height
      invariant isok == forall i :: 0 <= i < y ==> LineOk(b, true, i)
    {
      isok := LineRuns(p, true, y, isok, b);
      y := y + 1;
    }
    var x := 0;
    while x < p.width
      invariant 0 <= x <= p.width
      invariant isok == ((forall i :: 0 <= i < p.height ==> LineOk(b, true, i)) && forall i :: 0 <= i < x ==> LineOk(b, false, i))
    {
      isok := LineRuns(p, false, x, isok, b);
      x := x + 1;
    }
    LongRunLines(b);
  }

  /** The final copy into a grid one row and one column smaller. */
  method Crop(p: Grid<bool>, ghost b: Board) returns (ret: Grid<bool>)
    requires p.Valid() && Agrees(p, b) && p.height >= 1 && p.width >= 1
    ensures ret.Valid() && Agrees(ret, CropBoard(b))
  {
    var h, w := p.height - 1, p.width - 1;
    ret := NewGrid(h, w, false);
    NewGridAgrees(h, w);
    ghost var cl: set<Coord> := {};
    var y := 0;
    while y < h
      invariant 0 <= y <= h && ret.Valid() && ret.height == h && Agrees(ret, Board(h, w, cl))
      invariant forall c :: c in cl <==> c in b.clues && 0 <= c.y < y && 0 <= c.x < w
    {
      ret, cl := CropRow(p, ret, y, b, cl);
      y := y + 1;
    }
    assert cl == CropBoard(b).clues;
  }

  method CropRow(p: Grid<bool>, ret: Grid<bool>, y: int, ghost b: Board, ghost cl: set<Coord>)
    returns (ret': Grid<bool>, ghost cl': set<Coord>)
    requires p.Valid() && Agrees(p, b) && ret.Valid() && ret.height == p.height - 1 && ret.width == p.width - 1
    requires 0 <= y < ret.height && Agrees(ret, Board(ret.height, ret.width, cl))
    requires forall c :: c in cl <==> c in b.clues && 0 <= c.y < y && 0 <= c.x < ret.width
    ensures ret'.Valid() && ret'.height == ret.height && Agrees(ret', Board(ret.height, ret.width, cl'))
    ensures forall c :: c in cl' <==> c in b.clues && 0 <= c.y <= y && 0 <= c.x < ret.width
  {
    ret', cl' := ret, cl;
    var x := 0;
    while x < ret.width
      invariant 0 <= x <= ret.width && ret'.Valid() && ret'.height == ret.height
      invariant Agrees(ret', Board(ret.height, ret.width, cl'))
      invariant forall c :: c in cl' <==> c in b.clues && 0 <= c.x < ret.width && (0 <= c.y < y || (c.y == y && 0 <= c.x < x))
    {
      var c := Coord(y, x);
      var v := p.Get(c);
      ret' := Write(ret', c, v, Board(ret.height, ret.width, cl'));
      cl' := if v then cl' + {c} else cl' - {c};
      x := x + 1;
    }
  }

  /**
   * `generate_placement`: `None` when a round finds no candidate or ten
   * tries leave the board disconnected; otherwise a `height` by `width`
   * placement meeting `PlacementOk`. Every round that goes on marks at
   * least one more cell, so the loop ends.
   */
  method GeneratePlacement(height: int, width: int, draw: nat -> nat) returns (r: Option<Grid<bool>>)
    requires height >= 0 && width >= 0
    ensures r.Some? ==> r.value.Valid() && r.value.height == height && r.value.width == width
    ensures r.Some? ==> PlacementOk(BoardOf(r.value))
  {
    var p := Frame(height, width);
    ghost var b := FrameBoard(height + 1, width + 1);
    FrameProps(height + 1, width + 1);
    FrameFits(height + 1, width + 1);
    var t := 0;
    while true
      invariant p.Valid() && Agrees(p, b) && WellFormed(b) && b.height == height + 1 && b.width == width + 1
      invariant Framed(b) && Symmetric(b)
      decreases FreeCells(b)
    {
      var upd, t';
      ghost var b';
      p, upd, t', b' := Round(p, draw, t, b);
      if !upd {
        return None;
      }
      b, t := b', t';
      var isok := RunsOk(p, b);
      if isok {
        var ret := Crop(p, b);
        CropOk(b);
        AgreesIsBoardOf(ret, CropBoard(b));
        return Some(ret);
      }
    }
  }

  /**
   * One round of the main loop up to the run check: list the candidates,
   * then make up to ten tries. `upd` is false when there was no candidate
   * or no try connected the board.
   */
  method Round(p: Grid<bool>, draw: nat -> nat, t: nat, ghost b: Board)
    returns (p': Grid<bool>, upd: bool, t': nat, ghost b': Board)
    requires p.Valid() && Agrees(p, b) && WellFormed(b) && Framed(b) && Symmetric(b)
    ensures upd ==> p'.Valid() && Agrees(p', b') && WellFormed(b') && Framed(b') && Symmetric(b')
    ensures upd ==> b'.height == b.height && b'.width == b.width && b.clues <= b'.clues && FreeCells(b') < FreeCells(b)
    ensures upd ==> Connected(b')
  {
    var cand := Candidates(p, b);
    if |cand| == 0 {
      return p, false, t, b;
    }
    forall c | c in cand ensures Free(b, c) {
      assert InBoard(b, c) && Eligible(b, c);
    }
    var n;
    p', upd, n := Attempts(p, cand, draw, t, b);
    t', b' := t + n, MarkDraws(b, cand, draw, t, n);
    if upd {
      MarkDrawsKeeps(b, cand, draw, t, n);
      MarkDrawsFits(b, cand, draw, t, n);
      MarkDrawsShrinks(b, cand, draw, t, n);
    }
  }
}
