/**
 * src/slitherlink/generator.rs, `generate`: the annealing search for a
 * Slitherlink problem on a given clue placement. The positions it may
 * change, the clues it may put there, the zero rule and the count of
 * clues still to place.
 *
 * The solver field of src/slitherlink/field.rs is a type parameter `F`
 * with its operations passed in; the shuffles and the random acceptance
 * draw are parameters too.
 */
module SlitherlinkGenerator {
  import opened Wrappers
  import opened Common
  import opened SlitherlinkBase
  import opened GridLoop

  // ---------------------------------------------------------------
  // Zeros
  // ---------------------------------------------------------------

  /** `q` lies in the 3x3 block centred on `p`. */
  predicate Within1(p: Coord, q: Coord) {
    -1 <= q.y - p.y <= 1 && -1 <= q.x - p.x <= 1
  }

  /** `q` comes before the offset `(dy, dx)` from `p` in the scan order of the offsets. */
  predicate OffsetBefore(p: Coord, q: Coord, dy: int, dx: int) {
    q.y - p.y < dy || (q.y - p.y == dy && q.x - p.x < dx)
  }

  /** Some cell of the board in the 3x3 block around `pos`, `pos` included, holds `Clue(0)`. */
  ghost predicate ZeroNear(problem: Grid<Clue>, pos: Coord)
    requires problem.Valid()
  {
    exists q :: problem.IsValidCoord(q) && Within1(pos, q) && problem.Get(q) == Clue(0)
  }

  /** `has_zero_nearby` (src/slitherlink/generator.rs:145-155). */
  method HasZeroNearby(problem: Grid<Clue>, pos: Coord) returns (b: bool)
    requires problem.Valid()
    ensures b == ZeroNear(problem, pos)
  {
    var dy := -1;
    while dy < 2
      invariant -1 <= dy <= 2
      invariant forall q :: problem.IsValidCoord(q) && Within1(pos, q) && q.y - pos.y < dy ==> problem.Get(q) != Clue(0)
    {
      var dx := -1;
      while dx < 2
        invariant -1 <= dx <= 2
        invariant forall q :: problem.IsValidCoord(q) && Within1(pos, q) && OffsetBefore(pos, q, dy, dx) ==> problem.Get(q) != Clue(0)
      {
        var cd := Coord(pos.y + dy, pos.x + dx);
        if problem.IsValidCoord(cd) && problem.Get(cd) == Clue(0) {
          assert Within1(pos, cd);
          return true;
        }
        dx := dx + 1;
      }
      dy := dy + 1;
    }
    b := false;
  }

  /** No two cells that touch, even at a corner, both hold `Clue(0)`: what the generator's test checks. */
  ghost predicate NoAdjacentZeros(problem: Grid<Clue>)
    requires problem.Valid()
  {
    forall p, q :: problem.IsValidCoord(p) && problem.IsValidCoord(q) && p != q && Within1(p, q) && problem.Get(p) == Clue(0)
      ==> problem.Get(q) != Clue(0)
  }

  // ---------------------------------------------------------------
  // Candidates
  // ---------------------------------------------------------------

  /** The clues tried at a position: 0 to 3 except the previous clue, and 0 only when no zero is near. */
  predicate IsClueCandidate(prev: Clue, zeroOk: bool, c: Clue) {
    (if zeroOk then 0 else 1) <= c.n < 4 && c != prev
  }

  /** `new_clue_cand` (src/slitherlink/generator.rs:53-59), before the shuffle. */
  method ClueCandidates(prev: Clue, zeroOk: bool) returns (cands: seq<Clue>)
    ensures forall c :: c in cands <==> IsClueCandidate(prev, zeroOk, c)
    ensures forall i, j :: 0 <= i < j < |cands| ==> cands[i].n < cands[j].n
  {
    cands := [];
    var c := if zeroOk then 0 else 1;
    while c < 4
      invariant (if zeroOk then 0 else 1) <= c <= 4
      invariant forall d :: d in cands <==> IsClueCandidate(prev, zeroOk, d) && d.n < c
      invariant forall i, j :: 0 <= i < j < |cands| ==> cands[i].n < cands[j].n
      invariant forall i :: 0 <= i < |cands| ==> cands[i].n < c
    {
      if Clue(c) != prev {
        cands := cands + [Clue(c)];
      }
      c := c + 1;
    }
  }

  /** An edge position within Manhattan distance 7 of a cell centre: the offsets differ in parity. */
  predicate NearEdgeOffset(dy: int, dx: int) {
    (if dy < 0 then -dy else dy) + (if dx < 0 then -dx else dx) <= 7 && dy % 2 != dx % 2
  }

  /** Some edge near the cell `cd`, reading `Blank` off the lattice, is undecided. */
  ghost predicate UndecidedNear(edges: Grid<Edge>, cd: Coord)
    requires edges.Valid()
  {
    exists dy, dx :: NearEdgeOffset(dy, dx) && EdgeSafe(edges, Coord(2 * cd.y + 1 + dy, 2 * cd.x + 1 + dx)) == Undecided
  }

  /** `has_undecided_nearby` (src/slitherlink/generator.rs:122-143) on the field's edge lattice. */
  method HasUndecidedNearby(edges: Grid<Edge>, cd: Coord) returns (b: bool)
    requires edges.Valid()
    ensures b == UndecidedNear(edges, cd)
  {
    var y, x := cd.y * 2 + 1, cd.x * 2 + 1;
    var dy := -7;
    while dy < 8
      invariant -7 <= dy <= 8
      invariant forall ey, ex :: NearEdgeOffset(ey, ex) && ey < dy ==> EdgeSafe(edges, Coord(y + ey, x + ex)) != Undecided
    {
      var dxMax := 7 - (if dy < 0 then -dy else dy);
      var dx := -dxMax;
      while dx < dxMax + 1
        invariant -dxMax <= dx <= dxMax + 1
        invariant forall ey, ex :: NearEdgeOffset(ey, ex) && (ey < dy || (ey == dy && ex < dx)) ==> EdgeSafe(edges, Coord(y + ey, x + ex)) != Undecided
      {
        if dy % 2 != dx % 2 {
          if EdgeSafe(edges, Coord(y + dy, x + dx)) == Undecided {
            assert NearEdgeOffset(dy, dx);
            return true;
          }
        }
        dx := dx + 1;
      }
      dy := dy + 1;
    }
    b := false;
  }

  /** A position the search may change: it is to hold a clue, and has none yet or has undecided edges near it. */
  ghost predicate IsPosCandidate(hasClue: Grid<bool>, problem: Grid<Clue>, edges: Grid<Edge>, cd: Coord)
    requires hasClue.Valid() && problem.Valid() && edges.Valid()
    requires problem.height == hasClue.height && problem.width == hasClue.width
  {
    hasClue.IsValidCoord(cd) && hasClue.Get(cd) && (problem.Get(cd) == NoClue || UndecidedNear(edges, cd))
  }

  /** `pos_cand` (src/slitherlink/generator.rs:36-44), before the shuffle. */
  method PosCandidates(hasClue: Grid<bool>, problem: Grid<Clue>, edges: Grid<Edge>) returns (cand: seq<Coord>)
    requires hasClue.Valid() && problem.Valid() && edges.Valid()
    requires problem.height == hasClue.height && problem.width == hasClue.width
    ensures forall cd :: cd in cand <==> IsPosCandidate(hasClue, problem, edges, cd)
  {
    cand := [];
    var y := 0;
    while y < hasClue.height
      invariant 0 <= y <= hasClue.height
      invariant forall cd :: cd in cand <==> IsPosCandidate(hasClue, problem, edges, cd) && cd.y < y
    {
      var x := 0;
      while x < hasClue.width
        invariant 0 <= x <= hasClue.width
        invariant forall cd :: cd in cand <==> IsPosCandidate(hasClue, problem, edges, cd) && (cd.y < y || (cd.y == y && cd.x < x))
      {
        var cd := Coord(y, x);
        if hasClue.Get(cd) {
          var near := false;
          if problem.Get(cd) != NoClue {
            near := HasUndecidedNearby(edges, cd);
          }
          if problem.Get(cd) == NoClue || near {
            cand := cand + [cd];
          }
        }
        x := x + 1;
      }
      y := y + 1;
    }
  }

  // ---------------------------------------------------------------
  // Prohibited patterns
  // ---------------------------------------------------------------

  /** The clue the field holds at `cd`, reading `NO_CLUE` off its grid. */
  function ClueAt(clues: Grid<Clue>, cd: Coord): Clue
    requires clues.Valid()
  {
    if clues.IsValidCoord(cd) then clues.Get(cd) else NoClue
  }

  /** The four sides of a cell in the order of the `neighbor` table: down, right, up, left. */
  const Sides: seq<Dir> := [Dir(1, 0), Dir(0, 1), Dir(-1, 0), Dir(0, -1)]

  /**
   * The two lattice edges that leave the corner of cell `cd` between its
   * sides `a` and `b`, away from the cell.
   */
  function OuterEdges(edges: Grid<Edge>, cd: Coord, a: Dir, b: Dir): (Edge, Edge)
    requires edges.Valid()
  {
    (EdgeSafe(edges, Coord(2 * cd.y + 1 + 2 * a.y + b.y, 2 * cd.x + 1 + 2 * a.x + b.x)),
     EdgeSafe(edges, Coord(2 * cd.y + 1 + 2 * b.y + a.y, 2 * cd.x + 1 + 2 * b.x + a.x)))
  }

  /** Both edges leaving corner `d` (between side `d` and side `d + 1`) are blank. */
  predicate CornerBlank(edges: Grid<Edge>, cd: Coord, d: int)
    requires edges.Valid() && 0 <= d < 4
  {
    OuterEdges(edges, cd, Sides[d], Sides[(d + 1) % 4]) == (Blank, Blank)
  }

  /** Exactly one edge leaving corner `d` is blank and the other is a line. */
  predicate CornerIn(edges: Grid<Edge>, cd: Coord, d: int)
    requires edges.Valid() && 0 <= d < 4
  {
    OuterEdges(edges, cd, Sides[d], Sides[(d + 1) % 4]) in {(Blank, Line), (Line, Blank)}
  }

  /** The lower-right and upper-left corners, as the lattice positions of their outer edges. */
  lemma MainDiagonalCorners(edges: Grid<Edge>, cd: Coord)
    requires edges.Valid()
    ensures var y, x := cd.y, cd.x;
      && (CornerBlank(edges, cd, 0) <==> EdgeSafe(edges, Coord(2 * y + 3, 2 * x + 2)) == Blank && EdgeSafe(edges, Coord(2 * y + 2, 2 * x + 3)) == Blank)
      && (CornerBlank(edges, cd, 2) <==> EdgeSafe(edges, Coord(2 * y - 1, 2 * x)) == Blank && EdgeSafe(edges, Coord(2 * y, 2 * x - 1)) == Blank)
  {
    assert Sides[(0 + 1) % 4] == Dir(0, 1) && Sides[(2 + 1) % 4] == Dir(0, -1);
  }

  /** The upper-right and lower-left corners, as the lattice positions of their outer edges. */
  lemma AntiDiagonalCorners(edges: Grid<Edge>, cd: Coord)
    requires edges.Valid()
    ensures var y, x := cd.y, cd.x;
      && (CornerBlank(edges, cd, 1) <==> EdgeSafe(edges, Coord(2 * y, 2 * x + 3)) == Blank && EdgeSafe(edges, Coord(2 * y - 1, 2 * x + 2)) == Blank)
      && (CornerBlank(edges, cd, 3) <==> EdgeSafe(edges, Coord(2 * y + 2, 2 * x - 1)) == Blank && EdgeSafe(edges, Coord(2 * y + 3, 2 * x)) == Blank)
  {
    assert Sides[(1 + 1) % 4] == Dir(-1, 0) && Sides[(3 + 1) % 4] == Dir(1, 0);
  }

  /** One more corner counted. */
  lemma CornerStep(edges: Grid<Edge>, cd: Coord, d: int)
    requires edges.Valid() && 0 <= d < 4
    ensures var e := OuterEdges(edges, cd, Sides[d], Sides[(d + 1) % 4]);
      && CornersCounted(edges, cd, d + 1, true) == CornersCounted(edges, cd, d, true) + (if e == (Blank, Blank) then 1 else 0)
      && CornersCounted(edges, cd, d + 1, false) == CornersCounted(edges, cd, d, false) + (if e == (Blank, Line) || e == (Line, Blank) then 1 else 0)
  {
  }

  /** How many of the corners `0 .. k - 1` are blank (`blank`) or entered (`!blank`). */
  function CornersCounted(edges: Grid<Edge>, cd: Coord, k: int, blank: bool): (n: nat)
    requires edges.Valid() && 0 <= k <= 4
    ensures n <= k
  {
    if k == 0 then 0
    else
      var here := if blank then CornerBlank(edges, cd, k - 1) else CornerIn(edges, cd, k - 1);
      CornersCounted(edges, cd, k - 1, blank) + (if here then 1 else 0)
  }

  /** No cell orthogonally next to `cd` on the board holds a clue. */
  predicate Isolated(clues: Grid<Clue>, cd: Coord)
    requires clues.Valid()
  {
    forall d :: d in Sides && clues.IsValidCoord(CoordAdd(cd, d)) ==> clues.Get(CoordAdd(cd, d)) == NoClue
  }

  /** A cell of the placement still without a clue, next to a zero, with its four sides blank: it could only be a zero. */
  ghost predicate ZeroBlocked(hasClue: Grid<bool>, clues: Grid<Clue>, edges: Grid<Edge>, problem: Grid<Clue>, cd: Coord)
    requires hasClue.Valid() && clues.Valid() && edges.Valid() && problem.Valid() && hasClue.IsValidCoord(cd)
  {
    && hasClue.Get(cd) && ClueAt(clues, cd) == NoClue && ZeroNear(problem, cd)
    && forall d :: d in Sides ==> EdgeSafe(edges, Coord(2 * cd.y + 1 + d.y, 2 * cd.x + 1 + d.x)) == Blank
  }

  /** The outer edges at two opposite corners are all blank. */
  predicate TwoBlocked(edges: Grid<Edge>, cd: Coord)
    requires edges.Valid()
  {
    (CornerBlank(edges, cd, 0) && CornerBlank(edges, cd, 2)) || (CornerBlank(edges, cd, 1) && CornerBlank(edges, cd, 3))
  }

  /** At least one corner is entered and at least two are blank. */
  predicate CornersBlocked(edges: Grid<Edge>, cd: Coord)
    requires edges.Valid()
  {
    CornersCounted(edges, cd, 4, false) >= 1 && CornersCounted(edges, cd, 4, true) >= 2
  }

  /**
   * The patterns `count_prohibited_patterns` penalises at a cell: a
   * `ZeroBlocked` cell; and, at a cell with no clue beside it, a 2 whose
   * outer edges at two opposite corners are blank, or a cell without a
   * clue with an entered corner and two blank ones.
   */
  ghost predicate Prohibited(hasClue: Grid<bool>, clues: Grid<Clue>, edges: Grid<Edge>, problem: Grid<Clue>, cd: Coord)
    requires hasClue.Valid() && clues.Valid() && edges.Valid() && problem.Valid() && hasClue.IsValidCoord(cd)
  {
    || ZeroBlocked(hasClue, clues, edges, problem, cd)
    || (Isolated(clues, cd) && ClueAt(clues, cd) == Clue(2) && TwoBlocked(edges, cd))
    || (Isolated(clues, cd) && ClueAt(clues, cd) == NoClue && CornersBlocked(edges, cd))
  }

  /** The first test of src/slitherlink/generator.rs:166-175. */
  method CheckZeroBlocked(hasClue: Grid<bool>, clues: Grid<Clue>, edges: Grid<Edge>, problem: Grid<Clue>, cd: Coord)
    returns (b: bool)
    requires hasClue.Valid() && clues.Valid() && edges.Valid() && problem.Valid() && hasClue.IsValidCoord(cd)
    ensures b == ZeroBlocked(hasClue, clues, edges, problem, cd)
  {
    var y, x := cd.y, cd.x;
    if hasClue.Get(cd) && ClueAt(clues, cd) == NoClue {
      var near := HasZeroNearby(problem, cd);
      if near {
        b := && EdgeSafe(edges, Coord(2 * y + 0, 2 * x + 1)) == Blank
             && EdgeSafe(edges, Coord(2 * y + 1, 2 * x + 0)) == Blank
             && EdgeSafe(edges, Coord(2 * y + 2, 2 * x + 1)) == Blank
             && EdgeSafe(edges, Coord(2 * y + 1, 2 * x + 2)) == Blank;
        return;
      }
    }
    b := false;
  }

  /** The four neighbour tests of src/slitherlink/generator.rs:176-179. */
  method CheckIsolated(clues: Grid<Clue>, cd: Coord) returns (b: bool)
    requires clues.Valid()
    ensures b == Isolated(clues, cd)
  {
    var y, x := cd.y, cd.x;
    assert CoordAdd(cd, Sides[0]) == Coord(y + 1, x) && CoordAdd(cd, Sides[1]) == Coord(y, x + 1);
    assert CoordAdd(cd, Sides[2]) == Coord(y - 1, x) && CoordAdd(cd, Sides[3]) == Coord(y, x - 1);
    b := && ClueAt(clues, Coord(y - 1, x)) == NoClue && ClueAt(clues, Coord(y, x - 1)) == NoClue
         && ClueAt(clues, Coord(y + 1, x)) == NoClue && ClueAt(clues, Coord(y, x + 1)) == NoClue;
  }

  /** The two diagonal tests of a 2 at src/slitherlink/generator.rs:181-197. */
  method CheckTwo(edges: Grid<Edge>, cd: Coord) returns (b: bool)
    requires edges.Valid()
    ensures b == TwoBlocked(edges, cd)
  {
    var y, x := cd.y, cd.x;
    MainDiagonalCorners(edges, cd);
    AntiDiagonalCorners(edges, cd);
    var first := && EdgeSafe(edges, Coord(2 * y + 1 + 2, 2 * x + 1 + 1)) == Blank
                 && EdgeSafe(edges, Coord(2 * y + 1 + 1, 2 * x + 1 + 2)) == Blank
                 && EdgeSafe(edges, Coord(2 * y + 1 - 2, 2 * x + 1 - 1)) == Blank
                 && EdgeSafe(edges, Coord(2 * y + 1 - 1, 2 * x + 1 - 2)) == Blank;
    if first {
      return true;
    }
    b := && EdgeSafe(edges, Coord(2 * y + 1 - 2, 2 * x + 1 + 1)) == Blank
         && EdgeSafe(edges, Coord(2 * y + 1 - 1, 2 * x + 1 + 2)) == Blank
         && EdgeSafe(edges, Coord(2 * y + 1 + 2, 2 * x + 1 - 1)) == Blank
         && EdgeSafe(edges, Coord(2 * y + 1 + 1, 2 * x + 1 - 2)) == Blank;
  }

  /** The corner loop of src/slitherlink/generator.rs:199-217. */
  method CheckCorners(edges: Grid<Edge>, cd: Coord) returns (b: bool)
    requires edges.Valid()
    ensures b == CornersBlocked(edges, cd)
  {
    var y, x := cd.y, cd.x;
    var nIn, nBlank := 0, 0;
    var d := 0;
    while d < 4
      invariant 0 <= d <= 4
      invariant nIn == CornersCounted(edges, cd, d, false) && nBlank == CornersCounted(edges, cd, d, true)
    {
      var a, c := Sides[d], Sides[(d + 1) % 4];
      var (edge1, edge2) := OuterEdges(edges, cd, a, c);
      CornerStep(edges, cd, d);
      match (edge1, edge2) {
        case (Blank, Blank) => nBlank := nBlank + 1;
        case (Blank, Line) => nIn := nIn + 1;
        case (Line, Blank) => nIn := nIn + 1;
        case _ =>
      }
      d := d + 1;
    }
    b := nIn >= 1 && nBlank >= 2;
  }

  /** The body of the loop of `count_prohibited_patterns` (src/slitherlink/generator.rs:166-218) at one cell. */
  method CellProhibited(hasClue: Grid<bool>, clues: Grid<Clue>, edges: Grid<Edge>, problem: Grid<Clue>, cd: Coord)
    returns (b: bool)
    requires hasClue.Valid() && clues.Valid() && edges.Valid() && problem.Valid() && hasClue.IsValidCoord(cd)
    ensures b == Prohibited(hasClue, clues, edges, problem, cd)
  {
    var zero := CheckZeroBlocked(hasClue, clues, edges, problem, cd);
    if zero {
      return true;
    }
    var isolated := CheckIsolated(clues, cd);
    if !isolated {
      return false;
    }
    var clue := ClueAt(clues, cd);
    if clue == Clue(2) {
      b := CheckTwo(edges, cd);
    } else if clue == NoClue {
      b := CheckCorners(edges, cd);
    } else {
      b := false;
    }
  }

  /** How many of the cells `(y, 0) .. (y, k - 1)` of row `y` show a prohibited pattern. */
  ghost function RowPatterns(hasClue: Grid<bool>, clues: Grid<Clue>, edges: Grid<Edge>, problem: Grid<Clue>, y: int, k: int): (n: nat)
    requires hasClue.Valid() && clues.Valid() && edges.Valid() && problem.Valid()
    requires 0 <= y < hasClue.height && 0 <= k <= hasClue.width
    ensures n <= k
  {
    if k == 0 then 0
    else RowPatterns(hasClue, clues, edges, problem, y, k - 1) + (if Prohibited(hasClue, clues, edges, problem, Coord(y, k - 1)) then 1 else 0)
  }

  /** One more cell of the row counted. */
  lemma RowStep(hasClue: Grid<bool>, clues: Grid<Clue>, edges: Grid<Edge>, problem: Grid<Clue>, y: int, x: int, k: int)
    requires hasClue.Valid() && clues.Valid() && edges.Valid() && problem.Valid() && 0 <= y < hasClue.height && 0 <= x < hasClue.width
    requires k == RowPatterns(hasClue, clues, edges, problem, y, x)
    ensures k + (if Prohibited(hasClue, clues, edges, problem, Coord(y, x)) then 1 else 0) == RowPatterns(hasClue, clues, edges, problem, y, x + 1)
  {
  }

  /** How many of the cells of rows `0 .. r - 1` show a prohibited pattern. */
  ghost function PatternsAbove(hasClue: Grid<bool>, clues: Grid<Clue>, edges: Grid<Edge>, problem: Grid<Clue>, r: int): (n: nat)
    requires hasClue.Valid() && clues.Valid() && edges.Valid() && problem.Valid() && 0 <= r <= hasClue.height
    ensures n <= r * hasClue.width
  {
    if r == 0 then 0
    else
      var above := PatternsAbove(hasClue, clues, edges, problem, r - 1);
      MulStep(r - 1, hasClue.width);
      above + RowPatterns(hasClue, clues, edges, problem, r - 1, hasClue.width)
  }

  /**
   * `count_prohibited_patterns` (src/slitherlink/generator.rs:156-222):
   * the number of cells of the board showing a prohibited pattern.
   */
  method CountProhibited(hasClue: Grid<bool>, clues: Grid<Clue>, edges: Grid<Edge>, problem: Grid<Clue>) returns (n: int)
    requires hasClue.Valid() && clues.Valid() && edges.Valid() && problem.Valid()
    ensures n == PatternsAbove(hasClue, clues, edges, problem, hasClue.height)
  {
    n := 0;
    var y := 0;
    while y < hasClue.height
      invariant 0 <= y <= hasClue.height
      invariant n == PatternsAbove(hasClue, clues, edges, problem, y)
    {
      var k := CountRow(hasClue, clues, edges, problem, y);
      n := n + k;
      y := y + 1;
    }
  }

  /** The inner loop of `count_prohibited_patterns`, over row `y`. */
  method CountRow(hasClue: Grid<bool>, clues: Grid<Clue>, edges: Grid<Edge>, problem: Grid<Clue>, y: int) returns (k: int)
    requires hasClue.Valid() && clues.Valid() && edges.Valid() && problem.Valid() && 0 <= y < hasClue.height
    ensures k == RowPatterns(hasClue, clues, edges, problem, y, hasClue.width)
  {
    k := 0;
    var x := 0;
    while x < hasClue.width
      invariant 0 <= x <= hasClue.width
      invariant k == RowPatterns(hasClue, clues, edges, problem, y, x)
    {
      var b := CellProhibited(hasClue, clues, edges, problem, Coord(y, x));
      RowStep(hasClue, clues, edges, problem, y, x, k);
      if b {
        k := k + 1;
      }
      x := x + 1;
    }
  }

  // ---------------------------------------------------------------
  // The state of the search
  // ---------------------------------------------------------------

  /** How many cells of the placement still hold no clue, counted from the back. */
  function Unplaced(h: seq<bool>, p: seq<Clue>): (n: nat)
    requires |h| == |p|
    ensures n <= |h|
  {
    if |h| == 0 then 0
    else Unplaced(h[..|h| - 1], p[..|p| - 1]) + (if h[|h| - 1] && p[|p| - 1] == NoClue then 1 else 0)
  }

  /** With no clue anywhere, every cell of the placement is unplaced. */
  lemma {:induction false} UnplacedInit(h: seq<bool>, p: seq<Clue>)
    requires |h| == |p| && forall i :: 0 <= i < |p| ==> p[i] == NoClue
    ensures Unplaced(h, p) == CountTrue(h)
  {
    if |h| > 0 {
      UnplacedInit(h[..|h| - 1], p[..|p| - 1]);
    }
  }

  /** Writing entry `i` moves the count by what changed there. */
  lemma {:induction false} UnplacedSet(h: seq<bool>, p: seq<Clue>, i: nat, c: Clue)
    requires |h| == |p| && i < |p|
    ensures Unplaced(h, p[i := c]) ==
      Unplaced(h, p) - (if h[i] && p[i] == NoClue then 1 else 0) + (if h[i] && c == NoClue then 1 else 0)
  {
    var n := |p| - 1;
    if i < n {
      assert p[i := c][..n] == p[..n][i := c];
      UnplacedSet(h[..n], p[..n], i, c);
    } else {
      assert p[i := c][..n] == p[..n];
    }
  }

  /** Nothing left to place: every cell of the placement holds a clue. */
  lemma {:induction false} UnplacedZero(h: seq<bool>, p: seq<Clue>)
    requires |h| == |p| && Unplaced(h, p) == 0
    ensures forall i :: 0 <= i < |h| && h[i] ==> p[i] != NoClue
  {
    if |h| > 0 {
      UnplacedZero(h[..|h| - 1], p[..|p| - 1]);
      assert forall i :: 0 <= i < |h| - 1 ==> h[i] == h[..|h| - 1][i] && p[i] == p[..|p| - 1][i];
    }
  }

  /** `unplaced_clues` (src/slitherlink/generator.rs:24-31): the cells the placement marks. */
  method CountPlacement(hasClue: Grid<bool>) returns (n: int)
    requires hasClue.Valid()
    ensures n == CountTrue(hasClue.data)
  {
    n := 0;
    var y := 0;
    var i := 0;
    while y < hasClue.height
      invariant 0 <= y <= hasClue.height && i == y * hasClue.width
      invariant n == CountTrue(hasClue.data[..i])
    {
      MulStep(y, hasClue.width);
      MulMonotone(y + 1, hasClue.height, hasClue.width);
      var x := 0;
      while x < hasClue.width
        invariant 0 <= x <= hasClue.width && i == y * hasClue.width + x
        invariant n == CountTrue(hasClue.data[..i])
      {
        hasClue.IndexInRange(Coord(y, x));
        CountPrefix(hasClue.data, i);
        if hasClue.Get(Coord(y, x)) {
          n := n + 1;
        }
        x := x + 1;
        i := i + 1;
      }
      y := y + 1;
    }
    CountAll(hasClue.data);
  }

  /**
   * The invariant of `generate`: clues only where the placement marks a
   * cell, each from 0 to 3, no two zeros touching, and `unplaced_clues`
   * counting the marked cells without a clue.
   */
  ghost predicate SearchInv(hasClue: Grid<bool>, problem: Grid<Clue>, unplaced: int) {
    && hasClue.Valid() && problem.Valid()
    && problem.height == hasClue.height && problem.width == hasClue.width
    && (forall i :: 0 <= i < |problem.data| && problem.data[i] != NoClue ==> hasClue.data[i] && 0 <= problem.data[i].n < 4)
    && NoAdjacentZeros(problem)
    && unplaced == Unplaced(hasClue.data, problem.data)
  }

  /** A zero is put only where no zero is near, so no two zeros come to touch. */
  lemma ZerosKept(problem: Grid<Clue>, pos: Coord, c: Clue)
    requires problem.Valid() && problem.IsValidCoord(pos) && NoAdjacentZeros(problem)
    requires c == Clue(0) ==> !ZeroNear(problem, pos)
    ensures NoAdjacentZeros(problem.Set(pos, c))
  {
    var q := problem.Set(pos, c);
    forall a, b | q.IsValidCoord(a) && q.IsValidCoord(b) && a != b && Within1(a, b) && q.Get(a) == Clue(0)
      ensures q.Get(b) != Clue(0)
    {
      GetSet(problem, pos, c, a);
      GetSet(problem, pos, c, b);
      if a == pos {
        assert Within1(pos, b);
      } else if b == pos {
        assert Within1(pos, a);
      }
    }
  }

  /**
   * Putting a candidate clue at a candidate position keeps the
   * invariant, and one fewer clue is left to place when the cell had
   * none. In particular a zero never lands next to another zero.
   */
  lemma PlaceKeeps(hasClue: Grid<bool>, problem: Grid<Clue>, unplaced: int, pos: Coord, c: Clue)
    requires SearchInv(hasClue, problem, unplaced)
    requires hasClue.IsValidCoord(pos) && hasClue.Get(pos)
    requires IsClueCandidate(problem.Get(pos), !ZeroNear(problem, pos), c)
    ensures SearchInv(hasClue, problem.Set(pos, c), unplaced - (if problem.Get(pos) == NoClue then 1 else 0))
  {
    var q := problem.Set(pos, c);
    problem.IndexInRange(pos);
    var i := problem.Index(pos);
    assert q.data == problem.data[i := c];
    UnplacedSet(hasClue.data, problem.data, i, c);
    ZerosKept(problem, pos, c);
  }

  /**
   * With nothing left to place, the problem holds a clue exactly where
   * the placement marks a cell, each from 0 to 3: the checks of the
   * generator's test on the shape of a problem.
   */
  lemma FinishedMatchesPlacement(hasClue: Grid<bool>, problem: Grid<Clue>)
    requires SearchInv(hasClue, problem, 0)
    ensures forall p :: problem.IsValidCoord(p) ==> (hasClue.Get(p) <==> problem.Get(p) != NoClue)
    ensures forall p :: problem.IsValidCoord(p) && problem.Get(p) != NoClue ==> 0 <= problem.Get(p).n < 4
  {
    UnplacedZero(hasClue.data, problem.data);
    forall p | problem.IsValidCoord(p)
      ensures hasClue.Get(p) <==> problem.Get(p) != NoClue
      ensures problem.Get(p) != NoClue ==> 0 <= problem.Get(p).n < 4
    {
      problem.IndexInRange(p);
    }
  }

  /** The empty problem satisfies the invariant, with every marked cell left to place. */
  lemma InitialSearch(hasClue: Grid<bool>)
    requires hasClue.Valid()
    ensures SearchInv(hasClue, NewGrid(hasClue.height, hasClue.width, NoClue), CountTrue(hasClue.data))
  {
    var problem := NewGrid(hasClue.height, hasClue.width, NoClue);
    UnplacedInit(hasClue.data, problem.data);
    forall p | problem.IsValidCoord(p)
      ensures problem.Get(p) == NoClue
    {
      problem.IndexInRange(p);
    }
  }

  // ---------------------------------------------------------------
  // The search
  // ---------------------------------------------------------------

  /**
   * The operations of the Slitherlink field that `generate` uses, on a
   * field value of type `F`: `Field::new`, `check_all_cell`, `add_clue`,
   * the edge lattice, `inconsistent`, `fully_solved`, the number of
   * decided edges, the clue grid, and whether the in-out rule and the
   * connectability check find a contradiction.
   */
  datatype FieldOps<!F> = FieldOps(
    create: Grid<Clue> -> F,
    checkAll: F -> F,
    addClue: (F, Coord, Clue) -> F,
    edges: F -> Grid<Edge>,
    inconsistent: F -> bool,
    fullySolved: F -> bool,
    decidedEdges: F -> int,
    clues: F -> Grid<Clue>,
    inoutInconsistent: F -> bool)

  /** The random choices: the two shuffles and the draw against the temperature. */
  datatype Chance = Chance(
    shufflePos: (nat, seq<Coord>) -> seq<Coord>,
    shuffleClues: (nat, nat, seq<Clue>) -> seq<Clue>,
    accept: (nat, nat, nat, int) -> bool)

  /** The random choices permute what they shuffle. */
  ghost predicate Shuffles(ch: Chance) {
    && (forall t, s :: multiset(ch.shufflePos(t, s)) == multiset(s))
    && (forall t, i, s :: multiset(ch.shuffleClues(t, i, s)) == multiset(s))
  }

  /** The field's edge lattice and clue grid are grids. */
  ghost predicate LatticeOps<F(!new)>(ops: FieldOps<F>) {
    forall f :: ops.edges(f).Valid() && ops.clues(f).Valid()
  }

  /** The state of the search. */
  datatype Search<F> = Search(problem: Grid<Clue>, prevScore: int, unplaced: int, lastField: F)

  /** The outcome of trying one position. */
  datatype Attempt<F> = Attempt(updated: bool, solved: bool, s: Search<F>)

  /**
   * The clue loop at one position (src/slitherlink/generator.rs:50-115):
   * the first clue that the field accepts, that beats the score or passes
   * the draw, and that survives the in-out test is kept. When none is, the
   * problem is as it was. `problem[pos]` holds each tried clue in turn,
   * so the problem of a tried clue is the old one with that clue at `pos`.
   */
  method TryPosition<F(!new)>(hasClue: Grid<bool>, s0: Search<F>, pos: Coord, ops: FieldOps<F>, ch: Chance, step: nat, k: nat)
    returns (a: Attempt<F>)
    requires SearchInv(hasClue, s0.problem, s0.unplaced) && Shuffles(ch) && LatticeOps(ops)
    requires hasClue.IsValidCoord(pos) && hasClue.Get(pos)
    ensures SearchInv(hasClue, a.s.problem, a.s.unplaced)
    ensures !a.updated ==> !a.solved && a.s == s0
    ensures a.updated ==> exists c :: IsClueCandidate(s0.problem.Get(pos), !ZeroNear(s0.problem, pos), c) && a.s.problem == s0.problem.Set(pos, c)
    ensures a.solved ==> a.s.unplaced == 0
  {
    var problem := s0.problem;
    var prevClue := problem.Get(pos);
    var near := HasZeroNearby(problem, pos);
    var zeroOk := !near;
    var cands := ClueCandidates(prevClue, zeroOk);
    var order := ch.shuffleClues(step, k, cands);
    assert multiset(order) == multiset(cands);
    var common := if prevClue == NoClue then s0.lastField else ops.checkAll(ops.create(problem.Set(pos, NoClue)));
    var i := 0;
    while i < |order|
      invariant 0 <= i <= |order|
    {
      var c := order[i];
      assert c in multiset(order);
      var next := problem.Set(pos, c);
      var field := ops.addClue(common, pos, c);
      if !ops.inconsistent(field) {
        var prohibited := CountProhibited(hasClue, ops.clues(field), ops.edges(field), next);
        var score := ops.decidedEdges(field) - prohibited * 10;
        if (s0.prevScore < score || ch.accept(step, k, i, score - s0.prevScore)) && !ops.inoutInconsistent(field) {
          var unplaced := s0.unplaced - (if prevClue == NoClue then 1 else 0);
          PlaceKeeps(hasClue, problem, s0.unplaced, pos, c);
          var solved := ops.fullySolved(field) && unplaced == 0;
          return Attempt(true, solved, Search(next, score, unplaced, field));
        }
      }
      i := i + 1;
    }
    a := Attempt(false, false, s0);
  }

  /**
   * One round of `generate` (src/slitherlink/generator.rs:36-116): the
   * candidate positions, shuffled, tried in turn until one is updated.
   */
  method GenerateRound<F(!new)>(hasClue: Grid<bool>, s0: Search<F>, ops: FieldOps<F>, ch: Chance, step: nat)
    returns (a: Attempt<F>)
    requires SearchInv(hasClue, s0.problem, s0.unplaced) && Shuffles(ch) && LatticeOps(ops)
    ensures SearchInv(hasClue, a.s.problem, a.s.unplaced)
    ensures !a.updated ==> !a.solved && a.s == s0
    ensures a.updated ==> exists pos, c :: hasClue.IsValidCoord(pos) && hasClue.Get(pos) && a.s.problem == s0.problem.Set(pos, c)
    ensures a.solved ==> a.s.unplaced == 0
  {
    var cand := PosCandidates(hasClue, s0.problem, ops.edges(s0.lastField));
    var order := ch.shufflePos(step, cand);
    assert multiset(order) == multiset(cand);
    var k := 0;
    while k < |order|
      invariant 0 <= k <= |order|
    {
      var pos := order[k];
      assert pos in multiset(order);
      assert pos in cand;
      a := TryPosition(hasClue, s0, pos, ops, ch, step, k);
      if a.updated {
        return;
      }
      k := k + 1;
    }
    a := Attempt(false, false, s0);
  }

  /**
   * `generate` (src/slitherlink/generator.rs:15-120) on the placement
   * `hasClue`. A returned problem puts a clue exactly where the
   * placement marks a cell, each clue is from 0 to 3, and no two zeros
   * touch: what the generator's test checks of its shape.
   */
  method Generate<F(!new)>(hasClue: Grid<bool>, ops: FieldOps<F>, ch: Chance) returns (r: Option<Grid<Clue>>)
    requires hasClue.Valid() && Shuffles(ch) && LatticeOps(ops)
    ensures r.Some? ==> r.value.Valid() && r.value.height == hasClue.height && r.value.width == hasClue.width
    ensures r.Some? ==> forall p :: r.value.IsValidCoord(p) ==> (hasClue.Get(p) <==> r.value.Get(p) != NoClue)
    ensures r.Some? ==> forall p :: r.value.IsValidCoord(p) && r.value.Get(p) != NoClue ==> 0 <= r.value.Get(p).n < 4
    ensures r.Some? ==> NoAdjacentZeros(r.value)
  {
    var maxStep := hasClue.height * hasClue.width * 10;
    var problem := NewGrid(hasClue.height, hasClue.width, NoClue);
    var unplaced := CountPlacement(hasClue);
    InitialSearch(hasClue);
    var s := Search(problem, 0, unplaced, ops.create(problem));
    var step := 0;
    while step < maxStep
      invariant SearchInv(hasClue, s.problem, s.unplaced)
    {
      var a := GenerateRound(hasClue, s, ops, ch, step);
      s := a.s;
      if a.solved {
        FinishedMatchesPlacement(hasClue, s.problem);
        return Some(s.problem);
      }
      step := step + 1;
    }
    r := None;
  }
}
