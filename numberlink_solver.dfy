/**
 * `solve` and `search` of src/numberlink/solver.rs: a cell-by-cell
 * backtracking search that decides, at each cell in row-major order,
 * whether a line leaves it to the right and downwards, keeps the
 * frontier of open chain ends, and records every complete placement.
 *
 * `LinePlacement::isolated` is not part of this model: the search takes it
 * as a parameter over the placement's two grids.
 */
module NumberlinkSolver {
  import opened Wrappers
  import opened Common
  import opened NumberlinkBase
  import opened NumberlinkFrontier

  /** A recorded answer: the `right` and `down` grids of a cloned `LinePlacement`. */
  datatype Answer = Answer(right: Grid<bool>, down: Grid<bool>)

  /** Edge `cd` of a segment grid: false outside it, as `right(cd)` and `down(cd)` read. */
  function EdgeAt(g: Grid<bool>, cd: Coord): bool
    requires |g.data| == g.height * g.width
  {
    g.IsValidCoord(cd) && (g.IndexInRange(cd); g.data[g.Index(cd)])
  }

  function B(b: bool): int {
    if b then 1 else 0
  }

  /** The segment grids fit a `height x width` problem, as `LinePlacement::new` builds them. */
  predicate Fits(problem: Grid<int>, right: Grid<bool>, down: Grid<bool>) {
    && problem.height >= 1 && problem.width >= 1 && |problem.data| == problem.height * problem.width
    && right.height == problem.height && right.width == problem.width - 1 && |right.data| == right.height * right.width
    && down.height == problem.height - 1 && down.width == problem.width && |down.data| == down.height * down.width
  }

  /** The number of line segments at a cell, its clue counting as one. */
  function Degree(problem: Grid<int>, right: Grid<bool>, down: Grid<bool>, cy: int, cx: int): int
    requires Fits(problem, right, down) && 0 <= cy < problem.height && 0 <= cx < problem.width
  {
    Segments(right, down, cy, cx) + B(problem.Get(Coord(cy, cx)) < 0)
  }

  /** The number of line segments at cell (cy, cx): up, left, down and right. */
  function Segments(right: Grid<bool>, down: Grid<bool>, cy: int, cx: int): int
    requires |right.data| == right.height * right.width && |down.data| == down.height * down.width
  {
    B(EdgeAt(down, Coord(cy - 1, cx))) + B(EdgeAt(right, Coord(cy, cx - 1)))
      + B(EdgeAt(down, Coord(cy, cx))) + B(EdgeAt(right, Coord(cy, cx)))
  }

  /** Cell (cy, cx) comes before (y, x) in row-major order. */
  predicate Before(cy: int, cx: int, y: int, x: int) {
    cy < y || (cy == y && cx < x)
  }

  /** Every cell before (y, x) has degree 0 or 2. */
  predicate DegreesOk(problem: Grid<int>, right: Grid<bool>, down: Grid<bool>, y: int, x: int)
    requires Fits(problem, right, down)
  {
    forall cy, cx :: 0 <= cy < problem.height && 0 <= cx < problem.width && Before(cy, cx, y, x) ==>
      Degree(problem, right, down, cy, cx) == 0 || Degree(problem, right, down, cy, cx) == 2
  }

  /** No segment of a cell from (y, x) on is placed yet. */
  predicate Unplaced(problem: Grid<int>, right: Grid<bool>, down: Grid<bool>, y: int, x: int)
    requires Fits(problem, right, down)
  {
    forall cy, cx :: 0 <= cy < problem.height && 0 <= cx < problem.width && !Before(cy, cx, y, x) ==>
      !EdgeAt(right, Coord(cy, cx)) && !EdgeAt(down, Coord(cy, cx))
  }

  /** A recorded answer: a placement of the problem's shape in which every cell has degree 0 or 2. */
  predicate Complete(problem: Grid<int>, a: Answer) {
    Fits(problem, a.right, a.down) && DegreesOk(problem, a.right, a.down, problem.height, 0)
  }

  /** The length of the run of `right` segments in row `y - 1` that ends at column `x - 1`, from `w` on. */
  function RunLength(place: Grid<bool>, y: int, x: int, w: nat): (r: nat)
    requires |place.data| == place.height * place.width
    ensures r >= w
    decreases x - w
  {
    if x - 1 - w >= 0 && EdgeAt(place, Coord(y - 1, x - 1 - w)) then RunLength(place, y, x, w + 1) else w
  }

  /**
   * The last forbidden pattern: a line comes down into (y, x) from a run of
   * `right` segments above that is also entered from above at its left
   * end, and the row below that run has neither a `right` segment nor a
   * clue.
   */
  predicate UTurn(problem: Grid<int>, right: Grid<bool>, down: Grid<bool>, y: int, x: int)
    requires Fits(problem, right, down) && 0 <= y < problem.height && 0 <= x < problem.width
  {
    y > 0 && EdgeAt(down, Coord(y - 1, x)) &&
    var w := RunLength(right, y, x, 0);
    w > 0 && EdgeAt(down, Coord(y - 1, x - w)) &&
    forall x2 :: x - w <= x2 < x ==> !EdgeAt(right, Coord(y, x2)) && !(problem.Get(Coord(y, x2)) < 0)
  }

  /** The loops of the last forbidden pattern of `search`. */
  method CheckUTurn(problem: Grid<int>, place: LinePlacement, y: int, x: int) returns (invalid: bool)
    requires place.Valid() && Fits(problem, place.right, place.down) && 0 <= y < problem.height && 0 <= x < problem.width
    ensures invalid == UTurn(problem, place.right, place.down, y, x)
  {
    if !(y > 0 && place.Down(Coord(y - 1, x))) {
      return false;
    }
    var w := 0;
    while x - 1 - w >= 0 && place.Right(Coord(y - 1, x - 1 - w))
      invariant 0 <= w <= x
      invariant RunLength(place.right, y, x, w) == RunLength(place.right, y, x, 0)
      decreases x - w
    {
      w := w + 1;
    }
    if !(w > 0 && place.Down(Coord(y - 1, x - w))) {
      return false;
    }
    invalid := true;
    var x2 := x - w;
    while x2 < x
      invariant x - w <= x2 <= x
      invariant forall k :: x - w <= k < x2 ==> !EdgeAt(place.right, Coord(y, k)) && !(problem.Get(Coord(y, k)) < 0)
    {
      if place.Right(Coord(y, x2)) || (x2 != x && problem.Get(Coord(y, x2)) < 0) {
        return false;
      }
      x2 := x2 + 1;
    }
  }

  /** A fresh copy of the frontier, `frontier.clone()`. */
  method CloneFrontier(frontier: seq<int>) returns (a: array<int>)
    ensures fresh(a) && a[..] == frontier
  {
    a := new int[|frontier|](k requires 0 <= k < |frontier| => frontier[k]);
  }

  /**
   * `search(y, x, ...)`: every answer it records is complete, and it
   * leaves the placement as it found it. It starts from a placement where
   * the cells before (y, x) have degree 0 or 2 and none from (y, x) on has
   * a segment yet.
   */
  method Search(y0: int, x0: int, problem: Grid<int>, frontier: seq<int>, place: LinePlacement,
                isolated: (Grid<bool>, Grid<bool>, Coord) -> bool, answers: seq<Answer>) returns (out: seq<Answer>)
    requires place.Valid() && Fits(problem, place.right, place.down)
    requires 0 <= y0 < problem.height && 0 <= x0 <= problem.width
    requires |frontier| == problem.width && InRange(frontier)
    requires DegreesOk(problem, place.right, place.down, y0, x0) && Unplaced(problem, place.right, place.down, y0, x0)
    modifies place
    ensures place.right == old(place.right) && place.down == old(place.down)
    ensures |out| >= |answers| && out[..|answers|] == answers
    ensures forall k :: |answers| <= k < |out| ==> Complete(problem, out[k])
    decreases problem.height - y0, problem.width - x0, 2
  {
    var y, x := y0, x0;
    if x == problem.width {
      y, x := y + 1, 0;
    }
    if y == problem.height {
      return answers + [Answer(place.right, place.down)];
    }
    out := answers;
    for k := 0 to 4
      invariant place.right == old(place.right) && place.down == old(place.down)
      invariant |out| >= |answers| && out[..|answers|] == answers
      invariant forall k :: |answers| <= k < |out| ==> Complete(problem, out[k])
    {
      var prev := out;
      out := Branch(y, x, k >= 2, k % 2 == 1, problem, frontier, place, isolated, out);
      assert out[..|answers|] == prev[..|prev|][..|answers|];
    }
  }

  /** One of the four choices at (y, x): `h` for a segment to the right, `v` for one downwards. */
  method Branch(y: int, x: int, h: bool, v: bool, problem: Grid<int>, frontier: seq<int>, place: LinePlacement,
                isolated: (Grid<bool>, Grid<bool>, Coord) -> bool, answers: seq<Answer>) returns (out: seq<Answer>)
    requires place.Valid() && Fits(problem, place.right, place.down)
    requires 0 <= y < problem.height && 0 <= x < problem.width
    requires |frontier| == problem.width && InRange(frontier)
    requires DegreesOk(problem, place.right, place.down, y, x) && Unplaced(problem, place.right, place.down, y, x)
    modifies place
    ensures place.right == old(place.right) && place.down == old(place.down)
    ensures |out| >= |answers| && out[..|answers|] == answers
    ensures forall k :: |answers| <= k < |out| ==> Complete(problem, out[k])
    decreases problem.height - y, problem.width - x, 1
  {
    out := answers;
    var height, width := problem.height, problem.width;
    if v && y == height - 1 {
      return;
    }
    if h && x == width - 1 {
      return;
    }
    var deg := B(v) + B(h) + B(EdgeAt(place.down, Coord(y - 1, x))) + B(EdgeAt(place.right, Coord(y, x - 1))) + B(problem.Get(Coord(y, x)) < 0);
    if deg != 0 && deg != 2 {
      return;
    }
    if Pruned(problem, place.right, place.down, isolated, y, x, h, v) {
      return;
    }
    var uTurn := CheckUTurn(problem, place, y, x);
    if uTurn {
      return;
    }
    var fail, next := FrontierStep(problem, frontier, y, x, h, v);
    if fail {
      return;
    }
    out := Descend(y, x, h, v, problem, next, place, isolated, answers);
  }

  /**
   * The frontier after the choice at (y, x), on a clone: `join` the ends
   * at x and x + 1 for a segment to the right; for a segment downwards,
   * `connect_to_number` when the cell below is a number; without one,
   * `forget` the end at x and open a fresh end (or a number's) from the
   * cell below. A step that does not fail keeps the ends paired.
   */
  method FrontierStep(problem: Grid<int>, frontier: seq<int>, y: int, x: int, h: bool, v: bool)
      returns (fail: bool, next: seq<int>)
    requires |problem.data| == problem.height * problem.width
    requires 0 <= y < problem.height && 0 <= x < problem.width
    requires h ==> x < problem.width - 1
    requires v ==> y < problem.height - 1
    requires |frontier| == problem.width && InRange(frontier)
    ensures !fail ==> |next| == problem.width && InRange(next)
    ensures !fail && Paired(frontier) ==> Paired(next)
  {
    var newFrontier := CloneFrontier(frontier);
    if h {
      StepsInRange(newFrontier[..], x, x + 1, ClosedEnd);
      ghost var f := newFrontier[..];
      var bad := Join(newFrontier, x, x + 1);
      if bad {
        return true, [];
      }
      if Paired(f) {
        JoinPaired(f, x, x + 1);
      }
    }
    if v {
      var belowCell := problem.Get(Coord(y + 1, x));
      if belowCell < 0 {
        StepsInRange(newFrontier[..], x, x, belowCell);
        ghost var f := newFrontier[..];
        var bad := ConnectToNumber(newFrontier, x, belowCell);
        if bad {
          return true, [];
        }
        if Paired(f) {
          ConnectPaired(f, x, belowCell);
        }
      }
    } else {
      if Forget(newFrontier[..], x) {
        return true, [];
      }
      if y < problem.height - 1 {
        var belowCell := problem.Get(Coord(y + 1, x));
        if Paired(newFrontier[..]) {
          ForgetPaired(newFrontier[..], x, if belowCell < 0 then belowCell else x);
        }
        newFrontier[x] := if belowCell < 0 then belowCell else x;
      }
    }
    return false, newFrontier[..];
  }

  /** The end of one choice: place the segments of (y, x), search on from the next cell, and take them back. */
  method Descend(y: int, x: int, h: bool, v: bool, problem: Grid<int>, frontier: seq<int>, place: LinePlacement,
                 isolated: (Grid<bool>, Grid<bool>, Coord) -> bool, answers: seq<Answer>) returns (out: seq<Answer>)
    requires place.Valid() && Fits(problem, place.right, place.down)
    requires 0 <= y < problem.height && 0 <= x < problem.width
    requires h ==> x < problem.width - 1
    requires v ==> y < problem.height - 1
    requires |frontier| == problem.width && InRange(frontier)
    requires DegreesOk(problem, place.right, place.down, y, x) && Unplaced(problem, place.right, place.down, y, x)
    requires var deg := B(v) + B(h) + B(EdgeAt(place.down, Coord(y - 1, x))) + B(EdgeAt(place.right, Coord(y, x - 1))) + B(problem.Get(Coord(y, x)) < 0);
      deg == 0 || deg == 2
    modifies place
    ensures place.right == old(place.right) && place.down == old(place.down)
    ensures |out| >= |answers| && out[..|answers|] == answers
    ensures forall k :: |answers| <= k < |out| ==> Complete(problem, out[k])
    decreases problem.height - y, problem.width - x, 0
  {
    ghost var right0, down0 := place.right, place.down;
    DegreeAfter(problem, right0, down0, y, x, h, v);
    Place(problem, place, y, x, h, v);
    out := Search(y, x + 1, problem, frontier, place, isolated, answers);
    Unplace(problem, place, y, x, h, v, right0, down0);
  }

  /**
   * The first forbidden patterns of `search`. With a segment to the
   * right: an isolated cell above diagonally next to a line coming down
   * beside it, a `right` segment above met by a line coming down at either
   * end, or two lines coming down side by side. With a segment downwards:
   * a corner at the left neighbour.
   */
  predicate Pruned(problem: Grid<int>, right: Grid<bool>, down: Grid<bool>, isolated: (Grid<bool>, Grid<bool>, Coord) -> bool,
                   y: int, x: int, h: bool, v: bool)
    requires Fits(problem, right, down)
  {
    || (h && y > 0 && x < problem.width - 1 &&
         ((isolated(right, down, Coord(y - 1, x + 1)) && EdgeAt(down, Coord(y - 1, x)))
       || (isolated(right, down, Coord(y - 1, x)) && EdgeAt(down, Coord(y - 1, x + 1)))
       || (EdgeAt(right, Coord(y - 1, x)) && (EdgeAt(down, Coord(y - 1, x)) || EdgeAt(down, Coord(y - 1, x + 1))))
       || (EdgeAt(down, Coord(y - 1, x)) && EdgeAt(down, Coord(y - 1, x + 1)))))
    || (v && x > 0 && EdgeAt(right, Coord(y, x - 1)) && EdgeAt(down, Coord(y, x - 1)))
  }

  /** The segment grid `g` with edge `cd` set to `e`: what `set_right` and `set_down` write. */
  function WithEdge(g: Grid<bool>, cd: Coord, e: bool): (r: Grid<bool>)
    requires |g.data| == g.height * g.width && g.IsValidCoord(cd)
    ensures r.height == g.height && r.width == g.width && |r.data| == |g.data|
  {
    g.IndexInRange(cd);
    g.(data := g.data[g.Index(cd) := e])
  }

  /** Edge `cd` placed when `e` holds, the grid unchanged otherwise. */
  function Placed(g: Grid<bool>, cd: Coord, e: bool): (r: Grid<bool>)
    requires |g.data| == g.height * g.width && (e ==> g.IsValidCoord(cd))
    ensures r.height == g.height && r.width == g.width && |r.data| == |g.data|
  {
    if e then WithEdge(g, cd, true) else g
  }

  /** Setting one edge changes that edge and no other. */
  lemma WithEdgeAt(g: Grid<bool>, cd: Coord, e: bool, c: Coord)
    requires |g.data| == g.height * g.width && g.IsValidCoord(cd)
    ensures EdgeAt(WithEdge(g, cd, e), c) == if c == cd then e else EdgeAt(g, c)
  {
    if g.IsValidCoord(c) {
      g.IndexInjective(c, cd);
      g.IndexInRange(c);
    }
  }

  /** After placing a missing edge, edge `c` is set exactly when it is that edge and it was placed, or it was set before. */
  lemma PlacedAt(g: Grid<bool>, cd: Coord, e: bool, c: Coord)
    requires |g.data| == g.height * g.width && (e ==> g.IsValidCoord(cd)) && !EdgeAt(g, cd)
    ensures EdgeAt(Placed(g, cd, e), c) == if c == cd then e else EdgeAt(g, c)
  {
    if e {
      WithEdgeAt(g, cd, true, c);
    }
  }

  /** Clearing an edge that was just placed gives back the grid from before. */
  lemma WithEdgeUndo(g: Grid<bool>, cd: Coord)
    requires |g.data| == g.height * g.width && g.IsValidCoord(cd) && !EdgeAt(g, cd)
    ensures WithEdge(WithEdge(g, cd, true), cd, false) == g
  {
    g.IndexInRange(cd);
    assert g.data[g.Index(cd) := true][g.Index(cd) := false] == g.data;
  }

  /** `if h { set_right(...) } if v { set_down(...) }` at (y, x). */
  method Place(problem: Grid<int>, place: LinePlacement, y: int, x: int, h: bool, v: bool)
    requires place.Valid() && Fits(problem, place.right, place.down)
    requires 0 <= y < problem.height && 0 <= x < problem.width
    requires h ==> x < problem.width - 1
    requires v ==> y < problem.height - 1
    modifies place
    ensures place.right == Placed(old(place.right), Coord(y, x), h)
    ensures place.down == Placed(old(place.down), Coord(y, x), v)
  {
    if h {
      place.right.IndexInRange(Coord(y, x));
      place.SetRight(Coord(y, x), true);
    }
    if v {
      place.down.IndexInRange(Coord(y, x));
      place.SetDown(Coord(y, x), true);
    }
  }

  /** `if h { set_right(..., false) } if v { set_down(..., false) }`: back to the placement before `Place`. */
  method Unplace(problem: Grid<int>, place: LinePlacement, y: int, x: int, h: bool, v: bool, ghost right0: Grid<bool>, ghost down0: Grid<bool>)
    requires Fits(problem, right0, down0)
    requires 0 <= y < problem.height && 0 <= x < problem.width
    requires h ==> x < problem.width - 1
    requires v ==> y < problem.height - 1
    requires !EdgeAt(right0, Coord(y, x)) && !EdgeAt(down0, Coord(y, x))
    requires place.right == Placed(right0, Coord(y, x), h)
    requires place.down == Placed(down0, Coord(y, x), v)
    modifies place
    ensures place.right == right0 && place.down == down0
  {
    if h {
      right0.IndexInRange(Coord(y, x));
      WithEdgeUndo(right0, Coord(y, x));
      place.SetRight(Coord(y, x), false);
    }
    if v {
      down0.IndexInRange(Coord(y, x));
      WithEdgeUndo(down0, Coord(y, x));
      place.SetDown(Coord(y, x), false);
    }
  }

  /** Placing the segments of (y, x) leaves every cell before it with the degree it had. */
  lemma DegreeKept(problem: Grid<int>, right0: Grid<bool>, down0: Grid<bool>, y: int, x: int, h: bool, v: bool, cy: int, cx: int)
    requires Fits(problem, right0, down0)
    requires 0 <= y < problem.height && 0 <= x < problem.width
    requires h ==> x < problem.width - 1
    requires v ==> y < problem.height - 1
    requires !EdgeAt(right0, Coord(y, x)) && !EdgeAt(down0, Coord(y, x))
    requires 0 <= cy < problem.height && 0 <= cx < problem.width && Before(cy, cx, y, x)
    ensures Fits(problem, Placed(right0, Coord(y, x), h), Placed(down0, Coord(y, x), v))
    ensures Degree(problem, Placed(right0, Coord(y, x), h), Placed(down0, Coord(y, x), v), cy, cx)
         == Degree(problem, right0, down0, cy, cx)
  {
    var cd := Coord(y, x);
    PlacedAt(right0, cd, h, Coord(cy, cx));
    PlacedAt(right0, cd, h, Coord(cy, cx - 1));
    PlacedAt(down0, cd, v, Coord(cy, cx));
    PlacedAt(down0, cd, v, Coord(cy - 1, cx));
  }

  /** The degree of (y, x) once its segments are placed is the one the search computed. */
  lemma DegreeHere(problem: Grid<int>, right0: Grid<bool>, down0: Grid<bool>, y: int, x: int, h: bool, v: bool)
    requires Fits(problem, right0, down0)
    requires 0 <= y < problem.height && 0 <= x < problem.width
    requires h ==> x < problem.width - 1
    requires v ==> y < problem.height - 1
    requires !EdgeAt(right0, Coord(y, x)) && !EdgeAt(down0, Coord(y, x))
    ensures Fits(problem, Placed(right0, Coord(y, x), h), Placed(down0, Coord(y, x), v))
    ensures Degree(problem, Placed(right0, Coord(y, x), h), Placed(down0, Coord(y, x), v), y, x)
         == B(v) + B(h) + B(EdgeAt(down0, Coord(y - 1, x))) + B(EdgeAt(right0, Coord(y, x - 1))) + B(problem.Get(Coord(y, x)) < 0)
  {
    var cd := Coord(y, x);
    PlacedAt(right0, cd, h, cd);
    PlacedAt(right0, cd, h, Coord(y, x - 1));
    PlacedAt(down0, cd, v, cd);
    PlacedAt(down0, cd, v, Coord(y - 1, x));
  }

  /**
   * Placing the segments of (y, x), when nothing from (y, x) on was
   * placed and the degree the search computed is 0 or 2, extends both
   * invariants to the next cell.
   */
  lemma DegreeAfter(problem: Grid<int>, right0: Grid<bool>, down0: Grid<bool>, y: int, x: int, h: bool, v: bool)
    requires Fits(problem, right0, down0)
    requires 0 <= y < problem.height && 0 <= x < problem.width
    requires h ==> x < problem.width - 1
    requires v ==> y < problem.height - 1
    requires DegreesOk(problem, right0, down0, y, x) && Unplaced(problem, right0, down0, y, x)
    requires var deg := B(v) + B(h) + B(EdgeAt(down0, Coord(y - 1, x))) + B(EdgeAt(right0, Coord(y, x - 1))) + B(problem.Get(Coord(y, x)) < 0);
      deg == 0 || deg == 2
    ensures Fits(problem, Placed(right0, Coord(y, x), h), Placed(down0, Coord(y, x), v))
    ensures DegreesOk(problem, Placed(right0, Coord(y, x), h), Placed(down0, Coord(y, x), v), y, x + 1)
    ensures Unplaced(problem, Placed(right0, Coord(y, x), h), Placed(down0, Coord(y, x), v), y, x + 1)
  {
    var cd := Coord(y, x);
    assert !EdgeAt(right0, cd) && !EdgeAt(down0, cd);
    var right, down := Placed(right0, cd, h), Placed(down0, cd, v);
    forall cy, cx | 0 <= cy < problem.height && 0 <= cx < problem.width && Before(cy, cx, y, x + 1)
      ensures Degree(problem, right, down, cy, cx) == 0 || Degree(problem, right, down, cy, cx) == 2
    {
      if Before(cy, cx, y, x) {
        DegreeKept(problem, right0, down0, y, x, h, v, cy, cx);
      } else {
        assert cy == y && cx == x;
        DegreeHere(problem, right0, down0, y, x, h, v);
      }
    }
    forall cy, cx | 0 <= cy < problem.height && 0 <= cx < problem.width && !Before(cy, cx, y, x + 1)
      ensures !EdgeAt(right, Coord(cy, cx)) && !EdgeAt(down, Coord(cy, cx))
    {
      PlacedAt(right0, cd, h, Coord(cy, cx));
      PlacedAt(down0, cd, v, Coord(cy, cx));
    }
  }

  /** The problem as `search` reads it: `-c - 1` for a clue `c > 0`, 0 elsewhere. */
  function InternalGrid(problem: Grid<Clue>): Grid<int>
    requires |problem.data| == problem.height * problem.width
  {
    Grid(problem.height, problem.width, seq(|problem.data|, i requires 0 <= i < |problem.data| => Internal(problem.data[i].n)))
  }

  /** The internal problem as the loop of `solve` has it before slot `limit`: the rest is still 0. */
  function InternalUpTo(problem: Grid<Clue>, limit: int): seq<int> {
    seq(|problem.data|, i requires 0 <= i < |problem.data| => if i < limit then Internal(problem.data[i].n) else 0)
  }

  /** The first loop of `solve`: `internal_problem`. */
  method BuildInternal(problem: Grid<Clue>) returns (g: Grid<int>)
    requires problem.Valid()
    ensures g == InternalGrid(problem)
  {
    g := NewGrid(problem.height, problem.width, 0);
    assert g.data == InternalUpTo(problem, 0);
    var base := 0;
    for y := 0 to problem.height
      invariant base == y * problem.width
      invariant g.height == problem.height && g.width == problem.width
      invariant g.data == InternalUpTo(problem, base)
    {
      MulStep(y, problem.width);
      MulMonotone(y + 1, problem.height, problem.width);
      g := BuildRow(problem, g, y, base);
      base := base + problem.width;
    }
    assert g.data == InternalGrid(problem).data;
  }

  /** Row `y` of that loop, from slot `base = y * width` on. */
  method BuildRow(problem: Grid<Clue>, g: Grid<int>, y: int, base: int) returns (g': Grid<int>)
    requires problem.Valid() && g.height == problem.height && g.width == problem.width
    requires 0 <= y < problem.height && base == y * problem.width && base + problem.width <= |problem.data|
    requires g.data == InternalUpTo(problem, base)
    ensures g'.height == g.height && g'.width == g.width
    ensures g'.data == InternalUpTo(problem, base + problem.width)
  {
    g' := g;
    for x := 0 to problem.width
      invariant g'.height == g.height && g'.width == g.width
      invariant g'.data == InternalUpTo(problem, base + x)
    {
      var c := problem.Get(Coord(y, x)).n;
      if c > 0 {
        g' := g'.Set(Coord(y, x), -c - 1);
      }
    }
  }

  /**
   * The second loop of `solve`: each column of the top row opens a fresh
   * end when its cell has no clue, and otherwise the end of its number.
   * With no negative clue in that row, the ends are paired.
   */
  method InitialFrontier(problem: Grid<Clue>, internal: Grid<int>) returns (f: seq<int>)
    requires problem.Valid() && problem.height >= 1 && internal == InternalGrid(problem)
    ensures |f| == problem.width && InRange(f)
    ensures forall x :: 0 <= x < problem.width ==> f[x] == if problem.data[x] == NoClue then x else Internal(problem.data[x].n)
    ensures (forall x :: 0 <= x < problem.width ==> problem.data[x].n >= 0) ==> Paired(f)
  {
    MulMonotone(1, problem.height, problem.width);
    f := seq(problem.width, _ => ClosedEnd);
    for x := 0 to problem.width
      invariant |f| == problem.width
      invariant forall k :: 0 <= k < x ==> f[k] == if problem.data[k] == NoClue then k else Internal(problem.data[k].n)
      invariant forall k :: x <= k < problem.width ==> f[k] == ClosedEnd
    {
      f := f[x := if problem.Get(Coord(0, x)) == NoClue then x else internal.Get(Coord(0, x))];
    }
  }

  /**
   * `solve`: every answer is a complete placement of the internal
   * problem. An empty dimension makes `solve` panic: `Grid::new` with a
   * negative size for width 0, an index past the end of the top row or
   * of the problem for height 0.
   */
  method Solve(problem: Grid<Clue>, isolated: (Grid<bool>, Grid<bool>, Coord) -> bool) returns (r: Option<seq<Answer>>)
    requires problem.Valid()
    ensures r.Some? <==> problem.height >= 1 && problem.width >= 1
    ensures r.Some? ==> forall k :: 0 <= k < |r.value| ==> Complete(InternalGrid(problem), r.value[k])
  {
    if problem.height < 1 || problem.width < 1 {
      return None;
    }
    var internal := BuildInternal(problem);
    var frontier := InitialFrontier(problem, internal);
    MulMonotone(0, problem.width - 1, problem.height);
    MulMonotone(0, problem.height - 1, problem.width);
    var place := new LinePlacement(problem.height, problem.width);
    forall cy, cx | 0 <= cy < problem.height && 0 <= cx < problem.width
      ensures !EdgeAt(place.right, Coord(cy, cx)) && !EdgeAt(place.down, Coord(cy, cx))
    {
      if place.right.IsValidCoord(Coord(cy, cx)) {
        place.right.IndexInRange(Coord(cy, cx));
      }
      if place.down.IsValidCoord(Coord(cy, cx)) {
        place.down.IndexInRange(Coord(cy, cx));
      }
    }
    var answers := Search(0, 0, internal, frontier, place, isolated, []);
    return Some(answers);
  }

  /**
   * What a complete answer means on the problem's own clues: a number
   * cell is the end of one line, and any other cell is passed by a line
   * or left empty.
   */
  lemma CompleteDegrees(problem: Grid<Clue>, a: Answer, cy: int, cx: int)
    requires |problem.data| == problem.height * problem.width && Complete(InternalGrid(problem), a)
    requires 0 <= cy < problem.height && 0 <= cx < problem.width
    ensures problem.height >= 1 && problem.width >= 1
    ensures problem.Get(Coord(cy, cx)).n > 0 ==> Segments(a.right, a.down, cy, cx) == 1
    ensures problem.Get(Coord(cy, cx)).n <= 0 ==> Segments(a.right, a.down, cy, cx) == 0 || Segments(a.right, a.down, cy, cx) == 2
  {
    var g := InternalGrid(problem);
    assert Before(cy, cx, g.height, 0);
    assert Degree(g, a.right, a.down, cy, cx) == 0 || Degree(g, a.right, a.down, cy, cx) == 2;
    problem.IndexInRange(Coord(cy, cx));
    assert g.Get(Coord(cy, cx)) == Internal(problem.Get(Coord(cy, cx)).n);
  }
}
