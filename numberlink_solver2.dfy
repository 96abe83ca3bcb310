/**
 * src/numberlink/solver2.rs: the second Numberlink solver. A
 * `SolverField` holds the chain-end table `another_end`, the edges of
 * the universal grid and an undo log; `decide_edge` and `inspect`
 * propagate, and `search` branches cell by cell in row-major order,
 * rolling back after every branch.
 */
module NumberlinkSolver2 {
  import opened Common
  import opened DecidedGrid
  import opened NumberlinkBase
  import opened NumberlinkHistory

  /** An L-chain the canonical-form rule may add: if `cell` has no clue, both `first` and `second` become Line. */
  datatype Ext = NoExt | Ext(cell: Coord, first: Coord, second: Coord)

  /** The cell (y, x) comes before (y0, x0) in row-major order. */
  predicate Before(y: int, x: int, y0: int, x0: int) {
    y < y0 || (y == y0 && x < x0)
  }

  /** The two edges a cell owns, to its right and below, are decided (outside the grid they read Blank). */
  predicate CellDecided(e: Grid<Edge>, y: int, x: int)
    requires e.Valid()
  {
    EdgeAt(e, Coord(2 * y, 2 * x + 1)) != Undecided && EdgeAt(e, Coord(2 * y + 1, 2 * x)) != Undecided
  }

  /** Every cell of the board before (y0, x0) has both of its edges decided. */
  ghost predicate DecidedBefore(e: Grid<Edge>, height: int, width: int, y0: int, x0: int)
    requires e.Valid()
  {
    forall y, x :: 0 <= y < height && 0 <= x < width && Before(y, x, y0, x0) ==> CellDecided(e, y, x)
  }

  /** Every edge of the board is decided. */
  ghost predicate Complete(e: Grid<Edge>, height: int, width: int)
    requires e.Valid()
  {
    DecidedBefore(e, height, width, height, 0)
  }

  /** A complete grid leaves no edge position of the board undecided. */
  lemma CompleteEdges(e: Grid<Edge>, height: int, width: int, cd: Coord)
    requires e.Valid() && EdgeGridOf(e, height, width) && Complete(e, height, width)
    requires IsEdge(cd) && e.IsValidCoord(cd)
    ensures EdgeAt(e, cd) != Undecided
  {
    var y, x := cd.y / 2, cd.x / 2;
    if cd.y % 2 == 0 {
      assert cd == Coord(2 * y, 2 * x + 1);
    } else {
      assert cd == Coord(2 * y + 1, 2 * x);
    }
    assert Before(y, x, height, 0) && CellDecided(e, y, x);
  }

  /** Decided cells stay decided. */
  lemma DecidedBeforeKept(e0: Grid<Edge>, e1: Grid<Edge>, height: int, width: int, y0: int, x0: int)
    requires e0.Valid() && Settled(e0, e1, Undecided) && DecidedBefore(e0, height, width, y0, x0)
    ensures e1.Valid() && DecidedBefore(e1, height, width, y0, x0)
  {
    forall y, x | 0 <= y < height && 0 <= x < width && Before(y, x, y0, x0)
      ensures CellDecided(e1, y, x)
    {
      assert CellDecided(e0, y, x);
      EdgeKept(e0, e1, Coord(2 * y, 2 * x + 1));
      EdgeKept(e0, e1, Coord(2 * y + 1, 2 * x));
    }
  }

  /** Moving one cell on in a row. */
  lemma DecidedBeforeNext(e: Grid<Edge>, height: int, width: int, y: int, x: int)
    requires e.Valid() && DecidedBefore(e, height, width, y, x) && CellDecided(e, y, x)
    ensures DecidedBefore(e, height, width, y, x + 1)
  {
    forall cy, cx | 0 <= cy < height && 0 <= cx < width && Before(cy, cx, y, x + 1)
      ensures CellDecided(e, cy, cx)
    {
      if Before(cy, cx, y, x) {
        assert CellDecided(e, cy, cx);
      }
    }
  }

  /** The end of a row is the start of the next one. */
  lemma DecidedBeforeRow(e: Grid<Edge>, height: int, width: int, y: int)
    requires e.Valid() && DecidedBefore(e, height, width, y, width)
    ensures DecidedBefore(e, height, width, y + 1, 0)
  {
    forall cy, cx | 0 <= cy < height && 0 <= cx < width && Before(cy, cx, y + 1, 0)
      ensures CellDecided(e, cy, cx)
    {
      assert Before(cy, cx, y, width);
    }
  }

  /** `p` draws exactly the Line edges of `e`: `right` for horizontal edges, `down` for vertical ones. */
  ghost predicate Shows(p: LinePlacement, e: Grid<Edge>, height: int, width: int)
    reads p
  {
    && p.Valid() && e.Valid()
    && p.right.height == height && p.right.width == width - 1
    && p.down.height == height - 1 && p.down.width == width
    && forall y, x :: 0 <= y < height && 0 <= x < width ==>
         && p.Right(Coord(y, x)) == (EdgeAt(e, Coord(2 * y, 2 * x + 1)) == Line)
         && p.Down(Coord(y, x)) == (EdgeAt(e, Coord(2 * y + 1, 2 * x)) == Line)
  }

  /** `p` is an answer reachable from `e0`: the drawing of a complete edge grid that keeps every edge `e0` decided. */
  ghost predicate Solution(p: LinePlacement, e0: Grid<Edge>, height: int, width: int)
    reads p
  {
    exists e: Grid<Edge> :: e0.Valid() && Settled(e0, e, Undecided) && Complete(e, height, width) && Shows(p, e, height, width)
  }

  /** An answer reachable from a later state is reachable from an earlier one. */
  lemma SolutionSettled(p: LinePlacement, e0: Grid<Edge>, e1: Grid<Edge>, height: int, width: int)
    requires e0.Valid() && Settled(e0, e1, Undecided) && Solution(p, e1, height, width)
    ensures Solution(p, e0, height, width)
  {
    var e: Grid<Edge> :| e1.Valid() && Settled(e1, e, Undecided) && Complete(e, height, width) && Shows(p, e, height, width);
    SettledTrans(e0, e1, e, Undecided);
  }

  /**
   * On a fresh field every cell is fine, except a lone clue on a 1x1
   * board: a cell with a neighbour still has an undecided side, and the
   * empty 1x1 board has degree 0.
   */
  lemma InitialDegreesOk(clue: Grid<bool>, height: int, width: int)
    requires clue.Valid() && clue.height == height && clue.width == width && height >= 1 && width >= 1
    requires !(height == 1 && width == 1 && clue.Get(Coord(0, 0)))
    ensures AllDegreesOk(NewGrid(2 * height - 1, 2 * width - 1, Undecided), clue)
  {
    var e := NewGrid(2 * height - 1, 2 * width - 1, Undecided);
    forall cd | clue.IsValidCoord(cd)
      ensures DegreeOk(e, clue, cd)
    {
      var below, right := Coord(2 * cd.y + 1, 2 * cd.x), Coord(2 * cd.y, 2 * cd.x + 1);
      var above, left := Coord(2 * cd.y - 1, 2 * cd.x), Coord(2 * cd.y, 2 * cd.x - 1);
      if cd.y + 1 < height {
        e.IndexInRange(below);
        assert StateIs(e, below, Undecided) == 1;
      } else if cd.x + 1 < width {
        e.IndexInRange(right);
        assert StateIs(e, right, Undecided) == 1;
      } else if cd.y >= 1 {
        e.IndexInRange(above);
        assert StateIs(e, above, Undecided) == 1;
      } else if cd.x >= 1 {
        e.IndexInRange(left);
        assert StateIs(e, left, Undecided) == 1;
      } else {
        assert SidesIn(e, cd, Line) == 0;
      }
    }
  }

  /** A 1x1 board has no edge: its edge grid is complete from the start. */
  lemma LoneComplete(e: Grid<Edge>)
    requires e.Valid() && e.height == 1 && e.width == 1
    ensures Complete(e, 1, 1)
  {
    forall y, x | 0 <= y < 1 && 0 <= x < 1 && Before(y, x, 1, 0)
      ensures CellDecided(e, y, x)
    {
      assert !e.IsValidCoord(Coord(2 * y, 2 * x + 1)) && !e.IsValidCoord(Coord(2 * y + 1, 2 * x));
    }
  }

  /** A lone clue on a 1x1 board has degree 1 although all its sides are decided. */
  lemma LoneClue(e: Grid<Edge>, clue: Grid<bool>)
    requires e.Valid() && e.height == 1 && e.width == 1
    requires clue.Valid() && clue.height == 1 && clue.width == 1 && clue.Get(Coord(0, 0))
    ensures Degree(e, clue, Coord(0, 0)) == 1
    ensures !AllDegreesOk(e, clue)
  {
    var cd := Coord(0, 0);
    LoneCellSides(e, cd, Line);
    LoneCellSides(e, cd, Undecided);
    assert !DegreeOk(e, clue, cd);
  }

  /** The segments of `p` at the cell `cd`, plus one when it holds a clue. */
  function Segments(p: LinePlacement, clue: Grid<bool>, cd: Coord): nat
    reads p
    requires p.Valid() && clue.Valid() && clue.IsValidCoord(cd)
  {
    (if clue.Get(cd) then 1 else 0)
      + (if p.Down(cd) then 1 else 0) + (if p.Right(cd) then 1 else 0)
      + (if p.Down(Coord(cd.y - 1, cd.x)) then 1 else 0) + (if p.Right(Coord(cd.y, cd.x - 1)) then 1 else 0)
  }

  /** The drawing `p` gives every clue exactly one segment and every other cell none or two. */
  ghost predicate Balanced(p: LinePlacement, clue: Grid<bool>)
    reads p
    requires clue.Valid()
  {
    p.Valid() && forall cd :: clue.IsValidCoord(cd) ==> Segments(p, clue, cd) == 0 || Segments(p, clue, cd) == 2
  }

  /** A drawing's segments at a cell are the cell's Line sides. */
  lemma ShownDegree(p: LinePlacement, e: Grid<Edge>, clue: Grid<bool>, height: int, width: int, cd: Coord)
    requires Shows(p, e, height, width) && EdgeGridOf(e, height, width)
    requires clue.Valid() && clue.height == height && clue.width == width && clue.IsValidCoord(cd)
    ensures Segments(p, clue, cd) == Degree(e, clue, cd)
  {
    var up, left := Coord(cd.y - 1, cd.x), Coord(cd.y, cd.x - 1);
    if cd.y >= 1 {
      assert Coord(2 * up.y + 1, 2 * up.x) == Coord(2 * cd.y - 1, 2 * cd.x);
    }
    if cd.x >= 1 {
      assert Coord(2 * left.y, 2 * left.x + 1) == Coord(2 * cd.y, 2 * cd.x - 1);
    }
  }

  /** A cell of a complete grid has its own two edges decided. */
  lemma CompleteCell(e: Grid<Edge>, height: int, width: int, y: int, x: int)
    requires e.Valid() && Complete(e, height, width) && 0 <= y < height && 0 <= x < width
    ensures CellDecided(e, y, x)
  {
    assert Before(y, x, height, 0);
  }

  /** In a complete edge grid every side of a board cell is decided. */
  lemma CompleteSides(e: Grid<Edge>, height: int, width: int, cd: Coord)
    requires e.Valid() && EdgeGridOf(e, height, width) && Complete(e, height, width)
    requires 0 <= cd.y < height && 0 <= cd.x < width
    ensures SidesIn(e, cd, Undecided) == 0
  {
    CompleteCell(e, height, width, cd.y, cd.x);
    if cd.y >= 1 {
      CompleteCell(e, height, width, cd.y - 1, cd.x);
      assert Coord(2 * (cd.y - 1) + 1, 2 * cd.x) == Coord(2 * cd.y - 1, 2 * cd.x);
    }
    if cd.x >= 1 {
      CompleteCell(e, height, width, cd.y, cd.x - 1);
      assert Coord(2 * cd.y, 2 * (cd.x - 1) + 1) == Coord(2 * cd.y, 2 * cd.x - 1);
    }
  }

  /** The drawing of a complete grid whose cells are all `DegreeOk` is balanced. */
  lemma CompleteBalanced(p: LinePlacement, e: Grid<Edge>, clue: Grid<bool>, height: int, width: int)
    requires Shows(p, e, height, width) && EdgeGridOf(e, height, width) && Complete(e, height, width)
    requires clue.Valid() && clue.height == height && clue.width == width && AllDegreesOk(e, clue)
    ensures Balanced(p, clue)
  {
    forall cd | clue.IsValidCoord(cd)
      ensures Segments(p, clue, cd) == 0 || Segments(p, clue, cd) == 2
    {
      CompleteSides(e, height, width, cd);
      ShownDegree(p, e, clue, height, width, cd);
      assert DegreeOk(e, clue, cd);
    }
  }

  /** On a 1x1 board holding a clue no answer is balanced: the clue never gets its segment. */
  lemma LoneUnbalanced(p: LinePlacement, e0: Grid<Edge>, clue: Grid<bool>)
    requires e0.Valid() && EdgeGridOf(e0, 1, 1) && Solution(p, e0, 1, 1)
    requires clue.Valid() && clue.height == 1 && clue.width == 1 && clue.Get(Coord(0, 0))
    ensures !Balanced(p, clue)
  {
    var e: Grid<Edge> :| e0.Valid() && Settled(e0, e, Undecided) && Complete(e, 1, 1) && Shows(p, e, 1, 1);
    ShownDegree(p, e, clue, 1, 1, Coord(0, 0));
    LoneClue(e, clue);
    assert clue.IsValidCoord(Coord(0, 0));
  }

  /** The clue flags of a problem: `has_clue` of `SolverField::new`. */
  function ClueFlags(problem: Grid<Clue>): (g: Grid<bool>)
    requires problem.Valid()
    ensures g.Valid() && g.height == problem.height && g.width == problem.width
    ensures forall i :: 0 <= i < |problem.data| ==> g.data[i] == (problem.data[i] != NoClue)
  {
    Grid(problem.height, problem.width, seq(|problem.data|, i requires 0 <= i < |problem.data| => problem.data[i] != NoClue))
  }

  /** An extension applies to the edge `a` only when `a` is on the board, and then its corner is a cell. */
  predicate ExtFits(a: Coord, ext: Ext, height: int, width: int) {
    ext.Ext? ==>
      && (0 <= a.y < 2 * height - 1 && 0 <= a.x < 2 * width - 1 ==> 0 <= ext.cell.y < height && 0 <= ext.cell.x < width)
      && IsEdge(ext.first) && IsEdge(ext.second)
  }

  /** The L-chain of `ext` is drawn in `e`, or its corner cell holds a clue. */
  ghost predicate Drawn(e: Grid<Edge>, clue: Grid<bool>, ext: Ext)
    requires e.Valid() && clue.Valid()
  {
    ext.Ext? && clue.IsValidCoord(ext.cell) && !clue.Get(ext.cell) ==>
      EdgeAt(e, ext.first) == Line && EdgeAt(e, ext.second) == Line
  }

  /** No side of a canonical-form square is a Line yet. */
  predicate SquareIdle(e: Grid<Edge>, par: Coord, a: Coord, b: Coord)
    requires e.Valid()
  {
    EdgeAt(e, par) != Line && EdgeAt(e, a) != Line && EdgeAt(e, b) != Line
  }

  /**
   * The canonical-form rule on one square, from the edges `e0` to `e1`:
   * the first of `par`, `a`, `b` that is a Line in `e0` makes the other
   * two Blank, and a first Line at `a` or `b` also draws its L-chain.
   */
  ghost predicate SquareDone(e0: Grid<Edge>, e1: Grid<Edge>, clue: Grid<bool>, par: Coord, a: Coord, b: Coord, extA: Ext, extB: Ext)
    requires e0.Valid() && e1.Valid() && clue.Valid()
  {
    if EdgeAt(e0, par) == Line then EdgeAt(e1, a) == Blank && EdgeAt(e1, b) == Blank
    else if EdgeAt(e0, a) == Line then EdgeAt(e1, par) == Blank && EdgeAt(e1, b) == Blank && Drawn(e1, clue, extA)
    else if EdgeAt(e0, b) == Line then EdgeAt(e1, par) == Blank && EdgeAt(e1, a) == Blank && Drawn(e1, clue, extB)
    else e1 == e0
  }

  /** The geometry of the squares above and below a horizontal edge (y even, x odd). */
  lemma RowSquares(y: int, x: int, height: int, width: int)
    requires y % 2 == 0 && IsEdge(Coord(y, x)) && 0 <= y < 2 * height - 1 && 0 <= x < 2 * width - 1
    ensures IsEdge(Coord(y - 2, x)) && IsEdge(Coord(y - 1, x - 1)) && IsEdge(Coord(y - 1, x + 1))
    ensures IsEdge(Coord(y + 2, x)) && IsEdge(Coord(y + 1, x - 1)) && IsEdge(Coord(y + 1, x + 1))
    ensures ExtFits(Coord(y + 1, x - 1), Ext(Coord(y / 2 + 1, x / 2 + 1), Coord(y + 2, x + 2), Coord(y + 3, x + 1)), height, width)
    ensures ExtFits(Coord(y + 1, x + 1), Ext(Coord(y / 2 + 1, x / 2), Coord(y + 2, x - 2), Coord(y + 3, x - 1)), height, width)
  {
    var cy, cx := y / 2, x / 2;
    assert y == 2 * cy && x == 2 * cx + 1;
  }

  /** The geometry of the squares left and right of a vertical edge (y odd, x even). */
  lemma ColumnSquares(y: int, x: int, height: int, width: int)
    requires y % 2 == 1 && IsEdge(Coord(y, x)) && 0 <= y < 2 * height - 1 && 0 <= x < 2 * width - 1
    ensures IsEdge(Coord(y, x - 2)) && IsEdge(Coord(y - 1, x - 1)) && IsEdge(Coord(y + 1, x - 1))
    ensures IsEdge(Coord(y, x + 2)) && IsEdge(Coord(y - 1, x + 1)) && IsEdge(Coord(y + 1, x + 1))
    ensures ExtFits(Coord(y - 1, x - 1), Ext(Coord(y / 2 + 1, x / 2 - 1), Coord(y + 1, x - 3), Coord(y + 2, x - 2)), height, width)
    ensures ExtFits(Coord(y - 1, x + 1), Ext(Coord(y / 2 + 1, x / 2 + 1), Coord(y + 1, x + 3), Coord(y + 2, x + 2)), height, width)
  {
    var cy, cx := y / 2, x / 2;
    assert y == 2 * cy + 1 && x == 2 * cx;
  }

  /**
   * The tables of `SolverField::new`, slot by slot in row-major order: an
   * empty cell is a chain on its own, a clue `c` holds `-(c + 1)`.
   */
  method InitialTables(problem: Grid<Clue>) returns (ae: seq<int>, hasClue: seq<bool>)
    ensures |ae| == |problem.data| && |hasClue| == |problem.data|
    ensures forall i :: 0 <= i < |problem.data| ==>
      ae[i] == InitialEnd(problem.data[i].n, i) && hasClue[i] == (problem.data[i] != NoClue)
  {
    ae, hasClue := [], [];
    var i := 0;
    while i < |problem.data|
      invariant 0 <= i <= |problem.data| && |ae| == i && |hasClue| == i
      invariant forall j :: 0 <= j < i ==> ae[j] == InitialEnd(problem.data[j].n, j) && hasClue[j] == (problem.data[j] != NoClue)
    {
      var c := problem.data[i];
      if c == NoClue {
        ae, hasClue := ae + [i], hasClue + [false];
      } else {
        ae, hasClue := ae + [-(c.n + 1)], hasClue + [true];
      }
      i := i + 1;
    }
  }

  class SolverField {
    const height: int
    const width: int
    /** `has_clue`: the cell holds a number. */
    const hasClue: Grid<bool>
    /** `another_end`, indexed by cell; see `Paired`. */
    var anotherEnd: Grid<int>
    /** The `(2 * height - 1) x (2 * width - 1)` universal grid; edge positions have one odd coordinate. */
    var edge: Grid<Edge>
    var inconsistent: bool
    var history: seq<History>

    function Snapshot(): Memo
      reads this
    {
      Memo(anotherEnd, edge, inconsistent)
    }

    predicate InCells(cd: Coord) {
      0 <= cd.y < height && 0 <= cd.x < width
    }

    predicate InEdges(cd: Coord) {
      0 <= cd.y < 2 * height - 1 && 0 <= cd.x < 2 * width - 1
    }

    /** Every log entry names a cell slot or an edge of this field. */
    ghost predicate LogFits()
      reads this
    {
      forall i :: 0 <= i < |history| ==>
        && (history[i].LogAnotherEnd? ==> 0 <= history[i].id < height * width)
        && (history[i].LogEdge? ==> InEdges(history[i].cd))
    }

    ghost predicate Valid()
      reads this
    {
      && height >= 1 && width >= 1
      && hasClue.Valid() && hasClue.height == height && hasClue.width == width
      && anotherEnd.Valid() && anotherEnd.height == height && anotherEnd.width == width
      && edge.Valid() && EdgeGridOf(edge, height, width)
      && LogFits()
    }

    /** `Valid` and the partner invariant of the chain-end table. */
    ghost predicate Consistent()
      reads this
    {
      Valid() && Paired(anotherEnd.data)
    }

    ghost function Undecideds(): nat
      reads this
    {
      CountOf(edge.data, Undecided)
    }

    /** A Line on the edge `cd` would fail the guards of the chain-end table. */
    ghost predicate LineFails(cd: Coord)
      reads this
      requires Valid() && IsEdge(cd) && InEdges(cd)
    {
      EndsInBoard(cd, height, width);
      var (a, b) := EndsOf(cd);
      anotherEnd.IndexInRange(a);
      anotherEnd.IndexInRange(b);
      LinkFails(anotherEnd.data, anotherEnd.Index(a), anotherEnd.Index(b))
    }

    /**
     * `SolverField::new`: the initial chain-end table, the clue flags,
     * every edge Undecided, the flag clear and an empty log.
     */
    constructor (problem: Grid<Clue>)
      requires problem.Valid() && problem.height >= 1 && problem.width >= 1
      requires forall i :: 0 <= i < |problem.data| ==> problem.data[i].n >= 0
      ensures Consistent() && height == problem.height && width == problem.width
      ensures forall i :: 0 <= i < |problem.data| ==>
        anotherEnd.data[i] == InitialEnd(problem.data[i].n, i) && hasClue.data[i] == (problem.data[i] != NoClue)
      ensures edge == NewGrid(2 * height - 1, 2 * width - 1, Undecided)
      ensures !inconsistent && history == []
    {
      var ae, hc := InitialTables(problem);
      height := problem.height;
      width := problem.width;
      hasClue := Grid(problem.height, problem.width, hc);
      anotherEnd := Grid(problem.height, problem.width, ae);
      edge := NewGrid(2 * problem.height - 1, 2 * problem.width - 1, Undecided);
      inconsistent := false;
      history := [];
      InitialPaired(seq(|ae|, i requires 0 <= i < |ae| => problem.data[i].n), ae);
    }

    /** `get_edge`. */
    function GetEdge(cd: Coord): (e: Edge)
      reads this
      requires Valid()
      ensures !InEdges(cd) ==> e == Blank
      ensures InEdges(cd) ==> e == edge.Get(cd)
    {
      EdgeAt(edge, cd)
    }

    /** `set_inconsistent`: logs the old flag, sets it, and reports the contradiction. */
    method SetInconsistent() returns (r: bool)
      requires Consistent()
      modifies this
      ensures Consistent() && r && inconsistent
      ensures anotherEnd == old(anotherEnd) && edge == old(edge)
      ensures history == old(history) + [LogInconsistent(old(inconsistent))]
      ensures Step(old(Snapshot()), old(history), Snapshot(), history)
    {
      SettledRefl(edge, Undecided);
      StepLogged(Snapshot(), history, Snapshot().(inconsistent := true), LogInconsistent(inconsistent));
      history := history + [LogInconsistent(inconsistent)];
      inconsistent := true;
      r := true;
    }

    /** `update_another_end`: logs the old entry, then writes. */
    method UpdateAnotherEnd(id: int, value: int)
      requires Valid() && 0 <= id < height * width
      modifies this
      ensures Valid() && edge == old(edge) && inconsistent == old(inconsistent)
      ensures anotherEnd == old(anotherEnd).(data := old(anotherEnd).data[id := value])
      ensures history == old(history) + [LogAnotherEnd(id, old(anotherEnd).data[id])]
      ensures Step(old(Snapshot()), old(history), Snapshot(), history)
    {
      SettledRefl(edge, Undecided);
      UndoAnotherEnd(Snapshot(), id, value);
      StepLogged(Snapshot(), history, Snapshot().(anotherEnd := anotherEnd.(data := anotherEnd.data[id := value])), LogAnotherEnd(id, anotherEnd.data[id]));
      history := history + [LogAnotherEnd(id, anotherEnd.data[id])];
      anotherEnd := anotherEnd.(data := anotherEnd.data[id := value]);
    }

    /** `add_checkpoint`. */
    method AddCheckpoint()
      requires Valid()
      modifies this
      ensures Valid() && Snapshot() == old(Snapshot())
      ensures history == old(history) + [Checkpoint]
    {
      history := history + [Checkpoint];
    }

    /** `rollback`: pops and undoes entries, latest first, through the latest checkpoint. */
    method Rollback()
      requires Valid()
      modifies this
      ensures Valid()
      ensures (Snapshot(), history) == RollbackOf(old(Snapshot()), old(history))
    {
      while history != []
        invariant Valid()
        invariant RollbackOf(Snapshot(), history) == RollbackOf(old(Snapshot()), old(history))
        decreases |history|
      {
        var entry := history[|history| - 1];
        assert RollbackOf(Snapshot(), history) == if entry.Checkpoint? then (Snapshot(), history[..|history| - 1])
          else RollbackOf(Undo(Snapshot(), entry), history[..|history| - 1]);
        history := history[..|history| - 1];
        match entry
        case LogAnotherEnd(id, v) =>
          anotherEnd := anotherEnd.(data := anotherEnd.data[id := v]);
        case LogEdge(cd) =>
          edge := edge.Set(cd, Undecided);
        case LogInconsistent(b) =>
          inconsistent := b;
        case Checkpoint =>
          return;
      }
    }

    /**
     * The chain-end part of `decide_edge` for a Line between the cells
     * `end1` and `end2`: it fails exactly on the guards, setting the flag,
     * and otherwise rewrites the table as `Linked` says, through logged
     * updates.
     */
    method LinkEnds(end1: Coord, end2: Coord) returns (r: bool)
      requires Consistent() && InCells(end1) && InCells(end2) && end1 != end2
      modifies this
      ensures Consistent() && edge == old(edge)
      ensures Step(old(Snapshot()), old(history), Snapshot(), history)
      ensures 0 <= old(anotherEnd).Index(end1) < |old(anotherEnd).data| && 0 <= old(anotherEnd).Index(end2) < |old(anotherEnd).data|
      ensures r == LinkFails(old(anotherEnd).data, old(anotherEnd).Index(end1), old(anotherEnd).Index(end2))
      ensures r ==> inconsistent && anotherEnd == old(anotherEnd)
      ensures !r ==> inconsistent == old(inconsistent) && anotherEnd.data == Linked(old(anotherEnd).data, old(anotherEnd).Index(end1), old(anotherEnd).Index(end2))
    {
      anotherEnd.IndexInRange(end1);
      anotherEnd.IndexInRange(end2);
      anotherEnd.IndexInjective(end1, end2);
      var id1, id2 := anotherEnd.Index(end1), anotherEnd.Index(end2);
      var p, q := anotherEnd.data[id1], anotherEnd.data[id2];
      ghost var m0, h0, ae0 := Snapshot(), history, anotherEnd.data;
      if p == ClosedEnd || q == ClosedEnd || p == id2 {
        r := SetInconsistent();
        return;
      }
      if p < 0 && q < 0 && p != q {
        r := SetInconsistent();
        return;
      }
      if p < 0 && q < 0 {
        UpdateAnotherEnd(id1, ClosedEnd);
        ghost var m1, h1 := Snapshot(), history;
        UpdateAnotherEnd(id2, ClosedEnd);
        StepTrans(m0, h0, m1, h1, Snapshot(), history);
      } else if p >= 0 && q < 0 {
        LinkToClue(id1, p, id2, q);
      } else if p < 0 && q >= 0 {
        LinkToClue(id2, q, id1, p);
      } else {
        LinkChains(id1, p, id2, q);
      }
      LinkedPaired(ae0, id1, id2);
      r := false;
    }

    /**
     * A Line from the chain end `a`, whose far end is the cell `pa`, to the
     * end `b` of a chain that leads to a clue (`qb < 0`): `a` stops being
     * an end unless it is the whole chain, `pa` now leads to the clue, and
     * `b` is closed.
     */
    method LinkToClue(a: int, pa: int, b: int, qb: int)
      requires Valid() && 0 <= a < height * width && 0 <= pa < height * width && 0 <= b < height * width
      modifies this
      ensures Valid() && edge == old(edge) && inconsistent == old(inconsistent)
      ensures Step(old(Snapshot()), old(history), Snapshot(), history)
      ensures anotherEnd.data == (if a != pa then old(anotherEnd).data[a := ClosedEnd] else old(anotherEnd).data)[pa := qb][b := ClosedEnd]
    {
      ghost var m0, h0 := Snapshot(), history;
      StepRefl(m0, h0);
      ghost var m1, h1 := m0, h0;
      if a != pa {
        UpdateAnotherEnd(a, ClosedEnd);
        m1, h1 := Snapshot(), history;
      }
      UpdateAnotherEnd(pa, qb);
      StepTrans(m0, h0, m1, h1, Snapshot(), history);
      m1, h1 := Snapshot(), history;
      UpdateAnotherEnd(b, ClosedEnd);
      StepTrans(m0, h0, m1, h1, Snapshot(), history);
    }

    /**
     * A Line joining two chains between empty cells: the ends `i` and `j`
     * stop being ends (unless a cell is a chain on its own), and the far
     * ends `p` and `q` point at each other.
     */
    method LinkChains(i: int, p: int, j: int, q: int)
      requires Valid() && 0 <= i < height * width && 0 <= p < height * width && 0 <= j < height * width && 0 <= q < height * width
      modifies this
      ensures Valid() && edge == old(edge) && inconsistent == old(inconsistent)
      ensures Step(old(Snapshot()), old(history), Snapshot(), history)
      ensures var a := if i != p then old(anotherEnd).data[i := ClosedEnd] else old(anotherEnd).data;
        var b := a[p := q];
        anotherEnd.data == (if j != q then b[j := ClosedEnd] else b)[q := p]
    {
      ghost var m0, h0 := Snapshot(), history;
      if i != p {
        UpdateAnotherEnd(i, ClosedEnd);
      } else {
        StepRefl(m0, h0);
      }
      ghost var m1, h1 := Snapshot(), history;
      UpdateAnotherEnd(p, q);
      StepTrans(m0, h0, m1, h1, Snapshot(), history);
      m1, h1 := Snapshot(), history;
      if j != q {
        UpdateAnotherEnd(j, ClosedEnd);
        StepTrans(m0, h0, m1, h1, Snapshot(), history);
        m1, h1 := Snapshot(), history;
      }
      UpdateAnotherEnd(q, p);
      StepTrans(m0, h0, m1, h1, Snapshot(), history);
    }

    /** The edge write of `decide_edge`: the edge is logged, then set. */
    method WriteEdge(cd: Coord, state: Edge)
      requires Consistent() && InEdges(cd) && edge.Get(cd) == Undecided && state != Undecided
      modifies this
      ensures Consistent() && anotherEnd == old(anotherEnd) && inconsistent == old(inconsistent)
      ensures edge == old(edge).Set(cd, state) && EdgeAt(edge, cd) == state
      ensures history == old(history) + [LogEdge(cd)]
      ensures Step(old(Snapshot()), old(history), Snapshot(), history)
      ensures Undecideds() < old(Undecideds())
    {
      SetDecides(edge, cd, state, Undecided);
      UndoEdge(Snapshot(), cd, state);
      StepLogged(Snapshot(), history, Snapshot().(edge := edge.Set(cd, state)), LogEdge(cd));
      history := history + [LogEdge(cd)];
      edge := edge.Set(cd, state);
    }

    /**
     * `decide_edge`. A decided edge is left alone: the call fails exactly
     * when the state differs, setting the flag without logging. Otherwise
     * a Line first links the chain ends of its two cells (failing on the
     * guards of `LinkFails`), the edge is written, a Line is put in
     * canonical form, and both cells are inspected. Every change is
     * logged, decided edges stay decided, and on success the edge holds
     * `state`.
     */
    method DecideEdge(cd: Coord, state: Edge) returns (r: bool)
      requires Consistent() && IsEdge(cd) && state != Undecided
      modifies this
      decreases Undecideds(), if EdgeAt(edge, cd) == Undecided then 1 else 0
      ensures Consistent() && Step(old(Snapshot()), old(history), Snapshot(), history)
      ensures r ==> inconsistent
      ensures !r ==> EdgeAt(edge, cd) == state
      ensures old(EdgeAt(edge, cd)) != Undecided ==>
        && r == (old(EdgeAt(edge, cd)) != state)
        && anotherEnd == old(anotherEnd) && edge == old(edge) && history == old(history)
      ensures old(EdgeAt(edge, cd)) == Undecided && state == Line && old(LineFails(cd)) ==> r && edge == old(edge)
      ensures !r ==> DegreesKept(old(edge), edge, hasClue)
    {
      var current := GetEdge(cd);
      if current != Undecided {
        StepRefl(Snapshot(), history);
        if current != state {
          StepUnlogged(Snapshot(), history);
          inconsistent := true;
          return true;
        }
        return false;
      }
      ghost var m0, h0 := Snapshot(), history;
      EndsInBoard(cd, height, width);
      var (end1, end2) := EndsOf(cd);
      StepRefl(m0, h0);
      if state == Line {
        r := LinkEnds(end1, end2);
        if r {
          return;
        }
      }
      ghost var m1, h1 := Snapshot(), history;
      WriteEdge(cd, state);
      StepTrans(m0, h0, m1, h1, Snapshot(), history);
      m1, h1 := Snapshot(), history;
      r := Propagate(cd, state);
      StepTrans(m0, h0, m1, h1, Snapshot(), history);
      if !r {
        WrittenDegrees(m0.edge, cd, state, hasClue);
      }
    }

    /**
     * The rest of `decide_edge` once the edge `cd` is written: a Line is
     * put in canonical form, then both cells of the edge are inspected.
     */
    method Propagate(cd: Coord, state: Edge) returns (r: bool)
      requires Consistent() && IsEdge(cd) && InEdges(cd) && state != Undecided && EdgeAt(edge, cd) == state
      modifies this
      decreases Undecideds(), 6
      ensures Consistent() && Step(old(Snapshot()), old(history), Snapshot(), history)
      ensures r ==> inconsistent
      ensures !r ==> EdgeAt(edge, cd) == state
      ensures !r ==> DegreesKept(old(edge), edge, hasClue) && DegreeOk(edge, hasClue, EndsOf(cd).0) && DegreeOk(edge, hasClue, EndsOf(cd).1)
    {
      EndsInBoard(cd, height, width);
      var (end1, end2) := EndsOf(cd);
      ghost var m0, h0 := Snapshot(), history;
      StepRefl(m0, h0);
      ghost var m1, h1 := m0, h0;
      if state == Line {
        r := Canonical(cd);
        EdgeKept(m1.edge, edge, cd);
        if r {
          return;
        }
      }
      m1, h1 := Snapshot(), history;
      r := Inspect(end1);
      StepTrans(m0, h0, m1, h1, Snapshot(), history);
      EdgeKept(m1.edge, edge, cd);
      if r {
        return;
      }
      m1, h1 := Snapshot(), history;
      r := Inspect(end2);
      StepTrans(m0, h0, m1, h1, Snapshot(), history);
      EdgeKept(m1.edge, edge, cd);
    }

    predicate ExtOk(a: Coord, ext: Ext) {
      ExtFits(a, ext, height, width)
    }

    /**
     * The canonical-form rule of `decide_edge` for a new Line `cd`, on
     * both sides of it: the unit squares above and below a horizontal
     * edge, left and right of a vertical one.
     */
    method Canonical(cd: Coord) returns (r: bool)
      requires Consistent() && IsEdge(cd) && InEdges(cd)
      modifies this
      decreases Undecideds(), 5
      ensures Consistent() && Step(old(Snapshot()), old(history), Snapshot(), history)
      ensures r ==> inconsistent
      ensures !r ==> DegreesKept(old(edge), edge, hasClue)
    {
      ghost var m0, h0 := Snapshot(), history;
      if cd.y % 2 == 0 {
        r := SquareAbove(cd);
        if r {
          return;
        }
        ghost var m1, h1 := Snapshot(), history;
        r := SquareBelow(cd);
        StepTrans(m0, h0, m1, h1, Snapshot(), history);
      } else {
        r := SquareLeft(cd);
        if r {
          return;
        }
        ghost var m1, h1 := Snapshot(), history;
        r := SquareRight(cd);
        StepTrans(m0, h0, m1, h1, Snapshot(), history);
      }
    }

    /** The square above a horizontal Line. */
    method SquareAbove(cd: Coord) returns (r: bool)
      requires Consistent() && IsEdge(cd) && InEdges(cd) && cd.y % 2 == 0
      modifies this
      decreases Undecideds(), 4
      ensures Consistent() && Step(old(Snapshot()), old(history), Snapshot(), history)
      ensures r ==> inconsistent
      ensures !r ==> DegreesKept(old(edge), edge, hasClue)
    {
      var y, x := cd.y, cd.x;
      RowSquares(y, x, height, width);
      r := Square(Coord(y - 2, x), Coord(y - 1, x - 1), Coord(y - 1, x + 1), NoExt, NoExt);
    }

    /** The square below a horizontal Line, whose sides below either end can yield an L-chain. */
    method SquareBelow(cd: Coord) returns (r: bool)
      requires Consistent() && IsEdge(cd) && InEdges(cd) && cd.y % 2 == 0
      modifies this
      decreases Undecideds(), 4
      ensures Consistent() && Step(old(Snapshot()), old(history), Snapshot(), history)
      ensures r ==> inconsistent
      ensures !r ==> DegreesKept(old(edge), edge, hasClue)
    {
      var y, x := cd.y, cd.x;
      RowSquares(y, x, height, width);
      r := Square(Coord(y + 2, x), Coord(y + 1, x - 1), Coord(y + 1, x + 1),
        Ext(Coord(y / 2 + 1, x / 2 + 1), Coord(y + 2, x + 2), Coord(y + 3, x + 1)),
        Ext(Coord(y / 2 + 1, x / 2), Coord(y + 2, x - 2), Coord(y + 3, x - 1)));
    }

    /** The square left of a vertical Line, whose upper side can yield an L-chain. */
    method SquareLeft(cd: Coord) returns (r: bool)
      requires Consistent() && IsEdge(cd) && InEdges(cd) && cd.y % 2 == 1
      modifies this
      decreases Undecideds(), 4
      ensures Consistent() && Step(old(Snapshot()), old(history), Snapshot(), history)
      ensures r ==> inconsistent
      ensures !r ==> DegreesKept(old(edge), edge, hasClue)
    {
      var y, x := cd.y, cd.x;
      ColumnSquares(y, x, height, width);
      r := Square(Coord(y, x - 2), Coord(y - 1, x - 1), Coord(y + 1, x - 1),
        Ext(Coord(y / 2 + 1, x / 2 - 1), Coord(y + 1, x - 3), Coord(y + 2, x - 2)), NoExt);
    }

    /** The square right of a vertical Line, whose upper side can yield an L-chain. */
    method SquareRight(cd: Coord) returns (r: bool)
      requires Consistent() && IsEdge(cd) && InEdges(cd) && cd.y % 2 == 1
      modifies this
      decreases Undecideds(), 4
      ensures Consistent() && Step(old(Snapshot()), old(history), Snapshot(), history)
      ensures r ==> inconsistent
      ensures !r ==> DegreesKept(old(edge), edge, hasClue)
    {
      var y, x := cd.y, cd.x;
      ColumnSquares(y, x, height, width);
      r := Square(Coord(y, x + 2), Coord(y - 1, x + 1), Coord(y + 1, x + 1),
        Ext(Coord(y / 2 + 1, x / 2 + 1), Coord(y + 1, x + 3), Coord(y + 2, x + 2)), NoExt);
    }

    /**
     * One unit square of the canonical-form rule, with the new Line as
     * its fourth side: `par` is the side opposite it, `a` and `b` the
     * other two. The first of `par`, `a`, `b` found to be a Line makes
     * the other two Blank; when it is `a` (or `b`), the L-chain `extA`
     * (or `extB`) is drawn unless its corner cell holds a clue.
     */
    method Square(par: Coord, a: Coord, b: Coord, extA: Ext, extB: Ext) returns (r: bool)
      requires Consistent() && IsEdge(par) && IsEdge(a) && IsEdge(b) && ExtOk(a, extA) && ExtOk(b, extB)
      modifies this
      decreases Undecideds(), 3
      ensures Consistent() && Step(old(Snapshot()), old(history), Snapshot(), history)
      ensures r ==> inconsistent
      ensures !r ==> SquareDone(old(edge), edge, hasClue, par, a, b, extA, extB)
      ensures old(SquareIdle(edge, par, a, b)) ==> !r && Snapshot() == old(Snapshot()) && history == old(history)
      ensures !r ==> DegreesKept(old(edge), edge, hasClue)
    {
      ghost var m0, h0 := Snapshot(), history;
      if GetEdge(par) == Line {
        r := Forbid(a, b);
      } else if GetEdge(a) == Line {
        r := Forbid(par, b);
        if !r && extA.Ext? {
          ghost var m1, h1 := Snapshot(), history;
          r := Extend(extA);
          StepTrans(m0, h0, m1, h1, Snapshot(), history);
          EdgeKept(m1.edge, edge, par);
          EdgeKept(m1.edge, edge, b);
        }
      } else if GetEdge(b) == Line {
        r := Forbid(par, a);
        if !r && extB.Ext? {
          ghost var m1, h1 := Snapshot(), history;
          r := Extend(extB);
          StepTrans(m0, h0, m1, h1, Snapshot(), history);
          EdgeKept(m1.edge, edge, par);
          EdgeKept(m1.edge, edge, a);
        }
      } else {
        r := false;
        StepRefl(m0, h0);
      }
    }

    /** Two `decide_edge(.., Blank)` calls in a row, stopping at the first failure. */
    method Forbid(p: Coord, q: Coord) returns (r: bool)
      requires Consistent() && IsEdge(p) && IsEdge(q)
      modifies this
      decreases Undecideds(), 2
      ensures Consistent() && Step(old(Snapshot()), old(history), Snapshot(), history)
      ensures r ==> inconsistent
      ensures !r ==> EdgeAt(edge, p) == Blank && EdgeAt(edge, q) == Blank
      ensures !r ==> DegreesKept(old(edge), edge, hasClue)
    {
      ghost var m0, h0 := Snapshot(), history;
      r := DecideEdge(p, Blank);
      if !r {
        ghost var m1, h1 := Snapshot(), history;
        r := DecideEdge(q, Blank);
        StepTrans(m0, h0, m1, h1, Snapshot(), history);
        EdgeKept(m1.edge, edge, p);
      }
    }

    /** The L-chain of the canonical-form rule: both edges become Line unless the corner cell holds a clue. */
    method Extend(ext: Ext) returns (r: bool)
      requires Consistent() && ext.Ext? && InCells(ext.cell) && IsEdge(ext.first) && IsEdge(ext.second)
      modifies this
      decreases Undecideds(), 2
      ensures Consistent() && Step(old(Snapshot()), old(history), Snapshot(), history)
      ensures r ==> inconsistent
      ensures !r ==> Drawn(edge, hasClue, ext)
      ensures hasClue.Get(ext.cell) ==> !r && Snapshot() == old(Snapshot()) && history == old(history)
      ensures !r ==> DegreesKept(old(edge), edge, hasClue)
    {
      ghost var m0, h0 := Snapshot(), history;
      if !hasClue.Get(ext.cell) {
        r := DecideEdge(ext.first, Line);
        if !r {
          ghost var m1, h1 := Snapshot(), history;
          r := DecideEdge(ext.second, Line);
          StepTrans(m0, h0, m1, h1, Snapshot(), history);
          EdgeKept(m1.edge, edge, ext.first);
        }
      } else {
        r := false;
        StepRefl(m0, h0);
      }
    }

    /** The counting loop of `inspect`: Lines around the cell, plus one for a clue, and undecided sides. */
    method CountSides(cd: Coord) returns (nLine: int, nUndecided: int)
      requires Valid() && InCells(cd)
      ensures nLine == (if hasClue.Get(cd) then 1 else 0) + SideCount(edge, cd, Line, 4)
      ensures nUndecided == SideCount(edge, cd, Undecided, 4)
    {
      nLine := if hasClue.Get(cd) then 1 else 0;
      nUndecided := 0;
      var k := 0;
      while k < 4
        invariant 0 <= k <= 4
        invariant nLine == (if hasClue.Get(cd) then 1 else 0) + SideCount(edge, cd, Line, k)
        invariant nUndecided == SideCount(edge, cd, Undecided, k)
      {
        match GetEdge(Around(cd, Sides[k])) {
          case Undecided => nUndecided := nUndecided + 1;
          case Line => nLine := nLine + 1;
          case Blank =>
        }
        k := k + 1;
      }
    }

    /**
     * `inspect` on a cell: three or more Lines (a clue counts as one) is a
     * contradiction, two make every undecided side Blank, one with a
     * single undecided side makes that side Line, and one with none left
     * is a contradiction; otherwise nothing changes.
     */
    method Inspect(cd: Coord) returns (r: bool)
      requires Consistent() && InCells(cd)
      modifies this
      decreases Undecideds(), 3
      ensures Consistent() && Step(old(Snapshot()), old(history), Snapshot(), history)
      ensures r ==> inconsistent
      ensures var nl := (if hasClue.Get(cd) then 1 else 0) + SideCount(old(edge), cd, Line, 4);
        var nu := SideCount(old(edge), cd, Undecided, 4);
        && (nl >= 3 || (nl == 1 && nu == 0) ==>
              r && anotherEnd == old(anotherEnd) && edge == old(edge) && history == old(history) + [LogInconsistent(old(inconsistent))])
        && (nl == 2 && !r ==> forall k :: 0 <= k < 4 ==> EdgeAt(edge, Around(cd, Sides[k])) != Undecided)
        && (nl == 1 && nu == 1 && !r ==>
              forall k :: 0 <= k < 4 && EdgeAt(old(edge), Around(cd, Sides[k])) == Undecided ==> EdgeAt(edge, Around(cd, Sides[k])) == Line)
        && (nl == 0 || (nl == 1 && nu >= 2) ==> !r && Snapshot() == old(Snapshot()) && history == old(history))
      ensures !r ==> DegreesKept(old(edge), edge, hasClue) && DegreeOk(edge, hasClue, cd)
    {
      var nLine, nUndecided := CountSides(cd);
      ghost var e0 := edge;
      SideCountFour(e0, cd, Undecided);
      SideCountFour(e0, cd, Line);
      if nLine >= 3 {
        r := SetInconsistent();
        return;
      }
      if nLine == 2 {
        r := CloseRest(cd);
      } else if nLine == 1 {
        if nUndecided == 1 {
          r := ForceLast(cd);
        } else if nUndecided == 0 {
          r := SetInconsistent();
        } else {
          r := false;
          StepRefl(Snapshot(), history);
        }
      } else {
        r := false;
        StepRefl(Snapshot(), history);
      }
      if !r && nUndecided == 0 {
        DecidedSidesKept(e0, edge, cd);
      }
    }

    /** The two-Line case of `inspect`: every undecided side becomes Blank. */
    method CloseRest(cd: Coord) returns (r: bool)
      requires Consistent() && InCells(cd)
      modifies this
      decreases Undecideds(), 2
      ensures Consistent() && Step(old(Snapshot()), old(history), Snapshot(), history)
      ensures r ==> inconsistent
      ensures !r ==> forall k :: 0 <= k < 4 ==> EdgeAt(edge, Around(cd, Sides[k])) != Undecided
      ensures !r ==> DegreesKept(old(edge), edge, hasClue)
    {
      ghost var m0, h0 := Snapshot(), history;
      StepRefl(m0, h0);
      var k := 0;
      while k < 4
        invariant 0 <= k <= 4 && Consistent() && Step(m0, h0, Snapshot(), history)
        invariant forall j :: 0 <= j < k ==> EdgeAt(edge, Around(cd, Sides[j])) != Undecided
        invariant DegreesKept(m0.edge, edge, hasClue)
      {
        var cd2 := Around(cd, Sides[k]);
        AroundIsEdge(cd, k);
        if GetEdge(cd2) == Undecided {
          ghost var m1, h1 := Snapshot(), history;
          r := DecideEdge(cd2, Blank);
          StepTrans(m0, h0, m1, h1, Snapshot(), history);
          if r {
            return;
          }
          forall j | 0 <= j < k
            ensures EdgeAt(edge, Around(cd, Sides[j])) != Undecided
          {
            EdgeKept(m1.edge, edge, Around(cd, Sides[j]));
          }
        }
        k := k + 1;
      }
      r := false;
    }

    /** The one-Line, one-undecided case of `inspect`: the undecided side becomes Line. */
    method ForceLast(cd: Coord) returns (r: bool)
      requires Consistent() && InCells(cd) && SideCount(edge, cd, Undecided, 4) == 1
      modifies this
      decreases Undecideds(), 2
      ensures Consistent() && Step(old(Snapshot()), old(history), Snapshot(), history)
      ensures r ==> inconsistent
      ensures !r ==> forall k :: 0 <= k < 4 && EdgeAt(old(edge), Around(cd, Sides[k])) == Undecided ==>
        EdgeAt(edge, Around(cd, Sides[k])) == Line
      ensures !r ==> DegreesKept(old(edge), edge, hasClue)
    {
      ghost var m0, h0 := Snapshot(), history;
      StepRefl(m0, h0);
      var k := 0;
      while k < 4
        invariant 0 <= k <= 4 && Consistent() && Step(m0, h0, Snapshot(), history)
        invariant SideCount(m0.edge, cd, Undecided, k) == 0 ==> Snapshot() == m0 && history == h0
        invariant DegreesKept(m0.edge, edge, hasClue)
        invariant forall j :: 0 <= j < k && EdgeAt(m0.edge, Around(cd, Sides[j])) == Undecided ==>
          EdgeAt(edge, Around(cd, Sides[j])) == Line
      {
        var cd2 := Around(cd, Sides[k]);
        AroundIsEdge(cd, k);
        SideCountMono(m0.edge, cd, Undecided, k + 1, 4);
        if EdgeAt(m0.edge, cd2) != Undecided {
          EdgeKept(m0.edge, edge, cd2);
        }
        if GetEdge(cd2) == Undecided {
          ghost var m1, h1 := Snapshot(), history;
          r := DecideEdge(cd2, Line);
          StepTrans(m0, h0, m1, h1, Snapshot(), history);
          if r {
            return;
          }
        }
        k := k + 1;
      }
      r := false;
    }

    /** `get_line_placement`: the segments between cells are exactly the Line edges. */
    method GetLinePlacement() returns (p: LinePlacement)
      requires Valid()
      ensures fresh(p) && Shows(p, edge, height, width)
    {
      p := Draw(edge, height, width);
    }

    /**
     * The two decisions of one `search` choice at the cell (y, x): its
     * right edge, then, when that is consistent, its down edge. When
     * neither is inconsistent, both of the cell's edges are decided.
     */
    method DecideCell(y: int, x: int, right: bool, down: bool) returns (r: bool)
      requires Consistent() && 0 <= y < height && 0 <= x < width
      modifies this
      ensures Consistent() && Step(old(Snapshot()), old(history), Snapshot(), history)
      ensures !r ==> CellDecided(edge, y, x)
      ensures !r ==> DegreesKept(old(edge), edge, hasClue)
    {
      ghost var m0, h0 := Snapshot(), history;
      r := DecideEdge(Coord(y * 2, x * 2 + 1), if right then Line else Blank);
      if !r {
        ghost var m1, h1 := Snapshot(), history;
        r := DecideEdge(Coord(y * 2 + 1, x * 2), if down then Line else Blank);
        StepTrans(m0, h0, m1, h1, Snapshot(), history);
        EdgeKept(m1.edge, edge, Coord(y * 2, x * 2 + 1));
      }
    }
  }

  /** The shape of the placement of an `h x w` board. */
  ghost predicate Fits(p: LinePlacement, height: int, width: int)
    reads p
  {
    p.Valid() && p.right.height == height && p.right.width == width - 1 && p.down.height == height - 1 && p.down.width == width
  }

  /** The segments of cell (y, x) in `p`: the Line edges of `e` it owns when it comes before (y0, x0), none otherwise. */
  ghost predicate CellDrawn(p: LinePlacement, e: Grid<Edge>, y: int, x: int, y0: int, x0: int)
    reads p
    requires e.Valid() && p.Valid()
  {
    && p.Right(Coord(y, x)) == (Before(y, x, y0, x0) && EdgeAt(e, Coord(2 * y, 2 * x + 1)) == Line)
    && p.Down(Coord(y, x)) == (Before(y, x, y0, x0) && EdgeAt(e, Coord(2 * y + 1, 2 * x)) == Line)
  }

  /** `p` draws the Line edges of `e` owned by the cells before (y, x), and nothing else. */
  ghost predicate Filled(p: LinePlacement, e: Grid<Edge>, height: int, width: int, y: int, x: int)
    reads p
    requires e.Valid() && Fits(p, height, width)
  {
    forall cy, cx :: 0 <= cy < height && 0 <= cx < width ==> CellDrawn(p, e, cy, cx, y, x)
  }

  /** One cell of `get_line_placement`: its segment down, then its segment right. */
  method PlaceCell(p: LinePlacement, e: Grid<Edge>, height: int, width: int, y: int, x: int)
    requires e.Valid() && EdgeGridOf(e, height, width) && Fits(p, height, width)
    requires 0 <= y < height && 0 <= x < width && Filled(p, e, height, width, y, x)
    modifies p
    ensures Fits(p, height, width) && Filled(p, e, height, width, y, x + 1)
  {
    var cd := Coord(y, x);
    if y != height - 1 && EdgeAt(e, Coord(y * 2 + 1, x * 2)) == Line {
      p.down.IndexInRange(cd);
      p.SetDown(cd, true);
    }
    if x != width - 1 && EdgeAt(e, Coord(y * 2, x * 2 + 1)) == Line {
      p.right.IndexInRange(cd);
      p.SetRight(cd, true);
    }
    ghost var x1 := x + 1;
    forall cy, cx | 0 <= cy < height && 0 <= cx < width
      ensures CellDrawn(p, e, cy, cx, y, x1)
    {
      if Coord(cy, cx) != cd {
        assert old(CellDrawn(p, e, cy, cx, y, x));
        assert p.Right(Coord(cy, cx)) == old(p.Right(Coord(cy, cx)));
        assert p.Down(Coord(cy, cx)) == old(p.Down(Coord(cy, cx)));
      } else {
        assert old(CellDrawn(p, e, y, x, y, x));
      }
    }
  }

  /** The drawing of the Line edges of `e`, cell by cell in row-major order. */
  method Draw(e: Grid<Edge>, height: int, width: int) returns (p: LinePlacement)
    requires e.Valid() && EdgeGridOf(e, height, width) && height >= 1 && width >= 1
    ensures fresh(p) && Shows(p, e, height, width)
  {
    p := new LinePlacement(height, width);
    forall cy, cx | 0 <= cy < height && 0 <= cx < width
      ensures CellDrawn(p, e, cy, cx, 0, 0)
    {
      if p.right.IsValidCoord(Coord(cy, cx)) {
        p.right.IndexInRange(Coord(cy, cx));
      }
      if p.down.IsValidCoord(Coord(cy, cx)) {
        p.down.IndexInRange(Coord(cy, cx));
      }
    }
    var y := 0;
    while y < height
      invariant 0 <= y <= height && Fits(p, height, width) && Filled(p, e, height, width, y, 0)
    {
      var x := 0;
      while x < width
        invariant 0 <= x <= width && Fits(p, height, width) && Filled(p, e, height, width, y, x)
      {
        PlaceCell(p, e, height, width, y, x);
        x := x + 1;
      }
      assert Filled(p, e, height, width, y + 1, 0) by {
        ghost var y1 := y + 1;
        forall cy, cx | 0 <= cy < height && 0 <= cx < width
          ensures CellDrawn(p, e, cy, cx, y1, 0)
        {
          assert CellDrawn(p, e, cy, cx, y, width);
        }
      }
      y := y + 1;
    }
    forall cy, cx | 0 <= cy < height && 0 <= cx < width
      ensures p.Right(Coord(cy, cx)) == (EdgeAt(e, Coord(2 * cy, 2 * cx + 1)) == Line)
      ensures p.Down(Coord(cy, cx)) == (EdgeAt(e, Coord(2 * cy + 1, 2 * cx)) == Line)
    {
      assert CellDrawn(p, e, cy, cx, y, 0);
    }
  }

  /** Cell (y + i, x + i), for i >= 1, is on the board and holds a clue. */
  predicate ClueDownRightAt(hasClue: Grid<bool>, y: int, x: int, i: int)
    requires hasClue.Valid() && 0 <= y && 0 <= x
  {
    1 <= i && y + i < hasClue.height && x + i < hasClue.width && hasClue.Get(Coord(y + i, x + i))
  }

  /** Cell (y + i, x + 1 - i), for i >= 1, is on the board and holds a clue. */
  predicate ClueDownLeftAt(hasClue: Grid<bool>, y: int, x: int, i: int)
    requires hasClue.Valid() && 0 <= y && x < hasClue.width
  {
    1 <= i && y + i < hasClue.height && x + 1 - i >= 0 && hasClue.Get(Coord(y + i, x + 1 - i))
  }

  /** The scan of `search` down and to the right of (y, x): it succeeds exactly when the diagonal holds a clue. */
  method ClueDownRight(hasClue: Grid<bool>, y: int, x: int) returns (isOk: bool)
    requires hasClue.Valid() && 0 <= y && 0 <= x
    ensures isOk <==> exists i :: ClueDownRightAt(hasClue, y, x, i)
  {
    isOk := false;
    var i := 1;
    while y + i < hasClue.height && x + i < hasClue.width
      invariant i >= 1
      invariant forall j :: j < i ==> !ClueDownRightAt(hasClue, y, x, j)
      decreases hasClue.height - y - i
    {
      if hasClue.Get(Coord(y + i, x + i)) {
        assert ClueDownRightAt(hasClue, y, x, i);
        isOk := true;
        return;
      }
      i := i + 1;
    }
  }

  /** The scan of `search` down and to the left of (y, x + 1): it succeeds exactly when that diagonal holds a clue. */
  method ClueDownLeft(hasClue: Grid<bool>, y: int, x: int) returns (isOk: bool)
    requires hasClue.Valid() && 0 <= y && x < hasClue.width
    ensures isOk <==> exists i :: ClueDownLeftAt(hasClue, y, x, i)
  {
    isOk := false;
    var i := 1;
    while y + i < hasClue.height && x + 1 - i >= 0
      invariant i >= 1
      invariant forall j :: j < i ==> !ClueDownLeftAt(hasClue, y, x, j)
      decreases hasClue.height - y - i
    {
      if hasClue.Get(Coord(y + i, x + 1 - i)) {
        assert ClueDownLeftAt(hasClue, y, x, i);
        isOk := true;
        return;
      }
      i := i + 1;
    }
  }

  /**
   * The skip at the head of `search`: from (y0, x0), in row-major order,
   * the first cell with an undecided edge, or (height, 0) when there is
   * none. Every cell before it is decided.
   */
  method NextOpen(field: SolverField, y0: int, x0: int) returns (y: int, x: int)
    requires field.Valid() && 0 <= y0 < field.height && 0 <= x0 <= field.width
    requires DecidedBefore(field.edge, field.height, field.width, y0, x0)
    ensures 0 <= y <= field.height && 0 <= x < field.width && (y == field.height ==> x == 0)
    ensures !Before(y, x, y0, x0)
    ensures DecidedBefore(field.edge, field.height, field.width, y, x)
    ensures y < field.height ==> !CellDecided(field.edge, y, x)
  {
    y, x := y0, x0;
    if x == field.width {
      DecidedBeforeRow(field.edge, field.height, field.width, y);
      y, x := y + 1, 0;
    }
    while y < field.height && field.GetEdge(Coord(y * 2 + 1, x * 2)) != Undecided && field.GetEdge(Coord(y * 2, x * 2 + 1)) != Undecided
      invariant 0 <= y <= field.height && 0 <= x < field.width && (y == field.height ==> x == 0)
      invariant !Before(y, x, y0, x0)
      invariant DecidedBefore(field.edge, field.height, field.width, y, x)
      decreases field.height - y, field.width - x
    {
      DecidedBeforeNext(field.edge, field.height, field.width, y, x);
      if x == field.width - 1 {
        DecidedBeforeRow(field.edge, field.height, field.width, y);
        y, x := y + 1, 0;
      } else {
        x := x + 1;
      }
    }
  }

  /**
   * `search` from the cell (y0, x0): cells whose two edges are decided
   * are skipped; when none is left the drawing is recorded, otherwise
   * each of the four choices for the cell's right and down edges is tried
   * between a checkpoint and a rollback. The field comes back with the
   * same table, edges and log, and every new answer draws a complete
   * edge grid that keeps the edges decided on entry.
   */
  method Search(y0: int, x0: int, field: SolverField, answers: seq<LinePlacement>) returns (answers1: seq<LinePlacement>)
    requires field.Consistent() && 0 <= y0 < field.height && 0 <= x0 <= field.width
    requires DecidedBefore(field.edge, field.height, field.width, y0, x0)
    modifies field
    decreases field.height - y0, field.width + 1 - x0, 3
    ensures field.Consistent()
    ensures field.anotherEnd == old(field.anotherEnd) && field.edge == old(field.edge) && field.history == old(field.history)
    ensures old(field.inconsistent) ==> field.inconsistent
    ensures |answers| <= |answers1| && answers1[..|answers|] == answers
    ensures forall i :: |answers| <= i < |answers1| ==>
      && fresh(answers1[i]) && Solution(answers1[i], old(field.edge), field.height, field.width)
      && (AllDegreesOk(old(field.edge), field.hasClue) ==> Balanced(answers1[i], field.hasClue))
    ensures Complete(old(field.edge), field.height, field.width) ==> |answers1| == |answers| + 1
  {
    var y, x := NextOpen(field, y0, x0);
    if y == field.height {
      var p := field.GetLinePlacement();
      answers1 := answers + [p];
      SettledRefl(field.edge, Undecided);
      assert Solution(p, field.edge, field.height, field.width);
      if AllDegreesOk(field.edge, field.hasClue) {
        CompleteBalanced(p, field.edge, field.hasClue, field.height, field.width);
      }
      return;
    }
    assert Before(y, x, field.height, 0);

    var degreeCommon := (if field.hasClue.Get(Coord(y, x)) then 1 else 0)
      + (if field.GetEdge(Coord(y * 2, x * 2 - 1)) == Line then 1 else 0)
      + (if field.GetEdge(Coord(y * 2, x * 2 + 1)) == Line then 1 else 0)
      + (if field.GetEdge(Coord(y * 2 - 1, x * 2)) == Line then 1 else 0)
      + (if field.GetEdge(Coord(y * 2 + 1, x * 2)) == Line then 1 else 0);
    answers1 := answers;
    var mask := 0;
    while mask < 4
      invariant 0 <= mask <= 4 && field.Consistent()
      invariant field.anotherEnd == old(field.anotherEnd) && field.edge == old(field.edge) && field.history == old(field.history)
      invariant old(field.inconsistent) ==> field.inconsistent
      invariant |answers| <= |answers1| && answers1[..|answers|] == answers
      invariant forall i :: |answers| <= i < |answers1| ==>
        && fresh(answers1[i]) && Solution(answers1[i], old(field.edge), field.height, field.width)
        && (AllDegreesOk(old(field.edge), field.hasClue) ==> Balanced(answers1[i], field.hasClue))
    {
      ghost var prev := answers1;
      answers1 := Branch(y, x, mask % 2 == 1, mask / 2 == 1, degreeCommon, field, answers1);
      assert answers1[..|answers|] == prev[..|prev|][..|answers|];
      mask := mask + 1;
    }
  }

  /**
   * One choice of `search` at the cell (y, x): `right` and `down` say
   * whether its right and down edges become Line. The choice is skipped
   * when it would redecide an edge, give the cell a degree other than 0
   * or 2, or turn a corner with no clue on the diagonal the chain would
   * have to reach; otherwise it is decided after a checkpoint, searched
   * on from the next cell when consistent, and rolled back.
   */
  method Branch(y: int, x: int, right: bool, down: bool, degreeCommon: int, field: SolverField, answers: seq<LinePlacement>)
    returns (answers1: seq<LinePlacement>)
    requires field.Consistent() && 0 <= y < field.height && 0 <= x < field.width
    requires DecidedBefore(field.edge, field.height, field.width, y, x)
    modifies field
    decreases field.height - y, field.width + 1 - x, 2
    ensures field.Consistent()
    ensures field.anotherEnd == old(field.anotherEnd) && field.edge == old(field.edge) && field.history == old(field.history)
    ensures old(field.inconsistent) ==> field.inconsistent
    ensures |answers| <= |answers1| && answers1[..|answers|] == answers
    ensures forall i :: |answers| <= i < |answers1| ==>
      && fresh(answers1[i]) && Solution(answers1[i], old(field.edge), field.height, field.width)
      && (AllDegreesOk(old(field.edge), field.hasClue) ==> Balanced(answers1[i], field.hasClue))
  {
    answers1 := answers;
    if right && field.GetEdge(Coord(y * 2, x * 2 + 1)) != Undecided {
      return;
    }
    if down && field.GetEdge(Coord(y * 2 + 1, x * 2)) != Undecided {
      return;
    }
    var degree := degreeCommon + (if right then 1 else 0) + (if down then 1 else 0);
    if degree != 0 && degree != 2 {
      return;
    }
    var rightEffective := right || field.GetEdge(Coord(y * 2, x * 2 + 1)) == Line;
    var downEffective := down || field.GetEdge(Coord(y * 2 + 1, x * 2)) == Line;
    if rightEffective && downEffective {
      var isOk := ClueDownRight(field.hasClue, y, x);
      if !isOk {
        return;
      }
    }
    if rightEffective && field.GetEdge(Coord(y * 2 + 1, x * 2 + 2)) == Line {
      var isOk := ClueDownLeft(field.hasClue, y, x);
      if !isOk {
        return;
      }
    }

    answers1 := Trial(y, x, right, down, field, answers);
  }

  /**
   * The checkpointed part of one `search` choice: the cell's two edges are
   * decided after a checkpoint, the search goes on from the next cell when
   * they are consistent, and the field is rolled back to the checkpoint.
   */
  method Trial(y: int, x: int, right: bool, down: bool, field: SolverField, answers: seq<LinePlacement>)
    returns (answers1: seq<LinePlacement>)
    requires field.Consistent() && 0 <= y < field.height && 0 <= x < field.width
    requires DecidedBefore(field.edge, field.height, field.width, y, x)
    modifies field
    decreases field.height - y, field.width + 1 - x, 1
    ensures field.Consistent()
    ensures field.anotherEnd == old(field.anotherEnd) && field.edge == old(field.edge) && field.history == old(field.history)
    ensures old(field.inconsistent) ==> field.inconsistent
    ensures |answers| <= |answers1| && answers1[..|answers|] == answers
    ensures forall i :: |answers| <= i < |answers1| ==>
      && fresh(answers1[i]) && Solution(answers1[i], old(field.edge), field.height, field.width)
      && (AllDegreesOk(old(field.edge), field.hasClue) ==> Balanced(answers1[i], field.hasClue))
  {
    answers1 := answers;
    ghost var h0 := field.history;
    field.AddCheckpoint();
    ghost var mc, hc := field.Snapshot(), field.history;
    var inconsistent := field.DecideCell(y, x, right, down);
    ghost var me, he := field.Snapshot(), field.history;
    assert mc.edge == old(field.edge);
    if !inconsistent {
      answers1 := SearchOn(y, x, field, answers, mc.edge);
      RevertsAgree(mc, me, field.Snapshot(), he, |hc|);
    }
    ghost var mr, hr := field.Snapshot(), field.history;
    assert hr[..|h0|] == h0 && hr[|h0|] == Checkpoint && hr[|h0| + 1..] == hr[|hc|..] by {
      assert hr[..|hc|] == hc;
    }
    field.Rollback();
    CheckpointRestores(mc, mr, h0, hr);
  }

  /**
   * The search past a cell whose edges were just decided consistently:
   * the edges stay as they are, and every new answer keeps the edges
   * decided in `e0`, from which the current grid was reached.
   */
  method SearchOn(y: int, x: int, field: SolverField, answers: seq<LinePlacement>, ghost e0: Grid<Edge>)
    returns (answers1: seq<LinePlacement>)
    requires field.Consistent() && 0 <= y < field.height && 0 <= x < field.width
    requires e0.Valid() && Settled(e0, field.edge, Undecided) && DecidedBefore(e0, field.height, field.width, y, x)
    requires CellDecided(field.edge, y, x)
    modifies field
    decreases field.height - y, field.width + 1 - x, 0
    ensures field.Consistent() && Agrees(old(field.Snapshot()), field.Snapshot()) && field.history == old(field.history)
    ensures |answers| <= |answers1| && answers1[..|answers|] == answers
    ensures forall i :: |answers| <= i < |answers1| ==>
      && fresh(answers1[i]) && Solution(answers1[i], e0, field.height, field.width)
      && (AllDegreesOk(old(field.edge), field.hasClue) ==> Balanced(answers1[i], field.hasClue))
  {
    DecidedBeforeKept(e0, field.edge, field.height, field.width, y, x);
    DecidedBeforeNext(field.edge, field.height, field.width, y, x);
    answers1 := Search(y, x + 1, field, answers);
    forall i | |answers| <= i < |answers1|
      ensures Solution(answers1[i], e0, field.height, field.width)
    {
      SolutionSettled(answers1[i], e0, old(field.edge), field.height, field.width);
    }
  }

  /**
   * `solve2`: a new field, searched from the first cell. Every answer
   * draws a complete edge grid of the board in which every clue is the
   * end of exactly one segment and every other cell lies on none or two.
   * The one exception is a 1x1 board holding a clue: its field has no
   * edge, so it is complete from the start, nothing ever inspects the
   * clue, and the search returns the empty drawing as its single answer.
   */
  method Solve2(problem: Grid<Clue>) returns (answers: seq<LinePlacement>)
    requires problem.Valid() && problem.height >= 1 && problem.width >= 1
    requires forall i :: 0 <= i < |problem.data| ==> problem.data[i].n >= 0
    ensures forall i :: 0 <= i < |answers| ==>
      Solution(answers[i], NewGrid(2 * problem.height - 1, 2 * problem.width - 1, Undecided), problem.height, problem.width)
    ensures !(problem.height == 1 && problem.width == 1 && problem.data[0] != NoClue) ==>
      forall i :: 0 <= i < |answers| ==> Balanced(answers[i], ClueFlags(problem))
    ensures problem.height == 1 && problem.width == 1 ==> |answers| == 1
    ensures problem.height == 1 && problem.width == 1 && problem.data[0] != NoClue ==> !Balanced(answers[0], ClueFlags(problem))
  {
    var field := new SolverField(problem);
    ghost var clue := ClueFlags(problem);
    assert field.hasClue == clue by {
      assert field.hasClue.data == clue.data;
    }
    ghost var lone := problem.height == 1 && problem.width == 1;
    if lone {
      LoneComplete(field.edge);
      assert clue.Get(Coord(0, 0)) == (problem.data[0] != NoClue);
    }
    if !(lone && problem.data[0] != NoClue) {
      InitialDegreesOk(clue, problem.height, problem.width);
    }
    answers := Search(0, 0, field, []);
    if lone && problem.data[0] != NoClue {
      LoneUnbalanced(answers[0], NewGrid(1, 1, Undecided), clue);
    }
  }
}
