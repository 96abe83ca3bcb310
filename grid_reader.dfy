/**
 * The reader shape that src/numberlink/format.rs and
 * src/slitherlink/format.rs share: a header line "height width", a grid
 * of `NO_CLUE`, then one valid line per row whose first `width` items
 * are turned into clues. The two readers differ only in what the items
 * of a line are (space-separated tokens, or characters) and in which
 * items are clues; `cellsOf` gives, for each item of a line, the clue it
 * writes or `None`.
 */
module GridReader {
  import opened Wrappers
  import opened Text
  import opened Common
  import opened Format

  /** The loop state of the row loop: the grid so far and the next row `y`. */
  datatype RowState<T> = RowState(grid: Grid<T>, y: int)

  /** The header: height and width, the first two fields. */
  function ParseHeader(line: string): (r: Result<(int, int), Error>)
    ensures r.Err? ==> r.error == FormatError
  {
    var t := Split(line, ' ');
    match Field(t, 0)
    case Err(e) => Err(e)
    case Ok(h) =>
      match Field(t, 1)
      case Err(e) => Err(e)
      case Ok(w) => Ok((h, w))
  }

  /** The slot of cell `(y, x)` in a row-major grid of width `w`. */
  function CellSlot(w: int, y: int, x: int): int {
    y * w + x
  }

  /** The value an item leaves in a cell that held `d`. */
  function Pick<T>(o: Option<T>, d: T): T {
    if o.Some? then o.value else d
  }

  /** The inner `for x in 0..width` loop from column `x` on, writing the clue items of row `y`. */
  function FillRow<T>(g: Grid<T>, y: int, cells: seq<Option<T>>, x: nat): Option<Grid<T>>
    decreases |cells| - x
  {
    if x >= g.width || x >= |cells| then Some(g)
    else match cells[x]
      case None => FillRow(g, y, cells, x + 1)
      case Some(v) =>
        match WriteCell(g, y, x, v)
        case None => None
        case Some(g') => FillRow(g', y, cells, x + 1)
  }

  /**
   * One row line: an `Error::Format` when the line has fewer than `width`
   * items (the `ok_or` on the first missing one), otherwise the row's
   * clue items are written and the loop moves to the next row.
   */
  function RowStep<T>(st: RowState<T>, cells: seq<Option<T>>): LineOutcome<RowState<T>, Error> {
    if st.grid.width > 0 && |cells| < st.grid.width then Stop(FormatError)
    else match FillRow(st.grid, st.y, cells, 0)
      case None => Crash
      case Some(g) => Continue(RowState(g, st.y + 1))
  }

  /** A line step that is `RowStep` on the items `cellsOf` gives. */
  ghost predicate IsRowStep<T(!new)>(act: (RowState<T>, string) -> LineOutcome<RowState<T>, Error>,
      cellsOf: string -> seq<Option<T>>)
  {
    forall st, line :: act(st, line) == RowStep(st, cellsOf(line))
  }

  /** The whole reader: header, a `NO_CLUE` grid, then `height` row lines. */
  ghost function Read<T>(input: seq<LineRead>, noClue: T,
      act: (RowState<T>, string) -> LineOutcome<RowState<T>, Error>): ReadOutcome<Grid<T>, Error>
  {
    match NextValid(input, 0)
    case Endless => Hangs
    case IoFailed(e, _) => Failed(FromIoError(e))
    case Found(line, next) =>
      match ParseHeader(line)
      case Err(e) => Failed(e)
      case Ok(hdr) =>
        match NewReaderGrid(hdr.0, hdr.1, noClue)
        case None => Panics
        case Some(g) =>
          match ReadLines(input, next, hdr.0, RowState(g, 0), act, FromIoError)
          case Parsed(st) => Parsed(st.grid)
          case Failed(e) => Failed(e)
          case Hangs => Hangs
          case Panics => Panics
  }

  /** `read_penciloid_problem` of either grid reader. */
  method ReadRows<T>(input: seq<LineRead>, noClue: T,
      act: (RowState<T>, string) -> LineOutcome<RowState<T>, Error>)
    returns (r: ReadOutcome<Grid<T>, Error>)
    ensures r == Read(input, noClue, act)
  {
    var first := NextValidLine(input, 0);
    if first.Endless? {
      return Hangs;
    } else if first.IoFailed? {
      return Failed(FromIoError(first.err));
    }
    var header := ParseHeader(first.line);
    if header.Err? {
      return Failed(header.error);
    }
    var (height, width) := header.value;
    var blank := NewReaderGrid(height, width, noClue);
    if blank.None? {
      return Panics;
    }
    var rows := ReadLinesLoop(input, first.next, height, RowState(blank.value, 0), act, FromIoError);
    match rows
    case Parsed(st) => r := Parsed(st.grid);
    case Failed(e) => r := Failed(e);
    case Hangs => r := Hangs;
    case Panics => r := Panics;
  }

  /** Filling a row in range writes the clue items of columns `x0..width` of row `y`, and nothing else. */
  lemma {:induction false} FillRowSpec<T>(g: Grid<T>, y: int, cells: seq<Option<T>>, x0: nat)
    requires |g.data| == g.height * g.width && 0 <= y < g.height && |cells| >= g.width
    ensures FillRow(g, y, cells, x0).Some?
    ensures var r := FillRow(g, y, cells, x0).value;
      && r.height == g.height && r.width == g.width && |r.data| == |g.data|
      && forall i :: 0 <= i < |g.data| ==>
          r.data[i] == (if CellSlot(g.width, y, x0) <= i < CellSlot(g.width, y, g.width)
                        then Pick(cells[i - y * g.width], g.data[i]) else g.data[i])
    decreases |cells| - x0
  {
    if x0 < g.width && x0 < |cells| {
      MulMonotone(y, g.height - 1, g.width);
      assert 0 <= CellSlot(g.width, y, x0) < |g.data|;
      var g1 := if cells[x0].Some? then WriteCell(g, y, x0, cells[x0].value).value else g;
      FillRowSpec(g1, y, cells, x0 + 1);
    }
  }

  /** What a parsed grid holds at cell `(y, x)`: the clue item, or `NO_CLUE`. */
  function Expected<T>(cellsOf: string -> seq<Option<T>>, line: string, x: nat, noClue: T): T {
    if x < |cellsOf(line)| then Pick(cellsOf(line)[x], noClue) else noClue
  }

  /**
   * Reading the row lines `rows` from row `st.y` on, over rows that are
   * still all `NO_CLUE`, fills each row from its own line and leaves the
   * earlier rows alone.
   */
  lemma {:induction false} FoldRows<T(!new)>(st: RowState<T>, rows: seq<string>, noClue: T,
      act: (RowState<T>, string) -> LineOutcome<RowState<T>, Error>, cellsOf: string -> seq<Option<T>>)
    requires IsRowStep(act, cellsOf)
    requires |st.grid.data| == st.grid.height * st.grid.width
    requires 0 <= st.y && st.y + |rows| <= st.grid.height
    requires forall i :: CellSlot(st.grid.width, st.y, 0) <= i < |st.grid.data| ==> st.grid.data[i] == noClue
    requires Fold(st, rows, act).Continue?
    ensures var r := Fold(st, rows, act).state;
      && r.y == st.y + |rows| && r.grid.height == st.grid.height && r.grid.width == st.grid.width
      && |r.grid.data| == |st.grid.data|
      && (forall k :: 0 <= k < |rows| && st.grid.width > 0 ==> |cellsOf(rows[k])| >= st.grid.width)
      && (forall i :: 0 <= i < CellSlot(st.grid.width, st.y, 0) ==> r.grid.data[i] == st.grid.data[i])
      && (forall y, x ::
            st.y <= y < st.y + |rows| && 0 <= x < st.grid.width && 0 <= CellSlot(st.grid.width, y, x) < |r.grid.data|
            ==> r.grid.data[CellSlot(st.grid.width, y, x)] == Expected(cellsOf, rows[y - st.y], x, noClue))
    decreases |rows|
  {
    if rows != [] {
      var w := st.grid.width;
      var y0 := st.y;
      assert act(st, rows[0]) == RowStep(st, cellsOf(rows[0]));
      RowStepSpec(st, cellsOf(rows[0]), noClue);
      var st1 := act(st, rows[0]).state;
      FoldRows(st1, rows[1..], noClue, act, cellsOf);
      var r := Fold(st, rows, act).state;
      assert r == Fold(st1, rows[1..], act).state;
      forall k | 0 <= k < |rows| && w > 0
        ensures |cellsOf(rows[k])| >= w
      {
        if k > 0 {
          assert rows[k] == rows[1..][k - 1];
        }
      }
      forall y, x | y0 <= y < y0 + |rows| && 0 <= x < w && 0 <= CellSlot(w, y, x) < |r.grid.data|
        ensures r.grid.data[CellSlot(w, y, x)] == Expected(cellsOf, rows[y - y0], x, noClue)
      {
        if y == y0 {
          assert CellSlot(w, y0, x) < CellSlot(w, y0 + 1, 0);
        } else {
          assert rows[y - y0] == rows[1..][y - (y0 + 1)];
        }
      }
    }
  }

  /**
   * One row step on a row that is still all `NO_CLUE` and lies inside the
   * grid: the row gets its line's clue items and every other slot keeps
   * its value.
   */
  lemma RowStepSpec<T>(st: RowState<T>, cells: seq<Option<T>>, noClue: T)
    requires |st.grid.data| == st.grid.height * st.grid.width && 0 <= st.y < st.grid.height
    requires forall i :: CellSlot(st.grid.width, st.y, 0) <= i < |st.grid.data| ==> st.grid.data[i] == noClue
    requires RowStep(st, cells).Continue?
    ensures var g := st.grid;
      var w := g.width;
      var r := RowStep(st, cells).state;
      && r.y == st.y + 1 && r.grid.height == g.height && r.grid.width == w
      && |r.grid.data| == |g.data|
      && (w > 0 ==> |cells| >= w)
      && CellSlot(w, st.y + 1, 0) == CellSlot(w, st.y, 0) + w
      && (forall i :: 0 <= i < CellSlot(w, st.y, 0) ==> r.grid.data[i] == g.data[i])
      && (forall i :: CellSlot(w, st.y + 1, 0) <= i < |g.data| ==> r.grid.data[i] == noClue)
      && (forall x :: 0 <= x < w ==>
            0 <= CellSlot(w, st.y, x) < |g.data| && r.grid.data[CellSlot(w, st.y, x)] == Pick(cells[x], noClue))
  {
    var g := st.grid;
    var w := g.width;
    FillRowSpecAny(g, st.y, cells);
    assert CellSlot(w, st.y + 1, 0) == CellSlot(w, st.y, 0) + w;
    forall x | 0 <= x < w
      ensures 0 <= CellSlot(w, st.y, x) < |g.data|
    {
      SlotInRange(g.height, w, st.y, x);
    }
  }

  /** `FillRowSpec` from column 0, also for a grid with no columns. */
  lemma FillRowSpecAny<T>(g: Grid<T>, y: int, cells: seq<Option<T>>)
    requires |g.data| == g.height * g.width && 0 <= y < g.height
    requires g.width > 0 ==> |cells| >= g.width
    ensures FillRow(g, y, cells, 0).Some?
    ensures var r := FillRow(g, y, cells, 0).value;
      && r.height == g.height && r.width == g.width && |r.data| == |g.data|
      && forall i :: 0 <= i < |g.data| ==>
          r.data[i] == (if CellSlot(g.width, y, 0) <= i < CellSlot(g.width, y, g.width)
                        then Pick(cells[i - y * g.width], g.data[i]) else g.data[i])
  {
    if g.width > 0 {
      FillRowSpec(g, y, cells, 0);
    }
  }

  /** The row lines a parsed read consumed, after the header. */
  ghost function Rows(input: seq<LineRead>): seq<string>
    requires NextValid(input, 0).Found? && ParseHeader(NextValid(input, 0).line).Ok?
  {
    var nv := NextValid(input, 0);
    var ls := ValidLines(input, nv.next, ParseHeader(nv.line).value.0);
    if ls.Some? then ls.value else []
  }

  /**
   * A parsed grid has the header's height and width, `height` row lines
   * were read (none for a negative height), and cell `(y, x)` holds the
   * `x`-th item of row line `y` when that is a clue, else `NO_CLUE`; every
   * row line had at least `width` items.
   */
  lemma ReadCells<T(!new)>(input: seq<LineRead>, noClue: T,
      act: (RowState<T>, string) -> LineOutcome<RowState<T>, Error>, cellsOf: string -> seq<Option<T>>)
    requires IsRowStep(act, cellsOf)
    requires Read(input, noClue, act).Parsed?
    ensures NextValid(input, 0).Found? && ParseHeader(NextValid(input, 0).line).Ok?
    ensures var (h, w) := ParseHeader(NextValid(input, 0).line).value;
      var g := Read(input, noClue, act).value;
      var rows := Rows(input);
      && g.height == h && g.width == w && |g.data| == h * w
      && |rows| == (if h < 0 then 0 else h)
      && (forall y :: 0 <= y < |rows| && w > 0 ==> |cellsOf(rows[y])| >= w)
      && (forall y, x :: 0 <= y < h && 0 <= x < w ==>
            0 <= CellSlot(w, y, x) < |g.data| && g.data[CellSlot(w, y, x)] == Expected(cellsOf, rows[y], x, noClue))
  {
    var nv := NextValid(input, 0);
    var (h, w) := ParseHeader(nv.line).value;
    LoopCells(input, nv.next, h, w, noClue, act, cellsOf);
  }

  /** `ReadCells` for the row loop alone, started on the all-`NO_CLUE` grid. */
  lemma LoopCells<T(!new)>(input: seq<LineRead>, next: nat, h: int, w: int, noClue: T,
      act: (RowState<T>, string) -> LineOutcome<RowState<T>, Error>, cellsOf: string -> seq<Option<T>>)
    requires IsRowStep(act, cellsOf)
    requires NewReaderGrid(h, w, noClue).Some?
    requires ReadLines(input, next, h, RowState(NewReaderGrid(h, w, noClue).value, 0), act, FromIoError).Parsed?
    ensures ValidLines(input, next, h).Some?
    ensures var g := ReadLines(input, next, h, RowState(NewReaderGrid(h, w, noClue).value, 0), act, FromIoError).value.grid;
      var rows := ValidLines(input, next, h).value;
      && g.height == h && g.width == w && |g.data| == h * w
      && |rows| == (if h < 0 then 0 else h)
      && (forall y :: 0 <= y < |rows| && w > 0 ==> |cellsOf(rows[y])| >= w)
      && (forall y, x :: 0 <= y < h && 0 <= x < w ==>
            0 <= CellSlot(w, y, x) < |g.data| && g.data[CellSlot(w, y, x)] == Expected(cellsOf, rows[y], x, noClue))
  {
    var g0 := NewReaderGrid(h, w, noClue).value;
    var st0 := RowState(g0, 0);
    ReadLinesFold(input, next, h, st0, act, FromIoError);
    var rows := ValidLines(input, next, h).value;
    var g := ReadLines(input, next, h, st0, act, FromIoError).value.grid;
    if h > 0 {
      assert CellSlot(w, 0, 0) == 0;
      FoldRows(st0, rows, noClue, act, cellsOf);
      assert g == Fold(st0, rows, act).state.grid && st0.y == 0 && st0.grid.width == w;
      forall y, x | 0 <= y < h && 0 <= x < w
        ensures 0 <= CellSlot(w, y, x) < |g.data| && g.data[CellSlot(w, y, x)] == Expected(cellsOf, rows[y], x, noClue)
      {
        SlotInRange(h, w, y, x);
        assert rows[y - st0.y] == rows[y];
      }
    } else {
      assert rows == [];
    }
  }

  lemma SlotInRange(h: int, w: int, y: int, x: int)
    requires 0 <= y < h && 0 <= x < w
    ensures 0 <= CellSlot(w, y, x) < h * w
  {
    MulMonotone(y + 1, h, w);
  }
}
