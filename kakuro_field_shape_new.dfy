// The construction of a board's groups, `FieldShape::new` in
// src/kakuro/field_shape.rs: a pass over the rows for the horizontal runs,
// then a pass over the columns for the vertical ones. Slots are row-major
// indices `y * width + x`; a panic of the source (`s - 1` or `s - width`
// below zero) is `ok == false` here and `None` from `New`.

module KakuroFieldShapeNew {
  import opened Wrappers
  import opened Common
  import opened KakuroFieldShape
  import opened KakuroFieldShapeSteps

  /** The row loop's invariant holds before column 0. */
  lemma HRowEntry(hc: Grid<bool>, y: int, r0: int, cg: Grid<(int, int)>, gs: seq<Grp>, locs: seq<ClueLocation>)
    requires hc.Valid() && RowIn(hc, y, r0)
    requires HPassed(hc, cg, gs, locs, r0)
    ensures HRowInv(hc, y, r0, 0, None, 0, cg, gs, locs)
  {
  }

  /** After column `width` the row's runs are all closed, the first one with a clue before it. */
  lemma HRowExit(hc: Grid<bool>, y: int, r0: int, start: Option<int>, x0: int, cg: Grid<(int, int)>,
                 gs: seq<Grp>, locs: seq<ClueLocation>)
    requires hc.Valid() && HRowInv(hc, y, r0, hc.width + 1, start, x0, cg, gs, locs)
    ensures !(y == 0 && hc.width > 0 && !hc.data[0])
    ensures HPassed(hc, cg, gs, locs, r0 + hc.width)
  {
    RowZero(hc, y, r0);
  }

  /** The loop's invariant holds before row 0. */
  lemma VColEntry(hc: Grid<bool>, h0: FieldShape, x: int, cg: Grid<(int, int)>, gs: seq<Grp>, locs: seq<ClueLocation>)
    requires hc.Valid() && VPassed(hc, h0, x, cg, gs, locs) && x < hc.width
    ensures VColInv(hc, h0, x, 0, x, None, 0, cg, gs, locs)
  {
  }

  /** After row `height` the column's runs are all closed, and its top slot holds a clue. */
  lemma VColExit(hc: Grid<bool>, h0: FieldShape, x: int, q: int, start: Option<int>, y0: int,
                 cg: Grid<(int, int)>, gs: seq<Grp>, locs: seq<ClueLocation>)
    requires hc.Valid() && VColInv(hc, h0, x, hc.height + 1, q, start, y0, cg, gs, locs)
    ensures !(hc.height > 0 && !ClueAt(hc, x))
    ensures VPassed(hc, h0, x + 1, cg, gs, locs)
  {
    VCellsNextColumn(hc, h0, cg, gs, x, y0);
    VGroupsNextColumn(hc, gs, locs, |h0.groupToCells|, x, q);
  }

  /** One iteration of the row loop, at column `x`; `ok` is false where `s - 1` underflows. */
  method HStep(hc: Grid<bool>, y: int, r0: int, x: int, start: Option<int>, ghost x0: int,
               cg: Grid<(int, int)>, gs: seq<Grp>, locs: seq<ClueLocation>)
    returns (ok: bool, start': Option<int>, ghost x0': int, cg': Grid<(int, int)>,
             gs': seq<Grp>, locs': seq<ClueLocation>)
    requires hc.Valid() && HRowInv(hc, y, r0, x, start, x0, cg, gs, locs) && x < hc.width + 1
    ensures !ok ==> y == 0 && hc.width > 0 && !hc.data[0]
    ensures ok ==> HRowInv(hc, y, r0, x + 1, start', x0', cg', gs', locs')
  {
    var w := hc.width;
    ok, start', x0', cg', gs', locs' := true, start, x0, cg, gs, locs;
    if x < w {
      hc.IndexInRange(Coord(y, x));
    }
    if x == w || hc.Get(Coord(y, x)) {
      if start.Some? {
        var s := start.value;
        if s == 0 {
          RowZero(hc, y, r0);
          ok := false;
          return;
        }
        HCloseStep(hc, y, r0, x, s, x0, cg, gs, locs);
        gs' := gs + [Grp(s, r0 + x, 1)];
        locs' := locs + [Horizontal(s - 1)];
      } else {
        HSkipStep(hc, y, r0, x, x0, cg, gs, locs);
      }
      start' := None;
    } else {
      if start.None? {
        HOpenStep(hc, y, r0, x, x0, cg, gs, locs);
        start' := Some(r0 + x);
        x0' := x;
      } else {
        HExtendStep(hc, y, r0, x, start.value, x0, cg, gs, locs);
      }
      cg' := cg.Set(Coord(y, x), (|gs|, cg.Get(Coord(y, x)).1));
    }
  }

  /** The row loop `for x in 0..(width + 1)` of the horizontal pass. */
  method HorizontalRow(hc: Grid<bool>, y: int, r0: int, cg: Grid<(int, int)>, gs: seq<Grp>, locs: seq<ClueLocation>)
    returns (ok: bool, cg': Grid<(int, int)>, gs': seq<Grp>, locs': seq<ClueLocation>)
    requires hc.Valid() && RowIn(hc, y, r0)
    requires HPassed(hc, cg, gs, locs, r0)
    ensures !ok <==> y == 0 && hc.width > 0 && !hc.data[0]
    ensures ok ==> HPassed(hc, cg', gs', locs', r0 + hc.width)
  {
    var start: Option<int> := None;
    ghost var x0 := 0;
    var x := 0;
    ok, cg', gs', locs' := true, cg, gs, locs;
    HRowEntry(hc, y, r0, cg, gs, locs);
    while x < hc.width + 1
      invariant ok && HRowInv(hc, y, r0, x, start, x0, cg', gs', locs')
    {
      ok, start, x0, cg', gs', locs' := HStep(hc, y, r0, x, start, x0, cg', gs', locs');
      if !ok {
        return;
      }
      x := x + 1;
    }
    HRowExit(hc, y, r0, start, x0, cg', gs', locs');
  }

  /**
   * The horizontal pass `for y in 0..height` of `FieldShape::new`; `ok` is
   * false where it panics, which is when the first slot opens a run.
   */
  method HorizontalPass(hc: Grid<bool>) returns (ok: bool, cg: Grid<(int, int)>, gs: seq<Grp>, locs: seq<ClueLocation>)
    requires hc.Valid()
    ensures !ok <==> hc.height > 0 && hc.width > 0 && !hc.data[0]
    ensures ok ==> HPassed(hc, cg, gs, locs, |hc.data|)
  {
    cg := NewGrid(hc.height, hc.width, (0, 0));
    gs, locs := [], [];
    HPassStart(hc);
    ok := true;
    var y, r0 := 0, 0;
    while y < hc.height
      invariant 0 <= y <= hc.height && r0 == y * hc.width
      invariant HPassed(hc, cg, gs, locs, r0)
      invariant y > 0 ==> !(hc.width > 0 && !hc.data[0])
    {
      RowBounds(hc, y, r0);
      ok, cg, gs, locs := HorizontalRow(hc, y, r0, cg, gs, locs);
      if !ok {
        return;
      }
      y, r0 := y + 1, r0 + hc.width;
    }
  }

  /** One iteration of the loop over column `x`, at row `y`; `ok` is false where `s - width` underflows. */
  method VStep(hc: Grid<bool>, ghost h0: FieldShape, x: int, y: int, q: int, start: Option<int>, ghost y0: int,
               cg: Grid<(int, int)>, gs: seq<Grp>, locs: seq<ClueLocation>)
    returns (ok: bool, start': Option<int>, ghost y0': int, cg': Grid<(int, int)>,
             gs': seq<Grp>, locs': seq<ClueLocation>)
    requires hc.Valid() && VColInv(hc, h0, x, y, q, start, y0, cg, gs, locs) && y < hc.height + 1
    ensures !ok ==> hc.height > 0 && !ClueAt(hc, x)
    ensures ok ==> VColInv(hc, h0, x, y + 1, q + hc.width, start', y0', cg', gs', locs')
  {
    var w := hc.width;
    ok, start', y0', cg', gs', locs' := true, start, y0, cg, gs, locs;
    if y < hc.height {
      hc.IndexInRange(Coord(y, x));
    }
    if y == hc.height || hc.Get(Coord(y, x)) {
      if start.Some? {
        var s := start.value;
        if s < w {
          // `s - width` underflows
          ColPosUnderflow(hc, x, y, q, s, y0);
          ok := false;
          return;
        }
        VCloseStep(hc, h0, x, y, q, s, y0, cg, gs, locs);
        gs' := gs + [Grp(s, q, w)];
        locs' := locs + [Vertical(s - w)];
      } else {
        VSkipStep(hc, h0, x, y, q, y0, cg, gs, locs);
      }
      start' := None;
    } else {
      if start.None? {
        VOpenStep(hc, h0, x, y, q, y0, cg, gs, locs);
        start' := Some(q);
        y0' := y;
      } else {
        VExtendStep(hc, h0, x, y, q, start.value, y0, cg, gs, locs);
      }
      cg' := cg.Set(Coord(y, x), (cg.Get(Coord(y, x)).0, |gs|));
    }
  }

  /** The column loop `for y in 0..(height + 1)` of the vertical pass. */
  method VerticalColumn(hc: Grid<bool>, ghost h0: FieldShape, x: int, cg: Grid<(int, int)>, gs: seq<Grp>,
                        locs: seq<ClueLocation>)
    returns (ok: bool, cg': Grid<(int, int)>, gs': seq<Grp>, locs': seq<ClueLocation>)
    requires hc.Valid() && VPassed(hc, h0, x, cg, gs, locs) && x < hc.width
    ensures !ok <==> hc.height > 0 && !ClueAt(hc, x)
    ensures ok ==> VPassed(hc, h0, x + 1, cg', gs', locs')
  {
    var start: Option<int> := None;
    ghost var y0 := 0;
    var y, q := 0, x;
    ok, cg', gs', locs' := true, cg, gs, locs;
    VColEntry(hc, h0, x, cg, gs, locs);
    while y < hc.height + 1
      invariant ok && VColInv(hc, h0, x, y, q, start, y0, cg', gs', locs')
    {
      ok, start, y0, cg', gs', locs' := VStep(hc, h0, x, y, q, start, y0, cg', gs', locs');
      if !ok {
        return;
      }
      y, q := y + 1, q + hc.width;
    }
    VColExit(hc, h0, x, q, start, y0, cg', gs', locs');
  }

  /**
   * The vertical pass `for x in 0..width` of `FieldShape::new`; `ok` is
   * false where it panics, which is when a top slot opens a run.
   */
  method VerticalPass(hc: Grid<bool>, ghost h0: FieldShape, cg: Grid<(int, int)>, gs: seq<Grp>, locs: seq<ClueLocation>)
    returns (ok: bool, cg': Grid<(int, int)>, gs': seq<Grp>, locs': seq<ClueLocation>)
    requires hc.Valid() && VPassed(hc, h0, 0, cg, gs, locs)
    ensures !ok <==> TopRowOpen(hc)
    ensures ok ==> VPassed(hc, h0, hc.width, cg', gs', locs')
  {
    ok, cg', gs', locs' := true, cg, gs, locs;
    var x := 0;
    while x < hc.width
      invariant ok && 0 <= x <= hc.width && VPassed(hc, h0, x, cg', gs', locs')
    {
      ok, cg', gs', locs' := VerticalColumn(hc, h0, x, cg', gs', locs');
      if !ok {
        TopOpenAt(hc, x);
        return;
      }
      x := x + 1;
    }
    TopClosed(hc);
  }

  /**
   * `FieldShape::new`: the groups of a board with clue cells `hc`, or
   * `None` where the source panics, which is when a top-row cell is not a
   * clue.
   */
  method New(hc: Grid<bool>) returns (r: Option<FieldShape>)
    requires hc.Valid()
    ensures NewSpec(hc, r)
  {
    var ok, cg, gs, locs := HorizontalPass(hc);
    if !ok {
      TopOpenAt(hc, 0);
      return None;
    }
    ghost var h0 := FieldShape(hc, cg, gs, locs);
    VPassStart(hc, cg, gs, locs);
    ok, cg, gs, locs := VerticalPass(hc, h0, cg, gs, locs);
    if !ok {
      return None;
    }
    ShapeOf(hc, h0, cg, gs, locs);
    r := Some(FieldShape(hc, cg, gs, locs));
  }
}
