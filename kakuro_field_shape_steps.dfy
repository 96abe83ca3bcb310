// The loop invariants of `FieldShape::new` in src/kakuro/field_shape.rs and
// one lemma per kind of step of each loop. The run-level predicates they are
// built from live in KakuroFieldShape, so each reaches the solver here as a
// single fact.

module KakuroFieldShapeSteps {
  import opened Wrappers
  import opened Common
  import opened KakuroFieldShape

  /** A clue or the row's end closes the open run from `s`, a maximal run. */
  lemma RowPosClose(hc: Grid<bool>, y: int, r0: int, x: int, s: int, x0: int)
    requires hc.Valid() && RowPos(hc, y, r0, x, Some(s), x0) && x < hc.width + 1
    requires x == hc.width || hc.data[r0 + x]
    requires s != 0
    ensures RowPos(hc, y, r0, x + 1, None, x0)
    ensures HRun(hc, Grp(s, r0 + x, 1))
    ensures r0 + (if x <= hc.width then x else hc.width) == r0 + x && 0 <= s <= r0 + x <= r0 + (if x + 1 <= hc.width then x + 1 else hc.width)
    ensures forall i :: r0 + x <= i < r0 + (if x + 1 <= hc.width then x + 1 else hc.width) && i < |hc.data| ==> hc.data[i]
  {
    HRunOfRow(hc, y, r0, x0, x);
  }

  /** A clue or the row's end with no run open moves on. */
  lemma RowPosSkip(hc: Grid<bool>, y: int, r0: int, x: int, x0: int)
    requires hc.Valid() && RowPos(hc, y, r0, x, None, x0) && x < hc.width + 1
    requires x == hc.width || hc.data[r0 + x]
    ensures RowPos(hc, y, r0, x + 1, None, x0)
    ensures r0 + (if x <= hc.width then x else hc.width) <= r0 + (if x + 1 <= hc.width then x + 1 else hc.width)
    ensures forall i :: r0 + (if x <= hc.width then x else hc.width) <= i < r0 + (if x + 1 <= hc.width then x + 1 else hc.width) && 0 <= i < |hc.data| ==> hc.data[i]
  {
  }

  /** A non-clue slot with no run open opens one. */
  lemma RowPosOpen(hc: Grid<bool>, y: int, r0: int, x: int, x0: int)
    requires hc.Valid() && RowPos(hc, y, r0, x, None, x0) && x < hc.width
    requires !hc.data[r0 + x]
    ensures RowPos(hc, y, r0, x + 1, Some(r0 + x), x)
    ensures r0 + (if x <= hc.width then x else hc.width) == r0 + x && r0 + (if x + 1 <= hc.width then x + 1 else hc.width) == r0 + x + 1 && 0 <= r0 + x < |hc.data|
  {
  }

  /** A non-clue slot extends the open run. */
  lemma RowPosExtend(hc: Grid<bool>, y: int, r0: int, x: int, s: int, x0: int)
    requires hc.Valid() && RowPos(hc, y, r0, x, Some(s), x0) && x < hc.width
    requires !hc.data[r0 + x]
    ensures RowPos(hc, y, r0, x + 1, Some(s), x0)
    ensures r0 + (if x <= hc.width then x else hc.width) == r0 + x && r0 + (if x + 1 <= hc.width then x + 1 else hc.width) == r0 + x + 1 && 0 <= s <= r0 + x < |hc.data|
  {
  }

  /** Closing the run `s .. p - 1` keeps the horizontal groups ordered. */
  lemma HGroupsClose(hc: Grid<bool>, gs: seq<Grp>, locs: seq<ClueLocation>, s: int, p: int, p': int)
    requires hc.Valid() && HGroups(hc, gs, locs, s) && HRun(hc, Grp(s, p, 1)) && p <= p'
    ensures HGroups(hc, gs + [Grp(s, p, 1)], locs + [Horizontal(s - 1)], p')
  {
    assert forall g :: 0 <= g < |gs| ==> gs[g].start < gs[g].end;
  }

  /** Groups complete up to `b` are complete up to any later slot. */
  lemma HGroupsWiden(hc: Grid<bool>, gs: seq<Grp>, locs: seq<ClueLocation>, b: int, b': int)
    requires hc.Valid() && HGroups(hc, gs, locs, b) && b <= b'
    ensures HGroups(hc, gs, locs, b')
  {
  }

  /** Closing the run `s .. p - 1` as group `|gs|` keeps the slots' horizontal groups. */
  lemma HCellsClose(hc: Grid<bool>, cg: Grid<(int, int)>, gs: seq<Grp>, p: int, s: int, p': int)
    requires hc.Valid() && HCells(hc, cg, gs, p, true, s) && 0 <= s <= p <= p'
    requires forall i :: p <= i < p' && 0 <= i < |hc.data| ==> hc.data[i]
    ensures HCells(hc, cg, gs + [Grp(s, p, 1)], p', false, p')
  {
  }

  /** Passing clue slots with no run open assigns nothing. */
  lemma HCellsSkip(hc: Grid<bool>, cg: Grid<(int, int)>, gs: seq<Grp>, p: int, p': int)
    requires hc.Valid() && HCells(hc, cg, gs, p, false, p) && p <= p'
    requires forall i :: p <= i < p' && 0 <= i < |hc.data| ==> hc.data[i]
    ensures HCells(hc, cg, gs, p', false, p')
  {
  }

  /** A non-clue slot `p` joins the open run, which is to become group `|gs|`. */
  lemma HCellsMark(hc: Grid<bool>, cg: Grid<(int, int)>, gs: seq<Grp>, p: int, open: bool, s: int)
    requires hc.Valid() && HCells(hc, cg, gs, p, open, s) && (open || s == p)
    requires 0 <= s <= p < |hc.data| && !hc.data[p]
    ensures HCells(hc, Grid(cg.height, cg.width, cg.data[p := (|gs|, cg.data[p].1)]), gs, p + 1, true, s)
  {
  }

  /** A clue or the column's end closes the open run from row `y0`, a maximal run. */
  lemma ColPosClose(hc: Grid<bool>, x: int, y: int, q: int, s: int, y0: int)
    requires hc.Valid() && ColPos(hc, x, y, q, Some(s), y0) && y < hc.height + 1
    requires y == hc.height || ClueAt(hc, q)
    requires s >= hc.width
    ensures ColPos(hc, x, y + 1, q + hc.width, None, y0)
    ensures VRun(hc, Grp(s, q, hc.width))
    ensures 0 <= y0 < y <= hc.height && s == y0 * hc.width + x && s < q
  {
    SlotRowCol(hc.width, x, y);
    VRunOfColumn(hc, x, y0, y);
  }

  /** A clue or the column's end with no run open moves on; the slot passed is a clue. */
  lemma ColPosSkip(hc: Grid<bool>, x: int, y: int, q: int, y0: int)
    requires hc.Valid() && ColPos(hc, x, y, q, None, y0) && y < hc.height + 1
    requires y == hc.height || ClueAt(hc, q)
    ensures ColPos(hc, x, y + 1, q + hc.width, None, y0)
    ensures forall i :: 0 <= i < |hc.data| && i % hc.width == x && i / hc.width == y ==> hc.data[i]
  {
    var w := hc.width;
    SlotRowCol(w, x, y);
    forall i | 0 <= i < |hc.data| && i % w == x && i / w == y
      ensures hc.data[i]
    {
      SlotUnique(w, x, y, i);
    }
  }

  /** A non-clue slot with no run open opens one; it is the one slot of its row and column. */
  lemma ColPosOpen(hc: Grid<bool>, x: int, y: int, q: int, y0: int)
    requires hc.Valid() && ColPos(hc, x, y, q, None, y0) && y < hc.height
    requires 0 <= q < |hc.data| && !hc.data[q]
    ensures ColPos(hc, x, y + 1, q + hc.width, Some(q), y)
    ensures q % hc.width == x && q / hc.width == y
    ensures forall i :: 0 <= i < |hc.data| && i % hc.width == x && i / hc.width == y ==> i == q
  {
    var w := hc.width;
    SlotRowCol(w, x, y);
    forall i | 0 <= i < |hc.data| && i % w == x && i / w == y
      ensures i == q
    {
      SlotUnique(w, x, y, i);
    }
  }

  /** A non-clue slot extends the open run; it is the one slot of its row and column. */
  lemma ColPosExtend(hc: Grid<bool>, x: int, y: int, q: int, s: int, y0: int)
    requires hc.Valid() && ColPos(hc, x, y, q, Some(s), y0) && y < hc.height
    requires 0 <= q < |hc.data| && !hc.data[q]
    ensures ColPos(hc, x, y + 1, q + hc.width, Some(s), y0)
    ensures q % hc.width == x && q / hc.width == y && y0 <= y
    ensures forall i :: 0 <= i < |hc.data| && i % hc.width == x && i / hc.width == y ==> i == q
  {
    var w := hc.width;
    SlotRowCol(w, x, y);
    forall i | 0 <= i < |hc.data| && i % w == x && i / w == y
      ensures i == q
    {
      SlotUnique(w, x, y, i);
    }
  }

  /** A run still open with its first slot in the top row means that slot is not a clue. */
  lemma ColPosUnderflow(hc: Grid<bool>, x: int, y: int, q: int, s: int, y0: int)
    requires hc.Valid() && ColPos(hc, x, y, q, Some(s), y0) && s < hc.width
    ensures hc.height > 0 && !ClueAt(hc, x)
  {
    if y0 > 0 {
      MulMonotone(1, y0, hc.width);
    }
    DivModUnique(x, hc.width, 0, x);
  }

  /** Closing the run of column `x` from row `y0` at row `y` keeps the vertical groups apart. */
  lemma VGroupsClose(hc: Grid<bool>, gs: seq<Grp>, locs: seq<ClueLocation>, nh: int, x: int, y0: int, s: int, e: int)
    requires hc.Valid() && 0 <= x < hc.width && 0 <= y0 && s == y0 * hc.width + x && s < e
    requires VGroups(hc, gs, locs, nh, x, s)
    requires VRun(hc, Grp(s, e, hc.width))
    ensures VGroups(hc, gs + [Grp(s, e, hc.width)], locs + [Vertical(s - hc.width)], nh, x, e + hc.width)
  {
    SlotRowCol(hc.width, x, y0);
    assert forall g :: nh <= g < |gs| ==> gs[g].start < gs[g].end;
  }

  /** Vertical groups complete up to `b` are complete up to any later slot. */
  lemma VGroupsWiden(hc: Grid<bool>, gs: seq<Grp>, locs: seq<ClueLocation>, nh: int, x: int, b: int, b': int)
    requires hc.Valid() && VGroups(hc, gs, locs, nh, x, b) && b <= b'
    ensures VGroups(hc, gs, locs, nh, x, b')
  {
  }

  /** Closing the run of column `x` from row `y0` at row `y` gives its slots their group. */
  lemma VCellsClose(hc: Grid<bool>, h0: FieldShape, cg: Grid<(int, int)>, gs: seq<Grp>, x: int, y: int, y0: int,
                     s: int, e: int)
    requires hc.Valid() && 0 <= x < hc.width && 0 <= y0 < y <= hc.height
    requires s == y0 * hc.width + x && e == y * hc.width + x
    requires VCells(hc, h0, cg, gs, x, y, true, y0) && |h0.groupToCells| <= |gs|
    requires y == hc.height || ClueAt(hc, e)
    ensures VCells(hc, h0, cg, gs + [Grp(s, e, hc.width)], x, y + 1, false, y0)
  {
    var w := hc.width;
    var gs' := gs + [Grp(s, e, w)];
    forall i | 0 <= i < |cg.data| && !hc.data[i] && Visited(w, i, x, y + 1)
      ensures var b := cg.data[i].1; |h0.groupToCells| <= b < |gs'| && gs'[b].step == w && InGrp(gs'[b], i)
    {
      SlotOf(w, i);
      if i % w == x && i / w == y {
        SlotUnique(w, x, y, i);
        assert false;
      }
      assert Visited(w, i, x, y);
      if i % w == x && i / w >= y0 {
        ColumnInGrp(w, x, y0, y, i);
      } else {
        assert gs'[cg.data[i].1] == gs[cg.data[i].1];
      }
    }
  }

  /** Passing a clue slot of column `x` with no run open assigns nothing. */
  lemma VCellsSkip(hc: Grid<bool>, h0: FieldShape, cg: Grid<(int, int)>, gs: seq<Grp>, x: int, y: int, y0: int)
    requires hc.Valid() && VCells(hc, h0, cg, gs, x, y, false, y0)
    requires forall i :: 0 <= i < |hc.data| && i % hc.width == x && i / hc.width == y ==> hc.data[i]
    ensures VCells(hc, h0, cg, gs, x, y + 1, false, y0)
  {
  }

  /** The non-clue slot `q` of column `x`, row `y` joins the open run from row `y0'`, to become group `|gs|`. */
  lemma VCellsMark(hc: Grid<bool>, h0: FieldShape, cg: Grid<(int, int)>, gs: seq<Grp>, x: int, y: int,
                   open: bool, y0: int, y0': int, q: int)
    requires hc.Valid() && VCells(hc, h0, cg, gs, x, y, open, y0)
    requires if open then y0' == y0 <= y else y0' == y
    requires 0 <= q < |hc.data| && !hc.data[q] && q % hc.width == x && q / hc.width == y
    requires forall i :: 0 <= i < |hc.data| && i % hc.width == x && i / hc.width == y ==> i == q
    ensures VCells(hc, h0, Grid(cg.height, cg.width, cg.data[q := (cg.data[q].0, |gs|)]), gs, x, y + 1, true, y0')
  {
  }

  /**
   * The invariant of the row loop over row `y` (first slot `r0`) at column
   * `x`; an open run starts at column `x0`.
   */
  ghost predicate HRowInv(hc: Grid<bool>, y: int, r0: int, x: int, start: Option<int>, x0: int,
                          cg: Grid<(int, int)>, gs: seq<Grp>, locs: seq<ClueLocation>)
    requires hc.Valid()
  {
    var p := r0 + (if x <= hc.width then x else hc.width);
    var mark := if start.Some? then start.value else p;
    RowPos(hc, y, r0, x, start, x0)
    && HGroups(hc, gs, locs, mark)
    && HCells(hc, cg, gs, p, start.Some?, mark)
  }

  /** A clue or the row's end closes the open run from `s` as a new group. */
  lemma HCloseStep(hc: Grid<bool>, y: int, r0: int, x: int, s: int, x0: int, cg: Grid<(int, int)>,
                   gs: seq<Grp>, locs: seq<ClueLocation>)
    requires hc.Valid() && HRowInv(hc, y, r0, x, Some(s), x0, cg, gs, locs) && x < hc.width + 1
    requires x == hc.width || hc.data[r0 + x]
    requires s != 0
    ensures HRowInv(hc, y, r0, x + 1, None, x0, cg, gs + [Grp(s, r0 + x, 1)], locs + [Horizontal(s - 1)])
  {
    RowPosClose(hc, y, r0, x, s, x0);
    HGroupsClose(hc, gs, locs, s, r0 + x, r0 + (if x + 1 <= hc.width then x + 1 else hc.width));
    HCellsClose(hc, cg, gs, r0 + x, s, r0 + (if x + 1 <= hc.width then x + 1 else hc.width));
  }

  /** A clue or the row's end with no run open changes nothing but the column. */
  lemma HSkipStep(hc: Grid<bool>, y: int, r0: int, x: int, x0: int, cg: Grid<(int, int)>,
                  gs: seq<Grp>, locs: seq<ClueLocation>)
    requires hc.Valid() && HRowInv(hc, y, r0, x, None, x0, cg, gs, locs) && x < hc.width + 1
    requires x == hc.width || hc.data[r0 + x]
    ensures HRowInv(hc, y, r0, x + 1, None, x0, cg, gs, locs)
  {
    RowPosSkip(hc, y, r0, x, x0);
    HGroupsWiden(hc, gs, locs, r0 + (if x <= hc.width then x else hc.width), r0 + (if x + 1 <= hc.width then x + 1 else hc.width));
    HCellsSkip(hc, cg, gs, r0 + (if x <= hc.width then x else hc.width), r0 + (if x + 1 <= hc.width then x + 1 else hc.width));
  }

  /** A non-clue cell opens a run when none is open, and joins the next group. */
  lemma HOpenStep(hc: Grid<bool>, y: int, r0: int, x: int, x0: int, cg: Grid<(int, int)>,
                  gs: seq<Grp>, locs: seq<ClueLocation>)
    requires hc.Valid() && HRowInv(hc, y, r0, x, None, x0, cg, gs, locs) && x < hc.width
    requires !hc.data[r0 + x]
    ensures HRowInv(hc, y, r0, x + 1, Some(r0 + x), x,
                    Grid(cg.height, cg.width, cg.data[r0 + x := (|gs|, cg.data[r0 + x].1)]), gs, locs)
  {
    RowPosOpen(hc, y, r0, x, x0);
    HCellsMark(hc, cg, gs, r0 + x, false, r0 + x);
  }

  /** A non-clue cell extends the open run and joins the next group. */
  lemma HExtendStep(hc: Grid<bool>, y: int, r0: int, x: int, s: int, x0: int, cg: Grid<(int, int)>,
                    gs: seq<Grp>, locs: seq<ClueLocation>)
    requires hc.Valid() && HRowInv(hc, y, r0, x, Some(s), x0, cg, gs, locs) && x < hc.width
    requires !hc.data[r0 + x]
    ensures HRowInv(hc, y, r0, x + 1, Some(s), x0,
                    Grid(cg.height, cg.width, cg.data[r0 + x := (|gs|, cg.data[r0 + x].1)]), gs, locs)
  {
    RowPosExtend(hc, y, r0, x, s, x0);
    HCellsMark(hc, cg, gs, r0 + x, true, s);
  }

  /**
   * The invariant of the loop over column `x` at row `y`, whose first slot
   * is `q`; an open run starts at row `y0`.
   */
  ghost predicate VColInv(hc: Grid<bool>, h0: FieldShape, x: int, y: int, q: int, start: Option<int>, y0: int,
                          cg: Grid<(int, int)>, gs: seq<Grp>, locs: seq<ClueLocation>)
    requires hc.Valid()
  {
    var mark := if start.Some? then start.value else q;
    ColPos(hc, x, y, q, start, y0)
    && KeepsRows(h0, gs, locs)
    && VGroups(hc, gs, locs, |h0.groupToCells|, x, mark)
    && VCells(hc, h0, cg, gs, x, y, start.Some?, y0)
  }

  /** A clue or the column's end closes the open run from row `y0` as a new group. */
  lemma VCloseStep(hc: Grid<bool>, h0: FieldShape, x: int, y: int, q: int, s: int, y0: int,
                   cg: Grid<(int, int)>, gs: seq<Grp>, locs: seq<ClueLocation>)
    requires hc.Valid() && VColInv(hc, h0, x, y, q, Some(s), y0, cg, gs, locs) && y < hc.height + 1
    requires y == hc.height || ClueAt(hc, q)
    requires s >= hc.width
    ensures VColInv(hc, h0, x, y + 1, q + hc.width, None, y0, cg, gs + [Grp(s, q, hc.width)],
                    locs + [Vertical(s - hc.width)])
  {
    ColPosClose(hc, x, y, q, s, y0);
    KeepsRowsPush(h0, gs, locs, Grp(s, q, hc.width), Vertical(s - hc.width));
    VGroupsClose(hc, gs, locs, |h0.groupToCells|, x, y0, s, q);
    VCellsClose(hc, h0, cg, gs, x, y, y0, s, q);
  }

  /** A clue or the column's end with no run open changes nothing but the row. */
  lemma VSkipStep(hc: Grid<bool>, h0: FieldShape, x: int, y: int, q: int, y0: int,
                  cg: Grid<(int, int)>, gs: seq<Grp>, locs: seq<ClueLocation>)
    requires hc.Valid() && VColInv(hc, h0, x, y, q, None, y0, cg, gs, locs) && y < hc.height + 1
    requires y == hc.height || ClueAt(hc, q)
    ensures VColInv(hc, h0, x, y + 1, q + hc.width, None, y0, cg, gs, locs)
  {
    ColPosSkip(hc, x, y, q, y0);
    VGroupsWiden(hc, gs, locs, |h0.groupToCells|, x, q, q + hc.width);
    VCellsSkip(hc, h0, cg, gs, x, y, y0);
  }

  /** A non-clue slot opens a run when none is open, and joins the next group. */
  lemma VOpenStep(hc: Grid<bool>, h0: FieldShape, x: int, y: int, q: int, y0: int,
                  cg: Grid<(int, int)>, gs: seq<Grp>, locs: seq<ClueLocation>)
    requires hc.Valid() && VColInv(hc, h0, x, y, q, None, y0, cg, gs, locs) && y < hc.height
    requires 0 <= q < |hc.data| && !hc.data[q]
    ensures VColInv(hc, h0, x, y + 1, q + hc.width, Some(q), y,
                    Grid(cg.height, cg.width, cg.data[q := (cg.data[q].0, |gs|)]), gs, locs)
  {
    ColPosOpen(hc, x, y, q, y0);
    VCellsMark(hc, h0, cg, gs, x, y, false, y0, y, q);
  }

  /** A non-clue slot extends the open run and joins the next group. */
  lemma VExtendStep(hc: Grid<bool>, h0: FieldShape, x: int, y: int, q: int, s: int, y0: int,
                    cg: Grid<(int, int)>, gs: seq<Grp>, locs: seq<ClueLocation>)
    requires hc.Valid() && VColInv(hc, h0, x, y, q, Some(s), y0, cg, gs, locs) && y < hc.height
    requires 0 <= q < |hc.data| && !hc.data[q]
    ensures VColInv(hc, h0, x, y + 1, q + hc.width, Some(s), y0,
                    Grid(cg.height, cg.width, cg.data[q := (cg.data[q].0, |gs|)]), gs, locs)
  {
    ColPosExtend(hc, x, y, q, s, y0);
    VCellsMark(hc, h0, cg, gs, x, y, true, y0, y0, q);
  }
}
