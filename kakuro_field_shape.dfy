/**
 * The run structure of a Kakuro board (src/kakuro/field_shape.rs). A
 * group is a maximal run of non-clue cells in a row (step 1) or a column
 * (step `width`), held as a strided range of cell slots; `FieldShape::new`
 * numbers the horizontal runs row by row, then the vertical runs column
 * by column, and records for every cell its two groups and for every
 * group the slot of its clue cell.
 */
module KakuroFieldShape {
  import opened Wrappers
  import opened Common

  // ---- FieldShapeGrp ----

  /** The slots `start, start + step, ...` below `end`. */
  datatype Grp = Grp(start: int, end: int, step: int)

  /** The range of a group the shape builds: `start <= end` and a positive step. */
  predicate WellFormed(g: Grp) {
    0 <= g.start <= g.end && g.step > 0
  }

  /** `size`: `(end - start) / step`, the number of whole steps in the range. */
  function Size(g: Grp): (n: int)
    requires WellFormed(g)
    ensures n >= 0 && n * g.step <= g.end - g.start < (n + 1) * g.step
  {
    (g.end - g.start) / g.step
  }

  /** `next`: yields `start` while it is below `end`, and advances `start` by `step` either way. */
  function Next(g: Grp): (r: (Grp, Option<int>)) {
    (g.(start := g.start + g.step), if g.start < g.end then Some(g.start) else None)
  }

  /** Everything a fresh copy of the group yields before its first `None`. */
  function Elements(g: Grp): seq<int>
    requires g.step > 0
    decreases g.end - g.start
  {
    if g.start < g.end then [g.start] + Elements(g.(start := g.start + g.step)) else []
  }

  /** Slot `i` lies on the group's stride inside its range. */
  predicate InGrp(g: Grp, i: int)
    requires g.step > 0
  {
    g.start <= i < g.end && (i - g.start) % g.step == 0
  }

  /** Iteration yields exactly the slots on the stride. */
  lemma {:induction false} ElementsMembers(g: Grp, i: int)
    requires g.step > 0
    ensures i in Elements(g) <==> InGrp(g, i)
    decreases g.end - g.start
  {
    if g.start < g.end {
      var g' := g.(start := g.start + g.step);
      ElementsMembers(g', i);
      InGrpStep(g, i);
      assert Elements(g) == [g.start] + Elements(g');
    }
  }

  /** A slot on the stride is the first one or on the stride of the advanced group. */
  lemma InGrpStep(g: Grp, i: int)
    requires g.step > 0 && g.start < g.end
    ensures InGrp(g, i) <==> i == g.start || InGrp(g.(start := g.start + g.step), i)
  {
    var a := i - g.start;
    if a >= g.step {
      DivModShift(a - g.step, g.step);
    } else if 0 < a {
      DivModUnique(a, g.step, 0, a);
    }
  }

  lemma DivModShift(a: int, w: int)
    requires w > 0
    ensures (a + w) % w == a % w
  {
    DivModUnique(a + w, w, a / w + 1, a % w);
  }

  /** The `k`-th slot yielded is `start + k * step`, in increasing order. */
  lemma {:induction false} ElementsIndex(g: Grp, k: int)
    requires g.step > 0 && 0 <= k < |Elements(g)|
    ensures Elements(g)[k] == g.start + k * g.step
    decreases g.end - g.start
  {
    if k > 0 {
      ElementsIndex(g.(start := g.start + g.step), k - 1);
    }
  }

  /** A range that is a whole number of steps yields `size` slots. */
  lemma {:induction false} ElementsSize(g: Grp)
    requires WellFormed(g) && (g.end - g.start) % g.step == 0
    ensures |Elements(g)| == Size(g)
    decreases g.end - g.start
  {
    if g.start < g.end {
      var g' := g.(start := g.start + g.step);
      DivModUnique(g.end - g.start, g.step, Size(g), 0);
      DivModUnique(g'.end - g'.start, g.step, Size(g) - 1, 0);
      ElementsSize(g');
    }
  }

  /**
   * `next` and the sequence of yielded slots agree: it returns the first
   * yielded slot (or `None` when there is none) and leaves the rest to the
   * advanced group.
   */
  lemma NextElements(g: Grp)
    requires g.step > 0
    ensures Next(g).1.Some? <==> Elements(g) != []
    ensures Next(g).1.Some? ==> Elements(g) == [Next(g).1.value] + Elements(Next(g).0)
    ensures Next(g).0.end == g.end && Next(g).0.step == g.step
  {
  }

  /**
   * The iterator test: `{3, 6, 1}` yields 3, 4, 5 and `{4, 16, 3}` yields
   * 4, 7, 10, 13; the group itself, a copied value, keeps its `start`.
   */
  lemma GrpExamples()
    ensures Elements(Grp(3, 6, 1)) == [3, 4, 5]
    ensures Elements(Grp(4, 16, 3)) == [4, 7, 10, 13]
  {
    assert Elements(Grp(6, 6, 1)) == [];
    assert Elements(Grp(16, 16, 3)) == [];
  }

  // ---- FieldShape ----

  /** Where a group's clue sits: the slot left of or above its first cell. */
  datatype ClueLocation = Horizontal(slot: int) | Vertical(slot: int)

  datatype FieldShape = FieldShape(hasClue: Grid<bool>, cellToGroups: Grid<(int, int)>,
                                   groupToCells: seq<Grp>, clueLocations: seq<ClueLocation>)

  /**
   * `g` is a maximal horizontal run: slots `start .. end - 1` of one row,
   * all non-clue, with a clue or the row's edge on either side.
   */
  ghost predicate HRun(hc: Grid<bool>, g: Grp)
    requires hc.Valid()
  {
    var w := hc.width;
    w > 0 && g.step == 1 && 0 <= g.start < g.end <= |hc.data|
    && g.start / w == (g.end - 1) / w
    && (forall i {:trigger InGrp(g, i)} :: InGrp(g, i) ==> !hc.data[i])
    && (g.start % w == 0 || (g.start >= 1 && hc.data[g.start - 1]))
    && (g.end % w == 0 || (g.end < |hc.data| && hc.data[g.end]))
  }

  /**
   * `g` is a maximal vertical run: the slots of one column from `start`
   * down to `end` (exclusive), all non-clue, with a clue or the board's
   * edge above and below.
   */
  ghost predicate VRun(hc: Grid<bool>, g: Grp)
    requires hc.Valid()
  {
    var w := hc.width;
    w > 0 && g.step == w && 0 <= g.start < g.end && (g.end - g.start) % w == 0
    && (forall i {:trigger InGrp(g, i)} :: InGrp(g, i) ==> i < |hc.data| && !hc.data[i])
    && (g.start < w || (g.start - w < |hc.data| && hc.data[g.start - w]))
    && (g.end >= |hc.data| || hc.data[g.end])
  }

  /**
   * The top row holds a non-clue cell. Then some run has no clue before
   * it, `s - 1` or `s - width` is below zero, and the unsigned subtraction
   * panics.
   */
  ghost predicate TopRowOpen(hc: Grid<bool>)
    requires hc.Valid()
  {
    hc.height > 0 && exists i :: 0 <= i < hc.width && !hc.data[i]
  }

  /**
   * What `FieldShape::new` builds: every group is a maximal run with its
   * clue slot beside it; horizontal groups (in increasing slot order) come
   * before vertical ones (all different); clue cells map to `(0, 0)`, and
   * every other cell to a horizontal and a vertical group it lies on.
   */
  ghost predicate ShapeSpec(hc: Grid<bool>, s: FieldShape)
    requires hc.Valid()
  {
    var gs, locs, cg := s.groupToCells, s.clueLocations, s.cellToGroups;
    s.hasClue == hc && cg.Valid() && cg.height == hc.height && cg.width == hc.width
    && |locs| == |gs|
    && (forall g :: 0 <= g < |gs| && locs[g].Horizontal? ==> HRun(hc, gs[g]) && locs[g].slot == gs[g].start - 1)
    && (forall g :: 0 <= g < |gs| && locs[g].Vertical? ==> VRun(hc, gs[g]) && locs[g].slot == gs[g].start - hc.width)
    && (forall g1, g2 :: 0 <= g1 < g2 < |gs| && locs[g1].Vertical? ==> locs[g2].Vertical?)
    && (forall g1, g2 :: 0 <= g1 < g2 < |gs| && locs[g2].Horizontal? ==> gs[g1].start < gs[g2].start)
    && (forall g1, g2 :: 0 <= g1 < g2 < |gs| && locs[g1].Vertical? ==> gs[g1] != gs[g2])
    && (forall i :: 0 <= i < |hc.data| && hc.data[i] ==> cg.data[i] == (0, 0))
    && (forall i :: 0 <= i < |hc.data| && !hc.data[i] ==>
          var (a, b) := cg.data[i];
          0 <= a < |gs| && locs[a].Horizontal? && InGrp(gs[a], i)
          && 0 <= b < |gs| && locs[b].Vertical? && InGrp(gs[b], i))
  }

  /** The outcome of `FieldShape::new`: a panic exactly when the top row is open, otherwise the shape. */
  ghost predicate NewSpec(hc: Grid<bool>, r: Option<FieldShape>)
    requires hc.Valid()
  {
    (r.None? <==> TopRowOpen(hc)) && (r.Some? ==> ShapeSpec(hc, r.value))
  }

  // ---- the horizontal pass ----

  /** The horizontal groups so far, in increasing slot order, all ending by `bound`. */
  ghost predicate HGroups(hc: Grid<bool>, gs: seq<Grp>, locs: seq<ClueLocation>, bound: int)
    requires hc.Valid()
  {
    |locs| == |gs|
    && (forall g :: 0 <= g < |gs| ==> HRun(hc, gs[g]) && locs[g] == Horizontal(gs[g].start - 1))
    && (forall g1, g2 :: 0 <= g1 < g2 < |gs| ==> gs[g1].start < gs[g2].start)
    && (forall g :: 0 <= g < |gs| ==> gs[g].end <= bound)
  }

  /**
   * Slots below `p` carry their horizontal group (the next group id while
   * their run, open from `s`, is not closed yet); clue cells and slots from
   * `p` on still carry 0, and no vertical group is set.
   */
  ghost predicate HCells(hc: Grid<bool>, cg: Grid<(int, int)>, gs: seq<Grp>, p: int, open: bool, s: int)
    requires hc.Valid()
  {
    cg.Valid() && cg.height == hc.height && cg.width == hc.width
    && forall i {:trigger cg.data[i]} :: 0 <= i < |cg.data| ==>
         cg.data[i].1 == 0
         && var a := cg.data[i].0;
            if hc.data[i] || i >= p then a == 0
            else if open && i >= s then a == |gs|
            else 0 <= a < |gs| && gs[a].step == 1 && InGrp(gs[a], i)
  }

  /** Row `y` exists, and its slots `r0 .. r0 + w - 1` lie in the board. */
  ghost predicate RowIn(hc: Grid<bool>, y: int, r0: int)
    requires hc.Valid()
  {
    0 <= y < hc.height && r0 == y * hc.width && 0 <= r0 && r0 + hc.width <= |hc.data|
  }

  lemma RowBounds(hc: Grid<bool>, y: int, r0: int)
    requires hc.Valid() && 0 <= y < hc.height && r0 == y * hc.width
    ensures RowIn(hc, y, r0) && r0 + hc.width == (y + 1) * hc.width
  {
    MulMonotone(0, y, hc.width);
    MulMonotone(y + 1, hc.height, hc.width);
  }

  /** On a board with columns, row `y` starts at slot 0 exactly when it is the first row. */
  lemma RowZero(hc: Grid<bool>, y: int, r0: int)
    requires hc.Valid() && RowIn(hc, y, r0)
    ensures (r0 == 0 && hc.width > 0) <==> (y == 0 && hc.width > 0)
  {
    if y >= 1 {
      MulMonotone(1, y, hc.width);
    }
  }

  /** A run of row `y` from column `x0` to `x1` (exclusive) is a maximal horizontal run. */
  lemma HRunOfRow(hc: Grid<bool>, y: int, r0: int, x0: int, x1: int)
    requires hc.Valid() && RowIn(hc, y, r0) && 0 <= x0 < x1 <= hc.width
    requires forall i :: r0 + x0 <= i < r0 + x1 ==> !hc.data[i]
    requires x0 == 0 || hc.data[r0 + x0 - 1]
    requires x1 == hc.width || hc.data[r0 + x1]
    ensures HRun(hc, Grp(r0 + x0, r0 + x1, 1))
  {
    var w := hc.width;
    DivModUnique(r0 + x0, w, y, x0);
    DivModUnique(r0 + x1 - 1, w, y, x1 - 1);
    if x1 == w {
      DivModUnique(r0 + x1, w, y + 1, 0);
    } else {
      DivModUnique(r0 + x1, w, y, x1);
    }
  }

  /**
   * Where the loop over row `y` (first slot `r0`) stands at column `x`: an
   * open run starts at column `x0` with a clue or the row's start before
   * it; with none open, the slot before is a clue; a run open at the
   * board's first slot stays open until the row ends.
   */
  ghost predicate RowPos(hc: Grid<bool>, y: int, r0: int, x: int, start: Option<int>, x0: int)
    requires hc.Valid()
  {
    var w := hc.width;
    var p := r0 + (if x <= w then x else w);
    RowIn(hc, y, r0) && 0 <= x <= w + 1
    && (start.Some? ==> 0 <= x0 < x <= w && start.value == r0 + x0
                        && (forall i :: start.value <= i < p ==> !hc.data[i])
                        && (x0 == 0 || hc.data[start.value - 1]))
    && (start.None? ==> x == 0 || x == w + 1 || hc.data[p - 1])
    && (x == w + 1 ==> start.None?)
    && (r0 == 0 && w > 0 && !hc.data[0] && x >= 1 ==> start == Some(0))
  }

  /** Between rows: the slots before `p` carry their horizontal groups, all closed. */
  ghost predicate HPassed(hc: Grid<bool>, cg: Grid<(int, int)>, gs: seq<Grp>, locs: seq<ClueLocation>, p: int)
    requires hc.Valid()
  {
    HGroups(hc, gs, locs, p) && HCells(hc, cg, gs, p, false, p)
  }

  /** Before the first row nothing is assigned: every cell carries `(0, 0)`. */
  lemma HPassStart(hc: Grid<bool>)
    requires hc.Valid()
    ensures HPassed(hc, NewGrid(hc.height, hc.width, (0, 0)), [], [], 0)
  {
  }

  // ---- the vertical pass ----

  /** Slot `i` holds a clue. */
  ghost predicate ClueAt(hc: Grid<bool>, i: int)
    requires hc.Valid()
  {
    0 <= i < |hc.data| && hc.data[i]
  }

  /** Slot `i` lies in a column before `x`, or in column `x` above row `y`. */
  ghost predicate Visited(w: int, i: int, x: int, y: int)
    requires w > 0
  {
    i % w < x || (i % w == x && i / w < y)
  }

  /**
   * The vertical groups, appended after the `nh` horizontal ones: each is a
   * maximal vertical run with its clue above it, lies in a column before
   * `x` or ends by `bound` in column `x`, and no two are the same.
   */
  ghost predicate VGroups(hc: Grid<bool>, gs: seq<Grp>, locs: seq<ClueLocation>, nh: int, x: int, bound: int)
    requires hc.Valid()
  {
    0 <= nh <= |gs| && |locs| == |gs|
    && (forall g :: nh <= g < |gs| ==>
          VRun(hc, gs[g]) && locs[g] == Vertical(gs[g].start - hc.width)
          && (gs[g].start % hc.width < x || (gs[g].start % hc.width == x && gs[g].end <= bound)))
    && (forall g1, g2 :: nh <= g1 < g2 < |gs| ==> gs[g1] != gs[g2])
  }

  /**
   * The horizontal part `h0` is kept; the visited non-clue slots carry
   * their vertical group (the next group id while their run, open from row
   * `y0`, is not closed yet); the others still carry 0.
   */
  ghost predicate VCells(hc: Grid<bool>, h0: FieldShape, cg: Grid<(int, int)>, gs: seq<Grp>,
                         x: int, y: int, open: bool, y0: int)
    requires hc.Valid()
  {
    var w, nh := hc.width, |h0.groupToCells|;
    cg.Valid() && cg.height == hc.height && cg.width == w
    && h0.cellToGroups.Valid() && |h0.cellToGroups.data| == |cg.data|
    && forall i {:trigger cg.data[i]} :: 0 <= i < |cg.data| ==>
         w > 0 && cg.data[i].0 == h0.cellToGroups.data[i].0
         && var b := cg.data[i].1;
            if hc.data[i] || !Visited(w, i, x, y) then b == 0
            else if open && i % w == x && i / w >= y0 then b == |gs|
            else nh <= b < |gs| && gs[b].step == w && InGrp(gs[b], i)
  }

  /** Between columns: the columns before `x` are done and their top slots hold clues. */
  ghost predicate VPassed(hc: Grid<bool>, h0: FieldShape, x: int, cg: Grid<(int, int)>, gs: seq<Grp>,
                          locs: seq<ClueLocation>)
    requires hc.Valid()
  {
    var w, h, nh := hc.width, hc.height, |h0.groupToCells|;
    0 <= x <= w
    && (h > 0 ==> forall c :: 0 <= c < x ==> ClueAt(hc, c))
    && KeepsRows(h0, gs, locs)
    && VGroups(hc, gs, locs, nh, x, 0)
    && VCells(hc, h0, cg, gs, x, 0, false, 0)
  }

  /** Slot `y * w + x` lies in row `y` and column `x`. */
  lemma SlotRowCol(w: int, x: int, y: int)
    requires 0 <= x < w && 0 <= y
    ensures (y * w + x) % w == x && (y * w + x) / w == y
    ensures (y + 1) * w + x == y * w + x + w
  {
    DivModUnique(y * w + x, w, y, x);
  }

  /** Slot `i` of column `x` between rows `y0` and `y1` is an element of the column's group. */
  lemma ColumnInGrp(w: int, x: int, y0: int, y1: int, i: int)
    requires 0 <= x < w && 0 <= y0 && 0 <= i && i % w == x && y0 <= i / w < y1
    ensures InGrp(Grp(y0 * w + x, y1 * w + x, w), i)
  {
    var r := i / w;
    assert i == r * w + x;
    assert i - (y0 * w + x) == (r - y0) * w;
    DivModUnique(i - (y0 * w + x), w, r - y0, 0);
    MulMonotone(r + 1, y1, w);
  }

  /** An element of a column's group lies in that column, between its rows. */
  lemma InGrpColumn(w: int, x: int, y0: int, y1: int, i: int)
    requires 0 <= x < w && 0 <= y0 && InGrp(Grp(y0 * w + x, y1 * w + x, w), i)
    ensures i % w == x && y0 <= i / w < y1
  {
    var k := (i - (y0 * w + x)) / w;
    assert i - (y0 * w + x) == k * w;
    MulMonotone(0, k, w);
    assert i == (y0 + k) * w + x;
    DivModUnique(i, w, y0 + k, x);
    if y0 + k >= y1 {
      MulMonotone(y1, y0 + k, w);
    }
  }

  /** A run of column `x` from row `y0` to row `y1` (exclusive) is a maximal vertical run. */
  lemma VRunOfColumn(hc: Grid<bool>, x: int, y0: int, y1: int)
    requires hc.Valid() && 0 <= x < hc.width && 0 <= y0 < y1 <= hc.height
    requires forall i :: 0 <= i < |hc.data| && i % hc.width == x && y0 <= i / hc.width < y1 ==> !hc.data[i]
    requires y0 == 0 || ClueAt(hc, y0 * hc.width + x - hc.width)
    requires y1 == hc.height || ClueAt(hc, y1 * hc.width + x)
    ensures VRun(hc, Grp(y0 * hc.width + x, y1 * hc.width + x, hc.width))
  {
    var w, g := hc.width, Grp(y0 * hc.width + x, y1 * hc.width + x, hc.width);
    MulMonotone(0, y0, w);
    forall i | InGrp(g, i)
      ensures i < |hc.data| && !hc.data[i]
    {
      InGrpColumn(w, x, y0, y1, i);
      var r := i / w;
      SlotOf(w, i);
      MulMonotone(r + 1, hc.height, w);
      assert (r + 1) * w == r * w + w;
    }
    assert g.end - g.start == (y1 - y0) * w;
    DivModUnique(g.end - g.start, w, y1 - y0, 0);
    MulMonotone(y0 + 1, y1, w);
    assert (y0 + 1) * w == y0 * w + w;
    if y0 > 0 {
      MulMonotone(1, y0, w);
    }
    if y1 == hc.height {
      MulMonotone(0, y1, w);
    }
  }

  /** A slot lies in its row and column. */
  lemma SlotOf(w: int, i: int)
    requires w > 0 && 0 <= i
    ensures i == (i / w) * w + i % w && 0 <= i % w < w && 0 <= i / w
  {
  }

  /** The one slot in column `x` and row `y` is `y * w + x`. */
  lemma SlotUnique(w: int, x: int, y: int, i: int)
    requires 0 <= x < w && 0 <= i && i % w == x && i / w == y
    ensures i == y * w + x
  {
    SlotOf(w, i);
  }

  /** The horizontal groups of `h0` stay the prefix of the groups and of their clue locations. */
  ghost predicate KeepsRows(h0: FieldShape, gs: seq<Grp>, locs: seq<ClueLocation>)
  {
    var nh := |h0.groupToCells|;
    nh <= |gs| == |locs| && gs[..nh] == h0.groupToCells && locs[..nh] == h0.clueLocations
  }

  /** Appending a group keeps the horizontal prefix. */
  lemma KeepsRowsPush(h0: FieldShape, gs: seq<Grp>, locs: seq<ClueLocation>, g: Grp, l: ClueLocation)
    requires KeepsRows(h0, gs, locs)
    ensures KeepsRows(h0, gs + [g], locs + [l])
  {
    var nh := |h0.groupToCells|;
    assert (gs + [g])[..nh] == gs[..nh];
    assert (locs + [l])[..nh] == locs[..nh];
  }

  /**
   * Where the loop over column `x` stands at row `y`, slot `q`: the top
   * slots of the columns before `x` hold clues; an open run starts at row
   * `y0` with a clue or the board's top above it; with none open, the slot
   * above is a clue; a column whose top slot is no clue has a run open from
   * row 0 until the column ends.
   */
  ghost predicate ColPos(hc: Grid<bool>, x: int, y: int, q: int, start: Option<int>, y0: int)
    requires hc.Valid()
  {
    var w, h := hc.width, hc.height;
    0 <= x < w && 0 <= y <= h + 1 && q == y * w + x
    && (h > 0 ==> forall c :: 0 <= c < x ==> ClueAt(hc, c))
    && (start.Some? ==> 0 <= y0 < y <= h && start.value == y0 * w + x
                        && (forall i :: 0 <= i < |hc.data| && i % w == x && y0 <= i / w < y ==> !hc.data[i])
                        && (y0 == 0 || ClueAt(hc, start.value - w)))
    && (start.None? ==> y == 0 || y == h + 1 || ClueAt(hc, q - w))
    && (y == h + 1 ==> start.None?)
    && (h > 0 && y >= 1 && !ClueAt(hc, x) ==> start.Some? && y0 == 0)
  }

  /** Once column `x` is done, the slots visited are those of the columns before `x + 1`. */
  lemma VCellsNextColumn(hc: Grid<bool>, h0: FieldShape, cg: Grid<(int, int)>, gs: seq<Grp>, x: int, y0: int)
    requires hc.Valid() && 0 <= x < hc.width && VCells(hc, h0, cg, gs, x, hc.height + 1, false, y0)
    ensures VCells(hc, h0, cg, gs, x + 1, 0, false, 0)
  {
    var w, x', y' := hc.width, x + 1, hc.height + 1;
    forall i {:trigger Visited(w, i, x', 0)} | 0 <= i < |hc.data|
      ensures Visited(w, i, x', 0) <==> Visited(w, i, x, y')
    {
      SlotOf(w, i);
      if i / w >= hc.height {
        MulMonotone(hc.height, i / w, w);
      }
    }
  }

  /** Once column `x` is done, its groups lie in the columns before `x + 1`. */
  lemma VGroupsNextColumn(hc: Grid<bool>, gs: seq<Grp>, locs: seq<ClueLocation>, nh: int, x: int, bound: int)
    requires hc.Valid() && VGroups(hc, gs, locs, nh, x, bound)
    ensures VGroups(hc, gs, locs, nh, x + 1, 0)
  {
  }

  /** Before the first column nothing is visited. */
  lemma VCellsStart(hc: Grid<bool>, h0: FieldShape)
    requires hc.Valid() && HCells(hc, h0.cellToGroups, h0.groupToCells, |hc.data|, false, |hc.data|)
    ensures VCells(hc, h0, h0.cellToGroups, h0.groupToCells, 0, 0, false, 0)
  {
    var w := hc.width;
    forall i | 0 <= i < |hc.data|
      ensures !Visited(w, i, 0, 0)
    {
      SlotOf(w, i);
    }
  }

  /** The horizontal pass's result is where the vertical pass starts. */
  lemma VPassStart(hc: Grid<bool>, cg: Grid<(int, int)>, gs: seq<Grp>, locs: seq<ClueLocation>)
    requires hc.Valid() && HPassed(hc, cg, gs, locs, |hc.data|)
    ensures VPassed(hc, FieldShape(hc, cg, gs, locs), 0, cg, gs, locs)
  {
    assert gs[..|gs|] == gs && locs[..|locs|] == locs;
    VCellsStart(hc, FieldShape(hc, cg, gs, locs));
  }

  /** A non-clue top slot makes the top row open. */
  lemma TopOpenAt(hc: Grid<bool>, x: int)
    requires hc.Valid() && hc.height > 0 && 0 <= x < hc.width && !ClueAt(hc, x)
    ensures TopRowOpen(hc)
  {
    MulMonotone(1, hc.height, hc.width);
  }

  /** Clues in every top slot close the top row. */
  lemma TopClosed(hc: Grid<bool>)
    requires hc.Valid() && (hc.height > 0 ==> forall c :: 0 <= c < hc.width ==> ClueAt(hc, c))
    ensures !TopRowOpen(hc)
  {
    forall i | 0 <= i < hc.width && hc.height > 0
      ensures hc.data[i]
    {
      assert ClueAt(hc, i);
    }
  }

  /** The groups after both passes: horizontal ones first, then vertical ones. */
  lemma ShapeGroups(hc: Grid<bool>, h0: FieldShape, cg: Grid<(int, int)>, gs: seq<Grp>, locs: seq<ClueLocation>)
    requires hc.Valid() && HPassed(hc, h0.cellToGroups, h0.groupToCells, h0.clueLocations, |hc.data|)
    requires VPassed(hc, h0, hc.width, cg, gs, locs)
    ensures |locs| == |gs|
    ensures forall g :: 0 <= g < |gs| && locs[g].Horizontal? ==> HRun(hc, gs[g]) && locs[g].slot == gs[g].start - 1
    ensures forall g :: 0 <= g < |gs| && locs[g].Vertical? ==> VRun(hc, gs[g]) && locs[g].slot == gs[g].start - hc.width
    ensures forall g1, g2 :: 0 <= g1 < g2 < |gs| && locs[g1].Vertical? ==> locs[g2].Vertical?
    ensures forall g1, g2 :: 0 <= g1 < g2 < |gs| && locs[g2].Horizontal? ==> gs[g1].start < gs[g2].start
    ensures forall g1, g2 :: 0 <= g1 < g2 < |gs| && locs[g1].Vertical? ==> gs[g1] != gs[g2]
    ensures forall g :: 0 <= g < |gs| ==> (locs[g].Horizontal? <==> g < |h0.groupToCells|)
  {
    var nh := |h0.groupToCells|;
    assert forall g :: 0 <= g < nh ==> gs[g] == h0.groupToCells[g] && locs[g] == h0.clueLocations[g];
  }

  /** The cells after both passes: clues carry `(0, 0)`, the others a group of each direction. */
  lemma ShapeCells(hc: Grid<bool>, h0: FieldShape, cg: Grid<(int, int)>, gs: seq<Grp>, locs: seq<ClueLocation>)
    requires hc.Valid() && HPassed(hc, h0.cellToGroups, h0.groupToCells, h0.clueLocations, |hc.data|)
    requires VPassed(hc, h0, hc.width, cg, gs, locs)
    requires forall g :: 0 <= g < |gs| ==> (locs[g].Horizontal? <==> g < |h0.groupToCells|)
    ensures forall i :: 0 <= i < |hc.data| && hc.data[i] ==> cg.data[i] == (0, 0)
    ensures forall i :: 0 <= i < |hc.data| && !hc.data[i] ==>
              var (a, b) := cg.data[i];
              0 <= a < |gs| && locs[a].Horizontal? && InGrp(gs[a], i)
              && 0 <= b < |gs| && locs[b].Vertical? && InGrp(gs[b], i)
  {
    var nh, w := |h0.groupToCells|, hc.width;
    forall i | 0 <= i < |hc.data|
      ensures hc.data[i] ==> cg.data[i] == (0, 0)
      ensures !hc.data[i] ==>
              var (a, b) := cg.data[i];
              0 <= a < |gs| && locs[a].Horizontal? && InGrp(gs[a], i)
              && 0 <= b < |gs| && locs[b].Vertical? && InGrp(gs[b], i)
    {
      SlotOf(w, i);
      assert Visited(w, i, w, 0);
      var a := cg.data[i].0;
      if !hc.data[i] {
        assert gs[a] == h0.groupToCells[a];
      }
    }
  }

  /** Both passes together build the shape `FieldShape::new` promises. */
  lemma ShapeOf(hc: Grid<bool>, h0: FieldShape, cg: Grid<(int, int)>, gs: seq<Grp>, locs: seq<ClueLocation>)
    requires hc.Valid() && HPassed(hc, h0.cellToGroups, h0.groupToCells, h0.clueLocations, |hc.data|)
    requires VPassed(hc, h0, hc.width, cg, gs, locs)
    ensures ShapeSpec(hc, FieldShape(hc, cg, gs, locs))
  {
    ShapeGroups(hc, h0, cg, gs, locs);
    ShapeCells(hc, h0, cg, gs, locs);
  }
}
