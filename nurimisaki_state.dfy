/**
 * The values behind the Nurimisaki field of src/nurimisaki/field.rs:
 * its state, the relation "the propagation only moved forward", and the
 * rules its steps apply, each stated on a grid of cells.
 */
module NurimisakiState {
  import opened Wrappers
  import opened Common
  import opened NurimisakiBase
  import opened DecidedGrid

  /** What a `Field` holds: the cells, `decided_cells` and `inconsistent`. */
  datatype FieldState = FieldState(cell: Grid<Cell>, decidedCells: int, inconsistent: bool)

  /** `decided_cells` counts the cells that are not `Undecided`. */
  ghost predicate ValidState(s: FieldState) {
    s.cell.Valid() && s.decidedCells == |s.cell.data| - CountOf(s.cell.data, Undecided)
  }

  /**
   * What any run of the propagation does: decided cells keep their
   * values, and `inconsistent` is never reset.
   */
  ghost predicate Progress(s0: FieldState, s1: FieldState) {
    ValidState(s0) && ValidState(s1) && Settled(s0.cell, s1.cell, Undecided) && (s0.inconsistent ==> s1.inconsistent)
  }

  lemma ProgressRefl(s: FieldState)
    requires ValidState(s)
    ensures Progress(s, s)
  {
  }

  lemma ProgressTrans(a: FieldState, b: FieldState, c: FieldState)
    requires Progress(a, b) && Progress(b, c)
    ensures Progress(a, c)
  {
  }

  predicate IsUnit(d: Dir) {
    d == Dir(-1, 0) || d == Dir(0, -1) || d == Dir(1, 0) || d == Dir(0, 1)
  }

  /** `pos + dir * i`. */
  function Step(pos: Coord, dir: Dir, i: int): Coord {
    CoordAdd(pos, DirScale(dir, i))
  }

  /** A cell on the straight segment between two cells of the grid is in the grid too. */
  lemma SegmentValid(g: Grid<Cell>, pos: Coord, dir: Dir, n: int, i: int)
    requires g.IsValidCoord(pos) && IsUnit(dir) && g.IsValidCoord(Step(pos, dir, n)) && 0 <= i <= n
    ensures g.IsValidCoord(Step(pos, dir, i))
  {
  }

  /** `is_black_or_outside`. */
  ghost predicate BlackOrOutside(g: Grid<Cell>, p: Coord)
    requires g.Valid()
  {
    !g.IsValidCoord(p) || g.Get(p) == Black
  }

  /** The decided pairs `decide_cell` accepts without a clash. */
  predicate Accepts(current: Cell, val: Cell) {
    match (current, val)
    case (Black, Black) => true
    case (White, White) => true
    case (Cape(_), White) => true
    case _ => false
  }

  /** A cell that satisfies a decision: black for `Black`, white-like for `White`. */
  predicate Meets(c: Cell, v: Cell) {
    if v == Black then c == Black else IsWhiteLike(c)
  }

  /** On a decided cell, `decide_cell` accepts exactly the decisions the cell already satisfies. */
  lemma AcceptsMeets(c: Cell, v: Cell)
    requires c != Undecided && (v == White || v == Black)
    ensures Accepts(c, v) <==> Meets(c, v)
  {
  }

  /** Cell `p` is on the grid and satisfies `v`. */
  ghost predicate MeetsAt(g: Grid<Cell>, p: Coord, v: Cell)
    requires g.Valid()
  {
    g.IsValidCoord(p) && Meets(g.Get(p), v)
  }

  /** A cell that satisfies a decision keeps satisfying it. */
  lemma MeetsKept(s0: FieldState, s1: FieldState, p: Coord, v: Cell)
    requires Progress(s0, s1) && (v == White || v == Black) && MeetsAt(s0.cell, p, v)
    ensures MeetsAt(s1.cell, p, v)
  {
    SettledAt(s0.cell, s1.cell, Undecided, p);
  }

  /** A decided cell keeps its value. */
  lemma Keeps(s0: FieldState, s1: FieldState, p: Coord)
    requires Progress(s0, s1) && s0.cell.IsValidCoord(p) && s0.cell.Get(p) != Undecided
    ensures s1.cell.IsValidCoord(p) && s1.cell.Get(p) == s0.cell.Get(p)
  {
    SettledAt(s0.cell, s1.cell, Undecided, p);
  }

  /** A black or outside cell stays so. */
  lemma BlackOrOutsideKept(s0: FieldState, s1: FieldState, p: Coord)
    requires Progress(s0, s1) && BlackOrOutside(s0.cell, p)
    ensures BlackOrOutside(s1.cell, p)
  {
    if s0.cell.IsValidCoord(p) {
      Keeps(s0, s1, p);
    }
  }

  // ---- `Field::new` ----

  /** The cell a problem entry starts as: a cape for a number, undecided otherwise. */
  function CapeOf(e: Option<int>): Cell {
    if e.Some? then Cape(e.value) else Undecided
  }

  // ---- 2x2 blocks ----

  /** `related`: the four cells of the block whose top-left cell is `top`. */
  const Related: seq<Dir> := [Dir(0, 0), Dir(0, 1), Dir(1, 0), Dir(1, 1)]

  function BlockCell(top: Coord, k: nat): Coord
    requires k < 4
  {
    CoordAdd(top, Related[k])
  }

  /** The block with top-left `top` lies inside the grid. */
  predicate BlockInRange(g: Grid<Cell>, top: Coord) {
    0 <= top.y < g.height - 1 && 0 <= top.x < g.width - 1
  }

  lemma BlockCellValid(g: Grid<Cell>, top: Coord, k: nat)
    requires BlockInRange(g, top) && k < 4
    ensures g.IsValidCoord(BlockCell(top, k))
  {
  }

  /** How many of the first `k` cells of the block are black, and how many white-like. */
  ghost function BlockCounts(g: Grid<Cell>, top: Coord, k: nat): (r: (nat, nat))
    requires g.Valid() && BlockInRange(g, top) && k <= 4
    ensures r.0 + r.1 <= k
  {
    if k == 0 then (0, 0)
    else
      var r := BlockCounts(g, top, k - 1);
      var c := (BlockCellValid(g, top, k - 1); g.Get(BlockCell(top, k - 1)));
      (r.0 + (if c == Black then 1 else 0), r.1 + (if IsWhiteLike(c) then 1 else 0))
  }

  /** The block's cells that were undecided in `g0` all hold `v` in `g1`. */
  ghost predicate Forced(g0: Grid<Cell>, g1: Grid<Cell>, top: Coord, v: Cell)
    requires g0.Valid() && g1.Valid() && BlockInRange(g0, top) && BlockInRange(g1, top)
  {
    forall k :: 0 <= k < 4 ==> (BlockCellValid(g0, top, k); BlockCellValid(g1, top, k);
      g0.Get(BlockCell(top, k)) == Undecided ==> g1.Get(BlockCell(top, k)) == v)
  }

  /** Three cells of the block black or white-like leave at most one undecided cell. */
  lemma OneUndecided(g: Grid<Cell>, top: Coord, i: nat)
    requires g.Valid() && BlockInRange(g, top) && i < 4
    requires BlockCounts(g, top, 4).0 + BlockCounts(g, top, 4).1 == 3
    requires (BlockCellValid(g, top, i); g.Get(BlockCell(top, i)) == Undecided)
    ensures forall j :: 0 <= j < 4 && j != i ==> (BlockCellValid(g, top, j); g.Get(BlockCell(top, j)) != Undecided)
  {
    BlockCellValid(g, top, 0);
    BlockCellValid(g, top, 1);
    BlockCellValid(g, top, 2);
    BlockCellValid(g, top, 3);
    var c0, c1, c2, c3 := g.Get(BlockCell(top, 0)), g.Get(BlockCell(top, 1)), g.Get(BlockCell(top, 2)), g.Get(BlockCell(top, 3));
    assert BlockCounts(g, top, 1).0 + BlockCounts(g, top, 1).1 == (if c0 == Undecided then 0 else 1);
    assert BlockCounts(g, top, 2).0 + BlockCounts(g, top, 2).1 == BlockCounts(g, top, 1).0 + BlockCounts(g, top, 1).1 + (if c1 == Undecided then 0 else 1);
    assert BlockCounts(g, top, 3).0 + BlockCounts(g, top, 3).1 == BlockCounts(g, top, 2).0 + BlockCounts(g, top, 2).1 + (if c2 == Undecided then 0 else 1);
    assert BlockCounts(g, top, 4).0 + BlockCounts(g, top, 4).1 == BlockCounts(g, top, 3).0 + BlockCounts(g, top, 3).1 + (if c3 == Undecided then 0 else 1);
  }

  // ---- cape directions ----

  /** Cell `i` along `dir` stops a cape of size `n`: it is black, or a cape that is not the far end of equal size. */
  ghost predicate Blocks(g: Grid<Cell>, pos: Coord, n: int, dir: Dir, i: int)
    requires g.Valid()
  {
    g.IsValidCoord(Step(pos, dir, i))
    && var c := g.Get(Step(pos, dir, i));
    c == Black || (c.Cape? && (i != n - 1 || n != c.n))
  }

  /**
   * `is_bad_cape_direction`: a cape of size `n` at `pos` cannot reach
   * out along `dir`. For `n <= 0` the neighbour that way is black or
   * outside. Otherwise the far end `pos + dir * (n - 1)` is outside, the
   * cell past it is white-like, or a cell on the way stops the cape.
   */
  ghost predicate BadDirection(g: Grid<Cell>, pos: Coord, n: int, dir: Dir)
    requires g.Valid()
  {
    if n <= 0 then BlackOrOutside(g, CoordAdd(pos, dir))
    else
      var end := Step(pos, dir, n - 1);
      || !g.IsValidCoord(end)
      || (g.IsValidCoord(CoordAdd(end, dir)) && IsWhiteLike(g.Get(CoordAdd(end, dir))))
      || exists i :: 1 <= i < n && Blocks(g, pos, n, dir, i)
  }

  /** A bad direction stays bad: black cells stay black, white-like cells white-like, and capes never change. */
  lemma BadKept(s0: FieldState, s1: FieldState, pos: Coord, n: int, dir: Dir)
    requires Progress(s0, s1)
    ensures BadDirection(s0.cell, pos, n, dir) ==> BadDirection(s1.cell, pos, n, dir)
  {
    if !BadDirection(s0.cell, pos, n, dir) {
    } else if n <= 0 {
      BlackOrOutsideKept(s0, s1, CoordAdd(pos, dir));
    } else {
      var end := Step(pos, dir, n - 1);
      if !s0.cell.IsValidCoord(end) {
      } else if s0.cell.IsValidCoord(CoordAdd(end, dir)) && IsWhiteLike(s0.cell.Get(CoordAdd(end, dir))) {
        Keeps(s0, s1, CoordAdd(end, dir));
      } else {
        var i :| 1 <= i < n && Blocks(s0.cell, pos, n, dir, i);
        Keeps(s0, s1, Step(pos, dir, i));
        assert Blocks(s1.cell, pos, n, dir, i);
      }
    }
  }

  /**
   * What `decide_cape_direction` establishes when it stays consistent:
   * the other in-grid neighbours are black; for `n > 1` the far end is
   * in the grid, cells 1 to `n - 1` along `dir` are white-like, and the
   * cell at distance `n` is black when it is in the grid.
   */
  ghost predicate DirectionDecided(g: Grid<Cell>, pos: Coord, n: int, dir: Dir)
    requires g.Valid()
  {
    && (forall k :: 0 <= k < 4 && FourNeighbours[k] != dir && g.IsValidCoord(CoordAdd(pos, FourNeighbours[k])) ==>
          MeetsAt(g, CoordAdd(pos, FourNeighbours[k]), Black))
    && (n > 1 ==>
          && g.IsValidCoord(Step(pos, dir, n - 1))
          && (forall i :: 1 <= i < n ==> MeetsAt(g, Step(pos, dir, i), White))
          && (g.IsValidCoord(Step(pos, dir, n)) ==> MeetsAt(g, Step(pos, dir, n), Black)))
  }

  lemma DirectionKept(s0: FieldState, s1: FieldState, pos: Coord, n: int, dir: Dir)
    requires Progress(s0, s1) && DirectionDecided(s0.cell, pos, n, dir)
    ensures DirectionDecided(s1.cell, pos, n, dir)
  {
    forall k | 0 <= k < 4 && FourNeighbours[k] != dir && s1.cell.IsValidCoord(CoordAdd(pos, FourNeighbours[k]))
      ensures MeetsAt(s1.cell, CoordAdd(pos, FourNeighbours[k]), Black)
    {
      MeetsKept(s0, s1, CoordAdd(pos, FourNeighbours[k]), Black);
    }
    if n > 1 {
      forall i | 1 <= i < n ensures MeetsAt(s1.cell, Step(pos, dir, i), White) {
        MeetsKept(s0, s1, Step(pos, dir, i), White);
      }
      if s1.cell.IsValidCoord(Step(pos, dir, n)) {
        MeetsKept(s0, s1, Step(pos, dir, n), Black);
      }
    }
  }

  /** The first of the four neighbours from index `k` on that is a white (not cape) cell of the grid. */
  ghost function FirstWhite(g: Grid<Cell>, pos: Coord, k: nat): (r: Option<nat>)
    requires g.Valid() && k <= 4
    ensures r.Some? ==> k <= r.value < 4 && MeetsAt(g, CoordAdd(pos, FourNeighbours[r.value]), White)
    decreases 4 - k
  {
    if k == 4 then None
    else if g.IsValidCoord(CoordAdd(pos, FourNeighbours[k])) && g.Get(CoordAdd(pos, FourNeighbours[k])) == White then Some(k)
    else FirstWhite(g, pos, k + 1)
  }

  /** How many of the first `k` directions are not bad. */
  ghost function GoodCount(g: Grid<Cell>, pos: Coord, n: int, k: nat): (c: nat)
    requires g.Valid() && k <= 4
    ensures c <= k
  {
    if k == 0 then 0 else GoodCount(g, pos, n, k - 1) + (if BadDirection(g, pos, n, FourNeighbours[k - 1]) then 0 else 1)
  }

  /** Direction `k` is the only one that is not bad. */
  ghost predicate OnlyGood(g: Grid<Cell>, pos: Coord, n: int, k: nat)
    requires g.Valid() && k < 4
  {
    !BadDirection(g, pos, n, FourNeighbours[k]) && forall j :: 0 <= j < 4 && j != k ==> BadDirection(g, pos, n, FourNeighbours[j])
  }

  /** With one good direction, it is the only one counted. */
  lemma {:induction false} OnlyGoodCount(g: Grid<Cell>, pos: Coord, n: int, k: nat, m: nat)
    requires g.Valid() && k < 4 && m <= 4 && OnlyGood(g, pos, n, k)
    ensures GoodCount(g, pos, n, m) == (if k < m then 1 else 0)
  {
    if m > 0 {
      OnlyGoodCount(g, pos, n, k, m - 1);
    }
  }

  /** Without a good direction, none is counted. */
  lemma {:induction false} NoGoodCount(g: Grid<Cell>, pos: Coord, n: int, m: nat)
    requires g.Valid() && m <= 4 && forall j :: 0 <= j < 4 ==> BadDirection(g, pos, n, FourNeighbours[j])
    ensures GoodCount(g, pos, n, m) == 0
  {
    if m > 0 {
      NoGoodCount(g, pos, n, m - 1);
    }
  }

  /**
   * What `inspect_clue` does for the cape of size `n` at `pos`. A white
   * neighbour fixes the direction: the first one found. Otherwise the
   * neighbours in bad directions are black, no good direction is a
   * contradiction, and a single good direction is taken.
   */
  ghost predicate ClueInspected(s0: FieldState, s1: FieldState, pos: Coord, n: int)
    requires s0.cell.Valid() && s1.cell.Valid()
  {
    var first := FirstWhite(s0.cell, pos, 0);
    && (first.Some? ==> s1.inconsistent || DirectionDecided(s1.cell, pos, n, FourNeighbours[first.value]))
    && (first.None? ==>
          && BadBlackened(s0, s1, pos, n, 4)
          && ((forall k :: 0 <= k < 4 ==> BadDirection(s0.cell, pos, n, FourNeighbours[k])) ==> s1.inconsistent)
          && (forall k :: 0 <= k < 4 && OnlyGood(s0.cell, pos, n, k) ==>
                s1.inconsistent || DirectionDecided(s1.cell, pos, n, FourNeighbours[k])))
  }

  /** The in-grid neighbours in the first `k` directions that were bad in `s0` are black in `s1`, or `s1` is inconsistent. */
  ghost predicate BadBlackened(s0: FieldState, s1: FieldState, pos: Coord, n: int, k: nat)
    requires s0.cell.Valid() && s1.cell.Valid() && k <= 4
  {
    forall j :: 0 <= j < k && BadDirection(s0.cell, pos, n, FourNeighbours[j]) && s1.cell.IsValidCoord(CoordAdd(pos, FourNeighbours[j])) ==>
      s1.inconsistent || MeetsAt(s1.cell, CoordAdd(pos, FourNeighbours[j]), Black)
  }

  /** One more direction scanned: a bad one was blackened, and the earlier ones stay black. */
  lemma BlackenedStep(s0: FieldState, s1: FieldState, s2: FieldState, pos: Coord, n: int, k: nat, bad: bool)
    requires Progress(s0, s1) && Progress(s1, s2) && k < 4 && BadBlackened(s0, s1, pos, n, k)
    requires BadDirection(s0.cell, pos, n, FourNeighbours[k]) ==> bad
    requires bad && s1.cell.IsValidCoord(CoordAdd(pos, FourNeighbours[k])) ==>
      s2.inconsistent || MeetsAt(s2.cell, CoordAdd(pos, FourNeighbours[k]), Black)
    ensures Progress(s0, s2) && BadBlackened(s0, s2, pos, n, k + 1)
  {
    forall j | 0 <= j < k && BadDirection(s0.cell, pos, n, FourNeighbours[j]) && s2.cell.IsValidCoord(CoordAdd(pos, FourNeighbours[j]))
      ensures s2.inconsistent || MeetsAt(s2.cell, CoordAdd(pos, FourNeighbours[j]), Black)
    {
      if !s2.inconsistent {
        MeetsKept(s1, s2, CoordAdd(pos, FourNeighbours[j]), Black);
      }
    }
  }

  // ---- `inspect` on a cell that is not a cape ----

  /** Over the first `k` in-grid neighbours: how many are white-like, and how many undecided. */
  ghost function AroundCounts(g: Grid<Cell>, pos: Coord, k: nat): (r: (nat, nat))
    requires g.Valid() && k <= 4
    ensures r.0 + r.1 <= k
  {
    if k == 0 then (0, 0)
    else
      var r := AroundCounts(g, pos, k - 1);
      var p := CoordAdd(pos, FourNeighbours[k - 1]);
      if !g.IsValidCoord(p) then r
      else (r.0 + (if IsWhiteLike(g.Get(p)) then 1 else 0), r.1 + (if g.Get(p) == Undecided then 1 else 0))
  }

  /**
   * A white cell needs two white neighbours (a cape one): with at most
   * one white-like or undecided neighbour in all, the cell is black.
   */
  predicate ForcesBlack(counts: (nat, nat)) {
    counts == (0, 0) || counts == (0, 1) || counts == (1, 0)
  }

  /** A white cell with exactly two neighbours that can be white takes both. */
  predicate ForcesWhiteAround(counts: (nat, nat)) {
    counts == (0, 2) || counts == (1, 1)
  }

  /** No in-grid neighbour of `pos` is undecided. */
  ghost predicate AroundDecided(g: Grid<Cell>, pos: Coord)
    requires g.Valid()
  {
    forall k :: 0 <= k < 4 && g.IsValidCoord(CoordAdd(pos, FourNeighbours[k])) ==> g.Get(CoordAdd(pos, FourNeighbours[k])) != Undecided
  }

  /** No in-grid neighbour among the first `n` is undecided. */
  ghost predicate DecidedUpTo(g: Grid<Cell>, pos: Coord, n: int)
    requires g.Valid() && n <= 4
  {
    forall k :: 0 <= k < n && g.IsValidCoord(CoordAdd(pos, FourNeighbours[k])) ==> g.Get(CoordAdd(pos, FourNeighbours[k])) != Undecided
  }

  /** None of the first `n` neighbours is open. */
  ghost predicate NoneOpenBefore(g: Grid<Cell>, pos: Coord, n: int)
    requires g.Valid() && n <= 4
  {
    forall j :: 0 <= j < n ==> !OpenAround(g, pos, j)
  }

  /** Neighbour `k` of `pos` is on the grid and undecided. */
  ghost predicate OpenAround(g: Grid<Cell>, pos: Coord, k: int)
    requires g.Valid() && 0 <= k < 4
  {
    g.IsValidCoord(CoordAdd(pos, FourNeighbours[k])) && g.Get(CoordAdd(pos, FourNeighbours[k])) == Undecided
  }

  /** Neighbour `k` is the first of the four, in scan order, that is open. */
  ghost predicate FirstOpen(g: Grid<Cell>, pos: Coord, k: int)
    requires g.Valid() && 0 <= k < 4
  {
    OpenAround(g, pos, k) && NoneOpenBefore(g, pos, k)
  }

  /** If the first open neighbour of `g0` is among the first `n`, it is white in `g1`. */
  ghost predicate FirstOpenWhite(g0: Grid<Cell>, g1: Grid<Cell>, pos: Coord, n: int)
    requires g0.Valid() && g1.Valid() && n <= 4
  {
    forall k :: 0 <= k < n && FirstOpen(g0, pos, k) ==>
      g1.IsValidCoord(CoordAdd(pos, FourNeighbours[k])) && g1.Get(CoordAdd(pos, FourNeighbours[k])) == White
  }

  /** Further progress keeps the part of the sweep already done. */
  lemma SweepKept(g0: Grid<Cell>, s1: FieldState, s2: FieldState, pos: Coord, k: int)
    requires Progress(s1, s2) && g0.Valid() && 0 <= k <= 4
    requires DecidedUpTo(s1.cell, pos, k) && FirstOpenWhite(g0, s1.cell, pos, k)
    ensures DecidedUpTo(s2.cell, pos, k) && FirstOpenWhite(g0, s2.cell, pos, k)
  {
    forall j | 0 <= j < k && s2.cell.IsValidCoord(CoordAdd(pos, FourNeighbours[j]))
      ensures s2.cell.Get(CoordAdd(pos, FourNeighbours[j])) != Undecided
    {
      Keeps(s1, s2, CoordAdd(pos, FourNeighbours[j]));
    }
    forall j | 0 <= j < k && FirstOpen(g0, pos, j)
      ensures s2.cell.IsValidCoord(CoordAdd(pos, FourNeighbours[j])) && s2.cell.Get(CoordAdd(pos, FourNeighbours[j])) == White
    {
      Keeps(s1, s2, CoordAdd(pos, FourNeighbours[j]));
    }
  }

  /** What `inspect` does to a cell that is not a cape, by its neighbour counts in `s0`. */
  ghost predicate PlainInspected(s0: FieldState, s1: FieldState, pos: Coord)
    requires s0.cell.Valid() && s1.cell.Valid() && s0.cell.IsValidCoord(pos)
  {
    var counts := AroundCounts(s0.cell, pos, 4);
    && (ForcesBlack(counts) ==> s1.inconsistent || MeetsAt(s1.cell, pos, Black))
    && (ForcesWhiteAround(counts) && s0.cell.Get(pos) == White ==>
         AroundDecided(s1.cell, pos) && FirstOpenWhite(s0.cell, s1.cell, pos, 4))
    && (!ForcesBlack(counts) && !(ForcesWhiteAround(counts) && s0.cell.Get(pos) == White) ==> s1 == s0)
  }

  // ---- the cup patterns ----

  /** Every cell of `pat` but the `i`-th is black or outside. */
  ghost predicate OthersBlack(g: Grid<Cell>, pat: seq<Coord>, i: nat)
    requires g.Valid() && |pat| == 4
  {
    forall j :: 0 <= j < 4 && j != i ==> BlackOrOutside(g, pat[j])
  }

  /**
   * What `single_forbidden_pattern` does: a cell whose three partners
   * are black or outside must be white, and outside the grid that is a
   * contradiction.
   */
  ghost predicate PatternAvoided(s0: FieldState, s1: FieldState, pat: seq<Coord>)
    requires s0.cell.Valid() && s1.cell.Valid() && |pat| == 4
  {
    forall i :: 0 <= i < 4 && OthersBlack(s0.cell, pat, i) ==>
      if s0.cell.IsValidCoord(pat[i]) then s1.inconsistent || MeetsAt(s1.cell, pat[i], White) else s1.inconsistent
  }

  lemma OthersBlackKept(s0: FieldState, s1: FieldState, pat: seq<Coord>, i: nat)
    requires Progress(s0, s1) && |pat| == 4 && OthersBlack(s0.cell, pat, i)
    ensures OthersBlack(s1.cell, pat, i)
  {
    forall j | 0 <= j < 4 && j != i ensures BlackOrOutside(s1.cell, pat[j]) {
      BlackOrOutsideKept(s0, s1, pat[j]);
    }
  }

  /** A pattern avoided stays avoided as the propagation goes on. */
  lemma AvoidedKept(s0: FieldState, s1: FieldState, s2: FieldState, pat: seq<Coord>)
    requires Progress(s0, s1) && Progress(s1, s2) && |pat| == 4 && PatternAvoided(s0, s1, pat)
    ensures PatternAvoided(s0, s2, pat)
  {
    forall i | 0 <= i < 4 && OthersBlack(s0.cell, pat, i) && s0.cell.IsValidCoord(pat[i]) && !s2.inconsistent
      ensures MeetsAt(s2.cell, pat[i], White)
    {
      MeetsKept(s1, s2, pat[i], White);
    }
  }

  /** A pattern avoided from a later state is avoided from an earlier one: its black cells were black then too. */
  lemma AvoidedFrom(s0: FieldState, s1: FieldState, s2: FieldState, pat: seq<Coord>)
    requires Progress(s0, s1) && Progress(s1, s2) && |pat| == 4 && PatternAvoided(s1, s2, pat)
    ensures PatternAvoided(s0, s2, pat)
  {
    forall i | 0 <= i < 4 && OthersBlack(s0.cell, pat, i)
      ensures OthersBlack(s1.cell, pat, i)
    {
      OthersBlackKept(s0, s1, pat, i);
    }
  }

  /** The four cup patterns `avoid_forbidden_pattern_simple` tries around `pos`. */
  function CupPattern(pos: Coord, k: nat): (pat: seq<Coord>)
    requires k < 4
    ensures |pat| == 4
  {
    if k == 0 then [CoordAdd(pos, Dir(-1, 0)), CoordAdd(pos, Dir(0, -1)), CoordAdd(pos, Dir(1, -1)), CoordAdd(pos, Dir(2, 0))]
    else if k == 1 then [CoordAdd(pos, Dir(-1, 0)), CoordAdd(pos, Dir(0, 1)), CoordAdd(pos, Dir(1, 1)), CoordAdd(pos, Dir(2, 0))]
    else if k == 2 then [CoordAdd(pos, Dir(0, -1)), CoordAdd(pos, Dir(-1, 0)), CoordAdd(pos, Dir(-1, 1)), CoordAdd(pos, Dir(0, 2))]
    else [CoordAdd(pos, Dir(0, -1)), CoordAdd(pos, Dir(1, 0)), CoordAdd(pos, Dir(1, 1)), CoordAdd(pos, Dir(0, 2))]
  }

  /**
   * When cup pattern `k` is tried at `pos`: never at a cape; the first two
   * (vertical pair) need a cell below that is not a cape and are skipped
   * on the left, respectively right, edge; the last two (horizontal pair)
   * need a cell to the right that is not a cape and are skipped on the
   * top, respectively bottom, edge.
   */
  ghost predicate CupApplies(g: Grid<Cell>, pos: Coord, k: nat)
    requires g.Valid() && g.IsValidCoord(pos) && k < 4
  {
    && !IsCape(g.Get(pos))
    && (k < 2 ==> pos.y < g.height - 1 && !IsCape(g.Get(CoordAdd(pos, Dir(1, 0)))) && (if k == 0 then pos.x != 0 else pos.x != g.width - 1))
    && (k >= 2 ==> pos.x < g.width - 1 && !IsCape(g.Get(CoordAdd(pos, Dir(0, 1)))) && (if k == 2 then pos.y != 0 else pos.y != g.height - 1))
  }

  /** Every one of the first `m` cup patterns at `pos` that applies in `s0` is avoided in `s1`. */
  ghost predicate CupsAvoided(s0: FieldState, s1: FieldState, pos: Coord, m: nat)
    requires s0.cell.Valid() && s1.cell.Valid() && s0.cell.IsValidCoord(pos) && m <= 4
  {
    forall k :: 0 <= k < m && CupApplies(s0.cell, pos, k) ==> PatternAvoided(s0, s1, CupPattern(pos, k))
  }
}
