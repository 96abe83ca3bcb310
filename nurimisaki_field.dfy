/**
 * src/nurimisaki/field.rs: the Nurimisaki field. Cells start undecided
 * or as capes and are only ever decided; `decide_cell` triggers the 2x2
 * rule, and `inspect` applies the cape and dead-end rules. Every method
 * keeps `decided_cells` equal to the number of decided cells and only
 * moves the field forward (`Progress`).
 */
module NurimisakiField {
  import opened Wrappers
  import opened Common
  import opened NurimisakiBase
  import opened DecidedGrid
  import opened NurimisakiState

  class Field {
    var cell: Grid<Cell>
    var decidedCells: int
    var inconsistent: bool

    function State(): FieldState
      reads this
    {
      FieldState(cell, decidedCells, inconsistent)
    }

    ghost predicate Valid()
      reads this
    {
      ValidState(State())
    }

    ghost function Undecideds(): nat
      reads this
    {
      CountOf(cell.data, Undecided)
    }

    /**
     * `Field::new`: a cell with a number becomes a cape of that number,
     * every other cell is undecided, and the capes are the decided cells.
     */
    constructor (problem: Grid<Option<int>>)
      requires problem.Valid()
      ensures Valid() && !inconsistent && cell.height == problem.height && cell.width == problem.width
      ensures forall i :: 0 <= i < |cell.data| ==> cell.data[i] == CapeOf(problem.data[i])
      ensures decidedCells == |problem.data| - CountOf(problem.data, None)
    {
      var g, count := InitialCells(problem);
      cell := g;
      decidedCells := count;
      inconsistent := false;
    }

    /**
     * `decide_cell`. On a decided cell it changes nothing but the flag,
     * which it sets unless the pair is black/black, white/white or
     * cape/white. An undecided cell takes `val`, is counted, and the
     * four 2x2 blocks around it are checked.
     */
    method DecideCell(pos: Coord, val: Cell)
      requires Valid() && cell.IsValidCoord(pos) && (val == White || val == Black)
      modifies this
      decreases Undecideds(), 0
      ensures Valid() && Progress(old(State()), State())
      ensures old(cell.Get(pos)) != Undecided ==>
        State() == old(State()).(inconsistent := old(inconsistent) || !Accepts(old(cell.Get(pos)), val))
      ensures old(cell.Get(pos)) == Undecided ==> cell.Get(pos) == val
      ensures !inconsistent ==> MeetsAt(cell, pos, val)
    {
      var current := cell.Get(pos);
      if current != Undecided {
        if !Accepts(current, val) {
          inconsistent := true;
        }
        AcceptsMeets(current, val);
        return;
      }
      ghost var s0 := State();
      SetDecides(cell, pos, val, Undecided);
      cell := cell.Set(pos, val);
      decidedCells := decidedCells + 1;
      ghost var s1 := State();
      AvoidCluster(pos);
      SettledCount(s1.cell, cell, Undecided);
      AvoidCluster(CoordAdd(pos, Dir(-1, -1)));
      SettledCount(s1.cell, cell, Undecided);
      AvoidCluster(CoordAdd(pos, Dir(-1, 0)));
      SettledCount(s1.cell, cell, Undecided);
      AvoidCluster(CoordAdd(pos, Dir(0, -1)));
      ProgressTrans(s0, s1, State());
      Keeps(s1, State(), pos);
    }

    /**
     * `avoid_2x2_cluster`: nothing for a block that leaves the grid.
     * Three black cells and no white-like one make the fourth white;
     * three white-like cells and no black one make it black; any other
     * block is left alone.
     */
    method AvoidCluster(top: Coord)
      requires Valid()
      modifies this
      decreases Undecideds(), 2
      ensures Valid() && Progress(old(State()), State())
      ensures !BlockInRange(cell, top) ==> State() == old(State())
      ensures BlockInRange(cell, top) && old(BlockCounts(cell, top, 4)) == (3, 0) ==> Forced(old(cell), cell, top, White)
      ensures BlockInRange(cell, top) && old(BlockCounts(cell, top, 4)) == (0, 3) ==> Forced(old(cell), cell, top, Black)
      ensures BlockInRange(cell, top) && old(BlockCounts(cell, top, 4)) != (3, 0) && old(BlockCounts(cell, top, 4)) != (0, 3) ==>
        State() == old(State())
    {
      if !BlockInRange(cell, top) {
        ProgressRefl(State());
        return;
      }
      var nBlack, nWhite := CountBlock(top);
      if nBlack == 3 && nWhite == 0 {
        FillBlock(top, White);
      } else if nBlack == 0 && nWhite == 3 {
        FillBlock(top, Black);
      } else {
        ProgressRefl(State());
      }
    }

    /** The counting loop of `avoid_2x2_cluster`. */
    method CountBlock(top: Coord) returns (nBlack: nat, nWhite: nat)
      requires Valid() && BlockInRange(cell, top)
      ensures (nBlack, nWhite) == BlockCounts(cell, top, 4)
    {
      nBlack, nWhite := 0, 0;
      for k := 0 to 4
        invariant (nBlack, nWhite) == BlockCounts(cell, top, k)
      {
        BlockCellValid(cell, top, k);
        match cell.Get(BlockCell(top, k)) {
          case White => nWhite := nWhite + 1;
          case Cape(_) => nWhite := nWhite + 1;
          case Black => nBlack := nBlack + 1;
          case Undecided =>
        }
      }
    }

    /** The deciding loop of `avoid_2x2_cluster`: the block's one undecided cell takes `v`. */
    method FillBlock(top: Coord, v: Cell)
      requires Valid() && BlockInRange(cell, top) && (v == White || v == Black)
      requires BlockCounts(cell, top, 4).0 + BlockCounts(cell, top, 4).1 == 3
      modifies this
      decreases Undecideds(), 1
      ensures Valid() && Progress(old(State()), State()) && BlockInRange(cell, top)
      ensures Forced(old(cell), cell, top, v)
    {
      ghost var s0 := State();
      for k := 0 to 4
        invariant Valid() && Progress(s0, State()) && BlockInRange(cell, top)
        invariant forall j :: 0 <= j < k ==> (BlockCellValid(s0.cell, top, j); BlockCellValid(cell, top, j);
          s0.cell.Get(BlockCell(top, j)) == Undecided ==> cell.Get(BlockCell(top, j)) == v)
        invariant forall j :: k <= j < 4 ==> (BlockCellValid(s0.cell, top, j); BlockCellValid(cell, top, j);
          cell.Get(BlockCell(top, j)) == s0.cell.Get(BlockCell(top, j)))
      {
        BlockCellValid(cell, top, k);
        var p := BlockCell(top, k);
        ghost var s1 := State();
        if cell.Get(p) == Undecided {
          OneUndecided(s0.cell, top, k);
          SettledCount(s0.cell, cell, Undecided);
          DecideCell(p, v);
          ProgressTrans(s0, s1, State());
          forall j | k < j < 4 ensures cell.Get(BlockCell(top, j)) == s0.cell.Get(BlockCell(top, j)) {
            BlockCellValid(s0.cell, top, j);
            Keeps(s1, State(), BlockCell(top, j));
          }
        }
      }
    }

    /**
     * `is_bad_cape_direction`: whether a cape of size `n` at `pos`
     * cannot extend along `dir`.
     */
    method IsBadCapeDirection(pos: Coord, n: int, dir: Dir) returns (bad: bool)
      requires Valid() && cell.IsValidCoord(pos) && IsUnit(dir)
      ensures bad == BadDirection(cell, pos, n, dir)
    {
      if n <= 0 {
        var p := CoordAdd(pos, dir);
        return !cell.IsValidCoord(p) || cell.Get(p) == Black;
      }
      var end := Step(pos, dir, n - 1);
      if !cell.IsValidCoord(end) {
        return true;
      }
      var beyond := CoordAdd(end, dir);
      if cell.IsValidCoord(beyond) && IsWhiteLike(cell.Get(beyond)) {
        return true;
      }
      for i := 1 to n
        invariant forall j :: 1 <= j < i ==> !Blocks(cell, pos, n, dir, j)
      {
        SegmentValid(cell, pos, dir, n - 1, i);
        var c := cell.Get(Step(pos, dir, i));
        match c {
          case Black =>
            assert Blocks(cell, pos, n, dir, i);
            return true;
          case Cape(n2) =>
            if i != n - 1 || n != n2 {
              assert Blocks(cell, pos, n, dir, i);
              return true;
            }
          case _ =>
        }
      }
      return false;
    }

    /**
     * `decide_cape_direction`: the cape at `pos` extends along `dir`.
     * The other in-grid neighbours become black; for `n > 1` a far end
     * outside the grid is a contradiction, and otherwise cells 1 to
     * `n - 1` become white and the in-grid cell at distance `n` black.
     */
    method DecideCapeDirection(pos: Coord, n: int, dir: Dir)
      requires Valid() && cell.IsValidCoord(pos) && IsUnit(dir)
      modifies this
      ensures Valid() && Progress(old(State()), State())
      ensures n > 1 && !cell.IsValidCoord(Step(pos, dir, n - 1)) ==> inconsistent
      ensures !inconsistent ==> DirectionDecided(cell, pos, n, dir)
    {
      ghost var s0 := State();
      BlackenOthers(pos, dir);
      if n > 1 {
        ghost var s1 := State();
        if !cell.IsValidCoord(Step(pos, dir, n - 1)) {
          inconsistent := true;
          ProgressTrans(s0, s1, State());
          return;
        }
        WhitenRun(pos, n, dir);
        ghost var s2 := State();
        var far := Step(pos, dir, n);
        if cell.IsValidCoord(far) {
          DecideCell(far, Black);
        }
        ProgressTrans(s1, s2, State());
        ProgressTrans(s0, s1, State());
        if !inconsistent {
          forall k | 0 <= k < 4 && FourNeighbours[k] != dir && cell.IsValidCoord(CoordAdd(pos, FourNeighbours[k]))
            ensures MeetsAt(cell, CoordAdd(pos, FourNeighbours[k]), Black)
          {
            MeetsKept(s1, State(), CoordAdd(pos, FourNeighbours[k]), Black);
          }
          forall i | 1 <= i < n ensures MeetsAt(cell, Step(pos, dir, i), White) {
            MeetsKept(s2, State(), Step(pos, dir, i), White);
          }
        }
      }
    }

    /** The first loop of `decide_cape_direction`: every other in-grid neighbour black. */
    method BlackenOthers(pos: Coord, dir: Dir)
      requires Valid()
      modifies this
      ensures Valid() && Progress(old(State()), State())
      ensures !inconsistent ==> forall k :: 0 <= k < 4 && FourNeighbours[k] != dir && cell.IsValidCoord(CoordAdd(pos, FourNeighbours[k])) ==>
        MeetsAt(cell, CoordAdd(pos, FourNeighbours[k]), Black)
    {
      ghost var s0 := State();
      for k := 0 to 4
        invariant Valid() && Progress(s0, State())
        invariant !inconsistent ==> forall j :: 0 <= j < k && FourNeighbours[j] != dir && cell.IsValidCoord(CoordAdd(pos, FourNeighbours[j])) ==>
          MeetsAt(cell, CoordAdd(pos, FourNeighbours[j]), Black)
      {
        var d := FourNeighbours[k];
        ghost var s1 := State();
        if d != dir && cell.IsValidCoord(CoordAdd(pos, d)) {
          DecideCell(CoordAdd(pos, d), Black);
          if !inconsistent {
            forall j | 0 <= j < k && FourNeighbours[j] != dir && cell.IsValidCoord(CoordAdd(pos, FourNeighbours[j]))
              ensures MeetsAt(cell, CoordAdd(pos, FourNeighbours[j]), Black)
            {
              MeetsKept(s1, State(), CoordAdd(pos, FourNeighbours[j]), Black);
            }
          }
        }
        ProgressTrans(s0, s1, State());
      }
    }

    /** The second loop of `decide_cape_direction`: cells 1 to `n - 1` along `dir` white. */
    method WhitenRun(pos: Coord, n: int, dir: Dir)
      requires Valid() && cell.IsValidCoord(pos) && IsUnit(dir) && n > 1 && cell.IsValidCoord(Step(pos, dir, n - 1))
      modifies this
      ensures Valid() && Progress(old(State()), State()) && cell.height == old(cell.height) && cell.width == old(cell.width)
      ensures !inconsistent ==> forall i :: 1 <= i < n ==> MeetsAt(cell, Step(pos, dir, i), White)
    {
      ghost var s0 := State();
      for i := 1 to n
        invariant Valid() && Progress(s0, State())
        invariant !inconsistent ==> forall j :: 1 <= j < i ==> MeetsAt(cell, Step(pos, dir, j), White)
      {
        ghost var s1 := State();
        SegmentValid(cell, pos, dir, n - 1, i);
        DecideCell(Step(pos, dir, i), White);
        if !inconsistent {
          forall j | 1 <= j < i ensures MeetsAt(cell, Step(pos, dir, j), White) {
            MeetsKept(s1, State(), Step(pos, dir, j), White);
          }
        }
        ProgressTrans(s0, s1, State());
      }
    }

    /**
     * `inspect_clue` on the cape of size `n` at `pos` (the source reads
     * `n` from the cell).
     */
    method InspectClue(pos: Coord, n: int)
      requires Valid() && cell.IsValidCoord(pos) && cell.Get(pos) == Cape(n)
      modifies this
      ensures Valid() && Progress(old(State()), State())
      ensures ClueInspected(old(State()), State(), pos, n)
    {
      ghost var s0 := State();
      var first := FindWhite(pos);
      if first.Some? {
        DecideCapeDirection(pos, n, FourNeighbours[first.value]);
        return;
      }
      var nGoodDirs, goodDir, goodIdx := ScanDirections(pos, n);
      ghost var s2 := State();
      if nGoodDirs == 1 {
        DecideCapeDirection(pos, n, goodDir);
        ProgressTrans(s0, s2, State());
      } else if nGoodDirs == 0 {
        inconsistent := true;
        ProgressTrans(s0, s2, State());
      }
      ClueSteps(s0, s2, State(), pos, n, nGoodDirs, goodIdx);
    }

    /**
     * The second loop of `inspect_clue`: counts the directions that are
     * not bad, remembers the last one, and blackens the in-grid
     * neighbour of each bad one.
     */
    method ScanDirections(pos: Coord, n: int) returns (nGoodDirs: nat, goodDir: Dir, ghost goodIdx: nat)
      requires Valid() && cell.IsValidCoord(pos)
      modifies this
      ensures Valid() && Progress(old(State()), State())
      ensures nGoodDirs <= GoodCount(old(cell), pos, n, 4)
      ensures nGoodDirs > 0 ==> goodIdx < 4 && !BadDirection(old(cell), pos, n, FourNeighbours[goodIdx]) && goodDir == FourNeighbours[goodIdx]
      ensures BadBlackened(old(State()), State(), pos, n, 4)
    {
      ghost var s0 := State();
      goodDir := Dir(0, 0);
      goodIdx := 0;
      nGoodDirs := 0;
      for k := 0 to 4
        invariant Valid() && Progress(s0, State()) && cell.IsValidCoord(pos)
        invariant nGoodDirs <= GoodCount(s0.cell, pos, n, k)
        invariant nGoodDirs > 0 ==> goodIdx < k && !BadDirection(s0.cell, pos, n, FourNeighbours[goodIdx]) && goodDir == FourNeighbours[goodIdx]
        invariant BadBlackened(s0, State(), pos, n, k)
      {
        nGoodDirs, goodDir, goodIdx := ScanDirection(s0, pos, n, k, nGoodDirs, goodDir, goodIdx);
      }
    }

    /** One pass of the loop in ScanDirections, on direction `k`. */
    method ScanDirection(ghost s0: FieldState, pos: Coord, n: int, k: nat, nGood: nat, good: Dir, ghost idx: nat)
      returns (nGood1: nat, good1: Dir, ghost idx1: nat)
      requires k < 4 && Valid() && Progress(s0, State()) && cell.IsValidCoord(pos)
      requires nGood <= GoodCount(s0.cell, pos, n, k)
      requires nGood > 0 ==> idx < k && !BadDirection(s0.cell, pos, n, FourNeighbours[idx]) && good == FourNeighbours[idx]
      requires BadBlackened(s0, State(), pos, n, k)
      modifies this
      ensures Valid() && Progress(s0, State()) && cell.IsValidCoord(pos)
      ensures nGood1 <= GoodCount(s0.cell, pos, n, k + 1)
      ensures nGood1 > 0 ==> idx1 < k + 1 && !BadDirection(s0.cell, pos, n, FourNeighbours[idx1]) && good1 == FourNeighbours[idx1]
      ensures BadBlackened(s0, State(), pos, n, k + 1)
    {
      nGood1, good1, idx1 := nGood, good, idx;
      var d := FourNeighbours[k];
      ghost var s1 := State();
      var bad := IsBadCapeDirection(pos, n, d);
      BadKept(s0, s1, pos, n, d);
      if !bad {
        good1 := d;
        idx1 := k;
        nGood1 := nGood + 1;
      } else if cell.IsValidCoord(CoordAdd(pos, d)) {
        DecideCell(CoordAdd(pos, d), Black);
      }
      BlackenedStep(s0, s1, State(), pos, n, k, bad);
      ProgressTrans(s0, s1, State());
    }

    /** The first loop of `inspect_clue`: the first in-grid neighbour that is white. */
    method FindWhite(pos: Coord) returns (first: Option<nat>)
      requires Valid()
      ensures first == FirstWhite(cell, pos, 0)
    {
      for k := 0 to 4
        invariant FirstWhite(cell, pos, 0) == FirstWhite(cell, pos, k)
      {
        var p := CoordAdd(pos, FourNeighbours[k]);
        if cell.IsValidCoord(p) && cell.Get(p) == White {
          return Some(k);
        }
      }
      return None;
    }

    /**
     * `inspect`: a cape is inspected as a clue. Any other cell with at
     * most one neighbour that is white-like or undecided becomes black;
     * a white cell with exactly two such neighbours makes them white.
     */
    method Inspect(pos: Coord)
      requires Valid() && cell.IsValidCoord(pos)
      modifies this
      ensures Valid() && Progress(old(State()), State())
      ensures old(cell.Get(pos)).Cape? ==> ClueInspected(old(State()), State(), pos, old(cell.Get(pos)).n)
      ensures !old(cell.Get(pos)).Cape? ==> PlainInspected(old(State()), State(), pos)
    {
      var c := cell.Get(pos);
      if c.Cape? {
        InspectClue(pos, c.n);
        return;
      }
      ghost var s0 := State();
      var nWhite, nUndecided := CountAround(pos);
      if ForcesBlack((nWhite, nUndecided)) {
        DecideCell(pos, Black);
      } else if ForcesWhiteAround((nWhite, nUndecided)) && c == White {
        WhitenAround(pos);
      } else {
        ProgressRefl(s0);
      }
    }

    /** The counting loop of `inspect`. */
    method CountAround(pos: Coord) returns (nWhite: nat, nUndecided: nat)
      requires Valid()
      ensures (nWhite, nUndecided) == AroundCounts(cell, pos, 4)
    {
      nWhite, nUndecided := 0, 0;
      for k := 0 to 4
        invariant (nWhite, nUndecided) == AroundCounts(cell, pos, k)
      {
        var p := CoordAdd(pos, FourNeighbours[k]);
        if cell.IsValidCoord(p) {
          match cell.Get(p) {
            case Undecided => nUndecided := nUndecided + 1;
            case White => nWhite := nWhite + 1;
            case Cape(_) => nWhite := nWhite + 1;
            case Black =>
          }
        }
      }
    }

    /**
     * The white branch of `inspect`: each in-grid neighbour still undecided
     * when the scan reaches it is decided white. None is left undecided, and
     * the first neighbour undecided at the start ends white.
     */
    method WhitenAround(pos: Coord)
      requires Valid()
      modifies this
      ensures Valid() && Progress(old(State()), State())
      ensures AroundDecided(cell, pos)
      ensures FirstOpenWhite(old(cell), cell, pos, 4)
    {
      ghost var s0 := State();
      for k := 0 to 4
        invariant Valid() && Progress(s0, State())
        invariant DecidedUpTo(cell, pos, k)
        invariant NoneOpenBefore(s0.cell, pos, k) ==> cell == s0.cell
        invariant FirstOpenWhite(s0.cell, cell, pos, k)
      {
        ghost var s1 := State();
        WhitenStep(pos, k, s0.cell);
        ProgressTrans(s0, s1, State());
      }
    }

    /** Neighbour `k` of the white sweep, begun on the cells `g0`. */
    method WhitenStep(pos: Coord, k: int, ghost g0: Grid<Cell>)
      requires Valid() && 0 <= k < 4 && g0.Valid()
      requires DecidedUpTo(cell, pos, k) && FirstOpenWhite(g0, cell, pos, k)
      requires NoneOpenBefore(g0, pos, k) ==> cell == g0
      modifies this
      ensures Valid() && Progress(old(State()), State())
      ensures DecidedUpTo(cell, pos, k + 1) && FirstOpenWhite(g0, cell, pos, k + 1)
      ensures NoneOpenBefore(g0, pos, k + 1) ==> cell == g0
    {
      var p := CoordAdd(pos, FourNeighbours[k]);
      ghost var s1 := State();
      if cell.IsValidCoord(p) && cell.Get(p) == Undecided {
        assert OpenAround(cell, pos, k);
        assert !NoneOpenBefore(g0, pos, k + 1);
        DecideCell(p, White);
        SweepKept(g0, s1, State(), pos, k);
      } else {
        ProgressRefl(s1);
      }
    }

    /** `fully_solved`: every cell is decided. */
    function FullySolved(): (r: bool)
      requires Valid()
      reads this
      ensures r <==> forall i :: 0 <= i < |cell.data| ==> cell.data[i] != Undecided
    {
      CountOfNone(cell.data, Undecided);
      decidedCells == cell.height * cell.width
    }

    /** `inspect_all_cell`: `inspect` on every cell, row by row. */
    method InspectAllCell()
      requires Valid()
      modifies this
      ensures Valid() && Progress(old(State()), State())
    {
      ghost var s0 := State();
      for y := 0 to cell.height
        invariant Valid() && Progress(s0, State())
      {
        for x := 0 to cell.width
          invariant Valid() && Progress(s0, State())
        {
          ghost var s1 := State();
          Inspect(Coord(y, x));
          ProgressTrans(s0, s1, State());
        }
      }
    }

    /** `avoid_forbidden_pattern_simple`: the cup patterns around every cell. */
    method AvoidForbiddenPatternSimple()
      requires Valid()
      modifies this
      ensures Valid() && Progress(old(State()), State())
    {
      ghost var s0 := State();
      for y := 0 to cell.height
        invariant Valid() && Progress(s0, State())
      {
        for x := 0 to cell.width
          invariant Valid() && Progress(s0, State())
        {
          ghost var s1 := State();
          CupAt(Coord(y, x));
          ProgressTrans(s0, s1, State());
        }
      }
    }

    /** One cell of `avoid_forbidden_pattern_simple`: each cup pattern that applies is avoided. */
    method CupAt(pos: Coord)
      requires Valid() && cell.IsValidCoord(pos)
      modifies this
      ensures Valid() && Progress(old(State()), State())
      ensures CupsAvoided(old(State()), State(), pos, 4)
      ensures (forall k :: 0 <= k < 4 ==> !CupApplies(old(cell), pos, k)) ==> State() == old(State())
    {
      ghost var s0 := State();
      // decide_cell never makes a cape, so the tests read the same before and after the first patterns
      var notCape := !IsCape(cell.Get(pos));
      var vertical := notCape && pos.y < cell.height - 1 && !IsCape(cell.Get(CoordAdd(pos, Dir(1, 0))));
      var horizontal := notCape && pos.x < cell.width - 1 && !IsCape(cell.Get(CoordAdd(pos, Dir(0, 1))));
      var applies := [vertical && pos.x != 0, vertical && pos.x != cell.width - 1, horizontal && pos.y != 0, horizontal && pos.y != cell.height - 1];
      assert forall k :: 0 <= k < 4 ==> applies[k] == CupApplies(s0.cell, pos, k);
      for k := 0 to 4
        invariant Valid() && Progress(s0, State())
        invariant CupsAvoided(s0, State(), pos, k)
        invariant (forall j :: 0 <= j < k ==> !applies[j]) ==> State() == s0
      {
        TryCup(s0, pos, k, applies[k]);
      }
    }

    /** Cup pattern `k` at `pos` when it applies, keeping what the earlier patterns of the cell achieved. */
    method TryCup(ghost s0: FieldState, pos: Coord, k: nat, apply: bool)
      requires Valid() && Progress(s0, State()) && s0.cell.IsValidCoord(pos) && k < 4
      requires apply == CupApplies(s0.cell, pos, k) && CupsAvoided(s0, State(), pos, k)
      modifies this
      ensures Valid() && Progress(s0, State()) && Progress(old(State()), State())
      ensures CupsAvoided(s0, State(), pos, k + 1)
      ensures !apply ==> State() == old(State())
    {
      ghost var s1 := State();
      if !apply {
        ProgressRefl(s1);
        return;
      }
      SingleForbiddenPattern(CupPattern(pos, k));
      ProgressTrans(s0, s1, State());
      forall j | 0 <= j <= k && CupApplies(s0.cell, pos, j)
        ensures PatternAvoided(s0, State(), CupPattern(pos, j))
      {
        if j < k {
          AvoidedKept(s0, s1, State(), CupPattern(pos, j));
        } else {
          AvoidedFrom(s0, s1, State(), CupPattern(pos, j));
        }
      }
    }

    /**
     * `single_forbidden_pattern`: for each cell of the pattern whose three
     * partners are black or outside, the cell is made white, or the field
     * inconsistent when it lies outside the grid.
     */
    method SingleForbiddenPattern(pat: seq<Coord>)
      requires Valid() && |pat| == 4
      modifies this
      ensures Valid() && Progress(old(State()), State())
      ensures PatternAvoided(old(State()), State(), pat)
    {
      ghost var s0 := State();
      for i := 0 to 4
        invariant Valid() && Progress(s0, State())
        invariant forall j :: 0 <= j < i && OthersBlack(s0.cell, pat, j) ==>
          if s0.cell.IsValidCoord(pat[j]) then inconsistent || MeetsAt(cell, pat[j], White) else inconsistent
      {
        ghost var s1 := State();
        var flg := AllOthersBlack(pat, i);
        if OthersBlack(s0.cell, pat, i) {
          OthersBlackKept(s0, s1, pat, i);
        }
        if flg {
          if !cell.IsValidCoord(pat[i]) {
            inconsistent := true;
          } else {
            DecideCell(pat[i], White);
          }
        }
        ProgressTrans(s0, s1, State());
        forall j | 0 <= j < i && OthersBlack(s0.cell, pat, j) && s0.cell.IsValidCoord(pat[j]) && !inconsistent
          ensures MeetsAt(cell, pat[j], White)
        {
          MeetsKept(s1, State(), pat[j], White);
        }
      }
    }

    /** The inner loop of `single_forbidden_pattern`, which stops at the first partner that is neither. */
    method AllOthersBlack(pat: seq<Coord>, i: nat) returns (flg: bool)
      requires Valid() && |pat| == 4
      ensures flg == OthersBlack(cell, pat, i)
    {
      flg := true;
      for j := 0 to 4
        invariant flg == forall k :: 0 <= k < j && k != i ==> BlackOrOutside(cell, pat[k])
      {
        if i != j && !(!cell.IsValidCoord(pat[j]) || cell.Get(pat[j]) == Black) {
          flg := false;
          break;
        }
      }
    }
  }

  /** The loops of `Field::new`: the cells row by row, and the count of capes. */
  method InitialCells(problem: Grid<Option<int>>) returns (g: Grid<Cell>, count: int)
    requires problem.Valid()
    ensures g.Valid() && g.height == problem.height && g.width == problem.width
    ensures forall i :: 0 <= i < |g.data| ==> g.data[i] == CapeOf(problem.data[i])
    ensures count == |problem.data| - CountOf(problem.data, None)
    ensures count == |g.data| - CountOf(g.data, Undecided)
  {
    g := NewGrid(problem.height, problem.width, Undecided);
    count := 0;
    var base := 0;
    assert g.data == InitData(problem.data, 0);
    for y := 0 to problem.height
      invariant g.height == problem.height && g.width == problem.width
      invariant base == y * problem.width && base <= |problem.data|
      invariant g.data == InitData(problem.data, base)
      invariant count == base - CountOf(problem.data[..base], None)
    {
      MulStep(y, problem.width);
      MulMonotone(y + 1, problem.height, problem.width);
      for x := 0 to problem.width
        invariant g.height == problem.height && g.width == problem.width
        invariant g.data == InitData(problem.data, base + x)
        invariant count == base + x - CountOf(problem.data[..base + x], None)
      {
        var pos := Coord(y, x);
        assert problem.Index(pos) == base + x;
        CountSnoc(problem.data, base + x, None);
        InitStep(problem.data, base + x);
        if problem.Get(pos).Some? {
          g := g.Set(pos, Cape(problem.Get(pos).value));
          count := count + 1;
        }
      }
      base := base + problem.width;
    }
    assert problem.data[..base] == problem.data;
    CountMatch(problem.data, g.data, None, Undecided);
  }

  /** The cells after `n` slots of `Field::new`: capes before, undecided after. */
  ghost function InitData(p: seq<Option<int>>, n: int): (d: seq<Cell>)
    ensures |d| == |p|
  {
    seq(|p|, i requires 0 <= i < |p| => if i < n then CapeOf(p[i]) else Undecided)
  }

  /** Slot `n` of `Field::new`: a cape for a number, nothing for an empty entry. */
  lemma InitStep(p: seq<Option<int>>, n: nat)
    requires n < |p|
    ensures p[n].Some? ==> InitData(p, n)[n := Cape(p[n].value)] == InitData(p, n + 1)
    ensures p[n].None? ==> InitData(p, n) == InitData(p, n + 1)
  {
  }

  /** Counting one more entry. */
  lemma {:induction false} CountSnoc<T>(s: seq<T>, n: nat, c: T)
    requires n < |s|
    ensures CountOf(s[..n + 1], c) == CountOf(s[..n], c) + (if s[n] == c then 1 else 0)
  {
    if n > 0 {
      assert s[..n + 1][1..] == s[1..][..n];
      assert s[..n][1..] == s[1..][..n - 1];
      CountSnoc(s[1..], n - 1, c);
    }
  }

  /** Two sequences marked at the same places have the same number of marks. */
  lemma {:induction false} CountMatch<A, B>(a: seq<A>, b: seq<B>, ca: A, cb: B)
    requires |a| == |b| && forall i :: 0 <= i < |a| ==> (b[i] == cb <==> a[i] == ca)
    ensures CountOf(a, ca) == CountOf(b, cb)
  {
    if a != [] {
      assert forall i :: 0 <= i < |a[1..]| ==> a[1..][i] == a[i + 1] && b[1..][i] == b[i + 1];
      CountMatch(a[1..], b[1..], ca, cb);
    }
  }

  /**
   * The end of `inspect_clue` without a white neighbour: what the loop
   * counted, and the call it then made, give `ClueInspected`.
   */
  lemma ClueSteps(s0: FieldState, s2: FieldState, s3: FieldState, pos: Coord, n: int, nGood: nat, goodIdx: nat)
    requires Progress(s0, s2) && Progress(s0, s3) && FirstWhite(s0.cell, pos, 0).None?
    requires nGood <= GoodCount(s0.cell, pos, n, 4)
    requires nGood > 0 ==> goodIdx < 4 && !BadDirection(s0.cell, pos, n, FourNeighbours[goodIdx])
    requires BadBlackened(s0, s2, pos, n, 4)
    requires nGood == 0 ==> s3.inconsistent
    requires nGood == 1 ==> Progress(s2, s3) && (s3.inconsistent || DirectionDecided(s3.cell, pos, n, FourNeighbours[goodIdx]))
    requires nGood != 1 && nGood != 0 ==> s3 == s2
    ensures ClueInspected(s0, s3, pos, n)
  {
    forall k | 0 <= k < 4 && BadDirection(s0.cell, pos, n, FourNeighbours[k]) && s3.cell.IsValidCoord(CoordAdd(pos, FourNeighbours[k]))
      ensures s3.inconsistent || MeetsAt(s3.cell, CoordAdd(pos, FourNeighbours[k]), Black)
    {
      if nGood == 1 && !s3.inconsistent {
        MeetsKept(s2, s3, CoordAdd(pos, FourNeighbours[k]), Black);
      }
    }
    if forall k :: 0 <= k < 4 ==> BadDirection(s0.cell, pos, n, FourNeighbours[k]) {
      NoGoodCount(s0.cell, pos, n, 4);
    }
    forall k | 0 <= k < 4 && OnlyGood(s0.cell, pos, n, k)
      ensures s3.inconsistent || DirectionDecided(s3.cell, pos, n, FourNeighbours[k])
    {
      OnlyGoodCount(s0.cell, pos, n, k, 4);
      if nGood == 1 {
        assert goodIdx == k;
      }
    }
  }
}
