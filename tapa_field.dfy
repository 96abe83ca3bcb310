// src/tapa/field.rs: the Tapa solver's field. Cells are decided once and
// for all; deciding a cell black keeps 2x2 black blocks away, and every
// decision re-reads the clues around it through the neighbour dictionary.

module TapaField {
  import opened Wrappers
  import opened Common
  import opened TapaBase
  import opened TapaDictionary
  import TapaConsecutive

  /** A clue `Field` can hold: none, or a row of `CLUE_VALUES`. */
  predicate ClueOk(c: Clue) {
    c == NoClue || 0 <= c.id < ClueTypes
  }

  /** `checking_region`: when set, only cells of the half-open rectangle may be decided. */
  predicate InRegion(region: Option<(Coord, Coord)>, loc: Coord) {
    match region
    case None => true
    case Some((lo, hi)) => lo.y <= loc.y < hi.y && lo.x <= loc.x < hi.x
  }

  /** `cell_checked`: the cell, and white outside the grid. */
  function CellChecked(g: Grid<Cell>, loc: Coord): (c: Cell)
    requires g.Valid()
    ensures !g.IsValidCoord(loc) ==> c == White
    ensures g.IsValidCoord(loc) ==> c == g.Get(loc)
  {
    if g.IsValidCoord(loc) then g.Get(loc) else White
  }

  /** Neighbour `i` of a cell, in the dictionary's order. */
  function Around(loc: Coord, i: nat): Coord
    requires i < NeighborSize
  {
    CoordAdd(loc, TapaConsecutive.NeighborOffset[i])
  }

  /** The eight neighbours of a cell as `inspect` reads them. */
  function NeighborCells(g: Grid<Cell>, loc: Coord): (pat: seq<Cell>)
    requires g.Valid()
    ensures |pat| == NeighborSize
  {
    seq(NeighborSize, i requires 0 <= i < NeighborSize => CellChecked(g, Around(loc, i)))
  }

  /** The 2x2 block with top-left `c` lies on the grid and inside the region, and is all black. */
  ghost predicate ClusterAt(g: Grid<Cell>, region: Option<(Coord, Coord)>, c: Coord)
    requires g.Valid()
  {
    && 0 <= c.y && c.y + 1 < g.height && 0 <= c.x && c.x + 1 < g.width
    && InRegion(region, c) && InRegion(region, Coord(c.y, c.x + 1))
    && InRegion(region, Coord(c.y + 1, c.x)) && InRegion(region, Coord(c.y + 1, c.x + 1))
    && g.Get(c) == Black && g.Get(Coord(c.y, c.x + 1)) == Black
    && g.Get(Coord(c.y + 1, c.x)) == Black && g.Get(Coord(c.y + 1, c.x + 1)) == Black
  }

  /** Every black block of `g1` was already one of `g0`. */
  ghost predicate NoNewCluster(g0: Grid<Cell>, g1: Grid<Cell>, region: Option<(Coord, Coord)>)
    requires g0.Valid() && g1.Valid()
  {
    forall c :: ClusterAt(g1, region, c) ==> ClusterAt(g0, region, c)
  }

  /**
   * `g1` comes from `g0` by deciding cells: same size, and a cell that was
   * decided, or lies outside the region, is as it was.
   */
  ghost predicate Settled(g0: Grid<Cell>, g1: Grid<Cell>, region: Option<(Coord, Coord)>)
    requires g0.Valid() && g1.Valid()
  {
    && g1.height == g0.height && g1.width == g0.width
    && forall cd :: g0.IsValidCoord(cd) && (g0.Get(cd) != Undecided || !InRegion(region, cd)) ==> g1.Get(cd) == g0.Get(cd)
  }

  /** What a `Field` holds. */
  datatype FieldState = FieldState(cell: Grid<Cell>, clue: Grid<Clue>, inconsistent: bool, decidedCells: int,
                                   region: Option<(Coord, Coord)>)

  /** `decided_cells` counts the decided cells, and the clues are rows of `CLUE_VALUES`. */
  ghost predicate ValidState(s: FieldState) {
    && s.cell.Valid() && s.clue.Valid() && s.clue.height == s.cell.height && s.clue.width == s.cell.width
    && s.decidedCells == |s.cell.data| - CountOf(s.cell.data, Undecided)
    && forall i :: 0 <= i < |s.clue.data| ==> ClueOk(s.clue.data[i])
  }

  /**
   * What any run of the propagation does: the clues and the region stay,
   * `inconsistent` is never reset, cells are only decided, none outside the
   * region, and no black 2x2 block appears unless the field is inconsistent.
   */
  ghost predicate Progress(s0: FieldState, s1: FieldState)
  {
    Grows(s0, s1) && (s1.inconsistent || NoNewCluster(s0.cell, s1.cell, s0.region))
  }

  /** `Progress` without the black-block part. */
  ghost predicate Grows(s0: FieldState, s1: FieldState)
  {
    && ValidState(s0) && ValidState(s1)
    && s1.clue == s0.clue && s1.region == s0.region
    && (s0.inconsistent ==> s1.inconsistent)
    && Settled(s0.cell, s1.cell, s0.region)
    && CountOf(s1.cell.data, Undecided) <= CountOf(s0.cell.data, Undecided)
  }

  lemma ProgressRefl(s: FieldState)
    requires ValidState(s)
    ensures Progress(s, s)
  {
  }

  lemma GrowsTrans(a: FieldState, b: FieldState, c: FieldState)
    requires Grows(a, b) && Grows(b, c)
    ensures Grows(a, c)
  {
    forall cd | a.cell.IsValidCoord(cd) && (a.cell.Get(cd) != Undecided || !InRegion(a.region, cd))
      ensures c.cell.Get(cd) == a.cell.Get(cd)
    {
      assert b.cell.Get(cd) == a.cell.Get(cd);
    }
  }

  lemma ProgressTrans(a: FieldState, b: FieldState, c: FieldState)
    requires Progress(a, b) && Progress(b, c)
    ensures Progress(a, c)
  {
    GrowsTrans(a, b, c);
  }

  /** A decided cell keeps its value. */
  lemma Keeps(s0: FieldState, s1: FieldState, a: Coord)
    requires Grows(s0, s1) && CellChecked(s0.cell, a) != Undecided
    ensures CellChecked(s1.cell, a) == CellChecked(s0.cell, a)
  {
  }

  /** The block with top-left `tl` is not black, unless the field is inconsistent. */
  ghost predicate NoBlockAt(s: FieldState, tl: Coord) {
    s.cell.Valid() && (s.inconsistent || !ClusterAt(s.cell, s.region, tl))
  }

  /** A block that is not black stays so, unless the field becomes inconsistent. */
  lemma KeepsNoCluster(s0: FieldState, s1: FieldState, tl: Coord)
    requires Progress(s0, s1) && NoBlockAt(s0, tl)
    ensures NoBlockAt(s1, tl)
  {
  }

  // ---- counting the decided cells ----

  lemma {:induction false} CountOfUpdate(s: seq<Cell>, i: nat, v: Cell, c: Cell)
    requires i < |s|
    ensures CountOf(s[i := v], c) == CountOf(s, c) - (if s[i] == c then 1 else 0) + (if v == c then 1 else 0)
  {
    if i == 0 {
      assert s[i := v][1..] == s[1..];
    } else {
      assert s[i := v][1..] == s[1..][i - 1 := v];
      CountOfUpdate(s[1..], i - 1, v, c);
    }
  }

  lemma {:induction false} CountOfNone(s: seq<Cell>, c: Cell)
    ensures CountOf(s, c) == 0 <==> forall i :: 0 <= i < |s| ==> s[i] != c
  {
    if s != [] {
      CountOfNone(s[1..], c);
      assert forall i :: 1 <= i < |s| ==> s[i] == s[1..][i - 1];
    }
  }

  /** Deciding an undecided cell takes one off the undecided count. */
  lemma DecideCount(g: Grid<Cell>, loc: Coord, v: Cell)
    requires g.Valid() && g.IsValidCoord(loc) && g.Get(loc) == Undecided && v != Undecided
    ensures CountOf(g.Set(loc, v).data, Undecided) == CountOf(g.data, Undecided) - 1
  {
    g.IndexInRange(loc);
    CountOfUpdate(g.data, g.Index(loc), v, Undecided);
  }

  /** `fully_solved`: `decided_cells == height * width` exactly when no cell is undecided. */
  lemma FullySolved(s: FieldState)
    requires ValidState(s)
    ensures s.decidedCells == s.cell.height * s.cell.width <==> forall i :: 0 <= i < |s.cell.data| ==> s.cell.data[i] != Undecided
  {
    CountOfNone(s.cell.data, Undecided);
  }

  // ---- one cell decided ----

  /** Deciding an undecided cell: the other cells stay. */
  lemma SetSettled(g: Grid<Cell>, loc: Coord, v: Cell, region: Option<(Coord, Coord)>)
    requires g.Valid() && g.IsValidCoord(loc) && g.Get(loc) == Undecided && InRegion(region, loc)
    ensures Settled(g, g.Set(loc, v), region)
  {
    var g' := g.Set(loc, v);
    forall cd | g.IsValidCoord(cd) && (g.Get(cd) != Undecided || !InRegion(region, cd))
      ensures g'.Get(cd) == g.Get(cd)
    {
      GetSet(g, loc, v, cd);
    }
  }

  /** A white cell joins no black block. */
  lemma SetWhiteClusters(g: Grid<Cell>, loc: Coord, region: Option<(Coord, Coord)>)
    requires g.Valid() && g.IsValidCoord(loc)
    ensures NoNewCluster(g, g.Set(loc, White), region)
  {
    var g' := g.Set(loc, White);
    forall c | ClusterAt(g', region, c) ensures ClusterAt(g, region, c) {
      GetSet(g, loc, White, c);
      GetSet(g, loc, White, Coord(c.y, c.x + 1));
      GetSet(g, loc, White, Coord(c.y + 1, c.x));
      GetSet(g, loc, White, Coord(c.y + 1, c.x + 1));
    }
  }

  /** The four blocks a cell belongs to, by their top-left cells. */
  predicate BlockOf(loc: Coord, c: Coord) {
    (c.y == loc.y - 1 || c.y == loc.y) && (c.x == loc.x - 1 || c.x == loc.x)
  }

  /** A black cell can only complete one of its own four blocks. */
  lemma SetBlackClusters(g: Grid<Cell>, loc: Coord, region: Option<(Coord, Coord)>)
    requires g.Valid() && g.IsValidCoord(loc)
    ensures forall c :: ClusterAt(g.Set(loc, Black), region, c) ==> ClusterAt(g, region, c) || BlockOf(loc, c)
  {
    var g' := g.Set(loc, Black);
    forall c | ClusterAt(g', region, c) && !BlockOf(loc, c) ensures ClusterAt(g, region, c) {
      GetSet(g, loc, Black, c);
      GetSet(g, loc, Black, Coord(c.y, c.x + 1));
      GetSet(g, loc, Black, Coord(c.y + 1, c.x));
      GetSet(g, loc, Black, Coord(c.y + 1, c.x + 1));
    }
  }

  /** A cell that is black, on the grid and inside the region. */
  ghost predicate BlackIn(g: Grid<Cell>, region: Option<(Coord, Coord)>, c: Coord)
    requires g.Valid()
  {
    g.IsValidCoord(c) && InRegion(region, c) && g.Get(c) == Black
  }

  /** The top-left cells of the four blocks of `loc`: up-left, up-right, down-left, down-right. */
  function Corner(loc: Coord, k: nat): Coord
    requires k < 4
  {
    Coord(loc.y - (if k < 2 then 1 else 0), loc.x - (if k % 2 == 0 then 1 else 0))
  }

  /** The state right after `decide` writes `v` into an undecided cell. */
  function Written(s: FieldState, loc: Coord, v: Cell): FieldState
    requires s.cell.Valid() && s.cell.IsValidCoord(loc)
  {
    s.(cell := s.cell.Set(loc, v), decidedCells := s.decidedCells + 1)
  }

  /**
   * `decide` as written on an undecided cell and `Undecided`: the cell keeps
   * its value but `decided_cells` still grows, so the count runs one ahead of
   * the decided cells; a new 1x1 field then counts as fully solved.
   */
  lemma UndecidedCountedAsWritten(s: FieldState, loc: Coord)
    requires ValidState(s) && s.cell.IsValidCoord(loc) && s.cell.Get(loc) == Undecided
    ensures Written(s, loc, Undecided).cell == s.cell
    ensures Written(s, loc, Undecided).decidedCells == |s.cell.data| - CountOf(s.cell.data, Undecided) + 1
    ensures !ValidState(Written(s, loc, Undecided))
    ensures s.cell.height == 1 && s.cell.width == 1 ==> IsFullySolved(Written(s, loc, Undecided))
  {
    s.cell.IndexInRange(loc);
    assert s.cell.Set(loc, Undecided).data == s.cell.data;
    if s.cell.height == 1 && s.cell.width == 1 {
      assert s.cell.data == [Undecided];
      CountOfAll(s.cell.data, Undecided);
    }
  }

  lemma WrittenGrows(s: FieldState, loc: Coord, v: Cell)
    requires ValidState(s) && s.cell.IsValidCoord(loc) && s.cell.Get(loc) == Undecided && v != Undecided
    requires InRegion(s.region, loc)
    ensures Grows(s, Written(s, loc, v))
    ensures CountOf(Written(s, loc, v).cell.data, Undecided) == CountOf(s.cell.data, Undecided) - 1
    ensures CellChecked(Written(s, loc, v).cell, loc) == v
    ensures v == White ==> Progress(s, Written(s, loc, v))
  {
    DecideCount(s.cell, loc, v);
    SetSettled(s.cell, loc, v, s.region);
    GetSet(s.cell, loc, v, loc);
    if v == White {
      SetWhiteClusters(s.cell, loc, s.region);
    }
  }

  /**
   * A black cell written, then propagation that leaves none of its four
   * blocks black: no new black block.
   */
  lemma BlackWritten(s0: FieldState, loc: Coord, s1: FieldState)
    requires ValidState(s0) && s0.cell.IsValidCoord(loc) && s0.cell.Get(loc) == Undecided && InRegion(s0.region, loc)
    requires Progress(Written(s0, loc, Black), s1)
    requires forall k :: 0 <= k < 4 ==> NoBlock(s1, loc, k)
    ensures Progress(s0, s1)
  {
    var w := Written(s0, loc, Black);
    WrittenGrows(s0, loc, Black);
    GrowsTrans(s0, w, s1);
    if !s1.inconsistent {
      assert NoBlock(s1, loc, 0) && NoBlock(s1, loc, 1) && NoBlock(s1, loc, 2) && NoBlock(s1, loc, 3);
      var g1 := s0.cell.Set(loc, Black);
      assert w.cell == g1;
      SetBlackClusters(s0.cell, loc, s0.region);
      forall c | ClusterAt(s1.cell, s0.region, c) ensures ClusterAt(s0.cell, s0.region, c) {
        assert ClusterAt(g1, s0.region, c);
        BlockCorners(loc, c);
      }
    }
  }

  /** The four blocks of a cell are its four corners. */
  lemma BlockCorners(loc: Coord, c: Coord)
    ensures BlockOf(loc, c) <==> c == Corner(loc, 0) || c == Corner(loc, 1) || c == Corner(loc, 2) || c == Corner(loc, 3)
  {
  }

  /** Block `k` of a cell: the corner opposite it, the side above or below, the side left or right. */
  function Opposite(loc: Coord, k: nat): Coord
    requires k < 4
  {
    Coord(loc.y + (if k < 2 then -1 else 1), loc.x + (if k % 2 == 0 then -1 else 1))
  }

  function Vertical(loc: Coord, k: nat): Coord
    requires k < 4
  {
    Coord(loc.y + (if k < 2 then -1 else 1), loc.x)
  }

  function Horizontal(loc: Coord, k: nat): Coord
    requires k < 4
  {
    Coord(loc.y, loc.x + (if k % 2 == 0 then -1 else 1))
  }

  /** Block `k` is free of black, unless the field is inconsistent. */
  ghost predicate NoBlock(s: FieldState, loc: Coord, k: nat)
    requires k < 4
  {
    NoBlockAt(s, Corner(loc, k))
  }

  /** One `avoid_cluster` call of `decide`: block `k` joins the blocks known free. */
  lemma AvoidStep(s0: FieldState, s1: FieldState, s2: FieldState, loc: Coord, k: nat)
    requires k < 4 && Progress(s0, s1) && Progress(s1, s2)
    requires forall j :: 0 <= j < k ==> NoBlock(s1, loc, j)
    requires s2.inconsistent || !(BlackIn(s2.cell, s2.region, Opposite(loc, k)) && BlackIn(s2.cell, s2.region, Vertical(loc, k))
                                  && BlackIn(s2.cell, s2.region, Horizontal(loc, k)))
    ensures Progress(s0, s2)
    ensures forall j :: 0 <= j <= k ==> NoBlock(s2, loc, j)
  {
    ProgressTrans(s0, s1, s2);
    KeepsNoBlocks(s1, s2, loc, k);
  }

  lemma KeepsNoBlocks(s1: FieldState, s2: FieldState, loc: Coord, k: nat)
    requires k <= 4 && Progress(s1, s2)
    requires forall j :: 0 <= j < k ==> NoBlock(s1, loc, j)
    ensures forall j :: 0 <= j < k ==> NoBlock(s2, loc, j)
  {
    forall j | 0 <= j < k ensures NoBlock(s2, loc, j) {
      assert NoBlock(s1, loc, j);
      KeepsNoCluster(s1, s2, Corner(loc, j));
    }
  }

  /** One decision of `inspect`: neighbour `i` joins the neighbours known decided. */
  lemma ApplyStep(s0: FieldState, s1: FieldState, s2: FieldState, loc: Coord, e: bv32, i: nat)
    requires i < NeighborSize && Progress(s0, s1) && Progress(s1, s2)
    requires s1.inconsistent || Applied(s1.cell, s1.region, loc, e, i)
    requires Decision(e, i) != Undecided && InRegion(s2.region, Around(loc, i)) ==>
      s2.inconsistent || CellChecked(s2.cell, Around(loc, i)) == Decision(e, i)
    ensures Progress(s0, s2)
    ensures s2.inconsistent || Applied(s2.cell, s2.region, loc, e, i + 1)
  {
    ProgressTrans(s0, s1, s2);
    if !s2.inconsistent {
      forall k | 0 <= k < i && Decision(e, k) != Undecided && InRegion(s2.region, Around(loc, k))
        ensures CellChecked(s2.cell, Around(loc, k)) == Decision(e, k)
      {
        Keeps(s1, s2, Around(loc, k));
      }
    }
  }

  /** The clue of a cell, and none outside the grid. */
  ghost function ClueOf(s: FieldState, loc: Coord): (c: Clue)
    requires ValidState(s)
    ensures ClueOk(c)
  {
    if s.clue.IsValidCoord(loc) then (s.clue.IndexInRange(loc); s.clue.Get(loc)) else NoClue
  }

  /** The dictionary entry `inspect` reads for a clue cell: that of its eight neighbours. */
  ghost function InspectEntry(s: FieldState, loc: Coord): bv32
    requires ValidState(s) && ClueOf(s, loc) != NoClue
  {
    Entry(Pattern(ClueValues, ClueOf(s, loc).id), NeighborCells(s.cell, loc))
  }

  /** Every cell that entry `e` decides around `loc`, inside the region, holds that value. */
  ghost predicate Applied(g: Grid<Cell>, region: Option<(Coord, Coord)>, loc: Coord, e: bv32, n: nat)
    requires g.Valid() && n <= NeighborSize
  {
    forall i :: 0 <= i < n && Decision(e, i) != Undecided && InRegion(region, Around(loc, i)) ==>
      CellChecked(g, Around(loc, i)) == Decision(e, i)
  }

  lemma {:induction false} CountOfAll(s: seq<Cell>, c: Cell)
    requires forall i :: 0 <= i < |s| ==> s[i] == c
    ensures CountOf(s, c) == |s|
  {
    if s != [] {
      CountOfAll(s[1..], c);
    }
  }

  /** `fully_solved`. */
  function IsFullySolved(s: FieldState): bool {
    s.decidedCells == s.cell.height * s.cell.width
  }

  // ---- count and settled cells ----

  /** Cells only get decided: the undecided count cannot grow, and stays only when nothing changed. */
  lemma {:induction false} CountMono(a: seq<Cell>, b: seq<Cell>)
    requires |a| == |b| && forall i :: 0 <= i < |a| && a[i] != Undecided ==> b[i] == a[i]
    ensures CountOf(b, Undecided) <= CountOf(a, Undecided)
    ensures CountOf(b, Undecided) == CountOf(a, Undecided) ==> b == a
  {
    if a != [] {
      assert forall i :: 0 <= i < |a[1..]| && a[1..][i] != Undecided ==> b[1..][i] == a[1..][i] by {
        assert forall i :: 0 <= i < |a[1..]| ==> a[1..][i] == a[i + 1] && b[1..][i] == b[i + 1];
      }
      CountMono(a[1..], b[1..]);
      if CountOf(b, Undecided) == CountOf(a, Undecided) {
        assert b == [b[0]] + b[1..] && a == [a[0]] + a[1..];
      }
    }
  }

  /** `Settled`, slot by slot. */
  lemma SettledData(g0: Grid<Cell>, g1: Grid<Cell>, region: Option<(Coord, Coord)>)
    requires g0.Valid() && g1.Valid() && Settled(g0, g1, region)
    ensures |g1.data| == |g0.data|
    ensures forall i :: 0 <= i < |g0.data| && g0.data[i] != Undecided ==> g1.data[i] == g0.data[i]
  {
    forall i | 0 <= i < |g0.data| && g0.data[i] != Undecided ensures g1.data[i] == g0.data[i] {
      g0.IndexCoordOf(i);
      var c := g0.CoordOf(i);
      assert g0.Get(c) == g0.data[i];
      assert g1.IsValidCoord(c) && g1.Index(c) == i;
    }
  }

  /** A run that leaves the undecided count as it was left every cell as it was. */
  lemma SameCount(s0: FieldState, s1: FieldState)
    requires Grows(s0, s1) && CountOf(s1.cell.data, Undecided) == CountOf(s0.cell.data, Undecided)
    ensures s1.cell == s0.cell
  {
    SettledData(s0.cell, s1.cell, s0.region);
    CountMono(s0.cell.data, s1.cell.data);
  }

  // ---- the connectivity passes of `solve` ----

  /**
   * What a connectivity pass asks for: `conflict` for the black cells in two
   * components, and decisions, each applied to a cell still undecided.
   */
  datatype Pass = Pass(conflict: bool, decisions: seq<(Coord, Cell)>)

  /** Every decision of `ds` inside the region finds its cell decided. */
  ghost predicate Done(s: FieldState, ds: seq<(Coord, Cell)>)
    requires s.cell.Valid()
  {
    forall k :: 0 <= k < |ds| && ds[k].1 != Undecided && InRegion(s.region, ds[k].0) ==> CellChecked(s.cell, ds[k].0) != Undecided
  }

  /** The number of positive pieces `GraphSeparation::separate` reports. */
  function Nonzero(sep: seq<int>): (n: nat)
    ensures n <= |sep|
  {
    if sep == [] then 0 else (if sep[0] > 0 then 1 else 0) + Nonzero(sep[1..])
  }

  /**
   * `inspect_connectivity`: with `separate(g, i)` the weights of the pieces
   * that removing cell `i` leaves of the graph of non-white cells of `g`
   * (black cells weigh 1), an undecided cell that splits two black pieces
   * apart is decided black.
   */
  function ConnectivityPass(g: Grid<Cell>, separate: (Grid<Cell>, int) -> seq<int>): Pass
    requires g.Valid()
  {
    Pass(false, ConnectivityFrom(g, separate, 0))
  }

  function ConnectivityFrom(g: Grid<Cell>, separate: (Grid<Cell>, int) -> seq<int>, i: nat): (ds: seq<(Coord, Cell)>)
    requires g.Valid()
    ensures forall k :: 0 <= k < |ds| ==> ds[k].1 == Black
    decreases |g.data| - i
  {
    if i >= |g.data| then []
    else
      g.IndexCoordOf(i);
      (if g.data[i] == Undecided && Nonzero(separate(g, i)) >= 2 then [(g.CoordOf(i), Black)] else [])
      + ConnectivityFrom(g, separate, i + 1)
  }

  /** The decisions of the pass are the cutting undecided cells, each once. */
  lemma {:induction false} ConnectivityFromSpec(g: Grid<Cell>, separate: (Grid<Cell>, int) -> seq<int>, i: nat, c: Coord)
    requires g.Valid()
    ensures (c, Black) in ConnectivityFrom(g, separate, i) <==>
      g.IsValidCoord(c) && i <= g.Index(c) && g.Get(c) == Undecided && Nonzero(separate(g, g.Index(c))) >= 2
    decreases |g.data| - i
  {
    if i < |g.data| {
      ConnectivityFromSpec(g, separate, i + 1, c);
      g.IndexCoordOf(i);
      if g.IsValidCoord(c) {
        g.CoordOfIndex(c);
        g.IndexInRange(c);
        g.IndexInjective(c, g.CoordOf(i));
      }
    } else if g.IsValidCoord(c) {
      g.IndexInRange(c);
    }
  }

  /** `decide` on a cell still undecided, as `solve`'s passes do. */
  ghost predicate Stable(s: FieldState, separate: (Grid<Cell>, int) -> seq<int>, advanced: FieldState -> Pass)
    requires s.cell.Valid()
  {
    && Done(s, ConnectivityPass(s.cell, separate).decisions)
    && !advanced(s).conflict && Done(s, advanced(s).decisions)
  }

  /** `Field`: the cells, the clues, the flag, the counter and the region. */
  class Field {
    var cell: Grid<Cell>
    var clue: Grid<Clue>
    var inconsistent: bool
    var decidedCells: int
    const dic: Dictionary
    var checkingRegion: Option<(Coord, Coord)>

    function State(): FieldState
      reads this
    {
      FieldState(cell, clue, inconsistent, decidedCells, checkingRegion)
    }

    ghost predicate Valid()
      reads this
    {
      ValidState(State()) && ValidDictionary(dic)
    }

    ghost function Undecideds(): nat
      reads this
    {
      CountOf(cell.data, Undecided)
    }

    /** `Field::new`: every cell undecided, no clue, no region. */
    constructor (height: int, width: int, d: Dictionary)
      requires height >= 0 && width >= 0 && ValidDictionary(d)
      ensures Valid() && dic == d
      ensures State() == FieldState(NewGrid(height, width, Undecided), NewGrid(height, width, NoClue), false, 0, None)
    {
      cell := NewGrid(height, width, Undecided);
      clue := NewGrid(height, width, NoClue);
      inconsistent := false;
      decidedCells := 0;
      dic := d;
      checkingRegion := None;
      new;
      CountOfAll(cell.data, Undecided);
    }

    /**
     * `add_clue`: a clue-free cell gets the clue and is decided white; a
     * cell that has a clue keeps it, and a different one makes the field
     * inconsistent.
     */
    method AddClue(loc: Coord, c: Clue)
      requires Valid() && cell.IsValidCoord(loc) && ClueOk(c)
      modifies this
      ensures Valid()
      ensures old(clue.Get(loc)) != NoClue ==>
        && cell == old(cell) && clue == old(clue) && decidedCells == old(decidedCells)
        && checkingRegion == old(checkingRegion)
        && inconsistent == (old(inconsistent) || old(clue.Get(loc)) != c)
      ensures old(clue.Get(loc)) == NoClue ==>
        && clue == old(clue).Set(loc, c)
        && Progress(old(State()).(clue := clue), State())
        && (inconsistent || !InRegion(checkingRegion, loc) || CellChecked(cell, loc) == White)
    {
      var current := clue.Get(loc);
      if current != NoClue {
        if current != c {
          inconsistent := true;
        }
        return;
      }
      clue := clue.Set(loc, c);
      Decide(loc, White);
    }

    /**
     * `decide`. Outside the region nothing happens. A decided cell, or white
     * outside the grid, is left alone, and a different value (`Undecided`
     * included) makes the field inconsistent. An undecided cell gets the
     * value and the change propagates; deciding it `Undecided` leaves it
     * undecided and uncounted and inspects the nine cells around it.
     */
    method Decide(loc: Coord, v: Cell)
      requires Valid()
      modifies this
      decreases Undecideds(), if v == Undecided then 5 else 0
      ensures Valid() && Progress(old(State()), State())
      ensures v != Undecided && InRegion(checkingRegion, loc) ==> inconsistent || CellChecked(cell, loc) == v
      ensures !InRegion(checkingRegion, loc) ==> State() == old(State())
      ensures CellChecked(old(cell), loc) != Undecided ==>
        && cell == old(cell) && decidedCells == old(decidedCells)
        && inconsistent == (old(inconsistent) || (InRegion(checkingRegion, loc) && CellChecked(old(cell), loc) != v))
    {
      if !InRegion(checkingRegion, loc) {
        return;
      }
      var current := CellChecked(cell, loc);
      if current != Undecided {
        if current != v {
          inconsistent := true;
        }
        return;
      }
      if v == Undecided {
        InspectAround(loc);
        return;
      }
      ghost var s0 := State();
      cell := cell.Set(loc, v);
      decidedCells := decidedCells + 1;
      WrittenGrows(s0, loc, v);
      Propagate(loc, v, s0);
    }

    /** The rest of `decide` once the cell is written: the blocks of a black cell, then the clues around. */
    method Propagate(loc: Coord, v: Cell, ghost s0: FieldState)
      requires ValidState(s0) && s0.cell.IsValidCoord(loc) && s0.cell.Get(loc) == Undecided && v != Undecided
      requires InRegion(s0.region, loc) && Valid() && State() == Written(s0, loc, v)
      modifies this
      decreases Undecideds(), 4
      ensures Valid() && Progress(s0, State())
      ensures inconsistent || CellChecked(cell, loc) == v
    {
      WrittenGrows(s0, loc, v);
      if v == Black {
        AvoidAround(loc);
      }
      ghost var s1 := State();
      InspectAround(loc);
      if v == Black {
        KeepsNoBlocks(s1, State(), loc, 4);
        ProgressTrans(Written(s0, loc, v), s1, State());
        BlackWritten(s0, loc, State());
      } else {
        ProgressTrans(s0, s1, State());
      }
      Keeps(Written(s0, loc, v), State(), loc);
    }

    /** The four `avoid_cluster` calls of a cell just decided black. */
    method AvoidAround(loc: Coord)
      requires Valid()
      modifies this
      decreases Undecideds(), 2
      ensures Valid() && Progress(old(State()), State())
      ensures forall k :: 0 <= k < 4 ==> NoBlock(State(), loc, k)
    {
      var y, x := loc.y, loc.x;
      ghost var s0 := State();
      AvoidCluster(Coord(y - 1, x - 1), Coord(y - 1, x), Coord(y, x - 1));
      assert Opposite(loc, 0) == Coord(y - 1, x - 1) && Vertical(loc, 0) == Coord(y - 1, x) && Horizontal(loc, 0) == Coord(y, x - 1);
      ghost var s1 := State();
      AvoidStep(s0, s0, s1, loc, 0);
      AvoidCluster(Coord(y - 1, x + 1), Coord(y - 1, x), Coord(y, x + 1));
      assert Opposite(loc, 1) == Coord(y - 1, x + 1) && Vertical(loc, 1) == Coord(y - 1, x) && Horizontal(loc, 1) == Coord(y, x + 1);
      ghost var s2 := State();
      AvoidStep(s0, s1, s2, loc, 1);
      AvoidCluster(Coord(y + 1, x - 1), Coord(y + 1, x), Coord(y, x - 1));
      assert Opposite(loc, 2) == Coord(y + 1, x - 1) && Vertical(loc, 2) == Coord(y + 1, x) && Horizontal(loc, 2) == Coord(y, x - 1);
      ghost var s3 := State();
      AvoidStep(s0, s2, s3, loc, 2);
      AvoidCluster(Coord(y + 1, x + 1), Coord(y + 1, x), Coord(y, x + 1));
      assert Opposite(loc, 3) == Coord(y + 1, x + 1) && Vertical(loc, 3) == Coord(y + 1, x) && Horizontal(loc, 3) == Coord(y, x + 1);
      AvoidStep(s0, s3, State(), loc, 3);
    }

    /**
     * `avoid_cluster`: `loc1` is the corner opposite the black cell and
     * `loc2`, `loc3` its sides; whenever two of the three are black the
     * third is decided white. Afterwards the three are not all black.
     */
    method AvoidCluster(loc1: Coord, loc2: Coord, loc3: Coord)
      requires Valid()
      modifies this
      decreases Undecideds(), 1
      ensures Valid() && Progress(old(State()), State())
      ensures inconsistent || !(BlackIn(cell, checkingRegion, loc1) && BlackIn(cell, checkingRegion, loc2) && BlackIn(cell, checkingRegion, loc3))
    {
      ghost var s0 := State();
      if CellChecked(cell, loc1) == Black {
        if CellChecked(cell, loc2) == Black {
          Decide(loc3, White);
        }
        ghost var s1 := State();
        if CellChecked(cell, loc3) == Black {
          Decide(loc2, White);
          ProgressTrans(s0, s1, State());
        }
      } else {
        if CellChecked(cell, loc2) == Black && CellChecked(cell, loc3) == Black {
          Decide(loc1, White);
        }
      }
    }

    /** `inspect` on the nine cells around `loc`, row by row. */
    method InspectAround(loc: Coord)
      requires Valid()
      modifies this
      decreases Undecideds(), 3
      ensures Valid() && Progress(old(State()), State())
    {
      ghost var s0 := State();
      for dy := -1 to 2
        invariant Valid() && Progress(s0, State())
      {
        for dx := -1 to 2
          invariant Valid() && Progress(s0, State())
        {
          ghost var s1 := State();
          Inspect(Coord(loc.y + dy, loc.x + dx));
          ProgressTrans(s0, s1, State());
        }
      }
    }

    /**
     * `inspect`: for a clue cell, the dictionary entry of its eight
     * neighbours; an inconsistent entry makes the field inconsistent,
     * otherwise every neighbour the entry decides is decided so.
     */
    method Inspect(loc: Coord)
      requires Valid()
      modifies this
      decreases Undecideds(), 2
      ensures Valid() && Progress(old(State()), State())
      ensures ClueOf(old(State()), loc) == NoClue ==> State() == old(State())
      ensures ClueOf(old(State()), loc) != NoClue && InspectEntry(old(State()), loc) == Inconsistent ==> inconsistent
      ensures ClueOf(old(State()), loc) != NoClue && InspectEntry(old(State()), loc) != Inconsistent ==>
        inconsistent || Applied(cell, checkingRegion, loc, InspectEntry(old(State()), loc), NeighborSize)
    {
      if !cell.IsValidCoord(loc) {
        return;
      }
      var c := clue.Get(loc);
      assert ClueOf(State(), loc) == c;
      if c != NoClue {
        var code := NeighborCode(loc);
        DecodeEncode(NeighborCells(cell, loc));
        var e := NeighborPatternRaw(dic, c, code);
        assert e == InspectEntry(State(), loc);
        if e == Inconsistent {
          inconsistent := true;
          return;
        }
        ApplyDecisions(loc, e);
      }
    }

    /** The base-3 code `inspect` builds of the neighbours, cell `i` as digit `i`. */
    method NeighborCode(loc: Coord) returns (code: nat)
      requires cell.Valid()
      ensures code == Encode(NeighborCells(cell, loc)) && code < PatternCount
    {
      ghost var pat := NeighborCells(cell, loc);
      code := 0;
      var pow := 1;
      for i := 0 to NeighborSize
        invariant code == Encode(pat[..i]) && pow == Pow3(i)
      {
        var d := match CellChecked(cell, Around(loc, i))
          case Undecided => 0
          case Black => 1
          case White => 2;
        assert d == Digit(pat[i]);
        EncodeSnoc(pat[..i], pat[i]);
        assert pat[..i + 1] == pat[..i] + [pat[i]];
        code := code + pow * d;
        pow := pow * 3;
      }
      assert pat[..NeighborSize] == pat;
      EncodeBound(pat);
      PatternCountPow();
    }

    /** The decision loop of `inspect`: neighbour `i` gets the entry's two-bit code `i`. */
    method ApplyDecisions(loc: Coord, e: bv32)
      requires Valid()
      modifies this
      decreases Undecideds(), 1
      ensures Valid() && Progress(old(State()), State())
      ensures inconsistent || Applied(cell, checkingRegion, loc, e, NeighborSize)
    {
      ghost var s0 := State();
      for i := 0 to NeighborSize
        invariant Valid() && Progress(s0, State())
        invariant inconsistent || Applied(cell, checkingRegion, loc, e, i)
      {
        var v := (e >> Pos(i)) & 3;
        var cd := Around(loc, i);
        ghost var s1 := State();
        if v == 1 {
          Decide(cd, Black);
        } else if v == 2 {
          Decide(cd, White);
        }
        ApplyStep(s0, s1, State(), loc, e, i);
      }
    }
  

    /** `set_inconsistent`. */
    method SetInconsistent()
      requires Valid()
      modifies this
      ensures Valid() && State() == old(State()).(inconsistent := true)
    {
      inconsistent := true;
    }

    /**
     * A connectivity pass: a conflict makes the field inconsistent;
     * otherwise each decision is made on a cell that is still undecided.
     */
    method ApplyPass(p: Pass)
      requires Valid()
      modifies this
      ensures Valid() && Progress(old(State()), State())
      ensures p.conflict ==> inconsistent
      ensures inconsistent || Done(State(), p.decisions)
    {
      if p.conflict {
        inconsistent := true;
        return;
      }
      ghost var s0 := State();
      for k := 0 to |p.decisions|
        invariant Valid() && Progress(s0, State())
        invariant inconsistent || Done(State(), p.decisions[..k])
      {
        var (cd, v) := p.decisions[k];
        ghost var s1 := State();
        if CellChecked(cell, cd) == Undecided {
          Decide(cd, v);
        }
        ProgressTrans(s0, s1, State());
        DoneStep(s1, State(), p.decisions, k);
      }
      assert p.decisions[..|p.decisions|] == p.decisions;
    }

    /**
     * `solve`: the two connectivity passes, again and again, until the
     * field is inconsistent or a round decides no cell; then neither pass
     * has anything left to decide.
     */
    method Solve(separate: (Grid<Cell>, int) -> seq<int>, advanced: FieldState -> Pass)
      requires Valid()
      modifies this
      ensures Valid() && Progress(old(State()), State())
      ensures !inconsistent ==> Stable(State(), separate, advanced)
    {
      ghost var s0 := State();
      while !inconsistent
        invariant Valid() && Progress(s0, State())
        decreases Undecideds()
      {
        var before := decidedCells;
        ghost var s1 := State();
        ApplyPass(ConnectivityPass(cell, separate));
        ghost var s2 := State();
        ApplyPass(advanced(State()));
        ProgressTrans(s1, s2, State());
        ProgressTrans(s0, s1, State());
        if decidedCells == before {
          SameCount(s1, s2);
          SameCount(s2, State());
          return;
        }
      }
    }

    /**
     * `trial_and_error`: `solve`, then for every undecided cell a trial
     * copy limited to the 5x5 square around it; a cell whose black trial
     * turns inconsistent is decided white, one whose white trial does is
     * decided black. Rounds repeat while one of them decided something.
     */
    method TrialAndError(separate: (Grid<Cell>, int) -> seq<int>, advanced: FieldState -> Pass)
      requires Valid() && checkingRegion == None
      modifies this
      ensures Valid() && Progress(old(State()), State())
      ensures !inconsistent ==> Stable(State(), separate, advanced)
    {
      ghost var s0 := State();
      var updated := true;
      while updated
        invariant Valid() && Progress(s0, State()) && checkingRegion == None
        invariant !updated ==> inconsistent || Stable(State(), separate, advanced)
        decreases Measure(State()), updated
      {
        ghost var s1 := State();
        Solve(separate, advanced);
        ProgressTrans(s0, s1, State());
        if inconsistent {
          break;
        }
        ghost var s2 := State();
        updated := TrialRound(separate, advanced);
        ProgressTrans(s0, s2, State());
        MeasureDrops(s1, s2, State(), updated);
      }
    }

    /** One scan of `trial_and_error` over every row. */
    method TrialRound(separate: (Grid<Cell>, int) -> seq<int>, advanced: FieldState -> Pass) returns (updated: bool)
      requires Valid() && checkingRegion == None
      modifies this
      ensures Valid() && Progress(old(State()), State()) && checkingRegion == None
      ensures updated ==> Undecideds() < old(Undecideds()) || inconsistent
      ensures !updated ==> State() == old(State())
    {
      ghost var s2 := State();
      var height := cell.height;
      updated := false;
      for y := 0 to height
        invariant Valid() && Progress(s2, State()) && checkingRegion == None && cell.height == height
        invariant updated ==> CountOf(cell.data, Undecided) < CountOf(s2.cell.data, Undecided) || inconsistent
        invariant !updated ==> State() == s2
      {
        ghost var s3 := State();
        var u := TrialRow(y, separate, advanced);
        ProgressTrans(s2, s3, State());
        updated := updated || u;
      }
    }

    /** One row of `trial_and_error`'s scan; an inconsistent field ends the row. */
    method TrialRow(y: int, separate: (Grid<Cell>, int) -> seq<int>, advanced: FieldState -> Pass) returns (updated: bool)
      requires Valid() && checkingRegion == None && 0 <= y < cell.height
      modifies this
      ensures Valid() && Progress(old(State()), State()) && checkingRegion == None
      ensures updated ==> Undecideds() < old(Undecideds()) || inconsistent
      ensures !updated ==> State() == old(State())
    {
      ghost var s0 := State();
      var width := cell.width;
      updated := false;
      for x := 0 to width
        invariant Valid() && Progress(s0, State()) && checkingRegion == None && cell.width == width && cell.height == s0.cell.height
        invariant updated ==> Undecideds() < CountOf(s0.cell.data, Undecided) || inconsistent
        invariant !updated ==> State() == s0
      {
        ghost var s1 := State();
        var u := TrialCell(Coord(y, x), separate, advanced);
        ProgressTrans(s0, s1, State());
        updated := updated || u;
        if inconsistent {
          break;
        }
      }
    }

    /** `trial_and_error` on one cell. */
    method TrialCell(cd: Coord, separate: (Grid<Cell>, int) -> seq<int>, advanced: FieldState -> Pass) returns (updated: bool)
      requires Valid() && checkingRegion == None && cell.IsValidCoord(cd)
      modifies this
      ensures Valid() && Progress(old(State()), State()) && checkingRegion == None
      ensures updated ==> Undecideds() < old(Undecideds()) || inconsistent
      ensures !updated ==> State() == old(State())
    {
      updated := false;
      if cell.Get(cd) == Undecided {
        ghost var s0 := State();
        var blackFails := TrialStep(cd, Black, White, separate, advanced);
        ghost var s1 := State();
        var whiteFails := TrialStep(cd, White, Black, separate, advanced);
        ProgressTrans(s0, s1, State());
        updated := blackFails || whiteFails;
        if updated {
          if blackFails && !inconsistent {
            Keeps(s1, State(), cd);
          }
          Decreased(s0, State(), cd);
        }
      } else {
        ProgressRefl(State());
      }
    }

    /**
     * Half of `trial_and_error` on one cell: when the trial with `v` turns
     * inconsistent, the cell is decided `w` and the field solved.
     */
    method TrialStep(cd: Coord, v: Cell, w: Cell, separate: (Grid<Cell>, int) -> seq<int>, advanced: FieldState -> Pass)
      returns (fails: bool)
      requires Valid() && checkingRegion == None && cell.IsValidCoord(cd) && w != Undecided
      modifies this
      ensures Valid() && Progress(old(State()), State()) && checkingRegion == None
      ensures fails ==> inconsistent || CellChecked(cell, cd) != Undecided
      ensures !fails ==> State() == old(State())
    {
      fails := Trial(cd, v, separate, advanced);
      if fails {
        ghost var s0 := State();
        Decide(cd, w);
        ghost var s1 := State();
        Solve(separate, advanced);
        ProgressTrans(s0, s1, State());
        if !inconsistent {
          Keeps(s1, State(), cd);
        }
      } else {
        ProgressRefl(State());
      }
    }

    /**
     * One trial: a copy limited to the 5x5 square around `cd` decides it
     * `v` and solves; the result is whether the copy became inconsistent.
     * The field itself is left as it is.
     */
    method Trial(cd: Coord, v: Cell, separate: (Grid<Cell>, int) -> seq<int>, advanced: FieldState -> Pass) returns (fails: bool)
      requires Valid()
      ensures fails ==> exists t: FieldState :: Progress(State().(region := TrialRegion(cd)), t) && t.inconsistent
    {
      var trial := CloneWith(Some((Coord(cd.y - 2, cd.x - 2), Coord(cd.y + 3, cd.x + 3))));
      ghost var t0 := trial.State();
      trial.Decide(cd, v);
      ghost var t1 := trial.State();
      trial.Solve(separate, advanced);
      ProgressTrans(t0, t1, trial.State());
      fails := trial.inconsistent;
    }

    /** A copy of the field with the given checking region. */
    method CloneWith(region: Option<(Coord, Coord)>) returns (f: Field)
      requires Valid()
      ensures fresh(f) && f.Valid() && f.dic == dic && f.State() == State().(region := region)
    {
      f := new Field.Copy(this, region);
    }

    /** `clone`, then `checking_region` set. */
    constructor Copy(other: Field, region: Option<(Coord, Coord)>)
      requires other.Valid()
      ensures Valid() && dic == other.dic && State() == other.State().(region := region)
    {
      cell := other.cell;
      clue := other.clue;
      inconsistent := other.inconsistent;
      decidedCells := other.decidedCells;
      dic := other.dic;
      checkingRegion := region;
    }
  }

  /** The square a trial around `cd` may decide: rows and columns from two before to two after. */
  function TrialRegion(cd: Coord): Option<(Coord, Coord)> {
    Some((Coord(cd.y - 2, cd.x - 2), Coord(cd.y + 3, cd.x + 3)))
  }

  /** What a round of `trial_and_error` brings down: the undecided cells, then the flag. */
  ghost function Measure(s: FieldState): nat {
    CountOf(s.cell.data, Undecided) + (if s.inconsistent then 0 else 1)
  }

  /** A round that solves, stays consistent and then decides a cell or fails brings the measure down. */
  lemma MeasureDrops(s1: FieldState, s2: FieldState, s3: FieldState, updated: bool)
    requires Progress(s1, s2) && !s2.inconsistent && Progress(s2, s3)
    requires updated ==> CountOf(s3.cell.data, Undecided) < CountOf(s2.cell.data, Undecided) || s3.inconsistent
    ensures Measure(s3) <= Measure(s1)
    ensures updated ==> Measure(s3) < Measure(s1)
  {
  }

  /** Deciding a cell takes it off the undecided count. */
  lemma Decreased(s0: FieldState, s1: FieldState, cd: Coord)
    requires Grows(s0, s1) && s0.cell.IsValidCoord(cd) && s0.cell.Get(cd) == Undecided
    requires s1.inconsistent || CellChecked(s1.cell, cd) != Undecided
    ensures s1.inconsistent || CountOf(s1.cell.data, Undecided) < CountOf(s0.cell.data, Undecided)
  {
    if !s1.inconsistent && CountOf(s1.cell.data, Undecided) == CountOf(s0.cell.data, Undecided) {
      SameCount(s0, s1);
    }
  }

  /** A decision made, or found made, joins the decisions done. */
  lemma DoneStep(s1: FieldState, s2: FieldState, ds: seq<(Coord, Cell)>, k: nat)
    requires k < |ds| && Grows(s1, s2)
    requires s1.inconsistent || Done(s1, ds[..k])
    requires ds[k].1 != Undecided && InRegion(s2.region, ds[k].0) && CellChecked(s1.cell, ds[k].0) == Undecided ==>
      s2.inconsistent || CellChecked(s2.cell, ds[k].0) == ds[k].1
    ensures s2.inconsistent || Done(s2, ds[..k + 1])
  {
    if !s2.inconsistent {
      forall j | 0 <= j < k + 1 && ds[j].1 != Undecided && InRegion(s2.region, ds[j].0)
        ensures CellChecked(s2.cell, ds[j].0) != Undecided
      {
        if j < k {
          assert ds[..k][j] == ds[j];
          Keeps(s1, s2, ds[j].0);
        } else if CellChecked(s1.cell, ds[k].0) != Undecided {
          Keeps(s1, s2, ds[k].0);
        }
      }
    }
  }
}
