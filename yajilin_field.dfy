/**
 * src/yajilin/field.rs: the Yajilin board over the loop engine. Cells of
 * the board are the vertices of the engine's lattice; every cell is
 * undecided, on the loop (`Line`), shaded (`Blocked`) or a clue. The field
 * keeps, besides the cells, two tables of adjacent pairs of which at least
 * one cell is known to be shaded (`blocked_either_down`, `_right`).
 *
 * Modelled here: `new`, `get_cell_safe`, `set_cell_internal` with its
 * `_unless_clue` wrapper, `set_blocked_either`, `inspect_clue` and the
 * path-compressing `UnionFind` of the in/out rule.
 */
module YajilinField {
  import opened Common
  import opened YajilinBase
  import E = GridLoop
  import GridLoopChains
  import GridLoopEngine
  import NumberlinkAnswer
  import NumberlinkGeneratorField

  /** The flag of the solver's `Technique` that `inspect_clue` reads. */
  datatype Technique = Technique(skipThreeFromBlockedEither: bool)

  /** `FOUR_NEIGHBORS`: up, left, down, right. */
  const FourNeighbors: seq<Dir> := [Dir(-1, 0), Dir(0, -1), Dir(1, 0), Dir(0, 1)]

  /** Two cells side by side. */
  predicate Adjacent(a: Coord, b: Coord) {
    (a.y == b.y && (a.x - b.x == 1 || b.x - a.x == 1)) || (a.x == b.x && (a.y - b.y == 1 || b.y - a.y == 1))
  }

  lemma FourNeighborsAdjacent(c: Coord, k: int)
    requires 0 <= k < 4
    ensures Adjacent(CoordAdd(c, FourNeighbors[k]), c)
  {
  }

  /** `get_or_default`: the entry at `cd`, or `d` off the grid. */
  function GetOr<T>(g: Grid<T>, cd: Coord, d: T): (r: T)
    requires g.Valid()
    ensures g.IsValidCoord(cd) ==> r == g.Get(cd)
    ensures !g.IsValidCoord(cd) ==> r == d
  {
    if g.IsValidCoord(cd) then g.Get(cd) else d
  }

  /** The lattice position of the edge from cell `c` in direction `d`. */
  function EdgeFrom(c: Coord, d: Dir): Coord {
    Coord(2 * c.y + d.y, 2 * c.x + d.x)
  }

  /** An edge position: its row and column differ in parity. */
  lemma EdgeParity(c: Coord, k: int)
    requires 0 <= k < 4
    ensures EdgeFrom(c, FourNeighbors[k]).y % 2 != EdgeFrom(c, FourNeighbors[k]).x % 2
  {
    var d := FourNeighbors[k];
    if d.y == 0 {
      assert (2 * c.y) % 2 == 0 && (2 * c.x + d.x) % 2 == 1;
    } else {
      assert (2 * c.x) % 2 == 0 && (2 * c.y + d.y) % 2 == 1;
    }
  }

  /** The edge at lattice position `p` is blank: off the lattice, or decided blank. */
  ghost predicate BlankAt(items: seq<GridLoopChains.Item>, rows: nat, cols: nat, p: Coord)
    requires |items| == rows * cols
  {
    0 <= p.y < rows && 0 <= p.x < cols ==> items[GridLoopEngine.Id(rows, cols, p.y, p.x)].status == E.Blank
  }

  /** A blank edge stays blank while the lattice only gets decided further. */
  lemma BlankStays(a: seq<GridLoopChains.Item>, b: seq<GridLoopChains.Item>, rows: nat, cols: nat, p: Coord)
    requires |a| == rows * cols && GridLoopChains.Extends(a, b) && BlankAt(a, rows, cols, p)
    ensures BlankAt(b, rows, cols, p)
  {
  }

  /** The edge from cell `c` in direction `k` is blank, or the engine is inconsistent (`inc`). */
  ghost predicate ClosedIn(items: seq<GridLoopChains.Item>, rows: nat, cols: nat, inc: bool, c: Coord, k: int)
    requires |items| == rows * cols && 0 <= k < 4
  {
    inc || BlankAt(items, rows, cols, EdgeFrom(c, FourNeighbors[k]))
  }

  /** The cell `n` is off the board, a clue or on the loop, or the engine is inconsistent (`inc`). */
  ghost predicate LinedIn(cells: Grid<Cell>, inc: bool, n: Coord)
    requires cells.Valid()
  {
    inc || !cells.IsValidCoord(n) || cells.Get(n) == ClueCell || cells.Get(n) == Line
  }

  /** What is closed and lined around `cd` in the first `k` directions stays so while the board only gets decided further. */
  lemma AroundKept(c0: Grid<Cell>, c1: Grid<Cell>, t0: seq<GridLoopChains.Item>, t1: seq<GridLoopChains.Item>,
                   rows: nat, cols: nat, inc0: bool, inc1: bool, cd: Coord, k: int)
    requires CellsGrow(c0, c1) && |t0| == rows * cols && GridLoopChains.Extends(t0, t1) && (inc0 ==> inc1) && 0 <= k <= 4
    requires forall j :: 0 <= j < k ==> ClosedIn(t0, rows, cols, inc0, cd, j) && LinedIn(c0, inc0, CoordAdd(cd, FourNeighbors[j]))
    ensures forall j :: 0 <= j < k ==> ClosedIn(t1, rows, cols, inc1, cd, j) && LinedIn(c1, inc1, CoordAdd(cd, FourNeighbors[j]))
  {
    forall j | 0 <= j < k
      ensures ClosedIn(t1, rows, cols, inc1, cd, j)
    {
      if !inc1 {
        BlankStays(t0, t1, rows, cols, EdgeFrom(cd, FourNeighbors[j]));
      }
    }
  }

  /** `b` keeps every decided cell of `a`. */
  ghost predicate CellsGrow(a: Grid<Cell>, b: Grid<Cell>) {
    && a.Valid() && b.Valid() && b.height == a.height && b.width == a.width
    && forall c :: a.IsValidCoord(c) && a.Get(c) != Undecided ==> b.Get(c) == a.Get(c)
  }

  lemma CellsGrowTrans(a: Grid<Cell>, b: Grid<Cell>, c: Grid<Cell>)
    requires CellsGrow(a, b) && CellsGrow(b, c)
    ensures CellsGrow(a, c)
  {
  }

  /** `b` differs from `a` only at `cd`, or also next to it when `near` holds. */
  ghost predicate ChangedOnly(a: Grid<Cell>, b: Grid<Cell>, cd: Coord, near: bool)
    requires a.Valid() && b.Valid() && b.height == a.height && b.width == a.width
  {
    forall c :: a.IsValidCoord(c) && b.Get(c) != a.Get(c) ==> c == cd || (near && Adjacent(c, cd))
  }

  /**
   * The union-find of `apply_inout_rule_advanced`: a root holds minus the
   * size of its set, any other entry its parent. The ghost `root` and
   * `depth` name each entry's root and its distance from it.
   */
  class UnionFind {
    var parent: seq<int>
    ghost var root: seq<nat>
    ghost var depth: seq<nat>

    ghost predicate Valid()
      reads this
    {
      NumberlinkAnswer.UnionFind(parent, root, depth)
    }

    /** `new`: `size` singleton sets. */
    constructor (size: nat)
      ensures Valid() && |parent| == size
      ensures forall i :: 0 <= i < size ==> parent[i] == -1 && root[i] == i
    {
      parent := seq(size, _ => -1);
      root := seq(size, i => i);
      depth := seq(size, _ => 0);
      NumberlinkAnswer.SingletonSets(size);
    }

    /** `root`: the representative of `i`, with `i`'s path pointed straight at it; no set changes. */
    method Root(i: nat) returns (r: nat)
      requires Valid() && i < |parent|
      modifies this`parent
      ensures Valid() && |parent| == old(|parent|)
      ensures r == root[i] && r < |parent| && parent[r] < 0
      ensures forall j :: 0 <= j < |parent| && old(parent[j]) < 0 ==> parent[j] == old(parent[j])
      decreases depth[i]
    {
      if parent[i] < 0 {
        r := i;
      } else {
        NumberlinkAnswer.ParentStep(parent, root, depth, i);
        var p := parent[i];
        r := Root(p);
        NumberlinkAnswer.Compress(parent, root, depth, i);
        parent := parent[i := r];
      }
    }

    /**
     * `join`: false when `u` and `v` already share a set; otherwise `v`'s
     * root is hung under `u`'s, the two sets become one and no other set
     * changes.
     */
    method Join(u: nat, v: nat) returns (joined: bool)
      requires Valid() && u < |parent| && v < |parent|
      modifies this
      ensures Valid() && |parent| == old(|parent|) && |root| == old(|root|)
      ensures joined <==> old(root[u] != root[v])
      ensures root[u] == root[v] && NumberlinkAnswer.MergedSets(old(root), root, u, v)
      ensures joined ==> root[u] == old(root[u])
    {
      var ru := Root(u);
      var rv := Root(v);
      if ru == rv {
        NumberlinkAnswer.MergedSame(root, u, v);
        return false;
      }
      var par' := parent[ru := parent[ru] + parent[rv]][rv := ru];
      ghost var root', depth' := NumberlinkAnswer.Relinked(root, ru, rv), NumberlinkAnswer.Deepened(root, depth, rv);
      NumberlinkGeneratorField.Joined(parent, root, depth, u, v, ru, rv, par', root', depth');
      NumberlinkAnswer.RelinkedSets(root, ru, rv, u, v);
      parent, root, depth := par', root', depth';
      return true;
    }
  }

  /** The board: its clues, its cells and the loop engine over its lattice. */
  class Field {
    const height: int
    const width: int
    const gridLoop: GridLoopEngine.GridLoop
    const clue: Grid<Clue>
    var cell: Grid<Cell>
    /** `(y, x)` set: at least one of `(y, x)` and `(y + 1, x)` is shaded. */
    var blockedEitherDown: Grid<bool>
    /** `(y, x)` set: at least one of `(y, x)` and `(y, x + 1)` is shaded. */
    var blockedEitherRight: Grid<bool>
    var technique: Technique

    /** The cells are the vertices of the engine's lattice of `2h - 1` by `2w - 1` positions. */
    ghost predicate Valid()
      reads this, gridLoop, gridLoop.queue
    {
      && height >= 2 && width >= 2
      && clue.Valid() && clue.height == height && clue.width == width
      && cell.Valid() && cell.height == height && cell.width == width
      && blockedEitherDown.Valid() && blockedEitherDown.height == height - 1 && blockedEitherDown.width == width
      && blockedEitherRight.Valid() && blockedEitherRight.height == height && blockedEitherRight.width == width - 1
      && gridLoop.Valid() && gridLoop.rows == 2 * height - 1 && gridLoop.cols == 2 * width - 1
    }

    predicate IsCell(c: Coord) {
      0 <= c.y < height && 0 <= c.x < width
    }

    /** The edge from cell `c` in direction `k` is blank, or the engine is inconsistent. */
    ghost predicate Closed(c: Coord, k: int)
      reads this, gridLoop, gridLoop.queue
      requires Valid() && 0 <= k < 4
    {
      ClosedIn(gridLoop.items, gridLoop.rows, gridLoop.cols, gridLoop.inconsistent, c, k)
    }

    /**
     * `new`: every clue cell becomes `Clue` and its four edges are decided
     * blank, under one handle of the engine; every other cell is undecided
     * and no pair is known to hold a shaded cell.
     */
    constructor (clue: Grid<Clue>, technique: Technique)
      requires clue.Valid() && clue.height >= 2 && clue.width >= 2
      ensures Valid() && fresh(gridLoop) && fresh(gridLoop.queue) && !gridLoop.queue.isStarted
      ensures this.clue == clue && this.technique == technique
      ensures forall c :: IsCell(c) ==> cell.Get(c) == if clue.Get(c) != NoClue then ClueCell else Undecided
      ensures forall c, k :: IsCell(c) && 0 <= k < 4 && clue.Get(c) != NoClue ==> Closed(c, k)
      ensures forall c :: blockedEitherDown.IsValidCoord(c) ==> !blockedEitherDown.Get(c)
      ensures forall c :: blockedEitherRight.IsValidCoord(c) ==> !blockedEitherRight.Get(c)
    {
      var h, w := clue.height, clue.width;
      var gl, cells := MarkClues(clue);
      height, width := h, w;
      gridLoop := gl;
      this.clue := clue;
      cell := cells;
      blockedEitherDown := NewGrid(h - 1, w, false);
      blockedEitherRight := NewGrid(h, w - 1, false);
      this.technique := technique;
      new;
      AllFalse(blockedEitherDown);
      AllFalse(blockedEitherRight);
    }

    /** `get_cell_safe`: the cell at `cd`, with positions off the board reading as a clue. */
    function GetCellSafe(cd: Coord): (r: Cell)
      reads this
      requires cell.Valid()
      ensures cell.IsValidCoord(cd) ==> r == cell.Get(cd)
      ensures !cell.IsValidCoord(cd) ==> r == ClueCell
    {
      if cell.IsValidCoord(cd) then cell.Get(cd) else ClueCell
    }

    /** The cell `n` is off the board, a clue or on the loop, or the engine is inconsistent. */
    ghost predicate Lined(n: Coord)
      reads this, gridLoop
      requires cell.Valid()
    {
      LinedIn(cell, gridLoop.inconsistent, n)
    }

    /**
     * `set_cell_internal`: a decided cell is left alone, and setting it to
     * another value is an inconsistency. An undecided cell takes `v`; a
     * cell on the loop is queued for the engine, and a shaded cell puts
     * every non-clue neighbour on the loop and closes its four edges.
     */
    method SetCellInternal(cd: Coord, v: Cell)
      requires Valid() && IsCell(cd)
      modifies this`cell, gridLoop, gridLoop.queue
      decreases if v == Blocked then 2 else 0, 0
      ensures Valid() && gridLoop.queue.isStarted == old(gridLoop.queue.isStarted)
      ensures GridLoopChains.Extends(old(gridLoop.items), gridLoop.items) && (old(gridLoop.inconsistent) ==> gridLoop.inconsistent)
      ensures CellsGrow(old(cell), cell) && ChangedOnly(old(cell), cell, cd, v == Blocked)
      ensures old(cell.Get(cd)) != Undecided ==>
                && cell == old(cell) && gridLoop.items == old(gridLoop.items)
                && gridLoop.inconsistent == (old(gridLoop.inconsistent) || old(cell.Get(cd)) != v)
      ensures old(cell.Get(cd)) == Undecided ==> cell.Get(cd) == v
      ensures old(cell.Get(cd)) == Undecided && v == Blocked ==>
                forall k :: 0 <= k < 4 ==> Closed(cd, k) && Lined(CoordAdd(cd, FourNeighbors[k]))
    {
      var current := cell.Get(cd);
      if current != Undecided {
        if current != v {
          gridLoop.SetInconsistent();
        }
        return;
      }
      forall c | cell.IsValidCoord(c)
        ensures cell.Set(cd, v).Get(c) == if c == cd then v else cell.Get(c)
      {
        GetSet(cell, cd, v, c);
      }
      cell := cell.Set(cd, v);
      match v
      case Undecided =>
      case ClueCell =>
      case Line =>
        gridLoop.Check(2 * cd.y, 2 * cd.x);
      case Blocked =>
        ghost var c0 := cell;
        BlockAround(cd);
        CellsGrowTrans(old(cell), c0, cell);
    }

    /** The `Blocked` arm of `set_cell_internal`, neighbour by neighbour. */
    method BlockAround(cd: Coord)
      requires Valid() && IsCell(cd)
      modifies this`cell, gridLoop, gridLoop.queue
      decreases 1, 1
      ensures Valid() && gridLoop.queue.isStarted == old(gridLoop.queue.isStarted)
      ensures GridLoopChains.Extends(old(gridLoop.items), gridLoop.items) && (old(gridLoop.inconsistent) ==> gridLoop.inconsistent)
      ensures CellsGrow(old(cell), cell) && ChangedOnly(old(cell), cell, cd, true)
      ensures forall k :: 0 <= k < 4 ==> Closed(cd, k) && Lined(CoordAdd(cd, FourNeighbors[k]))
    {
      for k := 0 to 4
        invariant Valid() && gridLoop.queue.isStarted == old(gridLoop.queue.isStarted)
        invariant GridLoopChains.Extends(old(gridLoop.items), gridLoop.items) && (old(gridLoop.inconsistent) ==> gridLoop.inconsistent)
        invariant CellsGrow(old(cell), cell) && ChangedOnly(old(cell), cell, cd, true)
        invariant forall j :: 0 <= j < k ==>
          ClosedIn(gridLoop.items, gridLoop.rows, gridLoop.cols, gridLoop.inconsistent, cd, j)
          && LinedIn(cell, gridLoop.inconsistent, CoordAdd(cd, FourNeighbors[j]))
      {
        ghost var c0, t0, i0 := cell, gridLoop.items, gridLoop.inconsistent;
        BlockStep(cd, k);
        AroundKept(c0, cell, t0, gridLoop.items, gridLoop.rows, gridLoop.cols, i0, gridLoop.inconsistent, cd, k);
        CellsGrowTrans(old(cell), c0, cell);
      }
    }

    /** One neighbour of a shaded cell: put on the loop unless it is a clue, and the edge to it closed. */
    method BlockStep(cd: Coord, k: int)
      requires Valid() && IsCell(cd) && 0 <= k < 4
      modifies this`cell, gridLoop, gridLoop.queue
      decreases 1, 0
      ensures Valid() && gridLoop.queue.isStarted == old(gridLoop.queue.isStarted)
      ensures GridLoopChains.Extends(old(gridLoop.items), gridLoop.items) && (old(gridLoop.inconsistent) ==> gridLoop.inconsistent)
      ensures CellsGrow(old(cell), cell) && ChangedOnly(old(cell), cell, cd, true)
      ensures Closed(cd, k) && Lined(CoordAdd(cd, FourNeighbors[k]))
    {
      LineNeighbour(cd, k);
      CloseEdge(cd, k);
    }

    /** The neighbour of `cd` in direction `k` put on the loop, unless it is a clue or off the board. */
    method LineNeighbour(cd: Coord, k: int)
      requires Valid() && IsCell(cd) && 0 <= k < 4
      modifies this`cell, gridLoop, gridLoop.queue
      decreases 1, 0, 1
      ensures Valid() && gridLoop.queue.isStarted == old(gridLoop.queue.isStarted)
      ensures GridLoopChains.Extends(old(gridLoop.items), gridLoop.items) && (old(gridLoop.inconsistent) ==> gridLoop.inconsistent)
      ensures CellsGrow(old(cell), cell) && ChangedOnly(old(cell), cell, cd, true)
      ensures Lined(CoordAdd(cd, FourNeighbors[k]))
    {
      var n := CoordAdd(cd, FourNeighbors[k]);
      if GetCellSafe(n) != ClueCell {
        SetCellInternal(n, Line);
        FourNeighborsAdjacent(cd, k);
      }
    }

    /** The edge from `cd` in direction `k` decided blank. */
    method CloseEdge(cd: Coord, k: int)
      requires Valid() && IsCell(cd) && 0 <= k < 4
      modifies gridLoop, gridLoop.queue
      ensures Valid() && gridLoop.queue.isStarted == old(gridLoop.queue.isStarted)
      ensures GridLoopChains.Extends(old(gridLoop.items), gridLoop.items) && (old(gridLoop.inconsistent) ==> gridLoop.inconsistent)
      ensures Closed(cd, k)
    {
      var p := EdgeFrom(cd, FourNeighbors[k]);
      EdgeParity(cd, k);
      gridLoop.DecideEdge(p.y, p.x, E.Blank);
    }

    /** `set_cell_internal_unless_clue`: `set_cell_internal`, except at a clue or off the board. */
    method SetCellInternalUnlessClue(cd: Coord, v: Cell)
      requires Valid()
      modifies this`cell, gridLoop, gridLoop.queue
      ensures Valid() && gridLoop.queue.isStarted == old(gridLoop.queue.isStarted)
      ensures GridLoopChains.Extends(old(gridLoop.items), gridLoop.items) && (old(gridLoop.inconsistent) ==> gridLoop.inconsistent)
      ensures CellsGrow(old(cell), cell)
      ensures old(GetCellSafe(cd)) == ClueCell ==>
                cell == old(cell) && gridLoop.items == old(gridLoop.items) && gridLoop.inconsistent == old(gridLoop.inconsistent)
      ensures old(GetCellSafe(cd)) == Undecided ==> cell.Get(cd) == v
      ensures old(GetCellSafe(cd)) != ClueCell && old(GetCellSafe(cd)) != Undecided ==>
                cell == old(cell) && gridLoop.inconsistent == (old(gridLoop.inconsistent) || old(GetCellSafe(cd)) != v)
    {
      if GetCellSafe(cd) == ClueCell {
        return;
      }
      SetCellInternal(cd, v);
    }

    /**
     * `set_blocked_either`: records that one of two side-by-side cells is
     * shaded, in the entry of the upper or left one; nothing is recorded
     * when either is a clue. Cells that are not side by side make the
     * source panic.
     */
    method SetBlockedEither(cd1: Coord, cd2: Coord)
      requires Valid() && IsCell(cd1) && IsCell(cd2)
      requires cell.Get(cd1) == ClueCell || cell.Get(cd2) == ClueCell || Adjacent(cd1, cd2)
      modifies this`blockedEitherDown, this`blockedEitherRight
      ensures Valid()
      ensures TablesGrow(old(blockedEitherDown), old(blockedEitherRight), blockedEitherDown, blockedEitherRight)
      ensures cell.Get(cd1) == ClueCell || cell.Get(cd2) == ClueCell ==>
                blockedEitherDown == old(blockedEitherDown) && blockedEitherRight == old(blockedEitherRight)
      ensures cell.Get(cd1) != ClueCell && cell.Get(cd2) != ClueCell ==>
                && PairKnown(blockedEitherDown, blockedEitherRight, cd1, cd2)
                && PairKnown(blockedEitherDown, blockedEitherRight, cd2, cd1)
      ensures forall c :: blockedEitherRight.IsValidCoord(c) && blockedEitherRight.Get(c) != old(blockedEitherRight.Get(c)) ==>
                cd1.y == cd2.y && c == Coord(cd1.y, Min(cd1.x, cd2.x))
      ensures forall c :: blockedEitherDown.IsValidCoord(c) && blockedEitherDown.Get(c) != old(blockedEitherDown.Get(c)) ==>
                cd1.x == cd2.x && c == Coord(Min(cd1.y, cd2.y), cd1.x)
    {
      if cell.Get(cd1) == ClueCell || cell.Get(cd2) == ClueCell {
        return;
      }
      if cd1.y == cd2.y {
        var at := Coord(cd1.y, Min(cd1.x, cd2.x));
        forall c | blockedEitherRight.IsValidCoord(c)
          ensures blockedEitherRight.Set(at, true).Get(c) == if c == at then true else blockedEitherRight.Get(c)
        {
          GetSet(blockedEitherRight, at, true, c);
        }
        blockedEitherRight := blockedEitherRight.Set(at, true);
      } else {
        var at := Coord(Min(cd1.y, cd2.y), cd1.x);
        forall c | blockedEitherDown.IsValidCoord(c)
          ensures blockedEitherDown.Set(at, true).Get(c) == if c == at then true else blockedEitherDown.Get(c)
        {
          GetSet(blockedEitherDown, at, true, c);
        }
        blockedEitherDown := blockedEitherDown.Set(at, true);
      }
    }

    /**
     * `inspect_clue`: for an arrow clue, scan the cells it points at up to
     * the next clue of its shape; with no cell left and a number left over
     * the board is inconsistent. Otherwise fill the two tables of bounds and
     * use them, cell by cell, to shade, to put on the loop, or to record a
     * pair holding a shaded cell, stopping at the first inconsistency.
     */
    method InspectClue(cd: Coord) returns (ghost inv: int, ghost n: int, ghost dpl: seq<(int, int)>, ghost dpr: seq<(int, int)>)
      requires Valid() && IsCell(cd)
      modifies this`cell, this`blockedEitherDown, this`blockedEitherRight, gridLoop, gridLoop.queue
      ensures Valid() && gridLoop.queue.isStarted == old(gridLoop.queue.isStarted)
      ensures GridLoopChains.Extends(old(gridLoop.items), gridLoop.items) && (old(gridLoop.inconsistent) ==> gridLoop.inconsistent)
      ensures CellsGrow(old(cell), cell)
      ensures TablesGrow(old(blockedEitherDown), old(blockedEitherRight), blockedEitherDown, blockedEitherRight)
      ensures ArrowOf(clue.Get(cd)).None? ==>
                && cell == old(cell) && gridLoop.items == old(gridLoop.items) && gridLoop.inconsistent == old(gridLoop.inconsistent)
                && blockedEitherDown == old(blockedEitherDown) && blockedEitherRight == old(blockedEitherRight)
      ensures ArrowOf(clue.Get(cd)).Some? ==>
                var d := ArrowDir(ArrowOf(clue.Get(cd)).value);
                && Scanned(clue, cd, d, clue.Get(cd), inv, n)
                && (inv == 0 && n != 0 ==> gridLoop.inconsistent)
                && OnGridTo(old(cell), cd, d, inv) && |dpl| == inv + 1 && |dpr| == inv + 1
                && (forall k :: 0 <= k <= inv ==> dpl[k] == LeftDp(old(Looks()), cd, d, inv, k))
                && (forall k :: 0 <= k <= inv ==> dpr[k] == RightDp(old(Looks()), cd, d, inv, k))
                && (!gridLoop.inconsistent ==>
                      forall i :: 0 <= i < inv ==> Decided(cell, blockedEitherDown, blockedEitherRight, dpl, dpr, n, cd, d, inv, i))
    {
      inv, n, dpl, dpr := 0, 0, [], [];
      var cl := clue.Get(cd);
      if ArrowOf(cl).None? {
        return;
      }
      var d := ArrowDir(ArrowOf(cl).value);
      var involving, m := ScanClue(clue, cd, d, cl);
      inv, n := involving, m;
      assert OnGridTo(cell, cd, d, inv);
      if involving == 0 && m != 0 {
        dpl, dpr := [(0, 0)], [(0, 0)];
        gridLoop.SetInconsistent();
        return;
      }
      var lk := Looks();
      var left := FillLeft(lk, cd, d, involving);
      var right := FillRight(lk, cd, d, involving);
      dpl, dpr := left, right;
      ApplyBounds(cd, d, involving, m, left, right);
    }

    /** What `inspect_clue` reads: the cells, the two pair tables and the technique flag. */
    function Looks(): (lk: Look)
      reads this
      ensures lk.cell == cell && lk.down == blockedEitherDown && lk.right == blockedEitherRight
      ensures lk.skipEither == technique.skipThreeFromBlockedEither
    {
      Look(cell, blockedEitherDown, blockedEitherRight, technique.skipThreeFromBlockedEither)
    }

    /** The last loop of `inspect_clue`, index by index, up to the first inconsistency. */
    method ApplyBounds(cd: Coord, d: Dir, inv: int, n: int, dpl: seq<(int, int)>, dpr: seq<(int, int)>)
      requires Valid() && Unit(d) && OnGridTo(cell, cd, d, inv) && inv >= 0 && |dpl| == inv + 1 && |dpr| == inv + 1
      modifies this`cell, this`blockedEitherDown, this`blockedEitherRight, gridLoop, gridLoop.queue
      ensures Valid() && gridLoop.queue.isStarted == old(gridLoop.queue.isStarted)
      ensures GridLoopChains.Extends(old(gridLoop.items), gridLoop.items) && (old(gridLoop.inconsistent) ==> gridLoop.inconsistent)
      ensures CellsGrow(old(cell), cell)
      ensures TablesGrow(old(blockedEitherDown), old(blockedEitherRight), blockedEitherDown, blockedEitherRight)
      ensures !gridLoop.inconsistent ==>
                forall i :: 0 <= i < inv ==> Decided(cell, blockedEitherDown, blockedEitherRight, dpl, dpr, n, cd, d, inv, i)
    {
      for i := 0 to inv
        invariant Valid() && gridLoop.queue.isStarted == old(gridLoop.queue.isStarted)
        invariant GridLoopChains.Extends(old(gridLoop.items), gridLoop.items) && (old(gridLoop.inconsistent) ==> gridLoop.inconsistent)
        invariant CellsGrow(old(cell), cell) && OnGridTo(cell, cd, d, inv)
        invariant TablesGrow(old(blockedEitherDown), old(blockedEitherRight), blockedEitherDown, blockedEitherRight)
        invariant !gridLoop.inconsistent ==>
                    forall j :: 0 <= j < i ==> Decided(cell, blockedEitherDown, blockedEitherRight, dpl, dpr, n, cd, d, inv, j)
      {
        ghost var c0, d0, r0, inc0, t0 := cell, blockedEitherDown, blockedEitherRight, gridLoop.inconsistent, gridLoop.items;
        var stop := DecideAt(cd, d, inv, n, dpl, dpr, i);
        GridLoopChains.ExtendsTrans(old(gridLoop.items), t0, gridLoop.items);
        CellsGrowTrans(old(cell), c0, cell);
        TablesGrowTrans(old(blockedEitherDown), old(blockedEitherRight), d0, r0, blockedEitherDown, blockedEitherRight);
        if stop {
          return;
        }
        DecidedKept(c0, d0, r0, cell, blockedEitherDown, blockedEitherRight, dpl, dpr, n, cd, d, inv, i, inc0, gridLoop.inconsistent);
      }
    }

    /** One index of the last loop of `inspect_clue`; `stop` when it found the board inconsistent. */
    method DecideAt(cd: Coord, d: Dir, inv: int, n: int, dpl: seq<(int, int)>, dpr: seq<(int, int)>, i: int) returns (stop: bool)
      requires Valid() && Unit(d) && OnGridTo(cell, cd, d, inv) && 0 <= i < inv && |dpl| == inv + 1 && |dpr| == inv + 1
      modifies this`cell, this`blockedEitherDown, this`blockedEitherRight, gridLoop, gridLoop.queue
      ensures Valid() && gridLoop.queue.isStarted == old(gridLoop.queue.isStarted)
      ensures GridLoopChains.Extends(old(gridLoop.items), gridLoop.items) && (old(gridLoop.inconsistent) ==> gridLoop.inconsistent)
      ensures CellsGrow(old(cell), cell)
      ensures TablesGrow(old(blockedEitherDown), old(blockedEitherRight), blockedEitherDown, blockedEitherRight)
      ensures stop ==> gridLoop.inconsistent
      ensures !gridLoop.inconsistent ==> Decided(cell, blockedEitherDown, blockedEitherRight, dpl, dpr, n, cd, d, inv, i)
    {
      var at := Along(cd, d, i + 1);
      var (leftLo, leftHi) := dpl[i];
      var (rightLo, rightHi) := dpr[i + 1];
      ghost var c0, t0 := cell, gridLoop.items;
      stop := DecideHigh(at, leftHi + rightHi, n);
      if stop {
        return;
      }
      ghost var c1, t1 := cell, gridLoop.items;
      stop := DecideLow(at, leftLo + rightLo, n);
      CellsGrowTrans(c0, c1, cell);
      GridLoopChains.ExtendsTrans(t0, t1, gridLoop.items);
      if stop {
        return;
      }
      var pair := i != inv - 1 && leftHi + dpr[i + 2].1 == n - 1;
      var next := Along(cd, d, if pair then i + 2 else i + 1);
      AlongAdjacent(cd, d, i + 1);
      DecidePair(at, next, pair);
    }

    /** The upper bounds at one index: too few is inconsistent, one too few shades the cell. */
    method DecideHigh(at: Coord, hi: int, n: int) returns (stop: bool)
      requires Valid() && IsCell(at)
      modifies this`cell, gridLoop, gridLoop.queue
      ensures Valid() && gridLoop.queue.isStarted == old(gridLoop.queue.isStarted)
      ensures GridLoopChains.Extends(old(gridLoop.items), gridLoop.items) && (old(gridLoop.inconsistent) ==> gridLoop.inconsistent)
      ensures CellsGrow(old(cell), cell)
      ensures stop <==> hi < n - 1
      ensures stop ==> gridLoop.inconsistent
      ensures !gridLoop.inconsistent && hi == n - 1 ==> cell.Get(at) == Blocked
    {
      if hi < n - 1 {
        gridLoop.SetInconsistent();
        return true;
      } else if hi == n - 1 {
        SetCellInternal(at, Blocked);
      }
      return false;
    }

    /** The lower bounds at one index: too many is inconsistent, exactly enough puts a non-clue cell on the loop. */
    method DecideLow(at: Coord, lo: int, n: int) returns (stop: bool)
      requires Valid() && IsCell(at)
      modifies this`cell, gridLoop, gridLoop.queue
      ensures Valid() && gridLoop.queue.isStarted == old(gridLoop.queue.isStarted)
      ensures GridLoopChains.Extends(old(gridLoop.items), gridLoop.items) && (old(gridLoop.inconsistent) ==> gridLoop.inconsistent)
      ensures CellsGrow(old(cell), cell)
      ensures stop <==> lo > n
      ensures stop ==> gridLoop.inconsistent
      ensures !gridLoop.inconsistent && lo == n ==> cell.Get(at) == ClueCell || cell.Get(at) == Line
    {
      if lo > n {
        gridLoop.SetInconsistent();
        return true;
      } else if lo == n {
        if cell.Get(at) != ClueCell {
          SetCellInternal(at, Line);
        }
      }
      return false;
    }

    /** The pair test at one index: when it holds and neither cell is a clue, the pair is recorded. */
    method DecidePair(at: Coord, next: Coord, pair: bool)
      requires Valid() && IsCell(at) && IsCell(next) && (pair ==> Adjacent(at, next))
      modifies this`blockedEitherDown, this`blockedEitherRight
      ensures Valid()
      ensures TablesGrow(old(blockedEitherDown), old(blockedEitherRight), blockedEitherDown, blockedEitherRight)
      ensures pair ==> cell.Get(at) == ClueCell || cell.Get(next) == ClueCell || PairKnown(blockedEitherDown, blockedEitherRight, at, next)
    {
      if pair && cell.Get(at) != ClueCell && cell.Get(next) != ClueCell {
        SetBlockedEither(at, next);
      }
    }
  }

  /** Every entry of a fresh grid of `false` is `false`. */
  lemma AllFalse(g: Grid<bool>)
    requires g.Valid() && forall i :: 0 <= i < |g.data| ==> !g.data[i]
    ensures forall c :: g.IsValidCoord(c) ==> !g.Get(c)
  {
    forall c | g.IsValidCoord(c)
      ensures !g.Get(c)
    {
      g.IndexInRange(c);
    }
  }

  /**
   * The loops of `new` under one handle of a fresh engine: every clue cell
   * marked and its four edges decided blank; the queue is then drained and
   * stopped.
   */
  method MarkClues(clue: Grid<Clue>) returns (gl: GridLoopEngine.GridLoop, cells: Grid<Cell>)
    requires clue.Valid() && clue.height >= 2 && clue.width >= 2
    ensures fresh(gl) && fresh(gl.queue) && gl.Valid() && !gl.queue.isStarted
    ensures gl.rows == 2 * clue.height - 1 && gl.cols == 2 * clue.width - 1
    ensures cells.Valid() && cells.height == clue.height && cells.width == clue.width
    ensures forall c :: cells.IsValidCoord(c) ==> cells.Get(c) == if clue.Get(c) != NoClue then ClueCell else Undecided
    ensures forall c, k :: cells.IsValidCoord(c) && 0 <= k < 4 && clue.Get(c) != NoClue ==>
      gl.inconsistent || BlankAt(gl.items, gl.rows, gl.cols, EdgeFrom(c, FourNeighbors[k]))
  {
    var h, w := clue.height, clue.width;
    gl := new GridLoopEngine.GridLoop(h - 1, w - 1);
    cells := NewGrid(h, w, Undecided);
    forall c | cells.IsValidCoord(c)
      ensures cells.Get(c) == Undecided
    {
      cells.IndexInRange(c);
    }
    gl.queue.Start();
    for y := 0 to h
      invariant gl.Valid() && gl.queue.isStarted && gl.rows == 2 * h - 1 && gl.cols == 2 * w - 1
      invariant cells.Valid() && cells.height == h && cells.width == w
      invariant forall c :: cells.IsValidCoord(c) ==>
        cells.Get(c) == if c.y < y && clue.Get(c) != NoClue then ClueCell else Undecided
      invariant forall c, k :: cells.IsValidCoord(c) && c.y < y && 0 <= k < 4 && clue.Get(c) != NoClue ==>
        gl.inconsistent || BlankAt(gl.items, gl.rows, gl.cols, EdgeFrom(c, FourNeighbors[k]))
    {
      cells := MarkRow(gl, clue, cells, y);
    }
    ghost var t := gl.items;
    gl.QueuePopAll();
    gl.queue.Finish();
    forall c, k | cells.IsValidCoord(c) && 0 <= k < 4 && clue.Get(c) != NoClue && !gl.inconsistent
      ensures BlankAt(gl.items, gl.rows, gl.cols, EdgeFrom(c, FourNeighbors[k]))
    {
      BlankStays(t, gl.items, gl.rows, gl.cols, EdgeFrom(c, FourNeighbors[k]));
    }
  }

  /** Row `y` of `new`: each clue cell marked, and its four edges decided blank. */
  method MarkRow(gl: GridLoopEngine.GridLoop, clue: Grid<Clue>, cells: Grid<Cell>, y: int) returns (r: Grid<Cell>)
    requires gl.Valid() && gl.queue.isStarted && clue.Valid() && 0 <= y < clue.height
    requires gl.rows == 2 * clue.height - 1 && gl.cols == 2 * clue.width - 1
    requires cells.Valid() && cells.height == clue.height && cells.width == clue.width
    requires forall c :: cells.IsValidCoord(c) ==> cells.Get(c) == if c.y < y && clue.Get(c) != NoClue then ClueCell else Undecided
    requires forall c, k :: cells.IsValidCoord(c) && c.y < y && 0 <= k < 4 && clue.Get(c) != NoClue ==>
      gl.inconsistent || BlankAt(gl.items, gl.rows, gl.cols, EdgeFrom(c, FourNeighbors[k]))
    modifies gl, gl.queue
    ensures gl.Valid() && gl.queue.isStarted && r.Valid() && r.height == cells.height && r.width == cells.width
    ensures forall c :: r.IsValidCoord(c) ==> r.Get(c) == if c.y < y + 1 && clue.Get(c) != NoClue then ClueCell else Undecided
    ensures forall c, k :: r.IsValidCoord(c) && c.y < y + 1 && 0 <= k < 4 && clue.Get(c) != NoClue ==>
      gl.inconsistent || BlankAt(gl.items, gl.rows, gl.cols, EdgeFrom(c, FourNeighbors[k]))
  {
    r := cells;
    for x := 0 to clue.width
      invariant gl.Valid() && gl.queue.isStarted
      invariant r.Valid() && r.height == cells.height && r.width == cells.width
      invariant forall c :: r.IsValidCoord(c) ==>
        r.Get(c) == if (c.y < y || (c.y == y && c.x < x)) && clue.Get(c) != NoClue then ClueCell else Undecided
      invariant forall c, k :: r.IsValidCoord(c) && (c.y < y || (c.y == y && c.x < x)) && 0 <= k < 4 && clue.Get(c) != NoClue ==>
        gl.inconsistent || BlankAt(gl.items, gl.rows, gl.cols, EdgeFrom(c, FourNeighbors[k]))
    {
      r := MarkCell(gl, clue, r, y, x);
    }
  }

  /** Cell `(y, x)` of `new`: marked, and its four edges decided blank, when it holds a clue. */
  method MarkCell(gl: GridLoopEngine.GridLoop, clue: Grid<Clue>, cells: Grid<Cell>, y: int, x: int) returns (r: Grid<Cell>)
    requires gl.Valid() && gl.queue.isStarted && clue.Valid() && 0 <= y < clue.height && 0 <= x < clue.width
    requires gl.rows == 2 * clue.height - 1 && gl.cols == 2 * clue.width - 1
    requires cells.Valid() && cells.height == clue.height && cells.width == clue.width
    requires forall c :: cells.IsValidCoord(c) ==>
      cells.Get(c) == if (c.y < y || (c.y == y && c.x < x)) && clue.Get(c) != NoClue then ClueCell else Undecided
    requires forall c, k :: cells.IsValidCoord(c) && (c.y < y || (c.y == y && c.x < x)) && 0 <= k < 4 && clue.Get(c) != NoClue ==>
      gl.inconsistent || BlankAt(gl.items, gl.rows, gl.cols, EdgeFrom(c, FourNeighbors[k]))
    modifies gl, gl.queue
    ensures gl.Valid() && gl.queue.isStarted && r.Valid() && r.height == cells.height && r.width == cells.width
    ensures forall c :: r.IsValidCoord(c) ==>
      r.Get(c) == if (c.y < y || (c.y == y && c.x < x + 1)) && clue.Get(c) != NoClue then ClueCell else Undecided
    ensures forall c, k :: r.IsValidCoord(c) && (c.y < y || (c.y == y && c.x < x + 1)) && 0 <= k < 4 && clue.Get(c) != NoClue ==>
      gl.inconsistent || BlankAt(gl.items, gl.rows, gl.cols, EdgeFrom(c, FourNeighbors[k]))
  {
    r := cells;
    if clue.Get(Coord(y, x)) != NoClue {
      forall c | r.IsValidCoord(c)
        ensures r.Set(Coord(y, x), ClueCell).Get(c) == if c == Coord(y, x) then ClueCell else r.Get(c)
      {
        GetSet(r, Coord(y, x), ClueCell, c);
      }
      r := r.Set(Coord(y, x), ClueCell);
      ghost var t := gl.items;
      BlankFour(gl, Coord(y, x));
      forall c, k | r.IsValidCoord(c) && (c.y < y || (c.y == y && c.x < x)) && 0 <= k < 4 && clue.Get(c) != NoClue && !gl.inconsistent
        ensures BlankAt(gl.items, gl.rows, gl.cols, EdgeFrom(c, FourNeighbors[k]))
      {
        BlankStays(t, gl.items, gl.rows, gl.cols, EdgeFrom(c, FourNeighbors[k]));
      }
    }
  }

  /** The four edges of a clue cell decided blank, keeping every edge already blank. */
  method BlankFour(gl: GridLoopEngine.GridLoop, c: Coord)
    requires gl.Valid() && gl.queue.isStarted
    modifies gl, gl.queue
    ensures gl.Valid() && gl.queue.isStarted
    ensures GridLoopChains.Extends(old(gl.items), gl.items) && (old(gl.inconsistent) ==> gl.inconsistent)
    ensures forall k :: 0 <= k < 4 ==> gl.inconsistent || BlankAt(gl.items, gl.rows, gl.cols, EdgeFrom(c, FourNeighbors[k]))
  {
    for k := 0 to 4
      invariant gl.Valid() && gl.queue.isStarted
      invariant GridLoopChains.Extends(old(gl.items), gl.items) && (old(gl.inconsistent) ==> gl.inconsistent)
      invariant forall j :: 0 <= j < k ==> gl.inconsistent || BlankAt(gl.items, gl.rows, gl.cols, EdgeFrom(c, FourNeighbors[j]))
    {
      var p := EdgeFrom(c, FourNeighbors[k]);
      ghost var t := gl.items;
      EdgeParity(c, k);
      gl.DecideEdgeAt(p.y, p.x, E.Blank);
      forall j | 0 <= j < k && !gl.inconsistent
        ensures BlankAt(gl.items, gl.rows, gl.cols, EdgeFrom(c, FourNeighbors[j]))
      {
        BlankStays(t, gl.items, gl.rows, gl.cols, EdgeFrom(c, FourNeighbors[j]));
      }
    }
  }

  /* ---------- inspect_clue: the scan and the two tables ---------- */

  /** The position `i` steps from `cd` in direction `d`. */
  function Along(cd: Coord, d: Dir, i: int): Coord {
    Coord(cd.y + Scale(d.y, i), cd.x + Scale(d.x, i))
  }

  /** `a * i` for a step component `a` in {-1, 0, 1}. */
  function Scale(a: int, i: int): int {
    if a == 1 then i else if a == -1 then -i else 0
  }

  /** One step in one of the four directions. */
  predicate Unit(d: Dir) {
    (d.y == 0 && (d.x == 1 || d.x == -1)) || (d.x == 0 && (d.y == 1 || d.y == -1))
  }

  /** The direction an arrow points in. */
  function ArrowDir(a: Arrow): (d: Dir)
    ensures Unit(d)
  {
    match a
    case ArrowUp => Dir(-1, 0)
    case ArrowLeft => Dir(0, -1)
    case ArrowDown => Dir(1, 0)
    case ArrowRight => Dir(0, 1)
  }

  /** The positions 1 to `inv` steps from `cd` lie on the grid. */
  ghost predicate OnGridTo<T>(g: Grid<T>, cd: Coord, d: Dir, inv: int) {
    forall m :: 1 <= m <= inv ==> g.IsValidCoord(Along(cd, d, m))
  }

  /**
   * What the scan of `inspect_clue` finds: the `inv` cells after `cd` in
   * direction `d` lie on the board and hold no clue of `cl`'s shape; the
   * next position is off the board, and `n` is `cl`'s number, or holds
   * such a clue, and `n` is `cl`'s number less that clue's.
   */
  ghost predicate Scanned(clue: Grid<Clue>, cd: Coord, d: Dir, cl: Clue, inv: int, n: int)
    requires clue.Valid()
  {
    && inv >= 0 && OnGridTo(clue, cd, d, inv)
    && (forall m :: 1 <= m <= inv ==> !SameShape(clue.Get(Along(cd, d, m)), cl))
    && var next := Along(cd, d, inv + 1);
       if clue.IsValidCoord(next) then SameShape(clue.Get(next), cl) && n == ClueNumber(cl) - ClueNumber(clue.Get(next))
       else n == ClueNumber(cl)
  }

  /** The scan has one outcome. */
  lemma ScannedUnique(clue: Grid<Clue>, cd: Coord, d: Dir, cl: Clue, inv1: int, n1: int, inv2: int, n2: int)
    requires clue.Valid() && Scanned(clue, cd, d, cl, inv1, n1) && Scanned(clue, cd, d, cl, inv2, n2)
    ensures inv1 == inv2 && n1 == n2
  {
  }

  /** How far the grid reaches from `(y, x)` in direction `d`. */
  function Room(h: int, w: int, d: Dir, y: int, x: int): int {
    (if d.y == 1 then h - y else if d.y == -1 then y + 1 else 0)
    + (if d.x == 1 then w - x else if d.x == -1 then x + 1 else 0)
  }

  /** The scan of `inspect_clue`: forward from the clue until the grid ends or a clue of the same shape. */
  method ScanClue(clue: Grid<Clue>, cd: Coord, d: Dir, cl: Clue) returns (inv: int, n: int)
    requires clue.Valid() && clue.IsValidCoord(cd) && Unit(d)
    ensures Scanned(clue, cd, d, cl, inv, n)
  {
    n := ClueNumber(cl);
    inv := 0;
    var y, x := cd.y + d.y, cd.x + d.x;
    while clue.IsValidCoord(Coord(y, x))
      invariant inv >= 0 && Coord(y, x) == Along(cd, d, inv + 1) && n == ClueNumber(cl)
      invariant OnGridTo(clue, cd, d, inv) && forall m :: 1 <= m <= inv ==> !SameShape(clue.Get(Along(cd, d, m)), cl)
      decreases Room(clue.height, clue.width, d, y, x)
    {
      var c := clue.Get(Coord(y, x));
      if SameShape(c, cl) {
        n := n - ClueNumber(c);
        return;
      }
      y, x := y + d.y, x + d.x;
      inv := inv + 1;
    }
  }

  /** What the tables of `inspect_clue` read: the cells, the two pair tables and the technique flag. */
  datatype Look = Look(cell: Grid<Cell>, down: Grid<bool>, right: Grid<bool>, skipEither: bool)

  ghost predicate LookValid(lk: Look) {
    lk.cell.Valid() && lk.down.Valid() && lk.right.Valid()
  }

  /**
   * The `skip_three` test at the position `m` steps along: it is not a
   * clue, and a cell beside it across the scan is shaded or a clue, or a
   * pair beside it is known to hold a shaded cell (for a vertical scan
   * only with the technique flag on).
   */
  predicate SkipAt(lk: Look, cd: Coord, d: Dir, m: int)
    requires lk.cell.Valid() && lk.down.Valid() && lk.right.Valid() && lk.cell.IsValidCoord(Along(cd, d, m))
  {
    var p := Along(cd, d, m);
    && lk.cell.Get(p) != ClueCell
    && (|| IsBlocking(GetOr(lk.cell, Coord(p.y + d.x, p.x + d.y), ClueCell))
        || IsBlocking(GetOr(lk.cell, Coord(p.y - d.x, p.x - d.y), ClueCell))
        || (d.x == 0 && lk.skipEither && (GetOr(lk.right, Coord(p.y, p.x - 1), false) || GetOr(lk.right, p, false)))
        || (d.y == 0 && (GetOr(lk.down, Coord(p.y - 1, p.x), false) || GetOr(lk.down, p, false))))
  }

  function Max0(a: int): int { if a < 0 then 0 else a }

  function Min(a: int, b: int): int { if a < b then a else b }

  /**
   * `dp_left[k]`: the bounds `(lo, hi)` kept for the number of shaded
   * cells among the first `k` cells of the scan.
   */
  ghost function LeftDp(lk: Look, cd: Coord, d: Dir, inv: int, k: int): (int, int)
    requires LookValid(lk) && OnGridTo(lk.cell, cd, d, inv) && 0 <= k <= inv
    decreases k
  {
    if k == 0 then (0, 0)
    else
      var i := k - 1;
      match lk.cell.Get(Along(cd, d, k))
      case Undecided =>
        var j := Max0(i - if i >= 2 && SkipAt(lk, cd, d, i) then 2 else 1);
        (LeftDp(lk, cd, d, inv, j).0, LeftDp(lk, cd, d, inv, j).1 + 1)
      case ClueCell => LeftDp(lk, cd, d, inv, i)
      case Line => LeftDp(lk, cd, d, inv, i)
      case Blocked =>
        var j := Max0(i - 1);
        (LeftDp(lk, cd, d, inv, j).0 + 1, LeftDp(lk, cd, d, inv, j).1 + 1)
  }

  /**
   * `dp_right[k]`: the bounds `(lo, hi)` kept for the number of shaded
   * cells among the cells of the scan after the first `k`.
   */
  ghost function RightDp(lk: Look, cd: Coord, d: Dir, inv: int, k: int): (int, int)
    requires LookValid(lk) && OnGridTo(lk.cell, cd, d, inv) && 0 <= k <= inv
    decreases inv - k
  {
    if k == inv then (0, 0)
    else
      match lk.cell.Get(Along(cd, d, k + 1))
      case Undecided =>
        var j := Min(inv, k + if k <= inv - 3 && SkipAt(lk, cd, d, k + 2) then 3 else 2);
        (RightDp(lk, cd, d, inv, j).0, RightDp(lk, cd, d, inv, j).1 + 1)
      case ClueCell => RightDp(lk, cd, d, inv, k + 1)
      case Line => RightDp(lk, cd, d, inv, k + 1)
      case Blocked =>
        var j := Min(inv, k + 2);
        (RightDp(lk, cd, d, inv, j).0 + 1, RightDp(lk, cd, d, inv, j).1 + 1)
  }

  /** The left bounds are ordered and no more than the cells they count. */
  lemma {:induction false} LeftBounds(lk: Look, cd: Coord, d: Dir, inv: int, k: int)
    requires LookValid(lk) && OnGridTo(lk.cell, cd, d, inv) && 0 <= k <= inv
    ensures 0 <= LeftDp(lk, cd, d, inv, k).0 <= LeftDp(lk, cd, d, inv, k).1 <= k
    decreases k
  {
    if k > 0 {
      var i := k - 1;
      match lk.cell.Get(Along(cd, d, k))
      case Undecided =>
        LeftBounds(lk, cd, d, inv, Max0(i - if i >= 2 && SkipAt(lk, cd, d, i) then 2 else 1));
      case ClueCell =>
        LeftBounds(lk, cd, d, inv, i);
      case Line =>
        LeftBounds(lk, cd, d, inv, i);
      case Blocked =>
        LeftBounds(lk, cd, d, inv, Max0(i - 1));
    }
  }

  /** The right bounds are ordered and no more than the cells they count. */
  lemma {:induction false} RightBounds(lk: Look, cd: Coord, d: Dir, inv: int, k: int)
    requires LookValid(lk) && OnGridTo(lk.cell, cd, d, inv) && 0 <= k <= inv
    ensures 0 <= RightDp(lk, cd, d, inv, k).0 <= RightDp(lk, cd, d, inv, k).1 <= inv - k
    decreases inv - k
  {
    if k < inv {
      match lk.cell.Get(Along(cd, d, k + 1))
      case Undecided =>
        RightBounds(lk, cd, d, inv, Min(inv, k + if k <= inv - 3 && SkipAt(lk, cd, d, k + 2) then 3 else 2));
      case ClueCell =>
        RightBounds(lk, cd, d, inv, k + 1);
      case Line =>
        RightBounds(lk, cd, d, inv, k + 1);
      case Blocked =>
        RightBounds(lk, cd, d, inv, Min(inv, k + 2));
    }
  }

  /** `dp_left[i + 1]`, from the entries before it. */
  method LeftEntry(lk: Look, cd: Coord, d: Dir, inv: int, dpl: seq<(int, int)>, i: int) returns (v: (int, int))
    requires LookValid(lk) && OnGridTo(lk.cell, cd, d, inv) && 0 <= i < inv
    requires |dpl| == inv + 1 && forall k :: 0 <= k <= i ==> dpl[k] == LeftDp(lk, cd, d, inv, k)
    ensures v == LeftDp(lk, cd, d, inv, i + 1)
  {
    match lk.cell.Get(Along(cd, d, i + 1))
    case Undecided =>
      var skip := i >= 2 && SkipAt(lk, cd, d, i);
      var lohi := dpl[Max0(i - if skip then 2 else 1)];
      v := (lohi.0, lohi.1 + 1);
    case ClueCell =>
      v := dpl[i];
    case Line =>
      v := dpl[i];
    case Blocked =>
      var lohi := dpl[Max0(i - 1)];
      v := (lohi.0 + 1, lohi.1 + 1);
  }

  /** The left table of `inspect_clue`, filled forward. */
  method FillLeft(lk: Look, cd: Coord, d: Dir, inv: int) returns (dpl: seq<(int, int)>)
    requires LookValid(lk) && OnGridTo(lk.cell, cd, d, inv) && inv >= 0
    ensures |dpl| == inv + 1 && forall k :: 0 <= k <= inv ==> dpl[k] == LeftDp(lk, cd, d, inv, k)
  {
    dpl := seq(inv + 1, _ => (0, 0));
    for i := 0 to inv
      invariant |dpl| == inv + 1 && forall k :: 0 <= k <= i ==> dpl[k] == LeftDp(lk, cd, d, inv, k)
    {
      var v := LeftEntry(lk, cd, d, inv, dpl, i);
      dpl := dpl[i + 1 := v];
    }
  }

  /** `dp_right[i]`, from the entries after it. */
  method RightEntry(lk: Look, cd: Coord, d: Dir, inv: int, dpr: seq<(int, int)>, i: int) returns (v: (int, int))
    requires LookValid(lk) && OnGridTo(lk.cell, cd, d, inv) && 0 <= i < inv
    requires |dpr| == inv + 1 && forall k :: i < k <= inv ==> dpr[k] == RightDp(lk, cd, d, inv, k)
    ensures v == RightDp(lk, cd, d, inv, i)
  {
    match lk.cell.Get(Along(cd, d, i + 1))
    case Undecided =>
      var skip := i <= inv - 3 && SkipAt(lk, cd, d, i + 2);
      var lohi := dpr[Min(inv, i + if skip then 3 else 2)];
      v := (lohi.0, lohi.1 + 1);
    case ClueCell =>
      v := dpr[i + 1];
    case Line =>
      v := dpr[i + 1];
    case Blocked =>
      var lohi := dpr[Min(inv, i + 2)];
      v := (lohi.0 + 1, lohi.1 + 1);
  }

  /** The right table of `inspect_clue`, filled backward. */
  method FillRight(lk: Look, cd: Coord, d: Dir, inv: int) returns (dpr: seq<(int, int)>)
    requires LookValid(lk) && OnGridTo(lk.cell, cd, d, inv) && inv >= 0
    ensures |dpr| == inv + 1 && forall k :: 0 <= k <= inv ==> dpr[k] == RightDp(lk, cd, d, inv, k)
  {
    dpr := seq(inv + 1, _ => (0, 0));
    var i := inv;
    while i > 0
      invariant 0 <= i <= inv && |dpr| == inv + 1
      invariant forall k :: i <= k <= inv ==> dpr[k] == RightDp(lk, cd, d, inv, k)
    {
      i := i - 1;
      var v := RightEntry(lk, cd, d, inv, dpr, i);
      dpr := dpr[i := v];
    }
  }

  /* ---------- inspect_clue: using the tables ---------- */

  /** Two steps in a row along a unit direction are side by side. */
  lemma AlongAdjacent(cd: Coord, d: Dir, i: int)
    requires Unit(d)
    ensures Adjacent(Along(cd, d, i), Along(cd, d, i + 1))
  {
  }

  /** The pair tables record that one of `a` and `b` is shaded. */
  ghost predicate PairKnown(down: Grid<bool>, right: Grid<bool>, a: Coord, b: Coord)
    requires down.Valid() && right.Valid()
  {
    if a.y == b.y then (a.x - b.x == 1 || b.x - a.x == 1) && GetOr(right, Coord(a.y, Min(a.x, b.x)), false)
    else a.x == b.x && (a.y - b.y == 1 || b.y - a.y == 1) && GetOr(down, Coord(Min(a.y, b.y), a.x), false)
  }

  /** The pair tables only gain entries. */
  ghost predicate TablesGrow(d0: Grid<bool>, r0: Grid<bool>, d1: Grid<bool>, r1: Grid<bool>) {
    && d0.Valid() && r0.Valid() && d1.Valid() && r1.Valid()
    && d1.height == d0.height && d1.width == d0.width && r1.height == r0.height && r1.width == r0.width
    && (forall c :: d0.IsValidCoord(c) && d0.Get(c) ==> d1.Get(c))
    && (forall c :: r0.IsValidCoord(c) && r0.Get(c) ==> r1.Get(c))
  }

  lemma TablesGrowTrans(d0: Grid<bool>, r0: Grid<bool>, d1: Grid<bool>, r1: Grid<bool>, d2: Grid<bool>, r2: Grid<bool>)
    requires TablesGrow(d0, r0, d1, r1) && TablesGrow(d1, r1, d2, r2)
    ensures TablesGrow(d0, r0, d2, r2)
  {
  }

  /**
   * What the last loop of `inspect_clue` leaves at index `i`, unless the
   * board became inconsistent: the sums of the bounds on both sides admit
   * `n` shaded cells; if the upper bounds leave exactly one too few the
   * cell is shaded; if the lower bounds use up `n` it is a clue or on the
   * loop; and if the upper bounds around a pair leave one too few, one of
   * the pair is a clue or the pair is recorded.
   */
  ghost predicate Decided(cells: Grid<Cell>, down: Grid<bool>, right: Grid<bool>, dpl: seq<(int, int)>, dpr: seq<(int, int)>,
                          n: int, cd: Coord, d: Dir, inv: int, i: int)
    requires cells.Valid() && down.Valid() && right.Valid() && OnGridTo(cells, cd, d, inv)
    requires 0 <= i < inv && |dpl| == inv + 1 && |dpr| == inv + 1
  {
    var at := Along(cd, d, i + 1);
    var hi := dpl[i].1 + dpr[i + 1].1;
    var lo := dpl[i].0 + dpr[i + 1].0;
    && hi >= n - 1 && lo <= n
    && (hi == n - 1 ==> cells.Get(at) == Blocked)
    && (lo == n ==> cells.Get(at) == ClueCell || cells.Get(at) == Line)
    && (i != inv - 1 && dpl[i].1 + dpr[i + 2].1 == n - 1 ==>
          || cells.Get(at) == ClueCell || cells.Get(Along(cd, d, i + 2)) == ClueCell
          || PairKnown(down, right, at, Along(cd, d, i + 2)))
  }

  /** What the earlier indices left stays while the board only gets decided further. */
  lemma DecidedKept(c0: Grid<Cell>, d0: Grid<bool>, r0: Grid<bool>, c1: Grid<Cell>, d1: Grid<bool>, r1: Grid<bool>,
                    dpl: seq<(int, int)>, dpr: seq<(int, int)>, n: int, cd: Coord, d: Dir, inv: int, i: int, inc0: bool, inc1: bool)
    requires CellsGrow(c0, c1) && TablesGrow(d0, r0, d1, r1) && OnGridTo(c0, cd, d, inv) && (inc0 ==> inc1)
    requires 0 <= i < inv && |dpl| == inv + 1 && |dpr| == inv + 1
    requires !inc0 ==> forall j :: 0 <= j < i ==> Decided(c0, d0, r0, dpl, dpr, n, cd, d, inv, j)
    ensures !inc1 ==> forall j :: 0 <= j < i ==> Decided(c1, d1, r1, dpl, dpr, n, cd, d, inv, j)
  {
    if !inc1 {
      forall j | 0 <= j < i
        ensures Decided(c1, d1, r1, dpl, dpr, n, cd, d, inv, j)
      {
        assert Decided(c0, d0, r0, dpl, dpr, n, cd, d, inv, j);
        if PairKnown(d0, r0, Along(cd, d, j + 1), Along(cd, d, j + 2)) {
          PairKnownKept(d0, r0, d1, r1, Along(cd, d, j + 1), Along(cd, d, j + 2));
        }
      }
    }
  }

  lemma PairKnownKept(d0: Grid<bool>, r0: Grid<bool>, d1: Grid<bool>, r1: Grid<bool>, a: Coord, b: Coord)
    requires TablesGrow(d0, r0, d1, r1) && PairKnown(d0, r0, a, b)
    ensures PairKnown(d1, r1, a, b)
  {
  }
}
