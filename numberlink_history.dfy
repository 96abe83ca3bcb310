/**
 * The value layer of src/numberlink/solver2.rs: edge states, the undo log
 * (`History`) and what popping it does, the chain-end table
 * `another_end` with its partner invariant, and the edge-grid geometry.
 *
 * Cells live in "vertex" coordinates `(y, x)`; edges and the cells and
 * vertices between them share one "universal" grid of size
 * `(2h - 1) x (2w - 1)`, in which the edge between cells `(y, x)` and
 * `(y, x + 1)` is `(2y, 2x + 1)` and the one between `(y, x)` and
 * `(y + 1, x)` is `(2y + 1, 2x)`.
 */
module NumberlinkHistory {
  import opened Common
  import opened DecidedGrid

  datatype Edge = Undecided | Line | Blank

  /** One entry of the undo log. */
  datatype History = LogAnotherEnd(id: int, value: int) | LogEdge(cd: Coord) | LogInconsistent(flag: bool) | Checkpoint

  /** `CLOSED_END`: a cell that is no longer the end of any chain. */
  const ClosedEnd: int := -1

  /** The part of the solver's state that the log restores. */
  datatype Memo = Memo(anotherEnd: Grid<int>, edge: Grid<Edge>, inconsistent: bool)

  // ---------------------------------------------------------------
  // Edge geometry
  // ---------------------------------------------------------------

  /** `get_edge`: an edge outside the grid reads as `Blank`. */
  function EdgeAt(g: Grid<Edge>, cd: Coord): (e: Edge)
    requires g.Valid()
    ensures e != Blank ==> g.IsValidCoord(cd)
  {
    if g.IsValidCoord(cd) then g.Get(cd) else Blank
  }

  /** An edge position of the universal grid: exactly one coordinate is odd. */
  predicate IsEdge(cd: Coord) {
    (cd.y + cd.x) % 2 == 1
  }

  /** The two cells an edge joins: left and right for a horizontal edge, top and bottom for a vertical one. */
  function EndsOf(cd: Coord): (Coord, Coord) {
    if cd.y % 2 == 0 then (Coord(cd.y / 2, cd.x / 2), Coord(cd.y / 2, cd.x / 2 + 1))
    else (Coord(cd.y / 2, cd.x / 2), Coord(cd.y / 2 + 1, cd.x / 2))
  }

  /** The edge grid of an `h x w` board is `(2h - 1) x (2w - 1)`. */
  predicate EdgeGridOf(g: Grid<Edge>, height: int, width: int) {
    g.height == 2 * height - 1 && g.width == 2 * width - 1
  }

  /** An edge inside the grid joins two distinct cells of the board. */
  lemma EndsInBoard(cd: Coord, height: int, width: int)
    requires IsEdge(cd) && 0 <= cd.y < 2 * height - 1 && 0 <= cd.x < 2 * width - 1
    ensures var (a, b) := EndsOf(cd);
      0 <= a.y < height && 0 <= a.x < width && 0 <= b.y < height && 0 <= b.x < width && a != b
  {
  }

  /** The edge between a cell and its neighbour in direction `d` (one of the four sides). */
  function Around(cd: Coord, d: Dir): Coord {
    Coord(cd.y * 2 + d.y, cd.x * 2 + d.x)
  }

  /** The order in which `inspect` walks the four sides. */
  const Sides: seq<Dir> := [Dir(1, 0), Dir(0, 1), Dir(-1, 0), Dir(0, -1)]

  lemma AroundIsEdge(cd: Coord, k: nat)
    requires k < 4
    ensures IsEdge(Around(cd, Sides[k]))
  {
  }

  /** The number of the first `k` sides of the cell `cd`, in `Sides` order, whose edge is in state `s`. */
  function SideCount(g: Grid<Edge>, cd: Coord, s: Edge, k: nat): (n: nat)
    requires g.Valid() && k <= 4
    ensures n <= k
  {
    if k == 0 then 0 else SideCount(g, cd, s, k - 1) + (if EdgeAt(g, Around(cd, Sides[k - 1])) == s then 1 else 0)
  }

  /** A side in state `s` is counted. */
  lemma {:induction false} SideCountOne(g: Grid<Edge>, cd: Coord, s: Edge, j: nat, n: nat)
    requires g.Valid() && j < n <= 4 && EdgeAt(g, Around(cd, Sides[j])) == s
    ensures SideCount(g, cd, s, n) >= 1
  {
    if j < n - 1 {
      SideCountOne(g, cd, s, j, n - 1);
    }
  }

  /** Counting more sides never counts fewer. */
  lemma {:induction false} SideCountMono(g: Grid<Edge>, cd: Coord, s: Edge, k: nat, n: nat)
    requires g.Valid() && k <= n <= 4
    ensures SideCount(g, cd, s, k) <= SideCount(g, cd, s, n)
    decreases n
  {
    if k < n {
      SideCountMono(g, cd, s, k, n - 1);
    }
  }

  /** A decided edge stays decided, with the same state. */
  lemma EdgeKept(g0: Grid<Edge>, g1: Grid<Edge>, cd: Coord)
    requires g0.Valid() && Settled(g0, g1, Undecided) && EdgeAt(g0, cd) != Undecided
    ensures g1.Valid() && EdgeAt(g1, cd) == EdgeAt(g0, cd)
  {
    if g0.IsValidCoord(cd) {
      SettledAt(g0, g1, Undecided, cd);
    }
  }

  // ---------------------------------------------------------------
  // Degrees: a cell whose four sides are decided has 0 or 2 lines
  // ---------------------------------------------------------------

  /** One when the edge `cd` of `g` is in state `s`, zero otherwise. */
  function StateIs(g: Grid<Edge>, cd: Coord, s: Edge): nat
    requires g.Valid()
  {
    if EdgeAt(g, cd) == s then 1 else 0
  }

  /** The sides of the cell `cd` in state `s`, in `Sides` order: below, right, above, left. */
  function SidesIn(g: Grid<Edge>, cd: Coord, s: Edge): nat
    requires g.Valid()
  {
    StateIs(g, Coord(2 * cd.y + 1, 2 * cd.x), s) + StateIs(g, Coord(2 * cd.y, 2 * cd.x + 1), s)
      + StateIs(g, Coord(2 * cd.y - 1, 2 * cd.x), s) + StateIs(g, Coord(2 * cd.y, 2 * cd.x - 1), s)
  }

  /** The four sides of a cell, in `Sides` order. */
  lemma AroundSides(cd: Coord)
    ensures Around(cd, Sides[0]) == Coord(2 * cd.y + 1, 2 * cd.x) && Around(cd, Sides[1]) == Coord(2 * cd.y, 2 * cd.x + 1)
    ensures Around(cd, Sides[2]) == Coord(2 * cd.y - 1, 2 * cd.x) && Around(cd, Sides[3]) == Coord(2 * cd.y, 2 * cd.x - 1)
  {
  }

  /** One more side counted. */
  lemma SideCountStep(g: Grid<Edge>, cd: Coord, s: Edge, k: nat)
    requires g.Valid() && 1 <= k <= 4
    ensures SideCount(g, cd, s, k) == SideCount(g, cd, s, k - 1) + StateIs(g, Around(cd, Sides[k - 1]), s)
  {
  }

  /** The count `inspect` makes over all four sides is `SidesIn`. */
  lemma SideCountFour(g: Grid<Edge>, cd: Coord, s: Edge)
    requires g.Valid()
    ensures SideCount(g, cd, s, 4) == SidesIn(g, cd, s)
  {
    AroundSides(cd);
    SideCountStep(g, cd, s, 1);
    SideCountStep(g, cd, s, 2);
    SideCountStep(g, cd, s, 3);
    SideCountStep(g, cd, s, 4);
  }

  /** The degree of a board cell: its Line sides, plus one when it holds a clue. */
  function Degree(e: Grid<Edge>, clue: Grid<bool>, cd: Coord): nat
    requires e.Valid() && clue.Valid() && clue.IsValidCoord(cd)
  {
    (if clue.Get(cd) then 1 else 0) + SidesIn(e, cd, Line)
  }

  /**
   * What `inspect` enforces at a cell once its four sides are decided:
   * degree 0 (no line), or 2 (a cell inside a line, or a clue with one
   * line leaving it).
   */
  ghost predicate DegreeOk(e: Grid<Edge>, clue: Grid<bool>, cd: Coord)
    requires e.Valid() && clue.Valid()
  {
    clue.IsValidCoord(cd) && SidesIn(e, cd, Undecided) == 0 ==> Degree(e, clue, cd) == 0 || Degree(e, clue, cd) == 2
  }

  /** Every board cell is `DegreeOk`. */
  ghost predicate AllDegreesOk(e: Grid<Edge>, clue: Grid<bool>)
    requires e.Valid() && clue.Valid()
  {
    forall cd :: DegreeOk(e, clue, cd)
  }

  /** Going from `e0` to `e1` breaks no cell that was `DegreeOk`. */
  ghost predicate DegreesKept(e0: Grid<Edge>, e1: Grid<Edge>, clue: Grid<bool>)
    requires e0.Valid() && e1.Valid() && clue.Valid()
  {
    forall cd :: DegreeOk(e0, clue, cd) ==> DegreeOk(e1, clue, cd)
  }

  /** `e0` and `e1` agree on the four sides of the cell `cd`. */
  predicate SameSides(e0: Grid<Edge>, e1: Grid<Edge>, cd: Coord)
    requires e0.Valid() && e1.Valid()
  {
    && EdgeAt(e0, Coord(2 * cd.y + 1, 2 * cd.x)) == EdgeAt(e1, Coord(2 * cd.y + 1, 2 * cd.x))
    && EdgeAt(e0, Coord(2 * cd.y, 2 * cd.x + 1)) == EdgeAt(e1, Coord(2 * cd.y, 2 * cd.x + 1))
    && EdgeAt(e0, Coord(2 * cd.y - 1, 2 * cd.x)) == EdgeAt(e1, Coord(2 * cd.y - 1, 2 * cd.x))
    && EdgeAt(e0, Coord(2 * cd.y, 2 * cd.x - 1)) == EdgeAt(e1, Coord(2 * cd.y, 2 * cd.x - 1))
  }

  /** Each side of a cell is an edge with that cell at one end. */
  lemma SideEnds(c: Coord)
    ensures EndsOf(Coord(2 * c.y + 1, 2 * c.x)).0 == c && EndsOf(Coord(2 * c.y, 2 * c.x + 1)).0 == c
    ensures EndsOf(Coord(2 * c.y - 1, 2 * c.x)).1 == c && EndsOf(Coord(2 * c.y, 2 * c.x - 1)).1 == c
  {
    assert 2 * c.y - 1 == 2 * (c.y - 1) + 1;
    assert 2 * c.x - 1 == 2 * (c.x - 1) + 1;
  }

  /** Writing the edge `cd` leaves every other edge as it reads. */
  lemma SetElsewhere(e: Grid<Edge>, cd: Coord, s: Edge, other: Coord)
    requires e.Valid() && e.IsValidCoord(cd) && other != cd
    ensures EdgeAt(e.Set(cd, s), other) == EdgeAt(e, other)
  {
    if e.IsValidCoord(other) {
      GetSet(e, cd, s, other);
    }
  }

  /** Writing one edge leaves every cell but the edge's two ends as it was. */
  lemma WrittenDegrees(e: Grid<Edge>, cd: Coord, s: Edge, clue: Grid<bool>)
    requires e.Valid() && e.IsValidCoord(cd) && clue.Valid()
    ensures forall c :: c != EndsOf(cd).0 && c != EndsOf(cd).1 ==> (DegreeOk(e.Set(cd, s), clue, c) <==> DegreeOk(e, clue, c))
  {
    var e1 := e.Set(cd, s);
    forall c | c != EndsOf(cd).0 && c != EndsOf(cd).1
      ensures DegreeOk(e1, clue, c) <==> DegreeOk(e, clue, c)
    {
      SideEnds(c);
      SetElsewhere(e, cd, s, Coord(2 * c.y + 1, 2 * c.x));
      SetElsewhere(e, cd, s, Coord(2 * c.y, 2 * c.x + 1));
      SetElsewhere(e, cd, s, Coord(2 * c.y - 1, 2 * c.x));
      SetElsewhere(e, cd, s, Coord(2 * c.y, 2 * c.x - 1));
      assert SameSides(e1, e, c);
    }
  }

  /** Deciding more edges leaves a cell whose sides are all decided as it was. */
  lemma DecidedSidesKept(e0: Grid<Edge>, e1: Grid<Edge>, cd: Coord)
    requires e0.Valid() && Settled(e0, e1, Undecided) && SidesIn(e0, cd, Undecided) == 0
    ensures e1.Valid() && SameSides(e0, e1, cd)
  {
    EdgeKept(e0, e1, Coord(2 * cd.y + 1, 2 * cd.x));
    EdgeKept(e0, e1, Coord(2 * cd.y, 2 * cd.x + 1));
    EdgeKept(e0, e1, Coord(2 * cd.y - 1, 2 * cd.x));
    EdgeKept(e0, e1, Coord(2 * cd.y, 2 * cd.x - 1));
  }

  /** The only cell of a 1x1 board has no side on the board: all four read Blank. */
  lemma LoneCellSides(e: Grid<Edge>, cd: Coord, s: Edge)
    requires e.Valid() && e.height == 1 && e.width == 1 && cd.y == 0 && cd.x == 0 && s != Blank
    ensures SidesIn(e, cd, s) == 0
  {
    assert !e.IsValidCoord(Coord(2 * cd.y - 1, 2 * cd.x)) && !e.IsValidCoord(Coord(2 * cd.y, 2 * cd.x - 1));
  }

  // ---------------------------------------------------------------
  // The undo log
  // ---------------------------------------------------------------

  /** Undoing one entry: the logged value comes back; an edge goes back to `Undecided`. */
  ghost function Undo(m: Memo, e: History): Memo {
    match e
    case LogAnotherEnd(id, v) =>
      if 0 <= id < |m.anotherEnd.data| then m.(anotherEnd := m.anotherEnd.(data := m.anotherEnd.data[id := v])) else m
    case LogEdge(cd) =>
      if m.edge.Valid() && m.edge.IsValidCoord(cd) then m.(edge := m.edge.Set(cd, Undecided)) else m
    case LogInconsistent(b) => m.(inconsistent := b)
    case Checkpoint => m
  }

  /** Undoing the entries after the first `k`, latest first. */
  ghost function Unwind(m: Memo, h: seq<History>, k: nat): Memo
    decreases |h|
  {
    if |h| <= k then m else Unwind(Undo(m, h[|h| - 1]), h[..|h| - 1], k)
  }

  /**
   * `rollback`: entries are popped and undone, latest first, until a
   * `Checkpoint` has been popped or the log is empty.
   */
  ghost function RollbackOf(m: Memo, h: seq<History>): (Memo, seq<History>)
    decreases |h|
  {
    if h == [] then (m, h)
    else if h[|h| - 1].Checkpoint? then (m, h[..|h| - 1])
    else RollbackOf(Undo(m, h[|h| - 1]), h[..|h| - 1])
  }

  predicate NoCheckpoint(h: seq<History>) {
    forall i :: 0 <= i < |h| ==> !h[i].Checkpoint?
  }

  /**
   * `m1` restores `m0`: the same chain-end table and edges, and a flag
   * that is at least as set. The flag cannot be restored exactly, because
   * `decide_edge` also sets it without logging.
   */
  predicate Agrees(m0: Memo, m1: Memo) {
    m0.anotherEnd == m1.anotherEnd && m0.edge == m1.edge && (m0.inconsistent ==> m1.inconsistent)
  }

  /** Undoing the entries after the first `k` of `h` takes `m` back to `m0`. */
  ghost predicate Reverts(m0: Memo, m: Memo, h: seq<History>, k: nat) {
    k <= |h| && Agrees(m0, Unwind(m, h, k))
  }

  lemma {:induction false} UnwindAgree(ma: Memo, mb: Memo, h: seq<History>, k: nat)
    requires Agrees(ma, mb)
    ensures Agrees(Unwind(ma, h, k), Unwind(mb, h, k))
    decreases |h|
  {
    if |h| > k {
      UnwindAgree(Undo(ma, h[|h| - 1]), Undo(mb, h[|h| - 1]), h[..|h| - 1], k);
    }
  }

  /** Undoing down to `k0` is undoing down to `k1` and then on down to `k0`. */
  lemma {:induction false} UnwindSplit(m: Memo, h: seq<History>, k0: nat, k1: nat)
    requires k0 <= k1 <= |h|
    ensures Unwind(m, h, k0) == Unwind(Unwind(m, h, k1), h[..k1], k0)
    decreases |h|
  {
    if |h| == k1 {
      assert h[..k1] == h;
    } else {
      var h' := h[..|h| - 1];
      UnwindSplit(Undo(m, h[|h| - 1]), h', k0, k1);
      assert h'[..k1] == h[..k1];
    }
  }

  lemma RevertsRefl(m: Memo, h: seq<History>)
    ensures Reverts(m, m, h, |h|)
  {
  }

  /** Two stretches of logged steps make one. */
  lemma RevertsTrans(m0: Memo, m1: Memo, m2: Memo, h1: seq<History>, h2: seq<History>, k0: nat)
    requires Reverts(m0, m1, h1, k0) && Reverts(m1, m2, h2, |h1|) && h2[..|h1|] == h1
    ensures Reverts(m0, m2, h2, k0)
  {
    UnwindSplit(m2, h2, k0, |h1|);
    UnwindAgree(m1, Unwind(m2, h2, |h1|), h1, k0);
  }

  /** A state that agrees with one that reverts also reverts. */
  lemma RevertsAgree(m0: Memo, m: Memo, m': Memo, h: seq<History>, k: nat)
    requires Reverts(m0, m, h, k) && Agrees(m, m')
    ensures Reverts(m0, m', h, k)
  {
    UnwindAgree(m, m', h, k);
  }

  /** A logged write: the new entry undoes exactly the write. */
  lemma RevertsPush(m0: Memo, m: Memo, m': Memo, h: seq<History>, e: History, k: nat)
    requires Reverts(m0, m, h, k) && Undo(m', e) == m
    ensures Reverts(m0, m', h + [e], k)
  {
    assert (h + [e])[..|h|] == h;
  }

  /** The flag set without a log entry. */
  lemma RevertsUnlogged(m0: Memo, m: Memo, h: seq<History>, k: nat)
    requires Reverts(m0, m, h, k)
    ensures Reverts(m0, m.(inconsistent := true), h, k)
  {
    UnwindAgree(m, m.(inconsistent := true), h, k);
  }

  /** `update_another_end` logs the old value, so undoing its entry restores it. */
  lemma UndoAnotherEnd(m: Memo, id: int, v: int)
    requires 0 <= id < |m.anotherEnd.data|
    ensures Undo(m.(anotherEnd := m.anotherEnd.(data := m.anotherEnd.data[id := v])), LogAnotherEnd(id, m.anotherEnd.data[id])) == m
  {
  }

  /** Undoing the entry of an edge that was undecided restores it. */
  lemma UndoEdge(m: Memo, cd: Coord, s: Edge)
    requires m.edge.Valid() && m.edge.IsValidCoord(cd) && m.edge.Get(cd) == Undecided
    ensures Undo(m.(edge := m.edge.Set(cd, s)), LogEdge(cd)) == m
  {
    m.edge.IndexInRange(cd);
    assert m.edge.Set(cd, s).Set(cd, Undecided).data == m.edge.data;
  }

  /**
   * After a checkpoint and a run of entries without one, `rollback` undoes
   * exactly that run and pops the checkpoint.
   */
  lemma {:induction false} RollbackToCheckpoint(m: Memo, h0: seq<History>, rest: seq<History>)
    requires NoCheckpoint(rest)
    ensures RollbackOf(m, h0 + [Checkpoint] + rest) == (Unwind(m, h0 + [Checkpoint] + rest, |h0| + 1), h0)
    decreases |rest|
  {
    var h := h0 + [Checkpoint] + rest;
    if rest == [] {
      assert h[..|h| - 1] == h0;
    } else {
      var rest' := rest[..|rest| - 1];
      assert h[..|h| - 1] == h0 + [Checkpoint] + rest';
      assert h[|h| - 1] == rest[|rest| - 1];
      RollbackToCheckpoint(Undo(m, h[|h| - 1]), h0, rest');
    }
  }

  /**
   * The undo property of the log: when every change since a checkpoint
   * was logged, `rollback` gives back the log before the checkpoint and
   * the table and edges as they were there.
   */
  lemma CheckpointRestores(m0: Memo, m: Memo, h0: seq<History>, h: seq<History>)
    requires |h| > |h0| && h[..|h0|] == h0 && h[|h0|] == Checkpoint && NoCheckpoint(h[|h0| + 1..])
    requires Reverts(m0, m, h, |h0| + 1)
    ensures RollbackOf(m, h).1 == h0 && Agrees(m0, RollbackOf(m, h).0)
  {
    assert h == h0 + [Checkpoint] + h[|h0| + 1..];
    RollbackToCheckpoint(m, h0, h[|h0| + 1..]);
  }

  /**
   * One stretch of the solver's forward work: the log only grows, with no
   * checkpoint, every change it made is logged (`Reverts`), and decided
   * edges stay decided.
   */
  ghost predicate Step(m0: Memo, h0: seq<History>, m1: Memo, h1: seq<History>) {
    && |h0| <= |h1| && h1[..|h0|] == h0 && NoCheckpoint(h1[|h0|..])
    && Reverts(m0, m1, h1, |h0|)
    && Settled(m0.edge, m1.edge, Undecided)
    && CountOf(m1.edge.data, Undecided) <= CountOf(m0.edge.data, Undecided)
  }

  lemma StepRefl(m: Memo, h: seq<History>)
    ensures Step(m, h, m, h)
  {
    assert h[..|h|] == h;
    SettledRefl(m.edge, Undecided);
  }

  lemma StepTrans(m0: Memo, h0: seq<History>, m1: Memo, h1: seq<History>, m2: Memo, h2: seq<History>)
    requires Step(m0, h0, m1, h1) && Step(m1, h1, m2, h2)
    ensures Step(m0, h0, m2, h2)
  {
    assert h2[..|h0|] == h1[..|h0|];
    forall i | 0 <= i < |h2[|h0|..]|
      ensures !h2[|h0|..][i].Checkpoint?
    {
      if |h0| + i < |h1| {
        assert h2[|h0|..][i] == h1[|h0|..][i];
      } else {
        assert h2[|h0|..][i] == h2[|h1|..][|h0| + i - |h1|];
      }
    }
    RevertsTrans(m0, m1, m2, h1, h2, |h0|);
    SettledTrans(m0.edge, m1.edge, m2.edge, Undecided);
  }

  /** A write logged by an entry that undoes it. */
  lemma StepLogged(m: Memo, h: seq<History>, m': Memo, e: History)
    requires Undo(m', e) == m && !e.Checkpoint?
    requires Settled(m.edge, m'.edge, Undecided) && CountOf(m'.edge.data, Undecided) <= CountOf(m.edge.data, Undecided)
    ensures Step(m, h, m', h + [e])
  {
    assert (h + [e])[..|h|] == h;
    assert (h + [e])[|h|..] == [e];
    RevertsRefl(m, h);
    RevertsPush(m, m, m', h, e, |h|);
  }

  /** The flag set without a log entry. */
  lemma StepUnlogged(m: Memo, h: seq<History>)
    ensures Step(m, h, m.(inconsistent := true), h)
  {
    StepRefl(m, h);
    RevertsUnlogged(m, m, h, |h|);
  }

  // ---------------------------------------------------------------
  // The chain-end table
  // ---------------------------------------------------------------

  /**
   * The partner invariant of `another_end`: a non-negative entry is the
   * index of the other end of the chain, and that end points back.
   * Negative entries are `CLOSED_END` or `-(c + 1)` for a chain that
   * leads to the clue `c`.
   */
  ghost predicate Paired(ae: seq<int>) {
    forall i :: 0 <= i < |ae| && ae[i] >= 0 ==> ae[i] < |ae| && ae[ae[i]] == i
  }

  /** The guards of a Line between the chain ends `i` and `j`: a closed end, a chain closed on itself, or two different clues. */
  predicate LinkFails(ae: seq<int>, i: int, j: int)
    requires 0 <= i < |ae| && 0 <= j < |ae|
  {
    ae[i] == ClosedEnd || ae[j] == ClosedEnd || ae[i] == j || (ae[i] < 0 && ae[j] < 0 && ae[i] != ae[j])
  }

  /**
   * The table after a Line between `i` and `j`: the two cells stop being
   * ends (unless a cell is a chain on its own), and the far ends `ae[i]`
   * and `ae[j]` learn about each other, or about the clue at the other side.
   */
  function Linked(ae: seq<int>, i: int, j: int): seq<int>
    requires 0 <= i < |ae| && 0 <= j < |ae| && (ae[i] >= 0 ==> ae[i] < |ae|) && (ae[j] >= 0 ==> ae[j] < |ae|)
  {
    var p, q := ae[i], ae[j];
    if p < 0 && q < 0 then ae[i := ClosedEnd][j := ClosedEnd]
    else if p >= 0 && q < 0 then
      var a := if i != p then ae[i := ClosedEnd] else ae;
      a[p := q][j := ClosedEnd]
    else if p < 0 && q >= 0 then
      var a := if j != q then ae[j := ClosedEnd] else ae;
      a[q := p][i := ClosedEnd]
    else
      var a := if i != p then ae[i := ClosedEnd] else ae;
      var b := a[p := q];
      var c := if j != q then b[j := ClosedEnd] else b;
      c[q := p]
  }

  /** A Line that passes the guards keeps the partner invariant. */
  lemma LinkedPaired(ae: seq<int>, i: int, j: int)
    requires Paired(ae) && 0 <= i < |ae| && 0 <= j < |ae| && i != j && !LinkFails(ae, i, j)
    ensures Paired(Linked(ae, i, j))
  {
    var r := Linked(ae, i, j);
    forall k | 0 <= k < |r| && r[k] >= 0
      ensures r[k] < |r| && r[r[k]] == k
    {
      if ae[k] >= 0 {
        assert ae[ae[k]] == k;
      }
    }
  }

  /**
   * What a Line that passes the guards does to the table: two clue ends
   * are both closed; otherwise each far end of an empty cell's chain now
   * names the far end at the other side (a cell index or a clue), and
   * every other entry is unchanged.
   */
  lemma LinkedEnds(ae: seq<int>, i: int, j: int)
    requires Paired(ae) && 0 <= i < |ae| && 0 <= j < |ae| && i != j && !LinkFails(ae, i, j)
    ensures var r := Linked(ae, i, j);
      && |r| == |ae|
      && (ae[i] < 0 && ae[j] < 0 ==> r[i] == ClosedEnd && r[j] == ClosedEnd)
      && (ae[i] >= 0 ==> r[ae[i]] == ae[j])
      && (ae[j] >= 0 ==> r[ae[j]] == ae[i])
      && (ae[i] != i ==> r[i] == ClosedEnd)
      && (ae[j] != j ==> r[j] == ClosedEnd)
      && (forall k :: 0 <= k < |ae| && k != i && k != j && k != ae[i] && k != ae[j] ==> r[k] == ae[k])
  {
    if ae[i] >= 0 {
      assert ae[ae[i]] == i;
    }
    if ae[j] >= 0 {
      assert ae[ae[j]] == j;
    }
  }

  /** `another_end` of a new field: an empty cell is a chain on its own; a clue `c` holds `-(c + 1)`. */
  function InitialEnd(c: int, i: int): int {
    if c == 0 then i else -(c + 1)
  }

  /** With non-negative clue numbers the initial table is paired: every non-negative entry is a cell on its own. */
  lemma InitialPaired(clues: seq<int>, ae: seq<int>)
    requires |ae| == |clues| && forall i :: 0 <= i < |ae| ==> clues[i] >= 0 && ae[i] == InitialEnd(clues[i], i)
    ensures Paired(ae)
  {
  }
}
