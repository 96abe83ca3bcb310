// src/tapa/generator.rs: `HasClue`, the clue marks with an undo log, and
// the bookkeeping of `generate` around it: the forced cells it starts
// from, the marks of one candidate with the `max_clue` check, and the
// `clue_filled` test before a problem is returned.

module TapaGenerator {
  import opened Wrappers
  import opened Common
  import opened TapaBase

  /** `ClueConstraint`: what the options demand of a cell. */
  datatype ClueConstraint = Any | Forced | Prohibited

  /** `HasClueHistory`: an update with the value it overwrote, or a checkpoint. */
  datatype HasClueHistory = Update(loc: Coord, v: bool) | Checkpoint

  /** The state of a `HasClue`: which cells hold a clue, how many, and the undo log. */
  datatype Marks = Marks(hasClue: Grid<bool>, nClues: int, history: seq<HasClueHistory>)

  /**
   * Undoing `h` from its last entry back is well defined on `g`: each
   * logged update finds its cell holding the opposite of the value it
   * logged, and undoing it leaves the rest of the log well defined.
   */
  ghost predicate Consistent(g: Grid<bool>, h: seq<HasClueHistory>)
    requires g.Valid()
    decreases |h|
  {
    h == [] ||
    var n := |h| - 1;
    match h[n]
    case Checkpoint => Consistent(g, h[..n])
    case Update(cd, v) => g.IsValidCoord(cd) && g.Get(cd) == !v && Consistent(g.Set(cd, v), h[..n])
  }

  /** The invariant of a `HasClue`: `n_clues` counts the marked cells, and the log can be undone. */
  ghost predicate ValidMarks(m: Marks) {
    m.hasClue.Valid() && m.nClues == CountTrue(m.hasClue.data) && Consistent(m.hasClue, m.history)
  }

  /** The log up to its last checkpoint, without it; empty when there is none. */
  function BeforeCheckpoint(h: seq<HasClueHistory>): (r: seq<HasClueHistory>)
    ensures |r| <= |h|
  {
    if h == [] then []
    else if h[|h| - 1] == Checkpoint then h[..|h| - 1]
    else BeforeCheckpoint(h[..|h| - 1])
  }

  /** Writing the value a cell already holds leaves the grid as it is. */
  lemma SetSame(g: Grid<bool>, cd: Coord)
    requires g.Valid() && g.IsValidCoord(cd)
    ensures g.Set(cd, g.Get(cd)) == g
  {
    g.IndexInRange(cd);
    assert g.data[g.Index(cd) := g.data[g.Index(cd)]] == g.data;
  }

  /** Writing a cell twice keeps the second value only. */
  lemma SetSet(g: Grid<bool>, cd: Coord, a: bool, b: bool)
    requires g.Valid() && g.IsValidCoord(cd)
    ensures g.Set(cd, a).Set(cd, b) == g.Set(cd, b)
  {
    g.IndexInRange(cd);
  }

  /** The count after a write: the cell's old value out, its new value in. */
  lemma CountSet(g: Grid<bool>, cd: Coord, v: bool)
    requires g.Valid() && g.IsValidCoord(cd)
    ensures CountTrue(g.Set(cd, v).data) == CountTrue(g.data) - (if g.Get(cd) then 1 else 0) + (if v then 1 else 0)
  {
    g.IndexInRange(cd);
    CountUpdate(g.data, g.Index(cd), v);
  }

  /** `HasClue::new`: no cell marked, no log. */
  function NewMarks(height: int, width: int): (m: Marks)
    requires height >= 0 && width >= 0
    ensures ValidMarks(m) && m.history == []
    ensures m.hasClue.height == height && m.hasClue.width == width
    ensures forall i :: 0 <= i < |m.hasClue.data| ==> !m.hasClue.data[i]
    ensures m.nClues == 0
  {
    var g := NewGrid(height, width, false);
    assert forall k :: 0 <= k <= |g.data| ==> CountTrue(g.data[..k]) == 0 by {
      forall k | 0 <= k <= |g.data| ensures CountTrue(g.data[..k]) == 0 {
        NoneMarked(g.data, k);
      }
    }
    assert g.data[..|g.data|] == g.data;
    Marks(g, 0, [])
  }

  lemma {:induction false} NoneMarked(b: seq<bool>, k: nat)
    requires k <= |b| && forall i :: 0 <= i < |b| ==> !b[i]
    ensures CountTrue(b[..k]) == 0
  {
    if k > 0 {
      NoneMarked(b, k - 1);
      CountPrefix(b, k - 1);
    }
  }

  /**
   * `update`: marking a cell as it already is changes nothing and logs
   * nothing; otherwise the cell takes the value, `n_clues` moves by one and
   * the old value is logged.
   */
  function UpdateMarks(m: Marks, loc: Coord, val: bool): (r: Marks)
    requires ValidMarks(m) && m.hasClue.IsValidCoord(loc)
    ensures ValidMarks(r)
    ensures r.hasClue == m.hasClue.Set(loc, val)
    ensures r.history == if m.hasClue.Get(loc) == val then m.history else m.history + [Update(loc, !val)]
  {
    var g := m.hasClue;
    if g.Get(loc) == val then
      SetSame(g, loc);
      m
    else
      CountSet(g, loc, val);
      ConsistentPush(g, m.history, loc, val);
      Marks(g.Set(loc, val), m.nClues + (if val then 1 else -1), m.history + [Update(loc, !val)])
  }

  /** A change logged on top of a log that can be undone gives a log that can be undone. */
  lemma ConsistentPush(g: Grid<bool>, h: seq<HasClueHistory>, loc: Coord, val: bool)
    requires g.Valid() && g.IsValidCoord(loc) && g.Get(loc) == !val && Consistent(g, h)
    ensures Consistent(g.Set(loc, val), h + [Update(loc, !val)])
  {
    var g' := g.Set(loc, val);
    var h' := h + [Update(loc, !val)];
    GetSet(g, loc, val, loc);
    SetSet(g, loc, val, !val);
    SetSame(g, loc);
    assert h'[..|h'| - 1] == h;
    assert g'.Set(loc, !val) == g;
  }

  /** `add_checkpoint`: a checkpoint on top of the log. */
  function CheckpointMarks(m: Marks): (r: Marks)
    requires ValidMarks(m)
    ensures ValidMarks(r) && r.hasClue == m.hasClue && r.nClues == m.nClues
    ensures BeforeCheckpoint(r.history) == m.history
  {
    var h := m.history + [Checkpoint];
    assert h[..|h| - 1] == m.history;
    Marks(m.hasClue, m.nClues, h)
  }

  /**
   * `rollback`: the log is popped up to and including its last checkpoint,
   * each popped update writing its logged value back and moving `n_clues`
   * by one; an empty log ends it too.
   */
  function RollbackMarks(m: Marks): (r: Marks)
    requires ValidMarks(m)
    ensures ValidMarks(r) && r.history == BeforeCheckpoint(m.history)
    decreases |m.history|
  {
    if m.history == [] then m
    else
      var n := |m.history| - 1;
      match m.history[n]
      case Checkpoint => Marks(m.hasClue, m.nClues, m.history[..n])
      case Update(cd, v) =>
        CountSet(m.hasClue, cd, v);
        RollbackMarks(Marks(m.hasClue.Set(cd, v), m.nClues + (if v then 1 else -1), m.history[..n]))
  }

  /** `forget_history`: the log emptied, the marks kept. */
  function ForgetMarks(m: Marks): (r: Marks)
    requires ValidMarks(m)
    ensures ValidMarks(r) && r.hasClue == m.hasClue && r.nClues == m.nClues && r.history == []
  {
    Marks(m.hasClue, m.nClues, [])
  }

  /** `get_checked`: outside the grid no cell is marked. */
  function GetChecked(g: Grid<bool>, loc: Coord): (b: bool)
    requires g.Valid()
    ensures b <==> g.IsValidCoord(loc) && g.Get(loc)
    ensures !g.IsValidCoord(loc) ==> !b
  {
    g.IsValidCoord(loc) && g.Get(loc)
  }

  /** One update undone by the rollback that follows it: rolling back after it is rolling back before it. */
  lemma RollbackUpdate(m: Marks, loc: Coord, val: bool)
    requires ValidMarks(m) && m.hasClue.IsValidCoord(loc)
    ensures RollbackMarks(UpdateMarks(m, loc, val)) == RollbackMarks(m)
  {
    var g := m.hasClue;
    if g.Get(loc) != val {
      var u := UpdateMarks(m, loc, val);
      var n := |u.history| - 1;
      assert u.history[n] == Update(loc, !val);
      assert u.history[..n] == m.history;
      SetSet(g, loc, val, !val);
      SetSame(g, loc);
      assert Marks(u.hasClue.Set(loc, !val), u.nClues + (if !val then 1 else -1), u.history[..n]) == m;
    }
  }

  /** Cells of one board are cells of any board of its size. */
  lemma OpsOnSameBoard(g: Grid<bool>, g': Grid<bool>, ops: seq<(Coord, bool)>)
    requires ops != [] && g'.height == g.height && g'.width == g.width
    requires forall k :: 0 <= k < |ops| ==> g.IsValidCoord(ops[k].0)
    ensures forall k :: 0 <= k < |ops[1..]| ==> g'.IsValidCoord(ops[1..][k].0)
  {
    forall k | 0 <= k < |ops[1..]| ensures g'.IsValidCoord(ops[1..][k].0) {
      assert ops[1..][k] == ops[k + 1];
    }
  }

  /** A run of updates, each a cell and its new value, in order. */
  function UpdatesMarks(m: Marks, ops: seq<(Coord, bool)>): (r: Marks)
    requires ValidMarks(m) && forall k :: 0 <= k < |ops| ==> m.hasClue.IsValidCoord(ops[k].0)
    ensures ValidMarks(r) && r.hasClue.height == m.hasClue.height && r.hasClue.width == m.hasClue.width
    decreases |ops|
  {
    if ops == [] then m
    else
      var u := UpdateMarks(m, ops[0].0, ops[0].1);
      OpsOnSameBoard(m.hasClue, u.hasClue, ops);
      UpdatesMarks(u, ops[1..])
  }

  /** Any run of updates is undone by the rollback after it. */
  lemma {:induction false} RollbackUpdates(m: Marks, ops: seq<(Coord, bool)>)
    requires ValidMarks(m) && forall k :: 0 <= k < |ops| ==> m.hasClue.IsValidCoord(ops[k].0)
    ensures RollbackMarks(UpdatesMarks(m, ops)) == RollbackMarks(m)
    decreases |ops|
  {
    if ops != [] {
      var u := UpdateMarks(m, ops[0].0, ops[0].1);
      RollbackUpdates(u, ops[1..]);
      RollbackUpdate(m, ops[0].0, ops[0].1);
    }
  }

  /**
   * `add_checkpoint`, any updates, then `rollback`: the marks, `n_clues`
   * and the log are all back as they were before the checkpoint, which is
   * consumed.
   */
  lemma {:induction false} CheckpointRollback(m: Marks, ops: seq<(Coord, bool)>)
    requires ValidMarks(m) && forall k :: 0 <= k < |ops| ==> m.hasClue.IsValidCoord(ops[k].0)
    ensures RollbackMarks(UpdatesMarks(CheckpointMarks(m), ops)) == m
  {
    var c := CheckpointMarks(m);
    RollbackUpdates(c, ops);
    assert c.history[|c.history| - 1] == Checkpoint && c.history[..|c.history| - 1] == m.history;
  }

  /** `HasClue`, the object `generate` updates in place. */
  class HasClue {
    var hasClue: Grid<bool>
    var nClues: int
    var history: seq<HasClueHistory>

    function State(): Marks
      reads this
    {
      Marks(hasClue, nClues, history)
    }

    ghost predicate Valid()
      reads this
    {
      ValidMarks(State())
    }

    /** `HasClue::new`. */
    constructor (height: int, width: int)
      requires height >= 0 && width >= 0
      ensures Valid() && State() == NewMarks(height, width)
    {
      var m := NewMarks(height, width);
      hasClue, nClues, history := m.hasClue, m.nClues, m.history;
    }

    method Update(loc: Coord, val: bool)
      requires Valid() && hasClue.IsValidCoord(loc)
      modifies this
      ensures Valid() && State() == UpdateMarks(old(State()), loc, val)
    {
      ghost var r := UpdateMarks(State(), loc, val);
      if hasClue.Get(loc) == val {
        return;
      }
      if val {
        nClues := nClues + 1;
      } else {
        nClues := nClues - 1;
      }
      history := history + [HasClueHistory.Update(loc, !val)];
      hasClue := hasClue.Set(loc, val);
      assert hasClue == r.hasClue && history == r.history && nClues == r.nClues;
    }

    /** `get`: the mark of a cell of the grid. */
    method Get(loc: Coord) returns (b: bool)
      requires Valid() && hasClue.IsValidCoord(loc)
      ensures b == hasClue.Get(loc)
    {
      b := hasClue.Get(loc);
    }

    method GetCheckedAt(loc: Coord) returns (b: bool)
      requires Valid()
      ensures b == GetChecked(hasClue, loc)
    {
      b := hasClue.IsValidCoord(loc) && hasClue.Get(loc);
    }

    method AddCheckpoint()
      requires Valid()
      modifies this
      ensures Valid() && State() == CheckpointMarks(old(State()))
    {
      history := history + [Checkpoint];
    }

    /** `rollback`: the loop that pops the log until a checkpoint or the end. */
    method Rollback()
      requires Valid()
      modifies this
      ensures Valid() && State() == RollbackMarks(old(State()))
    {
      while history != []
        invariant Valid() && RollbackMarks(State()) == RollbackMarks(old(State()))
        decreases |history|
      {
        var n := |history| - 1;
        var top := history[n];
        history := history[..n];
        match top
        case Checkpoint =>
          return;
        case Update(cd, v) =>
          CountSet(hasClue, cd, v);
          hasClue := hasClue.Set(cd, v);
          if v {
            nClues := nClues + 1;
          } else {
            nClues := nClues - 1;
          }
      }
    }

    method ForgetHistory()
      requires Valid()
      modifies this
      ensures Valid() && State() == ForgetMarks(old(State()))
    {
      history := [];
    }
  }

  // ---- `generate` ----

  /** The marks after the forced cells among the first `k` slots of `cons` are marked, in row-major order. */
  function ForcedUpTo(cons: Grid<ClueConstraint>, m: Marks, k: nat): (r: Marks)
    requires cons.Valid() && ValidMarks(m) && m.hasClue.height == cons.height && m.hasClue.width == cons.width
    requires k <= |cons.data|
    ensures ValidMarks(r) && r.hasClue.height == cons.height && r.hasClue.width == cons.width
  {
    if k == 0 then m
    else
      var prev := ForcedUpTo(cons, m, k - 1);
      cons.IndexCoordOf(k - 1);
      var cd := cons.CoordOf(k - 1);
      if cons.data[k - 1] == Forced then UpdateMarks(prev, cd, true) else prev
  }

  /** Starting from no marks, a slot is marked after the first `k` exactly when it is one of them and forced. */
  lemma {:induction false} ForcedMarks(cons: Grid<ClueConstraint>, m: Marks, k: nat, i: nat)
    requires cons.Valid() && ValidMarks(m) && m.hasClue.height == cons.height && m.hasClue.width == cons.width
    requires k <= |cons.data| && i < |cons.data|
    requires forall j :: 0 <= j < |m.hasClue.data| ==> !m.hasClue.data[j]
    ensures ForcedUpTo(cons, m, k).hasClue.data[i] == (i < k && cons.data[i] == Forced)
  {
    if k > 0 {
      ForcedMarks(cons, m, k - 1, i);
      var prev := ForcedUpTo(cons, m, k - 1);
      cons.IndexCoordOf(k - 1);
      var cd := cons.CoordOf(k - 1);
      if cons.data[k - 1] == Forced {
        prev.hasClue.IndexInRange(cd);
      }
    }
  }

  /** The marks of the forced cells: exactly those, and `n_clues` their number. */
  lemma ForcedAll(cons: Grid<ClueConstraint>)
    requires cons.Valid()
    ensures var r := ForcedUpTo(cons, NewMarks(cons.height, cons.width), |cons.data|);
      && (forall i :: 0 <= i < |cons.data| ==> r.hasClue.data[i] == (cons.data[i] == Forced))
      && r.nClues == CountTrue(r.hasClue.data)
  {
    var m := NewMarks(cons.height, cons.width);
    forall i | 0 <= i < |cons.data|
      ensures ForcedUpTo(cons, m, |cons.data|).hasClue.data[i] == (cons.data[i] == Forced)
    {
      ForcedMarks(cons, m, |cons.data|, i);
    }
  }

  /** The loop of `generate` that marks every `Forced` cell. */
  method MarkForced(cons: Grid<ClueConstraint>) returns (h: HasClue)
    requires cons.Valid()
    ensures fresh(h) && h.Valid()
    ensures h.State() == ForcedUpTo(cons, NewMarks(cons.height, cons.width), |cons.data|)
  {
    h := new HasClue(cons.height, cons.width);
    ghost var m0 := h.State();
    var y := 0;
    while y < cons.height
      invariant 0 <= y <= cons.height && h.Valid()
      invariant y * cons.width <= |cons.data|
      invariant h.State() == ForcedUpTo(cons, m0, y * cons.width)
    {
      MulMonotone(y + 1, cons.height, cons.width);
      MarkForcedRow(h, cons, m0, y);
      y := y + 1;
    }
  }

  /** One row of that loop: the forced cells of row `y` are marked, left to right. */
  method MarkForcedRow(h: HasClue, cons: Grid<ClueConstraint>, ghost m0: Marks, y: int)
    requires cons.Valid() && ValidMarks(m0) && m0.hasClue.height == cons.height && m0.hasClue.width == cons.width
    requires 0 <= y < cons.height && (y + 1) * cons.width <= |cons.data|
    requires h.Valid() && h.State() == ForcedUpTo(cons, m0, y * cons.width)
    modifies h
    ensures h.Valid() && h.State() == ForcedUpTo(cons, m0, (y + 1) * cons.width)
  {
    var x := 0;
    while x < cons.width
      invariant 0 <= x <= cons.width && h.Valid()
      invariant h.State() == ForcedUpTo(cons, m0, y * cons.width + x)
    {
      var pos := Coord(y, x);
      ghost var k := y * cons.width + x;
      cons.IndexInRange(pos);
      cons.CoordOfIndex(pos);
      assert cons.CoordOf(k) == pos && cons.data[k] == cons.Get(pos);
      if cons.Get(pos) == Forced {
        h.Update(pos, true);
      }
      assert h.State() == ForcedUpTo(cons, m0, k + 1);
      x := x + 1;
    }
    assert (y + 1) * cons.width == y * cons.width + cons.width;
  }

  /** The cell symmetric to `loc` under a half turn. */
  function Opposite(height: int, width: int, loc: Coord): Coord {
    Coord(height - 1 - loc.y, width - 1 - loc.x)
  }

  /**
   * The marks one candidate `(loc, clue)` sets after its checkpoint: with
   * symmetry, removing a clue unmarks `loc` and its opposite only when the
   * opposite holds no clue, and adding one marks both; without symmetry
   * `loc` is marked as the clue is.
   */
  function CandidateMarks(m: Marks, problem: Grid<Clue>, loc: Coord, clue: Clue, symmetry: bool): (r: Marks)
    requires ValidMarks(m) && problem.Valid()
    requires problem.height == m.hasClue.height && problem.width == m.hasClue.width
    requires m.hasClue.IsValidCoord(loc)
    ensures ValidMarks(r) && r.hasClue.height == m.hasClue.height && r.hasClue.width == m.hasClue.width
  {
    var loc2 := Opposite(problem.height, problem.width, loc);
    if symmetry then
      if clue == NoClue then
        if problem.Get(loc2) == NoClue then UpdatesMarks(m, [(loc, false), (loc2, false)]) else m
      else UpdatesMarks(m, [(loc, true), (loc2, true)])
    else UpdateMarks(m, loc, clue != NoClue)
  }

  /** The updates a candidate makes, as a run of updates. */
  function CandidateOps(problem: Grid<Clue>, loc: Coord, clue: Clue, symmetry: bool): seq<(Coord, bool)>
    requires problem.Valid() && problem.IsValidCoord(loc)
  {
    var loc2 := Opposite(problem.height, problem.width, loc);
    if symmetry then
      if clue == NoClue then
        if problem.Get(loc2) == NoClue then [(loc, false), (loc2, false)] else []
      else [(loc, true), (loc2, true)]
    else [(loc, clue != NoClue)]
  }

  lemma CandidateIsOps(m: Marks, problem: Grid<Clue>, loc: Coord, clue: Clue, symmetry: bool)
    requires ValidMarks(m) && problem.Valid()
    requires problem.height == m.hasClue.height && problem.width == m.hasClue.width
    requires m.hasClue.IsValidCoord(loc)
    ensures var ops := CandidateOps(problem, loc, clue, symmetry);
      && (forall k :: 0 <= k < |ops| ==> m.hasClue.IsValidCoord(ops[k].0))
      && CandidateMarks(m, problem, loc, clue, symmetry) == UpdatesMarks(m, ops)
  {
    if !symmetry {
      var u := UpdateMarks(m, loc, clue != NoClue);
      assert UpdatesMarks(m, [(loc, clue != NoClue)]) == UpdatesMarks(u, []);
    }
  }

  /** `max_clue < n_clues`: too many clues for the options. */
  predicate TooManyClues(maxClue: Option<int>, nClues: int) {
    maxClue.Some? && maxClue.value < nClues
  }

  /**
   * The first part of one candidate's trial: a checkpoint, the candidate's
   * marks, and a rollback when they exceed `max_clue`.
   */
  method TryCandidate(h: HasClue, problem: Grid<Clue>, loc: Coord, clue: Clue, symmetry: bool, maxClue: Option<int>)
    returns (rejected: bool)
    requires h.Valid() && problem.Valid()
    requires problem.height == h.hasClue.height && problem.width == h.hasClue.width
    requires h.hasClue.IsValidCoord(loc)
    modifies h
    ensures h.Valid()
    ensures var marked := CandidateMarks(CheckpointMarks(old(h.State())), problem, loc, clue, symmetry);
      && rejected == TooManyClues(maxClue, marked.nClues)
      && h.State() == if rejected then RollbackMarks(marked) else marked
  {
    h.AddCheckpoint();
    MarkCandidate(h, problem, loc, clue, symmetry);
    rejected := false;
    if maxClue.Some? {
      if maxClue.value < h.nClues {
        h.Rollback();
        rejected := true;
      }
    }
  }

  /** The marks one candidate sets, made on the object. */
  method MarkCandidate(h: HasClue, problem: Grid<Clue>, loc: Coord, clue: Clue, symmetry: bool)
    requires h.Valid() && problem.Valid()
    requires problem.height == h.hasClue.height && problem.width == h.hasClue.width
    requires h.hasClue.IsValidCoord(loc)
    modifies h
    ensures h.Valid() && h.State() == CandidateMarks(old(h.State()), problem, loc, clue, symmetry)
  {
    var loc2 := Opposite(problem.height, problem.width, loc);
    if symmetry {
      if clue == NoClue {
        if problem.Get(loc2) == NoClue {
          MarkPair(h, loc, loc2, false);
        }
      } else {
        MarkPair(h, loc, loc2, true);
      }
    } else {
      h.Update(loc, clue != NoClue);
    }
  }

  /** Two updates to the same value, in order. */
  method MarkPair(h: HasClue, a: Coord, b: Coord, v: bool)
    requires h.Valid() && h.hasClue.IsValidCoord(a) && h.hasClue.IsValidCoord(b)
    modifies h
    ensures h.Valid() && h.State() == UpdatesMarks(old(h.State()), [(a, v), (b, v)])
  {
    h.Update(a, v);
    ghost var u := h.State();
    h.Update(b, v);
    assert [(a, v), (b, v)][1..] == [(b, v)];
    assert UpdatesMarks(u, [(b, v)]) == UpdatesMarks(UpdateMarks(u, b, v), []);
  }

  /** A candidate that exceeds `max_clue` leaves the marks, `n_clues` and the log exactly as they were. */
  lemma RejectedRestores(m: Marks, problem: Grid<Clue>, loc: Coord, clue: Clue, symmetry: bool)
    requires ValidMarks(m) && problem.Valid()
    requires problem.height == m.hasClue.height && problem.width == m.hasClue.width
    requires m.hasClue.IsValidCoord(loc)
    ensures RollbackMarks(CandidateMarks(CheckpointMarks(m), problem, loc, clue, symmetry)) == m
  {
    var c := CheckpointMarks(m);
    CandidateIsOps(c, problem, loc, clue, symmetry);
    CheckpointRollback(m, CandidateOps(problem, loc, clue, symmetry));
  }

  /** What the `clue_filled` loop evidently means: every marked cell holds a clue. */
  predicate ClueFilledSpec(hasClue: Grid<bool>, problem: Grid<Clue>)
    requires hasClue.Valid() && problem.Valid() && |hasClue.data| == |problem.data|
  {
    forall i :: 0 <= i < |hasClue.data| ==> hasClue.data[i] ==> problem.data[i] != NoClue
  }

  /**
   * The `clue_filled` loop as written: it runs over every cell but tests
   * the candidate's cell `loc` each time, so it only asks whether `loc` is
   * marked and empty.
   */
  method ClueFilledAsWritten(hasClue: Grid<bool>, problem: Grid<Clue>, loc: Coord) returns (filled: bool)
    requires hasClue.Valid() && problem.Valid()
    requires problem.height == hasClue.height && problem.width == hasClue.width
    requires hasClue.IsValidCoord(loc)
    ensures filled == !(hasClue.Get(loc) && problem.Get(loc) == NoClue)
  {
    filled := true;
    var y := 0;
    while y < hasClue.height
      invariant 0 <= y <= hasClue.height
      invariant filled == (y == 0 || !(hasClue.Get(loc) && problem.Get(loc) == NoClue))
    {
      var x := 0;
      while x < hasClue.width
        invariant 0 <= x <= hasClue.width
        invariant filled == ((y == 0 && x == 0) || !(hasClue.Get(loc) && problem.Get(loc) == NoClue))
      {
        if hasClue.Get(loc) && problem.Get(loc) == NoClue {
          filled := false;
        }
        x := x + 1;
      }
      y := y + 1;
    }
  }

  /** The loop as intended: it tests each cell it visits. */
  method ClueFilled(hasClue: Grid<bool>, problem: Grid<Clue>) returns (filled: bool)
    requires hasClue.Valid() && problem.Valid()
    requires problem.height == hasClue.height && problem.width == hasClue.width
    ensures filled == ClueFilledSpec(hasClue, problem)
  {
    filled := true;
    var y := 0;
    while y < hasClue.height
      invariant 0 <= y <= hasClue.height
      invariant filled == forall i :: 0 <= i < |hasClue.data| && i < y * hasClue.width ==> hasClue.data[i] ==> problem.data[i] != NoClue
    {
      var x := 0;
      while x < hasClue.width
        invariant 0 <= x <= hasClue.width
        invariant filled == forall i :: 0 <= i < |hasClue.data| && i < y * hasClue.width + x ==> hasClue.data[i] ==> problem.data[i] != NoClue
      {
        var pos := Coord(y, x);
        hasClue.IndexInRange(pos);
        if hasClue.Get(pos) && problem.Get(pos) == NoClue {
          filled := false;
        }
        x := x + 1;
      }
      assert (y + 1) * hasClue.width == y * hasClue.width + hasClue.width;
      y := y + 1;
    }
  }

  /**
   * On a 1x2 board with both cells marked, a clue at `loc = (0, 0)` and none
   * at (0, 1), the loop as written reports every marked cell filled.
   */
  lemma ClueFilledMissesCell()
    ensures var hc := Grid(1, 2, [true, true]); var pr := Grid(1, 2, [Clue(1), NoClue]);
      && hc.Valid() && hc.IsValidCoord(Coord(0, 0)) && pr.Valid() && pr.IsValidCoord(Coord(0, 0))
      && !(hc.Get(Coord(0, 0)) && pr.Get(Coord(0, 0)) == NoClue)
      && !ClueFilledSpec(hc, pr)
  {
    var hc := Grid(1, 2, [true, true]);
    var pr := Grid(1, 2, [Clue(1), NoClue]);
    assert hc.data[1] && pr.data[1] == NoClue;
  }
}
