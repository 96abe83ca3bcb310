/**
 * src/yajilin/generator.rs: the annealing generator of Yajilin problems.
 * The candidate list, the dead-end test on the clue mask, and the clue
 * bookkeeping of `generate`, which keeps `has_clue` and `n_clues` in step
 * with the problem and puts a rejected candidate back.
 *
 * The solver run on each tentative problem (`Field::new` followed by
 * `trial_and_error(2)`), the shuffle and the random acceptance draw are
 * parameters of `Generate`.
 */
module YajilinGenerator {
  import opened Wrappers
  import opened Common
  import opened YajilinBase
  import opened DecidedGrid

  /** A tentative change: put `clue` at `loc`. */
  datatype Candidate = Candidate(loc: Coord, clue: Clue)

  /** An arrow clue in direction `a` with number `n`. */
  function ArrowClue(a: Arrow, n: int): (c: Clue)
    ensures ArrowOf(c) == Some(a) && ClueNumber(c) == n
  {
    match a
    case ArrowUp => Up(n)
    case ArrowLeft => Left(n)
    case ArrowDown => Down(n)
    case ArrowRight => Right(n)
  }

  /** An arrow clue is determined by its direction and number. */
  lemma ArrowClueUnique(c: Clue)
    requires ArrowOf(c).Some?
    ensures c == ArrowClue(ArrowOf(c).value, ClueNumber(c))
  {
  }

  // ---------------------------------------------------------------
  // Candidate numbers
  // ---------------------------------------------------------------

  /** How many cells an arrow at `pos` looks along, up to the border. */
  function SeenCells(height: int, width: int, pos: Coord, a: Arrow): int {
    match a
    case ArrowUp => pos.y
    case ArrowLeft => pos.x
    case ArrowDown => height - 1 - pos.y
    case ArrowRight => width - 1 - pos.x
  }

  /**
   * The most cells of a row of `n` that can be blocked when no two
   * blocked cells touch: either the first cell stays open, or it is
   * blocked and the second stays open.
   */
  function MaxBlocks(n: nat): nat {
    if n == 0 then 0
    else if n == 1 then 1
    else
      var keep := MaxBlocks(n - 1);
      var take := 1 + MaxBlocks(n - 2);
      if keep < take then take else keep
  }

  /** A row of `n` cells holds at most ⌈n/2⌉ blocked cells. */
  lemma {:induction false} MaxBlocksHalf(n: nat)
    ensures MaxBlocks(n) == (n + 1) / 2
  {
    if n >= 2 {
      MaxBlocksHalf(n - 1);
      MaxBlocksHalf(n - 2);
    }
  }

  /**
   * The exclusive upper bound of the candidate numbers of arrow `a` at
   * `pos` (src/yajilin/generator.rs:28-39), with the Down bound corrected
   * to `(height - y + 2) / 2` (see `NumberBoundAsWritten`).
   */
  function NumberBound(height: int, width: int, pos: Coord, a: Arrow): int {
    match a
    case ArrowUp => (pos.y + 3) / 2
    case ArrowLeft => (pos.x + 3) / 2
    case ArrowDown => (height - pos.y + 2) / 2
    case ArrowRight => (width - pos.x + 2) / 2
  }

  /** The bounds as the loops write them: the Down loop stops at `(height - y) / 2`. */
  function NumberBoundAsWritten(height: int, width: int, pos: Coord, a: Arrow): int {
    if a == ArrowDown then (height - pos.y) / 2 else NumberBound(height, width, pos, a)
  }

  /**
   * Every candidate number is one an arrow at `pos` can show: they run
   * from 1 to the most blocked cells the cells it sees can hold.
   */
  lemma NumberBoundIsMax(height: int, width: int, pos: Coord, a: Arrow)
    requires 0 <= pos.y < height && 0 <= pos.x < width
    ensures NumberBound(height, width, pos, a) == MaxBlocks(SeenCells(height, width, pos, a)) + 1
  {
    MaxBlocksHalf(SeenCells(height, width, pos, a));
  }

  /**
   * As written, the Down loop stops one short: it never offers the
   * largest number a down arrow can show, while the other three
   * directions do.
   */
  lemma DownBoundShort(height: int, width: int, pos: Coord)
    requires 0 <= pos.y < height && 0 <= pos.x < width
    ensures NumberBoundAsWritten(height, width, pos, ArrowDown) == MaxBlocks(SeenCells(height, width, pos, ArrowDown))
    ensures forall a :: a != ArrowDown ==>
      NumberBoundAsWritten(height, width, pos, a) == MaxBlocks(SeenCells(height, width, pos, a)) + 1
  {
    MaxBlocksHalf(SeenCells(height, width, pos, ArrowDown));
    forall a | a != ArrowDown
      ensures NumberBoundAsWritten(height, width, pos, a) == MaxBlocks(SeenCells(height, width, pos, a)) + 1
    {
      NumberBoundIsMax(height, width, pos, a);
    }
  }

  /**
   * On a board of one column and three rows, the top cell sees two
   * cells below and one of them can be blocked, yet `Down(1)` is not
   * offered there. The bottom cell is offered `Up(1)`.
   */
  lemma DownBoundExample()
    ensures MaxBlocks(SeenCells(3, 1, Coord(0, 0), ArrowDown)) == 1
    ensures !(1 < NumberBoundAsWritten(3, 1, Coord(0, 0), ArrowDown))
    ensures 1 < NumberBoundAsWritten(3, 1, Coord(2, 0), ArrowUp)
    ensures 1 < NumberBound(3, 1, Coord(0, 0), ArrowDown)
  {
  }

  /** A clue the generator may leave at `pos`: an arrow whose number is in range. */
  predicate Placeable(height: int, width: int, pos: Coord, c: Clue) {
    ArrowOf(c).Some? && 1 <= ClueNumber(c) < NumberBound(height, width, pos, ArrowOf(c).value)
  }

  /**
   * The candidates of one round: an in-range arrow at any cell, or
   * removing the clue of a cell that has one.
   */
  predicate IsCandidate(problem: Grid<Clue>, c: Candidate)
    requires problem.Valid()
  {
    && problem.IsValidCoord(c.loc)
    && (if c.clue == NoClue then problem.Get(c.loc) != NoClue
        else Placeable(problem.height, problem.width, c.loc, c.clue))
  }

  /** `for i in 1..bound { push((pos, arrow(i))) }`. */
  method ArrowCandidates(pos: Coord, a: Arrow, bound: int) returns (cs: seq<Candidate>)
    ensures forall c :: c in cs <==> c.loc == pos && ArrowOf(c.clue) == Some(a) && 1 <= ClueNumber(c.clue) < bound
  {
    cs := [];
    var i := 1;
    while i < bound
      invariant 1 <= i && (i <= bound || i == 1)
      invariant forall c :: c in cs <==> c.loc == pos && ArrowOf(c.clue) == Some(a) && 1 <= ClueNumber(c.clue) < i
    {
      forall c: Candidate | c.loc == pos && ArrowOf(c.clue) == Some(a) && ClueNumber(c.clue) == i
        ensures c == Candidate(pos, ArrowClue(a, i))
      {
        ArrowClueUnique(c.clue);
      }
      cs := cs + [Candidate(pos, ArrowClue(a, i))];
      i := i + 1;
    }
  }

  /** The candidates the loops push for one cell. */
  method CellCandidates(problem: Grid<Clue>, pos: Coord) returns (cs: seq<Candidate>)
    requires problem.Valid() && problem.IsValidCoord(pos)
    ensures forall c :: c in cs <==> c.loc == pos && IsCandidate(problem, c)
  {
    var h, w := problem.height, problem.width;
    var up := ArrowCandidates(pos, ArrowUp, NumberBound(h, w, pos, ArrowUp));
    var left := ArrowCandidates(pos, ArrowLeft, NumberBound(h, w, pos, ArrowLeft));
    var down := ArrowCandidates(pos, ArrowDown, NumberBound(h, w, pos, ArrowDown));
    var right := ArrowCandidates(pos, ArrowRight, NumberBound(h, w, pos, ArrowRight));
    cs := up + left + down + right;
    if problem.Get(pos) != NoClue {
      cs := cs + [Candidate(pos, NoClue)];
    }
    forall c: Candidate | c.loc == pos && IsCandidate(problem, c) && c.clue != NoClue
      ensures c in up + left + down + right
    {
      match ArrowOf(c.clue).value
      case ArrowUp => assert c in up;
      case ArrowLeft => assert c in left;
      case ArrowDown => assert c in down;
      case ArrowRight => assert c in right;
    }
  }

  /** `(y, x)` comes before `(py, px)` in row-major order. */
  predicate Before(c: Coord, py: int, px: int) {
    c.y < py || (c.y == py && c.x < px)
  }

  /** The candidate list of one round (src/yajilin/generator.rs:24-43), before the shuffle. */
  method UpdateCandidates(problem: Grid<Clue>) returns (cand: seq<Candidate>)
    requires problem.Valid()
    ensures forall c :: c in cand <==> IsCandidate(problem, c)
  {
    cand := [];
    var y := 0;
    while y < problem.height
      invariant 0 <= y <= problem.height
      invariant forall c :: c in cand <==> IsCandidate(problem, c) && c.loc.y < y
    {
      var x := 0;
      while x < problem.width
        invariant 0 <= x <= problem.width
        invariant forall c :: c in cand <==> IsCandidate(problem, c) && Before(c.loc, y, x)
      {
        var cs := CellCandidates(problem, Coord(y, x));
        cand := cand + cs;
        x := x + 1;
      }
      y := y + 1;
    }
  }

  // ---------------------------------------------------------------
  // Dead ends
  // ---------------------------------------------------------------

  /** `!has_clue.get_or_default_p(p, true)`: `p` is on the board and holds no clue. */
  predicate Open(hasClue: Grid<bool>, p: Coord)
    requires hasClue.Valid()
  {
    hasClue.IsValidCoord(p) && !hasClue.Get(p)
  }

  /** How many of the first `k` of the four neighbours of `pos` are open. */
  function OpenAround(hasClue: Grid<bool>, pos: Coord, k: nat): (n: nat)
    requires hasClue.Valid() && k <= 4
    ensures n <= k
  {
    if k == 0 then 0
    else OpenAround(hasClue, pos, k - 1) + (if Open(hasClue, CoordAdd(pos, FourNeighbours[k - 1])) then 1 else 0)
  }

  /** `is_dead_end`: a cell of the board with at most one open neighbour. */
  predicate DeadEnd(hasClue: Grid<bool>, pos: Coord)
    requires hasClue.Valid()
  {
    hasClue.IsValidCoord(pos) && OpenAround(hasClue, pos, 4) <= 1
  }

  /** The neighbour `k` of `pos` is open. */
  predicate OpenAt(hasClue: Grid<bool>, pos: Coord, k: int)
    requires hasClue.Valid() && 0 <= k < 4
  {
    Open(hasClue, CoordAdd(pos, FourNeighbours[k]))
  }

  /** At most one open neighbour means: no two distinct neighbours are both open. */
  lemma DeadEndPairs(hasClue: Grid<bool>, pos: Coord)
    requires hasClue.Valid()
    ensures DeadEnd(hasClue, pos) <==>
      hasClue.IsValidCoord(pos) && forall j, k :: 0 <= j < k < 4 && OpenAt(hasClue, pos, j) ==> !OpenAt(hasClue, pos, k)
  {
    assert OpenAround(hasClue, pos, 1) == (if OpenAt(hasClue, pos, 0) then 1 else 0);
    assert OpenAround(hasClue, pos, 2) == OpenAround(hasClue, pos, 1) + (if OpenAt(hasClue, pos, 1) then 1 else 0);
    assert OpenAround(hasClue, pos, 3) == OpenAround(hasClue, pos, 2) + (if OpenAt(hasClue, pos, 2) then 1 else 0);
    assert OpenAround(hasClue, pos, 4) == OpenAround(hasClue, pos, 3) + (if OpenAt(hasClue, pos, 3) then 1 else 0);
  }

  /** `is_dead_end` (src/yajilin/generator.rs:101-112). */
  method IsDeadEnd(pos: Coord, hasClue: Grid<bool>) returns (b: bool)
    requires hasClue.Valid()
    ensures b == DeadEnd(hasClue, pos)
  {
    if !hasClue.IsValidCoord(pos) {
      return false;
    }
    var count := 0;
    var k := 0;
    while k < 4
      invariant 0 <= k <= 4 && count == OpenAround(hasClue, pos, k)
    {
      var p := CoordAdd(pos, FourNeighbours[k]);
      if !(if hasClue.IsValidCoord(p) then hasClue.Get(p) else true) {
        count := count + 1;
      }
      k := k + 1;
    }
    b := count <= 1;
  }

  /** `pos` or one of its four neighbours is a dead end. */
  predicate DeadEndNear(hasClue: Grid<bool>, loc: Coord)
    requires hasClue.Valid()
  {
    DeadEnd(hasClue, loc) || exists k :: 0 <= k < 4 && DeadEnd(hasClue, CoordAdd(loc, FourNeighbours[k]))
  }

  /** `has_dead_end_nearby` (src/yajilin/generator.rs:94-100). */
  method HasDeadEndNearby(loc: Coord, hasClue: Grid<bool>) returns (b: bool)
    requires hasClue.Valid()
    ensures b == DeadEndNear(hasClue, loc)
  {
    b := IsDeadEnd(loc, hasClue);
    if !b {
      b := IsDeadEnd(CoordAdd(loc, Dir(-1, 0)), hasClue);
      if b { assert DeadEnd(hasClue, CoordAdd(loc, FourNeighbours[0])); }
    }
    if !b {
      b := IsDeadEnd(CoordAdd(loc, Dir(1, 0)), hasClue);
      if b { assert DeadEnd(hasClue, CoordAdd(loc, FourNeighbours[2])); }
    }
    if !b {
      b := IsDeadEnd(CoordAdd(loc, Dir(0, -1)), hasClue);
      if b { assert DeadEnd(hasClue, CoordAdd(loc, FourNeighbours[1])); }
    }
    if !b {
      b := IsDeadEnd(CoordAdd(loc, Dir(0, 1)), hasClue);
      if b { assert DeadEnd(hasClue, CoordAdd(loc, FourNeighbours[3])); }
    }
  }

  /** No cell of the board is a dead end. */
  ghost predicate NoDeadEnd(hasClue: Grid<bool>)
    requires hasClue.Valid()
  {
    forall p :: !DeadEnd(hasClue, p)
  }

  /** On a board at least two cells high and wide, with no clues, no cell is a dead end. */
  lemma EmptyNoDeadEnd(height: int, width: int)
    requires height >= 2 && width >= 2
    ensures NoDeadEnd(NewGrid(height, width, false))
  {
    var g := NewGrid(height, width, false);
    forall p | g.IsValidCoord(p)
      ensures !DeadEnd(g, p)
    {
      forall k | 0 <= k < 4 && g.IsValidCoord(CoordAdd(p, FourNeighbours[k]))
        ensures OpenAt(g, p, k)
      {
        g.IndexInRange(CoordAdd(p, FourNeighbours[k]));
      }
      var j: int := if p.y > 0 then 0 else 2;
      var k: int := if p.x > 0 then 1 else 3;
      assert OpenAt(g, p, j) && OpenAt(g, p, k);
      DeadEndPairs(g, p);
      if j < k {
      } else {
        assert OpenAt(g, p, k) && OpenAt(g, p, j);
      }
    }
  }

  /** A cell farther than one step from `loc` keeps its dead-end status when `loc` is rewritten. */
  lemma DeadEndLocal(hasClue: Grid<bool>, loc: Coord, v: bool, p: Coord)
    requires hasClue.Valid() && hasClue.IsValidCoord(loc)
    requires p != loc && forall k :: 0 <= k < 4 ==> p != CoordAdd(loc, FourNeighbours[k])
    ensures DeadEnd(hasClue.Set(loc, v), p) == DeadEnd(hasClue, p)
  {
    var g := hasClue.Set(loc, v);
    forall k | 0 <= k < 4
      ensures OpenAt(g, p, k) == OpenAt(hasClue, p, k)
    {
      var q := CoordAdd(p, FourNeighbours[k]);
      assert q != loc by {
        assert p != CoordAdd(loc, FourNeighbours[(k + 2) % 4]);
      }
      if hasClue.IsValidCoord(q) {
        GetSet(hasClue, loc, v, q);
      }
    }
    DeadEndPairs(g, p);
    DeadEndPairs(hasClue, p);
  }

  /** Rewriting `loc` without a dead end near it leaves a board without dead ends. */
  lemma NoDeadEndKept(hasClue: Grid<bool>, loc: Coord, v: bool)
    requires hasClue.Valid() && hasClue.IsValidCoord(loc) && NoDeadEnd(hasClue)
    requires !DeadEndNear(hasClue.Set(loc, v), loc)
    ensures NoDeadEnd(hasClue.Set(loc, v))
  {
    var g := hasClue.Set(loc, v);
    forall p
      ensures !DeadEnd(g, p)
    {
      if p == loc {
      } else if exists k :: 0 <= k < 4 && p == CoordAdd(loc, FourNeighbours[k]) {
        var k :| 0 <= k < 4 && p == CoordAdd(loc, FourNeighbours[k]);
        assert !DeadEnd(g, CoordAdd(loc, FourNeighbours[k]));
      } else {
        DeadEndLocal(hasClue, loc, v, p);
      }
    }
  }

  // ---------------------------------------------------------------
  // The generator's state
  // ---------------------------------------------------------------

  /** `has_clue` as it should be for `problem`: the cells holding a clue. */
  function ClueMask(problem: Grid<Clue>): (m: Grid<bool>)
    requires problem.Valid()
    ensures m.Valid() && m.height == problem.height && m.width == problem.width
    ensures forall i :: 0 <= i < |m.data| ==> m.data[i] == (problem.data[i] != NoClue)
  {
    Grid(problem.height, problem.width, seq(|problem.data|, i requires 0 <= i < |problem.data| => problem.data[i] != NoClue))
  }

  /** Writing a clue writes its mark. */
  lemma ClueMaskSet(problem: Grid<Clue>, loc: Coord, c: Clue)
    requires problem.Valid() && problem.IsValidCoord(loc)
    ensures ClueMask(problem.Set(loc, c)) == ClueMask(problem).Set(loc, c != NoClue)
    ensures ClueMask(problem).Get(loc) == (problem.Get(loc) != NoClue)
  {
    problem.IndexInRange(loc);
  }

  /** The number of cells holding a clue. */
  function ClueCount(problem: Grid<Clue>): int {
    |problem.data| - CountOf(problem.data, NoClue)
  }

  /** Writing a clue moves the count by the clue taken out and the clue put in. */
  lemma ClueCountSet(problem: Grid<Clue>, loc: Coord, c: Clue)
    requires problem.Valid() && problem.IsValidCoord(loc)
    ensures ClueCount(problem.Set(loc, c)) ==
      ClueCount(problem) - (if problem.Get(loc) == NoClue then 0 else 1) + (if c == NoClue then 0 else 1)
  {
    problem.IndexInRange(loc);
    CountOfUpdate(problem.data, problem.Index(loc), c, NoClue);
  }

  /** Every clue of `problem` is one the candidates could have put there. */
  ghost predicate WellClued(problem: Grid<Clue>)
    requires problem.Valid()
  {
    forall p :: problem.IsValidCoord(p) && problem.Get(p) != NoClue ==> Placeable(problem.height, problem.width, p, problem.Get(p))
  }

  /** The invariant of `generate`: `has_clue` marks the clues, `n_clues` counts them, and each is in range. */
  ghost predicate GenInv(problem: Grid<Clue>, hasClue: Grid<bool>, nClues: int, height: int, width: int) {
    && problem.Valid() && problem.height == height && problem.width == width
    && hasClue == ClueMask(problem)
    && nClues == ClueCount(problem)
    && WellClued(problem)
  }

  /** Putting a candidate of `problem` into it keeps every clue in range. */
  lemma WellCluedSet(problem: Grid<Clue>, c: Candidate)
    requires problem.Valid() && WellClued(problem) && IsCandidate(problem, c)
    ensures WellClued(problem.Set(c.loc, c.clue))
  {
    var q := problem.Set(c.loc, c.clue);
    forall p | q.IsValidCoord(p) && q.Get(p) != NoClue
      ensures Placeable(q.height, q.width, p, q.Get(p))
    {
      GetSet(problem, c.loc, c.clue, p);
    }
  }

  /** Writing a cell's own value back restores the grid. */
  lemma SetBack<T>(g: Grid<T>, loc: Coord, v: T)
    requires g.Valid() && g.IsValidCoord(loc)
    ensures g.Set(loc, v).Set(loc, g.Get(loc)) == g
  {
    g.IndexInRange(loc);
    assert g.Set(loc, v).Set(loc, g.Get(loc)).data == g.data;
  }

  /**
   * What the solver reports on a tentative problem (`Field::new` and
   * `trial_and_error(2)`): whether it found a contradiction, how many
   * edges it decided, and whether it decided everything.
   */
  datatype Evaluation = Evaluation(inconsistent: bool, decidedEdges: int, fullySolved: bool)

  /** The outcome of one candidate. */
  datatype Trial = Trial(accepted: bool, problem: Grid<Clue>, hasClue: Grid<bool>, nClues: int, score: int)

  /**
   * One pass of the candidate loop (src/yajilin/generator.rs:49-81). A
   * candidate that makes a dead end near it, or that the solver or the
   * draw rejects, is put back; an accepted one is kept with its new
   * `n_clues` and score.
   */
  method TryCandidate(problem: Grid<Clue>, hasClue: Grid<bool>, nClues: int, currentScore: int,
                      c: Candidate, disallowDeadEnds: bool,
                      evaluate: Grid<Clue> -> Evaluation, draw: int -> bool)
    returns (t: Trial)
    requires GenInv(problem, hasClue, nClues, problem.height, problem.width) && IsCandidate(problem, c)
    ensures GenInv(t.problem, t.hasClue, t.nClues, problem.height, problem.width)
    ensures !t.accepted ==> t.problem == problem && t.hasClue == hasClue && t.nClues == nClues
    ensures t.accepted ==>
      && t.problem == problem.Set(c.loc, c.clue)
      && !evaluate(t.problem).inconsistent
      && t.score == evaluate(t.problem).decidedEdges - t.nClues * 25
      && (currentScore < t.score || draw(t.score - currentScore))
      && (disallowDeadEnds ==> !DeadEndNear(t.hasClue, c.loc))
  {
    var loc, clue := c.loc, c.clue;
    var previousClue := problem.Get(loc);
    ClueMaskSet(problem, loc, clue);
    var mask := hasClue.Set(loc, clue != NoClue);
    if disallowDeadEnds {
      var dead := HasDeadEndNearby(loc, mask);
      if dead {
        SetBack(hasClue, loc, clue != NoClue);
        mask := mask.Set(loc, previousClue != NoClue);
        return Trial(false, problem, mask, nClues, currentScore);
      }
    }
    var next := problem.Set(loc, clue);
    var ev := evaluate(next);
    var newNClues := nClues - (if previousClue == NoClue then 0 else 1) + (if clue == NoClue then 0 else 1);
    ClueCountSet(problem, loc, clue);
    WellCluedSet(problem, c);
    var score := ev.decidedEdges - newNClues * 25;
    var update := !ev.inconsistent && (currentScore < score || draw(score - currentScore));
    if update {
      t := Trial(true, next, mask, newNClues, score);
    } else {
      SetBack(problem, loc, clue);
      SetBack(hasClue, loc, clue != NoClue);
      t := Trial(false, next.Set(loc, previousClue), mask.Set(loc, previousClue != NoClue), nClues, currentScore);
    }
  }

  /** The outcome of one round of candidates. */
  datatype Round = Round(updated: bool, solved: bool, problem: Grid<Clue>, hasClue: Grid<bool>, nClues: int, score: int)

  /**
   * The candidate loop of one round: the first accepted candidate ends
   * it; when none is accepted, every rejected one was put back and the
   * state is as it was.
   */
  method RunRound(problem: Grid<Clue>, hasClue: Grid<bool>, nClues: int, currentScore: int,
                  order: seq<Candidate>, disallowDeadEnds: bool, step: nat,
                  evaluate: Grid<Clue> -> Evaluation, accept: (nat, nat, int) -> bool)
    returns (r: Round)
    requires GenInv(problem, hasClue, nClues, problem.height, problem.width)
    requires forall c :: c in order ==> IsCandidate(problem, c)
    ensures GenInv(r.problem, r.hasClue, r.nClues, problem.height, problem.width)
    ensures !r.updated ==> !r.solved && r.problem == problem && r.hasClue == hasClue && r.nClues == nClues && r.score == currentScore
    ensures r.updated ==> exists c :: c in order && problem.IsValidCoord(c.loc) && r.problem == problem.Set(c.loc, c.clue)
    ensures r.updated ==> !evaluate(r.problem).inconsistent && r.score == evaluate(r.problem).decidedEdges - r.nClues * 25
    ensures r.solved ==> r.updated && evaluate(r.problem).fullySolved
    ensures disallowDeadEnds && NoDeadEnd(hasClue) ==> NoDeadEnd(r.hasClue)
  {
    var i := 0;
    while i < |order|
      invariant 0 <= i <= |order|
    {
      var c := order[i];
      var t := TryCandidate(problem, hasClue, nClues, currentScore, c, disallowDeadEnds, evaluate, d => accept(step, i, d));
      if t.accepted {
        if disallowDeadEnds && NoDeadEnd(hasClue) {
          ClueMaskSet(problem, c.loc, c.clue);
          NoDeadEndKept(hasClue, c.loc, c.clue != NoClue);
        }
        var solved := evaluate(t.problem).fullySolved;
        return Round(true, solved, t.problem, t.hasClue, t.nClues, t.score);
      }
      i := i + 1;
    }
    r := Round(false, false, problem, hasClue, nClues, currentScore);
  }

  /** The state `generate` starts from: no clue anywhere. */
  lemma InitialState(height: int, width: int)
    requires height >= 0 && width >= 0
    ensures GenInv(NewGrid(height, width, NoClue), NewGrid(height, width, false), 0, height, width)
  {
    var problem := NewGrid(height, width, NoClue);
    CountOfAll(problem.data, NoClue);
    var mask := ClueMask(problem);
    var empty := NewGrid(height, width, false);
    assert forall i :: 0 <= i < |mask.data| ==> mask.data[i] == empty.data[i];
    assert mask.data == empty.data;
    forall p | problem.IsValidCoord(p)
      ensures problem.Get(p) == NoClue
    {
      problem.IndexInRange(p);
    }
  }

  /**
   * One round of `generate`: the candidate list, its shuffle, and the
   * candidate loop over the shuffled list.
   */
  method GenerateRound(problem: Grid<Clue>, hasClue: Grid<bool>, nClues: int, currentScore: int,
                       disallowDeadEnds: bool, step: nat,
                       evaluate: Grid<Clue> -> Evaluation,
                       shuffle: (nat, seq<Candidate>) -> seq<Candidate>,
                       accept: (nat, nat, int) -> bool)
    returns (r: Round)
    requires GenInv(problem, hasClue, nClues, problem.height, problem.width)
    requires forall t: nat, s :: multiset(shuffle(t, s)) == multiset(s)
    ensures GenInv(r.problem, r.hasClue, r.nClues, problem.height, problem.width)
    ensures r.solved ==> !evaluate(r.problem).inconsistent && evaluate(r.problem).fullySolved
    ensures disallowDeadEnds && NoDeadEnd(hasClue) ==> NoDeadEnd(r.hasClue)
  {
    var cand := UpdateCandidates(problem);
    var order := shuffle(step, cand);
    assert multiset(order) == multiset(cand);
    forall c | c in order
      ensures IsCandidate(problem, c)
    {
      assert c in multiset(order);
    }
    r := RunRound(problem, hasClue, nClues, currentScore, order, disallowDeadEnds, step, evaluate, accept);
  }

  /**
   * `generate` (src/yajilin/generator.rs:9-92): rounds of shuffled
   * candidates until one round accepts nothing, a problem is fully
   * solved, or `height * width * 10` rounds have run. `evaluate` stands
   * for the solver run, `shuffle(step, list)` for the shuffle and
   * `accept(step, i, delta)` for the draw against the temperature.
   *
   * A returned problem was fully solved without contradiction, holds only
   * in-range arrows, and has no dead end when dead ends are disallowed
   * and the empty board has none.
   */
  method Generate(height: int, width: int, disallowDeadEnds: bool,
                  evaluate: Grid<Clue> -> Evaluation,
                  shuffle: (nat, seq<Candidate>) -> seq<Candidate>,
                  accept: (nat, nat, int) -> bool)
    returns (r: Option<Grid<Clue>>)
    requires height >= 0 && width >= 0
    requires forall t: nat, s :: multiset(shuffle(t, s)) == multiset(s)
    ensures r.Some? ==> r.value.Valid() && r.value.height == height && r.value.width == width
    ensures r.Some? ==> !evaluate(r.value).inconsistent && evaluate(r.value).fullySolved
    ensures r.Some? ==> WellClued(r.value)
    ensures r.Some? && disallowDeadEnds && NoDeadEnd(NewGrid(height, width, false)) ==> NoDeadEnd(ClueMask(r.value))
  {
    var problem := NewGrid(height, width, NoClue);
    var hasClue := NewGrid(height, width, false);
    var nClues := 0;
    var currentScore := 0;
    InitialState(height, width);
    var nSteps := height * width * 10;
    var step := 0;
    while step < nSteps
      invariant GenInv(problem, hasClue, nClues, height, width)
      invariant disallowDeadEnds && NoDeadEnd(NewGrid(height, width, false)) ==> NoDeadEnd(hasClue)
    {
      var round := GenerateRound(problem, hasClue, nClues, currentScore, disallowDeadEnds, step, evaluate, shuffle, accept);
      problem, hasClue, nClues, currentScore := round.problem, round.hasClue, round.nClues, round.score;
      if round.solved {
        return Some(problem);
      }
      if !round.updated {
        break;
      }
      step := step + 1;
    }
    r := None;
  }
}
