/**
 * The deterministic helpers of the Kakuro generator (src/kakuro/generator.rs):
 * the depth-first search and the connectivity count over a clue
 * placement, the disconnectivity score, and the initial answer.
 */
module KakuroGenerator {
  import opened Common
  import opened KakuroComponents

  /** The cells marked in the `vis` grid. */
  ghost function Visited(vis: array2<bool>): set<Coord>
    reads vis
  {
    set c | c in Cells(vis.Length0, vis.Length1) && vis[c.y, c.x]
  }

  /**
   * `dfs`: marks every unvisited non-clue cell it reaches from `(y, x)` and
   * returns how many it marked. It never marks a clue cell, only marks
   * cells it can reach, and leaves no marked cell with an unmarked free
   * neighbour among those it adds.
   */
  method Dfs(y: int, x: int, g: Grid<bool>, vis: array2<bool>, ghost b: Board) returns (ret: int)
    requires g.Valid() && Agrees(g, b) && vis.Length0 == g.height && vis.Length1 == g.width
    requires g.IsValidCoord(Coord(y, x)) && Visited(vis) <= FreeCells(b)
    modifies vis
    decreases FreeCells(b) - Visited(vis), 1
    ensures DfsPost(b, Coord(y, x), old(Visited(vis)), Visited(vis), ret)
  {
    var u := Coord(y, x);
    if vis[y, x] || g.Get(u) {
      assert vis[y, x] ==> u in Visited(vis);
      DfsNothing(b, u, Visited(vis));
      return 0;
    }
    ghost var w0 := Visited(vis);
    vis[y, x] := true;
    assert Visited(vis) == w0 + {u};
    DfsStart(b, u, w0);
    ghost var nb: set<Coord> := {};
    ret := 1;
    ret := DfsNeighbour(u, Coord(y - 1, x), y > 0, g, vis, b, w0, nb, ret);
    nb := nb + {Coord(y - 1, x)};
    ret := DfsNeighbour(u, Coord(y, x - 1), x > 0, g, vis, b, w0, nb, ret);
    nb := nb + {Coord(y, x - 1)};
    ret := DfsNeighbour(u, Coord(y + 1, x), y + 1 < g.height, g, vis, b, w0, nb, ret);
    nb := nb + {Coord(y + 1, x)};
    ret := DfsNeighbour(u, Coord(y, x + 1), x + 1 < g.width, g, vis, b, w0, nb, ret);
    nb := nb + {Coord(y, x + 1)};
    DfsFinish(b, u, w0, Visited(vis), nb, ret);
  }

  /**
   * `if inside { ret += dfs(n) }` for the neighbour `n` of the cell `u`
   * being searched, where `inside` is the source's test that `n` lies on
   * the board.
   */
  method DfsNeighbour(u: Coord, n: Coord, inside: bool, g: Grid<bool>, vis: array2<bool>, ghost b: Board,
                      ghost w0: set<Coord>, ghost nb: set<Coord>, ret: int)
    returns (ret': int)
    requires g.Valid() && Agrees(g, b) && vis.Length0 == g.height && vis.Length1 == g.width
    requires Free(b, u) && Adjacent(u, n) && inside == g.IsValidCoord(n)
    requires Partial(b, u, w0, Visited(vis), nb, ret)
    modifies vis
    decreases FreeCells(b) - (w0 + {u}), 2
    ensures Partial(b, u, w0, Visited(vis), nb + {n}, ret')
  {
    ghost var w := Visited(vis);
    if inside {
      var r := Dfs(n.y, n.x, g, vis, b);
      DfsExtend(b, u, n, w0, w, Visited(vis), nb, ret, r);
      ret' := ret + r;
    } else {
      ret' := ret;
    }
  }

  /** One cell of the scan: a search from it when it is free and unvisited. */
  method ScanCell(g: Grid<bool>, vis: array2<bool>, ghost b: Board, y: int, x: int, sum: int, largest: int,
                  ghost best: Coord)
    returns (sum': int, largest': int, ghost best': Coord)
    requires g.Valid() && Agrees(g, b) && vis.Length0 == g.height && vis.Length1 == g.width && g.IsValidCoord(Coord(y, x))
    requires ScanInv(b, Visited(vis), y, x, sum, largest, best)
    modifies vis
    ensures ScanInv(b, Visited(vis), y, x + 1, sum', largest', best')
  {
    if !g.Get(Coord(y, x)) && !vis[y, x] {
      ghost var v := Visited(vis);
      var sz := Dfs(y, x, g, vis, b);
      ScanFound(b, v, Visited(vis), y, x, sum, largest, best);
      sum' := sum + sz;
      largest' := if largest < sz then sz else largest;
      best' := if largest < sz then Coord(y, x) else best;
    } else {
      assert vis[y, x] ==> Coord(y, x) in Visited(vis);
      ScanSkip(b, Visited(vis), y, x, sum, largest, best);
      sum', largest', best' := sum, largest, best;
    }
  }

  /** One row of the scan. */
  method ScanRow(g: Grid<bool>, vis: array2<bool>, ghost b: Board, y: int, sum: int, largest: int, ghost best: Coord)
    returns (sum': int, largest': int, ghost best': Coord)
    requires g.Valid() && Agrees(g, b) && vis.Length0 == g.height && vis.Length1 == g.width && 0 <= y < g.height
    requires ScanInv(b, Visited(vis), y, 0, sum, largest, best)
    modifies vis
    ensures ScanInv(b, Visited(vis), y + 1, 0, sum', largest', best')
  {
    sum', largest', best' := sum, largest, best;
    var x := 0;
    while x < g.width
      invariant 0 <= x <= g.width
      invariant ScanInv(b, Visited(vis), y, x, sum', largest', best')
    {
      sum', largest', best' := ScanCell(g, vis, b, y, x, sum', largest', best');
      x := x + 1;
    }
    ScanNextRow(b, Visited(vis), y, sum', largest', best');
  }

  /**
   * `check_connectivity`: the number of non-clue cells outside the
   * largest four-connected component of non-clue cells.
   */
  method CheckConnectivity(g: Grid<bool>) returns (r: int)
    requires g.Valid()
    ensures r == Disconnection(BoardOf(g))
  {
    ghost var b := BoardOf(g);
    AgreesBoardOf(g);
    var vis := new bool[g.height, g.width]((_, _) => false);
    assert Visited(vis) == {};
    ScanStart(b);
    var sum := 0;
    var largest := 0;
    ghost var best := Coord(0, 0);
    var y := 0;
    while y < g.height
      invariant 0 <= y <= g.height
      invariant ScanInv(b, Visited(vis), y, 0, sum, largest, best)
    {
      sum, largest, best := ScanRow(g, vis, b, y, sum, largest, best);
      y := y + 1;
    }
    ScanDone(b, Visited(vis), sum, largest, best);
    r := sum - largest;
  }
  /** Making a free cell a clue and then free again gives back the board. */
  lemma SetRestore(g: Grid<bool>, c: Coord)
    requires g.Valid() && g.IsValidCoord(c) && !g.Get(c)
    ensures g.Set(c, true).Set(c, false) == g
  {
    g.IndexInRange(c);
    assert g.Set(c, true).Set(c, false).data == g.data;
  }

  /** One row of `disconnectivity_score`, on the clone `grid` of the board. */
  method ScoreRow(grid: Grid<bool>, y: int) returns (s: int)
    requires grid.Valid() && 0 <= y < grid.height
    ensures s == RowScore(BoardOf(grid), y, grid.width)
  {
    var cur := grid;
    s := 0;
    var x := 0;
    while x < grid.width
      invariant 0 <= x <= grid.width && cur == grid
      invariant s == RowScore(BoardOf(grid), y, x)
    {
      var c := Coord(y, x);
      if !cur.Get(c) {
        cur := cur.Set(c, true);
        BoardOfSet(grid, c);
        var k := CheckConnectivity(cur);
        s := s + k;
        SetRestore(grid, c);
        cur := cur.Set(c, false);
      }
      x := x + 1;
    }
  }

  /**
   * `disconnectivity_score`: for each non-clue cell, the connectivity
   * count of the board with that cell made a clue, summed. The board
   * itself is a value and is left as it was.
   */
  method DisconnectivityScore(g: Grid<bool>) returns (ret: int)
    requires g.Valid()
    ensures ret == Score(BoardOf(g))
  {
    ret := 0;
    var y := 0;
    while y < g.height
      invariant 0 <= y <= g.height && ret == RowsScore(BoardOf(g), y)
    {
      var s := ScoreRow(g, y);
      ret := ret + s;
      y := y + 1;
    }
  }

  // ---- the initial answer ----

  /** `MAX_VAL`. */
  const MaxVal: int := 9

  /** The value `generate` starts a cell from: -1 on a clue, `(y + x) % 9 + 1` elsewhere. */
  function InitialValue(hasClue: Grid<bool>, c: Coord): int
    requires hasClue.Valid() && hasClue.IsValidCoord(c)
  {
    if hasClue.Get(c) then -1 else (c.y + c.x) % MaxVal + 1
  }

  /** The cells before `(y, x)` hold their initial values, the others -1. */
  ghost predicate AnswerUpTo(hasClue: Grid<bool>, answer: Grid<int>, y: int, x: int)
    requires hasClue.Valid()
  {
    answer.Valid() && answer.height == hasClue.height && answer.width == hasClue.width
    && forall c :: hasClue.IsValidCoord(c) ==> answer.Get(c) == if Before(c, y, x) then InitialValue(hasClue, c) else -1
  }

  method InitialRow(hasClue: Grid<bool>, answer: Grid<int>, y: int) returns (answer': Grid<int>)
    requires hasClue.Valid() && 0 <= y < hasClue.height && AnswerUpTo(hasClue, answer, y, 0)
    ensures AnswerUpTo(hasClue, answer', y + 1, 0)
  {
    answer' := answer;
    var x := 0;
    while x < hasClue.width
      invariant 0 <= x <= hasClue.width && AnswerUpTo(hasClue, answer', y, x)
    {
      var c := Coord(y, x);
      ghost var a := answer';
      if !hasClue.Get(c) {
        answer' := answer'.Set(c, (y + x) % MaxVal + 1);
      }
      forall d | hasClue.IsValidCoord(d)
        ensures answer'.Get(d) == if Before(d, y, x + 1) then InitialValue(hasClue, d) else -1
      {
        if !hasClue.Get(c) {
          GetSet(a, c, (y + x) % MaxVal + 1, d);
        }
      }
      x := x + 1;
    }
  }

  /** The loop at the start of `generate` that fills the initial answer. */
  method InitialAnswer(hasClue: Grid<bool>) returns (answer: Grid<int>)
    requires hasClue.Valid()
    ensures answer.Valid() && answer.height == hasClue.height && answer.width == hasClue.width
    ensures forall c :: hasClue.IsValidCoord(c) ==> answer.Get(c) == InitialValue(hasClue, c)
  {
    answer := NewGrid(hasClue.height, hasClue.width, -1);
    forall c | hasClue.IsValidCoord(c) ensures answer.Get(c) == -1 {
      answer.IndexInRange(c);
    }
    var y := 0;
    while y < hasClue.height
      invariant 0 <= y <= hasClue.height && AnswerUpTo(hasClue, answer, y, 0)
    {
      answer := InitialRow(hasClue, answer, y);
      y := y + 1;
    }
  }

  /** Every non-clue cell starts from a digit 1 to 9. */
  lemma InitialDigits(hasClue: Grid<bool>, c: Coord)
    requires hasClue.Valid() && hasClue.IsValidCoord(c) && !hasClue.Get(c)
    ensures 1 <= InitialValue(hasClue, c) <= MaxVal
  {
  }

  /**
   * Two non-clue cells of one row, or of one column, fewer than nine
   * apart start from different digits: a run of at most nine cells holds
   * no digit twice.
   */
  lemma InitialDistinct(hasClue: Grid<bool>, a: Coord, b: Coord)
    requires hasClue.Valid() && hasClue.IsValidCoord(a) && hasClue.IsValidCoord(b)
    requires !hasClue.Get(a) && !hasClue.Get(b)
    requires (a.y == b.y && 0 < b.x - a.x < MaxVal) || (a.x == b.x && 0 < b.y - a.y < MaxVal)
    ensures InitialValue(hasClue, a) != InitialValue(hasClue, b)
  {
    var s, t := a.y + a.x, b.y + b.x;
    assert 0 < t - s < MaxVal;
  }
}
