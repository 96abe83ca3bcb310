// The board of the `test_field_shape` test in src/kakuro/field_shape.rs,
// and what every shape `FieldShape::new` may build for it must look like:
// nine groups, and the cell in row 4, column 1 on the horizontal group
// whose clue sits in slot 16 and the vertical group whose clue sits in
// slot 13.

module KakuroFieldShapeTest {
  import opened Wrappers
  import opened Common
  import opened KakuroFieldShape
  import opened KakuroFieldShapeNew

  /** The test's six rows of four, row by row, clue cells `true`. */
  function TestRows(): seq<seq<bool>> {
    [[true, true,  true,  true ],
     [true, false, false, false],
     [true, false, false, false],
     [true, true,  false, false],
     [true, false, false, false],
     [true, false, false, false]]
  }

  /**
   * The board those rows make, stored row-major: the clue cells are the
   * top row, the left column and slot 13, cell (3, 1).
   */
  function TestBoard(): (hc: Grid<bool>)
    ensures hc.Valid() && hc.height == 6 && hc.width == 4
  {
    Grid(6, 4, seq(24, i => i < 4 || i % 4 == 0 || i == 13))
  }

  /** `vec_to_grid` of the rows: slot `y * 4 + x` holds row `y`'s entry `x`. */
  lemma TestBoardRows(y: int, x: int)
    requires 0 <= y < 6 && 0 <= x < 4
    ensures TestBoard().Get(Coord(y, x)) == TestRows()[y][x]
  {
  }

  /** The board's five horizontal runs, one per open row. */
  function HRuns(): set<Grp> {
    {Grp(5, 8, 1), Grp(9, 12, 1), Grp(14, 16, 1), Grp(17, 20, 1), Grp(21, 24, 1)}
  }

  /** The board's four vertical runs: two in column 1, one in each of columns 2 and 3. */
  function VRuns(): set<Grp> {
    {Grp(5, 13, 4), Grp(17, 25, 4), Grp(6, 26, 4), Grp(7, 27, 4)}
  }

  lemma RunsCard()
    ensures |HRuns() + VRuns()| == 9
  {
  }

  /** A maximal horizontal run of the board is one of its five. */
  lemma HRunShape(g: Grp)
    requires HRun(TestBoard(), g)
    ensures g in HRuns()
  {
    var hc := TestBoard();
    assert InGrp(g, g.start);
    assert !hc.data[g.start];
    assert g.start in {5, 9, 14, 17, 21};
  }

  /** The last slot of a vertical run lies on the board. */
  lemma VRunLast(g: Grp)
    requires VRun(TestBoard(), g)
    ensures g.end - 4 < 24
  {
    assert InGrp(g, g.end - 4);
  }

  /** A maximal vertical run of the board is one of its four. */
  lemma VRunShape(g: Grp)
    requires VRun(TestBoard(), g)
    ensures g in VRuns()
  {
    var hc := TestBoard();
    assert InGrp(g, g.start);
    assert !hc.data[g.start];
    assert g.start in {5, 6, 7, 17};
    VRunLast(g);
    var k := (g.end - g.start) / 4;
    assert g.end == g.start + 4 * k && k >= 1;
    if g.start == 5 {
      if k > 2 {
        assert InGrp(g, 13);
      }
      assert k == 2;
    } else if g.start == 17 {
      assert k == 2;
    } else if g.start == 6 {
      assert k == 5;
    } else {
      assert k == 5;
    }
  }

  /** The groups a shape of the board gives slot `c` are among its runs and hold `c`. */
  lemma CellRuns(s: FieldShape, c: int)
    requires ShapeSpec(TestBoard(), s) && 0 <= c < 24 && !TestBoard().data[c]
    ensures var (a, b) := s.cellToGroups.data[c];
      && 0 <= a < |s.groupToCells| && s.groupToCells[a] in HRuns() && InGrp(s.groupToCells[a], c)
      && s.clueLocations[a] == Horizontal(s.groupToCells[a].start - 1)
      && 0 <= b < |s.groupToCells| && s.groupToCells[b] in VRuns() && InGrp(s.groupToCells[b], c)
      && s.clueLocations[b] == Vertical(s.groupToCells[b].start - 4)
  {
    var (a, b) := s.cellToGroups.data[c];
    HRunShape(s.groupToCells[a]);
    VRunShape(s.groupToCells[b]);
  }

  /** The groups of a shape of the board are pairwise different. */
  lemma GroupsDistinct(s: FieldShape)
    requires ShapeSpec(TestBoard(), s)
    ensures Distinct(s.groupToCells)
  {
    var gs, locs := s.groupToCells, s.clueLocations;
    forall i, j | 0 <= i < j < |gs|
      ensures gs[i] != gs[j]
    {
      if locs[i].Horizontal? && locs[j].Vertical? {
        assert gs[i].step == 1 && gs[j].step == 4;
      }
    }
  }

  /** Every group of a shape of the board is one of the nine runs. */
  lemma GroupsWithin(s: FieldShape)
    requires ShapeSpec(TestBoard(), s)
    ensures SeqSet(s.groupToCells) <= HRuns() + VRuns()
  {
    var gs, locs := s.groupToCells, s.clueLocations;
    forall k | 0 <= k < |gs|
      ensures gs[k] in HRuns() + VRuns()
    {
      if locs[k].Horizontal? {
        HRunShape(gs[k]);
      } else {
        VRunShape(gs[k]);
      }
    }
  }

  /** A horizontal run through an open slot `c` is the horizontal group the shape gives `c`. */
  lemma CoverH(s: FieldShape, c: int, r: Grp)
    requires ShapeSpec(TestBoard(), s) && 0 <= c < 24 && !TestBoard().data[c]
    requires r in HRuns() && InGrp(r, c)
    ensures r in SeqSet(s.groupToCells)
  {
    var a := s.cellToGroups.data[c].0;
    CellRuns(s, c);
    assert s.groupToCells[a] == r;
  }

  /** No slot lies on two of the board's vertical runs. */
  lemma VRunsDisjoint(r1: Grp, r2: Grp, c: int)
    requires r1 in VRuns() && r2 in VRuns() && InGrp(r1, c) && InGrp(r2, c)
    ensures r1 == r2
  {
    assert c % 4 == r1.start % 4;
    assert c % 4 == r2.start % 4;
  }

  /** A vertical run through an open slot `c` is the vertical group the shape gives `c`. */
  lemma CoverV(s: FieldShape, c: int, r: Grp)
    requires ShapeSpec(TestBoard(), s) && 0 <= c < 24 && !TestBoard().data[c]
    requires r in VRuns() && InGrp(r, c)
    ensures r in SeqSet(s.groupToCells)
  {
    var b := s.cellToGroups.data[c].1;
    CellRuns(s, c);
    VRunsDisjoint(s.groupToCells[b], r, c);
  }

  /** Every horizontal run is a group of a shape of the board: its first cell lies on it. */
  lemma GroupsCoverH(s: FieldShape)
    requires ShapeSpec(TestBoard(), s)
    ensures HRuns() <= SeqSet(s.groupToCells)
  {
    CoverH(s, 5, Grp(5, 8, 1));
    CoverH(s, 9, Grp(9, 12, 1));
    CoverH(s, 14, Grp(14, 16, 1));
    CoverH(s, 17, Grp(17, 20, 1));
    CoverH(s, 21, Grp(21, 24, 1));
  }

  /** Every vertical run is a group of a shape of the board: its first cell lies on it. */
  lemma GroupsCoverV(s: FieldShape)
    requires ShapeSpec(TestBoard(), s)
    ensures VRuns() <= SeqSet(s.groupToCells)
  {
    CoverV(s, 5, Grp(5, 13, 4));
    CoverV(s, 17, Grp(17, 25, 4));
    CoverV(s, 6, Grp(6, 26, 4));
    CoverV(s, 7, Grp(7, 27, 4));
  }

  /** The test's first assertion: the shape of the board has nine groups. */
  lemma GroupCount(s: FieldShape)
    requires ShapeSpec(TestBoard(), s)
    ensures |s.groupToCells| == 9
  {
    GroupsDistinct(s);
    GroupsWithin(s);
    GroupsCoverH(s);
    GroupsCoverV(s);
    DistinctCard(s.groupToCells);
    RunsCard();
    assert SeqSet(s.groupToCells) == HRuns() + VRuns();
  }

  /**
   * The test's second assertion: cell (4, 1), slot 17, is on the
   * horizontal group clued at slot 16 and the vertical group clued at
   * slot 13.
   */
  lemma CellGroups(s: FieldShape)
    requires ShapeSpec(TestBoard(), s)
    ensures var (a, b) := s.cellToGroups.Get(Coord(4, 1));
      && 0 <= a < |s.clueLocations| && s.clueLocations[a] == Horizontal(16)
      && 0 <= b < |s.clueLocations| && s.clueLocations[b] == Vertical(13)
  {
    var (a, b) := s.cellToGroups.data[17];
    CellRuns(s, 17);
    assert s.groupToCells[a] == Grp(17, 20, 1);
    assert s.groupToCells[b] == Grp(17, 25, 4);
  }

  /** Both assertions of `test_field_shape`. */
  lemma ShapeTest(s: FieldShape)
    requires ShapeSpec(TestBoard(), s)
    ensures |s.groupToCells| == 9
    ensures var (a, b) := s.cellToGroups.Get(Coord(4, 1));
      && 0 <= a < |s.clueLocations| && s.clueLocations[a] == Horizontal(16)
      && 0 <= b < |s.clueLocations| && s.clueLocations[b] == Vertical(13)
  {
    GroupCount(s);
    CellGroups(s);
  }

  /** `FieldShape::new` on the board: it does not panic, and the test's assertions hold of what it builds. */
  method ShapeTestRun() returns (groups: int, h: ClueLocation, v: ClueLocation)
    ensures groups == 9 && h == Horizontal(16) && v == Vertical(13)
  {
    var hc := TestBoard();
    assert hc.data[0] && hc.data[1] && hc.data[2] && hc.data[3];
    var r := New(hc);
    var s := r.value;
    ShapeTest(s);
    var (a, b) := s.cellToGroups.Get(Coord(4, 1));
    groups, h, v := |s.groupToCells|, s.clueLocations[a], s.clueLocations[b];
  }
}
