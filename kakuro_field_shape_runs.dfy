/**
 * What the Kakuro field of src/kakuro/field.rs relies on in the shape
 * `FieldShape::new` builds (src/kakuro/field_shape.rs): the slots a group
 * yields are non-clue cells of the board, in increasing order, and every
 * non-clue cell lies in exactly two groups, the two `cell_to_groups`
 * names, which differ.
 */
module KakuroFieldShapeRuns {
  import opened Common
  import opened KakuroFieldShape
  import opened KakuroFieldCounts

  /** The slots group `g` yields are non-clue slots of the board, each once, in increasing order. */
  ghost predicate GroupCellsOk(hc: seq<bool>, g: Grp)
    requires g.step > 0
  {
    var cells := Elements(g);
    CellsIn(cells, |hc|) && Increasing(cells) && forall k :: 0 <= k < |cells| ==> !hc[cells[k]]
  }

  /** Non-clue slot `c` lies in its two groups, which differ, and in no other group. */
  ghost predicate CellGroupsOk(s: FieldShape, c: int)
    requires 0 <= c < |s.cellToGroups.data|
  {
    var (a, b) := s.cellToGroups.data[c];
    var gs := s.groupToCells;
    0 <= a < |gs| && 0 <= b < |gs| && a != b && gs[a].step > 0 && gs[b].step > 0
    && c in Elements(gs[a]) && c in Elements(gs[b])
    && forall g :: 0 <= g < |gs| && gs[g].step > 0 && c in Elements(gs[g]) ==> g == a || g == b
  }

  /** The shape as the field uses it. */
  ghost predicate ShapeOk(s: FieldShape) {
    var hc := s.hasClue.data;
    s.hasClue.Valid() && |s.cellToGroups.data| == |hc| && |s.clueLocations| == |s.groupToCells|
    && (forall g :: 0 <= g < |s.groupToCells| ==>
          s.groupToCells[g].step > 0 && CellsIn(Elements(s.groupToCells[g]), |hc|))
    && (forall g {:trigger GroupCellsOk(hc, s.groupToCells[g])} :: 0 <= g < |s.groupToCells| ==>
          GroupCellsOk(hc, s.groupToCells[g]))
    && (forall c {:trigger CellGroupsOk(s, c)} :: 0 <= c < |hc| && !hc[c] ==> CellGroupsOk(s, c))
  }

  lemma {:induction false} ElementsIncreasing(g: Grp)
    requires g.step > 0
    ensures Increasing(Elements(g))
  {
    var cells := Elements(g);
    forall j, k | 0 <= j < k < |cells|
      ensures cells[j] < cells[k]
    {
      ElementsIndex(g, j);
      ElementsIndex(g, k);
      MulMonotone(j + 1, k, g.step);
    }
  }

  /** A row boundary `e` between `a` and `b` puts them in different rows. */
  lemma RowSplit(a: int, b: int, e: int, w: int)
    requires w > 0 && 0 <= a < e <= b && e % w == 0
    ensures a / w != b / w
  {
    var q := e / w;
    DivModUnique(e, w, q, 0);
    DivModUnique(a, w, a / w, a % w);
    DivModUnique(b, w, b / w, b % w);
    if a / w >= q {
      MulMonotone(q, a / w, w);
    }
    if b / w < q {
      MulMonotone(b / w + 1, q, w);
    }
  }

  /** Two maximal horizontal runs that share a slot are the same run. */
  lemma HRunsMeet(hc: Grid<bool>, g: Grp, g': Grp, c: int)
    requires hc.Valid() && HRun(hc, g) && HRun(hc, g') && InGrp(g, c) && InGrp(g', c)
    ensures g == g'
  {
    HRunStart(hc, g, g', c);
    HRunStart(hc, g', g, c);
    HRunEnd(hc, g, g', c);
    HRunEnd(hc, g', g, c);
  }

  lemma HRunStart(hc: Grid<bool>, g: Grp, g': Grp, c: int)
    requires hc.Valid() && HRun(hc, g) && HRun(hc, g') && InGrp(g, c) && InGrp(g', c)
    ensures g.start >= g'.start
  {
    if g.start < g'.start {
      var p := g'.start - 1;
      assert InGrp(g, p);
      RowSplit(g.start, g.end - 1, g'.start, hc.width);
    }
  }

  lemma HRunEnd(hc: Grid<bool>, g: Grp, g': Grp, c: int)
    requires hc.Valid() && HRun(hc, g) && HRun(hc, g') && InGrp(g, c) && InGrp(g', c)
    ensures g.end >= g'.end
  {
    if g.end < g'.end {
      assert InGrp(g', g.end);
      RowSplit(g'.start, g'.end - 1, g.end, hc.width);
    }
  }

  /** Two slots on a stride of `w` differ by a multiple of `w`. */
  lemma SameStride(a: int, b: int, c: int, w: int)
    requires w > 0 && (c - a) % w == 0 && (c - b) % w == 0 && a < b
    ensures b - a >= w && (b - w - a) % w == 0
  {
    DivModUnique(c - a, w, (c - a) / w, 0);
    DivModUnique(c - b, w, (c - b) / w, 0);
    var k := (c - a) / w - (c - b) / w;
    assert b - a == k * w;
    if k <= 0 {
      MulMonotone(k, 0, w);
    }
    DivModUnique(b - w - a, w, k - 1, 0);
  }

  /** Two maximal vertical runs that share a slot are the same run. */
  lemma VRunsMeet(hc: Grid<bool>, g: Grp, g': Grp, c: int)
    requires hc.Valid() && VRun(hc, g) && VRun(hc, g') && InGrp(g, c) && InGrp(g', c)
    ensures g == g'
  {
    VRunStart(hc, g, g', c);
    VRunStart(hc, g', g, c);
    VRunEnd(hc, g, g', c);
    VRunEnd(hc, g', g, c);
  }

  lemma VRunStart(hc: Grid<bool>, g: Grp, g': Grp, c: int)
    requires hc.Valid() && VRun(hc, g) && VRun(hc, g') && InGrp(g, c) && InGrp(g', c)
    ensures g.start >= g'.start
  {
    var w := hc.width;
    if g.start < g'.start {
      SameStride(g.start, g'.start, c, w);
    }
    assert g.start < g'.start ==> InGrp(g, g'.start - w);
  }

  lemma VRunEnd(hc: Grid<bool>, g: Grp, g': Grp, c: int)
    requires hc.Valid() && VRun(hc, g) && VRun(hc, g') && InGrp(g, c) && InGrp(g', c)
    ensures g.start == g'.start ==> g.end >= g'.end
  {
    var w := hc.width;
    if g.start == g'.start && g.end < g'.end {
      assert InGrp(g', g.end);
    }
  }

  /** Two groups of the same direction are different runs. */
  lemma GroupsDiffer(hc: Grid<bool>, s: FieldShape, g1: int, g2: int)
    requires hc.Valid() && ShapeSpec(hc, s) && 0 <= g1 < |s.groupToCells| && 0 <= g2 < |s.groupToCells|
    requires s.clueLocations[g1].Horizontal? == s.clueLocations[g2].Horizontal?
    ensures g1 != g2 ==> s.groupToCells[g1] != s.groupToCells[g2]
  {
    var gs := s.groupToCells;
    if g1 < g2 {
      assert s.clueLocations[g2].Horizontal? ==> gs[g1].start < gs[g2].start;
    } else if g2 < g1 {
      assert s.clueLocations[g1].Horizontal? ==> gs[g2].start < gs[g1].start;
    }
  }

  /** A group of the shape yields non-clue slots of the board in increasing order. */
  lemma GroupOk(hc: Grid<bool>, s: FieldShape, g: int)
    requires hc.Valid() && ShapeSpec(hc, s) && 0 <= g < |s.groupToCells|
    ensures s.groupToCells[g].step > 0 && GroupCellsOk(hc.data, s.groupToCells[g])
  {
    var grp := s.groupToCells[g];
    var cells := Elements(grp);
    ElementsIncreasing(grp);
    forall k | 0 <= k < |cells|
      ensures 0 <= cells[k] < |hc.data| && !hc.data[cells[k]]
    {
      ElementsMembers(grp, cells[k]);
    }
  }

  /** A group holding non-clue slot `c` is its horizontal or its vertical group. */
  lemma OnlyTwo(hc: Grid<bool>, s: FieldShape, c: int, g: int)
    requires hc.Valid() && ShapeSpec(hc, s) && 0 <= c < |hc.data| && !hc.data[c]
    requires 0 <= g < |s.groupToCells| && s.groupToCells[g].step > 0 && InGrp(s.groupToCells[g], c)
    ensures g == s.cellToGroups.data[c].0 || g == s.cellToGroups.data[c].1
  {
    var gs := s.groupToCells;
    var (a, b) := s.cellToGroups.data[c];
    if s.clueLocations[g].Horizontal? {
      GroupsDiffer(hc, s, g, a);
      assert HRun(hc, gs[g]) && HRun(hc, gs[a]) && InGrp(gs[a], c);
      HRunsMeet(hc, gs[g], gs[a], c);
    } else {
      GroupsDiffer(hc, s, g, b);
      assert VRun(hc, gs[g]) && VRun(hc, gs[b]) && InGrp(gs[b], c);
      VRunsMeet(hc, gs[g], gs[b], c);
    }
  }

  /** A non-clue slot lies in its horizontal and its vertical group, and in no other. */
  lemma CellOk(hc: Grid<bool>, s: FieldShape, c: int)
    requires hc.Valid() && ShapeSpec(hc, s) && 0 <= c < |hc.data| && !hc.data[c]
    ensures CellGroupsOk(s, c)
  {
    var gs := s.groupToCells;
    var (a, b) := s.cellToGroups.data[c];
    ElementsMembers(gs[a], c);
    ElementsMembers(gs[b], c);
    forall g | 0 <= g < |gs| && gs[g].step > 0 && c in Elements(gs[g])
      ensures g == a || g == b
    {
      ElementsMembers(gs[g], c);
      OnlyTwo(hc, s, c, g);
    }
  }

  /**
   * The shape `FieldShape::new` promises is one the field can use: its
   * groups yield non-clue slots in increasing order, and each non-clue
   * cell lies in exactly its horizontal and its vertical group.
   */
  lemma ShapeSpecOk(hc: Grid<bool>, s: FieldShape)
    requires hc.Valid() && ShapeSpec(hc, s)
    ensures ShapeOk(s)
  {
    forall g | 0 <= g < |s.groupToCells|
      ensures s.groupToCells[g].step > 0 && GroupCellsOk(hc.data, s.groupToCells[g])
    {
      GroupOk(hc, s, g);
    }
    forall c | 0 <= c < |hc.data| && !hc.data[c]
      ensures CellGroupsOk(s, c)
    {
      CellOk(hc, s, c);
    }
  }
  /**
   * The shape as the field reads it: which slots hold clues, the two groups
   * of every slot, and the slots of every group in the order iteration
   * yields them.
   */
  datatype Layout = Layout(hasClue: seq<bool>, cellGroups: seq<(int, int)>, groupCells: seq<seq<int>>)

  /** The layout of a shape: its clue grid, its `cell_to_groups`, and the slots each group yields. */
  ghost predicate LayoutOf(s: FieldShape, l: Layout) {
    && l.hasClue == s.hasClue.data && l.cellGroups == s.cellToGroups.data
    && |l.groupCells| == |s.groupToCells|
    && forall g :: 0 <= g < |s.groupToCells| ==> s.groupToCells[g].step > 0 && l.groupCells[g] == Elements(s.groupToCells[g])
  }

  /** The slots of a group are non-clue slots of the board, each once, in increasing order. */
  ghost predicate SlotsOk(hc: seq<bool>, cells: seq<int>) {
    CellsIn(cells, |hc|) && Increasing(cells) && forall k :: 0 <= k < |cells| ==> !hc[cells[k]]
  }

  /** Non-clue slot `c` lies in its two groups, which differ, and in no other group. */
  ghost predicate SlotGroupsOk(l: Layout, c: int)
    requires 0 <= c < |l.cellGroups|
  {
    var (a, b) := l.cellGroups[c];
    var gc := l.groupCells;
    0 <= a < |gc| && 0 <= b < |gc| && a != b && c in gc[a] && c in gc[b]
    && forall g :: 0 <= g < |gc| && c in gc[g] ==> g == a || g == b
  }

  /** The layout as the field relies on it. */
  ghost predicate LayoutOk(l: Layout) {
    var hc := l.hasClue;
    |l.cellGroups| == |hc|
    && (forall g :: 0 <= g < |l.groupCells| ==> CellsIn(l.groupCells[g], |hc|))
    && (forall g {:trigger SlotsOk(hc, l.groupCells[g])} :: 0 <= g < |l.groupCells| ==> SlotsOk(hc, l.groupCells[g]))
    && (forall c {:trigger SlotGroupsOk(l, c)} :: 0 <= c < |hc| && !hc[c] ==> SlotGroupsOk(l, c))
  }

  /** The layout of a shape the field can use is one the field can rely on. */
  lemma LayoutOfOk(s: FieldShape, l: Layout)
    requires ShapeOk(s) && LayoutOf(s, l)
    ensures LayoutOk(l)
  {
    var hc := l.hasClue;
    forall g | 0 <= g < |l.groupCells|
      ensures SlotsOk(hc, l.groupCells[g])
    {
      assert GroupCellsOk(hc, s.groupToCells[g]);
    }
    forall c | 0 <= c < |hc| && !hc[c]
      ensures SlotGroupsOk(l, c)
    {
      assert CellGroupsOk(s, c);
    }
  }
}
