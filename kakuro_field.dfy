/**
 * The Kakuro field of src/kakuro/field.rs: the decided value and the
 * candidate digits of every cell, the counters of every group, and the
 * propagation that narrows candidates through `decide_int`,
 * `eliminate_cand_from_group` and `limit_cand`, driven by a queue of
 * groups that `check_group` examines one at a time.
 */
module KakuroField {
  import opened Wrappers
  import opened Common
  import opened KakuroBase
  import opened KakuroDictionary
  import opened KakuroFieldShape
  import opened KakuroFieldCounts
  import opened KakuroFieldShapeRuns
  import opened KakuroFieldState
  import opened KakuroFieldScan
  import KakuroFieldShapeNew

  /** `FieldTechnique`: the deductions `check_group` applies besides the IMPOSSIBLE test. */
  datatype FieldTechnique = FieldTechnique(uniquePosition: bool, dictionary: bool, twoCellsPropagation: bool,
                                           nakedPair: bool, minMax: bool)

  class Field {
    const dic: Dictionary
    const layout: Layout
    /** The clue sum of every group, read once by `Field::new`. */
    ghost const clues: seq<int>
    /** The board's clue cells, `shape.has_clue`, which `location` reads its width from. */
    const board: Grid<bool>
    var technique: FieldTechnique
    const queue: FiniteSearchQueue
    var grps: seq<FieldGrp>
    var val: seq<int>
    var cand: seq<Cand>
    var inconsistent: bool
    var solved: bool
    var undecidedCells: nat
    var totalCands: nat

    ghost predicate Valid()
      reads this, queue
    {
      Inv(layout, clues, val, cand, grps, inconsistent, solved, undecidedCells, totalCands)
      && queue.Valid() && |queue.stored| == |grps|
    }

    /**
     * The value `Field::new` builds: every cell undecided with all nine
     * candidates, every group at its size, its clue and every digit free.
     */
    constructor (dic: Dictionary, board: Grid<bool>, layout: Layout, ghost clues: seq<int>, technique: FieldTechnique,
                 grps: seq<FieldGrp>, nCells: nat, nNonclue: nat)
      requires LayoutOk(layout) && nCells == |layout.hasClue| && nNonclue == NonClueBelow(layout.hasClue, nCells)
      requires board.Valid() && board.data == layout.hasClue
      requires |grps| == |clues| == |layout.groupCells|
      requires forall g :: 0 <= g < |grps| ==> grps[g] == FieldGrp(|layout.groupCells[g]|, clues[g], CandAll)
      ensures Valid() && fresh(queue) && queue.Contents == []
      ensures BoardOk() && this.board == board
      ensures this.dic == dic && this.layout == layout && this.clues == clues && this.technique == technique
      ensures this.grps == grps && val == seq(nCells, _ => Undecided) && cand == seq(nCells, _ => CandAll)
      ensures !inconsistent && !solved && undecidedCells == nNonclue && totalCands == 9 * nNonclue
    {
      this.dic := dic;
      this.board := board;
      this.layout := layout;
      this.clues := clues;
      this.technique := technique;
      this.grps := grps;
      val := seq(nCells, _ => Undecided);
      cand := seq(nCells, _ => CandAll);
      inconsistent := false;
      solved := false;
      undecidedCells := nNonclue;
      totalCands := nNonclue * 9;
      queue := new FiniteSearchQueue(|grps|);
      new;
      InitialCounts(layout.hasClue, nCells);
      UndecidedAtMost(layout.hasClue, val, nCells);
      forall g | 0 <= g < |grps|
        ensures grps[g] == GroupOf(val, layout.groupCells[g], clues[g])
      {
        assert SlotsOk(layout.hasClue, layout.groupCells[g]);
        GroupInitial(nCells, layout.groupCells[g]);
      }
      assert CellsAgree(layout.hasClue, val, cand) by {
        EmptyHasNone(1);
      }
    }

    /** The board the slots come from: its cells are the slots, and its clue cells the clue slots. */
    ghost predicate BoardOk() {
      board.Valid() && board.data == layout.hasClue
    }

    /** `set_technique`. */
    method SetTechnique(t: FieldTechnique)
      modifies this`technique
      ensures technique == t
    {
      technique := t;
    }

    /**
     * `decide(pos, v)`: decides the cell at `pos` and propagates until the
     * queue is empty. `ok` is false where a group check panics in the
     * source, and the propagation stops there.
     */
    method Decide(pos: Coord, v: int) returns (ok: bool)
      requires Valid() && BoardOk() && board.IsValidCoord(pos) && !board.Get(pos) && IsDigit(v)
      modifies this, queue
      ensures Valid() && Narrows(old(Snap()), Snap()) && !queue.isStarted
      ensures 0 <= board.Index(pos) < |val|
      ensures old(val[board.Index(pos)]) == Undecided ==> val[board.Index(pos)] == v
      ensures old(val[board.Index(pos)]) != Undecided && old(val[board.Index(pos)]) != v ==> inconsistent
      ensures ok ==> queue.Contents == [] && (old(Covered(dic, Snap())) ==> Covered(dic, Snap()))
    {
      board.IndexInRange(pos);
      var loc := board.Index(pos);
      ghost var s0 := Snap();
      queue.Start();
      assert Snap() == s0;
      DecideInt(loc, v);
      ghost var s1 := Snap();
      if Covered(dic, s0) {
        CoveredFollows(dic, s0, s1);
      }
      ok := RunQueue();
      FollowsNarrows(s0, s1);
      NarrowsChain(s0, s1, Snap());
      queue.Finish();
    }

    /** `check_all`: queues every group and propagates until the queue is empty. */
    method CheckAll() returns (ok: bool)
      requires Valid()
      modifies this, queue
      ensures Valid() && Narrows(old(Snap()), Snap()) && !queue.isStarted
      ensures ok ==> queue.Contents == [] && Covered(dic, Snap())
    {
      ghost var s0 := Snap();
      queue.Start();
      queue.PushAll(|grps|);
      ghost var s1 := Snap();
      assert Covered(dic, s1);
      ok := RunQueue();
      FollowsRefl(s0);
      NarrowsChain(s0, s1, Snap());
      queue.Finish();
    }

    /**
     * Lines 126-129 and 138-141: pops each queued group and checks it until
     * the queue is empty; a group that would panic stops the loop with `ok`
     * false.
     */
    method RunQueue() returns (ok: bool)
      requires Valid()
      modifies this, queue
      ensures Valid() && Narrows(old(Snap()), Snap())
      ensures ok ==> queue.Contents == [] && (old(Covered(dic, Snap())) ==> Covered(dic, Snap()))
    {
      ghost var s0 := Snap();
      ghost var covered := Covered(dic, s0);
      FollowsRefl(s0);
      ok := true;
      var empty := queue.Empty();
      while !empty
        invariant Valid() && Narrows(s0, Snap())
        invariant empty == (queue.Contents == [])
        invariant covered ==> Covered(dic, Snap())
        decreases Measure(), |queue.Contents|
      {
        ghost var s1 := Snap();
        var g := queue.Pop();
        ghost var s2 := Snap();
        assert s2 == s1.(pending := s1.pending[1..]);
        ok := CheckGroup(g);
        NarrowsStep(s0, s1, s2, Snap());
        if !ok {
          return;
        }
        if covered {
          CoveredAfterCheck(dic, s1, s2, Snap(), g);
        }
        empty := queue.Empty();
      }
    }

    /** What every propagation step lowers: undecided cells plus candidates left. */
    ghost function Measure(): nat
      reads this
    {
      undecidedCells + totalCands
    }

    ghost function Snap(): Snapshot
      reads this, queue
    {
      Snapshot(val, cand, grps, queue.Contents, inconsistent, undecidedCells + totalCands)
    }

    /**
     * `decide_int(loc, v)`: a decided cell only checks the value; an
     * undecided one takes it, and, when it was a candidate, keeps that
     * digit alone and removes it from every other cell of both its groups.
     */
    method DecideInt(loc: int, v: int)
      requires Valid() && 0 <= loc < |val| && !layout.hasClue[loc] && IsDigit(v)
      modifies this, queue
      ensures Valid() && Follows(old(Snap()), Snap())
      ensures old(val[loc]) != Undecided ==>
        && val == old(val) && cand == old(cand) && grps == old(grps) && queue.Contents == old(queue.Contents)
        && inconsistent == (old(inconsistent) || old(val[loc]) != v)
      ensures old(val[loc]) == Undecided ==> val[loc] == v
      ensures old(val[loc]) == Undecided && !Has(old(cand[loc]), v) ==>
        inconsistent && val == old(val)[loc := v] && cand == old(cand) && grps == old(grps)
      ensures old(val[loc]) == Undecided && Has(old(cand[loc]), v) ==>
        && Within(cand[loc], Singleton(v))
        && SlotGroupsOk(layout, loc)
        && Lacks(cand, layout.groupCells[layout.cellGroups[loc].0], loc, v)
        && Lacks(cand, layout.groupCells[layout.cellGroups[loc].1], loc, v)
      decreases Measure(), 3
    {
      if val[loc] != Undecided {
        if val[loc] != v {
          inconsistent := true;
        }
        return;
      }
      ghost var s0 := Snap();
      var kept := AssignCell(loc, v);
      if !kept {
        StepFollows(s0, Snap());
        return;
      }
      var (g1, g2) := layout.cellGroups[loc];
      ghost var s1 := Snap();
      EliminateAround(loc, v, g1, g2);
      QueueGroups(g1, g2, s0, s1);
    }

    /** Lines 177-178 of `decide_int`: `v` leaves every other cell of both groups of `loc`. */
    method EliminateAround(loc: int, v: int, g1: int, g2: int)
      requires Valid() && 0 <= loc < |val| && !layout.hasClue[loc] && IsDigit(v)
      requires SlotGroupsOk(layout, loc) && (g1, g2) == layout.cellGroups[loc]
      modifies this, queue
      ensures Valid() && Follows(old(Snap()), Snap())
      ensures Lacks(cand, layout.groupCells[g1], loc, v) && Lacks(cand, layout.groupCells[g2], loc, v)
      ensures Within(cand[loc], old(cand[loc])) && (old(val[loc]) != Undecided ==> val[loc] == old(val[loc]))
      decreases Measure(), 2
    {
      ghost var s1 := Snap();
      EliminateCandFromGroup(g1, v, loc);
      ghost var s2 := Snap();
      EliminateCandFromGroup(g2, v, loc);
      FollowsTrans(s1, s2, Snap());
      LacksShrinks(s2.cand, cand, layout.groupCells[g1], loc, v);
    }

    /** Queues both groups of a cell, after a step from `a` to `b` that moved at most those two. */
    method QueueGroups(g1: int, g2: int, ghost a: Snapshot, ghost b: Snapshot)
      requires Valid() && 0 <= g1 < |grps| && 0 <= g2 < |grps|
      requires Advances(a, b) && Follows(b, Snap())
      requires forall g :: 0 <= g < |a.grps| && g != g1 && g != g2 ==> b.grps[g] == a.grps[g]
      modifies queue
      ensures Valid() && Follows(a, Snap()) && Snap() == old(Snap()).(pending := queue.Contents)
    {
      ghost var c := Snap();
      queue.Push(g1);
      queue.Push(g2);
      FollowsAfter(a, b, c, Snap(), g1, g2);
    }

    /**
     * Lines 154-175 of `decide_int` on an undecided cell: the value, the
     * board counters, and, when the value was a candidate, the cell's
     * candidates and the counters of its two groups.
     */
    method AssignCell(loc: int, v: int) returns (kept: bool)
      requires Valid() && 0 <= loc < |val| && !layout.hasClue[loc] && IsDigit(v) && val[loc] == Undecided
      modifies this
      ensures Valid() && Advances(old(Snap()), Snap()) && SlotGroupsOk(layout, loc)
      ensures kept == Has(old(cand[loc]), v) && val == old(val)[loc := v]
      ensures !kept ==> inconsistent && cand == old(cand) && grps == old(grps)
      ensures kept ==> && inconsistent == old(inconsistent) && cand == old(cand)[loc := Singleton(v)]
                       && var (g1, g2) := layout.cellGroups[loc];
                          grps == old(grps)[g1 := Decided(old(grps)[g1], v)][g2 := Decided(old(grps)[g1 := Decided(old(grps)[g1], v)][g2], v)]
    {
      kept := Has(cand[loc], v);
      if kept {
        AssignKept(loc, v);
      } else {
        AssignMissing(loc, v);
      }
    }

    /** `AssignCell` when the value is no candidate: the field turns inconsistent. */
    method AssignMissing(loc: int, v: int)
      requires Valid() && 0 <= loc < |val| && !layout.hasClue[loc] && IsDigit(v) && val[loc] == Undecided
      requires !Has(cand[loc], v)
      modifies this
      ensures Valid() && Advances(old(Snap()), Snap()) && SlotGroupsOk(layout, loc)
      ensures val == old(val)[loc := v] && inconsistent && cand == old(cand) && grps == old(grps)
    {
      assert SlotGroupsOk(layout, loc);
      DecideMissing(layout, clues, val, cand, grps, inconsistent, solved, undecidedCells, totalCands, loc, v);
      KeepAt(val, loc, v);
      val := val[loc := v];
      undecidedCells := undecidedCells - 1;
      if undecidedCells == 0 {
        solved := true;
      }
      inconsistent := true;
    }

    /** `AssignCell` when the value is a candidate: the cell keeps it alone and both groups count it. */
    method AssignKept(loc: int, v: int)
      requires Valid() && 0 <= loc < |val| && !layout.hasClue[loc] && IsDigit(v) && val[loc] == Undecided
      requires Has(cand[loc], v)
      modifies this
      ensures Valid() && Advances(old(Snap()), Snap()) && SlotGroupsOk(layout, loc)
      ensures val == old(val)[loc := v] && inconsistent == old(inconsistent) && cand == old(cand)[loc := Singleton(v)]
      ensures var (g1, g2) := layout.cellGroups[loc];
        grps == old(grps)[g1 := Decided(old(grps)[g1], v)][g2 := Decided(old(grps)[g1 := Decided(old(grps)[g1], v)][g2], v)]
    {
      assert SlotGroupsOk(layout, loc);
      DecideKept(layout, clues, val, cand, grps, inconsistent, solved, undecidedCells, totalCands, loc, v);
      KeepAt(val, loc, v);
      WithinSingleton(cand[loc], v);
      NarrowAt(cand, loc, Singleton(v));
      val := val[loc := v];
      undecidedCells := undecidedCells - 1;
      if undecidedCells == 0 {
        solved := true;
      }
      totalCands := totalCands - (Count(cand[loc]) - 1);
      cand := cand[loc := Singleton(v)];
      var (g1, g2) := layout.cellGroups[loc];
      grps := grps[g1 := Decided(grps[g1], v)];
      grps := grps[g2 := Decided(grps[g2], v)];
    }

    /** `eliminate_cand_from_group(grp, v, cur)`: takes `v` from every cell of the group but `cur`. */
    method EliminateCandFromGroup(grp: int, remCand: int, cur: int)
      requires Valid() && 0 <= grp < |grps| && IsDigit(remCand)
      modifies this, queue
      ensures Valid() && Follows(old(Snap()), Snap())
      ensures Lacks(cand, layout.groupCells[grp], cur, remCand)
      decreases Measure(), 1
    {
      var lim := Not(Singleton(remCand));
      var cells := layout.groupCells[grp];
      assert SlotsOk(layout.hasClue, layout.groupCells[grp]);
      ghost var s0 := Snap();
      var k := 0;
      while k < |cells|
        invariant 0 <= k <= |cells|
        invariant Valid() && Follows(s0, Snap())
        invariant Lacks(cand, cells[..k], cur, remCand)
        decreases |cells| - k
      {
        var c := cells[k];
        if c != cur {
          ghost var s1 := Snap();
          LimitCand(c, lim);
          FollowsTrans(s0, s1, Snap());
          LacksShrinks(s1.cand, cand, cells[..k], cur, remCand);
        }
        assert cells[..k + 1] == cells[..k] + [c];
        k := k + 1;
      }
      assert cells[..k] == cells;
    }

    /**
     * `limit_cand(loc, lim)`: narrows the cell's candidates to `lim`; a
     * cell left with no candidate makes the field inconsistent, one left
     * with a single candidate is decided to it.
     */
    method LimitCand(loc: int, lim: Cand)
      requires Valid() && 0 <= loc < |val| && !layout.hasClue[loc]
      modifies this, queue
      ensures Valid() && Follows(old(Snap()), Snap())
      ensures And(old(cand[loc]), lim) == old(cand[loc]) ==> Snap() == old(Snap()) && solved == old(solved)
      ensures Within(cand[loc], And(old(cand[loc]), lim))
      ensures IsEmpty(And(old(cand[loc]), lim)) ==> inconsistent
      ensures old(val[loc]) == Undecided && Count(And(old(cand[loc]), lim)) == 1 && And(old(cand[loc]), lim) != old(cand[loc])
        ==> val[loc] == Smallest(And(old(cand[loc]), lim))
      decreases Measure(), 0
    {
      if And(cand[loc], lim) == cand[loc] {
        assert inconsistent || CellAgrees(val, cand, loc);
        FollowsRefl(Snap());
        return;
      }
      ghost var s0 := Snap();
      NarrowCell(loc, lim);
      var currentCand := cand[loc];
      if IsEmpty(currentCand) {
        StepFollows(s0, Snap());
        return;
      }
      ghost var s1 := Snap();
      if Count(currentCand) == 1 {
        DecideInt(loc, Smallest(currentCand));
      }
      assert Within(cand[loc], s1.cand[loc]);
      var (g1, g2) := layout.cellGroups[loc];
      QueueGroups(g1, g2, s0, s1);
    }

    /**
     * Lines 193-199 of `limit_cand` on a cell the limit changes: the board
     * total loses the digits taken away, and a cell left empty makes the
     * field inconsistent.
     */
    method NarrowCell(loc: int, lim: Cand)
      requires Valid() && 0 <= loc < |val| && !layout.hasClue[loc] && And(cand[loc], lim) != cand[loc]
      modifies this
      ensures Valid() && Advances(old(Snap()), Snap()) && SlotGroupsOk(layout, loc)
      ensures cand == old(cand)[loc := And(old(cand[loc]), lim)] && val == old(val) && grps == old(grps)
      ensures inconsistent == (old(inconsistent) || IsEmpty(And(old(cand[loc]), lim)))
      ensures !inconsistent ==> val[loc] == Undecided
    {
      assert SlotGroupsOk(layout, loc);
      LimitStep(layout, clues, val, cand, grps, inconsistent, solved, undecidedCells, totalCands, loc, lim);
      NarrowAt(cand, loc, And(cand[loc], lim));
      totalCands := totalCands - Count(And(cand[loc], Not(lim)));
      cand := cand[loc := And(cand[loc], lim)];
      if IsEmpty(cand[loc]) {
        inconsistent := true;
      }
    }
  
    /**
     * `check_group(gid)`: a group whose dictionary entry is IMPOSSIBLE makes
     * the field inconsistent; otherwise the deductions the technique turns
     * on run in order. `ok` is false where the source panics instead: an
     * entry outside the dictionary, a two-cell group without two undecided
     * slots, an undecided slot without a candidate for min-max, or more
     * than nine min-max updates.
     */
    method CheckGroup(gid: int) returns (ok: bool)
      requires Valid() && 0 <= gid < |grps|
      modifies this, queue
      ensures Valid() && Follows(old(Snap()), Snap())
      ensures var e := At(dic, old(grps[gid]).unmetNum, old(grps[gid]).unmetSum, old(grps[gid]).unused);
        && (e.None? ==> !ok && Snap() == old(Snap()))
        && (e == Some(Impossible) ==> ok && inconsistent)
        && (e.Some? ==> inconsistent || gid in queue.Contents || EntryOk(dic, grps[gid]))
        && (!ok ==> e.None? || inconsistent || |layout.groupCells[gid]| > 9)
    {
      var grp := grps[gid];
      var e := At(dic, grp.unmetNum, grp.unmetSum, grp.unused);
      if e.None? {
        FollowsRefl(Snap());
        return false;
      }
      if e.value == Impossible {
        ghost var s := Snap();
        inconsistent := true;
        FollowsRefl(s);
        return true;
      }
      var (imperative, allowed) := e.value;
      ghost var s0 := Snap();
      assert EntryOk(dic, s0.grps[gid]);
      UniquePosition(gid, imperative);
      ghost var s1 := Snap();
      DictionaryLimit(gid, allowed);
      FollowsTrans(s0, s1, Snap());
      ghost var s2 := Snap();
      ok := TwoCells(gid);
      FollowsTrans(s0, s2, Snap());
      if !ok {
        return;
      }
      ghost var s3 := Snap();
      NakedPair(gid);
      FollowsTrans(s0, s3, Snap());
      ghost var s4 := Snap();
      ok := MinMax(gid);
      FollowsTrans(s0, s4, Snap());
    }

    /**
     * The unique-position step, lines 218-236: every undecided slot that is
     * the one place left for an imperative digit is decided to such a
     * digit, so no undecided slot keeps one afterwards.
     */
    method UniquePosition(gid: int, imperative: Cand)
      requires Valid() && 0 <= gid < |grps|
      modifies this, queue
      ensures Valid() && Follows(old(Snap()), Snap())
      ensures technique.uniquePosition && !IsEmpty(imperative) ==>
        && CellsIn(layout.groupCells[gid], |val|)
        && Limited(val, cand, layout.groupCells[gid], |layout.groupCells[gid]|,
                   Not(Unique(old(val), old(cand), layout.groupCells[gid], imperative)))
    {
      if !(technique.uniquePosition && !IsEmpty(imperative)) {
        FollowsRefl(Snap());
        return;
      }
      assert SlotsOk(layout.hasClue, layout.groupCells[gid]);
      var uniq := UniqueDigits(val, cand, layout.groupCells[gid], imperative);
      DecideUnique(gid, uniq);
    }

    /** Lines 229-234: decides every undecided slot meeting `uniq` to its least digit of `uniq`. */
    method DecideUnique(gid: int, uniq: Cand)
      requires Valid() && 0 <= gid < |grps|
      modifies this, queue
      ensures Valid() && Follows(old(Snap()), Snap())
      ensures CellsIn(layout.groupCells[gid], |val|)
      ensures Limited(val, cand, layout.groupCells[gid], |layout.groupCells[gid]|, Not(uniq))
    {
      var cells := layout.groupCells[gid];
      assert SlotsOk(layout.hasClue, cells);
      ghost var s0 := Snap();
      FollowsRefl(s0);
      if IsEmpty(uniq) {
        forall k | 0 <= k < |cells|
          ensures Within(cand[cells[k]], Not(uniq))
        {
          DisjointWithin(cand[cells[k]], uniq);
        }
        return;
      }
      var k := 0;
      while k < |cells|
        invariant 0 <= k <= |cells|
        invariant Valid() && Follows(s0, Snap())
        invariant Limited(val, cand, cells, k, Not(uniq))
      {
        ghost var s1 := Snap();
        DecideUniqueSlot(cells[k], uniq);
        FollowsTrans(s0, s1, Snap());
        LimitedFollows(s1, Snap(), cells, k, Not(uniq));
        k := k + 1;
      }
    }

    /** One slot of lines 229-234: an undecided slot meeting `uniq` is decided to its least digit of `uniq`. */
    method DecideUniqueSlot(c: int, uniq: Cand)
      requires Valid() && 0 <= c < |val| && !layout.hasClue[c]
      modifies this, queue
      ensures Valid() && Follows(old(Snap()), Snap())
      ensures val[c] != Undecided || Within(cand[c], Not(uniq))
    {
      if val[c] == Undecided && !IsEmpty(And(cand[c], uniq)) {
        CountZero(And(cand[c], uniq));
        DecideInt(c, Smallest(And(cand[c], uniq)));
      } else {
        FollowsRefl(Snap());
        DisjointWithin(cand[c], uniq);
      }
    }

    /** The candidate limitation, lines 239-245: every undecided slot keeps only allowed digits. */
    method DictionaryLimit(gid: int, allowed: Cand)
      requires Valid() && 0 <= gid < |grps|
      modifies this, queue
      ensures Valid() && Follows(old(Snap()), Snap())
      ensures technique.dictionary ==>
        CellsIn(layout.groupCells[gid], |val|) && Limited(val, cand, layout.groupCells[gid], |layout.groupCells[gid]|, allowed)
    {
      ghost var s0 := Snap();
      FollowsRefl(s0);
      if !technique.dictionary {
        return;
      }
      var cells := layout.groupCells[gid];
      assert SlotsOk(layout.hasClue, cells);
      var k := 0;
      while k < |cells|
        invariant 0 <= k <= |cells|
        invariant Valid() && Follows(s0, Snap())
        invariant Limited(val, cand, cells, k, allowed)
      {
        var c := cells[k];
        if val[c] == Undecided {
          ghost var s1 := Snap();
          LimitCand(c, allowed);
          FollowsTrans(s0, s1, Snap());
          LimitedFollows(s1, Snap(), cells, k, allowed);
        }
        k := k + 1;
      }
    }
  
    /**
     * The two-cell propagation, lines 248-281: when two slots of the group
     * are left, each keeps only digits whose partner up to the remaining
     * sum the other can take. In a consistent field the group counter
     * matches its slots, so the two slots are there and `ok` holds.
     */
    method TwoCells(gid: int) returns (ok: bool)
      requires Valid() && 0 <= gid < |grps|
      modifies this, queue
      ensures Valid() && Follows(old(Snap()), Snap())
      ensures CellsIn(layout.groupCells[gid], |val|)
      ensures var applies := technique.twoCellsPropagation && old(grps[gid]).unmetNum == 2;
        var o := Open(old(val), layout.groupCells[gid]);
        && CellsIn(o, |cand|)
        && (ok <==> !applies || |o| >= 2)
        && (!ok ==> old(inconsistent))
        && (applies && ok ==>
             && Within(cand[o[0]], TwoLimit(old(cand)[o[|o| - 1]], old(grps[gid]).unmetSum))
             && Within(cand[o[|o| - 1]], TwoLimit(old(cand)[o[0]], old(grps[gid]).unmetSum)))
    {
      var cells := layout.groupCells[gid];
      assert SlotsOk(layout.hasClue, cells);
      OpenIn(val, cells);
      if !(technique.twoCellsPropagation && grps[gid].unmetNum == 2) {
        FollowsRefl(Snap());
        return true;
      }
      var found, c1, c2, c1Lim, c2Lim := TwoTargets(gid);
      if !found {
        FollowsRefl(Snap());
        return false;
      }
      LimitPair(c1, c1Lim, c2, c2Lim);
      ok := true;
    }

    /**
     * Lines 249-276: the first and the last undecided slot of the group and
     * their limits; `found` is false where `unwrap` panics, which a
     * consistent field with a group counter of 2 never reaches.
     */
    method TwoTargets(gid: int) returns (found: bool, c1: int, c2: int, c1Lim: Cand, c2Lim: Cand)
      requires Valid() && 0 <= gid < |grps| && grps[gid].unmetNum == 2
      ensures CellsIn(layout.groupCells[gid], |val|)
      ensures var o := Open(val, layout.groupCells[gid]);
        && (found <==> |o| >= 2) && (!found ==> inconsistent)
        && (found ==>
             && c1 == o[0] && c2 == o[|o| - 1]
             && 0 <= c1 < |val| && !layout.hasClue[c1] && 0 <= c2 < |val| && !layout.hasClue[c2]
             && c1Lim == TwoLimit(cand[c2], grps[gid].unmetSum) && c2Lim == TwoLimit(cand[c1], grps[gid].unmetSum))
    {
      var cells := layout.groupCells[gid];
      assert SlotsOk(layout.hasClue, cells);
      var o1, o2 := FindTwo(val, cells);
      ghost var o := Open(val, cells);
      if o1.None? || o2.None? {
        if !inconsistent {
          assert grps[gid] == GroupOf(val, layout.groupCells[gid], clues[gid]);
          OpenCount(val, cells);
        }
        return false, 0, 0, CandAll, CandAll;
      }
      OpenMembers(val, cells, o[0]);
      OpenMembers(val, cells, o[|o| - 1]);
      found, c1, c2 := true, o1.value, o2.value;
      c1Lim, c2Lim := TwoLimits(cand[c1], cand[c2], grps[gid].unmetSum);
    }

    /** Lines 279-280: narrows slot `a` to `la`, then slot `b` to `lb`. */
    method LimitPair(a: int, la: Cand, b: int, lb: Cand)
      requires Valid() && 0 <= a < |val| && !layout.hasClue[a] && 0 <= b < |val| && !layout.hasClue[b]
      modifies this, queue
      ensures Valid() && Follows(old(Snap()), Snap())
      ensures Within(cand[a], la) && Within(cand[b], lb)
    {
      ghost var s0 := Snap();
      LimitCand(a, la);
      ghost var s1 := Snap();
      LimitCand(b, lb);
      FollowsTrans(s0, s1, Snap());
      assert Within(cand[a], s1.cand[a]);
    }

    /**
     * The naked-pair step, lines 284-303: for every undecided slot with
     * two candidates and every other undecided slot holding the same two,
     * the remaining slots of the group lose both. `NakedPairSound` is why
     * that removes no value of a completion.
     */
    method NakedPair(gid: int)
      requires Valid() && 0 <= gid < |grps|
      modifies this, queue
      ensures Valid() && Follows(old(Snap()), Snap())
    {
      ghost var s0 := Snap();
      FollowsRefl(s0);
      if !technique.nakedPair {
        return;
      }
      var cells := layout.groupCells[gid];
      assert SlotsOk(layout.hasClue, cells);
      var k := 0;
      while k < |cells|
        invariant 0 <= k <= |cells|
        invariant Valid() && Follows(s0, Snap())
      {
        var c := cells[k];
        if val[c] == Undecided && Count(cand[c]) == 2 {
          ghost var s1 := Snap();
          PairsOf(gid, c);
          FollowsTrans(s0, s1, Snap());
        }
        k := k + 1;
      }
    }

    /** Lines 288-301 for one slot `c`: every other undecided slot with the same candidates makes a pair with it. */
    method PairsOf(gid: int, c: int)
      requires Valid() && 0 <= gid < |grps| && 0 <= c < |val|
      modifies this, queue
      ensures Valid() && Follows(old(Snap()), Snap())
    {
      var cells := layout.groupCells[gid];
      assert SlotsOk(layout.hasClue, cells);
      ghost var s0 := Snap();
      FollowsRefl(s0);
      var k := 0;
      while k < |cells|
        invariant 0 <= k <= |cells|
        invariant Valid() && Follows(s0, Snap())
      {
        var d := cells[k];
        if val[d] == Undecided && c != d && cand[c] == cand[d] {
          ghost var s1 := Snap();
          ExcludePair(gid, c, d);
          FollowsTrans(s0, s1, Snap());
        }
        k := k + 1;
      }
    }

    /** Lines 294-299: every slot of the group but `c` and `d` loses the current candidates of `c`. */
    method ExcludePair(gid: int, c: int, d: int)
      requires Valid() && 0 <= gid < |grps| && 0 <= c < |val|
      modifies this, queue
      ensures Valid() && Follows(old(Snap()), Snap())
    {
      var cells := layout.groupCells[gid];
      assert SlotsOk(layout.hasClue, cells);
      ghost var s0 := Snap();
      FollowsRefl(s0);
      var k := 0;
      while k < |cells|
        invariant 0 <= k <= |cells|
        invariant Valid() && Follows(s0, Snap())
      {
        var e := cells[k];
        if c != e && d != e {
          var lim := Not(cand[c]);
          ghost var s1 := Snap();
          LimitCand(e, lim);
          FollowsTrans(s0, s1, Snap());
        }
        k := k + 1;
      }
    }

    /**
     * The min-max step, lines 306-340: every undecided slot is bounded by
     * what the remaining sum leaves after the other slots' smallest and
     * largest candidates; `MinMaxSound` is why that removes no value of a
     * completion.
     */
    method MinMax(gid: int) returns (ok: bool)
      requires Valid() && 0 <= gid < |grps|
      modifies this, queue
      ensures Valid() && Follows(old(Snap()), Snap())
      ensures CellsIn(layout.groupCells[gid], |val|)
      ensures !ok ==> technique.minMax && (old(inconsistent) || |layout.groupCells[gid]| > 9)
      ensures technique.minMax && ok ==>
        && OpenNonEmpty(old(val), old(cand), layout.groupCells[gid])
        && var u := Updates(old(val), old(cand), layout.groupCells[gid], old(grps[gid]).unmetSum,
                            SmallestSum(old(val), old(cand), layout.groupCells[gid]),
                            LargestSum(old(val), old(cand), layout.groupCells[gid]));
           forall i :: 0 <= i < |u| ==> 0 <= u[i].0 < |cand| && Within(cand[u[i].0], u[i].1)
    {
      var cells := layout.groupCells[gid];
      assert SlotsOk(layout.hasClue, cells);
      ghost var s0 := Snap();
      FollowsRefl(s0);
      if !technique.minMax {
        return true;
      }
      var grp := grps[gid];
      var nonEmpty, minSum, maxSum := MinMaxSums(val, cand, cells);
      if !nonEmpty {
        if !inconsistent {
          forall k | 0 <= k < |cells| && val[cells[k]] == Undecided
            ensures Count(cand[cells[k]]) > 0
          {
            assert CellAgrees(val, cand, cells[k]);
            CountZero(cand[cells[k]]);
          }
        }
        return false;
      }
      var fits, updates := MinMaxUpdates(val, cand, cells, grp.unmetSum, minSum, maxSum);
      if !fits {
        UpdatesLength(val, cand, cells, grp.unmetSum, minSum, maxSum);
        return false;
      }
      forall i | 0 <= i < |updates|
        ensures 0 <= updates[i].0 < |val| && !layout.hasClue[updates[i].0]
      {
        UpdatesMembers(val, cand, cells, grp.unmetSum, minSum, maxSum, updates[i].0, updates[i].1);
      }
      ApplyUpdates(updates);
      ok := true;
    }

    /** Lines 338-340: each listed slot is narrowed to its limit. */
    method ApplyUpdates(updates: seq<(int, Cand)>)
      requires Valid() && forall i :: 0 <= i < |updates| ==> 0 <= updates[i].0 < |val| && !layout.hasClue[updates[i].0]
      modifies this, queue
      ensures Valid() && Follows(old(Snap()), Snap())
      ensures forall i :: 0 <= i < |updates| ==> Within(cand[updates[i].0], updates[i].1)
    {
      ghost var s0 := Snap();
      FollowsRefl(s0);
      var k := 0;
      while k < |updates|
        invariant 0 <= k <= |updates|
        invariant Valid() && Follows(s0, Snap())
        invariant forall i :: 0 <= i < k ==> Within(cand[updates[i].0], updates[i].1)
      {
        ghost var s1 := Snap();
        LimitCand(updates[k].0, updates[k].1);
        FollowsTrans(s0, s1, Snap());
        forall i | 0 <= i < k
          ensures Within(cand[updates[i].0], updates[i].1)
        {
          assert Within(cand[updates[i].0], s1.cand[updates[i].0]);
        }
        k := k + 1;
      }
    }
  }

  // ---- Field::new ----

  /** The board of clue cells of a problem: a cell holds a clue exactly when it is `Clue::Clue`. */
  function ClueCells(problem: Grid<Clue>): (hc: Grid<bool>)
    requires problem.Valid()
    ensures hc.Valid() && hc.height == problem.height && hc.width == problem.width
    ensures forall i :: 0 <= i < |problem.data| ==> (hc.data[i] <==> problem.data[i].Clue?)
  {
    Grid(problem.height, problem.width, seq(|problem.data|, i requires 0 <= i < |problem.data| => problem.data[i].Clue?))
  }

  /**
   * Lines 44-64 of `Field::new`: the clue a group reads at its clue
   * location, the vertical clue above a vertical group or the horizontal
   * clue left of a horizontal one; `None` where the source panics, a
   * location off the board or holding no clue.
   */
  function ClueAt(problem: Grid<Clue>, loc: ClueLocation): (r: Option<int>)
    ensures r.Some? <==> 0 <= loc.slot < |problem.data| && problem.data[loc.slot].Clue?
    ensures r.Some? && loc.Vertical? ==> r.value == problem.data[loc.slot].vertical
    ensures r.Some? && loc.Horizontal? ==> r.value == problem.data[loc.slot].horizontal
  {
    if !(0 <= loc.slot < |problem.data|) then None
    else match problem.data[loc.slot]
      case NoClue => None
      case Clue(h, v) => Some(if loc.Vertical? then v else h)
  }

  /** The groups of shape `s` start at their sizes and their clues in `problem`, every digit free. */
  ghost predicate StartGroups(problem: Grid<Clue>, s: FieldShape, l: Layout, grps: seq<FieldGrp>) {
    |grps| == |s.clueLocations| == |l.groupCells|
    && forall g :: 0 <= g < |grps| ==>
         ClueAt(problem, s.clueLocations[g]).Some?
         && grps[g] == FieldGrp(|l.groupCells[g]|, ClueAt(problem, s.clueLocations[g]).value, CandAll)
  }

  /**
   * `Field::new(problem, dic)` with the techniques given: every cell
   * undecided with all nine candidates, the counters at the number of
   * non-clue cells, and every group at its size and clue. `None` where the
   * source panics: a board whose top row has an open cell, which
   * `FieldShape::new` refuses, or a group whose clue location holds no
   * clue.
   */
  method NewField(problem: Grid<Clue>, dic: Dictionary, technique: FieldTechnique) returns (r: Option<Field>)
    requires problem.Valid()
    ensures TopRowOpen(ClueCells(problem)) ==> r.None?
    ensures r.None? && !TopRowOpen(ClueCells(problem)) ==>
      exists s: FieldShape, g: int :: ShapeSpec(ClueCells(problem), s) && 0 <= g < |s.clueLocations|
        && ClueAt(problem, s.clueLocations[g]).None?
    ensures r.Some? ==>
      var f := r.value;
      && fresh(f) && fresh(f.queue) && f.Valid() && f.BoardOk() && f.board == ClueCells(problem)
      && f.dic == dic && f.technique == technique && f.queue.Contents == []
      && (exists s :: ShapeSpec(f.board, s) && LayoutOf(s, f.layout) && StartGroups(problem, s, f.layout, f.grps))
      && f.val == seq(|problem.data|, _ => Undecided) && f.cand == seq(|problem.data|, _ => CandAll)
      && !f.inconsistent && !f.solved
      && f.undecidedCells == NonClueBelow(f.board.data, |problem.data|) && f.totalCands == 9 * f.undecidedCells
  {
    var hc, nNonclue := MarkClues(problem);
    var shape := KakuroFieldShapeNew.New(hc);
    if shape.None? {
      return None;
    }
    var s := shape.value;
    ShapeSpecOk(hc, s);
    var layout := Materialise(s);
    LayoutOfOk(s, layout);
    var found, clues, grps := StartGrps(problem, s, layout);
    if !found {
      return None;
    }
    var f := new Field(dic, hc, layout, clues, technique, grps, |problem.data|, nNonclue);
    assert StartGroups(problem, s, f.layout, f.grps);
    r := Some(f);
  }

  /**
   * Lines 43-78 of `Field::new`: every group's clue and starting counters;
   * `found` is false at the first group whose clue location holds no clue.
   */
  method StartGrps(problem: Grid<Clue>, s: FieldShape, l: Layout) returns (found: bool, clues: seq<int>, grps: seq<FieldGrp>)
    requires |s.clueLocations| == |s.groupToCells| == |l.groupCells|
    ensures found ==> StartGroups(problem, s, l, grps) && |clues| == |grps|
    ensures found ==> forall g :: 0 <= g < |grps| ==> grps[g] == FieldGrp(|l.groupCells[g]|, clues[g], CandAll)
    ensures !found ==> exists g :: 0 <= g < |s.clueLocations| && ClueAt(problem, s.clueLocations[g]).None?
  {
    clues, grps := [], [];
    var i := 0;
    while i < |s.groupToCells|
      invariant 0 <= i <= |s.groupToCells| && |clues| == |grps| == i
      invariant forall g :: 0 <= g < i ==>
        ClueAt(problem, s.clueLocations[g]) == Some(clues[g])
        && grps[g] == FieldGrp(|l.groupCells[g]|, clues[g], CandAll)
    {
      var c := ClueAt(problem, s.clueLocations[i]);
      if c.None? {
        return false, clues, grps;
      }
      clues := clues + [c.value];
      grps := grps + [FieldGrp(|l.groupCells[i]|, c.value, CandAll)];
      i := i + 1;
    }
    found := true;
  }

  /** Lines 25-37 of `Field::new`: the clue cells and the number of the others. */
  method MarkClues(problem: Grid<Clue>) returns (hc: Grid<bool>, nNonclue: nat)
    requires problem.Valid()
    ensures hc == ClueCells(problem) && nNonclue == NonClueBelow(hc.data, |hc.data|)
  {
    var n := |problem.data|;
    var target := ClueCells(problem).data;
    var data := seq(n, _ => false);
    nNonclue := 0;
    var i := 0;
    while i < n
      invariant 0 <= i <= n && |data| == n
      invariant forall j :: 0 <= j < n ==> data[j] == (j < i && problem.data[j].Clue?)
      invariant nNonclue == NonClueBelow(target, i)
    {
      if problem.data[i].Clue? {
        data := data[i := true];
      } else {
        nNonclue := nNonclue + 1;
      }
      i := i + 1;
    }
    hc := Grid(problem.height, problem.width, data);
  }

  /** The slots of every group of `s`, listed once so that the field reads them without unfolding a range. */
  method Materialise(s: FieldShape) returns (l: Layout)
    requires ShapeOk(s)
    ensures LayoutOf(s, l)
  {
    var cells: seq<seq<int>> := [];
    var g := 0;
    while g < |s.groupToCells|
      invariant 0 <= g <= |s.groupToCells| && |cells| == g
      invariant forall h :: 0 <= h < g ==> s.groupToCells[h].step > 0 && cells[h] == Elements(s.groupToCells[h])
    {
      cells := cells + [Elements(s.groupToCells[g])];
      g := g + 1;
    }
    l := Layout(s.hasClue.data, s.cellToGroups.data, cells);
  }
}
