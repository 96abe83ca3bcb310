/**
 * The state of the Kakuro field of src/kakuro/field.rs, as values: the
 * per-group counters, what it means for them and for the per-cell
 * candidates to agree with the decided values, and the lemmas that carry
 * that agreement through one `decide_int` or `limit_cand` step.
 */
module KakuroFieldState {
  import opened Wrappers
  import opened KakuroBase
  import opened KakuroDictionary
  import opened KakuroFieldShape
  import opened KakuroFieldCounts
  import opened KakuroFieldShapeRuns

  /** `FieldGrp`: the undecided cells of a group, what they still have to add up to, and the digits still free. */
  datatype FieldGrp = FieldGrp(unmetNum: int, unmetSum: int, unused: Cand)

  /** The counters a group with clue `clue` should hold while its slots hold `val`. */
  function GroupOf(val: seq<int>, cells: seq<int>, clue: int): FieldGrp
    requires CellsIn(cells, |val|)
  {
    FieldGrp(GUndecided(val, cells), clue - GSum(val, cells), GUnused(val, cells))
  }

  /** The counters after one more cell of the group is decided to `v`. */
  function Decided(fg: FieldGrp, v: int): FieldGrp
    requires IsDigit(v)
  {
    FieldGrp(fg.unmetNum - 1, fg.unmetSum - v, Exclude(fg.unused, v))
  }

  /** Every digit of `m` is in `a`. */
  ghost predicate Within(m: Cand, a: Cand) {
    forall d :: IsDigit(d) && Has(m, d) ==> Has(a, d)
  }

  // ---- the invariant ----

  ghost predicate Sized(l: Layout, clues: seq<int>, val: seq<int>, cand: seq<Cand>, grps: seq<FieldGrp>) {
    LayoutOk(l) && |val| == |l.hasClue| && |cand| == |l.hasClue|
    && |grps| == |l.groupCells| && |clues| == |l.groupCells|
  }

  /** A clue slot stays undecided; a non-clue slot is undecided or holds a digit. */
  ghost predicate ValueOk(hc: seq<bool>, val: seq<int>, i: int)
    requires 0 <= i < |val| == |hc|
  {
    if hc[i] then val[i] == Undecided else val[i] == Undecided || IsDigit(val[i])
  }

  ghost predicate ValuesOk(hc: seq<bool>, val: seq<int>)
    requires |val| == |hc|
  {
    forall i {:trigger ValueOk(hc, val, i)} :: 0 <= i < |hc| ==> ValueOk(hc, val, i)
  }

  /** The board counters, and `solved` exactly when a board with cells has none left undecided. */
  ghost predicate CountersOk(hc: seq<bool>, val: seq<int>, cand: seq<Cand>, solved: bool, undecided: int, total: int)
    requires |val| == |hc| == |cand|
  {
    undecided == UndecidedBelow(hc, val, |hc|) && total == CandsBelow(hc, cand, |hc|)
    && (solved <==> undecided == 0 && NonClueBelow(hc, |hc|) > 0)
  }

  /** A non-clue slot has a candidate, and a decided one has exactly its value. */
  ghost predicate CellAgrees(val: seq<int>, cand: seq<Cand>, i: int)
    requires 0 <= i < |val| == |cand|
  {
    !IsEmpty(cand[i]) && (val[i] != Undecided ==> IsDigit(val[i]) && cand[i] == Singleton(val[i]))
  }

  ghost predicate CellsAgree(hc: seq<bool>, val: seq<int>, cand: seq<Cand>)
    requires |val| == |hc| == |cand|
  {
    forall i {:trigger CellAgrees(val, cand, i)} :: 0 <= i < |hc| && !hc[i] ==> CellAgrees(val, cand, i)
  }

  /** Every group's counters are those of its slots. */
  ghost predicate GroupsAgree(l: Layout, clues: seq<int>, val: seq<int>, grps: seq<FieldGrp>)
    requires LayoutOk(l) && |val| == |l.hasClue| && |grps| == |clues| == |l.groupCells|
  {
    forall g {:trigger GroupOf(val, l.groupCells[g], clues[g])} :: 0 <= g < |grps| ==> grps[g] == GroupOf(val, l.groupCells[g], clues[g])
  }

  /**
   * What the field keeps at every call boundary: the counters always, and
   * while it is consistent the candidates and the group counters agree with
   * the decided values.
   */
  ghost predicate Inv(l: Layout, clues: seq<int>, val: seq<int>, cand: seq<Cand>, grps: seq<FieldGrp>,
                      inconsistent: bool, solved: bool, undecided: int, total: int)
  {
    var hc := l.hasClue;
    Sized(l, clues, val, cand, grps) && ValuesOk(hc, val) && CountersOk(hc, val, cand, solved, undecided, total)
    && (!inconsistent ==> CellsAgree(hc, val, cand) && GroupsAgree(l, clues, val, grps))
  }

  // ---- one step ----

  /**
   * `decide_int` on an undecided non-clue cell whose value is no
   * candidate: one cell fewer undecided, and the field turns inconsistent
   * with nothing else moved.
   */
  lemma DecideMissing(l: Layout, clues: seq<int>, val: seq<int>, cand: seq<Cand>, grps: seq<FieldGrp>,
                      inc: bool, solved: bool, und: int, tot: int, loc: int, v: int)
    requires Inv(l, clues, val, cand, grps, inc, solved, und, tot)
    requires 0 <= loc < |val| && !l.hasClue[loc] && val[loc] == Undecided && IsDigit(v) && !Has(cand[loc], v)
    ensures und >= 1
    ensures Inv(l, clues, val[loc := v], cand, grps, true, solved || und - 1 == 0, und - 1, tot)
  {
    var hc := l.hasClue;
    var n := |hc|;
    UndecidedPositive(hc, val, loc, n);
    UndecidedUpdate(hc, val, loc, v, n);
    NonCluePositive(hc, loc, n);
    ValuesSet(hc, val, loc, v);
    assert CountersOk(hc, val[loc := v], cand, solved || und - 1 == 0, und - 1, tot);
  }

  /**
   * `decide_int` on an undecided non-clue cell whose value is a candidate:
   * one cell fewer undecided, the cell keeps that digit alone, and both its
   * groups count it as decided.
   */
  lemma DecideKept(l: Layout, clues: seq<int>, val: seq<int>, cand: seq<Cand>, grps: seq<FieldGrp>,
                   inc: bool, solved: bool, und: int, tot: int, loc: int, v: int)
    requires Inv(l, clues, val, cand, grps, inc, solved, und, tot)
    requires 0 <= loc < |val| && !l.hasClue[loc] && val[loc] == Undecided && IsDigit(v) && Has(cand[loc], v)
    ensures und >= 1 && Count(cand[loc]) >= 1 && tot >= Count(cand[loc]) - 1
    ensures var (a, b) := l.cellGroups[loc];
      && 0 <= a < |grps| && 0 <= b < |grps| && a != b
      && var g1 := grps[a := Decided(grps[a], v)];
         Inv(l, clues, val[loc := v], cand[loc := Singleton(v)], g1[b := Decided(g1[b], v)],
             inc, solved || und - 1 == 0, und - 1, tot - (Count(cand[loc]) - 1))
  {
    var hc := l.hasClue;
    var n := |hc|;
    var val' := val[loc := v];
    var cand' := cand[loc := Singleton(v)];
    UndecidedPositive(hc, val, loc, n);
    UndecidedUpdate(hc, val, loc, v, n);
    NonCluePositive(hc, loc, n);
    ValuesSet(hc, val, loc, v);
    CountDigit(cand[loc], v);
    SingletonCount(v);
    CandsUpdate(hc, cand, loc, Singleton(v), n);
    assert CountersOk(hc, val', cand', solved || und - 1 == 0, und - 1, tot - (Count(cand[loc]) - 1));
    assert SlotGroupsOk(l, loc);
    if !inc {
      CellsSet(hc, val, cand, loc, v);
      DecideGroups(l, clues, val, grps, loc, v);
    }
  }

  lemma ValuesSet(hc: seq<bool>, val: seq<int>, loc: int, v: int)
    requires |val| == |hc| && ValuesOk(hc, val) && 0 <= loc < |hc| && !hc[loc] && IsDigit(v)
    ensures ValuesOk(hc, val[loc := v])
  {
    var val' := val[loc := v];
    forall i | 0 <= i < |hc|
      ensures ValueOk(hc, val', i)
    {
      assert ValueOk(hc, val, i);
    }
  }

  lemma CellsSet(hc: seq<bool>, val: seq<int>, cand: seq<Cand>, loc: int, v: int)
    requires |val| == |hc| == |cand| && CellsAgree(hc, val, cand) && 0 <= loc < |hc| && IsDigit(v)
    ensures CellsAgree(hc, val[loc := v], cand[loc := Singleton(v)])
  {
    assert Has(Singleton(v), v);
    forall i | 0 <= i < |hc| && !hc[i]
      ensures CellAgrees(val[loc := v], cand[loc := Singleton(v)], i)
    {
      assert CellAgrees(val, cand, i);
    }
  }

  /**
   * One group across a decision of slot `loc` to `v`: counters that agreed
   * with the slots before agree after, moved by `Decided` exactly when the
   * slot is one of the group's.
   */
  lemma GroupAcross(val: seq<int>, cells: seq<int>, clue: int, loc: int, v: int, before: FieldGrp, after: FieldGrp)
    requires CellsIn(cells, |val|) && Increasing(cells) && 0 <= loc < |val|
    requires val[loc] == Undecided && IsDigit(v)
    requires before == GroupOf(val, cells, clue)
    requires after == if loc in cells then Decided(before, v) else before
    ensures CellsIn(cells, |val[loc := v]|) && after == GroupOf(val[loc := v], cells, clue)
  {
    if loc in cells {
      GroupDecided(val, cells, loc, v);
    } else {
      GroupUntouched(val, cells, loc, v);
    }
  }

  /** The group counters after the decision are those of the slots with the new value. */
  lemma DecideGroups(l: Layout, clues: seq<int>, val: seq<int>, grps: seq<FieldGrp>, loc: int, v: int)
    requires LayoutOk(l) && |val| == |l.hasClue| && |grps| == |clues| == |l.groupCells|
    requires GroupsAgree(l, clues, val, grps)
    requires 0 <= loc < |val| && !l.hasClue[loc] && val[loc] == Undecided && IsDigit(v)
    ensures var (a, b) := l.cellGroups[loc];
      && 0 <= a < |grps| && 0 <= b < |grps| && a != b
      && var g1 := grps[a := Decided(grps[a], v)];
         GroupsAgree(l, clues, val[loc := v], g1[b := Decided(g1[b], v)])
  {
    assert SlotGroupsOk(l, loc);
    var (a, b) := l.cellGroups[loc];
    var g1 := grps[a := Decided(grps[a], v)];
    var g2 := g1[b := Decided(g1[b], v)];
    forall g | 0 <= g < |g2|
      ensures g2[g] == GroupOf(val[loc := v], l.groupCells[g], clues[g])
    {
      var cells := l.groupCells[g];
      assert SlotsOk(l.hasClue, l.groupCells[g]);
      assert loc in cells <==> g == a || g == b;
      GroupAcross(val, cells, clues[g], loc, v, grps[g], g2[g]);
    }
  }

  /**
   * `limit_cand` that changes a cell: the digits taken away leave the
   * board total, and the field turns inconsistent when none is left. A
   * consistent field only narrows undecided cells this way: a decided
   * cell holds one digit, which a change removes.
   */
  lemma LimitStep(l: Layout, clues: seq<int>, val: seq<int>, cand: seq<Cand>, grps: seq<FieldGrp>,
                  inc: bool, solved: bool, und: int, tot: int, loc: int, lim: Cand)
    requires Inv(l, clues, val, cand, grps, inc, solved, und, tot)
    requires 0 <= loc < |val| && !l.hasClue[loc] && And(cand[loc], lim) != cand[loc]
    ensures var r := Count(And(cand[loc], Not(lim)));
      && r >= 1 && tot >= r
      && Inv(l, clues, val, cand[loc := And(cand[loc], lim)], grps, inc || IsEmpty(And(cand[loc], lim)), solved, und, tot - r)
    ensures !inc && !IsEmpty(And(cand[loc], lim)) ==> val[loc] == Undecided
  {
    var hc := l.hasClue;
    var m := And(cand[loc], lim);
    var cand' := cand[loc := m];
    ChangedLoses(cand[loc], lim);
    CountSplit(cand[loc], lim);
    CandsUpdate(hc, cand, loc, m, |hc|);
    assert CountersOk(hc, val, cand', solved, und, tot - Count(And(cand[loc], Not(lim))));
    if !inc && !IsEmpty(m) {
      assert CellAgrees(val, cand, loc);
      if val[loc] != Undecided {
        SingletonLimited(val[loc], lim);
      }
      forall i | 0 <= i < |hc| && !hc[i]
        ensures CellAgrees(val, cand', i)
      {
        assert CellAgrees(val, cand, i);
      }
    }
  }

  // ---- how the propagation moves the state ----

  /** What the propagation reads off the field between two calls. */
  datatype Snapshot = Snapshot(val: seq<int>, cand: seq<Cand>, grps: seq<FieldGrp>, pending: seq<nat>,
                               inconsistent: bool, measure: nat)

  /** Candidates only lose digits. */
  ghost predicate Shrinks(c0: seq<Cand>, c1: seq<Cand>) {
    |c1| == |c0| && forall i {:trigger Within(c1[i], c0[i])} :: 0 <= i < |c0| ==> Within(c1[i], c0[i])
  }

  /** Decided cells keep their values. */
  ghost predicate Keeps(v0: seq<int>, v1: seq<int>) {
    |v1| == |v0| && forall i :: 0 <= i < |v0| && v0[i] != Undecided ==> v1[i] == v0[i]
  }

  /**
   * From `a` to `b` the propagation only narrowed candidates and decided
   * cells, never became consistent again, did not raise the measure and
   * left the queue alone unless the measure dropped, kept every queued
   * group queued, and queued every group whose counters moved.
   */
  ghost predicate Follows(a: Snapshot, b: Snapshot) {
    && Shrinks(a.cand, b.cand) && Keeps(a.val, b.val) && |b.grps| == |a.grps|
    && (a.inconsistent ==> b.inconsistent)
    && b.measure <= a.measure && (b.measure < a.measure || b.pending == a.pending)
    && (forall x :: x in a.pending ==> x in b.pending)
    && (forall g :: 0 <= g < |a.grps| && b.grps[g] != a.grps[g] ==> g in b.pending)
  }

  lemma WithinTrans(m0: Cand, m1: Cand, m2: Cand)
    requires Within(m2, m1) && Within(m1, m0)
    ensures Within(m2, m0)
  {
  }

  lemma FollowsTrans(a: Snapshot, b: Snapshot, c: Snapshot)
    requires Follows(a, b) && Follows(b, c)
    ensures Follows(a, c)
  {
    forall i | 0 <= i < |a.cand|
      ensures Within(c.cand[i], a.cand[i])
    {
      WithinTrans(a.cand[i], b.cand[i], c.cand[i]);
    }
  }

  /** One step that narrowed, kept decided cells, lowered the measure and left the queue alone. */
  ghost predicate Advances(a: Snapshot, b: Snapshot) {
    Shrinks(a.cand, b.cand) && Keeps(a.val, b.val) && |b.grps| == |a.grps|
    && (a.inconsistent ==> b.inconsistent) && b.measure < a.measure && b.pending == a.pending
  }

  lemma FollowsRefl(a: Snapshot)
    ensures Follows(a, a)
  {
    forall i | 0 <= i < |a.cand|
      ensures Within(a.cand[i], a.cand[i])
    {
    }
  }

  /** A step that moved no group follows. */
  lemma StepFollows(a: Snapshot, b: Snapshot)
    requires Advances(a, b) && b.grps == a.grps
    ensures Follows(a, b)
  {
  }

  /**
   * A step that moved at most groups `g1` and `g2`, followed by calls and
   * then by queueing both groups, follows as a whole.
   */
  lemma FollowsAfter(a: Snapshot, b: Snapshot, c: Snapshot, d: Snapshot, g1: int, g2: int)
    requires Advances(a, b)
    requires forall g :: 0 <= g < |a.grps| && g != g1 && g != g2 ==> b.grps[g] == a.grps[g]
    requires Follows(b, c)
    requires d == c.(pending := d.pending) && (forall x :: x in c.pending ==> x in d.pending)
    requires g1 in d.pending && g2 in d.pending
    ensures Follows(a, d)
  {
    forall i | 0 <= i < |a.cand|
      ensures Within(d.cand[i], a.cand[i])
    {
      WithinTrans(a.cand[i], b.cand[i], c.cand[i]);
    }
  }

  /** Narrowing one slot to a subset of its candidates only narrows. */
  lemma NarrowAt(c: seq<Cand>, loc: int, m: Cand)
    requires 0 <= loc < |c| && Within(m, c[loc])
    ensures Shrinks(c, c[loc := m])
  {
  }

  /** Deciding an undecided slot keeps every decided one. */
  lemma KeepAt(v0: seq<int>, loc: int, v: int)
    requires 0 <= loc < |v0| && v0[loc] == Undecided
    ensures Keeps(v0, v0[loc := v])
  {
  }

  /** A candidate alone is within the set it came from. */
  lemma WithinSingleton(m: Cand, v: int)
    requires IsDigit(v) && Has(m, v)
    ensures Within(Singleton(v), m)
  {
  }

  /** No slot of `cells` other than `cur` keeps digit `v`. */
  ghost predicate Lacks(cand: seq<Cand>, cells: seq<int>, cur: int, v: int)
    requires IsDigit(v)
  {
    forall k :: 0 <= k < |cells| && cells[k] != cur ==> 0 <= cells[k] < |cand| && !Has(cand[cells[k]], v)
  }

  lemma LacksShrinks(c0: seq<Cand>, c1: seq<Cand>, cells: seq<int>, cur: int, v: int)
    requires IsDigit(v) && Lacks(c0, cells, cur, v) && Shrinks(c0, c1)
    ensures Lacks(c1, cells, cur, v)
  {
    forall k | 0 <= k < |cells| && cells[k] != cur
      ensures !Has(c1[cells[k]], v)
    {
      assert Within(c1[cells[k]], c0[cells[k]]);
    }
  }

  // ---- what a finished propagation guarantees ----

  /** The dictionary entry of a group's counters exists and is not IMPOSSIBLE. */
  predicate EntryOk(dic: Dictionary, fg: FieldGrp) {
    var e := At(dic, fg.unmetNum, fg.unmetSum, fg.unused);
    e.Some? && e.value != Impossible
  }

  /** Every group is queued, or its entry is not IMPOSSIBLE, or the field is already inconsistent. */
  ghost predicate Covered(dic: Dictionary, a: Snapshot) {
    forall g :: 0 <= g < |a.grps| ==> g in a.pending || a.inconsistent || EntryOk(dic, a.grps[g])
  }

  /** What `Follows` cannot undo: queued groups stay queued, moved groups are queued, inconsistency stays. */
  lemma CoveredFollows(dic: Dictionary, a: Snapshot, b: Snapshot)
    requires Covered(dic, a) && Follows(a, b)
    ensures Covered(dic, b)
  {
  }

  /**
   * Checking the group `g` popped from the queue of `a`, from `b` to `c`,
   * leaves every group queued, inconsistent or with an entry, when it ends
   * with `g` queued, the field inconsistent or `g`'s own entry there.
   */
  lemma CoveredAfterCheck(dic: Dictionary, a: Snapshot, b: Snapshot, c: Snapshot, g: nat)
    requires Covered(dic, a) && a.pending != [] && g == a.pending[0]
    requires b == a.(pending := a.pending[1..]) && Follows(b, c)
    requires 0 <= g < |c.grps| ==> c.inconsistent || g in c.pending || EntryOk(dic, c.grps[g])
    ensures Covered(dic, c)
  {
    forall h | 0 <= h < |c.grps| && h != g
      ensures h in c.pending || c.inconsistent || EntryOk(dic, c.grps[h])
    {
      if h in a.pending {
        assert a.pending == [a.pending[0]] + a.pending[1..];
        assert h in b.pending;
      }
    }
  }

  /** The propagation narrowed candidates, kept decided cells and inconsistency, whatever it did to the queue. */
  ghost predicate Narrows(a: Snapshot, b: Snapshot) {
    Shrinks(a.cand, b.cand) && Keeps(a.val, b.val) && |b.grps| == |a.grps|
    && (a.inconsistent ==> b.inconsistent) && b.measure <= a.measure
  }

  /** A change of the queue alone, then a step that follows, still narrows. */
  lemma NarrowsStep(a: Snapshot, b: Snapshot, c: Snapshot, d: Snapshot)
    requires Narrows(a, b) && c == b.(pending := c.pending) && Follows(c, d)
    ensures Narrows(a, d)
  {
    forall i | 0 <= i < |a.cand|
      ensures Within(d.cand[i], a.cand[i])
    {
      WithinTrans(a.cand[i], b.cand[i], d.cand[i]);
    }
  }

  lemma FollowsNarrows(a: Snapshot, b: Snapshot)
    requires Follows(a, b)
    ensures Narrows(a, b)
  {
  }

  /**
   * A group whose entry exists and is not IMPOSSIBLE, with counters inside
   * the table's range, can still be completed from its free digits.
   */
  lemma SettledSolvable(dic: Dictionary, fg: FieldGrp)
    requires Built(dic) && EntryOk(dic, fg) && 0 <= fg.unmetNum <= 9 && 0 <= fg.unmetSum <= 45
    ensures Solvable(fg.unmetNum, fg.unmetSum, fg.unused)
  {
    AtMeaning(dic, fg.unmetNum, fg.unmetSum, fg.unused);
  }

  lemma NarrowsChain(a: Snapshot, b: Snapshot, c: Snapshot)
    requires Narrows(a, b) && Narrows(b, c)
    ensures Narrows(a, c)
  {
    forall i | 0 <= i < |a.cand|
      ensures Within(c.cand[i], a.cand[i])
    {
      WithinTrans(a.cand[i], b.cand[i], c.cand[i]);
    }
  }

  /**
   * When the queue has run empty on a consistent field whose groups were
   * all covered, every group with counters inside the table's range can
   * still be completed from its free digits.
   */
  lemma SettledGroups(dic: Dictionary, a: Snapshot, g: int)
    requires Built(dic) && Covered(dic, a) && a.pending == [] && !a.inconsistent
    requires 0 <= g < |a.grps| && 0 <= a.grps[g].unmetNum <= 9 && 0 <= a.grps[g].unmetSum <= 45
    ensures Solvable(a.grps[g].unmetNum, a.grps[g].unmetSum, a.grps[g].unused)
  {
    SettledSolvable(dic, a.grps[g]);
  }
}
