/**
 * What the deductions of `check_group` in src/kakuro/field.rs read off one
 * group before they narrow anything: which undecided slots can still take a
 * digit, the first and last undecided slot, the limits of the two-cell
 * step, and the sums and limits of the min-max step, each with what it
 * means for the digits the slots can still take.
 */
module KakuroFieldScan {
  import opened Wrappers
  import opened KakuroBase
  import opened KakuroFieldCounts
  import opened KakuroFieldState

  /** Every slot of `cells` but the last. */
  function Init(cells: seq<int>): seq<int>
    requires cells != []
  {
    cells[..|cells| - 1]
  }

  lemma InitIn(cells: seq<int>, n: int)
    requires cells != [] && CellsIn(cells, n)
    ensures CellsIn(Init(cells), n) && 0 <= cells[|cells| - 1] < n
  {
    assert forall k :: 0 <= k < |Init(cells)| ==> Init(cells)[k] == cells[k];
  }

  /** The slots below `k` step to the slots below `k + 1` by the slot at `k`. */
  lemma PrefixIn(cells: seq<int>, n: int, k: int)
    requires CellsIn(cells, n) && 0 <= k < |cells|
    ensures CellsIn(cells[..k], n) && CellsIn(cells[..k + 1], n) && 0 <= cells[k] < n
    ensures cells[..k + 1] != [] && Init(cells[..k + 1]) == cells[..k] && cells[..k + 1][k] == cells[k]
  {
    assert forall i :: 0 <= i < k + 1 ==> cells[..k + 1][i] == cells[i];
  }

  // ---- narrowed slots ----

  /** Every slot of `cells` below `n` is decided or keeps only digits of `lim`. */
  ghost predicate Limited(val: seq<int>, cand: seq<Cand>, cells: seq<int>, n: int, lim: Cand)
    requires CellsIn(cells, |val|) && |cand| == |val| && n <= |cells|
  {
    forall k :: 0 <= k < n ==> val[cells[k]] != Undecided || Within(cand[cells[k]], lim)
  }

  /** Later propagation keeps slots decided or narrowed. */
  lemma LimitedFollows(a: Snapshot, b: Snapshot, cells: seq<int>, n: int, lim: Cand)
    requires CellsIn(cells, |a.val|) && |a.cand| == |a.val| && n <= |cells|
    requires Limited(a.val, a.cand, cells, n, lim) && Follows(a, b)
    ensures CellsIn(cells, |b.val|) && |b.cand| == |b.val| && Limited(b.val, b.cand, cells, n, lim)
  {
    forall k | 0 <= k < n && b.val[cells[k]] == Undecided
      ensures Within(b.cand[cells[k]], lim)
    {
      assert Within(b.cand[cells[k]], a.cand[cells[k]]);
    }
  }

  /** A set meets none of the digits of `u` exactly when it lies within `!u`. */
  lemma DisjointWithin(m: Cand, u: Cand)
    ensures IsEmpty(And(m, u)) <==> Within(m, Not(u))
  {
    if Within(m, Not(u)) {
      CandExt(And(m, u), Empty);
    } else {
      var d :| IsDigit(d) && Has(m, d) && !Has(Not(u), d);
      EmptyHasNone(d);
    }
  }

  // ---- unique position ----

  /** How many undecided slots of `cells` still have digit `d`. */
  function CountWith(val: seq<int>, cand: seq<Cand>, cells: seq<int>, d: int): nat
    requires CellsIn(cells, |val|) && |cand| == |val| && IsDigit(d)
  {
    if cells == [] then 0
    else
      InitIn(cells, |val|);
      var c := cells[|cells| - 1];
      CountWith(val, cand, Init(cells), d) + (if val[c] == Undecided && Has(cand[c], d) then 1 else 0)
  }

  /** A slot that still has `d` is counted. */
  lemma {:induction false} CountWithHas(val: seq<int>, cand: seq<Cand>, cells: seq<int>, d: int, j: int)
    requires CellsIn(cells, |val|) && |cand| == |val| && IsDigit(d)
    requires 0 <= j < |cells| && val[cells[j]] == Undecided && Has(cand[cells[j]], d)
    ensures CountWith(val, cand, cells, d) >= 1
  {
    InitIn(cells, |val|);
    if j < |cells| - 1 {
      assert Init(cells)[j] == cells[j];
      CountWithHas(val, cand, Init(cells), d, j);
    }
  }

  /** Two different slots that still have `d` are both counted. */
  lemma {:induction false} CountWithTwo(val: seq<int>, cand: seq<Cand>, cells: seq<int>, d: int, i: int, j: int)
    requires CellsIn(cells, |val|) && |cand| == |val| && IsDigit(d)
    requires 0 <= i < j < |cells|
    requires val[cells[i]] == Undecided && Has(cand[cells[i]], d)
    requires val[cells[j]] == Undecided && Has(cand[cells[j]], d)
    ensures CountWith(val, cand, cells, d) >= 2
  {
    InitIn(cells, |val|);
    assert Init(cells)[i] == cells[i];
    if j < |cells| - 1 {
      assert Init(cells)[j] == cells[j];
      CountWithTwo(val, cand, Init(cells), d, i, j);
    } else {
      CountWithHas(val, cand, Init(cells), d, i);
    }
  }

  /** A counted digit has a slot that still has it. */
  lemma {:induction false} CountWithWitness(val: seq<int>, cand: seq<Cand>, cells: seq<int>, d: int) returns (j: int)
    requires CellsIn(cells, |val|) && |cand| == |val| && IsDigit(d)
    requires CountWith(val, cand, cells, d) >= 1
    ensures 0 <= j < |cells| && val[cells[j]] == Undecided && Has(cand[cells[j]], d)
  {
    InitIn(cells, |val|);
    var c := cells[|cells| - 1];
    if val[c] == Undecided && Has(cand[c], d) {
      j := |cells| - 1;
    } else {
      j := CountWithWitness(val, cand, Init(cells), d);
      assert Init(cells)[j] == cells[j];
    }
  }

  /** Slot `j` is the only undecided slot of `cells` that still has `d`. */
  ghost predicate OnlyPlace(val: seq<int>, cand: seq<Cand>, cells: seq<int>, d: int, j: int)
    requires CellsIn(cells, |val|) && |cand| == |val| && IsDigit(d)
  {
    && 0 <= j < |cells| && val[cells[j]] == Undecided && Has(cand[cells[j]], d)
    && forall k :: 0 <= k < |cells| && k != j ==> !(val[cells[k]] == Undecided && Has(cand[cells[k]], d))
  }

  /**
   * A digit counted once has exactly one place left among the undecided
   * slots: the slot the unique-position step decides to it.
   */
  lemma OnePlace(val: seq<int>, cand: seq<Cand>, cells: seq<int>, d: int)
    requires CellsIn(cells, |val|) && |cand| == |val| && IsDigit(d)
    ensures CountWith(val, cand, cells, d) == 1 <==> exists j :: OnlyPlace(val, cand, cells, d, j)
  {
    if CountWith(val, cand, cells, d) == 1 {
      var j := CountWithWitness(val, cand, cells, d);
      forall k | 0 <= k < |cells| && k != j
        ensures !(val[cells[k]] == Undecided && Has(cand[cells[k]], d))
      {
        if val[cells[k]] == Undecided && Has(cand[cells[k]], d) {
          if k < j { CountWithTwo(val, cand, cells, d, k, j); } else { CountWithTwo(val, cand, cells, d, j, k); }
        }
      }
      assert OnlyPlace(val, cand, cells, d, j);
    } else if exists j :: OnlyPlace(val, cand, cells, d, j) {
      var j :| OnlyPlace(val, cand, cells, d, j);
      CountWithHas(val, cand, cells, d, j);
      var i := CountWithWitnessOther(val, cand, cells, d, j);
    }
  }

  /** With two or more counted, a slot other than `j` still has `d`. */
  lemma {:induction false} CountWithWitnessOther(val: seq<int>, cand: seq<Cand>, cells: seq<int>, d: int, j: int) returns (i: int)
    requires CellsIn(cells, |val|) && |cand| == |val| && IsDigit(d) && 0 <= j < |cells|
    requires CountWith(val, cand, cells, d) >= 2
    ensures 0 <= i < |cells| && i != j && val[cells[i]] == Undecided && Has(cand[cells[i]], d)
  {
    InitIn(cells, |val|);
    var last := |cells| - 1;
    var c := cells[last];
    if j != last && val[c] == Undecided && Has(cand[c], d) {
      i := last;
    } else if j == last {
      i := CountWithWitness(val, cand, Init(cells), d);
      assert Init(cells)[i] == cells[i];
    } else {
      i := CountWithWitnessOther(val, cand, Init(cells), d, j);
      assert Init(cells)[i] == cells[i];
    }
  }

  // ---- the undecided slots ----

  /** The undecided slots of `cells`, in their order. */
  function Open(val: seq<int>, cells: seq<int>): seq<int>
    requires CellsIn(cells, |val|)
  {
    if cells == [] then []
    else
      InitIn(cells, |val|);
      var c := cells[|cells| - 1];
      Open(val, Init(cells)) + (if val[c] == Undecided then [c] else [])
  }

  lemma {:induction false} OpenAppend(val: seq<int>, a: seq<int>, b: seq<int>)
    requires CellsIn(a, |val|) && CellsIn(b, |val|)
    ensures CellsIn(a + b, |val|) && Open(val, a + b) == Open(val, a) + Open(val, b)
  {
    if b != [] {
      InitIn(b, |val|);
      assert Init(a + b) == a + Init(b);
      OpenAppend(val, a, Init(b));
    } else {
      assert a + b == a;
    }
  }

  /** The undecided slots are as many as the group's undecided counter says. */
  lemma {:induction false} OpenCount(val: seq<int>, cells: seq<int>)
    requires CellsIn(cells, |val|)
    ensures |Open(val, cells)| == GUndecided(val, cells)
  {
    if cells != [] {
      OpenAppend(val, [cells[0]], cells[1..]);
      assert [cells[0]] + cells[1..] == cells;
      OpenCount(val, cells[1..]);
    }
  }

  lemma OpenIn(val: seq<int>, cells: seq<int>)
    requires CellsIn(cells, |val|)
    ensures CellsIn(Open(val, cells), |val|)
  {
    forall k | 0 <= k < |Open(val, cells)|
      ensures 0 <= Open(val, cells)[k] < |val|
    {
      OpenMembers(val, cells, Open(val, cells)[k]);
    }
  }

  /** An open slot is an undecided slot of the group, and every undecided slot is open. */
  lemma {:induction false} OpenMembers(val: seq<int>, cells: seq<int>, x: int)
    requires CellsIn(cells, |val|)
    ensures x in Open(val, cells) <==> x in cells && val[x] == Undecided
  {
    if cells != [] {
      InitIn(cells, |val|);
      OpenMembers(val, Init(cells), x);
      assert cells == Init(cells) + [cells[|cells| - 1]];
    }
  }

  // ---- two cells ----

  /**
   * The limit the two-cell step puts on one of the two remaining cells of a
   * group that must still add up to `sum`, from the other cell's candidates.
   */
  function TwoLimit(other: Cand, sum: int): Cand {
    seq(9, i requires 0 <= i < 9 => !(1 <= sum - (i + 1) <= 9 && !other[sum - (i + 1) - 1]))
  }

  /**
   * A digit whose partner `sum - y` is a digit stays exactly when the other
   * cell can take that partner; a digit without a partner is left alone.
   */
  lemma TwoLimitMeaning(other: Cand, sum: int, y: int)
    requires IsDigit(y)
    ensures IsDigit(sum - y) ==> (Has(TwoLimit(other, sum), y) <==> exists x :: IsDigit(x) && Has(other, x) && x + y == sum)
    ensures !IsDigit(sum - y) ==> Has(TwoLimit(other, sum), y)
  {
    if IsDigit(sum - y) && Has(other, sum - y) {
      assert IsDigit(sum - y) && Has(other, sum - y) && (sum - y) + y == sum;
    }
  }

  /** The two-cell limits keep every pair of candidates that adds up to the sum. */
  lemma TwoLimitSound(c1: Cand, c2: Cand, sum: int, x: int, y: int)
    requires IsDigit(x) && IsDigit(y) && Has(c1, x) && Has(c2, y) && x + y == sum
    ensures Has(TwoLimit(c2, sum), x) && Has(TwoLimit(c1, sum), y)
  {
    TwoLimitMeaning(c2, sum, x);
    TwoLimitMeaning(c1, sum, y);
  }

  // ---- naked pair ----

  /**
   * Two slots of a group holding the same two candidates take both between
   * them, so a third slot, whose value differs from theirs, takes neither.
   */
  lemma NakedPairSound(p: Cand, x: int, y: int, z: int)
    requires Count(p) == 2 && IsDigit(x) && IsDigit(y) && IsDigit(z)
    requires Has(p, x) && Has(p, y) && x != y && z != x && z != y
    ensures Has(Not(p), z)
  {
    if Has(p, z) {
      assert B(p, x) == 1 && B(p, y) == 1 && B(p, z) == 1;
      CountThree(p, x, y, z);
    }
  }

  lemma CountThree(m: Cand, a: int, b: int, c: int)
    requires IsDigit(a) && IsDigit(b) && IsDigit(c) && a != b && b != c && a != c
    requires Has(m, a) && Has(m, b) && Has(m, c)
    ensures Count(m) >= 3
  {
  }

  // ---- min-max ----

  /** Every undecided slot still has a candidate. */
  ghost predicate OpenNonEmpty(val: seq<int>, cand: seq<Cand>, cells: seq<int>)
    requires CellsIn(cells, |val|) && |cand| == |val|
  {
    forall k :: 0 <= k < |cells| && val[cells[k]] == Undecided ==> Count(cand[cells[k]]) > 0
  }

  lemma InitNonEmpty(val: seq<int>, cand: seq<Cand>, cells: seq<int>)
    requires cells != [] && CellsIn(cells, |val|) && |cand| == |val| && OpenNonEmpty(val, cand, cells)
    ensures CellsIn(Init(cells), |val|) && OpenNonEmpty(val, cand, Init(cells))
  {
    InitIn(cells, |val|);
    assert forall k :: 0 <= k < |Init(cells)| ==> Init(cells)[k] == cells[k];
  }

  /** `min_sum`: the smallest candidates of the undecided slots, added up. */
  function SmallestSum(val: seq<int>, cand: seq<Cand>, cells: seq<int>): int
    requires CellsIn(cells, |val|) && |cand| == |val| && OpenNonEmpty(val, cand, cells)
  {
    if cells == [] then 0
    else
      InitNonEmpty(val, cand, cells);
      var c := cells[|cells| - 1];
      SmallestSum(val, cand, Init(cells)) + (if val[c] == Undecided then Smallest(cand[c]) else 0)
  }

  /** `max_sum`: the largest candidates of the undecided slots, added up. */
  function LargestSum(val: seq<int>, cand: seq<Cand>, cells: seq<int>): int
    requires CellsIn(cells, |val|) && |cand| == |val| && OpenNonEmpty(val, cand, cells)
  {
    if cells == [] then 0
    else
      InitNonEmpty(val, cand, cells);
      var c := cells[|cells| - 1];
      LargestSum(val, cand, Init(cells)) + (if val[c] == Undecided then Largest(cand[c]) else 0)
  }

  /** The values `pick` gives the undecided slots, added up. */
  function PickSum(val: seq<int>, cells: seq<int>, pick: seq<int>): int
    requires CellsIn(cells, |val|) && |pick| == |cells|
  {
    if cells == [] then 0
    else
      InitIn(cells, |val|);
      var n := |cells| - 1;
      PickSum(val, Init(cells), pick[..n]) + (if val[cells[n]] == Undecided then pick[n] else 0)
  }

  /** `pick` gives every undecided slot one of its candidates. */
  ghost predicate Picks(val: seq<int>, cand: seq<Cand>, cells: seq<int>, pick: seq<int>)
    requires CellsIn(cells, |val|) && |cand| == |val| && |pick| == |cells|
  {
    forall k :: 0 <= k < |cells| && val[cells[k]] == Undecided ==> IsDigit(pick[k]) && Has(cand[cells[k]], pick[k])
  }

  lemma InitPicks(val: seq<int>, cand: seq<Cand>, cells: seq<int>, pick: seq<int>)
    requires cells != [] && CellsIn(cells, |val|) && |cand| == |val| && |pick| == |cells|
    requires Picks(val, cand, cells, pick)
    ensures CellsIn(Init(cells), |val|) && OpenNonEmpty(val, cand, cells)
    ensures Picks(val, cand, Init(cells), pick[..|cells| - 1])
  {
    InitIn(cells, |val|);
    forall k | 0 <= k < |cells| && val[cells[k]] == Undecided
      ensures Count(cand[cells[k]]) > 0
    {
      CountDigit(cand[cells[k]], pick[k]);
    }
  }

  /** Every pick lies between the smallest and the largest sums. */
  lemma {:induction false} PickBetween(val: seq<int>, cand: seq<Cand>, cells: seq<int>, pick: seq<int>)
    requires CellsIn(cells, |val|) && |cand| == |val| && |pick| == |cells| && Picks(val, cand, cells, pick)
    ensures OpenNonEmpty(val, cand, cells)
    ensures SmallestSum(val, cand, cells) <= PickSum(val, cells, pick) <= LargestSum(val, cand, cells)
  {
    if cells == [] {
    } else {
      InitPicks(val, cand, cells, pick);
      InitNonEmpty(val, cand, cells);
      PickBetween(val, cand, Init(cells), pick[..|cells| - 1]);
    }
  }

  /**
   * The other undecided slots add up to at least their smallest
   * candidates and at most their largest, so the pick of slot `j` is at
   * most the sum less the others' smallest and at least the sum less the
   * others' largest.
   */
  lemma {:induction false} PickOthers(val: seq<int>, cand: seq<Cand>, cells: seq<int>, pick: seq<int>, j: int)
    requires CellsIn(cells, |val|) && |cand| == |val| && |pick| == |cells| && Picks(val, cand, cells, pick)
    requires 0 <= j < |cells| && val[cells[j]] == Undecided
    ensures OpenNonEmpty(val, cand, cells) && Count(cand[cells[j]]) > 0
    ensures PickSum(val, cells, pick) - pick[j] >= SmallestSum(val, cand, cells) - Smallest(cand[cells[j]])
    ensures PickSum(val, cells, pick) - pick[j] <= LargestSum(val, cand, cells) - Largest(cand[cells[j]])
  {
    InitPicks(val, cand, cells, pick);
    InitNonEmpty(val, cand, cells);
    var n := |cells| - 1;
    if j == n {
      PickBetween(val, cand, Init(cells), pick[..n]);
    } else {
      assert Init(cells)[j] == cells[j] && pick[..n][j] == pick[j];
      PickOthers(val, cand, Init(cells), pick[..n], j);
      if val[cells[n]] == Undecided {
        assert IsDigit(pick[n]) && Has(cand[cells[n]], pick[n]);
      }
    }
  }

  /** `current_max` and `current_min` of one undecided slot made into the limit of line 330. */
  function MinMaxLimit(sum: int, minSum: int, maxSum: int, m: Cand): Cand
    requires Count(m) > 0
  {
    LimitLowerBound(LimitUpperBound(CandAll, sum - (minSum - Smallest(m))), sum - (maxSum - Largest(m)))
  }

  /**
   * The min-max limits are sound: when the undecided slots take candidates
   * adding up to the sum, every slot's value is within its limit.
   */
  lemma MinMaxSound(val: seq<int>, cand: seq<Cand>, cells: seq<int>, pick: seq<int>, sum: int, j: int)
    requires CellsIn(cells, |val|) && |cand| == |val| && |pick| == |cells| && Picks(val, cand, cells, pick)
    requires PickSum(val, cells, pick) == sum && 0 <= j < |cells| && val[cells[j]] == Undecided
    ensures OpenNonEmpty(val, cand, cells) && Count(cand[cells[j]]) > 0
    ensures Has(MinMaxLimit(sum, SmallestSum(val, cand, cells), LargestSum(val, cand, cells), cand[cells[j]]), pick[j])
  {
    PickOthers(val, cand, cells, pick, j);
    EmptyHasNone(pick[j]);
  }

  /** `update_list`: the undecided slots whose limit is not every digit, with that limit, in order. */
  function Updates(val: seq<int>, cand: seq<Cand>, cells: seq<int>, sum: int, minSum: int, maxSum: int): seq<(int, Cand)>
    requires CellsIn(cells, |val|) && |cand| == |val| && OpenNonEmpty(val, cand, cells)
  {
    if cells == [] then []
    else
      InitNonEmpty(val, cand, cells);
      var c := cells[|cells| - 1];
      Updates(val, cand, Init(cells), sum, minSum, maxSum)
        + (if val[c] == Undecided && MinMaxLimit(sum, minSum, maxSum, cand[c]) != CandAll
           then [(c, MinMaxLimit(sum, minSum, maxSum, cand[c]))] else [])
  }

  /** An update names an undecided slot of the group and that slot's limit, and every slot with a limit has one. */
  lemma {:induction false} UpdatesMembers(val: seq<int>, cand: seq<Cand>, cells: seq<int>, sum: int, minSum: int, maxSum: int,
                                          x: int, lim: Cand)
    requires CellsIn(cells, |val|) && |cand| == |val| && OpenNonEmpty(val, cand, cells)
    ensures (x, lim) in Updates(val, cand, cells, sum, minSum, maxSum) <==>
      x in cells && val[x] == Undecided && Count(cand[x]) > 0
      && lim == MinMaxLimit(sum, minSum, maxSum, cand[x]) && lim != CandAll
  {
    if cells != [] {
      InitNonEmpty(val, cand, cells);
      UpdatesMembers(val, cand, Init(cells), sum, minSum, maxSum, x, lim);
      assert cells == Init(cells) + [cells[|cells| - 1]];
    }
  }

  /** A longer prefix of the slots has at least as many updates. */
  lemma {:induction false} UpdatesGrow(val: seq<int>, cand: seq<Cand>, cells: seq<int>, sum: int, minSum: int, maxSum: int, k: int)
    requires CellsIn(cells, |val|) && |cand| == |val| && OpenNonEmpty(val, cand, cells) && 0 <= k <= |cells|
    ensures CellsIn(cells[..k], |val|) && OpenNonEmpty(val, cand, cells[..k])
    ensures |Updates(val, cand, cells[..k], sum, minSum, maxSum)| <= |Updates(val, cand, cells, sum, minSum, maxSum)|
  {
    assert forall i :: 0 <= i < k ==> cells[..k][i] == cells[i];
    if k < |cells| {
      InitNonEmpty(val, cand, cells);
      assert Init(cells)[..k] == cells[..k];
      UpdatesGrow(val, cand, Init(cells), sum, minSum, maxSum, k);
    } else {
      assert cells[..k] == cells;
    }
  }

  /** One more slot of the prefix adds its own update, if it has one, at the end. */
  lemma UpdatesStep(val: seq<int>, cand: seq<Cand>, cells: seq<int>, sum: int, minSum: int, maxSum: int, k: int)
    requires CellsIn(cells, |val|) && |cand| == |val| && OpenNonEmpty(val, cand, cells) && 0 <= k < |cells|
    ensures 0 <= cells[k] < |val|
    ensures CellsIn(cells[..k], |val|) && OpenNonEmpty(val, cand, cells[..k])
    ensures CellsIn(cells[..k + 1], |val|) && OpenNonEmpty(val, cand, cells[..k + 1])
    ensures |Updates(val, cand, cells[..k + 1], sum, minSum, maxSum)| <= |Updates(val, cand, cells, sum, minSum, maxSum)|
    ensures Updates(val, cand, cells[..k + 1], sum, minSum, maxSum)
         == Updates(val, cand, cells[..k], sum, minSum, maxSum)
            + (if val[cells[k]] == Undecided && MinMaxLimit(sum, minSum, maxSum, cand[cells[k]]) != CandAll
               then [(cells[k], MinMaxLimit(sum, minSum, maxSum, cand[cells[k]]))] else [])
  {
    PrefixIn(cells, |val|, k);
    UpdatesGrow(val, cand, cells, sum, minSum, maxSum, k);
    UpdatesGrow(val, cand, cells, sum, minSum, maxSum, k + 1);
    assert cells[..k + 1][k] == cells[k];
  }

  // ---- the scans ----

  /** The digits imperative for the group that have exactly one place left among its undecided slots. */
  function Unique(val: seq<int>, cand: seq<Cand>, cells: seq<int>, imperative: Cand): Cand
    requires CellsIn(cells, |val|) && |cand| == |val|
  {
    seq(9, i requires 0 <= i < 9 => imperative[i] && CountWith(val, cand, cells, i + 1) == 1)
  }

  lemma UniqueMeaning(val: seq<int>, cand: seq<Cand>, cells: seq<int>, imperative: Cand, d: int)
    requires CellsIn(cells, |val|) && |cand| == |val| && IsDigit(d)
    ensures Has(Unique(val, cand, cells, imperative), d) <==>
      Has(imperative, d) && exists j :: OnlyPlace(val, cand, cells, d, j)
  {
    OnePlace(val, cand, cells, d);
  }

  /**
   * Lines 219-228 of `check_group`: `uniq` gathers the candidates of the
   * undecided slots and `mult` those met a second time, so the digits left
   * in `uniq & imperative & !mult` are the imperative ones with one place.
   */
  method UniqueDigits(val: seq<int>, cand: seq<Cand>, cells: seq<int>, imperative: Cand) returns (uniq: Cand)
    requires CellsIn(cells, |val|) && |cand| == |val|
    ensures uniq == Unique(val, cand, cells, imperative)
  {
    var u, m := Empty, Empty;
    var k := 0;
    while k < |cells|
      invariant 0 <= k <= |cells| && CellsIn(cells[..k], |val|)
      invariant forall d :: IsDigit(d) ==>
        (Has(u, d) <==> CountWith(val, cand, cells[..k], d) >= 1) && (Has(m, d) <==> CountWith(val, cand, cells[..k], d) >= 2)
    {
      PrefixIn(cells, |val|, k);
      var c := cells[k];
      if val[c] == Undecided {
        m := Or(m, And(u, cand[c]));
        u := Or(u, cand[c]);
      }
      k := k + 1;
    }
    assert cells[..k] == cells;
    uniq := And(u, And(imperative, Not(m)));
    CandExt(uniq, Unique(val, cand, cells, imperative));
  }

  /**
   * Lines 250-260 of `check_group`: `c1` is the first undecided slot and
   * `c2` the last one after it, each `None` when there is no such slot.
   */
  method FindTwo(val: seq<int>, cells: seq<int>) returns (c1: Option<int>, c2: Option<int>)
    requires CellsIn(cells, |val|)
    ensures var o := Open(val, cells);
      && c1 == (if |o| >= 1 then Some(o[0]) else None)
      && c2 == (if |o| >= 2 then Some(o[|o| - 1]) else None)
  {
    c1, c2 := None, None;
    var k := 0;
    while k < |cells|
      invariant 0 <= k <= |cells| && CellsIn(cells[..k], |val|)
      invariant var o := Open(val, cells[..k]);
        && c1 == (if |o| >= 1 then Some(o[0]) else None)
        && c2 == (if |o| >= 2 then Some(o[|o| - 1]) else None)
    {
      PrefixIn(cells, |val|, k);
      var c := cells[k];
      if val[c] == Undecided {
        if c1 == None {
          c1 := Some(c);
        } else {
          c2 := Some(c);
        }
      }
      k := k + 1;
    }
    assert cells[..k] == cells;
  }

  /**
   * Lines 263-276 of `check_group`: for every digit `i` the other cell
   * cannot take, the partner `sum - i` goes from a cell's limit.
   */
  method TwoLimits(cand1: Cand, cand2: Cand, sum: int) returns (c1Lim: Cand, c2Lim: Cand)
    ensures c1Lim == TwoLimit(cand2, sum) && c2Lim == TwoLimit(cand1, sum)
  {
    c1Lim, c2Lim := CandAll, CandAll;
    var i := 1;
    while i <= 9
      invariant 1 <= i <= 10
      invariant forall e :: IsDigit(e) ==> (Has(c2Lim, e) <==> !(1 <= sum - e < i && !Has(cand1, sum - e)))
      invariant forall e :: IsDigit(e) ==> (Has(c1Lim, e) <==> !(1 <= sum - e < i && !Has(cand2, sum - e)))
    {
      if !Has(cand1, i) && 1 <= sum - i <= 9 {
        c2Lim := Exclude(c2Lim, sum - i);
      }
      if !Has(cand2, i) && 1 <= sum - i <= 9 {
        c1Lim := Exclude(c1Lim, sum - i);
      }
      i := i + 1;
    }
    CandExt(c1Lim, TwoLimit(cand2, sum));
    CandExt(c2Lim, TwoLimit(cand1, sum));
  }

  /**
   * Lines 307-316 of `check_group`: the smallest and the largest
   * candidates of the undecided slots, added up; `ok` is false when an
   * undecided slot has no candidate to take them from.
   */
  method MinMaxSums(val: seq<int>, cand: seq<Cand>, cells: seq<int>) returns (ok: bool, minSum: int, maxSum: int)
    requires CellsIn(cells, |val|) && |cand| == |val|
    ensures ok == OpenNonEmpty(val, cand, cells)
    ensures ok ==> minSum == SmallestSum(val, cand, cells) && maxSum == LargestSum(val, cand, cells)
  {
    minSum, maxSum := 0, 0;
    var k := 0;
    while k < |cells|
      invariant 0 <= k <= |cells| && CellsIn(cells[..k], |val|)
      invariant OpenNonEmpty(val, cand, cells[..k])
      invariant minSum == SmallestSum(val, cand, cells[..k]) && maxSum == LargestSum(val, cand, cells[..k])
    {
      PrefixIn(cells, |val|, k);
      var c := cells[k];
      if val[c] == Undecided {
        if Count(cand[c]) == 0 {
          ok := false;
          return;
        }
        minSum := minSum + Smallest(cand[c]);
        maxSum := maxSum + Largest(cand[c]);
      }
      k := k + 1;
    }
    assert cells[..k] == cells;
    ok := true;
  }

  /**
   * Lines 317-337 of `check_group`: the undecided slots whose min-max limit
   * is not every digit, with that limit; `ok` is false when a tenth one
   * would overflow the nine places of `update_list`.
   */
  method MinMaxUpdates(val: seq<int>, cand: seq<Cand>, cells: seq<int>, sum: int, minSum: int, maxSum: int)
    returns (ok: bool, updates: seq<(int, Cand)>)
    requires CellsIn(cells, |val|) && |cand| == |val| && OpenNonEmpty(val, cand, cells)
    ensures ok == (|Updates(val, cand, cells, sum, minSum, maxSum)| <= 9)
    ensures ok ==> updates == Updates(val, cand, cells, sum, minSum, maxSum)
  {
    updates := [];
    var k := 0;
    while k < |cells|
      invariant 0 <= k <= |cells| && CellsIn(cells[..k], |val|) && OpenNonEmpty(val, cand, cells[..k])
      invariant updates == Updates(val, cand, cells[..k], sum, minSum, maxSum) && |updates| <= 9
    {
      UpdatesStep(val, cand, cells, sum, minSum, maxSum, k);
      var c := cells[k];
      if val[c] == Undecided {
        var currentMax := sum - (minSum - Smallest(cand[c]));
        var currentMin := sum - (maxSum - Largest(cand[c]));
        var lim := LimitLowerBound(LimitUpperBound(CandAll, currentMax), currentMin);
        assert lim == MinMaxLimit(sum, minSum, maxSum, cand[c]);
        if lim != CandAll {
          if |updates| == 9 {
            ok := false;
            return;
          }
          updates := updates + [(c, lim)];
        }
      }
      k := k + 1;
    }
    assert cells[..k] == cells;
    ok := true;
  }

  /** No more updates than slots. */
  lemma {:induction false} UpdatesLength(val: seq<int>, cand: seq<Cand>, cells: seq<int>, sum: int, minSum: int, maxSum: int)
    requires CellsIn(cells, |val|) && |cand| == |val| && OpenNonEmpty(val, cand, cells)
    ensures |Updates(val, cand, cells, sum, minSum, maxSum)| <= |cells|
  {
    if cells != [] {
      InitNonEmpty(val, cand, cells);
      UpdatesLength(val, cand, Init(cells), sum, minSum, maxSum);
    }
  }
}
