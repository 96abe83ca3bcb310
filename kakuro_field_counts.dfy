/**
 * The counters the Kakuro field of src/kakuro/field.rs keeps in step with
 * its cells: over the board, the undecided non-clue cells and their
 * candidates in total; over the slots of one group, the undecided cells,
 * the sum of the decided values and the digits no decided cell uses.
 * Each comes with what writing one slot does to it.
 */
module KakuroFieldCounts {
  import opened KakuroBase

  /** `UNDECIDED`: the value of a cell not decided yet. */
  const Undecided: int := -1

  // ---- over the board ----

  /** The non-clue slots below `k`. */
  function NonClueBelow(hc: seq<bool>, k: nat): nat
    requires k <= |hc|
  {
    if k == 0 then 0 else NonClueBelow(hc, k - 1) + (if !hc[k - 1] then 1 else 0)
  }

  /** The undecided non-clue slots below `k`. */
  function UndecidedBelow(hc: seq<bool>, val: seq<int>, k: nat): nat
    requires k <= |hc| == |val|
  {
    if k == 0 then 0
    else UndecidedBelow(hc, val, k - 1) + (if !hc[k - 1] && val[k - 1] == Undecided then 1 else 0)
  }

  /** The candidates of the non-clue slots below `k`, counted together. */
  function CandsBelow(hc: seq<bool>, cand: seq<Cand>, k: nat): nat
    requires k <= |hc| == |cand|
  {
    if k == 0 then 0
    else
      CountBounds(cand[k - 1]);
      CandsBelow(hc, cand, k - 1) + (if !hc[k - 1] then Count(cand[k - 1]) else 0)
  }

  /** Before anything is decided, every non-clue slot is undecided and holds all nine digits. */
  lemma {:induction false} InitialCounts(hc: seq<bool>, k: nat)
    requires k <= |hc|
    ensures UndecidedBelow(hc, seq(|hc|, _ => Undecided), k) == NonClueBelow(hc, k)
    ensures CandsBelow(hc, seq(|hc|, _ => CandAll), k) == 9 * NonClueBelow(hc, k)
  {
    if k > 0 {
      InitialCounts(hc, k - 1);
    }
  }

  /** Deciding slot `p` (or undeciding it) changes the undecided count by that slot alone. */
  lemma {:induction false} UndecidedUpdate(hc: seq<bool>, val: seq<int>, p: int, v: int, k: nat)
    requires k <= |hc| == |val| && 0 <= p < |val|
    ensures UndecidedBelow(hc, val[p := v], k) + (if p < k && !hc[p] && val[p] == Undecided then 1 else 0)
         == UndecidedBelow(hc, val, k) + (if p < k && !hc[p] && v == Undecided then 1 else 0)
  {
    if k > 0 {
      UndecidedUpdate(hc, val, p, v, k - 1);
    }
  }

  /** Replacing the candidates of slot `p` changes the total by that slot alone. */
  lemma {:induction false} CandsUpdate(hc: seq<bool>, cand: seq<Cand>, p: int, m: Cand, k: nat)
    requires k <= |hc| == |cand| && 0 <= p < |cand|
    ensures CandsBelow(hc, cand[p := m], k) + (if p < k && !hc[p] then Count(cand[p]) else 0)
         == CandsBelow(hc, cand, k) + (if p < k && !hc[p] then Count(m) else 0)
  {
    if k > 0 {
      CandsUpdate(hc, cand, p, m, k - 1);
    }
  }

  /** An undecided non-clue slot below `k` is counted. */
  lemma {:induction false} UndecidedPositive(hc: seq<bool>, val: seq<int>, p: int, k: nat)
    requires k <= |hc| == |val| && 0 <= p < k && !hc[p] && val[p] == Undecided
    ensures UndecidedBelow(hc, val, k) >= 1
  {
    if p < k - 1 {
      UndecidedPositive(hc, val, p, k - 1);
    }
  }

  /** No more slots are undecided than there are non-clue slots. */
  lemma {:induction false} UndecidedAtMost(hc: seq<bool>, val: seq<int>, k: nat)
    requires k <= |hc| == |val|
    ensures UndecidedBelow(hc, val, k) <= NonClueBelow(hc, k)
  {
    if k > 0 {
      UndecidedAtMost(hc, val, k - 1);
    }
  }

  /** A non-clue slot below `k` is counted. */
  lemma {:induction false} NonCluePositive(hc: seq<bool>, p: int, k: nat)
    requires k <= |hc| && 0 <= p < k && !hc[p]
    ensures NonClueBelow(hc, k) >= 1
  {
    if p < k - 1 {
      NonCluePositive(hc, p, k - 1);
    }
  }

  // ---- over the slots of one group ----

  predicate CellsIn(cells: seq<int>, n: int) {
    forall k :: 0 <= k < |cells| ==> 0 <= cells[k] < n
  }

  /** The slots of a group, as iteration yields them: in increasing order, so each once. */
  predicate Increasing(cells: seq<int>) {
    forall j, k :: 0 <= j < k < |cells| ==> cells[j] < cells[k]
  }

  /** The undecided slots of `cells`. */
  function GUndecided(val: seq<int>, cells: seq<int>): nat
    requires CellsIn(cells, |val|)
  {
    if cells == [] then 0
    else GUndecided(val, cells[1..]) + (if val[cells[0]] == Undecided then 1 else 0)
  }

  /** The sum of the decided values of `cells`. */
  function GSum(val: seq<int>, cells: seq<int>): int
    requires CellsIn(cells, |val|)
  {
    if cells == [] then 0
    else GSum(val, cells[1..]) + (if val[cells[0]] == Undecided then 0 else val[cells[0]])
  }

  /** The digits no decided slot of `cells` holds. */
  function GUnused(val: seq<int>, cells: seq<int>): Cand
    requires CellsIn(cells, |val|)
  {
    if cells == [] then CandAll
    else
      var rest := GUnused(val, cells[1..]);
      if IsDigit(val[cells[0]]) then Exclude(rest, val[cells[0]]) else rest
  }

  /** `GUnused` holds a digit exactly when no slot of the group is decided to it. */
  lemma {:induction false} GUnusedMeaning(val: seq<int>, cells: seq<int>, d: int)
    requires CellsIn(cells, |val|) && IsDigit(d)
    ensures Has(GUnused(val, cells), d) <==> forall k :: 0 <= k < |cells| ==> val[cells[k]] != d
  {
    if cells != [] {
      GUnusedMeaning(val, cells[1..], d);
      assert forall k :: 1 <= k < |cells| ==> cells[k] == cells[1..][k - 1];
    }
  }

  lemma ExcludeCommutes(m: Cand, a: int, b: int)
    requires IsDigit(a) && IsDigit(b)
    ensures Exclude(Exclude(m, a), b) == Exclude(Exclude(m, b), a)
  {
    CandExt(Exclude(Exclude(m, a), b), Exclude(Exclude(m, b), a));
  }

  /** Writing a slot that is not in the group leaves the group's counts alone. */
  lemma {:induction false} GroupUntouched(val: seq<int>, cells: seq<int>, p: int, v: int)
    requires CellsIn(cells, |val|) && 0 <= p < |val| && p !in cells
    ensures CellsIn(cells, |val[p := v]|)
    ensures GUndecided(val[p := v], cells) == GUndecided(val, cells)
    ensures GSum(val[p := v], cells) == GSum(val, cells)
    ensures GUnused(val[p := v], cells) == GUnused(val, cells)
  {
    if cells != [] {
      GroupUntouched(val, cells[1..], p, v);
    }
  }

  /**
   * Deciding an undecided slot of the group to digit `v`: one undecided
   * slot fewer, `v` more in the decided sum, and `v` no longer unused.
   */
  lemma {:induction false} GroupDecided(val: seq<int>, cells: seq<int>, p: int, v: int)
    requires CellsIn(cells, |val|) && Increasing(cells) && 0 <= p < |val| && p in cells
    requires val[p] == Undecided && IsDigit(v)
    ensures CellsIn(cells, |val[p := v]|)
    ensures GUndecided(val[p := v], cells) == GUndecided(val, cells) - 1
    ensures GSum(val[p := v], cells) == GSum(val, cells) + v
    ensures GUnused(val[p := v], cells) == Exclude(GUnused(val, cells), v)
  {
    var rest := cells[1..];
    if cells[0] == p {
      assert p !in rest by {
        forall k | 0 <= k < |rest| ensures rest[k] != p {
          assert rest[k] == cells[k + 1];
        }
      }
      GroupUntouched(val, rest, p, v);
    } else {
      assert Increasing(rest) by {
        forall j, k | 0 <= j < k < |rest| ensures rest[j] < rest[k] {
          assert rest[j] == cells[j + 1] && rest[k] == cells[k + 1];
        }
      }
      GroupDecided(val, rest, p, v);
      if IsDigit(val[cells[0]]) {
        ExcludeCommutes(GUnused(val, rest), v, val[cells[0]]);
      }
    }
  }

  /** With every slot undecided, a group has all its slots undecided, nothing summed and every digit unused. */
  lemma {:induction false} GroupInitial(n: nat, cells: seq<int>)
    requires CellsIn(cells, n)
    ensures GUndecided(seq(n, _ => Undecided), cells) == |cells|
    ensures GSum(seq(n, _ => Undecided), cells) == 0
    ensures GUnused(seq(n, _ => Undecided), cells) == CandAll
  {
    if cells != [] {
      GroupInitial(n, cells[1..]);
    }
  }

  // ---- candidate sets ----

  /** Splitting a set by `lim`: the digits kept and the digits removed add up to the whole. */
  lemma CountSplit(m: Cand, lim: Cand)
    ensures Count(m) == Count(And(m, lim)) + Count(And(m, Not(lim)))
  {
    var a, b := And(m, lim), And(m, Not(lim));
    assert B(m, 1) == B(a, 1) + B(b, 1) && B(m, 2) == B(a, 2) + B(b, 2) && B(m, 3) == B(a, 3) + B(b, 3);
    assert B(m, 4) == B(a, 4) + B(b, 4) && B(m, 5) == B(a, 5) + B(b, 5) && B(m, 6) == B(a, 6) + B(b, 6);
    assert B(m, 7) == B(a, 7) + B(b, 7) && B(m, 8) == B(a, 8) + B(b, 8) && B(m, 9) == B(a, 9) + B(b, 9);
  }

  /** Intersecting with `lim` removes a digit whenever it changes the set. */
  lemma ChangedLoses(m: Cand, lim: Cand)
    requires And(m, lim) != m
    ensures Count(And(m, Not(lim))) >= 1
  {
    if forall d :: IsDigit(d) ==> Has(And(m, lim), d) == Has(m, d) {
      CandExt(And(m, lim), m);
    }
    var d :| IsDigit(d) && Has(And(m, lim), d) != Has(m, d);
    CountDigit(And(m, Not(lim)), d);
  }

  /** A singleton that an intersection changes becomes empty. */
  lemma SingletonLimited(v: int, lim: Cand)
    requires IsDigit(v) && And(Singleton(v), lim) != Singleton(v)
    ensures IsEmpty(And(Singleton(v), lim))
  {
    CandExt(And(Singleton(v), lim), Empty);
  }

  /** A set with one digit `v` counts one digit. */
  lemma SingletonCount(v: int)
    requires IsDigit(v)
    ensures Count(Singleton(v)) == 1
  {
  }
}
