/**
 * The Kakuro run dictionary (src/kakuro/dictionary.rs): for a run of
 * `len` cells that must sum to `sum` using only digits from `avail`, the
 * table holds `(imperative, allowed)` - the digits every completion uses
 * and the digits some completion uses - or `IMPOSSIBLE` when the run has
 * no completion. `Table` is the recursion the fill loop computes;
 * `TableCorrect` proves it equal to the combinatorial definition.
 */
module KakuroDictionary {
  import opened KakuroBase
  import opened Wrappers
  import Common

  type Entry = (Cand, Cand)

  /** `IMPOSSIBLE = (CAND_ALL, 0)`. */
  const Impossible: Entry := (CandAll, Empty)

  /** `(MAX_VAL + 1) * (MAX_SUM + 1) * (1 << MAX_VAL)` slots. */
  const TableSize: int := 10 * 46 * 512

  // ---- the combinatorial meaning of an entry ----

  /** `m` is a set of `len` distinct digits from `avail` summing to `sum`. */
  ghost predicate IsSolution(m: Cand, len: int, sum: int, avail: Cand) {
    SubMask(m, avail) && Count(m) == len && DigitSum(m) == sum
  }

  ghost predicate Solvable(len: int, sum: int, avail: Cand) {
    exists m :: IsSolution(m, len, sum, avail)
  }

  ghost predicate InSome(len: int, sum: int, avail: Cand, d: int)
    requires IsDigit(d)
  {
    exists m :: IsSolution(m, len, sum, avail) && Has(m, d)
  }

  ghost predicate InAll(len: int, sum: int, avail: Cand, d: int)
    requires IsDigit(d)
  {
    forall m :: IsSolution(m, len, sum, avail) ==> Has(m, d)
  }

  /** What entry `(len, sum, avail)` of the table means. */
  ghost predicate EntrySpec(len: int, sum: int, avail: Cand, e: Entry) {
    (e == Impossible <==> !Solvable(len, sum, avail))
    && (Solvable(len, sum, avail) ==>
          forall d :: IsDigit(d) ==>
            (Has(e.1, d) <==> InSome(len, sum, avail, d))
            && (Has(e.0, d) <==> InAll(len, sum, avail, d)))
  }

  // ---- the recursion computed by `Dictionary::default` ----

  /** The entry the fill loop stores for `(len, sum, avail)`. */
  function Table(len: nat, sum: int, avail: Cand): Entry
    decreases len, 10
  {
    if len == 0 then (if sum == 0 then (Empty, Empty) else Impossible)
    else TableFold(len, sum, avail, 9)
  }

  /** The inner loop over digits `1..=k` (src/kakuro/dictionary.rs:29-39). */
  function TableFold(len: nat, sum: int, avail: Cand, k: int): Entry
    requires 1 <= len && 0 <= k <= 9
    decreases len, k
  {
    if k == 0 then Impossible
    else
      var acc := TableFold(len, sum, avail, k - 1);
      if Has(avail, k) && sum >= k then
        var nxt := Table(len - 1, sum - k, Exclude(avail, k));
        if nxt != Impossible then Step(acc, nxt, k)
        else acc
      else acc
  }

  /**
   * `imperative &= nxt.0 | (1 << (k - 1)); allowed |= nxt.1 | (1 << (k - 1))`.
   */
  function Step(acc: Entry, nxt: Entry, k: int): (r: Entry)
    requires IsDigit(k)
    ensures forall d :: IsDigit(d) ==> (Has(r.0, d) <==> Has(acc.0, d) && (d == k || Has(nxt.0, d)))
    ensures forall d :: IsDigit(d) ==> (Has(r.1, d) <==> Has(acc.1, d) || d == k || Has(nxt.1, d))
  {
    (And(acc.0, Or(nxt.0, Singleton(k))), Or(acc.1, Or(nxt.1, Singleton(k))))
  }

  /** The entry of length `len - 1` consulted for digit `j`. */
  function Sub(len: nat, sum: int, avail: Cand, j: int): Entry
    requires 1 <= len && IsDigit(j)
  {
    Table(len - 1, sum - j, Exclude(avail, j))
  }

  /** Digit `j` contributes to the fold: available, not above `sum`, and the rest solvable. */
  predicate ValidDigit(len: nat, sum: int, avail: Cand, j: int)
    requires 1 <= len
  {
    IsDigit(j) && Has(avail, j) && sum >= j && Sub(len, sum, avail, j) != Impossible
  }

  // ---- the fold, digit by digit ----

  /** What the fold over digits `1..=k` has accumulated. */
  ghost predicate FoldSpec(len: nat, sum: int, avail: Cand, k: int, e: Entry)
    requires 1 <= len
  {
    FoldNone(len, sum, avail, k, e) && FoldAllowed(len, sum, avail, k, e)
    && FoldImperative(len, sum, avail, k, e)
  }

  /** The fold is still IMPOSSIBLE exactly when no digit up to `k` contributed. */
  ghost predicate FoldNone(len: nat, sum: int, avail: Cand, k: int, e: Entry)
    requires 1 <= len
  {
    e == Impossible <==> forall j :: 1 <= j <= k ==> !ValidDigit(len, sum, avail, j)
  }

  /** `allowed` so far: the union over contributing digits `j` of `{j}` and the shorter run's `allowed`. */
  ghost predicate FoldAllowed(len: nat, sum: int, avail: Cand, k: int, e: Entry)
    requires 1 <= len
  {
    forall d :: IsDigit(d) ==>
      (Has(e.1, d) <==> exists j :: 1 <= j <= k && ValidDigit(len, sum, avail, j)
                                    && (d == j || Has(Sub(len, sum, avail, j).1, d)))
  }

  /** `imperative` so far: the intersection over contributing digits `j` of `{j}` plus the shorter run's `imperative`. */
  ghost predicate FoldImperative(len: nat, sum: int, avail: Cand, k: int, e: Entry)
    requires 1 <= len
  {
    forall d :: IsDigit(d) ==>
      (Has(e.0, d) <==> forall j :: 1 <= j <= k && ValidDigit(len, sum, avail, j)
                                    ==> (d == j || Has(Sub(len, sum, avail, j).0, d)))
  }

  lemma FoldNoneStep(len: nat, sum: int, avail: Cand, k: int)
    requires 1 <= len && 1 <= k <= 9
    requires FoldNone(len, sum, avail, k - 1, TableFold(len, sum, avail, k - 1))
    ensures FoldNone(len, sum, avail, k, TableFold(len, sum, avail, k))
  {
    var e, acc := TableFold(len, sum, avail, k), TableFold(len, sum, avail, k - 1);
    if ValidDigit(len, sum, avail, k) {
      assert e == Step(acc, Sub(len, sum, avail, k), k);
      assert Has(e.1, k) && !Has(Impossible.1, k);
    } else {
      assert e == acc;
    }
  }

  lemma FoldAllowedStep(len: nat, sum: int, avail: Cand, k: int)
    requires 1 <= len && 1 <= k <= 9
    requires FoldAllowed(len, sum, avail, k - 1, TableFold(len, sum, avail, k - 1))
    ensures FoldAllowed(len, sum, avail, k, TableFold(len, sum, avail, k))
  {
    var e, acc := TableFold(len, sum, avail, k), TableFold(len, sum, avail, k - 1);
    if ValidDigit(len, sum, avail, k) {
      assert e == Step(acc, Sub(len, sum, avail, k), k);
      forall d | IsDigit(d)
        ensures Has(e.1, d) <==> exists j :: 1 <= j <= k && ValidDigit(len, sum, avail, j)
                                             && (d == j || Has(Sub(len, sum, avail, j).1, d))
      {
        if exists j :: 1 <= j <= k && ValidDigit(len, sum, avail, j)
                       && (d == j || Has(Sub(len, sum, avail, j).1, d)) {
          var j :| 1 <= j <= k && ValidDigit(len, sum, avail, j)
                   && (d == j || Has(Sub(len, sum, avail, j).1, d));
          if j < k {
            assert Has(acc.1, d);
          }
        }
      }
    } else {
      assert e == acc;
    }
  }

  lemma FoldImperativeStep(len: nat, sum: int, avail: Cand, k: int)
    requires 1 <= len && 1 <= k <= 9
    requires FoldImperative(len, sum, avail, k - 1, TableFold(len, sum, avail, k - 1))
    ensures FoldImperative(len, sum, avail, k, TableFold(len, sum, avail, k))
  {
    var e, acc := TableFold(len, sum, avail, k), TableFold(len, sum, avail, k - 1);
    if ValidDigit(len, sum, avail, k) {
      assert e == Step(acc, Sub(len, sum, avail, k), k);
      forall d | IsDigit(d)
        ensures Has(e.0, d) <==> forall j :: 1 <= j <= k && ValidDigit(len, sum, avail, j)
                                             ==> (d == j || Has(Sub(len, sum, avail, j).0, d))
      {
        if forall j :: 1 <= j <= k && ValidDigit(len, sum, avail, j)
                       ==> (d == j || Has(Sub(len, sum, avail, j).0, d)) {
          assert Has(acc.0, d);
        }
      }
    } else {
      assert e == acc;
    }
  }

  lemma {:induction false} FoldCorrect(len: nat, sum: int, avail: Cand, k: int)
    requires 1 <= len && 0 <= k <= 9
    ensures FoldSpec(len, sum, avail, k, TableFold(len, sum, avail, k))
    decreases k
  {
    if k > 0 {
      FoldCorrect(len, sum, avail, k - 1);
      FoldNoneStep(len, sum, avail, k);
      FoldAllowedStep(len, sum, avail, k);
      FoldImperativeStep(len, sum, avail, k);
    }
  }

  // ---- solutions of a run and of the shorter run left after one digit ----

  /** Adding digit `j` to a completion of the shorter run completes the run. */
  lemma Lift(m: Cand, len: int, sum: int, avail: Cand, j: int)
    requires IsDigit(j) && Has(avail, j) && IsSolution(m, len - 1, sum - j, Exclude(avail, j))
    ensures IsSolution(Include(m, j), len, sum, avail) && !Has(m, j)
  {
    SubMaskHas(m, Exclude(avail, j));
    SubMaskHas(Include(m, j), avail);
    ExcludeInclude(m, j);
    CountExclude(Include(m, j), j);
  }

  /** Removing a digit `j` of a completion leaves a completion of the shorter run. */
  lemma Drop(m: Cand, len: int, sum: int, avail: Cand, j: int)
    requires IsDigit(j) && Has(m, j) && IsSolution(m, len, sum, avail)
    ensures Has(avail, j) && sum >= j
    ensures IsSolution(Exclude(m, j), len - 1, sum - j, Exclude(avail, j))
    ensures Include(Exclude(m, j), j) == m
  {
    SubMaskHas(m, avail);
    SubMaskHas(Exclude(m, j), Exclude(avail, j));
    CountExclude(m, j);
    CountBounds(Exclude(m, j));
    IncludeExclude(m, j);
  }

  /** The shorter runs, one per contributing digit, already satisfy their specification. */
  ghost predicate SubSpec(len: nat, sum: int, avail: Cand, j: int)
    requires 1 <= len && IsDigit(j)
  {
    EntrySpec(len - 1, sum - j, Exclude(avail, j), Sub(len, sum, avail, j))
  }

  ghost predicate SubsCorrect(len: nat, sum: int, avail: Cand)
    requires 1 <= len
  {
    forall j :: IsDigit(j) ==> SubSpec(len, sum, avail, j)
  }

  lemma SolvableIffValid(len: nat, sum: int, avail: Cand)
    requires 1 <= len && SubsCorrect(len, sum, avail)
    ensures Solvable(len, sum, avail) <==> exists j :: 1 <= j <= 9 && ValidDigit(len, sum, avail, j)
  {
    if Solvable(len, sum, avail) {
      var m :| IsSolution(m, len, sum, avail);
      var j := SomeDigit(m);
      Drop(m, len, sum, avail, j);
      assert SubSpec(len, sum, avail, j);
      assert ValidDigit(len, sum, avail, j);
    }
    if exists j :: 1 <= j <= 9 && ValidDigit(len, sum, avail, j) {
      var j :| 1 <= j <= 9 && ValidDigit(len, sum, avail, j);
      assert SubSpec(len, sum, avail, j);
      var m :| IsSolution(m, len - 1, sum - j, Exclude(avail, j));
      Lift(m, len, sum, avail, j);
    }
  }

  lemma AllowedCorrect(len: nat, sum: int, avail: Cand, d: int)
    requires 1 <= len && IsDigit(d) && SubsCorrect(len, sum, avail)
    ensures (exists j :: 1 <= j <= 9 && ValidDigit(len, sum, avail, j)
                        && (d == j || Has(Sub(len, sum, avail, j).1, d)))
            <==> InSome(len, sum, avail, d)
  {
    if exists j :: 1 <= j <= 9 && ValidDigit(len, sum, avail, j)
                   && (d == j || Has(Sub(len, sum, avail, j).1, d)) {
      var j :| 1 <= j <= 9 && ValidDigit(len, sum, avail, j)
               && (d == j || Has(Sub(len, sum, avail, j).1, d));
      assert SubSpec(len, sum, avail, j);
      if d == j {
        var m :| IsSolution(m, len - 1, sum - j, Exclude(avail, j));
        Lift(m, len, sum, avail, j);
      } else {
        assert InSome(len - 1, sum - j, Exclude(avail, j), d);
        var m :| IsSolution(m, len - 1, sum - j, Exclude(avail, j)) && Has(m, d);
        Lift(m, len, sum, avail, j);
      }
    }
    if InSome(len, sum, avail, d) {
      var m :| IsSolution(m, len, sum, avail) && Has(m, d);
      Drop(m, len, sum, avail, d);
      assert SubSpec(len, sum, avail, d);
      assert ValidDigit(len, sum, avail, d);
    }
  }

  lemma ImperativeCorrect(len: nat, sum: int, avail: Cand, d: int)
    requires 1 <= len && IsDigit(d) && SubsCorrect(len, sum, avail)
    ensures (forall j :: 1 <= j <= 9 && ValidDigit(len, sum, avail, j)
                        ==> (d == j || Has(Sub(len, sum, avail, j).0, d)))
            <==> InAll(len, sum, avail, d)
  {
    if InAll(len, sum, avail, d) {
      forall j | 1 <= j <= 9 && ValidDigit(len, sum, avail, j) && d != j
        ensures Has(Sub(len, sum, avail, j).0, d)
      {
        assert SubSpec(len, sum, avail, j);
        forall m | IsSolution(m, len - 1, sum - j, Exclude(avail, j)) ensures Has(m, d) {
          Lift(m, len, sum, avail, j);
        }
        assert InAll(len - 1, sum - j, Exclude(avail, j), d);
      }
    }
    if forall j :: 1 <= j <= 9 && ValidDigit(len, sum, avail, j)
                   ==> (d == j || Has(Sub(len, sum, avail, j).0, d)) {
      forall m | IsSolution(m, len, sum, avail) ensures Has(m, d) {
        var j := SomeDigit(m);
        Drop(m, len, sum, avail, j);
        assert SubSpec(len, sum, avail, j);
        assert ValidDigit(len, sum, avail, j);
        if d != j {
          assert InAll(len - 1, sum - j, Exclude(avail, j), d);
        }
      }
    }
  }

  lemma LengthZero(sum: int, avail: Cand)
    ensures EntrySpec(0, sum, avail, Table(0, sum, avail))
  {
    SubMaskHas(Empty, avail);
    assert IsSolution(Empty, 0, 0, avail);
    forall m | IsSolution(m, 0, sum, avail) ensures m == Empty && sum == 0 {
      CountZero(m);
    }
    if sum == 0 {
      forall d | IsDigit(d) ensures !InSome(0, sum, avail, d) && !InAll(0, sum, avail, d) {
        assert IsSolution(Empty, 0, sum, avail);
      }
    }
    assert Has(CandAll, 1) && !Has(Empty, 1);
  }

  /**
   * Every entry of the recursion means what the table promises: IMPOSSIBLE
   * exactly when no completion exists, and otherwise `allowed` holds the
   * digits of some completion and `imperative` those of all of them.
   */
  lemma {:induction false} TableCorrect(len: nat, sum: int, avail: Cand)
    ensures EntrySpec(len, sum, avail, Table(len, sum, avail))
    decreases len
  {
    if len == 0 {
      LengthZero(sum, avail);
    } else {
      forall j | IsDigit(j) ensures SubSpec(len, sum, avail, j) {
        TableCorrect(len - 1, sum - j, Exclude(avail, j));
      }
      FoldCorrect(len, sum, avail, 9);
      SolvableIffValid(len, sum, avail);
      forall d | IsDigit(d) ensures
        Solvable(len, sum, avail) ==>
          (Has(Table(len, sum, avail).1, d) <==> InSome(len, sum, avail, d))
          && (Has(Table(len, sum, avail).0, d) <==> InAll(len, sum, avail, d))
      {
        AllowedCorrect(len, sum, avail, d);
        ImperativeCorrect(len, sum, avail, d);
      }
    }
  }

  /** A sum-zero run of positive length has no completion. */
  lemma {:induction false} SumZeroFold(len: nat, avail: Cand, k: int)
    requires 1 <= len && 0 <= k <= 9
    ensures TableFold(len, 0, avail, k) == Impossible
    decreases k
  {
    if k > 0 {
      SumZeroFold(len, avail, k - 1);
    }
  }

  // ---- the table as stored ----

  /** `((len * (MAX_SUM + 1) + sum) << MAX_VAL) | vals` for `0 <= vals < 512`. */
  function Slot(len: int, sum: int, vals: int): int {
    (len * 46 + sum) * 512 + vals
  }

  lemma SlotBounds(len: int, sum: int, vals: int)
    requires 0 <= len <= 9 && 0 <= sum <= 45 && 0 <= vals < 512
    ensures 0 <= Slot(len, sum, vals) < TableSize
  {
    Common.MulMonotone(len * 46 + sum, 9 * 46 + 45, 512);
  }

  /** The entry the finished table holds at index `i`. */
  function TableAt(i: nat): Entry {
    var q := i / 512;
    Table(q / 46, q % 46, FromMask(i % 512))
  }

  lemma SlotDecode(len: nat, sum: int, vals: int)
    requires 0 <= sum < 46 && 0 <= vals < 512
    ensures Slot(len, sum, vals) >= 0
    ensures TableAt(Slot(len, sum, vals)) == Table(len, sum, FromMask(vals))
  {
    Common.DivModUnique(Slot(len, sum, vals), 512, len * 46 + sum, vals);
    Common.DivModUnique(len * 46 + sum, 46, len, sum);
  }

  /** Slots below `p` hold their final entry; the others still hold their initial value. */
  ghost predicate FilledUpTo(s: seq<Entry>, p: int) {
    |s| == TableSize
    && forall i :: 0 <= i < TableSize ==> s[i] == (if i < p then TableAt(i) else Impossible)
  }

  /** After the length-0 loop the slots of length 0 are final. */
  lemma FilledStart(s: seq<Entry>)
    requires |s| == TableSize
    requires forall i :: 0 <= i < TableSize ==> s[i] == (if i < 512 then (Empty, Empty) else Impossible)
    ensures FilledUpTo(s, Slot(1, 0, 0))
  {
    forall i | 0 <= i < Slot(1, 0, 0) ensures TableAt(i) == (if i < 512 then (Empty, Empty) else Impossible) {
      SlotDecode(0, (i / 512) % 46, i % 512);
    }
  }

  /** The never-written sum-0 slots of length `len >= 1` already hold their final IMPOSSIBLE. */
  lemma FilledSkip(s: seq<Entry>, len: int)
    requires 1 <= len <= 9 && FilledUpTo(s, Slot(len, 0, 0))
    ensures FilledUpTo(s, Slot(len, 1, 0))
  {
    forall v | 0 <= v < 512 ensures TableAt(Slot(len, 0, v)) == Impossible {
      SlotDecode(len, 0, v);
      SumZeroFold(len, FromMask(v), 9);
    }
    forall i | Slot(len, 0, 0) <= i < Slot(len, 1, 0) ensures TableAt(i) == Impossible {
      assert i == Slot(len, 0, i - Slot(len, 0, 0));
    }
  }

  lemma FilledWrite(s: seq<Entry>, p: int, e: Entry)
    requires FilledUpTo(s, p) && 0 <= p < TableSize && e == TableAt(p)
    ensures FilledUpTo(s[p := e], p + 1)
  {
  }

  /** The dictionary: the entry of every `(len, sum, vals)` slot. */
  datatype Dictionary = Dictionary(data: seq<Entry>)

  /** Every slot holds the entry the recursion defines. */
  ghost predicate Built(dic: Dictionary) {
    |dic.data| == TableSize
    && forall len, sum, vals :: 0 <= len <= 9 && 0 <= sum <= 45 && 0 <= vals < 512 ==>
         0 <= Slot(len, sum, vals) < TableSize
         && dic.data[Slot(len, sum, vals)] == Table(len, sum, FromMask(vals))
  }

  lemma FilledBuilt(s: seq<Entry>)
    requires FilledUpTo(s, Slot(10, 0, 0))
    ensures Built(Dictionary(s))
  {
    forall len, sum, vals | 0 <= len <= 9 && 0 <= sum <= 45 && 0 <= vals < 512
      ensures 0 <= Slot(len, sum, vals) < TableSize
      ensures s[Slot(len, sum, vals)] == Table(len, sum, FromMask(vals))
    {
      SlotBounds(len, sum, vals);
      SlotDecode(len, sum, vals);
    }
  }

  /**
   * `Dictionary::default`: fill length 0 directly, then every length
   * `1..=9`, sum `1..=45` and mask `0..512` from the entries of length
   * `len - 1`, which the loop order has already filled.
   */
  method Default() returns (dic: Dictionary)
    ensures Built(dic)
  {
    var data := new Entry[TableSize](_ => Impossible);
    var vals := 0;
    while vals < 512
      invariant 0 <= vals <= 512
      invariant forall i :: 0 <= i < TableSize ==>
        data[i] == (if i < vals then (Empty, Empty) else Impossible)
    {
      data[vals] := (Empty, Empty);
      vals := vals + 1;
    }
    FilledStart(data[..]);
    var len := 1;
    while len <= 9
      invariant 1 <= len <= 10
      invariant FilledUpTo(data[..], Slot(len, 0, 0))
    {
      FilledSkip(data[..], len);
      var sum := 1;
      while sum <= 45
        invariant 1 <= sum <= 46
        invariant FilledUpTo(data[..], Slot(len, sum, 0))
      {
        vals := 0;
        while vals < 512
          invariant 0 <= vals <= 512
          invariant FilledUpTo(data[..], Slot(len, sum, vals))
        {
          var p := Slot(len, sum, vals);
          FilledFinal(data[..], p);
          FillReady(data[..], len, sum, vals);
          var e := Fill(data, len, sum, vals);
          SlotDecode(len, sum, vals);
          FilledWrite(data[..], p, e);
          data[p] := e;
          vals := vals + 1;
        }
        sum := sum + 1;
      }
      len := len + 1;
    }
    FilledBuilt(data[..]);
    dic := Dictionary(data[..]);
  }

  /** `vals ^ (1 << (i - 1))` for a set bit `i - 1` is the mask of the rest without digit `i`. */
  lemma ExcludeMask(vals: int, i: int)
    requires 0 <= vals < 512 && IsDigit(i) && Has(FromMask(vals), i)
    ensures 0 <= vals - Pow2(i - 1) < 512
    ensures FromMask(vals - Pow2(i - 1)) == Exclude(FromMask(vals), i)
  {
    var avail := FromMask(vals);
    MaskRoundTrip(avail, vals);
    MaskExclude(avail, i);
    MaskRoundTrip(Exclude(avail, i), 0);
  }

  /** The entries the fill of `(len, sum, vals)` reads, one per digit it may use, are final. */
  ghost predicate ShorterFinal(s: seq<Entry>, len: int, sum: int, vals: int)
    requires 1 <= len && 0 <= vals < 512
  {
    forall j :: IsDigit(j) && Has(FromMask(vals), j) && sum >= j ==>
      0 <= Slot(len - 1, sum - j, vals - Pow2(j - 1)) < |s|
      && s[Slot(len - 1, sum - j, vals - Pow2(j - 1))] == Sub(len, sum, FromMask(vals), j)
  }

  /** The slots below `p`, named by length, sum and mask, hold their final entries. */
  ghost predicate FinalBelow(s: seq<Entry>, p: int) {
    |s| == TableSize
    && forall len, sum, vals :: 0 <= len <= 9 && 0 <= sum <= 45 && 0 <= vals < 512 && Slot(len, sum, vals) < p ==>
         s[Slot(len, sum, vals)] == Table(len, sum, FromMask(vals))
  }

  lemma FilledFinal(s: seq<Entry>, p: int)
    requires FilledUpTo(s, p)
    ensures FinalBelow(s, p)
  {
    forall len, sum, vals | 0 <= len <= 9 && 0 <= sum <= 45 && 0 <= vals < 512 && Slot(len, sum, vals) < p
      ensures s[Slot(len, sum, vals)] == Table(len, sum, FromMask(vals))
    {
      SlotBounds(len, sum, vals);
      SlotDecode(len, sum, vals);
    }
  }

  lemma FillReady(s: seq<Entry>, len: int, sum: int, vals: int)
    requires 1 <= len <= 9 && 1 <= sum <= 45 && 0 <= vals < 512
    requires FinalBelow(s, Slot(len, sum, vals))
    ensures ShorterFinal(s, len, sum, vals)
  {
    forall j | IsDigit(j) && Has(FromMask(vals), j) && sum >= j
      ensures 0 <= Slot(len - 1, sum - j, vals - Pow2(j - 1)) < |s|
      ensures s[Slot(len - 1, sum - j, vals - Pow2(j - 1))] == Sub(len, sum, FromMask(vals), j)
    {
      ExcludeMask(vals, j);
      SlotBounds(len - 1, sum - j, vals - Pow2(j - 1));
    }
  }

  /** One pass of the inner loop of the fill, for digit `i`. */
  method FillDigit(data: array<Entry>, len: int, sum: int, vals: int, i: int, acc: Entry) returns (acc': Entry)
    requires 1 <= len <= 9 && 1 <= sum <= 45 && 0 <= vals < 512 && IsDigit(i)
    requires ShorterFinal(data[..], len, sum, vals)
    requires acc == TableFold(len, sum, FromMask(vals), i - 1)
    ensures acc' == TableFold(len, sum, FromMask(vals), i)
  {
    var avail := FromMask(vals);
    var (imperative, allowed) := acc;
    // `vals & (1 << (i - 1)) != 0`
    if Has(avail, i) && sum >= i {
      var rest := vals - Pow2(i - 1);  // `vals ^ (1 << (i - 1))`, the bit being set
      var nxt := data[Slot(len - 1, sum - i, rest)];
      if nxt != Impossible {
        imperative := And(imperative, Or(nxt.0, Singleton(i)));
        allowed := Or(allowed, Or(nxt.1, Singleton(i)));
      }
    }
    acc' := (imperative, allowed);
  }

  /** The inner loop of the fill: one entry from the filled entries of length `len - 1`. */
  method Fill(data: array<Entry>, len: int, sum: int, vals: int) returns (e: Entry)
    requires 1 <= len <= 9 && 1 <= sum <= 45 && 0 <= vals < 512
    requires ShorterFinal(data[..], len, sum, vals)
    ensures e == Table(len, sum, FromMask(vals))
  {
    e := (CandAll, Empty);
    var i := 1;
    while i <= 9
      invariant 1 <= i <= 10
      invariant e == TableFold(len, sum, FromMask(vals), i - 1)
    {
      e := FillDigit(data, len, sum, vals, i, e);
      i := i + 1;
    }
  }

  /**
   * `at(len, sum, available)`: the stored entry, or `None` where the
   * source's index leaves the table (a negative `len * 46 + sum` turns
   * into a huge `usize`, and a large one runs past the end) and the
   * lookup panics.
   */
  function At(dic: Dictionary, len: int, sum: int, avail: Cand): (r: Option<Entry>)
    ensures r.Some? <==> 0 <= len * 46 + sum && (len * 46 + sum) * 512 + MaskValue(avail) < |dic.data|
  {
    var k := len * 46 + sum;
    if k < 0 then None
    else
      var index := k * 512 + MaskValue(avail);
      if index < |dic.data| then Some(dic.data[index]) else None
  }

  /**
   * In range, a lookup in the built dictionary returns the entry whose
   * meaning `TableCorrect` proves.
   */
  lemma AtCorrect(dic: Dictionary, len: int, sum: int, avail: Cand)
    requires Built(dic) && 0 <= len <= 9 && 0 <= sum <= 45
    ensures At(dic, len, sum, avail) == Some(Table(len, sum, avail))
    ensures EntrySpec(len, sum, avail, At(dic, len, sum, avail).value)
  {
    MaskRoundTrip(avail, 0);
    assert dic.data[Slot(len, sum, MaskValue(avail))] == Table(len, sum, FromMask(MaskValue(avail)));
    TableCorrect(len, sum, avail);
  }

  /** `imperative(len, sum, available)`: the first half of the entry. */
  function Imperative(dic: Dictionary, len: int, sum: int, avail: Cand): Option<Cand> {
    match At(dic, len, sum, avail)
    case Some(e) => Some(e.0)
    case None => None
  }

  /** `allowed(len, sum, available)`: the second half of the entry. */
  function Allowed(dic: Dictionary, len: int, sum: int, avail: Cand): Option<Cand> {
    match At(dic, len, sum, avail)
    case Some(e) => Some(e.1)
    case None => None
  }

  /**
   * For a run with a completion, `imperative` holds the digits of every
   * completion and `allowed` the digits of some completion.
   */
  lemma ImperativeAllowedMeaning(dic: Dictionary, len: int, sum: int, avail: Cand, d: int)
    requires Built(dic) && 0 <= len <= 9 && 0 <= sum <= 45 && IsDigit(d)
    requires Solvable(len, sum, avail)
    ensures Imperative(dic, len, sum, avail).Some? && Allowed(dic, len, sum, avail).Some?
    ensures Has(Imperative(dic, len, sum, avail).value, d) <==> InAll(len, sum, avail, d)
    ensures Has(Allowed(dic, len, sum, avail).value, d) <==> InSome(len, sum, avail, d)
  {
    AtMeaning(dic, len, sum, avail);
  }

  /** A solvable entry has `imperative ⊆ allowed ⊆ avail`. */
  lemma EntrySubsets(len: int, sum: int, avail: Cand, e: Entry)
    requires EntrySpec(len, sum, avail, e) && e != Impossible
    ensures forall d :: IsDigit(d) && Has(e.0, d) ==> Has(e.1, d)
    ensures forall d :: IsDigit(d) && Has(e.1, d) ==> Has(avail, d)
  {
    var m :| IsSolution(m, len, sum, avail);
    SubMaskHas(m, avail);
    forall d | IsDigit(d) && Has(e.1, d) ensures Has(avail, d) {
      var w :| IsSolution(w, len, sum, avail) && Has(w, d);
      SubMaskHas(w, avail);
    }
  }

  // ---- the values the unit test checks ----

  /** `AtCorrect` without the recursion: the entry found and what it means. */
  lemma AtMeaning(dic: Dictionary, len: int, sum: int, avail: Cand)
    requires Built(dic) && 0 <= len <= 9 && 0 <= sum <= 45
    ensures At(dic, len, sum, avail).Some?
    ensures EntrySpec(len, sum, avail, At(dic, len, sum, avail).value)
  {
    AtCorrect(dic, len, sum, avail);
  }

  /** The only nine-digit set is every digit. */
  lemma NineDigits(m: Cand)
    requires Count(m) == 9
    ensures m == CandAll
  {
    CandExt(m, CandAll);
  }

  lemma NineInAll(d: int)
    requires IsDigit(d)
    ensures InAll(9, 45, CandAll, d)
  {
    forall m | IsSolution(m, 9, 45, CandAll) ensures Has(m, d) {
      NineDigits(m);
    }
  }

  /** The nine-cell run summing to 45 uses every digit. */
  lemma NineEntry(e: Entry)
    requires EntrySpec(9, 45, CandAll, e)
    ensures e == (CandAll, CandAll)
  {
    SubMaskHas(CandAll, CandAll);
    assert IsSolution(CandAll, 9, 45, CandAll);
    forall d | IsDigit(d) ensures Has(e.0, d) && Has(e.1, d) {
      NineInAll(d);
      assert IsSolution(CandAll, 9, 45, CandAll) && Has(CandAll, d);
    }
    CandExt(e.0, CandAll);
    CandExt(e.1, CandAll);
  }

  /** `at(9, 45, CAND_ALL) == (CAND_ALL, CAND_ALL)`. */
  lemma AtNine45(dic: Dictionary)
    requires Built(dic)
    ensures At(dic, 9, 45, CandAll) == Some((CandAll, CandAll))
  {
    AtMeaning(dic, 9, 45, CandAll);
    NineEntry(At(dic, 9, 45, CandAll).value);
  }

  /** `at(9, 44, CAND_ALL) == IMPOSSIBLE`. */
  lemma AtNine44(dic: Dictionary)
    requires Built(dic)
    ensures At(dic, 9, 44, CandAll) == Some(Impossible)
  {
    AtMeaning(dic, 9, 44, CandAll);
    forall m | IsSolution(m, 9, 44, CandAll) ensures false {
      NineDigits(m);
    }
  }

  /** The only completion of a one-cell run summing to 1 is {1}. */
  lemma OneOneSolution(m: Cand, d: int)
    requires IsSolution(m, 1, 1, CandAll) && IsDigit(d)
    ensures Has(m, d) <==> d == 1
  {
  }

  /** The one-cell run summing to 1 holds exactly the digit 1. */
  lemma OneOneEntry(e: Entry)
    requires EntrySpec(1, 1, CandAll, e)
    ensures e == (Singleton(1), Singleton(1))
  {
    var one := Singleton(1);
    SubMaskHas(one, CandAll);
    assert IsSolution(one, 1, 1, CandAll);
    forall d | IsDigit(d) ensures (Has(e.0, d) <==> d == 1) && (Has(e.1, d) <==> d == 1) {
      forall m | IsSolution(m, 1, 1, CandAll) ensures Has(m, d) <==> d == 1 {
        OneOneSolution(m, d);
      }
      assert InSome(1, 1, CandAll, d) <==> Has(one, d);
    }
    CandExt(e.0, one);
    CandExt(e.1, one);
  }

  /** `at(1, 1, CAND_ALL) == (1, 1)`. */
  lemma AtOne1(dic: Dictionary)
    requires Built(dic)
    ensures At(dic, 1, 1, CandAll) == Some((Singleton(1), Singleton(1)))
  {
    AtMeaning(dic, 1, 1, CandAll);
    OneOneEntry(At(dic, 1, 1, CandAll).value);
  }

  const PairA: Cand := [true, false, false, true, false, false, false, false, false]
  const PairB: Cand := [false, true, true, false, false, false, false, false, false]

  /** {1, 4} and {2, 3} are completions of a two-cell run summing to 5. */
  lemma TwoFivePairs()
    ensures IsSolution(PairA, 2, 5, CandAll) && IsSolution(PairB, 2, 5, CandAll)
  {
    SubMaskHas(PairA, CandAll);
    SubMaskHas(PairB, CandAll);
  }

  /** No digit above 4 fits in a two-cell run summing to 5. */
  lemma TwoFiveBound(m: Cand, d: int)
    requires IsSolution(m, 2, 5, CandAll) && 5 <= d <= 9
    ensures !Has(m, d)
  {
  }

  const Low4: Cand := [true, true, true, true, false, false, false, false, false]

  lemma Low4Mask()
    ensures FromMask(15) == Low4
  {
  }

  /** The digits of a completion of a two-cell run summing to 5 are the digits 1..4. */
  lemma TwoFiveAllowed(d: int)
    requires IsDigit(d)
    ensures InSome(2, 5, CandAll, d) <==> d <= 4
  {
    TwoFivePairs();
    if d >= 5 {
      forall m | IsSolution(m, 2, 5, CandAll) ensures !Has(m, d) {
        TwoFiveBound(m, d);
      }
    } else if Has(PairA, d) {
      assert IsSolution(PairA, 2, 5, CandAll) && Has(PairA, d);
    } else {
      assert IsSolution(PairB, 2, 5, CandAll) && Has(PairB, d);
    }
  }

  /** No digit is in every completion of a two-cell run summing to 5. */
  lemma TwoFiveImperative(d: int)
    requires IsDigit(d)
    ensures !InAll(2, 5, CandAll, d)
  {
    TwoFivePairs();
    if Has(PairA, d) {
      assert !Has(PairB, d);
    }
  }

  /** The two-cell run summing to 5 allows 1..4 and forces nothing. */
  lemma TwoFiveEntry(e: Entry)
    requires EntrySpec(2, 5, CandAll, e)
    ensures e == (Empty, Low4)
  {
    TwoFivePairs();
    forall d | IsDigit(d) ensures !Has(e.0, d) && (Has(e.1, d) <==> Has(Low4, d)) {
      TwoFiveAllowed(d);
      TwoFiveImperative(d);
    }
    CandExt(e.0, Empty);
    CandExt(e.1, Low4);
  }

  /** `at(2, 5, CAND_ALL) == (0, 0b1111)`: the completions are {1, 4} and {2, 3}. */
  lemma AtTwo5(dic: Dictionary)
    requires Built(dic)
    ensures At(dic, 2, 5, CandAll) == Some((Empty, FromMask(15)))
  {
    AtMeaning(dic, 2, 5, CandAll);
    TwoFiveEntry(At(dic, 2, 5, CandAll).value);
    Low4Mask();
  }
}
