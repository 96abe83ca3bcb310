/**
 * Kakuro constants and candidate sets shared by the dictionary and the
 * field (src/kakuro/mod.rs). A `Cand` is a set of the digits 1..9 held as
 * nine flags: flag `d - 1` stands for bit `d - 1` of the `u32` mask the
 * source uses, and `MaskValue` is that `u32` value.
 */
module KakuroBase {

  const MaxVal: int := 9
  /** `MAX_SUM = MAX_VAL * (MAX_VAL + 1) / 2`. */
  const MaxSum: int := MaxVal * (MaxVal + 1) / 2

  type Cand = s: seq<bool> | |s| == 9
    witness [false, false, false, false, false, false, false, false, false]

  predicate IsDigit(d: int) {
    1 <= d <= 9
  }

  /** `is_set(d)`: digit `d` is a candidate. */
  predicate Has(m: Cand, d: int)
    requires IsDigit(d)
  {
    m[d - 1]
  }

  /** `Cand(0)`: no digit. */
  const Empty: Cand := [false, false, false, false, false, false, false, false, false]

  /** `CAND_ALL = (1 << MAX_VAL) - 1`: every digit. */
  const CandAll: Cand := [true, true, true, true, true, true, true, true, true]

  /** Two candidate sets with the same digits are equal. */
  lemma CandExt(a: Cand, b: Cand)
    requires forall d :: IsDigit(d) ==> Has(a, d) == Has(b, d)
    ensures a == b
  {
    forall i | 0 <= i < 9 ensures a[i] == b[i] {
      assert Has(a, i + 1) == Has(b, i + 1);
    }
  }

  lemma EmptyHasNone(d: int)
    requires IsDigit(d)
    ensures !Has(Empty, d) && Has(CandAll, d)
  {
  }

  // ---- `Cand` operations, defined by their names ----

  /** `Cand::singleton(d)`. */
  function Singleton(d: int): (r: Cand)
    requires IsDigit(d)
    ensures forall e :: IsDigit(e) ==> (Has(r, e) <==> e == d)
  {
    seq(9, i => i == d - 1)
  }

  /** `a & b`. */
  function And(a: Cand, b: Cand): (r: Cand)
    ensures forall d :: IsDigit(d) ==> (Has(r, d) <==> Has(a, d) && Has(b, d))
  {
    seq(9, i requires 0 <= i < 9 => a[i] && b[i])
  }

  /** `a | b`. */
  function Or(a: Cand, b: Cand): (r: Cand)
    ensures forall d :: IsDigit(d) ==> (Has(r, d) <==> Has(a, d) || Has(b, d))
  {
    seq(9, i requires 0 <= i < 9 => a[i] || b[i])
  }

  /** `!c`: the digits not in `c`. */
  function Not(m: Cand): (r: Cand)
    ensures forall d :: IsDigit(d) ==> (Has(r, d) <==> !Has(m, d))
  {
    seq(9, i requires 0 <= i < 9 => !m[i])
  }

  /** `exclude(d)`: `m` without digit `d`. */
  function Exclude(m: Cand, d: int): (r: Cand)
    requires IsDigit(d)
    ensures forall e :: IsDigit(e) ==> (Has(r, e) <==> Has(m, e) && e != d)
  {
    m[d - 1 := false]
  }

  /** `m` with digit `d` added. */
  function Include(m: Cand, d: int): (r: Cand)
    requires IsDigit(d)
    ensures forall e :: IsDigit(e) ==> (Has(r, e) <==> Has(m, e) || e == d)
  {
    m[d - 1 := true]
  }

  /** Taking out a present digit and putting it back gives the set back. */
  lemma IncludeExclude(m: Cand, d: int)
    requires IsDigit(d) && Has(m, d)
    ensures Include(Exclude(m, d), d) == m
  {
    CandExt(Include(Exclude(m, d), d), m);
  }

  lemma ExcludeInclude(m: Cand, d: int)
    requires IsDigit(d) && !Has(m, d)
    ensures Exclude(Include(m, d), d) == m
  {
    CandExt(Exclude(Include(m, d), d), m);
  }

  /** 1 if digit `d` is a candidate, else 0. */
  function B(m: Cand, d: int): int
    requires IsDigit(d)
  {
    if Has(m, d) then 1 else 0
  }

  /** `count_set_cands`: the number of digits in the set. */
  function Count(m: Cand): int {
    B(m, 1) + B(m, 2) + B(m, 3) + B(m, 4) + B(m, 5) + B(m, 6) + B(m, 7) + B(m, 8) + B(m, 9)
  }

  /** The sum of the digits in the set. */
  function DigitSum(m: Cand): int {
    B(m, 1) + 2 * B(m, 2) + 3 * B(m, 3) + 4 * B(m, 4) + 5 * B(m, 5)
    + 6 * B(m, 6) + 7 * B(m, 7) + 8 * B(m, 8) + 9 * B(m, 9)
  }

  /** `is_empty()`. */
  predicate IsEmpty(m: Cand) {
    m == Empty
  }

  lemma CountBounds(m: Cand)
    ensures 0 <= Count(m) <= 9 && 0 <= DigitSum(m) <= 45
  {
  }

  /** Taking out a present digit removes one digit and `d` from the sum. */
  lemma CountExclude(m: Cand, d: int)
    requires IsDigit(d) && Has(m, d)
    ensures Count(Exclude(m, d)) == Count(m) - 1
    ensures DigitSum(Exclude(m, d)) == DigitSum(m) - d
  {
    var x := Exclude(m, d);
    DropOne(B(m, 1), B(m, 2), B(m, 3), B(m, 4), B(m, 5), B(m, 6), B(m, 7), B(m, 8), B(m, 9),
      B(x, 1), B(x, 2), B(x, 3), B(x, 4), B(x, 5), B(x, 6), B(x, 7), B(x, 8), B(x, 9), d);
  }

  /** The counting arithmetic behind `CountExclude`, on plain integers. */
  lemma DropOne(b1: int, b2: int, b3: int, b4: int, b5: int, b6: int, b7: int, b8: int, b9: int,
                c1: int, c2: int, c3: int, c4: int, c5: int, c6: int, c7: int, c8: int, c9: int, d: int)
    requires 1 <= d <= 9
    requires c1 == if d == 1 then b1 - 1 else b1
    requires c2 == if d == 2 then b2 - 1 else b2
    requires c3 == if d == 3 then b3 - 1 else b3
    requires c4 == if d == 4 then b4 - 1 else b4
    requires c5 == if d == 5 then b5 - 1 else b5
    requires c6 == if d == 6 then b6 - 1 else b6
    requires c7 == if d == 7 then b7 - 1 else b7
    requires c8 == if d == 8 then b8 - 1 else b8
    requires c9 == if d == 9 then b9 - 1 else b9
    ensures c1 + c2 + c3 + c4 + c5 + c6 + c7 + c8 + c9 == b1 + b2 + b3 + b4 + b5 + b6 + b7 + b8 + b9 - 1
    ensures c1 + 2 * c2 + 3 * c3 + 4 * c4 + 5 * c5 + 6 * c6 + 7 * c7 + 8 * c8 + 9 * c9
         == b1 + 2 * b2 + 3 * b3 + 4 * b4 + 5 * b5 + 6 * b6 + 7 * b7 + 8 * b8 + 9 * b9 - d
  {
  }

  /** The set is empty exactly when it counts no digit. */
  lemma CountZero(m: Cand)
    ensures Count(m) == 0 <==> IsEmpty(m)
  {
    if Count(m) == 0 {
      CandExt(m, Empty);
    }
  }

  lemma CountDigit(m: Cand, d: int)
    requires IsDigit(d) && Has(m, d)
    ensures Count(m) >= 1
  {
  }

  /** A nonempty set has a digit. */
  lemma SomeDigit(m: Cand) returns (d: int)
    requires Count(m) > 0
    ensures IsDigit(d) && Has(m, d)
  {
    if Has(m, 1) { d := 1; } else if Has(m, 2) { d := 2; } else if Has(m, 3) { d := 3; }
    else if Has(m, 4) { d := 4; } else if Has(m, 5) { d := 5; } else if Has(m, 6) { d := 6; }
    else if Has(m, 7) { d := 7; } else if Has(m, 8) { d := 8; } else { d := 9; }
  }

  /** `smallest_set_cand`: the least digit of a nonempty set. */
  function Smallest(m: Cand): (d: int)
    requires Count(m) > 0
    ensures IsDigit(d) && Has(m, d) && forall e :: 1 <= e < d ==> !Has(m, e)
  {
    if Has(m, 1) then 1 else if Has(m, 2) then 2 else if Has(m, 3) then 3
    else if Has(m, 4) then 4 else if Has(m, 5) then 5 else if Has(m, 6) then 6
    else if Has(m, 7) then 7 else if Has(m, 8) then 8 else 9
  }

  /** `largest_set_cand`: the greatest digit of a nonempty set. */
  function Largest(m: Cand): (d: int)
    requires Count(m) > 0
    ensures IsDigit(d) && Has(m, d) && forall e :: d < e <= 9 ==> !Has(m, e)
  {
    if Has(m, 9) then 9 else if Has(m, 8) then 8 else if Has(m, 7) then 7
    else if Has(m, 6) then 6 else if Has(m, 5) then 5 else if Has(m, 4) then 4
    else if Has(m, 3) then 3 else if Has(m, 2) then 2 else 1
  }

  /** A set with exactly one digit is the singleton of its smallest digit. */
  lemma SingleCount(m: Cand)
    requires Count(m) == 1
    ensures m == Singleton(Smallest(m))
  {
    var s := Smallest(m);
    forall e | IsDigit(e) ensures Has(m, e) == Has(Singleton(s), e) {
      if e != s && Has(m, e) {
        assert B(m, e) == 1 && B(m, s) == 1;
        CountTwo(m, s, e);
      }
    }
    CandExt(m, Singleton(s));
  }

  lemma CountTwo(m: Cand, a: int, b: int)
    requires IsDigit(a) && IsDigit(b) && a != b && Has(m, a) && Has(m, b)
    ensures Count(m) >= 2
  {
  }

  /** `limit_upper_bound(n)`: the digits of `m` that are at most `n`. */
  function LimitUpperBound(m: Cand, n: int): (r: Cand)
    ensures forall d :: IsDigit(d) ==> (Has(r, d) <==> Has(m, d) && d <= n)
  {
    seq(9, i requires 0 <= i < 9 => m[i] && i + 1 <= n)
  }

  /** `limit_lower_bound(n)`: the digits of `m` that are at least `n`. */
  function LimitLowerBound(m: Cand, n: int): (r: Cand)
    ensures forall d :: IsDigit(d) ==> (Has(r, d) <==> Has(m, d) && d >= n)
  {
    seq(9, i requires 0 <= i < 9 => m[i] && i + 1 >= n)
  }

  /** Every digit of `m` is in `avail`: `m & avail == m`. */
  predicate SubMask(m: Cand, avail: Cand) {
    And(m, avail) == m
  }

  lemma SubMaskHas(m: Cand, avail: Cand)
    ensures SubMask(m, avail) <==> forall d :: IsDigit(d) && Has(m, d) ==> Has(avail, d)
  {
    if forall d :: IsDigit(d) && Has(m, d) ==> Has(avail, d) {
      CandExt(And(m, avail), m);
    }
  }

  // ---- the `u32` value of a candidate set ----

  function Pow2(k: nat): (r: nat)
    ensures r >= 1
  {
    if k == 0 then 1 else 2 * Pow2(k - 1)
  }

  /** The integer whose bit `i` is flag `i` (least significant first). */
  function BitsValue(bits: seq<bool>): nat {
    if bits == [] then 0 else (if bits[0] then 1 else 0) + 2 * BitsValue(bits[1..])
  }

  /** The `n` low bits of `v`, least significant first. */
  function ValueBits(v: nat, n: nat): (bits: seq<bool>)
    ensures |bits| == n
  {
    if n == 0 then [] else [v % 2 == 1] + ValueBits(v / 2, n - 1)
  }

  /** `c as u32`. */
  function MaskValue(c: Cand): nat {
    BitsValue(c)
  }

  /** The candidate set of a mask `v < 512`. */
  function FromMask(v: nat): Cand {
    ValueBits(v, 9)
  }

  lemma {:induction false} BitsValueBound(bits: seq<bool>)
    ensures BitsValue(bits) < Pow2(|bits|)
  {
    if bits != [] {
      BitsValueBound(bits[1..]);
    }
  }

  lemma {:induction false} ValueBitsRoundTrip(v: nat, n: nat)
    requires v < Pow2(n)
    ensures BitsValue(ValueBits(v, n)) == v
  {
    if n > 0 {
      ValueBitsRoundTrip(v / 2, n - 1);
      var bits := ValueBits(v, n);
      assert bits[1..] == ValueBits(v / 2, n - 1);
    }
  }

  lemma {:induction false} BitsValueRoundTrip(bits: seq<bool>)
    ensures ValueBits(BitsValue(bits), |bits|) == bits
  {
    if bits != [] {
      BitsValueRoundTrip(bits[1..]);
      var v := BitsValue(bits);
      assert v / 2 == BitsValue(bits[1..]) && (v % 2 == 1) == bits[0];
    }
  }

  /** Clearing a set flag `k` subtracts `2^k`: `v ^ (1 << k) == v - (1 << k)`. */
  lemma {:induction false} BitsValueClear(bits: seq<bool>, k: nat)
    requires k < |bits| && bits[k]
    ensures BitsValue(bits[k := false]) == BitsValue(bits) - Pow2(k)
  {
    if k > 0 {
      BitsValueClear(bits[1..], k - 1);
      assert bits[k := false][1..] == bits[1..][k - 1 := false];
    }
  }

  /** Masks and candidate sets correspond one to one. */
  lemma MaskRoundTrip(c: Cand, v: nat)
    requires v < 512
    ensures MaskValue(c) < 512
    ensures FromMask(MaskValue(c)) == c
    ensures MaskValue(FromMask(v)) == v
  {
    assert Pow2(9) == 512;
    BitsValueBound(c);
    BitsValueRoundTrip(c);
    ValueBitsRoundTrip(v, 9);
  }

  /** The mask of `m` without digit `d` is the mask of `m` minus `1 << (d - 1)`. */
  lemma MaskExclude(m: Cand, d: int)
    requires IsDigit(d) && Has(m, d)
    ensures MaskValue(Exclude(m, d)) == MaskValue(m) - Pow2(d - 1)
  {
    BitsValueClear(m, d - 1);
  }

  lemma MaskValues()
    ensures MaskValue(CandAll) == 511 && MaskValue(Empty) == 0
  {
  }

  /** A Kakuro problem cell: blank, or a clue cell with its two run sums. */
  datatype Clue = NoClue | Clue(horizontal: int, vertical: int)
}
