/**
 * The state of the Endview field of src/endview/field.rs, as values: a
 * snapshot of the decided values and the candidate letters of every cell,
 * how one snapshot may follow another during the propagation, the measure
 * that the propagation lowers, and what it means for a solved board to be
 * still allowed by a snapshot.
 */
module EndviewState {
  import opened Common
  import opened EndviewBase

  predicate InBoard(size: int, c: Coord) {
    0 <= c.y < size && 0 <= c.x < size
  }

  /** `Field::group`: cell `pos` of row `gid`, or of column `gid - size` when `gid >= size`. */
  function Group(size: int, gid: int, pos: int): (c: Coord)
    ensures 0 <= gid < 2 * size && 0 <= pos < size ==> InBoard(size, c)
  {
    if gid < size then Coord(gid, pos) else Coord(pos, gid - size)
  }

  /** The values `decide` accepts: the three markers, or a letter below 32. */
  predicate ValueOk(v: Value) {
    -3 <= v.v < Width
  }

  predicate IsLetterValue(v: Value) {
    IsLetter(v.v)
  }

  /** The fields of `Field` that the propagation changes, and its two sizes. */
  datatype Snapshot = Snapshot(size: int, nAlpha: int, value: seq<seq<Value>>, cand: seq<seq<Cand>>,
                               inconsistent: bool)

  ghost predicate Shaped(s: Snapshot) {
    s.size >= 0 && 0 <= s.nAlpha < Width && |s.value| == s.size && |s.cand| == s.size
    && (forall y :: 0 <= y < s.size ==> |s.value[y]| == s.size && |s.cand[y]| == s.size)
    && (forall y, x {:trigger CellShaped(s.value, s.cand, y, x)} :: 0 <= y < s.size && 0 <= x < s.size ==>
          CellShaped(s.value, s.cand, y, x))
  }

  /** Cell `(y, x)` holds a well-formed set and a value `decide` accepts. */
  ghost predicate CellShaped(value: seq<seq<Value>>, cand: seq<seq<Cand>>, y: int, x: int)
    requires 0 <= y < |value| && 0 <= y < |cand| && 0 <= x < |value[y]| && 0 <= x < |cand[y]|
  {
    WellFormed(cand[y][x]) && ValueOk(value[y][x])
  }

  function V(s: Snapshot, c: Coord): Value
    requires Shaped(s) && InBoard(s.size, c)
  {
    s.value[c.y][c.x]
  }

  function Cd(s: Snapshot, c: Coord): (k: Cand)
    requires Shaped(s) && InBoard(s.size, c)
    ensures WellFormed(k)
  {
    assert CellShaped(s.value, s.cand, c.y, c.x);
    s.cand[c.y][c.x]
  }

  /** `self.value[c] = v`. */
  function WithValue(s: Snapshot, c: Coord, v: Value): (t: Snapshot)
    requires Shaped(s) && InBoard(s.size, c) && ValueOk(v)
    ensures Shaped(t) && t.size == s.size && t.nAlpha == s.nAlpha && t.cand == s.cand && t.inconsistent == s.inconsistent
    ensures forall d {:trigger V(t, d)} :: InBoard(s.size, d) ==> V(t, d) == if d == c then v else V(s, d)
  {
    var t := s.(value := s.value[c.y := s.value[c.y][c.x := v]]);
    assert forall y, x {:trigger CellShaped(t.value, t.cand, y, x)} :: 0 <= y < s.size && 0 <= x < s.size ==>
      CellShaped(t.value, t.cand, y, x) by {
      forall y, x | 0 <= y < s.size && 0 <= x < s.size ensures CellShaped(t.value, t.cand, y, x) {
        assert CellShaped(s.value, s.cand, y, x);
      }
    }
    t
  }

  /** `self.cand[c] = k`. */
  function WithCand(s: Snapshot, c: Coord, k: Cand): (t: Snapshot)
    requires Shaped(s) && InBoard(s.size, c) && WellFormed(k)
    ensures Shaped(t) && t.size == s.size && t.nAlpha == s.nAlpha && t.value == s.value && t.inconsistent == s.inconsistent
    ensures forall d {:trigger Cd(t, d)} :: InBoard(s.size, d) ==> Cd(t, d) == if d == c then k else Cd(s, d)
  {
    var t := s.(cand := s.cand[c.y := s.cand[c.y][c.x := k]]);
    assert forall y, x {:trigger CellShaped(t.value, t.cand, y, x)} :: 0 <= y < s.size && 0 <= x < s.size ==>
      CellShaped(t.value, t.cand, y, x) by {
      forall y, x | 0 <= y < s.size && 0 <= x < s.size ensures CellShaped(t.value, t.cand, y, x) {
        assert CellShaped(s.value, s.cand, y, x);
      }
    }
    t
  }

  // ---- following ----

  /** Every letter of `a` is in `b`. */
  ghost predicate Within(a: Cand, b: Cand)
    requires WellFormed(a) && WellFormed(b)
  {
    forall n :: IsLetter(n) && IsSet(a, n) ==> IsSet(b, n)
  }

  /** A value only gets decided: undecided to anything, `SOME` to a letter, and otherwise kept. */
  predicate ValueFollows(a: Value, b: Value) {
    a == Undecided || a == b || (a == Some && IsLetterValue(b))
  }

  /** `t` is a later state of the same field: candidates only narrow, values only get decided, and an inconsistency stays. */
  ghost predicate Follows(s: Snapshot, t: Snapshot) {
    Shaped(s) && Shaped(t) && t.size == s.size && t.nAlpha == s.nAlpha
    && (forall c {:trigger CellFollows(s, t, c)} :: InBoard(s.size, c) ==> CellFollows(s, t, c))
    && (s.inconsistent ==> t.inconsistent)
  }

  /** Cell `c` of `t` follows the same cell of `s`. */
  ghost predicate CellFollows(s: Snapshot, t: Snapshot, c: Coord)
    requires Shaped(s) && Shaped(t) && t.size == s.size && InBoard(s.size, c)
  {
    Within(Cd(t, c), Cd(s, c)) && ValueFollows(V(s, c), V(t, c))
  }

  lemma FollowsCell(s: Snapshot, t: Snapshot, c: Coord)
    requires Follows(s, t) && InBoard(s.size, c)
    ensures Within(Cd(t, c), Cd(s, c)) && ValueFollows(V(s, c), V(t, c))
  {
    assert CellFollows(s, t, c);
  }

  lemma FollowsRefl(s: Snapshot)
    requires Shaped(s)
    ensures Follows(s, s)
  {
  }

  lemma FollowsTrans(s: Snapshot, t: Snapshot, u: Snapshot)
    requires Follows(s, t) && Follows(t, u)
    ensures Follows(s, u)
  {
    forall c {:trigger CellFollows(s, u, c)} | InBoard(s.size, c) ensures CellFollows(s, u, c) {
      assert CellFollows(s, t, c) && CellFollows(t, u, c);
    }
  }

  // ---- the measure ----

  /** What one cell's value still leaves open: two for undecided, one for `SOME`, none once empty or a letter. */
  function Weight(v: Value): nat {
    if v == Undecided then 2 else if v == Some then 1 else 0
  }

  function CellMeasure(s: Snapshot, c: Coord): nat
    requires Shaped(s) && InBoard(s.size, c)
  {
    Weight(V(s, c)) + CountSetCands(Cd(s, c))
  }

  function RowMeasure(s: Snapshot, y: int, k: int): nat
    requires Shaped(s) && 0 <= y < s.size && 0 <= k <= s.size
  {
    if k == 0 then 0 else RowMeasure(s, y, k - 1) + CellMeasure(s, Coord(y, k - 1))
  }

  function RowsMeasure(s: Snapshot, k: int): nat
    requires Shaped(s) && 0 <= k <= s.size
  {
    if k == 0 then 0 else RowsMeasure(s, k - 1) + RowMeasure(s, k - 1, s.size)
  }

  /** What the propagation lowers: the open values plus the candidates left, over the board. */
  function Measure(s: Snapshot): nat
    requires Shaped(s)
  {
    RowsMeasure(s, s.size)
  }

  ghost predicate CellsNoMore(s: Snapshot, t: Snapshot)
    requires Shaped(s) && Shaped(t) && s.size == t.size
  {
    forall c {:trigger CellMeasure(t, c)} :: InBoard(s.size, c) ==> CellMeasure(t, c) <= CellMeasure(s, c)
  }

  lemma {:induction false} RowNoMore(s: Snapshot, t: Snapshot, y: int, k: int, d: Coord)
    requires Shaped(s) && Shaped(t) && s.size == t.size && CellsNoMore(s, t) && 0 <= y < s.size && 0 <= k <= s.size
    requires InBoard(s.size, d) && CellMeasure(t, d) < CellMeasure(s, d)
    ensures RowMeasure(t, y, k) <= RowMeasure(s, y, k)
    ensures d.y == y && d.x < k ==> RowMeasure(t, y, k) < RowMeasure(s, y, k)
  {
    if k > 0 {
      RowNoMore(s, t, y, k - 1, d);
      assert CellMeasure(t, Coord(y, k - 1)) <= CellMeasure(s, Coord(y, k - 1));
    }
  }

  lemma {:induction false} RowsNoMore(s: Snapshot, t: Snapshot, k: int, d: Coord)
    requires Shaped(s) && Shaped(t) && s.size == t.size && CellsNoMore(s, t) && 0 <= k <= s.size
    requires InBoard(s.size, d) && CellMeasure(t, d) < CellMeasure(s, d)
    ensures RowsMeasure(t, k) <= RowsMeasure(s, k)
    ensures d.y < k ==> RowsMeasure(t, k) < RowsMeasure(s, k)
  {
    if k > 0 {
      RowsNoMore(s, t, k - 1, d);
      RowNoMore(s, t, k - 1, s.size, d);
    }
  }

  /** A cell that lowers its measure while no other cell raises its own lowers the whole measure. */
  lemma MeasureDrops(s: Snapshot, t: Snapshot, d: Coord)
    requires Shaped(s) && Shaped(t) && s.size == t.size && CellsNoMore(s, t)
    requires InBoard(s.size, d) && CellMeasure(t, d) < CellMeasure(s, d)
    ensures Measure(t) < Measure(s)
  {
    RowsNoMore(s, t, s.size, d);
  }

  lemma {:induction false} RowNoMoreAll(s: Snapshot, t: Snapshot, y: int, k: int)
    requires Shaped(s) && Shaped(t) && s.size == t.size && CellsNoMore(s, t) && 0 <= y < s.size && 0 <= k <= s.size
    ensures RowMeasure(t, y, k) <= RowMeasure(s, y, k)
  {
    if k > 0 {
      RowNoMoreAll(s, t, y, k - 1);
      assert CellMeasure(t, Coord(y, k - 1)) <= CellMeasure(s, Coord(y, k - 1));
    }
  }

  lemma {:induction false} RowsNoMoreAll(s: Snapshot, t: Snapshot, k: int)
    requires Shaped(s) && Shaped(t) && s.size == t.size && CellsNoMore(s, t) && 0 <= k <= s.size
    ensures RowsMeasure(t, k) <= RowsMeasure(s, k)
  {
    if k > 0 {
      RowsNoMoreAll(s, t, k - 1);
      RowNoMoreAll(s, t, k - 1, s.size);
    }
  }

  /** A narrower set counts no more letters, and strictly fewer when it lacks one. */
  lemma {:induction false} CountWithin(a: Cand, b: Cand, k: nat)
    requires WellFormed(a) && WellFormed(b) && Within(a, b) && k <= Width
    ensures CountBelow(a, k) <= CountBelow(b, k)
    ensures (exists n :: 0 <= n < k && IsSet(b, n) && !IsSet(a, n)) ==> CountBelow(a, k) < CountBelow(b, k)
  {
    if k > 0 {
      CountWithin(a, b, k - 1);
      assert IsLetter(k - 1);
      if exists n :: 0 <= n < k && IsSet(b, n) && !IsSet(a, n) {
        var n :| 0 <= n < k && IsSet(b, n) && !IsSet(a, n);
        if n < k - 1 {
          assert exists m :: 0 <= m < k - 1 && IsSet(b, m) && !IsSet(a, m);
        }
      }
    }
  }

  /** A later state has no larger measure. */
  lemma FollowsMeasure(s: Snapshot, t: Snapshot)
    requires Follows(s, t)
    ensures Measure(t) <= Measure(s)
  {
    forall c {:trigger CellMeasure(t, c)} | InBoard(s.size, c) ensures CellMeasure(t, c) <= CellMeasure(s, c) {
      assert CellFollows(s, t, c);
      CountWithin(Cd(t, c), Cd(s, c), Width);
    }
    RowsNoMoreAll(s, t, s.size);
  }

  /** Taking a value from an undecided cell, or a letter for a `SOME` cell, lowers the measure. */
  lemma SetValueDrops(s: Snapshot, c: Coord, v: Value)
    requires Shaped(s) && InBoard(s.size, c) && ValueOk(v) && v != Undecided
    requires V(s, c) == Undecided || (V(s, c) == Some && IsLetterValue(v))
    ensures Follows(s, WithValue(s, c, v)) && Measure(WithValue(s, c, v)) < Measure(s)
  {
    var t := WithValue(s, c, v);
    forall d {:trigger CellFollows(s, t, d)} | InBoard(s.size, d) ensures CellFollows(s, t, d) {
    }
    MeasureDrops(s, t, c);
  }

  /** Narrowing a cell to a strictly smaller set lowers the measure. */
  lemma SetCandDrops(s: Snapshot, c: Coord, k: Cand)
    requires Shaped(s) && InBoard(s.size, c) && WellFormed(k) && Within(k, Cd(s, c)) && k != Cd(s, c)
    ensures Follows(s, WithCand(s, c, k)) && Measure(WithCand(s, c, k)) < Measure(s)
  {
    var t := WithCand(s, c, k);
    if forall n :: 0 <= n < Width ==> (IsSet(k, n) <==> IsSet(Cd(s, c), n)) {
      Extensionality(k, Cd(s, c));
    }
    CountWithin(k, Cd(s, c), Width);
    forall d {:trigger CellMeasure(t, d)} | InBoard(s.size, d) && d != c ensures CellMeasure(t, d) <= CellMeasure(s, d) {
    }
    forall d {:trigger CellFollows(s, t, d)} | InBoard(s.size, d) ensures CellFollows(s, t, d) {
    }
    MeasureDrops(s, t, c);
  }

  // ---- solved boards ----

  /** `S[c]`: a solved board's cell, `EMPTY` or a letter. */
  function At(S: seq<seq<Value>>, c: Coord): Value
    requires 0 <= c.y < |S| && 0 <= c.x < |S[c.y]|
  {
    S[c.y][c.x]
  }

  ghost predicate BoardShaped(S: seq<seq<Value>>, size: int) {
    |S| == size && forall y :: 0 <= y < size ==> |S[y]| == size
  }

  /** Which cells of line `g` hold a letter. */
  function LetterFlags(S: seq<seq<Value>>, size: int, g: int): (r: seq<bool>)
    requires BoardShaped(S, size) && 0 <= g < 2 * size
    ensures |r| == size
  {
    seq(size, i requires 0 <= i < size => At(S, Group(size, g, i)) != Empty)
  }

  /** Line `g` holds `nAlpha` letters, no letter twice. */
  ghost predicate LineSolved(S: seq<seq<Value>>, size: int, nAlpha: int, g: int)
    requires BoardShaped(S, size) && 0 <= g < 2 * size
  {
    CountTrue(LetterFlags(S, size, g)) == nAlpha
    && forall i, j :: 0 <= i < j < size && At(S, Group(size, g, i)) != Empty ==>
         At(S, Group(size, g, i)) != At(S, Group(size, g, j))
  }

  /**
   * A solved Endview board without its clues: every cell is empty or one
   * of the `nAlpha` letters, and every row and column holds each letter
   * exactly once, which is: `nAlpha` letters, none of them twice.
   */
  ghost predicate Solution(S: seq<seq<Value>>, size: int, nAlpha: int) {
    BoardShaped(S, size)
    && (forall c {:trigger At(S, c)} :: InBoard(size, c) ==> At(S, c) == Empty || 0 <= At(S, c).v < nAlpha)
    && (forall g :: 0 <= g < 2 * size ==> LineSolved(S, size, nAlpha, g))
  }

  /** A solved cell `a` is allowed by value `v` and candidates `k`. */
  ghost predicate Fits(a: Value, v: Value, k: Cand)
    requires WellFormed(k)
  {
    if a == Empty then v == Undecided || v == Empty
    else IsLetterValue(a) && IsSet(k, a.v) && (v == Undecided || v == Some || v == a)
  }

  /** The snapshot allows the solved board: every cell fits, and no inconsistency was found. */
  ghost predicate Allows(S: seq<seq<Value>>, s: Snapshot)
    requires Shaped(s) && BoardShaped(S, s.size)
  {
    !s.inconsistent && forall c {:trigger CellFits(S, s, c)} :: InBoard(s.size, c) ==> CellFits(S, s, c)
  }

  /** Cell `c` of the solved board fits cell `c` of the snapshot. */
  ghost predicate CellFits(S: seq<seq<Value>>, s: Snapshot, c: Coord)
    requires Shaped(s) && BoardShaped(S, s.size) && InBoard(s.size, c)
  {
    Fits(At(S, c), V(s, c), Cd(s, c))
  }

  /** `S` solves the board and `s` still allows it. */
  ghost predicate Sound(S: seq<seq<Value>>, s: Snapshot) {
    Shaped(s) && Solution(S, s.size, s.nAlpha) && Allows(S, s)
  }

  /** A value the solved cell `a` agrees with. `UNDECIDED` says nothing, and agrees with none. */
  predicate Agrees(a: Value, v: Value) {
    if v == Empty then a == Empty
    else if v == Some then a != Empty
    else IsLetterValue(v) && a == v
  }

  /** A limit that keeps the solved cell's letter. */
  ghost predicate Keeps(a: Value, lim: Cand)
    requires WellFormed(lim)
  {
    a != Empty ==> IsLetterValue(a) && IsSet(lim, a.v)
  }

  /**
   * Counting: when `a` implies `b` cell by cell, `a` counts no more, and
   * when both count the same, `b` implies `a` too.
   */
  lemma {:induction false} CountImplies(a: seq<bool>, b: seq<bool>)
    requires |a| == |b| && forall i :: 0 <= i < |a| && a[i] ==> b[i]
    ensures CountTrue(a) <= CountTrue(b)
    ensures CountTrue(a) == CountTrue(b) ==> forall i :: 0 <= i < |a| && b[i] ==> a[i]
  {
    if |a| > 0 {
      var n := |a| - 1;
      CountImplies(a[..n], b[..n]);
      forall i | 0 <= i < |a| && b[i] ensures a[i] || CountTrue(a) < CountTrue(b) {
        if i < n {
          assert b[..n][i] == b[i] && a[..n][i] == a[i];
        }
      }
    }
  }

  /** The cells with and without a flag add up to the line. */
  lemma {:induction false} CountComplement(a: seq<bool>, b: seq<bool>)
    requires |a| == |b| && forall i :: 0 <= i < |a| ==> b[i] == !a[i]
    ensures CountTrue(a) + CountTrue(b) == |a|
  {
    if |a| > 0 {
      var n := |a| - 1;
      CountComplement(a[..n], b[..n]);
    }
  }

  // ---- the effect of a step on a solved board ----

  /** Taking a value the solved board agrees with keeps it allowed. */
  lemma AllowsWithValue(S: seq<seq<Value>>, s: Snapshot, c: Coord, v: Value)
    requires Sound(S, s) && InBoard(s.size, c) && ValueOk(v) && Agrees(At(S, c), v)
    ensures Sound(S, WithValue(s, c, v))
  {
    var t := WithValue(s, c, v);
    forall d {:trigger CellFits(S, t, d)} | InBoard(s.size, d) ensures CellFits(S, t, d) {
      assert CellFits(S, s, d);
    }
  }

  /** Narrowing by a limit that keeps the solved board's letter keeps it allowed. */
  lemma AllowsWithCand(S: seq<seq<Value>>, s: Snapshot, c: Coord, lim: Cand)
    requires Sound(S, s) && InBoard(s.size, c) && WellFormed(lim) && Keeps(At(S, c), lim)
    ensures Sound(S, WithCand(s, c, Inter(Cd(s, c), lim)))
    ensures Inter(Cd(s, c), lim) == NoCand() ==> At(S, c) == Empty
  {
    var k := Inter(Cd(s, c), lim);
    var t := WithCand(s, c, k);
    assert CellFits(S, s, c);
    if At(S, c) != Empty {
      SetOperations(Cd(s, c), lim, At(S, c).v);
      Members(At(S, c).v, At(S, c).v);
    }
    forall d {:trigger CellFits(S, t, d)} | InBoard(s.size, d) ensures CellFits(S, t, d) {
      assert CellFits(S, s, d);
    }
  }

  /** A cell of a solved line with a letter holds the only copy of that letter in the line. */
  lemma LetterOnce(S: seq<seq<Value>>, size: int, nAlpha: int, g: int, i: int, j: int)
    requires Solution(S, size, nAlpha) && 0 <= g < 2 * size && 0 <= i < size && 0 <= j < size && i != j
    requires At(S, Group(size, g, i)) != Empty
    ensures At(S, Group(size, g, i)) != At(S, Group(size, g, j))
  {
    assert LineSolved(S, size, nAlpha, g);
  }

  /** Which cells of line `g` are empty. */
  function EmptyCellFlags(S: seq<seq<Value>>, size: int, g: int): (r: seq<bool>)
    requires BoardShaped(S, size) && 0 <= g < 2 * size
    ensures |r| == size
  {
    seq(size, i requires 0 <= i < size => At(S, Group(size, g, i)) == Empty)
  }

  /** Every row and column holds `size - nAlpha` empty cells. */
  lemma EmptyCount(S: seq<seq<Value>>, size: int, nAlpha: int, g: int)
    requires Solution(S, size, nAlpha) && 0 <= g < 2 * size
    ensures CountTrue(EmptyCellFlags(S, size, g)) == size - nAlpha
  {
    assert LineSolved(S, size, nAlpha, g);
    CountComplement(LetterFlags(S, size, g), EmptyCellFlags(S, size, g));
  }

  /** With one letter left, `smallest_set_cand` names it. */
  lemma OnlyLetter(k: Cand, a: int)
    requires WellFormed(k) && IsLetter(a) && IsSet(k, a) && CountSetCands(k) == 1
    ensures SmallestSetCand(k) == a
  {
    var m := SmallestSetCand(k);
    Members(a, a);
    SmallestSetCandSpec(k);
    assert m < Width;
    if m != a {
      assert m < a;
      forall n | IsLetter(n) && IsSet(Singleton(m), n) ensures IsSet(k, n) {
        Members(m, n);
      }
      Members(m, a);
      CountWithin(Singleton(m), k, Width);
      SingletonCount(m);
    }
  }

  /** An intersection lies within both sets. */
  lemma NarrowedWithin(k: Cand, a: Cand, lim: Cand)
    requires WellFormed(a) && WellFormed(lim) && k == Inter(a, lim)
    ensures Within(k, lim) && Within(k, a)
  {
    forall n | IsLetter(n) ensures IsSet(k, n) <==> IsSet(a, n) && IsSet(lim, n) {
      SetOperations(a, lim, n);
    }
  }

  lemma WithinTrans(a: Cand, b: Cand, c: Cand)
    requires WellFormed(a) && WellFormed(b) && WellFormed(c) && Within(a, b) && Within(b, c)
    ensures Within(a, c)
  {
  }

  // ---- the guard of `decide` ----

  /** What `decide` does with the value a cell already holds: set it, keep it, or report an inconsistency. */
  datatype Step = Proceed | Keep | Conflict

  /** The guard as `decide` writes it: only an undecided cell takes a value, and any other value clashes. */
  function DecideStepAsWritten(current: Value, val: Value): (r: Step)
    ensures r == Proceed <==> current == Undecided
    ensures r == Keep <==> current != Undecided && current == val
  {
    if current != Undecided then (if current != val then Conflict else Keep) else Proceed
  }

  /**
   * The guard as the propagation needs it: a `SOME` cell also takes a
   * letter, which is exactly what `inspect_cell` asks of it, and a
   * lettered cell already is `SOME`.
   */
  function DecideStep(current: Value, val: Value): (r: Step)
    ensures r == Proceed <==> current == Undecided || (current == Some && IsLetterValue(val))
    ensures r == Keep <==> current != Undecided && (current == val || (IsLetterValue(current) && val == Some))
  {
    if current == Undecided || (current == Some && IsLetterValue(val)) then Proceed
    else if current == val || (IsLetterValue(current) && val == Some) then Keep
    else Conflict
  }

  /** A step only reports a conflict when no solved board that the value agrees with is still allowed. */
  lemma ConflictRulesOut(S: seq<seq<Value>>, s: Snapshot, c: Coord, val: Value)
    requires Sound(S, s) && InBoard(s.size, c) && Agrees(At(S, c), val)
    ensures DecideStep(V(s, c), val) != Conflict
  {
    assert CellFits(S, s, c);
  }

  /** A proceeding step with a value other than `UNDECIDED` lowers the measure. */
  lemma ProceedDrops(s: Snapshot, c: Coord, val: Value)
    requires Shaped(s) && InBoard(s.size, c) && ValueOk(val) && val != Undecided
    requires DecideStep(V(s, c), val) == Proceed
    ensures Follows(s, WithValue(s, c, val)) && Measure(WithValue(s, c, val)) < Measure(s)
  {
    SetValueDrops(s, c, val);
  }

  /**
   * `Field::empty_board(1, 1)` followed by `decide((0, 0), SOME)` reaches
   * this state, and its one solved board, the letter 0, is still allowed.
   * `inspect_cell` then decides the cell's only letter, and the guard as
   * written turns that into an inconsistency.
   */
  lemma AsWrittenRejectsSolution()
    ensures Sound([[Value(0)]], Snapshot(1, 1, [[Some]], [[FirstLetters(1)]], false))
    ensures CountSetCands(FirstLetters(1)) == 1 && SmallestSetCand(FirstLetters(1)) == 0
    ensures DecideStepAsWritten(Some, Value(0)) == Conflict
    ensures DecideStep(Some, Value(0)) == Proceed
  {
    var S := [[Value(0)]];
    var s := Snapshot(1, 1, [[Some]], [[FirstLetters(1)]], false);
    Members(1, 0);
    CountBelowFirstLetters(1, Width);
    forall c {:trigger CellFits(S, s, c)} | InBoard(1, c) ensures CellFits(S, s, c) {
      assert c.y == 0 && c.x == 0;
    }
    forall c {:trigger At(S, c)} | InBoard(1, c) ensures At(S, c) == Empty || 0 <= At(S, c).v < 1 {
      assert c.y == 0 && c.x == 0;
    }
    OnlyLetter(FirstLetters(1), 0);
    forall g | 0 <= g < 2 ensures LineSolved(S, 1, 1, g) {
      assert LetterFlags(S, 1, g) == [true];
      assert CountTrue([true]) == CountTrue([]) + 1;
    }
  }

  // ---- the empty board ----

  /** `Field::empty_board`: every cell undecided, with the first `nAlpha` letters. */
  function EmptySnapshot(size: int, nAlpha: int): (s: Snapshot)
    requires size >= 0 && 0 <= nAlpha < Width
    ensures Shaped(s) && s.size == size && s.nAlpha == nAlpha && !s.inconsistent
  {
    Snapshot(size, nAlpha, seq(size, _ => seq(size, _ => Undecided)),
             seq(size, _ => seq(size, _ => FirstLetters(nAlpha))), false)
  }

  /** The empty board allows every solved board of its size and letters. */
  lemma EmptyAllowsAll(S: seq<seq<Value>>, size: int, nAlpha: int)
    requires size >= 0 && 0 <= nAlpha < Width && Solution(S, size, nAlpha)
    ensures Sound(S, EmptySnapshot(size, nAlpha))
  {
    var s := EmptySnapshot(size, nAlpha);
    forall c {:trigger CellFits(S, s, c)} | InBoard(size, c) ensures CellFits(S, s, c) {
      if At(S, c) != Empty {
        Members(nAlpha, At(S, c).v);
      }
    }
  }

  // ---- counting a line ----

  /** Which cells of line `g` hold `SOME` or a letter. */
  function SomeFlags(s: Snapshot, g: int): (r: seq<bool>)
    requires Shaped(s) && 0 <= g < 2 * s.size
    ensures |r| == s.size
  {
    seq(s.size, i requires 0 <= i < s.size => V(s, Group(s.size, g, i)) != Empty && V(s, Group(s.size, g, i)) != Undecided)
  }

  /** Which cells of line `g` are decided empty. */
  function EmptyFlags(s: Snapshot, g: int): (r: seq<bool>)
    requires Shaped(s) && 0 <= g < 2 * s.size
    ensures |r| == s.size
  {
    seq(s.size, i requires 0 <= i < s.size => V(s, Group(s.size, g, i)) == Empty)
  }

  /**
   * `inspect_row`'s two rules: with `nAlpha` cells of line `g` holding a
   * letter or `SOME`, the rest are `EMPTY`; with `size - nAlpha` empty
   * cells, the rest are `SOME`.
   */
  ghost predicate LineForces(s: Snapshot, g: int, v: Value)
    requires Shaped(s) && 0 <= g < 2 * s.size
  {
    (v == Empty && CountTrue(SomeFlags(s, g)) == s.nAlpha)
    || (v == Some && CountTrue(EmptyFlags(s, g)) == s.size - s.nAlpha)
  }

  /** None of the first `k` cells of line `g` is undecided. */
  ghost predicate LineDecided(s: Snapshot, g: int, k: int)
    requires Shaped(s) && 0 <= g < 2 * s.size && k <= s.size
  {
    forall i :: 0 <= i < k ==> V(s, Group(s.size, g, i)) != Undecided
  }

  /** A decided cell stays decided. */
  lemma DecidedFollows(s: Snapshot, t: Snapshot, g: int, k: int)
    requires Follows(s, t) && 0 <= g < 2 * s.size && k <= s.size && LineDecided(s, g, k)
    ensures LineDecided(t, g, k)
  {
    forall i | 0 <= i < k {
      FollowsCell(s, t, Group(s.size, g, i));
    }
  }

  /** The value a forced cell takes agrees with every allowed solved board. */
  lemma ForcedAgrees(S: seq<seq<Value>>, s: Snapshot, t: Snapshot, g: int, i: int, v: Value)
    requires Sound(S, s) && Follows(s, t) && 0 <= g < 2 * s.size && 0 <= i < s.size
    requires LineForces(s, g, v) && V(t, Group(s.size, g, i)) == Undecided
    ensures Agrees(At(S, Group(s.size, g, i)), v)
  {
    if v == Empty && CountTrue(SomeFlags(s, g)) == s.nAlpha {
      FullLineEmpty(S, s, t, g, i);
    } else {
      FullLineSome(S, s, t, g, i);
    }
  }

  /**
   * A line that already holds `nAlpha` cells with a letter or `SOME`
   * has no letter elsewhere: a cell still undecided is empty in every
   * allowed solved board.
   */
  lemma FullLineEmpty(S: seq<seq<Value>>, s: Snapshot, t: Snapshot, g: int, i: int)
    requires Sound(S, s) && Follows(s, t) && 0 <= g < 2 * s.size && 0 <= i < s.size
    requires CountTrue(SomeFlags(s, g)) == s.nAlpha && V(t, Group(s.size, g, i)) == Undecided
    ensures At(S, Group(s.size, g, i)) == Empty
  {
    var a := SomeFlags(s, g);
    var b := LetterFlags(S, s.size, g);
    forall j | 0 <= j < s.size && a[j] ensures b[j] {
      assert CellFits(S, s, Group(s.size, g, j));
    }
    assert LineSolved(S, s.size, s.nAlpha, g);
    FollowsCell(s, t, Group(s.size, g, i));
    CountImplies(a, b);
    assert !a[i];
  }

  /**
   * A line that already holds `size - nAlpha` empty cells has no empty
   * cell elsewhere: a cell still undecided holds a letter in every
   * allowed solved board.
   */
  lemma FullLineSome(S: seq<seq<Value>>, s: Snapshot, t: Snapshot, g: int, i: int)
    requires Sound(S, s) && Follows(s, t) && 0 <= g < 2 * s.size && 0 <= i < s.size
    requires CountTrue(EmptyFlags(s, g)) == s.size - s.nAlpha && V(t, Group(s.size, g, i)) == Undecided
    ensures At(S, Group(s.size, g, i)) != Empty
  {
    var a := EmptyFlags(s, g);
    var b := EmptyCellFlags(S, s.size, g);
    forall j | 0 <= j < s.size && a[j] ensures b[j] {
      assert CellFits(S, s, Group(s.size, g, j));
    }
    EmptyCount(S, s.size, s.nAlpha, g);
    FollowsCell(s, t, Group(s.size, g, i));
    CountImplies(a, b);
    assert !a[i];
  }

  /** Line `g` of `cell` is its row (`cell.y`) or its column (`cell.x + size`). */
  predicate LineOf(size: int, cell: Coord, g: int) {
    g == cell.y || g == cell.x + size
  }

  /** Letter `v` is in none of the first `k` cells of line `g` but `cell` itself. */
  ghost predicate LineGone(s: Snapshot, cell: Coord, v: int, g: int, k: int)
    requires Shaped(s) && 0 <= g < 2 * s.size && IsLetter(v) && k <= s.size
  {
    forall i {:trigger CellGone(s, cell, v, g, i)} :: 0 <= i < k ==> CellGone(s, cell, v, g, i)
  }

  /** Cell `i` of line `g` is `cell`, or has lost letter `v`. */
  ghost predicate CellGone(s: Snapshot, cell: Coord, v: int, g: int, i: int)
    requires Shaped(s) && 0 <= g < 2 * s.size && IsLetter(v)
  {
    0 <= i < s.size ==> Group(s.size, g, i) != cell ==> !IsSet(Cd(s, Group(s.size, g, i)), v)
  }

  /** A removed letter stays removed. */
  lemma GoneFollows(s: Snapshot, t: Snapshot, cell: Coord, v: int, g: int, k: int)
    requires Follows(s, t) && 0 <= g < 2 * s.size && IsLetter(v) && k <= s.size
    requires LineGone(s, cell, v, g, k)
    ensures LineGone(t, cell, v, g, k)
  {
    forall i {:trigger CellGone(t, cell, v, g, i)} | 0 <= i < k ensures CellGone(t, cell, v, g, i) {
      assert CellGone(s, cell, v, g, i);
      FollowsCell(s, t, Group(s.size, g, i));
    }
  }

  /** Cell `k` of the line losing the letter, or being `cell`, extends the removal by one. */
  lemma GoneStep(s: Snapshot, cell: Coord, v: int, g: int, k: int)
    requires Shaped(s) && 0 <= g < 2 * s.size && IsLetter(v) && 0 <= k < s.size && LineGone(s, cell, v, g, k)
    requires Group(s.size, g, k) == cell || Within(Cd(s, Group(s.size, g, k)), Complement(Singleton(v)))
    ensures LineGone(s, cell, v, g, k + 1)
  {
    SetOperations(Singleton(v), Singleton(v), v);
    Members(v, v);
    forall i {:trigger CellGone(s, cell, v, g, i)} | 0 <= i < k + 1 ensures CellGone(s, cell, v, g, i) {
      if i < k {
        assert CellGone(s, cell, v, g, i);
      }
    }
  }

  /** Cell `cell` keeps only letter `v`, and no other cell of its column or its row keeps `v`. */
  ghost predicate LetterStruck(s: Snapshot, cell: Coord, v: int)
    requires Shaped(s) && InBoard(s.size, cell) && IsLetter(v)
  {
    Within(Cd(s, cell), Singleton(v))
    && LineGone(s, cell, v, cell.x + s.size, s.size) && LineGone(s, cell, v, cell.y, s.size)
  }

  /** The letter branch of `decide`, chained over its three steps: the cell's own limit, its column, its row. */
  lemma LetterChain(s1: Snapshot, s2: Snapshot, s3: Snapshot, s4: Snapshot, cell: Coord, v: int)
    requires Follows(s1, s2) && Follows(s2, s3) && Follows(s3, s4) && InBoard(s1.size, cell) && IsLetter(v)
    requires Within(Cd(s2, cell), Singleton(v))
    requires LineGone(s3, cell, v, cell.x + s1.size, s1.size) && LineGone(s4, cell, v, cell.y, s1.size)
    ensures Follows(s1, s4) && LetterStruck(s4, cell, v)
  {
    FollowsTrans(s2, s3, s4);
    FollowsTrans(s1, s2, s4);
    GoneFollows(s3, s4, cell, v, cell.x + s1.size, s1.size);
    FollowsCell(s2, s4, cell);
  }

  /** A letter's own singleton keeps it. */
  lemma KeepsOwn(a: Value, val: Value)
    requires IsLetterValue(val) && Agrees(a, val)
    ensures Keeps(a, Singleton(val.v))
  {
    Members(val.v, val.v);
  }

  /** The other cells of a letter's row and column lose that letter without losing a solved board. */
  lemma KeepsOthers(S: seq<seq<Value>>, s: Snapshot, c: Coord, d: Coord, val: Value)
    requires Sound(S, s) && InBoard(s.size, c) && InBoard(s.size, d) && IsLetterValue(val) && Agrees(At(S, c), val)
    requires d != c && (d.y == c.y || d.x == c.x)
    ensures Keeps(At(S, d), Complement(Singleton(val.v)))
  {
    if d.y == c.y {
      LetterOnce(S, s.size, s.nAlpha, c.y, c.x, d.x);
    } else {
      LetterOnce(S, s.size, s.nAlpha, c.x + s.size, c.y, d.y);
    }
    if At(S, d) != Empty {
      SetOperations(Singleton(val.v), Singleton(val.v), At(S, d).v);
      Members(val.v, At(S, d).v);
    }
  }
}
