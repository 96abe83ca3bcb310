/**
 * The pattern dictionaries of Tapa (src/tapa/dictionary.rs). The eight
 * neighbours of a clue cell, clockwise from the upper left, form a
 * pattern; a pattern of undecided, black and white cells is a base-3
 * number, and `Dictionary::new` tabulates, for every clue kind and every
 * pattern, what all completions of the pattern that satisfy the clue
 * agree on.
 */
module TapaDictionary {
  import opened Wrappers
  import opened TapaBase

  const NeighborSize: nat := 8
  /** `3^8`, the number of neighbour patterns. */
  const PatternCount: nat := 6561
  const Inconsistent: bv32 := 0xffff_ffff

  // ---- the base-3 code of a pattern ----

  /** The digit of a cell: undecided 0, black 1, white 2. */
  function Digit(c: Cell): nat {
    match c
    case Undecided => 0
    case Black => 1
    case White => 2
  }

  function CellOf(d: nat): Cell
    requires d < 3
  {
    if d == 0 then Undecided else if d == 1 then Black else White
  }

  function Pow3(n: nat): (p: nat)
    ensures p >= 1
  {
    if n == 0 then 1 else 3 * Pow3(n - 1)
  }

  /** The number a pattern stands for: cell `i` is its base-3 digit `i`, least significant first. */
  function Encode(pat: seq<Cell>): nat {
    if pat == [] then 0 else Digit(pat[0]) + 3 * Encode(pat[1..])
  }

  /** The first `n` base-3 digits of `v`, least significant first, as cells. */
  function Decode(v: nat, n: nat): (r: seq<Cell>)
    ensures |r| == n
  {
    if n == 0 then [] else [CellOf(v % 3)] + Decode(v / 3, n - 1)
  }

  lemma {:induction false} EncodeBound(pat: seq<Cell>)
    ensures Encode(pat) < Pow3(|pat|)
  {
    if pat != [] {
      EncodeBound(pat[1..]);
    }
  }

  /** Decoding the code of a pattern gives the pattern back. */
  lemma {:induction false} DecodeEncode(pat: seq<Cell>)
    ensures Decode(Encode(pat), |pat|) == pat
  {
    if pat != [] {
      var v := Encode(pat);
      assert v % 3 == Digit(pat[0]) && v / 3 == Encode(pat[1..]);
      DecodeEncode(pat[1..]);
    }
  }

  /** Encoding the first `n` digits of a number below `3^n` gives the number back. */
  lemma {:induction false} EncodeDecode(v: nat, n: nat)
    requires v < Pow3(n)
    ensures Encode(Decode(v, n)) == v
  {
    if n > 0 {
      EncodeDecode(v / 3, n - 1);
      assert Decode(v, n)[1..] == Decode(v / 3, n - 1);
    }
  }

  /** Setting cell `p` changes the code by its digit's change times `3^p`. */
  lemma {:induction false} EncodeUpdate(pat: seq<Cell>, p: nat, c: Cell)
    requires p < |pat|
    ensures Encode(pat[p := c]) == Encode(pat) + Pow3(p) * Digit(c) - Pow3(p) * Digit(pat[p])
  {
    if p > 0 {
      assert pat[p := c][1..] == pat[1..][p - 1 := c];
      EncodeUpdate(pat[1..], p - 1, c);
    } else {
      assert pat[p := c][1..] == pat[1..];
    }
  }

  /** Appending a cell adds its digit times the next power of 3. */
  lemma {:induction false} EncodeSnoc(pat: seq<Cell>, c: Cell)
    ensures Encode(pat + [c]) == Encode(pat) + Pow3(|pat|) * Digit(c)
  {
    if pat == [] {
      assert Encode([c]) == Digit(c) + 3 * Encode([]);
    } else {
      assert (pat + [c])[1..] == pat[1..] + [c];
      EncodeSnoc(pat[1..], c);
      assert 3 * (Pow3(|pat| - 1) * Digit(c)) == Pow3(|pat|) * Digit(c);
    }
  }

  /** `pattern_to_id`: the code of the first eight cells, summed digit by digit. */
  method PatternToId(pat: seq<Cell>) returns (id: nat)
    requires |pat| >= NeighborSize
    ensures id == Encode(pat[..NeighborSize]) && id < PatternCount
  {
    var ret, pow := 0, 1;
    var i := 0;
    while i < NeighborSize
      invariant 0 <= i <= NeighborSize && pow == Pow3(i)
      invariant ret == Encode(pat[..i])
    {
      assert pat[..i + 1] == pat[..i] + [pat[i]];
      EncodeSnoc(pat[..i], pat[i]);
      ret := ret + pow * Digit(pat[i]);
      pow := pow * 3;
      i := i + 1;
    }
    EncodeBound(pat[..NeighborSize]);
    id := ret;
  }

  /** `id_to_pattern`: the eight base-3 digits of `pat_id as u32`. */
  method IdToPattern(patId: nat) returns (ret: seq<Cell>)
    ensures ret == Decode(patId % 0x1_0000_0000, NeighborSize)
  {
    var v: nat := patId % 0x1_0000_0000;
    ghost var v0 := v;
    ret := [];
    var i := 0;
    while i < NeighborSize
      invariant 0 <= i <= NeighborSize && |ret| == i
      invariant ret + Decode(v, NeighborSize - i) == Decode(v0, NeighborSize)
    {
      assert Decode(v, NeighborSize - i) == [CellOf(v % 3)] + Decode(v / 3, NeighborSize - i - 1);
      assert ret + ([CellOf(v % 3)] + Decode(v / 3, NeighborSize - i - 1)) == (ret + [CellOf(v % 3)]) + Decode(v / 3, NeighborSize - i - 1);
      ret := ret + [CellOf(v % 3)];
      v := v / 3;
      i := i + 1;
    }
  }

  // ---- the runs of black cells around a clue ----

  function CountOf(s: seq<Cell>, c: Cell): (n: nat)
    ensures n <= |s|
  {
    if s == [] then 0 else (if s[0] == c then 1 else 0) + CountOf(s[1..], c)
  }

  /** The first cell that is not black, if any. */
  function FirstNonBlack(pat: seq<Cell>): (r: Option<nat>)
    ensures r.Some? ==> r.value < |pat| && pat[r.value] != Black && forall j :: 0 <= j < r.value ==> pat[j] == Black
    ensures r.None? ==> forall j :: 0 <= j < |pat| ==> pat[j] == Black
  {
    if pat == [] then None
    else if pat[0] != Black then Some(0)
    else match FirstNonBlack(pat[1..]) {
      case None => None
      case Some(k) => Some(k + 1)
    }
  }

  /** The ring read from cell `top` on: `pattern[(i + top) % 8]` for `i` in order. */
  function Rotate(pat: seq<Cell>, top: nat): seq<Cell>
    requires top <= |pat|
  {
    pat[top..] + pat[..top]
  }

  /**
   * The lengths of the maximal runs of black cells of `s` in order, where
   * a run of `len` black cells is already open before `s`.
   */
  function RunsFrom(s: seq<Cell>, len: nat): (r: seq<int>)
    ensures forall k :: 0 <= k < |r| ==> r[k] >= 1
  {
    if s == [] then (if len > 0 then [len] else [])
    else if s[0] == Black then RunsFrom(s[1..], len + 1)
    else (if len > 0 then [len] else []) + RunsFrom(s[1..], 0)
  }

  /**
   * `neighbor_chain`: the sorted lengths of the runs of black cells around
   * the ring; eight black cells are one run of 8.
   */
  function Chain(pat: seq<Cell>): seq<int> {
    match FirstNonBlack(pat)
    case None => [NeighborSize]
    case Some(top) => Sort(RunsFrom(Rotate(pat, top), 0))
  }

  /** One cell of the runs: a black cell extends the open run, any other closes it. */
  lemma RunsStep(s: seq<Cell>, len: nat)
    requires s != []
    ensures s[0] == Black ==> RunsFrom(s, len) == RunsFrom(s[1..], len + 1)
    ensures s[0] != Black ==> RunsFrom(s, len) == (if len > 0 then [len] else []) + RunsFrom(s[1..], 0)
  {
  }

  /** The loop of `neighbor_chain` over the rotated ring, with `ret` and `len` carried through. */
  method RingRuns(pat: seq<Cell>, top: nat) returns (ret: seq<int>)
    requires |pat| == NeighborSize && top < NeighborSize
    ensures ret == RunsFrom(Rotate(pat, top), 0)
  {
    ghost var ring := Rotate(pat, top);
    ret := [];
    var len := 0;
    var i := 0;
    while i < NeighborSize
      invariant 0 <= i <= NeighborSize
      invariant ret + RunsFrom(ring[i..], len) == RunsFrom(ring, 0)
    {
      var j := (i + top) % NeighborSize;
      assert ring[i] == pat[j];
      RunsStep(ring[i..], len);
      if pat[j] == Black {
        len := len + 1;
      } else {
        if len > 0 {
          ret := ret + [len];
          len := 0;
        }
      }
      i := i + 1;
    }
    assert ring[NeighborSize..] == [];
    if len > 0 {
      ret := ret + [len];
    }
  }

  /** `neighbor_chain` of the first eight cells of `pattern`. */
  method NeighborChain(pattern: seq<Cell>) returns (ret: seq<int>)
    requires |pattern| >= NeighborSize
    ensures ret == Chain(pattern[..NeighborSize])
  {
    ghost var pat := pattern[..NeighborSize];
    var top: Option<nat> := None;
    var i := 0;
    while i < NeighborSize
      invariant 0 <= i <= NeighborSize
      invariant forall j :: 0 <= j < i ==> pat[j] == Black
    {
      if pattern[i] != Black {
        top := Some(i);
        break;
      }
      i := i + 1;
    }
    assert top == FirstNonBlack(pat);
    match top {
      case Some(t) =>
        ret := RingRuns(pattern[..NeighborSize], t);
        ret := Sort(ret);
      case None =>
        ret := [NeighborSize];
    }
  }

  function Sum(s: seq<int>): int {
    if s == [] then 0 else s[0] + Sum(s[1..])
  }

  lemma {:induction false} SumConcat(a: seq<int>, b: seq<int>)
    ensures Sum(a + b) == Sum(a) + Sum(b)
  {
    if a != [] {
      assert (a + b)[1..] == a[1..] + b;
      SumConcat(a[1..], b);
    } else {
      assert a + b == b;
    }
  }

  lemma {:induction false} SumInsert(x: int, s: seq<int>)
    ensures Sum(Insert(x, s)) == x + Sum(s)
  {
    if s != [] && x > s[0] {
      SumInsert(x, s[1..]);
    }
  }

  lemma {:induction false} SumSort(s: seq<int>)
    ensures Sum(Sort(s)) == Sum(s)
  {
    if s != [] {
      SumSort(s[1..]);
      SumInsert(s[0], Sort(s[1..]));
    }
  }

  lemma {:induction false} CountConcat(a: seq<Cell>, b: seq<Cell>, c: Cell)
    ensures CountOf(a + b, c) == CountOf(a, c) + CountOf(b, c)
  {
    if a != [] {
      assert (a + b)[1..] == a[1..] + b;
      CountConcat(a[1..], b, c);
    } else {
      assert a + b == b;
    }
  }

  /** The runs from an open run of `len` hold `len` plus the black cells of `s`. */
  lemma {:induction false} RunsSum(s: seq<Cell>, len: nat)
    ensures Sum(RunsFrom(s, len)) == len + CountOf(s, Black)
  {
    if s != [] {
      if s[0] == Black {
        RunsSum(s[1..], len + 1);
      } else {
        RunsSum(s[1..], 0);
        SumConcat(if len > 0 then [len] else [], RunsFrom(s[1..], 0));
      }
    }
  }

  lemma {:induction false} AllBlackCount(s: seq<Cell>)
    requires forall j :: 0 <= j < |s| ==> s[j] == Black
    ensures CountOf(s, Black) == |s|
  {
    if s != [] {
      AllBlackCount(s[1..]);
    }
  }

  lemma RotateCount(pat: seq<Cell>, top: nat, c: Cell)
    requires top <= |pat|
    ensures CountOf(Rotate(pat, top), c) == CountOf(pat, c)
  {
    CountConcat(pat[top..], pat[..top], c);
    CountConcat(pat[..top], pat[top..], c);
    assert pat[..top] + pat[top..] == pat;
  }

  lemma SortPositive(s: seq<int>)
    requires forall k :: 0 <= k < |s| ==> s[k] >= 1
    ensures forall k :: 0 <= k < |Sort(s)| ==> Sort(s)[k] >= 1
  {
    SortSpec(s);
    forall k | 0 <= k < |Sort(s)|
      ensures Sort(s)[k] >= 1
    {
      assert Sort(s)[k] in multiset(s);
    }
  }

  /**
   * The chains of a ring of eight are ascending runs of at least one cell
   * each, and together they hold exactly its black cells.
   */
  lemma ChainSpec(pat: seq<Cell>)
    requires |pat| == NeighborSize
    ensures Ascending(Chain(pat))
    ensures forall k :: 0 <= k < |Chain(pat)| ==> Chain(pat)[k] >= 1
    ensures Sum(Chain(pat)) == CountOf(pat, Black)
  {
    match FirstNonBlack(pat) {
      case None =>
        assert Chain(pat) == [NeighborSize];
        AllBlackCount(pat);
      case Some(top) =>
        var runs := RunsFrom(Rotate(pat, top), 0);
        assert Chain(pat) == Sort(runs);
        SortSpec(runs);
        SortPositive(runs);
        SumSort(runs);
        RunsSum(Rotate(pat, top), 0);
        RotateCount(pat, top, Black);
    }
  }

  // ---- the entries of the neighbour table ----

  /** Bit `k` of a `u32`. */
  predicate Bit(x: bv32, k: bv32)
    requires k < 32
  {
    (x >> k) & 1 == 1
  }

  lemma BitAnd(a: bv32, b: bv32, k: bv32)
    requires k < 32
    ensures Bit(a & b, k) == (Bit(a, k) && Bit(b, k))
  {
  }

  lemma BitOr(a: bv32, b: bv32, k: bv32)
    requires k < 32
    ensures Bit(a | b, k) == (Bit(a, k) || Bit(b, k))
  {
  }

  lemma BitShift(c: bv32, m: bv32, k: bv32)
    requires k < 32 && m < 30 && (c == 1 || c == 2)
    ensures Bit(c << m, k) <==> (k == m && c == 1) || (k == m + 1 && c == 2)
  {
  }

  lemma BitOnes(k: bv32)
    requires k < 32
    ensures Bit(Inconsistent, k)
  {
  }

  /** `2 * i` as a shift amount: the lower of cell `i`'s two bits; cell 8 stands for bit 16, above them all. */
  function Pos(i: nat): (k: bv32)
    requires i <= NeighborSize
    ensures k <= 16 && k & 1 == 0
  {
    if i < 4 then (if i < 2 then (if i == 0 then 0 else 2) else (if i == 2 then 4 else 6))
    else if i < 8 then (if i < 6 then (if i == 4 then 8 else 10) else (if i == 6 then 12 else 14))
    else 16
  }

  /** Cells have their own bits: the two bits of different cells differ. */
  lemma PosApart(i: nat, j: nat)
    requires i <= NeighborSize && j <= NeighborSize
    ensures Pos(i) == Pos(j) <==> i == j
    ensures Pos(i) != Pos(j) + 1
    ensures Pos(i) + 1 == Pos(j) + 1 <==> i == j
  {
  }

  /** The two bits of a decided cell: black `01`, white `10`. */
  function Code(c: Cell): bv32
    requires c != Undecided
  {
    if c == Black then 1 else 2
  }

  predicate Decided(pat: seq<Cell>) {
    forall i :: 0 <= i < |pat| ==> pat[i] != Undecided
  }

  /** `pat_id_bin` after the first `n` cells: cell `i`'s code in bits `2i` and `2i + 1`. */
  function BinUpTo(pat: seq<Cell>, n: nat): bv32
    requires n <= |pat| && n <= NeighborSize && forall i :: 0 <= i < n ==> pat[i] != Undecided
  {
    if n == 0 then 0 else OrCode(BinUpTo(pat, n - 1), pat[n - 1], n - 1)
  }

  /** `bin | code << (2 * i)`. */
  function OrCode(bin: bv32, c: Cell, i: nat): bv32
    requires c != Undecided && i < NeighborSize
  {
    bin | (Code(c) << Pos(i))
  }

  /** Or-ing in a cell's code at shift `m` sets exactly bit `m` for black, `m + 1` for white. */
  lemma BinStep(a: bv32, c: bv32, m: bv32, k: bv32)
    requires k < 32 && m < 30 && (c == 1 || c == 2)
    ensures Bit(a | (c << m), k) <==> Bit(a, k) || (k == m && c == 1) || (k == m + 1 && c == 2)
  {
    if c == 1 {
      assert Bit(c << m, k) <==> k == m;
    } else {
      assert Bit(c << m, k) <==> k == m + 1;
    }
  }

  /** Or-ing in cell `j`'s code sets cell `i`'s low bit iff `i` is `j` and black. */
  lemma OrCodeBlack(a: bv32, c: Cell, j: nat, i: nat)
    requires c != Undecided && j < NeighborSize && i <= NeighborSize
    ensures Bit(OrCode(a, c, j), Pos(i)) <==> Bit(a, Pos(i)) || (i == j && c == Black)
  {
    BinStep(a, Code(c), Pos(j), Pos(i));
    PosApart(i, j);
    PosApart(j, i);
  }

  /** Or-ing in cell `j`'s code sets cell `i`'s high bit iff `i` is `j` and white. */
  lemma OrCodeWhite(a: bv32, c: Cell, j: nat, i: nat)
    requires c != Undecided && j < NeighborSize && i <= NeighborSize
    ensures Bit(OrCode(a, c, j), Pos(i) + 1) <==> Bit(a, Pos(i) + 1) || (i == j && c == White)
  {
    BinStep(a, Code(c), Pos(j), Pos(i) + 1);
    PosApart(i, j);
    PosApart(j, i);
  }

  /** The low bits of `pat_id_bin`: a cell before `n` is black iff its low bit is set; later cells' are clear. */
  lemma {:induction false} BinBlack(pat: seq<Cell>, n: nat, i: nat)
    requires n <= |pat| && n <= NeighborSize && forall i :: 0 <= i < n ==> pat[i] != Undecided
    requires i <= NeighborSize
    ensures Bit(BinUpTo(pat, n), Pos(i)) <==> i < n && pat[i] == Black
  {
    if n > 0 {
      BinBlack(pat, n - 1, i);
      OrCodeBlack(BinUpTo(pat, n - 1), pat[n - 1], n - 1, i);
    }
  }

  /** The high bits of `pat_id_bin`: a cell before `n` is white iff its high bit is set; later cells' are clear. */
  lemma {:induction false} BinWhite(pat: seq<Cell>, n: nat, i: nat)
    requires n <= |pat| && n <= NeighborSize && forall i :: 0 <= i < n ==> pat[i] != Undecided
    requires i <= NeighborSize
    ensures Bit(BinUpTo(pat, n), Pos(i) + 1) <==> i < n && pat[i] == White
  {
    if n > 0 {
      BinWhite(pat, n - 1, i);
      OrCodeWhite(BinUpTo(pat, n - 1), pat[n - 1], n - 1, i);
    }
  }

  /** The first undecided cell, if any. */
  function FirstUndecided(pat: seq<Cell>): (r: Option<nat>)
    ensures r.Some? ==> r.value < |pat| && pat[r.value] == Undecided && forall j :: 0 <= j < r.value ==> pat[j] != Undecided
    ensures r.None? ==> Decided(pat)
  {
    if pat == [] then None
    else if pat[0] == Undecided then Some(0)
    else match FirstUndecided(pat[1..]) {
      case None => None
      case Some(k) => Some(k + 1)
    }
  }

  /** Deciding an undecided cell leaves one undecided cell fewer. */
  lemma {:induction false} CountDecide(pat: seq<Cell>, p: nat, c: Cell)
    requires p < |pat| && pat[p] == Undecided && c != Undecided
    ensures CountOf(pat[p := c], Undecided) == CountOf(pat, Undecided) - 1
  {
    if p > 0 {
      assert pat[p := c][1..] == pat[1..][p - 1 := c];
      CountDecide(pat[1..], p - 1, c);
    } else {
      assert pat[p := c][1..] == pat[1..];
    }
  }

  /** The entry of a decided pattern: its code when its chains are the clue's runs, `DICTIONARY_INCONSISTENT` otherwise. */
  function Leaf(runs: seq<int>, pat: seq<Cell>): bv32
    requires |pat| == NeighborSize && Decided(pat)
  {
    if Chain(pat) == runs then BinUpTo(pat, NeighborSize) else Inconsistent
  }

  /**
   * The entry `Dictionary::new` computes for a pattern: a decided one is its
   * leaf, and one with an undecided cell is the AND of the entries with the
   * first undecided cell black and white.
   */
  function Entry(runs: seq<int>, pat: seq<Cell>): bv32
    requires |pat| == NeighborSize
    decreases CountOf(pat, Undecided)
  {
    match FirstUndecided(pat)
    case None => Leaf(runs, pat)
    case Some(p) =>
      CountDecide(pat, p, Black);
      CountDecide(pat, p, White);
      Entry(runs, pat[p := Black]) & Entry(runs, pat[p := White])
  }

  /** `c` decides every undecided cell of `pat` and keeps the others. */
  ghost predicate Completes(c: seq<Cell>, pat: seq<Cell>) {
    |c| == |pat| && Decided(c) && forall i :: 0 <= i < |pat| && pat[i] != Undecided ==> c[i] == pat[i]
  }

  /** A decided ring fits a clue whose runs are `runs`. */
  ghost predicate Fits(runs: seq<int>, c: seq<Cell>) {
    Chain(c) == runs
  }

  lemma DecidedCompletes(c: seq<Cell>, pat: seq<Cell>)
    requires Decided(pat) && Completes(c, pat)
    ensures c == pat
  {
  }

  /** The completions of a pattern with an undecided cell `p` are those with `p` black and those with `p` white. */
  lemma CompletesSplit(c: seq<Cell>, pat: seq<Cell>, p: nat)
    requires p < |pat| && pat[p] == Undecided
    ensures Completes(c, pat) <==> Completes(c, pat[p := Black]) || Completes(c, pat[p := White])
  {
    if Completes(c, pat) {
      assert c[p] == Black || c[p] == White;
    }
  }

  /** Bit `k` of an entry is set iff it is set in the leaf of every completion. */
  lemma {:induction false} EntryBit(runs: seq<int>, pat: seq<Cell>, k: bv32)
    requires |pat| == NeighborSize && k < 32
    ensures Bit(Entry(runs, pat), k) <==> forall c :: Completes(c, pat) ==> Bit(Leaf(runs, c), k)
    decreases CountOf(pat, Undecided)
  {
    match FirstUndecided(pat) {
      case None =>
        assert Completes(pat, pat);
        forall c | Completes(c, pat)
          ensures c == pat
        {
          DecidedCompletes(c, pat);
        }
      case Some(p) =>
        var pb, pw := pat[p := Black], pat[p := White];
        CountDecide(pat, p, Black);
        CountDecide(pat, p, White);
        EntryBit(runs, pb, k);
        EntryBit(runs, pw, k);
        BitAnd(Entry(runs, pb), Entry(runs, pw), k);
        forall c
          ensures Completes(c, pat) <==> Completes(c, pb) || Completes(c, pw)
        {
          CompletesSplit(c, pat, p);
        }
    }
  }

  /** An entry with no fitting completion is `DICTIONARY_INCONSISTENT`. */
  lemma {:induction false} EntryNoFit(runs: seq<int>, pat: seq<Cell>)
    requires |pat| == NeighborSize
    requires forall c :: Completes(c, pat) ==> !Fits(runs, c)
    ensures Entry(runs, pat) == Inconsistent
    decreases CountOf(pat, Undecided)
  {
    match FirstUndecided(pat) {
      case None =>
        assert Completes(pat, pat);
      case Some(p) =>
        var pb, pw := pat[p := Black], pat[p := White];
        CountDecide(pat, p, Black);
        CountDecide(pat, p, White);
        forall c | Completes(c, pb)
          ensures !Fits(runs, c)
        {
          CompletesSplit(c, pat, p);
        }
        forall c | Completes(c, pw)
          ensures !Fits(runs, c)
        {
          CompletesSplit(c, pat, p);
        }
        EntryNoFit(runs, pb);
        EntryNoFit(runs, pw);
    }
  }

  /** The leaf bits: a cell's low bit says black or no fit, its high bit white or no fit, and bit 16 no fit. */
  lemma LeafBits(runs: seq<int>, c: seq<Cell>, i: nat)
    requires |c| == NeighborSize && Decided(c) && i < NeighborSize
    ensures Bit(Leaf(runs, c), Pos(i)) <==> !Fits(runs, c) || c[i] == Black
    ensures Bit(Leaf(runs, c), Pos(i) + 1) <==> !Fits(runs, c) || c[i] == White
    ensures Bit(Leaf(runs, c), 16) <==> !Fits(runs, c)
  {
    BinBlack(c, NeighborSize, i);
    BinWhite(c, NeighborSize, i);
    BinBlack(c, NeighborSize, 8);
    assert Pos(8) == 16;
    BitOnes(Pos(i));
    BitOnes(Pos(i) + 1);
    BitOnes(16);
  }

  /**
   * An entry is `DICTIONARY_INCONSISTENT` exactly when no completion of the
   * pattern fits the clue.
   */
  lemma EntryInconsistent(runs: seq<int>, pat: seq<Cell>)
    requires |pat| == NeighborSize
    ensures Entry(runs, pat) == Inconsistent <==> forall c :: Completes(c, pat) ==> !Fits(runs, c)
  {
    if forall c :: Completes(c, pat) ==> !Fits(runs, c) {
      EntryNoFit(runs, pat);
    } else {
      var c :| Completes(c, pat) && Fits(runs, c);
      EntryBit(runs, pat, 16);
      LeafBits(runs, c, 0);
      BitOnes(16);
    }
  }

  /**
   * When some completion fits, bit `2i` of the entry says that every fitting
   * completion has cell `i` black, and bit `2i + 1` that every one has it white.
   */
  lemma EntryCell(runs: seq<int>, pat: seq<Cell>, i: nat)
    requires |pat| == NeighborSize && i < NeighborSize
    ensures Bit(Entry(runs, pat), Pos(i)) <==> forall c :: Completes(c, pat) && Fits(runs, c) ==> c[i] == Black
    ensures Bit(Entry(runs, pat), Pos(i) + 1) <==> forall c :: Completes(c, pat) && Fits(runs, c) ==> c[i] == White
  {
    EntryBit(runs, pat, Pos(i));
    EntryBit(runs, pat, Pos(i) + 1);
    forall c | Completes(c, pat)
      ensures Bit(Leaf(runs, c), Pos(i)) <==> !Fits(runs, c) || c[i] == Black
      ensures Bit(Leaf(runs, c), Pos(i) + 1) <==> !Fits(runs, c) || c[i] == White
    {
      LeafBits(runs, c, i);
    }
  }

  // ---- building the neighbour table ----

  lemma PatternCountPow()
    ensures Pow3(NeighborSize) == PatternCount
  {
  }

  /** Entry `id` of kind `ty`'s block of the neighbour table. */
  function TableEntry(kinds: seq<seq<int>>, ty: nat, id: nat): bv32
    requires ty < |kinds|
  {
    Entry(Pattern(kinds, ty), Decode(id, NeighborSize))
  }

  /** A table holds, in block `ty`, entry `id` at slot `ty * 6561 + id`. */
  ghost predicate IsNeighborTable(kinds: seq<seq<int>>, np: seq<bv32>) {
    && |np| == |kinds| * PatternCount
    && forall ty: nat, id: nat {:trigger TableEntry(kinds, ty, id)} :: ty < |kinds| && id < PatternCount ==>
         np[ty * PatternCount + id] == TableEntry(kinds, ty, id)
  }

  /** The undecided-cell scan of `Dictionary::new`: the first undecided cell of the eight. */
  method FindUndecided(pat: seq<Cell>) returns (r: Option<nat>)
    requires |pat| == NeighborSize
    ensures r == FirstUndecided(pat)
  {
    r := None;
    var i := 0;
    while i < NeighborSize
      invariant 0 <= i <= NeighborSize
      invariant forall j :: 0 <= j < i ==> pat[j] != Undecided
    {
      if pat[i] == Undecided {
        r := Some(i);
        return;
      }
      i := i + 1;
    }
  }

  /** `pat_id_bin`: cell `i`'s code or-ed in at bit `2i`. */
  method PatternBin(pat: seq<Cell>) returns (bin: bv32)
    requires |pat| == NeighborSize && Decided(pat)
    ensures bin == BinUpTo(pat, NeighborSize)
  {
    bin := 0;
    var i := 0;
    while i < NeighborSize
      invariant 0 <= i <= NeighborSize && bin == BinUpTo(pat, i)
    {
      bin := OrCode(bin, pat[i], i);
      i := i + 1;
    }
  }

  /** The entry of a decided pattern: its code when its chains equal the clue's runs. */
  method LeafEntry(runs: seq<int>, pat: seq<Cell>) returns (e: bv32)
    requires |pat| == NeighborSize && Decided(pat)
    ensures e == Leaf(runs, pat)
  {
    var chains := NeighborChain(pat);
    assert pat[..NeighborSize] == pat;
    if chains == runs {
      e := PatternBin(pat);
    } else {
      e := Inconsistent;
    }
  }

  /** Deciding an undecided cell of a pattern raises its code. */
  lemma DecideRaises(pat: seq<Cell>, p: nat, c: Cell)
    requires |pat| == NeighborSize && p < NeighborSize && pat[p] == Undecided && c != Undecided
    ensures Encode(pat) < Encode(pat[p := c]) < PatternCount
  {
    EncodeUpdate(pat, p, c);
    EncodeBound(pat[p := c]);
    PatternCountPow();
  }

  /**
   * One entry of block `ty`: a pattern with an undecided cell ANDs the two
   * entries with that cell decided, which have higher codes and so are
   * already in the table.
   */
  method FillEntry(kinds: seq<seq<int>>, ty: nat, patId: nat, a: array<bv32>)
    requires ty < |kinds| && patId < PatternCount && a.Length == |kinds| * PatternCount
    requires forall id: nat {:trigger TableEntry(kinds, ty, id)} :: patId < id < PatternCount ==>
      a[ty * PatternCount + id] == TableEntry(kinds, ty, id)
    modifies a
    ensures a[ty * PatternCount + patId] == TableEntry(kinds, ty, patId)
    ensures forall s :: 0 <= s < a.Length && s != ty * PatternCount + patId ==> a[s] == old(a[s])
  {
    var ofs := ty * PatternCount;
    var pat := IdToPattern(patId);
    assert patId % 0x1_0000_0000 == patId;
    PatternCountPow();
    EncodeDecode(patId, NeighborSize);
    var und := FindUndecided(pat);
    match und {
      case Some(p) =>
        var cand1 := ReadDecided(kinds, ty, pat, p, Black, a);
        var cand2 := ReadDecided(kinds, ty, pat, p, White, a);
        EntrySplit(Pattern(kinds, ty), pat, p);
        a[ofs + patId] := cand1 & cand2;
      case None =>
        var e := LeafEntry(Pattern(kinds, ty), pat);
        a[ofs + patId] := e;
    }
  }

  /** An entry with an undecided cell is the AND of the two entries with it decided. */
  lemma EntrySplit(runs: seq<int>, pat: seq<Cell>, p: nat)
    requires |pat| == NeighborSize && FirstUndecided(pat) == Some(p)
    ensures Entry(runs, pat) == Entry(runs, pat[p := Black]) & Entry(runs, pat[p := White])
  {
  }

  /** The entry of `pat` with cell `p` decided as `c`, read from the part of block `ty` already filled. */
  method ReadDecided(kinds: seq<seq<int>>, ty: nat, pat: seq<Cell>, p: nat, c: Cell, a: array<bv32>) returns (e: bv32)
    requires ty < |kinds| && a.Length == |kinds| * PatternCount
    requires |pat| == NeighborSize && p < NeighborSize && pat[p] == Undecided && c != Undecided
    requires forall id: nat {:trigger TableEntry(kinds, ty, id)} :: Encode(pat) < id < PatternCount ==>
      a[ty * PatternCount + id] == TableEntry(kinds, ty, id)
    ensures e == Entry(Pattern(kinds, ty), pat[p := c])
  {
    var id := DecidedId(pat, p, c);
    BlockSlot(ty, id, |kinds|);
    e := a[ty * PatternCount + id];
    assert e == TableEntry(kinds, ty, id);
  }

  /** The code of `pat` with cell `p` decided as `c`: a higher code than `pat`'s. */
  method DecidedId(pat: seq<Cell>, p: nat, c: Cell) returns (id: nat)
    requires |pat| == NeighborSize && p < NeighborSize && pat[p] == Undecided && c != Undecided
    ensures Encode(pat) < id < PatternCount && Decode(id, NeighborSize) == pat[p := c]
  {
    var q := pat[p := c];
    id := PatternToId(q);
    assert q[..NeighborSize] == q;
    DecideRaises(pat, p, c);
    DecodeEncode(q);
  }

  /** Block `ty` of the neighbour table, filled from the highest code down. */
  method FillBlock(kinds: seq<seq<int>>, ty: nat, a: array<bv32>)
    requires ty < |kinds| && a.Length == |kinds| * PatternCount
    modifies a
    ensures forall id: nat {:trigger TableEntry(kinds, ty, id)} :: id < PatternCount ==>
      a[ty * PatternCount + id] == TableEntry(kinds, ty, id)
    ensures forall s :: 0 <= s < a.Length && !(ty * PatternCount <= s < ty * PatternCount + PatternCount) ==> a[s] == old(a[s])
  {
    var k := 0;
    while k < PatternCount
      invariant 0 <= k <= PatternCount
      invariant forall id: nat {:trigger TableEntry(kinds, ty, id)} :: PatternCount - k <= id < PatternCount ==>
        a[ty * PatternCount + id] == TableEntry(kinds, ty, id)
      invariant forall s :: 0 <= s < a.Length && !(ty * PatternCount <= s < ty * PatternCount + PatternCount) ==> a[s] == old(a[s])
    {
      ghost var prev := a[..];
      FillEntry(kinds, ty, PatternCount - 1 - k, a);
      forall id: nat | PatternCount - (k + 1) <= id < PatternCount
        ensures a[ty * PatternCount + id] == TableEntry(kinds, ty, id)
      {
        if id != PatternCount - 1 - k {
          BlockSlot(ty, id, |kinds|);
          assert a[ty * PatternCount + id] == prev[ty * PatternCount + id];
        }
      }
      k := k + 1;
    }
  }

  /** The neighbour table of `Dictionary::new`, over a table of clue kinds. */
  method BuildNeighborPattern(kinds: seq<seq<int>>) returns (np: seq<bv32>)
    ensures IsNeighborTable(kinds, np)
  {
    var a := new bv32[|kinds| * PatternCount];
    var ty := 0;
    while ty < |kinds|
      invariant 0 <= ty <= |kinds|
      invariant forall t: nat, id: nat {:trigger TableEntry(kinds, t, id)} :: t < ty && id < PatternCount ==>
        a[t * PatternCount + id] == TableEntry(kinds, t, id)
    {
      ghost var before := a[..];
      FillBlock(kinds, ty, a);
      forall t: nat, id: nat | t < ty + 1 && id < PatternCount
        ensures a[t * PatternCount + id] == TableEntry(kinds, t, id)
      {
        if t < ty {
          BlockBefore(t, ty, id);
          assert a[t * PatternCount + id] == before[t * PatternCount + id];
        } else {
          assert t == ty;
        }
      }
      ty := ty + 1;
    }
    np := a[..];
  }

  /** Slots of an earlier block lie below block `ty`. */
  lemma BlockBefore(t: nat, ty: nat, id: nat)
    requires t < ty && id < PatternCount
    ensures t * PatternCount + id < ty * PatternCount
  {
  }

  // ---- the virtual-disconnection table ----

  /** Bit `i` as a shift amount, for the eight one-bit-per-cell masks. */
  function Low(i: nat): (k: bv32)
    requires i < NeighborSize
    ensures k < 8
  {
    if i < 4 then (if i < 2 then (if i == 0 then 0 else 1) else (if i == 2 then 2 else 3))
    else (if i < 6 then (if i == 4 then 4 else 5) else (if i == 6 then 6 else 7))
  }

  lemma LowApart(i: nat, j: nat)
    requires i < NeighborSize && j < NeighborSize
    ensures Low(i) == Low(j) <==> i == j
  {
  }

  lemma BitOne(m: bv32, k: bv32)
    requires k < 32 && m < 32
    ensures Bit(1 << m, k) <==> k == m
  {
  }

  /** The neighbour after cell `i`, clockwise. */
  function Next(i: nat): nat {
    (i + 1) % NeighborSize
  }

  /** `pat` with cells `i` and the one after it made black. */
  function Joined(pat: seq<Cell>, i: nat): seq<Cell>
    requires |pat| == NeighborSize && i < NeighborSize
  {
    pat[i := Black][Next(i) := Black]
  }

  /** Cells `i` and `i + 1` may both be black, and making them so leaves no entry. */
  predicate Disconnects(runs: seq<int>, pat: seq<Cell>, i: nat)
    requires |pat| == NeighborSize && i < NeighborSize
  {
    pat[i] != White && pat[Next(i)] != White && Entry(runs, Joined(pat, i)) == Inconsistent
  }

  /** The disconnection mask after the first `n` cells: bit `i` for each `i` that disconnects. */
  function DisconnectionUpTo(runs: seq<int>, pat: seq<Cell>, n: nat): bv32
    requires |pat| == NeighborSize && n <= NeighborSize
  {
    if n == 0 then 0
    else if Disconnects(runs, pat, n - 1) then DisconnectionUpTo(runs, pat, n - 1) | (1 << Low(n - 1))
    else DisconnectionUpTo(runs, pat, n - 1)
  }

  lemma {:induction false} DisconnectionBits(runs: seq<int>, pat: seq<Cell>, n: nat, i: nat)
    requires |pat| == NeighborSize && n <= NeighborSize && i < NeighborSize
    ensures Bit(DisconnectionUpTo(runs, pat, n), Low(i)) <==> i < n && Disconnects(runs, pat, i)
  {
    if n > 0 {
      DisconnectionBits(runs, pat, n - 1, i);
      var d := DisconnectionUpTo(runs, pat, n - 1);
      BitOr(d, 1 << Low(n - 1), Low(i));
      BitOne(Low(n - 1), Low(i));
      LowApart(i, n - 1);
    }
  }

  /**
   * Bit `i` of a pattern's disconnection mask is set exactly when neither
   * cell `i` nor the one after it is white and no completion of the pattern
   * with both of them black fits the clue.
   */
  lemma DisconnectionSpec(runs: seq<int>, pat: seq<Cell>, i: nat)
    requires |pat| == NeighborSize && i < NeighborSize
    ensures Bit(DisconnectionUpTo(runs, pat, NeighborSize), Low(i)) <==>
      pat[i] != White && pat[Next(i)] != White && forall c :: Completes(c, Joined(pat, i)) ==> !Fits(runs, c)
  {
    DisconnectionBits(runs, pat, NeighborSize, i);
    EntryInconsistent(runs, Joined(pat, i));
  }

  /** Entry `id` of kind `ty`'s block of the virtual-disconnection table. */
  function DisconnectionEntry(kinds: seq<seq<int>>, ty: nat, id: nat): bv32
    requires ty < |kinds|
  {
    DisconnectionUpTo(Pattern(kinds, ty), Decode(id, NeighborSize), NeighborSize)
  }

  ghost predicate IsDisconnectionTable(kinds: seq<seq<int>>, vd: seq<bv32>) {
    && |vd| == |kinds| * PatternCount
    && forall ty: nat, id: nat {:trigger DisconnectionEntry(kinds, ty, id)} :: ty < |kinds| && id < PatternCount ==>
         vd[ty * PatternCount + id] == DisconnectionEntry(kinds, ty, id)
  }

  /** The disconnection mask of pattern `pat` of block `ty`, looked up in the neighbour table. */
  method Disconnection(kinds: seq<seq<int>>, np: seq<bv32>, ty: nat, pat: seq<Cell>) returns (disc: bv32)
    requires IsNeighborTable(kinds, np) && ty < |kinds| && |pat| == NeighborSize
    ensures disc == DisconnectionUpTo(Pattern(kinds, ty), pat, NeighborSize)
  {
    disc := 0;
    var i := 0;
    while i < NeighborSize
      invariant 0 <= i <= NeighborSize && disc == DisconnectionUpTo(Pattern(kinds, ty), pat, i)
    {
      if pat[i] == White || pat[Next(i)] == White {
        i := i + 1;
        continue;
      }
      var q := Joined(pat, i);
      var id := PatternToId(q);
      assert q[..NeighborSize] == q;
      DecodeEncode(q);
      assert np[ty * PatternCount + id] == TableEntry(kinds, ty, id);
      if np[ty * PatternCount + id] == Inconsistent {
        disc := disc | (1 << Low(i));
      }
      i := i + 1;
    }
  }

  /** Block `ty` of the virtual-disconnection table. */
  method FillDisconnectionBlock(kinds: seq<seq<int>>, np: seq<bv32>, ty: nat, a: array<bv32>)
    requires IsNeighborTable(kinds, np) && ty < |kinds| && a.Length == |kinds| * PatternCount
    modifies a
    ensures forall id: nat {:trigger DisconnectionEntry(kinds, ty, id)} :: id < PatternCount ==>
      a[ty * PatternCount + id] == DisconnectionEntry(kinds, ty, id)
    ensures forall s :: 0 <= s < a.Length && !(ty * PatternCount <= s < ty * PatternCount + PatternCount) ==> a[s] == old(a[s])
  {
    var patId := 0;
    while patId < PatternCount
      invariant 0 <= patId <= PatternCount
      invariant forall id: nat {:trigger DisconnectionEntry(kinds, ty, id)} :: id < patId ==>
        a[ty * PatternCount + id] == DisconnectionEntry(kinds, ty, id)
      invariant forall s :: 0 <= s < a.Length && !(ty * PatternCount <= s < ty * PatternCount + PatternCount) ==> a[s] == old(a[s])
    {
      var pat := IdToPattern(patId);
      assert patId % 0x1_0000_0000 == patId;
      var disc := Disconnection(kinds, np, ty, pat);
      BlockSlot(ty, patId, |kinds|);
      a[ty * PatternCount + patId] := disc;
      patId := patId + 1;
    }
  }

  /** The virtual-disconnection table of `Dictionary::new`, from its neighbour table. */
  method BuildVirtualDisconnection(kinds: seq<seq<int>>, np: seq<bv32>) returns (vd: seq<bv32>)
    requires IsNeighborTable(kinds, np)
    ensures IsDisconnectionTable(kinds, vd)
  {
    var a := new bv32[|kinds| * PatternCount];
    var ty := 0;
    while ty < |kinds|
      invariant 0 <= ty <= |kinds|
      invariant forall t: nat, id: nat {:trigger DisconnectionEntry(kinds, t, id)} :: t < ty && id < PatternCount ==>
        a[t * PatternCount + id] == DisconnectionEntry(kinds, t, id)
    {
      ghost var before := a[..];
      FillDisconnectionBlock(kinds, np, ty, a);
      forall t: nat, id: nat | t < ty + 1 && id < PatternCount
        ensures a[t * PatternCount + id] == DisconnectionEntry(kinds, t, id)
      {
        if t < ty {
          BlockBefore(t, ty, id);
          assert a[t * PatternCount + id] == before[t * PatternCount + id];
        } else {
          assert t == ty;
        }
      }
      ty := ty + 1;
    }
    vd := a[..];
  }

  /** Slot `id` of block `ty` lies in a table of `n` blocks. */
  lemma BlockSlot(ty: nat, id: nat, n: nat)
    requires ty < n && id < PatternCount
    ensures ty * PatternCount + id < n * PatternCount
  {
  }

  // ---- the virtually-ignored-cell table ----

  /** `4^8`: the patterns with two bits per cell (0 undecided, 1 degree two, 2 black, 3 white). */
  const QuadCount: nat := 65536

  function Pow4(n: nat): (p: nat)
    ensures p >= 1
  {
    if n == 0 then 1 else 4 * Pow4(n - 1)
  }

  /** The two-bit codes of pattern id `v`: code `k` is `(v >> (2 * k)) & 3`. */
  function Quads(v: nat): (r: seq<nat>)
    ensures |r| == NeighborSize && forall k :: 0 <= k < NeighborSize ==> r[k] < 4
  {
    seq(NeighborSize, k requires 0 <= k < NeighborSize => (v / Pow4(k)) % 4)
  }

  /** The codes of all eight cells, read off one by one. */
  method QuadsOf(patId: nat) returns (q: seq<nat>)
    ensures q == Quads(patId)
  {
    q := [];
    var pow := 1;
    var i := 0;
    while i < NeighborSize
      invariant 0 <= i <= NeighborSize && pow == Pow4(i)
      invariant q == Quads(patId)[..i]
    {
      q := q + [(patId / pow) % 4];
      pow := pow * 4;
      i := i + 1;
    }
  }

  /** The first cell whose code is not "degree two", if any. */
  function FirstOther(q: seq<nat>): (r: Option<nat>)
    ensures r.Some? ==> r.value < |q| && q[r.value] != 1 && forall j :: 0 <= j < r.value ==> q[j] == 1
    ensures r.None? ==> forall j :: 0 <= j < |q| ==> q[j] == 1
  {
    if q == [] then None
    else if q[0] != 1 then Some(0)
    else match FirstOther(q[1..]) {
      case None => None
      case Some(k) => Some(k + 1)
    }
  }

  method FindOther(q: seq<nat>) returns (ori: Option<nat>)
    requires |q| == NeighborSize
    ensures ori == FirstOther(q)
  {
    ori := None;
    var i := 0;
    while i < NeighborSize
      invariant 0 <= i <= NeighborSize && forall j :: 0 <= j < i ==> q[j] == 1
    {
      if q[i] != 1 {
        ori := Some(i);
        return;
      }
      i := i + 1;
    }
  }

  /** The cell `j` steps before cell `i`, `(i - j + 8) % 8` (see `BackMod`). */
  function Back(i: nat, j: nat): (r: nat)
    requires i < NeighborSize && j <= NeighborSize
    ensures r < NeighborSize
  {
    if j <= i then i - j else i + 8 - j
  }

  /**
   * `Back` is the source's `(i - j + 8) % 8`. The source computes it in
   * `i32`, where `i - j + 8` never goes negative for `j <= 8`.
   */
  lemma BackMod(i: nat, j: nat)
    requires i < NeighborSize && j <= NeighborSize
    ensures i - j + 8 >= 0 && Back(i, j) == (i - j + 8) % 8
  {
  }

  /** The cell a pattern code stands for in the neighbour table: degree two and undecided are both undecided. */
  function QuadCell(c: nat): Cell {
    if c <= 1 then Undecided else if c == 2 then Black else White
  }

  function QuadCells(q: seq<nat>): (r: seq<Cell>)
    ensures |r| == |q|
  {
    seq(|q|, k requires 0 <= k < |q| => QuadCell(q[k]))
  }

  /** The codes with cells `i`, `i - 1`, ... `i - n + 1` set to black (code 2). */
  function Blacken(q: seq<nat>, i: nat, n: nat): (r: seq<nat>)
    requires |q| == NeighborSize && i < NeighborSize && n <= NeighborSize + 1
    ensures |r| == NeighborSize
  {
    if n == 0 then q else Blacken(q, i, n - 1)[Back(i, n - 1) := 2]
  }

  /** `1 << i` for cell `i`, written out. */
  function CellBit(i: nat): bv32
    requires i < NeighborSize
  {
    if i < 4 then (if i < 2 then (if i == 0 then 1 else 2) else (if i == 2 then 4 else 8))
    else (if i < 6 then (if i == 4 then 16 else 32) else (if i == 6 then 64 else 128))
  }

  /** `CellBit(i)` is `1 << i`, and its one bit is bit `i`. */
  lemma CellBitOne(i: nat, k: nat)
    requires i < NeighborSize && k < NeighborSize
    ensures CellBit(i) == 1 << Low(i)
    ensures Bit(CellBit(i), Low(k)) <==> k == i
  {
    BitOne(Low(i), Low(k));
    LowApart(i, k);
  }

  /** `mask` with bits `i - 1` down to `i - n` (mod 8) set: the cells of a chain of `n` ending before cell `i`. */
  function AddChain(mask: bv32, i: nat, n: nat): bv32
    requires i < NeighborSize && n < NeighborSize
  {
    if n == 0 then mask else AddChain(mask, i, n - 1) | CellBit(Back(i, n))
  }

  /** The cell scanned at step `k`, `(k + ori) % 8` (see `RingMod`). */
  function Ring(ori: nat, k: nat): (i: nat)
    requires ori < NeighborSize && k <= NeighborSize
    ensures i < NeighborSize
  {
    if k + ori < 8 then k + ori else k + ori - 8
  }

  lemma RingMod(ori: nat, k: nat)
    requires ori < NeighborSize && k <= NeighborSize
    ensures Ring(ori, k) == (k + ori) % 8
  {
  }

  /** The chain of `len` before cell `i`, made black with both its ends, leaves no entry in the neighbour table. */
  predicate ChainDead(runs: seq<int>, q: seq<nat>, i: nat, len: nat)
    requires |q| == NeighborSize && i < NeighborSize && len < NeighborSize
  {
    Entry(runs, QuadCells(Blacken(q, i, len + 2))) == Inconsistent
  }

  /** The scan's state: the length of the current chain of degree-two cells, and the mask so far. */
  datatype Scan = Scan(len: nat, mask: bv32)

  /**
   * Step `k` of the nine of `Dictionary::new`'s scan: cell `(k + ori) % 8`
   * either extends the current chain of degree-two cells or ends it, and a
   * chain that leaves no entry once its cells and both ends are black is
   * or-ed into the mask.
   */
  function ScanNext(runs: seq<int>, q: seq<nat>, ori: nat, k: nat, s: Scan): (r: Scan)
    requires |q| == NeighborSize && ori < NeighborSize && q[ori] != 1
    requires k < 9 && (s.len < k || s.len == k == 0)
    ensures r.len < k + 1
    ensures r.len == 0 <==> q[Ring(ori, k)] != 1
  {
    var i := Ring(ori, k);
    if q[i] != 1 then
      if s.len > 0 && ChainDead(runs, q, i, s.len) then
        Scan(0, AddChain(s.mask, i, s.len))
      else Scan(0, s.mask)
    else Scan(s.len + 1, s.mask)
  }

  /** The scan's state after its first `k` steps. */
  function ScanUpTo(runs: seq<int>, q: seq<nat>, ori: nat, k: nat): (s: Scan)
    requires |q| == NeighborSize && ori < NeighborSize && q[ori] != 1 && k <= 9
    ensures s.len < k || s.len == k == 0
  {
    if k == 0 then Scan(0, 0) else ScanNext(runs, q, ori, k - 1, ScanUpTo(runs, q, ori, k - 1))
  }

  /** Entry `id` of kind `ty`'s block: no mask when every cell has degree two. */
  function IgnoredEntry(kinds: seq<seq<int>>, ty: nat, id: nat): bv32
    requires ty < |kinds|
  {
    var q := Quads(id);
    match FirstOther(q)
    case None => 0
    case Some(ori) => ScanUpTo(Pattern(kinds, ty), q, ori, 9).mask
  }

  ghost predicate IsIgnoredTable(kinds: seq<seq<int>>, vi: seq<bv32>) {
    && |vi| == |kinds| * QuadCount
    && forall ty: nat, id: nat {:trigger IgnoredEntry(kinds, ty, id)} :: ty < |kinds| && id < QuadCount ==>
         vi[ty * QuadCount + id] == IgnoredEntry(kinds, ty, id)
  }

  /** The ternary id of the blackened codes: code `p` counts as digit `p - 1`, and 0 as 0. */
  method TernaryId(qb: seq<nat>) returns (id: nat)
    requires |qb| == NeighborSize && forall k :: 0 <= k < NeighborSize ==> qb[k] < 4
    ensures id == Encode(QuadCells(qb)) && id < PatternCount
  {
    var cells := QuadCells(qb);
    id := 0;
    var pow := 1;
    var j := 0;
    while j < NeighborSize
      invariant 0 <= j <= NeighborSize && pow == Pow3(j)
      invariant id == Encode(cells[..j])
    {
      var p := qb[j];
      var d := if p == 0 then 0 else p - 1;
      assert d == Digit(cells[j]);
      assert cells[..j + 1] == cells[..j] + [cells[j]];
      EncodeSnoc(cells[..j], cells[j]);
      id := id + d * pow;
      pow := pow * 3;
      j := j + 1;
    }
    assert cells[..NeighborSize] == cells;
    EncodeBound(cells);
    PatternCountPow();
  }

  /** `pat_id_blackened`: code 2 written over the `n` cells from `i` backwards. */
  method BlackenChain(q: seq<nat>, i: nat, n: nat) returns (qb: seq<nat>)
    requires |q| == NeighborSize && i < NeighborSize && n <= NeighborSize + 1
    requires forall k :: 0 <= k < NeighborSize ==> q[k] < 4
    ensures qb == Blacken(q, i, n) && forall k :: 0 <= k < NeighborSize ==> qb[k] < 4
  {
    qb := q;
    var j := 0;
    while j < n
      invariant 0 <= j <= n && qb == Blacken(q, i, j)
      invariant forall k :: 0 <= k < NeighborSize ==> qb[k] < 4
    {
      qb := qb[Back(i, j) := 2];
      j := j + 1;
    }
  }

  /** One cell of a chain, `ignored_cells_mask |= 1 << ((i - j + 7) % 8)`. */
  method OrCell(m: bv32, mask: bv32, i: nat, j: nat) returns (m': bv32)
    requires i < NeighborSize && j + 1 < NeighborSize && m == AddChain(mask, i, j)
    ensures m' == AddChain(mask, i, j + 1)
  {
    m' := m | CellBit(Back(i, j + 1));
  }

  /** The masked cells of one chain. */
  method OrChain(mask: bv32, i: nat, len: nat) returns (m: bv32)
    requires i < NeighborSize && len < NeighborSize
    ensures m == AddChain(mask, i, len)
  {
    m := mask;
    var j := 0;
    while j < len
      invariant 0 <= j <= len && m == AddChain(mask, i, j)
    {
      m := OrCell(m, mask, i, j);
      j := j + 1;
    }
  }

  /** `ternary_pat_id`: the neighbour-table id of the codes with the chain of `len` before cell `i` and both its ends made black. */
  method BlackenedId(q: seq<nat>, i: nat, len: nat) returns (tid: nat)
    requires |q| == NeighborSize && forall k :: 0 <= k < NeighborSize ==> q[k] < 4
    requires i < NeighborSize && len < NeighborSize
    ensures tid < PatternCount && Decode(tid, NeighborSize) == QuadCells(Blacken(q, i, len + 2))
  {
    var qb := BlackenChain(q, i, len + 2);
    tid := TernaryId(qb);
    DecodeEncode(QuadCells(qb));
  }

  /** The chain of `len` degree-two cells ending before cell `i` is ignored: blackened with both ends it leaves no entry. */
  method ChainIgnored(kinds: seq<seq<int>>, np: seq<bv32>, ty: nat, q: seq<nat>, i: nat, len: nat) returns (ignored: bool)
    requires IsNeighborTable(kinds, np) && ty < |kinds|
    requires |q| == NeighborSize && forall k :: 0 <= k < NeighborSize ==> q[k] < 4
    requires i < NeighborSize && len < NeighborSize
    ensures ignored == ChainDead(Pattern(kinds, ty), q, i, len)
  {
    var tid := BlackenedId(q, i, len);
    BlockSlot(ty, tid, |kinds|);
    assert np[ty * PatternCount + tid] == TableEntry(kinds, ty, tid);
    ignored := np[ty * PatternCount + tid] == Inconsistent;
  }

  /** Step `k` of the scan: cell `(k + ori) % 8` extends the chain or ends it. */
  method ScanStep(kinds: seq<seq<int>>, np: seq<bv32>, ty: nat, q: seq<nat>, ori: nat, k: nat, s: Scan)
    returns (s': Scan)
    requires IsNeighborTable(kinds, np) && ty < |kinds|
    requires |q| == NeighborSize && forall k :: 0 <= k < NeighborSize ==> q[k] < 4
    requires ori < NeighborSize && q[ori] != 1
    requires k < 9 && (s.len < k || s.len == k == 0)
    ensures s' == ScanNext(Pattern(kinds, ty), q, ori, k, s)
  {
    var i := Ring(ori, k);
    if q[i] != 1 {
      if s.len > 0 {
        s' := EndChain(kinds, np, ty, q, i, s);
      } else {
        s' := s;
      }
    } else {
      s' := Scan(s.len + 1, s.mask);
    }
  }

  /** A chain ended by cell `i`: its cells are or-ed into the mask when it is ignored, and the next chain starts empty. */
  method EndChain(kinds: seq<seq<int>>, np: seq<bv32>, ty: nat, q: seq<nat>, i: nat, s: Scan) returns (s': Scan)
    requires IsNeighborTable(kinds, np) && ty < |kinds|
    requires |q| == NeighborSize && forall k :: 0 <= k < NeighborSize ==> q[k] < 4
    requires i < NeighborSize && s.len < NeighborSize
    ensures s' == if ChainDead(Pattern(kinds, ty), q, i, s.len)
      then Scan(0, AddChain(s.mask, i, s.len)) else Scan(0, s.mask)
  {
    var ignored := ChainIgnored(kinds, np, ty, q, i, s.len);
    var mask := s.mask;
    if ignored {
      mask := OrChain(mask, i, s.len);
    }
    s' := Scan(0, mask);
  }

  /** The mask of one pattern of block `ty`: the nine steps of the scan from its first cell not of degree two. */
  method IgnoredMask(kinds: seq<seq<int>>, np: seq<bv32>, ty: nat, q: seq<nat>, ori: nat) returns (mask: bv32)
    requires IsNeighborTable(kinds, np) && ty < |kinds|
    requires |q| == NeighborSize && forall k :: 0 <= k < NeighborSize ==> q[k] < 4
    requires ori < NeighborSize && q[ori] != 1
    ensures mask == ScanUpTo(Pattern(kinds, ty), q, ori, 9).mask
  {
    var s := Scan(0, 0);
    var k := 0;
    while k < 9
      invariant 0 <= k <= 9 && s == ScanUpTo(Pattern(kinds, ty), q, ori, k)
    {
      s := ScanStep(kinds, np, ty, q, ori, k, s);
      k := k + 1;
    }
    mask := s.mask;
  }

  /** Slot `patId` of block `ty` of the virtually-ignored-cell table; it keeps its 0 when no cell breaks the ring of degree-two cells. */
  method FillIgnored(kinds: seq<seq<int>>, np: seq<bv32>, ty: nat, patId: nat, a: array<bv32>)
    requires IsNeighborTable(kinds, np) && ty < |kinds| && patId < QuadCount && a.Length == |kinds| * QuadCount
    modifies a
    ensures a[ty * QuadCount + patId] == IgnoredEntry(kinds, ty, patId)
    ensures forall s :: 0 <= s < a.Length && s != ty * QuadCount + patId ==> a[s] == old(a[s])
  {
    var q := QuadsOf(patId);
    var ori := FindOther(q);
    match ori {
      case Some(o) =>
        var mask := IgnoredMask(kinds, np, ty, q, o);
        a[ty * QuadCount + patId] := mask;
      case None =>
        a[ty * QuadCount + patId] := 0;
    }
  }

  /** Block `ty` of the virtually-ignored-cell table. */
  method FillIgnoredBlock(kinds: seq<seq<int>>, np: seq<bv32>, ty: nat, a: array<bv32>)
    requires IsNeighborTable(kinds, np) && ty < |kinds| && a.Length == |kinds| * QuadCount
    modifies a
    ensures forall id: nat {:trigger IgnoredEntry(kinds, ty, id)} :: id < QuadCount ==>
      a[ty * QuadCount + id] == IgnoredEntry(kinds, ty, id)
    ensures forall s :: 0 <= s < a.Length && !(ty * QuadCount <= s < ty * QuadCount + QuadCount) ==> a[s] == old(a[s])
  {
    var patId := 0;
    while patId < QuadCount
      invariant 0 <= patId <= QuadCount
      invariant forall id: nat {:trigger IgnoredEntry(kinds, ty, id)} :: id < patId ==>
        a[ty * QuadCount + id] == IgnoredEntry(kinds, ty, id)
      invariant forall s :: 0 <= s < a.Length && !(ty * QuadCount <= s < ty * QuadCount + QuadCount) ==> a[s] == old(a[s])
    {
      ghost var prev := a[..];
      FillIgnored(kinds, np, ty, patId, a);
      forall id: nat | id < patId + 1
        ensures a[ty * QuadCount + id] == IgnoredEntry(kinds, ty, id)
      {
        if id < patId {
          assert a[ty * QuadCount + id] == prev[ty * QuadCount + id];
        } else {
          assert id == patId;
        }
      }
      patId := patId + 1;
    }
  }

  /** Slots of an earlier block of the virtually-ignored-cell table lie below block `ty`. */
  lemma QuadBlockBefore(t: nat, ty: nat, id: nat)
    requires t < ty && id < QuadCount
    ensures t * QuadCount + id < ty * QuadCount
  {
  }

  /** The virtually-ignored-cell table of `Dictionary::new`, from its neighbour table. */
  method BuildVirtuallyIgnored(kinds: seq<seq<int>>, np: seq<bv32>) returns (vi: seq<bv32>)
    requires IsNeighborTable(kinds, np)
    ensures IsIgnoredTable(kinds, vi)
  {
    var a := new bv32[|kinds| * QuadCount];
    var ty := 0;
    while ty < |kinds|
      invariant 0 <= ty <= |kinds|
      invariant forall t: nat, id: nat {:trigger IgnoredEntry(kinds, t, id)} :: t < ty && id < QuadCount ==>
        a[t * QuadCount + id] == IgnoredEntry(kinds, t, id)
    {
      ghost var before := a[..];
      FillIgnoredBlock(kinds, np, ty, a);
      forall t: nat, id: nat | t < ty + 1 && id < QuadCount
        ensures a[t * QuadCount + id] == IgnoredEntry(kinds, t, id)
      {
        if t < ty {
          QuadBlockBefore(t, ty, id);
          assert a[t * QuadCount + id] == before[t * QuadCount + id];
        } else {
          assert t == ty;
        }
      }
      ty := ty + 1;
    }
    vi := a[..];
  }

  /** A bit set by a chain is one of the chain's cells. */
  lemma {:induction false} AddChainBits(mask: bv32, i: nat, n: nat, j: nat)
    requires i < NeighborSize && n < NeighborSize && j < NeighborSize
    ensures Bit(AddChain(mask, i, n), Low(j)) ==> Bit(mask, Low(j)) || exists t :: 1 <= t <= n && j == Back(i, t)
  {
    if n > 0 {
      AddChainBits(mask, i, n - 1, j);
      BitOr(AddChain(mask, i, n - 1), CellBit(Back(i, n)), Low(j));
      CellBitOne(Back(i, n), j);
    }
  }

  /** The `len` cells before cell `(k + ori) % 8` have degree two. */
  ghost predicate ChainBefore(q: seq<nat>, ori: nat, k: nat, len: nat)
    requires |q| == NeighborSize && ori < NeighborSize && k <= NeighborSize && len <= NeighborSize
  {
    forall t :: 1 <= t <= len ==> q[Back(Ring(ori, k), t)] == 1
  }

  /** One step on around the ring moves every cell one step further back. */
  lemma BackNext(k: nat, ori: nat, t: nat)
    requires ori < NeighborSize && k < 8 && t < NeighborSize
    ensures Back(Ring(ori, k + 1), t + 1) == Back(Ring(ori, k), t)
  {
  }

  /** A degree-two cell at step `k` lengthens the chain before the next step by one. */
  lemma ChainExtend(q: seq<nat>, ori: nat, k: nat, len: nat)
    requires |q| == NeighborSize && ori < NeighborSize && k < 8 && len < NeighborSize
    requires ChainBefore(q, ori, k, len) && q[Ring(ori, k)] == 1
    ensures ChainBefore(q, ori, k + 1, len + 1)
  {
    forall t {:trigger Back(Ring(ori, k + 1), t)} | 1 <= t <= len + 1
      ensures q[Back(Ring(ori, k + 1), t)] == 1
    {
      BackNext(k, ori, t - 1);
      if t == 1 {
        assert Back(Ring(ori, k), 0) == Ring(ori, k);
      }
    }
  }

  /** After `k` steps the current chain is of degree-two cells, and so is every masked cell. */
  lemma {:induction false} ScanInvariant(runs: seq<int>, q: seq<nat>, ori: nat, k: nat, j: nat)
    requires |q| == NeighborSize && ori < NeighborSize && q[ori] != 1 && k <= 9 && j < NeighborSize
    ensures k <= 8 ==> ChainBefore(q, ori, k, ScanUpTo(runs, q, ori, k).len)
    ensures Bit(ScanUpTo(runs, q, ori, k).mask, Low(j)) ==> q[j] == 1
  {
    if k > 0 {
      ScanInvariant(runs, q, ori, k - 1, j);
      var s := ScanUpTo(runs, q, ori, k - 1);
      var i := Ring(ori, k - 1);
      if q[i] != 1 {
        AddChainBits(s.mask, i, s.len, j);
      } else {
        ChainExtend(q, ori, k - 1, s.len);
      }
    }
  }

  /** Only cells of degree two are ever marked virtually ignored. */
  lemma IgnoredDegreeTwo(kinds: seq<seq<int>>, ty: nat, id: nat, j: nat)
    requires ty < |kinds| && j < NeighborSize
    ensures Bit(IgnoredEntry(kinds, ty, id), Low(j)) ==> Quads(id)[j] == 1
  {
    var q := Quads(id);
    match FirstOther(q) {
      case None =>
      case Some(ori) =>
        ScanInvariant(Pattern(kinds, ty), q, ori, 9, j);
    }
  }

  /**
   * Cell `j` lies on a chain of `len` degree-two cells ending before cell
   * `i`, and once the chain and both its ends are black, no decided ring
   * with those cells fits the clue.
   */
  ghost predicate IgnoredChain(runs: seq<int>, q: seq<nat>, i: nat, len: nat, j: nat)
    requires |q| == NeighborSize
  {
    && i < NeighborSize && 0 < len < NeighborSize && q[i] != 1
    && (forall t :: 1 <= t <= len ==> q[Back(i, t)] == 1)
    && (exists t :: 1 <= t <= len && j == Back(i, t))
    && forall c :: Completes(c, QuadCells(Blacken(q, i, len + 2))) ==> !Fits(runs, c)
  }

  /** A bit that step `k` of the scan sets lies on the chain it ends, and that chain is ignored. */
  lemma StepChain(runs: seq<int>, q: seq<nat>, ori: nat, k: nat, s: Scan, j: nat)
    requires |q| == NeighborSize && ori < NeighborSize && q[ori] != 1 && j < NeighborSize
    requires k < 9 && (s.len < k || s.len == k == 0) && ChainBefore(q, ori, k, s.len)
    ensures Bit(ScanNext(runs, q, ori, k, s).mask, Low(j)) && !Bit(s.mask, Low(j)) ==>
      IgnoredChain(runs, q, Ring(ori, k), s.len, j)
  {
    var i := Ring(ori, k);
    if q[i] != 1 && s.len > 0 && ChainDead(runs, q, i, s.len) {
      AddChainBits(s.mask, i, s.len, j);
      EntryInconsistent(runs, QuadCells(Blacken(q, i, s.len + 2)));
    }
  }

  /** Every bit the scan sets lies on an ignored chain. */
  lemma {:induction false} ScanChains(runs: seq<int>, q: seq<nat>, ori: nat, k: nat, j: nat)
    requires |q| == NeighborSize && ori < NeighborSize && q[ori] != 1 && k <= 9 && j < NeighborSize
    ensures Bit(ScanUpTo(runs, q, ori, k).mask, Low(j)) ==> exists i, len :: IgnoredChain(runs, q, i, len, j)
  {
    if k > 0 {
      ScanChains(runs, q, ori, k - 1, j);
      ScanInvariant(runs, q, ori, k - 1, j);
      var s := ScanUpTo(runs, q, ori, k - 1);
      StepChain(runs, q, ori, k - 1, s, j);
      assert ScanUpTo(runs, q, ori, k) == ScanNext(runs, q, ori, k - 1, s);
    }
  }

  /**
   * A cell marked virtually ignored lies on a chain of degree-two cells
   * which, made black together with both its ends, leaves the clue no
   * fitting ring.
   */
  lemma IgnoredChains(kinds: seq<seq<int>>, ty: nat, id: nat, j: nat)
    requires ty < |kinds| && j < NeighborSize
    ensures Bit(IgnoredEntry(kinds, ty, id), Low(j)) ==> exists i, len :: IgnoredChain(Pattern(kinds, ty), Quads(id), i, len, j)
  {
    var q := Quads(id);
    match FirstOther(q) {
      case None =>
      case Some(ori) =>
        ScanChains(Pattern(kinds, ty), q, ori, 9, j);
    }
  }

  // ---- the dictionary and its queries ----

  /** `Dictionary`: the three tables, each with a block per clue kind. */
  datatype Dictionary = Dictionary(neighborPattern: seq<bv32>, virtuallyIgnoredCell: seq<bv32>, virtualDisconnection: seq<bv32>)

  /** Each table holds, for every kind of `CLUE_VALUES`, the entries its definition gives. */
  ghost predicate ValidDictionary(d: Dictionary) {
    && IsNeighborTable(ClueValues, d.neighborPattern)
    && IsIgnoredTable(ClueValues, d.virtuallyIgnoredCell)
    && IsDisconnectionTable(ClueValues, d.virtualDisconnection)
  }

  /** `Dictionary::new`: the neighbour table first, then the two tables read off it. */
  method NewDictionary() returns (d: Dictionary)
    ensures ValidDictionary(d)
  {
    var np := BuildNeighborPattern(ClueValues);
    var vd := BuildVirtualDisconnection(ClueValues, np);
    var vi := BuildVirtuallyIgnored(ClueValues, np);
    d := Dictionary(np, vi, vd);
  }

  /** `neighbor_pattern_raw`: the neighbour-table entry of pattern `code` for clue `c`. */
  function NeighborPatternRaw(d: Dictionary, c: Clue, code: nat): (r: bv32)
    requires ValidDictionary(d) && 0 <= c.id < ClueTypes && code < PatternCount
    ensures r == TableEntry(ClueValues, c.id, code)
  {
    BlockSlot(c.id, code, |ClueValues|);
    d.neighborPattern[c.id * PatternCount + code]
  }

  /** `virtually_ignored_cell`: the mask of pattern `code` (two bits per cell) for clue `c`. */
  function VirtuallyIgnoredCell(d: Dictionary, c: Clue, code: nat): (r: bv32)
    requires ValidDictionary(d) && 0 <= c.id < ClueTypes && code < QuadCount
    ensures r == IgnoredEntry(ClueValues, c.id, code)
  {
    QuadSlot(c.id, code, |ClueValues|);
    d.virtuallyIgnoredCell[c.id * QuadCount + code]
  }

  /** `virtual_disconnection`: the mask of pattern `code` for clue `c`. */
  function VirtualDisconnection(d: Dictionary, c: Clue, code: nat): (r: bv32)
    requires ValidDictionary(d) && 0 <= c.id < ClueTypes && code < PatternCount
    ensures r == DisconnectionEntry(ClueValues, c.id, code)
  {
    BlockSlot(c.id, code, |ClueValues|);
    d.virtualDisconnection[c.id * PatternCount + code]
  }

  lemma QuadSlot(ty: nat, id: nat, n: nat)
    requires ty < n && id < QuadCount
    ensures ty * QuadCount + id < n * QuadCount
  {
  }

  /** What an entry says of cell `i`: code 1 black, code 2 white, otherwise nothing. */
  function Decision(e: bv32, i: nat): Cell
    requires i < NeighborSize
  {
    var code := (e >> Pos(i)) & 3;
    if code == 1 then Black else if code == 2 then White else Undecided
  }

  /** The pattern with each undecided cell set as entry `e` decides it. */
  function Apply(pat: seq<Cell>, e: bv32): (r: seq<Cell>)
    requires |pat| == NeighborSize
    ensures |r| == NeighborSize
  {
    seq(NeighborSize, i requires 0 <= i < NeighborSize => if pat[i] == Undecided then Decision(e, i) else pat[i])
  }

  /** A cell's two-bit code is 1 or 2 exactly when one of its two bits is set. */
  lemma TwoBits(e: bv32, m: bv32)
    requires m < 30
    ensures (e >> m) & 3 == 1 <==> Bit(e, m) && !Bit(e, m + 1)
    ensures (e >> m) & 3 == 2 <==> !Bit(e, m) && Bit(e, m + 1)
  {
  }

  /**
   * `neighbor_pattern`: `true` when the pattern of `neighbor` leaves the
   * clue no fitting ring; otherwise every undecided cell of the pattern
   * that the entry decides is set, and `false` is returned.
   */
  method NeighborPattern(d: Dictionary, c: Clue, neighbor: array<Cell>) returns (inconsistent: bool)
    requires ValidDictionary(d) && 0 <= c.id < ClueTypes && neighbor.Length >= NeighborSize
    modifies neighbor
    ensures var pat := old(neighbor[..NeighborSize]); var e := Entry(Pattern(ClueValues, c.id), pat);
      && (inconsistent <==> e == Inconsistent)
      && neighbor[..NeighborSize] == if inconsistent then pat else Apply(pat, e)
    ensures neighbor[NeighborSize..] == old(neighbor[NeighborSize..])
  {
    ghost var pat := neighbor[..NeighborSize];
    var id := PatternToId(neighbor[..]);
    assert neighbor[..][..NeighborSize] == pat;
    DecodeEncode(pat);
    var res := NeighborPatternRaw(d, c, id);
    if res == Inconsistent {
      return true;
    }
    ApplyEntry(neighbor, res);
    inconsistent := false;
  }

  /** The loop of `neighbor_pattern`: each undecided cell of `neighbor` set as entry `res` decides it. */
  method ApplyEntry(neighbor: array<Cell>, res: bv32)
    requires neighbor.Length >= NeighborSize
    modifies neighbor
    ensures neighbor[..NeighborSize] == Apply(old(neighbor[..NeighborSize]), res)
    ensures neighbor[NeighborSize..] == old(neighbor[NeighborSize..])
  {
    ghost var pat := neighbor[..NeighborSize];
    var i := 0;
    while i < NeighborSize
      invariant 0 <= i <= NeighborSize
      invariant forall k :: 0 <= k < i ==> neighbor[k] == Apply(pat, res)[k]
      invariant forall k :: i <= k < NeighborSize ==> neighbor[k] == pat[k]
      invariant forall k :: NeighborSize <= k < neighbor.Length ==> neighbor[k] == old(neighbor[k])
    {
      if neighbor[i] == Undecided {
        var code := (res >> Pos(i)) & 3;
        neighbor[i] := if code == 1 then Black else if code == 2 then White else Undecided;
      }
      i := i + 1;
    }
    assert neighbor[..NeighborSize] == Apply(pat, res);
  }

  /**
   * What `neighbor_pattern` decides is forced: an undecided cell becomes
   * black iff every decided ring with the pattern's cells that fits the
   * clue has it black, and white iff every one has it white.
   */
  lemma ApplyForced(runs: seq<int>, pat: seq<Cell>, i: nat)
    requires |pat| == NeighborSize && i < NeighborSize && pat[i] == Undecided
    requires Entry(runs, pat) != Inconsistent
    ensures Apply(pat, Entry(runs, pat))[i] == Black <==> forall c :: Completes(c, pat) && Fits(runs, c) ==> c[i] == Black
    ensures Apply(pat, Entry(runs, pat))[i] == White <==> forall c :: Completes(c, pat) && Fits(runs, c) ==> c[i] == White
  {
    var e := Entry(runs, pat);
    EntryCell(runs, pat, i);
    EntryInconsistent(runs, pat);
    var c0 :| Completes(c0, pat) && Fits(runs, c0);
    TwoBits(e, Pos(i));
  }

  /** `neighbor_pattern` loses no solution: every fitting ring with the old cells has the new ones. */
  lemma ApplyKeeps(runs: seq<int>, pat: seq<Cell>, c: seq<Cell>)
    requires |pat| == NeighborSize && Entry(runs, pat) != Inconsistent
    requires Completes(c, pat) && Fits(runs, c)
    ensures Completes(c, Apply(pat, Entry(runs, pat)))
  {
    var r := Apply(pat, Entry(runs, pat));
    forall i | 0 <= i < NeighborSize && r[i] != Undecided
      ensures c[i] == r[i]
    {
      if pat[i] == Undecided {
        ApplyForced(runs, pat, i);
      }
    }
  }
}
