/**
 * `ConsecutiveRegionDictionary` of src/tapa/dictionary.rs. Here a pattern
 * is eight bits, one per neighbour of a clue cell: bit `i` clear means
 * neighbour `i` is white, set means it may be black. The table `dic`
 * marks, for each clue kind and pattern, the cells of every chain of set
 * bits that must hold a black cell; `chain_size_dic` and `removal_dic`
 * give the length of the chain through a neighbour and how far it runs
 * on either side.
 */
module TapaConsecutive {
  import opened Common
  import opened TapaBase
  import opened TapaDictionary

  /** `2^8`, the number of patterns. */
  const RegionCount: nat := 256

  function Pow2(n: nat): (p: nat)
    ensures p >= 1
  {
    if n == 0 then 1 else 2 * Pow2(n - 1)
  }

  /** The low `n` bits of `v`, least significant first: bit `i` is `(v >> i) & 1 == 1`. */
  function BitsN(v: nat, n: nat): (b: seq<bool>)
    ensures |b| == n
  {
    if n == 0 then [] else [v % 2 == 1] + BitsN(v / 2, n - 1)
  }

  /** The eight bits of pattern `v`: bit `i` set when neighbour `i` may be black. */
  function Bits(v: nat): (b: seq<bool>)
    ensures |b| == NeighborSize
  {
    BitsN(v, NeighborSize)
  }

  /** The bits of `v` read off one by one. */
  method BitsOf(v: nat) returns (b: seq<bool>)
    ensures b == Bits(v)
  {
    b := [];
    var w := v;
    var i := 0;
    while i < NeighborSize
      invariant 0 <= i <= NeighborSize && b + BitsN(w, NeighborSize - i) == Bits(v)
    {
      assert BitsN(w, NeighborSize - i) == [w % 2 == 1] + BitsN(w / 2, NeighborSize - i - 1);
      assert b + BitsN(w, NeighborSize - i) == (b + [w % 2 == 1]) + BitsN(w / 2, NeighborSize - i - 1);
      b := b + [w % 2 == 1];
      w := w / 2;
      i := i + 1;
    }
  }

  /** Only the largest pattern below `2^n` has all its `n` bits set. */
  lemma {:induction false} AllSet(v: nat, n: nat)
    requires v < Pow2(n) && forall i :: 0 <= i < n ==> BitsN(v, n)[i]
    ensures v == Pow2(n) - 1
  {
    if n > 0 {
      var b, w, m := BitsN(v, n), v / 2, n - 1;
      assert b[0];
      forall i | 0 <= i < m
        ensures BitsN(w, m)[i]
      {
        assert b[i + 1] == BitsN(w, m)[i];
      }
      AllSet(w, m);
    }
  }

  lemma RegionCountPow()
    ensures Pow2(NeighborSize) == RegionCount
  {
  }

  // ---- the chains of set bits ----

  /** The first clear bit from `k` on, or 0 when there is none. */
  function TopFrom(b: seq<bool>, k: nat): (r: nat)
    requires |b| == NeighborSize && k <= NeighborSize
    ensures r < NeighborSize
    ensures (r == 0 && forall i :: k <= i < NeighborSize ==> b[i])
         || (k <= r && !b[r] && forall i :: k <= i < r ==> b[i])
    decreases NeighborSize - k
  {
    if k == NeighborSize then 0 else if !b[k] then k else TopFrom(b, k + 1)
  }

  /** `top`: the first clear bit, 0 for the pattern of all set bits. */
  function Top(b: seq<bool>): (r: nat)
    requires |b| == NeighborSize
    ensures r < NeighborSize
    ensures (exists i :: 0 <= i < NeighborSize && !b[i]) ==> !b[r] && forall i :: 0 <= i < r ==> b[i]
    ensures (forall i :: 0 <= i < NeighborSize ==> b[i]) ==> r == 0
  {
    TopFrom(b, 0)
  }

  method FindTop(b: seq<bool>) returns (top: nat)
    requires |b| == NeighborSize
    ensures top == Top(b)
  {
    top := 0;
    var i := 0;
    while i < NeighborSize
      invariant 0 <= i <= NeighborSize && TopFrom(b, i) == Top(b)
    {
      if !b[i] {
        top := i;
        return;
      }
      i := i + 1;
    }
  }

  /** A chain: its first cell and its length. */
  datatype Run = Run(start: nat, len: nat)

  predicate ValidRun(r: Run) {
    r.start < NeighborSize && 1 <= r.len <= NeighborSize
  }

  /** The state of the chain scan: the length of the open chain and the chains closed so far. */
  datatype Collected = Collected(len: nat, runs: seq<Run>)

  predicate ValidRuns(runs: seq<Run>) {
    forall k :: 0 <= k < |runs| ==> ValidRun(runs[k])
  }

  /** Step `k` of the scan from `top`: cell `(k + top) % 8` extends the open chain or closes it. */
  function CollectNext(b: seq<bool>, top: nat, k: nat, s: Collected): (r: Collected)
    requires |b| == NeighborSize && top < NeighborSize && k < NeighborSize && s.len <= k
    requires ValidRuns(s.runs)
    ensures r.len <= k + 1 && ValidRuns(r.runs)
  {
    var i := Ring(top, k);
    if b[i] then Collected(s.len + 1, s.runs)
    else if s.len != 0 then Collected(0, s.runs + [Run(Back(i, s.len), s.len)])
    else s
  }

  /** The scan's state after `k` steps. */
  function CollectUpTo(b: seq<bool>, top: nat, k: nat): (s: Collected)
    requires |b| == NeighborSize && top < NeighborSize && k <= NeighborSize
    ensures s.len <= k && ValidRuns(s.runs)
  {
    if k == 0 then Collected(0, []) else CollectNext(b, top, k - 1, CollectUpTo(b, top, k - 1))
  }

  /** `chains`: the scan's chains, with the chain still open at the end closed at `top`. */
  function Chains(b: seq<bool>): (runs: seq<Run>)
    requires |b| == NeighborSize
    ensures ValidRuns(runs)
  {
    var top := Top(b);
    var s := CollectUpTo(b, top, NeighborSize);
    if s.len != 0 then s.runs + [Run(Back(top, s.len), s.len)] else s.runs
  }

  /** The two loops of `ConsecutiveRegionDictionary::new` that collect the chains of a pattern. */
  method CollectChains(b: seq<bool>, top: nat) returns (chains: seq<Run>)
    requires |b| == NeighborSize && top == Top(b)
    ensures chains == Chains(b)
  {
    chains := [];
    var len := 0;
    var k := 0;
    while k < NeighborSize
      invariant 0 <= k <= NeighborSize && Collected(len, chains) == CollectUpTo(b, top, k)
    {
      var i := Ring(top, k);
      if b[i] {
        len := len + 1;
      } else if len != 0 {
        chains := chains + [Run(Back(i, len), len)];
        len := 0;
      }
      k := k + 1;
    }
    if len != 0 {
      chains := chains + [Run(Back(top, len), len)];
    }
  }

  // ---- the chains that must hold a black cell ----

  /** `pat_id_after_exclusion` after `n` cells of run `r`: their bits flipped. */
  function Flip(b: seq<bool>, r: Run, n: nat): (e: seq<bool>)
    requires |b| == NeighborSize && ValidRun(r) && n <= r.len
    ensures |e| == NeighborSize
  {
    if n == 0 then b
    else
      var e := Flip(b, r, n - 1);
      var i := Ring(r.start, n - 1);
      e[i := !e[i]]
  }

  /** The neighbour pattern of a bit pattern: clear bits white, set bits undecided. */
  function WhiteCells(b: seq<bool>): (pat: seq<Cell>)
    requires |b| == NeighborSize
    ensures |pat| == NeighborSize
  {
    seq(NeighborSize, j requires 0 <= j < NeighborSize => if b[j] then Undecided else White)
  }

  /** With run `r` excluded, the pattern leaves no neighbour-table entry. */
  predicate Needed(runs: seq<int>, b: seq<bool>, r: Run)
    requires |b| == NeighborSize && ValidRun(r)
  {
    Entry(runs, WhiteCells(Flip(b, r, r.len))) == Inconsistent
  }

  /** `mask` with the first `n` cells of run `r` set. */
  function RunBits(mask: bv32, r: Run, n: nat): bv32
    requires ValidRun(r) && n <= r.len
  {
    if n == 0 then mask else RunBits(mask, r, n - 1) | CellBit(Ring(r.start, n - 1))
  }

  /** For each chain, whether it is needed. */
  function NeededFlags(runs: seq<int>, b: seq<bool>, chains: seq<Run>): (f: seq<bool>)
    requires |b| == NeighborSize && ValidRuns(chains)
    ensures |f| == |chains|
  {
    seq(|chains|, k requires 0 <= k < |chains| => Needed(runs, b, chains[k]))
  }

  /** `parts` after the first `n` chains: the cells of the chains flagged in `needed`. */
  function PartsUpTo(chains: seq<Run>, needed: seq<bool>, n: nat): bv32
    requires ValidRuns(chains) && |needed| == |chains| && n <= |chains|
  {
    if n == 0 then 0
    else
      var m := PartsUpTo(chains, needed, n - 1);
      var r := chains[n - 1];
      if needed[n - 1] then RunBits(m, r, r.len) else m
  }

  /** Entry `id` of kind `ty`'s block of `dic`. */
  function RegionEntry(kinds: seq<seq<int>>, ty: nat, id: nat): bv32
    requires ty < |kinds|
  {
    var b := Bits(id);
    var chains := Chains(b);
    PartsUpTo(chains, NeededFlags(Pattern(kinds, ty), b, chains), |chains|)
  }

  /** The loop that excludes a chain: each of its cells' bits flipped in turn. */
  method ExcludeRun(b: seq<bool>, r: Run) returns (e: seq<bool>)
    requires |b| == NeighborSize && ValidRun(r)
    ensures e == Flip(b, r, r.len)
  {
    e := b;
    var j := 0;
    while j < r.len
      invariant 0 <= j <= r.len && e == Flip(b, r, j)
    {
      var i := Ring(r.start, j);
      e := e[i := !e[i]];
      j := j + 1;
    }
  }

  /** `ternary_id`: `2 * 3^j` summed over the clear bits `j`. */
  method WhiteId(e: seq<bool>) returns (id: nat)
    requires |e| == NeighborSize
    ensures id == Encode(WhiteCells(e)) && id < PatternCount
  {
    var cells := WhiteCells(e);
    id := 0;
    var pow := 1;
    var j := 0;
    while j < NeighborSize
      invariant 0 <= j <= NeighborSize && pow == Pow3(j)
      invariant id == Encode(cells[..j])
    {
      assert cells[..j + 1] == cells[..j] + [cells[j]];
      EncodeSnoc(cells[..j], cells[j]);
      if !e[j] {
        id := id + pow * 2;
      }
      pow := pow * 3;
      j := j + 1;
    }
    assert cells[..NeighborSize] == cells;
    EncodeBound(cells);
    PatternCountPow();
  }

  /** One cell of a needed chain, `parts |= 1 << ((p + j) % 8)`. */
  method OrRunCell(m: bv32, mask: bv32, r: Run, j: nat) returns (m': bv32)
    requires ValidRun(r) && j < r.len && m == RunBits(mask, r, j)
    ensures m' == RunBits(mask, r, j + 1)
  {
    m' := m | CellBit(Ring(r.start, j));
  }

  method OrRun(mask: bv32, r: Run) returns (m: bv32)
    requires ValidRun(r)
    ensures m == RunBits(mask, r, r.len)
  {
    m := mask;
    var j := 0;
    while j < r.len
      invariant 0 <= j <= r.len && m == RunBits(mask, r, j)
    {
      m := OrRunCell(m, mask, r, j);
      j := j + 1;
    }
  }

  /** Whether chain `r` is needed, read from the neighbour table as `neighbor_pattern_raw` reads it. */
  method RunNeeded(kinds: seq<seq<int>>, np: seq<bv32>, ty: nat, b: seq<bool>, r: Run) returns (needed: bool)
    requires IsNeighborTable(kinds, np) && ty < |kinds| && |b| == NeighborSize && ValidRun(r)
    ensures needed == Needed(Pattern(kinds, ty), b, r)
  {
    var e := ExcludeRun(b, r);
    var tid := WhiteId(e);
    DecodeEncode(WhiteCells(e));
    BlockSlot(ty, tid, |kinds|);
    assert np[ty * PatternCount + tid] == TableEntry(kinds, ty, tid);
    needed := np[ty * PatternCount + tid] == Inconsistent;
  }

  /** Entry `patId` of kind `ty`'s block of `dic`. */
  method RegionParts(kinds: seq<seq<int>>, np: seq<bv32>, ty: nat, patId: nat) returns (parts: bv32)
    requires IsNeighborTable(kinds, np) && ty < |kinds|
    ensures parts == RegionEntry(kinds, ty, patId)
  {
    var b := BitsOf(patId);
    var top := FindTop(b);
    var chains := CollectChains(b, top);
    ghost var needed := NeededFlags(Pattern(kinds, ty), b, chains);
    parts := 0;
    var i := 0;
    while i < |chains|
      invariant 0 <= i <= |chains| && parts == PartsUpTo(chains, needed, i)
    {
      parts := AddChain(kinds, np, ty, b, chains, needed, i, parts);
      i := i + 1;
    }
  }

  /** One chain of `RegionParts`: its cells join `parts` when it is needed. */
  method AddChain(kinds: seq<seq<int>>, np: seq<bv32>, ty: nat, b: seq<bool>, chains: seq<Run>, ghost needed: seq<bool>,
                  i: nat, parts: bv32) returns (parts': bv32)
    requires IsNeighborTable(kinds, np) && ty < |kinds| && |b| == NeighborSize && ValidRuns(chains)
    requires needed == NeededFlags(Pattern(kinds, ty), b, chains) && i < |chains| && parts == PartsUpTo(chains, needed, i)
    ensures parts' == PartsUpTo(chains, needed, i + 1)
  {
    var isNeeded := RunNeeded(kinds, np, ty, b, chains[i]);
    parts' := parts;
    if isNeeded {
      parts' := OrRun(parts, chains[i]);
    }
  }

  // ---- what an entry of `dic` means ----

  /** Cell `j` is one of run `r`'s. */
  ghost predicate OnRun(r: Run, j: nat)
    requires ValidRun(r)
  {
    exists t :: 0 <= t < r.len && j == Ring(r.start, t)
  }

  /** Cell `j` is one of the first `n` cells of run `r`. */
  ghost predicate OnPrefix(r: Run, n: nat, j: nat)
    requires ValidRun(r) && n <= NeighborSize
  {
    exists t :: 0 <= t < n && j == Ring(r.start, t)
  }

  lemma OnPrefixNext(r: Run, n: nat, j: nat)
    requires ValidRun(r) && 0 < n <= r.len
    ensures OnPrefix(r, n, j) <==> OnPrefix(r, n - 1, j) || j == Ring(r.start, n - 1)
  {
  }

  /** A bit `RunBits` sets is already set in `mask` or one of the run's cells. */
  lemma {:induction false} RunBitsIn(mask: bv32, r: Run, n: nat, j: nat)
    requires ValidRun(r) && n <= r.len && j < NeighborSize
    ensures Bit(RunBits(mask, r, n), Low(j)) ==> Bit(mask, Low(j)) || OnPrefix(r, n, j)
  {
    if n > 0 {
      var m, c := RunBits(mask, r, n - 1), Ring(r.start, n - 1);
      RunBitsIn(mask, r, n - 1, j);
      BitOr(m, CellBit(c), Low(j));
      CellBitOne(c, j);
      OnPrefixNext(r, n, j);
    }
  }

  /** `RunBits` keeps the bits of `mask`. */
  lemma {:induction false} RunBitsKeep(mask: bv32, r: Run, n: nat, j: nat)
    requires ValidRun(r) && n <= r.len && j < NeighborSize && Bit(mask, Low(j))
    ensures Bit(RunBits(mask, r, n), Low(j))
  {
    if n > 0 {
      RunBitsKeep(mask, r, n - 1, j);
      BitOr(RunBits(mask, r, n - 1), CellBit(Ring(r.start, n - 1)), Low(j));
    }
  }

  /** `RunBits` sets the bits of the run's first `n` cells. */
  lemma {:induction false} RunBitsSet(mask: bv32, r: Run, n: nat, t: nat)
    requires ValidRun(r) && t < n <= r.len
    ensures Bit(RunBits(mask, r, n), Low(Ring(r.start, t)))
  {
    var c := Ring(r.start, n - 1);
    BitOr(RunBits(mask, r, n - 1), CellBit(c), Low(Ring(r.start, t)));
    if t < n - 1 {
      RunBitsSet(mask, r, n - 1, t);
    } else {
      CellBitOne(c, c);
    }
  }

  /** A run's bits, added to `mask`, include every cell of the run. */
  lemma RunBitsOn(mask: bv32, r: Run, j: nat)
    requires ValidRun(r) && OnRun(r, j)
    ensures j < NeighborSize && Bit(RunBits(mask, r, r.len), Low(j))
  {
    var t :| 0 <= t < r.len && j == Ring(r.start, t);
    RunBitsSet(mask, r, r.len, t);
  }

  /** The bits `RunBits` sets are the run's cells. */
  lemma RunBitsBits(mask: bv32, r: Run, n: nat, j: nat)
    requires ValidRun(r) && n <= r.len && j < NeighborSize
    ensures Bit(RunBits(mask, r, n), Low(j)) <==> Bit(mask, Low(j)) || OnPrefix(r, n, j)
  {
    RunBitsIn(mask, r, n, j);
    if Bit(mask, Low(j)) {
      RunBitsKeep(mask, r, n, j);
    } else if OnPrefix(r, n, j) {
      var t :| 0 <= t < n && j == Ring(r.start, t);
      RunBitsSet(mask, r, n, t);
    }
  }

  /** Cell `j` lies on one of the first `n` chains, flagged in `needed`. */
  ghost predicate OnNeeded(chains: seq<Run>, needed: seq<bool>, n: nat, j: nat)
    requires ValidRuns(chains) && |needed| == |chains| && n <= |chains|
  {
    exists k :: 0 <= k < n && needed[k] && OnRun(chains[k], j)
  }

  lemma OnNeededNext(chains: seq<Run>, needed: seq<bool>, n: nat, j: nat)
    requires ValidRuns(chains) && |needed| == |chains| && 0 < n <= |chains|
    ensures OnNeeded(chains, needed, n, j) <==>
      OnNeeded(chains, needed, n - 1, j) || (needed[n - 1] && OnRun(chains[n - 1], j))
  {
  }

  /** One chain's step of `parts`: its cells are added exactly when it is flagged. */
  lemma PartsStep(chains: seq<Run>, needed: seq<bool>, n: nat, j: nat)
    requires ValidRuns(chains) && |needed| == |chains| && 0 < n <= |chains| && j < NeighborSize
    ensures Bit(PartsUpTo(chains, needed, n), Low(j)) <==>
      Bit(PartsUpTo(chains, needed, n - 1), Low(j)) || (needed[n - 1] && OnRun(chains[n - 1], j))
  {
    var m, r := PartsUpTo(chains, needed, n - 1), chains[n - 1];
    if needed[n - 1] {
      RunBitsBits(m, r, r.len, j);
      assert OnPrefix(r, r.len, j) == OnRun(r, j);
    }
  }

  /** A bit of `parts` is set exactly when its cell lies on a flagged chain. */
  lemma {:induction false} PartsBits(chains: seq<Run>, needed: seq<bool>, n: nat, j: nat)
    requires ValidRuns(chains) && |needed| == |chains| && n <= |chains| && j < NeighborSize
    ensures Bit(PartsUpTo(chains, needed, n), Low(j)) <==> OnNeeded(chains, needed, n, j)
  {
    if n == 0 {
      assert !Bit(0, Low(j));
    } else {
      PartsBits(chains, needed, n - 1, j);
      PartsStep(chains, needed, n, j);
      OnNeededNext(chains, needed, n, j);
    }
  }

  /** A needed chain is one that cannot all be white: no completion with it white fits the clue. */
  lemma NeededMeans(runs: seq<int>, b: seq<bool>, r: Run)
    requires |b| == NeighborSize && ValidRun(r)
    ensures Needed(runs, b, r) <==> forall c :: Completes(c, WhiteCells(Flip(b, r, r.len))) ==> !Fits(runs, c)
  {
    EntryInconsistent(runs, WhiteCells(Flip(b, r, r.len)));
  }

  /** Entry `(ty, id)` of `dic` marks cell `j` exactly when `j` lies on a chain of `id` that cannot all be white. */
  lemma RegionEntryBits(kinds: seq<seq<int>>, ty: nat, id: nat, j: nat)
    requires ty < |kinds| && j < NeighborSize
    ensures var b := Bits(id); var chains := Chains(b);
      Bit(RegionEntry(kinds, ty, id), Low(j)) <==>
        exists k :: 0 <= k < |chains| && OnRun(chains[k], j)
          && forall c :: Completes(c, WhiteCells(Flip(b, chains[k], chains[k].len))) ==> !Fits(Pattern(kinds, ty), c)
  {
    var b := Bits(id);
    var chains := Chains(b);
    var runs := Pattern(kinds, ty);
    var needed := NeededFlags(runs, b, chains);
    PartsBits(chains, needed, |chains|, j);
    forall k | 0 <= k < |chains|
      ensures Needed(runs, b, chains[k]) <==>
        forall c :: Completes(c, WhiteCells(Flip(b, chains[k], chains[k].len))) ==> !Fits(runs, c)
    {
      NeededMeans(runs, b, chains[k]);
    }
  }

  /** Cell `j` lies on one of the chains `runs`. */
  ghost predicate OnSome(runs: seq<Run>, j: nat)
    requires ValidRuns(runs)
  {
    exists k :: 0 <= k < |runs| && OnRun(runs[k], j)
  }

  /** A chain closed `len` cells back from step `k` holds the cells of steps `k - len` to `k - 1`. */
  lemma RingBack(top: nat, k: nat, len: nat, t: nat)
    requires top < NeighborSize && len <= k <= NeighborSize && t < len
    ensures Ring(Back(Ring(top, k), len), t) == Ring(top, k - len + t)
  {
  }

  /**
   * After `k` steps of the scan from `top`, the open chain is the set cells
   * of the last `len` steps, every cell of a closed chain is set, and every
   * set cell of an earlier step lies on a closed chain.
   */
  lemma {:induction false} CollectCells(b: seq<bool>, top: nat, k: nat)
    requires |b| == NeighborSize && top < NeighborSize && k <= NeighborSize
    ensures var s := CollectUpTo(b, top, k);
      && (forall t :: k - s.len <= t < k ==> b[Ring(top, t)])
      && (forall r, j: nat :: 0 <= r < |s.runs| && j < NeighborSize && OnRun(s.runs[r], j) ==> b[j])
      && (forall m :: 0 <= m < k - s.len && b[Ring(top, m)] ==> OnSome(s.runs, Ring(top, m)))
  {
    if k > 0 {
      CollectCells(b, top, k - 1);
      var s := CollectUpTo(b, top, k - 1);
      var i := Ring(top, k - 1);
      if !b[i] && s.len != 0 {
        var nr := Run(Back(i, s.len), s.len);
        var runs := s.runs + [nr];
        assert CollectUpTo(b, top, k).runs == runs;
        forall r, j: nat | 0 <= r < |runs| && j < NeighborSize && OnRun(runs[r], j)
          ensures b[j]
        {
          if r == |s.runs| {
            var t :| 0 <= t < nr.len && j == Ring(nr.start, t);
            RingBack(top, k - 1, s.len, t);
          } else {
            assert runs[r] == s.runs[r];
          }
        }
        forall m | 0 <= m < k && b[Ring(top, m)]
          ensures OnSome(runs, Ring(top, m))
        {
          if m < k - 1 - s.len {
            var r :| 0 <= r < |s.runs| && OnRun(s.runs[r], Ring(top, m));
            assert runs[r] == s.runs[r];
          } else {
            assert m < k - 1;
            RingBack(top, k - 1, s.len, m - (k - 1 - s.len));
            assert OnRun(runs[|s.runs|], Ring(top, m));
          }
        }
      }
    }
  }

  /** The chains of a pattern are its set cells: a cell is set exactly when it lies on one of them. */
  lemma ChainsCover(b: seq<bool>, j: nat)
    requires |b| == NeighborSize && j < NeighborSize
    ensures b[j] <==> OnSome(Chains(b), j)
  {
    var top := Top(b);
    var s := CollectUpTo(b, top, NeighborSize);
    CollectCells(b, top, NeighborSize);
    var m := if top <= j then j - top else j + 8 - top;
    assert j == Ring(top, m);
    if s.len != 0 {
      var nr := Run(Back(top, s.len), s.len);
      var runs := s.runs + [nr];
      assert Chains(b) == runs;
      assert Ring(top, NeighborSize) == top;
      if b[j] {
        if m < NeighborSize - s.len {
          var r :| 0 <= r < |s.runs| && OnRun(s.runs[r], j);
          assert runs[r] == s.runs[r];
        } else {
          RingBack(top, NeighborSize, s.len, m - (NeighborSize - s.len));
          assert OnRun(runs[|s.runs|], j);
        }
      }
      if OnSome(runs, j) {
        var r :| 0 <= r < |runs| && OnRun(runs[r], j);
        if r == |s.runs| {
          var t :| 0 <= t < nr.len && j == Ring(nr.start, t);
          RingBack(top, NeighborSize, s.len, t);
        } else {
          assert runs[r] == s.runs[r];
        }
      }
    }
  }

  /** An entry of `dic` marks only cells the pattern leaves possibly black. */
  lemma RegionEntryWithin(kinds: seq<seq<int>>, ty: nat, id: nat, j: nat)
    requires ty < |kinds| && j < NeighborSize
    ensures Bit(RegionEntry(kinds, ty, id), Low(j)) ==> Bits(id)[j]
  {
    RegionEntryBits(kinds, ty, id, j);
    ChainsCover(Bits(id), j);
  }

  /** The first `n` cells of a run are different cells. */
  lemma RingApart(start: nat, s: nat, t: nat)
    requires start < NeighborSize && s < NeighborSize && t < NeighborSize
    ensures Ring(start, s) == Ring(start, t) <==> s == t
  {
  }

  /** Excluding a run flips the bits of its cells and keeps the rest. */
  lemma {:induction false} FlipBits(b: seq<bool>, r: Run, n: nat, j: nat)
    requires |b| == NeighborSize && ValidRun(r) && n <= r.len && j < NeighborSize
    ensures Flip(b, r, n)[j] == if exists t :: 0 <= t < n && j == Ring(r.start, t) then !b[j] else b[j]
  {
    if n > 0 {
      FlipBits(b, r, n - 1, j);
      if j == Ring(r.start, n - 1) {
        forall t | 0 <= t < n - 1
          ensures j != Ring(r.start, t)
        {
          RingApart(r.start, t, n - 1);
        }
      }
    }
  }

  // ---- the parts table ----

  /** `dic`: slot `ty * 256 + id` holds entry `(ty, id)`. */
  ghost predicate IsRegionTable(kinds: seq<seq<int>>, dic: seq<bv32>) {
    && |dic| == |kinds| * RegionCount
    && forall ty: nat, id: nat {:trigger RegionEntry(kinds, ty, id)} :: ty < |kinds| && id < RegionCount ==>
         dic[ty * RegionCount + id] == RegionEntry(kinds, ty, id)
  }

  lemma RegionSlot(ty: nat, id: nat, n: nat)
    requires ty < n && id < RegionCount
    ensures ty * RegionCount + id < n * RegionCount
  {
  }

  /** The slot of entry `(ty, id)` lies in the table and holds that entry. */
  lemma RegionLookup(kinds: seq<seq<int>>, dic: seq<bv32>, ty: nat, id: nat)
    requires IsRegionTable(kinds, dic) && ty < |kinds| && id < RegionCount
    ensures ty * RegionCount + id < |dic| && dic[ty * RegionCount + id] == RegionEntry(kinds, ty, id)
  {
    RegionSlot(ty, id, |kinds|);
  }

  lemma RegionBefore(t: nat, ty: nat, id: nat)
    requires t < ty && id < RegionCount
    ensures t * RegionCount + id < ty * RegionCount
  {
  }

  /** Block `ty` of `dic`. */
  method FillRegionBlock(kinds: seq<seq<int>>, np: seq<bv32>, ty: nat, a: array<bv32>)
    requires IsNeighborTable(kinds, np) && ty < |kinds| && a.Length == |kinds| * RegionCount
    modifies a
    ensures forall id: nat {:trigger RegionEntry(kinds, ty, id)} :: id < RegionCount ==>
      a[ty * RegionCount + id] == RegionEntry(kinds, ty, id)
    ensures forall s :: 0 <= s < a.Length && !(ty * RegionCount <= s < ty * RegionCount + RegionCount) ==> a[s] == old(a[s])
  {
    var patId := 0;
    while patId < RegionCount
      invariant 0 <= patId <= RegionCount
      invariant forall id: nat {:trigger RegionEntry(kinds, ty, id)} :: id < patId ==>
        a[ty * RegionCount + id] == RegionEntry(kinds, ty, id)
      invariant forall s :: 0 <= s < a.Length && !(ty * RegionCount <= s < ty * RegionCount + RegionCount) ==> a[s] == old(a[s])
    {
      var parts := RegionParts(kinds, np, ty, patId);
      RegionSlot(ty, patId, |kinds|);
      ghost var prev := a[..];
      a[ty * RegionCount + patId] := parts;
      forall id: nat | id < patId + 1
        ensures a[ty * RegionCount + id] == RegionEntry(kinds, ty, id)
      {
        if id < patId {
          assert a[ty * RegionCount + id] == prev[ty * RegionCount + id];
        }
      }
      patId := patId + 1;
    }
  }

  /** The first loop of `ConsecutiveRegionDictionary::new`: `dic` for every clue kind and pattern. */
  method BuildRegion(kinds: seq<seq<int>>, np: seq<bv32>) returns (dic: seq<bv32>)
    requires IsNeighborTable(kinds, np)
    ensures IsRegionTable(kinds, dic)
  {
    var a := new bv32[|kinds| * RegionCount];
    var ty := 0;
    while ty < |kinds|
      invariant 0 <= ty <= |kinds|
      invariant forall t: nat, id: nat {:trigger RegionEntry(kinds, t, id)} :: t < ty && id < RegionCount ==>
        a[t * RegionCount + id] == RegionEntry(kinds, t, id)
    {
      ghost var before := a[..];
      FillRegionBlock(kinds, np, ty, a);
      forall t: nat, id: nat | t < ty + 1 && id < RegionCount
        ensures a[t * RegionCount + id] == RegionEntry(kinds, t, id)
      {
        if t < ty {
          RegionBefore(t, ty, id);
          assert a[t * RegionCount + id] == before[t * RegionCount + id];
        } else {
          assert t == ty;
        }
      }
      ty := ty + 1;
    }
    dic := a[..];
  }

  // ---- the directions along the ring ----

  /** `DICTIONARY_NEIGHBOR_OFFSET`: the neighbours of a clue cell, clockwise from the upper left. */
  const NeighborOffset: seq<Dir> := [Dir(-1, -1), Dir(0, -1), Dir(1, -1), Dir(1, 0), Dir(1, 1), Dir(0, 1), Dir(-1, 1), Dir(-1, 0)]

  const AdjacencySize: nat := 4
  /** `CONSECUTIVE_DICTIONARY_ADJACENCY_OFFSET`: the four sides of a cell. */
  const AdjacencyOffset: seq<Dir> := [Dir(-1, 0), Dir(0, -1), Dir(1, 0), Dir(0, 1)]

  /** Side `j` of a cell at `from` leads to the cell at `to`. */
  predicate Leads(from: Dir, to: Dir, j: nat)
    requires j < AdjacencySize
  {
    to == DirAdd(from, AdjacencyOffset[j])
  }

  /** The last of the first `n` sides that leads from `from` to `to`, 0 when none does. */
  function LastSide(from: Dir, to: Dir, n: nat): int
    requires n <= AdjacencySize
  {
    if n == 0 then 0
    else if Leads(from, to, n - 1) then n - 1
    else LastSide(from, to, n - 1)
  }

  /** When some side leads there, the last match is such a side. */
  lemma {:induction false} LastSideLeads(from: Dir, to: Dir, n: nat, j: nat)
    requires j < n <= AdjacencySize && Leads(from, to, j)
    ensures 0 <= LastSide(from, to, n) < AdjacencySize && Leads(from, to, LastSide(from, to, n))
  {
    if j < n - 1 && !Leads(from, to, n - 1) {
      LastSideLeads(from, to, n - 1, j);
    }
  }

  /** At most one side leads from one cell to another. */
  lemma SideUnique(from: Dir, to: Dir, j: nat, k: nat)
    requires j < AdjacencySize && k < AdjacencySize && Leads(from, to, j) && Leads(from, to, k)
    ensures j == k
  {
  }

  /** Neighbour `(i + 7) % 8`, the one before neighbour `i`. */
  function PrevNeighbor(i: nat): (k: nat)
    ensures k < NeighborSize
  {
    (i + 7) % 8
  }

  /** Neighbour `(i + 1) % 8`, the one after neighbour `i`. */
  function NextNeighbor(i: nat): (k: nat)
    ensures k < NeighborSize
  {
    (i + 1) % 8
  }

  /** `prev_direction[i]`: the last side of neighbour `i` that leads to neighbour `(i + 7) % 8`. */
  function PrevDirection(i: nat): int
    requires i < NeighborSize
  {
    LastSide(NeighborOffset[i], NeighborOffset[PrevNeighbor(i)], 4)
  }

  /** `next_direction[i]`: the last side of neighbour `i` that leads to neighbour `(i + 1) % 8`. */
  function NextDirection(i: nat): int
    requires i < NeighborSize
  {
    LastSide(NeighborOffset[i], NeighborOffset[NextNeighbor(i)], 4)
  }

  /** The neighbours on either side of neighbour `i` around the clue cell share a side with it. */
  lemma RingSides(i: nat)
    requires i < NeighborSize
    ensures Leads(NeighborOffset[i], NeighborOffset[PrevNeighbor(i)], [3, 0, 0, 1, 1, 2, 2, 3][i])
    ensures Leads(NeighborOffset[i], NeighborOffset[NextNeighbor(i)], [2, 2, 3, 3, 0, 0, 1, 1][i])
  {
    if i < 4 {
      assert i == 0 || i == 1 || i == 2 || i == 3;
    } else {
      assert i == 4 || i == 5 || i == 6 || i == 7;
    }
  }

  /**
   * Consecutive neighbours around a clue cell share a side: the direction
   * tables give, for each neighbour, the one side that leads to the
   * neighbour before it and the one that leads to the neighbour after it.
   */
  lemma DirectionsAdjacent(i: nat)
    requires i < NeighborSize
    ensures 0 <= PrevDirection(i) < AdjacencySize && 0 <= NextDirection(i) < AdjacencySize
    ensures Leads(NeighborOffset[i], NeighborOffset[PrevNeighbor(i)], PrevDirection(i))
    ensures Leads(NeighborOffset[i], NeighborOffset[NextNeighbor(i)], NextDirection(i))
    ensures forall j :: 0 <= j < AdjacencySize && Leads(NeighborOffset[i], NeighborOffset[PrevNeighbor(i)], j) ==> j == PrevDirection(i)
    ensures forall j :: 0 <= j < AdjacencySize && Leads(NeighborOffset[i], NeighborOffset[NextNeighbor(i)], j) ==> j == NextDirection(i)
  {
    RingSides(i);
    var from := NeighborOffset[i];
    LastSideLeads(from, NeighborOffset[PrevNeighbor(i)], 4, [3, 0, 0, 1, 1, 2, 2, 3][i]);
    LastSideLeads(from, NeighborOffset[NextNeighbor(i)], 4, [2, 2, 3, 3, 0, 0, 1, 1][i]);
    forall j | 0 <= j < AdjacencySize && Leads(from, NeighborOffset[PrevNeighbor(i)], j)
      ensures j == PrevDirection(i)
    {
      SideUnique(from, NeighborOffset[PrevNeighbor(i)], j, PrevDirection(i));
    }
    forall j | 0 <= j < AdjacencySize && Leads(from, NeighborOffset[NextNeighbor(i)], j)
      ensures j == NextDirection(i)
    {
      SideUnique(from, NeighborOffset[NextNeighbor(i)], j, NextDirection(i));
    }
  }

  /** The loop of `ConsecutiveRegionDictionary::new` that fills `prev_direction` and `next_direction`. */
  method Directions() returns (prev: seq<int>, next: seq<int>)
    ensures |prev| == NeighborSize && |next| == NeighborSize
    ensures forall i :: 0 <= i < NeighborSize ==> prev[i] == PrevDirection(i) && next[i] == NextDirection(i)
  {
    prev, next := [], [];
    var i := 0;
    while i < NeighborSize
      invariant 0 <= i <= NeighborSize && |prev| == i && |next| == i
      invariant forall k :: 0 <= k < i ==> prev[k] == PrevDirection(k) && next[k] == NextDirection(k)
    {
      var p, n := SidesOf(NeighborOffset[i], NeighborOffset[PrevNeighbor(i)], NeighborOffset[NextNeighbor(i)]);
      ghost var prev0, next0 := prev, next;
      prev, next := prev + [p], next + [n];
      forall k | 0 <= k < i + 1
        ensures prev[k] == PrevDirection(k) && next[k] == NextDirection(k)
      {
        if k < i {
          assert prev[k] == prev0[k] && next[k] == next0[k];
        }
      }
      i := i + 1;
    }
  }

  /** The inner loop: the last sides of a cell at `from` that lead to `toPrev` and to `toNext`. */
  method SidesOf(from: Dir, toPrev: Dir, toNext: Dir) returns (p: int, n: int)
    ensures p == LastSide(from, toPrev, AdjacencySize) && n == LastSide(from, toNext, AdjacencySize)
  {
    p, n := 0, 0;
    var j := 0;
    while j < AdjacencySize
      invariant 0 <= j <= AdjacencySize
      invariant p == LastSide(from, toPrev, j) && n == LastSide(from, toNext, j)
    {
      var d := AdjacencyOffset[j];
      if toPrev == DirAdd(from, d) {
        p := j;
      }
      if toNext == DirAdd(from, d) {
        n := j;
      }
      j := j + 1;
    }
  }

  // ---- chain sizes and removals ----

  /** Neighbour `t` steps from `nb`: forward `(nb + t) % 8`, backward `(nb + 8 - t) % 8`. */
  function Toward(nb: nat, t: nat, forward: bool): (i: nat)
    requires nb < NeighborSize && t <= NeighborSize
    ensures i < NeighborSize
  {
    if forward then Ring(nb, t) else Back(nb, t)
  }

  /**
   * `prev_count` (backward) or `next_count` (forward) after the first `n`
   * steps of its loop: the set bits met going away from `nb` before the
   * first clear one.
   */
  function Streak(b: seq<bool>, nb: nat, forward: bool, n: nat): (r: nat)
    requires |b| == NeighborSize && nb < NeighborSize && n < NeighborSize
    ensures r <= n
    ensures forall t :: 1 <= t <= r ==> b[Toward(nb, t, forward)]
    ensures r < n ==> !b[Toward(nb, r + 1, forward)]
  {
    if n == 0 then 0
    else
      var s := Streak(b, nb, forward, n - 1);
      if s == n - 1 && b[Toward(nb, n, forward)] then n else s
  }

  /** Once the loop has broken off, later steps leave the count alone. */
  lemma {:induction false} StreakStays(b: seq<bool>, nb: nat, forward: bool, m: nat, n: nat)
    requires |b| == NeighborSize && nb < NeighborSize && m <= n < NeighborSize
    requires Streak(b, nb, forward, m) < m
    ensures Streak(b, nb, forward, n) == Streak(b, nb, forward, m)
  {
    if n > m {
      StreakStays(b, nb, forward, m, n - 1);
    }
  }

  /** One of the two counting loops, with its `break`. */
  method CountStreak(b: seq<bool>, nb: nat, forward: bool) returns (count: nat)
    requires |b| == NeighborSize && nb < NeighborSize
    ensures count == Streak(b, nb, forward, NeighborSize - 1)
  {
    count := 0;
    var i := 1;
    while i < NeighborSize
      invariant 1 <= i <= NeighborSize && count == i - 1 && count == Streak(b, nb, forward, i - 1)
    {
      if b[Toward(nb, i, forward)] {
        count := count + 1;
      } else {
        StreakStays(b, nb, forward, i, NeighborSize - 1);
        return;
      }
      i := i + 1;
    }
  }

  /** `chain_size_dic` at pattern `id` and neighbour `nb`: 0 off the pattern, 8 when every bit is set. */
  function ChainSizeEntry(id: nat, nb: nat): int
    requires nb < NeighborSize
  {
    var b := Bits(id);
    if !b[nb] then 0
    else if id == RegionCount - 1 then 8
    else Streak(b, nb, false, NeighborSize - 1) + 1 + Streak(b, nb, true, NeighborSize - 1)
  }

  /**
   * `removal_dic` at pattern `id`, neighbour `nb` and side `adj`: with
   * cells on both sides of `nb` in its chain, the side towards each holds
   * the number of cells that way; the next side is written last.
   */
  function RemovalEntry(id: nat, nb: nat, adj: nat): int
    requires nb < NeighborSize
  {
    var b := Bits(id);
    if !b[nb] || id == RegionCount - 1 then 0
    else
      var p, n := Streak(b, nb, false, NeighborSize - 1), Streak(b, nb, true, NeighborSize - 1);
      if p > 0 && n > 0 then
        if adj == NextDirection(nb) then n else if adj == PrevDirection(nb) then p else 0
      else 0
  }

  /** Every neighbour other than `nb` lies some `t` in 1..7 steps back from it. */
  lemma BackReach(nb: nat, j: nat)
    requires nb < NeighborSize && j < NeighborSize && j != nb
    ensures exists t :: 1 <= t < NeighborSize && j == Back(nb, t)
  {
    var t := if j < nb then nb - j else nb + 8 - j;
    assert j == Back(nb, t);
  }

  /**
   * On a pattern with a clear bit, the chain through a set neighbour `nb`
   * is a maximal run: `prev_count` set cells behind `nb` and `next_count`
   * ahead of it, a clear cell just past either end, and `chain_size` cells
   * in all.
   */
  lemma ChainRun(id: nat, nb: nat)
    requires id < RegionCount && nb < NeighborSize && Bits(id)[nb] && id != RegionCount - 1
    ensures var b := Bits(id);
      var p, n := Streak(b, nb, false, NeighborSize - 1), Streak(b, nb, true, NeighborSize - 1);
      && p < NeighborSize - 1 && n < NeighborSize - 1
      && (forall t :: 1 <= t <= p ==> b[Back(nb, t)]) && !b[Back(nb, p + 1)]
      && (forall t :: 1 <= t <= n ==> b[Ring(nb, t)]) && !b[Ring(nb, n + 1)]
      && ChainSizeEntry(id, nb) == p + 1 + n
  {
    var b := Bits(id);
    var p, n := Streak(b, nb, false, NeighborSize - 1), Streak(b, nb, true, NeighborSize - 1);
    RegionCountPow();
    if p == NeighborSize - 1 || n == NeighborSize - 1 {
      forall j | 0 <= j < NeighborSize
        ensures BitsN(id, NeighborSize)[j]
      {
        if j != nb {
          BackReach(nb, j);
          var t :| 1 <= t < NeighborSize && j == Back(nb, t);
          if n == NeighborSize - 1 {
            assert j == Ring(nb, NeighborSize - t);
            assert b[Toward(nb, NeighborSize - t, true)];
          } else {
            assert b[Toward(nb, t, false)];
          }
        }
      }
      AllSet(id, NeighborSize);
      assert false;
    }
    forall t | 1 <= t <= p
      ensures b[Back(nb, t)]
    {
      assert b[Toward(nb, t, false)];
    }
    forall t | 1 <= t <= n
      ensures b[Ring(nb, t)]
    {
      assert b[Toward(nb, t, true)];
    }
    assert !b[Toward(nb, p + 1, false)] && !b[Toward(nb, n + 1, true)];
  }

  /** Only set neighbours of a pattern that is not all set have removal entries, on the two sides of their chain. */
  lemma RemovalSides(id: nat, nb: nat, adj: nat)
    requires id < RegionCount && nb < NeighborSize && adj < AdjacencySize
    ensures RemovalEntry(id, nb, adj) != 0 ==>
      && Bits(id)[nb] && id != RegionCount - 1
      && (adj == PrevDirection(nb) || adj == NextDirection(nb))
      && 0 < RemovalEntry(id, nb, adj) < ChainSizeEntry(id, nb)
  {
  }

  // ---- the chain tables ----

  /** `chain_size_dic` filled below slot `upto`, zero from there on: slot `c` is pattern `c / 8`, neighbour `c % 8`. */
  ghost predicate ChainSizeDone(cs: seq<int>, upto: nat) {
    forall c :: 0 <= c < |cs| ==> cs[c] == if c < upto then ChainSizeEntry(c / 8, c % 8) else 0
  }

  /** `removal_dic` filled for the first `upto` pattern-neighbour pairs: slot `s` is pair `s / 4`, side `s % 4`. */
  ghost predicate RemovalDone(rm: seq<int>, upto: nat) {
    forall s :: 0 <= s < |rm| ==> rm[s] == if s < upto * 4 then RemovalEntry(s / 32, (s / 4) % 8, s % 4) else 0
  }

  /** The slots of pattern `id`, neighbour `nb`. */
  lemma SlotOf(id: nat, nb: nat, adj: nat)
    requires nb < NeighborSize && adj < AdjacencySize
    ensures (id * 8 + nb) / 8 == id && (id * 8 + nb) % 8 == nb
    ensures ((id * 8 + nb) * 4 + adj) / 32 == id && (((id * 8 + nb) * 4 + adj) / 4) % 8 == nb
    ensures ((id * 8 + nb) * 4 + adj) % 4 == adj
  {
  }

  /** Filling slot `c` of `chain_size_dic` with its entry moves the filled part one slot on. */
  lemma ChainSizeStep(before: seq<int>, after: seq<int>, id: nat, nb: nat)
    requires nb < NeighborSize && id * 8 + nb < |before| == |after|
    requires ChainSizeDone(before, id * 8 + nb)
    requires forall c :: 0 <= c < |after| && c != id * 8 + nb ==> after[c] == before[c]
    requires after[id * 8 + nb] == ChainSizeEntry(id, nb)
    ensures ChainSizeDone(after, id * 8 + nb + 1)
  {
    SlotOf(id, nb, 0);
  }

  /** Filling the four slots of pair `c` of `removal_dic` with their entries moves the filled part one pair on. */
  lemma RemovalStep(before: seq<int>, after: seq<int>, id: nat, nb: nat)
    requires nb < NeighborSize && (id * 8 + nb) * 4 + 4 <= |before| == |after|
    requires RemovalDone(before, id * 8 + nb)
    requires forall s :: 0 <= s < |after| && !((id * 8 + nb) * 4 <= s < (id * 8 + nb) * 4 + 4) ==> after[s] == before[s]
    requires forall adj :: 0 <= adj < AdjacencySize ==> after[(id * 8 + nb) * 4 + adj] == RemovalEntry(id, nb, adj)
    ensures RemovalDone(after, id * 8 + nb + 1)
  {
    var c := id * 8 + nb;
    forall s | 0 <= s < |after|
      ensures after[s] == if s < (c + 1) * 4 then RemovalEntry(s / 32, (s / 4) % 8, s % 4) else 0
    {
      if c * 4 <= s < c * 4 + 4 {
        SlotOf(id, nb, s - c * 4);
        assert after[c * 4 + (s - c * 4)] == RemovalEntry(id, nb, s - c * 4);
      }
    }
  }

  /** The counts of the loop body, before they are written: the entries of pattern `id` at neighbour `nb`. */
  method ChainCounts(id: nat, nb: nat, b: seq<bool>) returns (p: int, n: int)
    requires id < RegionCount && nb < NeighborSize && b == Bits(id) && b[nb]
    ensures ChainSizeEntry(id, nb) == p + 1 + n
    ensures forall adj :: 0 <= adj < AdjacencySize ==>
      RemovalEntry(id, nb, adj) == if p > 0 && n > 0 && adj == NextDirection(nb) then n
        else if p > 0 && n > 0 && adj == PrevDirection(nb) then p else 0
  {
    p, n := 0, 0;
    if id == RegionCount - 1 {
      p := 7;
    } else {
      p := CountStreak(b, nb, false);
      n := CountStreak(b, nb, true);
    }
  }

  /** The body of the loop over neighbours: the chain size and removals of neighbour `nb` of pattern `id`. */
  method FillChainCell(id: nat, nb: nat, b: seq<bool>, prev: seq<int>, next: seq<int>, cs: array<int>, rm: array<int>)
    requires id < RegionCount && nb < NeighborSize && b == Bits(id)
    requires |prev| == NeighborSize && |next| == NeighborSize
    requires forall i :: 0 <= i < NeighborSize ==> prev[i] == PrevDirection(i) && next[i] == NextDirection(i)
    requires cs.Length == RegionCount * NeighborSize && rm.Length == RegionCount * NeighborSize * AdjacencySize && cs != rm
    requires ChainSizeDone(cs[..], id * 8 + nb) && RemovalDone(rm[..], id * 8 + nb)
    modifies cs, rm
    ensures ChainSizeDone(cs[..], id * 8 + nb + 1) && RemovalDone(rm[..], id * 8 + nb + 1)
  {
    var c := id * 8 + nb;
    ghost var cs0, rm0 := cs[..], rm[..];
    if !b[nb] {
      ChainSizeStep(cs0, cs[..], id, nb);
      RemovalStep(rm0, rm[..], id, nb);
      return;
    }
    var p, n := ChainCounts(id, nb, b);
    cs[c] := p + 1 + n;
    DirectionsAdjacent(nb);
    if p > 0 && n > 0 {
      rm[c * 4 + prev[nb]] := p;
      rm[c * 4 + next[nb]] := n;
    }
    ChainSizeStep(cs0, cs[..], id, nb);
    RemovalStep(rm0, rm[..], id, nb);
  }

  /** The second loop of `ConsecutiveRegionDictionary::new`: `chain_size_dic` and `removal_dic`. */
  method BuildChainTables(prev: seq<int>, next: seq<int>) returns (removal: seq<int>, chainSize: seq<int>)
    requires |prev| == NeighborSize && |next| == NeighborSize
    requires forall i :: 0 <= i < NeighborSize ==> prev[i] == PrevDirection(i) && next[i] == NextDirection(i)
    ensures IsChainTables(removal, chainSize)
  {
    var rm := new int[RegionCount * NeighborSize * AdjacencySize](_ => 0);
    var cs := new int[RegionCount * NeighborSize](_ => 0);
    var id := 0;
    while id < RegionCount
      invariant 0 <= id <= RegionCount
      invariant ChainSizeDone(cs[..], id * 8) && RemovalDone(rm[..], id * 8)
    {
      var b := BitsOf(id);
      var nb := 0;
      while nb < NeighborSize
        invariant 0 <= nb <= NeighborSize
        invariant ChainSizeDone(cs[..], id * 8 + nb) && RemovalDone(rm[..], id * 8 + nb)
      {
        FillChainCell(id, nb, b, prev, next, cs, rm);
        nb := nb + 1;
      }
      id := id + 1;
    }
    removal, chainSize := rm[..], cs[..];
  }

  // ---- the dictionary ----

  /** `ConsecutiveRegionDictionary`: the parts table, the removal table and the chain sizes. */
  datatype Consecutive = Consecutive(dic: seq<bv32>, removalDic: seq<int>, chainSizeDic: seq<int>)

  /** The two tables of chain sizes and removals, filled for all 256 patterns. */
  ghost predicate IsChainTables(removal: seq<int>, chainSize: seq<int>) {
    && |chainSize| == RegionCount * NeighborSize
    && |removal| == RegionCount * NeighborSize * AdjacencySize
    && ChainSizeDone(chainSize, RegionCount * NeighborSize)
    && RemovalDone(removal, RegionCount * NeighborSize)
  }

  /** Each of the three tables holds what its definition gives, the parts table for every kind of `CLUE_VALUES`. */
  ghost predicate ValidConsecutive(t: Consecutive) {
    IsRegionTable(ClueValues, t.dic) && IsChainTables(t.removalDic, t.chainSizeDic)
  }

  /** `ConsecutiveRegionDictionary::new`, from the neighbour table of `Dictionary`. */
  method NewConsecutive(d: Dictionary) returns (t: Consecutive)
    requires ValidDictionary(d)
    ensures ValidConsecutive(t)
  {
    var dic := BuildRegion(ClueValues, d.neighborPattern);
    var prev, next := Directions();
    var removal, chainSize := BuildChainTables(prev, next);
    t := Consecutive(dic, removal, chainSize);
  }

  /** `consult`: which neighbours of clue `c` lie on chains of pattern `code` that must hold a black cell. */
  function Consult(t: Consecutive, c: Clue, code: nat): (r: bv32)
    requires ValidConsecutive(t) && 0 <= c.id < ClueTypes && code < RegionCount
    ensures r == RegionEntry(ClueValues, c.id, code)
  {
    RegionLookup(ClueValues, t.dic, c.id, code);
    t.dic[c.id * RegionCount + code]
  }

  /** `consult_removal`: how far the chain of pattern `code` through neighbour `nb` runs towards side `adj`. */
  function ConsultRemoval(t: Consecutive, code: nat, nb: nat, adj: nat): (r: int)
    requires ValidConsecutive(t) && code < RegionCount && nb < NeighborSize && adj < AdjacencySize
    ensures r == RemovalEntry(code, nb, adj)
  {
    SlotOf(code, nb, adj);
    t.removalDic[(code * NeighborSize + nb) * AdjacencySize + adj]
  }

  /** `chain_size`: the length of the chain of pattern `code` through neighbour `nb`. */
  function ChainSize(t: Consecutive, code: nat, nb: nat): (r: int)
    requires ValidConsecutive(t) && code < RegionCount && nb < NeighborSize
    ensures r == ChainSizeEntry(code, nb)
  {
    SlotOf(code, nb, 0);
    t.chainSizeDic[code * NeighborSize + nb]
  }
}
