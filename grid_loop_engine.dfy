/**
 * The loop-chain engine `GridLoop` of src/grid_loop/mod.rs.
 *
 * The engine owns a lattice of `(2h + 1) x (2w + 1)` slots. Slots whose row
 * and column are both even are vertices, slots whose row and column differ
 * in parity are edges. Every edge lies in a chain (see GridLoopChains); a
 * decision paints a whole chain, and joining two chains at a shared vertex
 * splices their cycles. Vertices whose neighbourhood changed are queued and
 * inspected until the queue runs dry.
 *
 * Every internal operation requires the queue to be running, as the source
 * only reaches them through a `QueueActiveGridLoopField` handle; the public
 * `DecideEdge` and `Check` start and drain the queue when it is idle.
 */
module GridLoopEngine {
  import opened Common
  import opened Edges = GridLoop
  import opened GridLoopChains

  /** What one propagation step may change, seen from outside. */
  datatype Snapshot = Snapshot(items: seq<Item>, chainOf: seq<nat>, measure: nat, pending: seq<nat>, inconsistent: bool)

  /**
   * `b` follows `a` by propagation: decided edges keep their status, chains
   * only merge, an inconsistency stays, and either some edge got decided or
   * some chains merged (the measure fell) or the queue is as it was.
   */
  ghost predicate Follows(a: Snapshot, b: Snapshot) {
    && Extends(a.items, b.items)
    && Coarsens(a.chainOf, b.chainOf)
    && (a.inconsistent ==> b.inconsistent)
    && (b.measure < a.measure || (b.measure == a.measure && b.pending == a.pending))
  }

  /** `b` differs from `a` only in undecided positions turned to `s`. */
  ghost predicate PaintsOnly(a: seq<Item>, b: seq<Item>, s: Edge) {
    |b| == |a| && forall i :: 0 <= i < |a| ==> b[i].status == a[i].status || (a[i].status == Undecided && b[i].status == s)
  }

  /** Slot `i`, when it is an edge, is decided. */
  ghost predicate DecidedAt(items: seq<Item>, isEdge: seq<bool>, i: int) {
    0 <= i < |items| && i < |isEdge| && isEdge[i] ==> items[i].status != Undecided
  }

  /** The first `k` slots named in `E` are decided. */
  ghost predicate SettledUpTo(items: seq<Item>, E: seq<nat>, k: int) {
    forall i :: 0 <= i < k && i < |E| ==> Settled(items, E[i])
  }

  ghost predicate Settled(items: seq<Item>, v: nat) {
    v < |items| && items[v].status != Undecided
  }

  /** Settled slots stay settled as decisions are added, and one more joins them. */
  lemma SettledStep(a: seq<Item>, b: seq<Item>, E: seq<nat>, k: nat)
    requires Extends(a, b) && SettledUpTo(a, E, k) && k < |E| && Settled(b, E[k])
    ensures SettledUpTo(b, E, k + 1)
  {
    forall i | 0 <= i < k + 1 && i < |E|
      ensures Settled(b, E[i])
    {
      if i < k {
        assert Settled(a, E[i]);
      }
    }
  }

  lemma SettledAll(items: seq<Item>, E: seq<nat>)
    requires SettledUpTo(items, E, |E|)
    ensures forall v :: v in E ==> v < |items| && items[v].status != Undecided
  {
    forall v | v in E
      ensures v < |items| && items[v].status != Undecided
    {
      var i :| 0 <= i < |E| && E[i] == v;
      assert Settled(items, E[i]);
    }
  }

  /** The cell `(y, x)` of a lattice `cols` wide, when it is an edge, is decided. */
  ghost predicate DecidedCell(items: seq<Item>, isEdge: seq<bool>, cols: nat, y: int, x: int) {
    DecidedAt(items, isEdge, y * cols + x)
  }

  /** Every edge in rows `0` to `y - 1` is decided. */
  ghost predicate RowsDecided(items: seq<Item>, isEdge: seq<bool>, cols: nat, y: int) {
    forall r, x :: 0 <= r < y && 0 <= x < cols ==> DecidedCell(items, isEdge, cols, r, x)
  }

  /** Every edge in row `y` left of column `x` is decided. */
  ghost predicate RowPrefix(items: seq<Item>, isEdge: seq<bool>, cols: nat, y: int, x: int) {
    forall c :: 0 <= c < x ==> DecidedCell(items, isEdge, cols, y, c)
  }

  /** Decided rows stay decided as decisions are added. */
  lemma RowsExtend(a: seq<Item>, b: seq<Item>, isEdge: seq<bool>, cols: nat, y: int)
    requires Extends(a, b) && RowsDecided(a, isEdge, cols, y)
    ensures RowsDecided(b, isEdge, cols, y)
  {
    forall r, x | 0 <= r < y && 0 <= x < cols
      ensures DecidedCell(b, isEdge, cols, r, x)
    {
      assert DecidedCell(a, isEdge, cols, r, x);
    }
  }

  /** A decided row prefix grows by the cell just decided. */
  lemma RowPrefixStep(a: seq<Item>, b: seq<Item>, isEdge: seq<bool>, cols: nat, y: int, x: int)
    requires Extends(a, b) && RowPrefix(a, isEdge, cols, y, x) && DecidedCell(b, isEdge, cols, y, x)
    ensures RowPrefix(b, isEdge, cols, y, x + 1)
  {
    forall c | 0 <= c < x + 1
      ensures DecidedCell(b, isEdge, cols, y, c)
    {
      if c < x {
        assert DecidedCell(a, isEdge, cols, y, c);
      }
    }
  }

  /** A fully decided row `y` extends the decided rows. */
  lemma RowsNext(items: seq<Item>, isEdge: seq<bool>, cols: nat, y: int)
    requires RowsDecided(items, isEdge, cols, y) && RowPrefix(items, isEdge, cols, y, cols)
    ensures RowsDecided(items, isEdge, cols, y + 1)
  {
    forall r, x | 0 <= r < y + 1 && 0 <= x < cols
      ensures DecidedCell(items, isEdge, cols, r, x)
    {
      if r == y {
        assert DecidedCell(items, isEdge, cols, y, x);
      }
    }
  }

  /** With every row decided, no edge is undecided. */
  lemma NoneUndecided(items: seq<Item>, isEdge: seq<bool>, rows: nat, cols: nat)
    requires |isEdge| == |items| == rows * cols && cols > 0 && RowsDecided(items, isEdge, cols, rows)
    ensures UndecidedSet(items, isEdge) == {}
  {
    forall e: nat | e < |items| && isEdge[e]
      ensures items[e].status != Undecided
    {
      SlotRow(rows, cols, e);
      DivMod(e, cols);
      assert DecidedCell(items, isEdge, cols, e / cols, e % cols);
    }
  }

  lemma PaintsOnlyTrans(a: seq<Item>, b: seq<Item>, c: seq<Item>, s: Edge)
    requires PaintsOnly(a, b, s) && PaintsOnly(b, c, s)
    ensures PaintsOnly(a, c, s)
  {
  }

  /** `c` with `v` appended unless already present: a push onto the queue. */
  function AddNew(c: seq<nat>, v: nat): seq<nat> {
    if v in c then c else c + [v]
  }

  lemma AddNewFacts(c: seq<nat>, a: nat, b: nat)
    ensures a in AddNew(AddNew(c, a), b) && b in AddNew(AddNew(c, a), b)
    ensures forall v :: v in c ==> v in AddNew(AddNew(c, a), b)
    ensures forall v :: v in AddNew(AddNew(c, a), b) ==> v in c || v == a || v == b
  {
  }

  lemma FollowsTrans(a: Snapshot, b: Snapshot, c: Snapshot)
    requires Follows(a, b) && Follows(b, c)
    ensures Follows(a, c)
  {
    ExtendsTrans(a.items, b.items, c.items);
    CoarsensTrans(a.chainOf, b.chainOf, c.chainOf);
  }

  /**
   * The table `new` fills in before its corner joins: every edge slot is a
   * chain of its own between its two vertices, every other slot a blank item.
   */
  method InitialTable(rows: nat, cols: nat) returns (t: seq<Item>)
    requires cols > 0
    ensures t == InitialItems(rows, cols)
  {
    t := seq(rows * cols, _ => Item(Undecided, (0, 0), 0, 0, 0));
    var y := 0;
    while y < rows
      invariant 0 <= y <= rows && |t| == rows * cols
      invariant forall i :: 0 <= i < rows * cols ==> t[i] == if i < y * cols then InitialItem(cols, i) else Item(Undecided, (0, 0), 0, 0, 0)
    {
      var x := 0;
      while x < cols
        invariant 0 <= x <= cols && |t| == rows * cols
        invariant forall i :: 0 <= i < rows * cols ==> t[i] == if i < y * cols + x then InitialItem(cols, i) else Item(Undecided, (0, 0), 0, 0, 0)
      {
        Offset(rows, cols, y, x);
        var id := y * cols + x;
        DivModUnique(id, cols, y, x);
        if y % 2 != x % 2 {
          var it := EdgeItem(cols, y, x, id);
          t := t[id := it];
        }
        x := x + 1;
      }
      MulStep(y, cols);
      y := y + 1;
    }
  }

  /**
   * The item `new` writes at the edge `(y, x)` of slot `id`: a chain of one
   * edge between the vertices beside it, left and right on an even row,
   * above and below on an odd one.
   */
  method EdgeItem(cols: nat, y: nat, x: nat, id: nat) returns (it: Item)
    requires 0 < cols && x < cols && id == y * cols + x && y % 2 != x % 2
    ensures it == InitialItem(cols, id)
  {
    DivModUnique(id, cols, y, x);
    if y % 2 == 0 {
      it := Item(Undecided, (id - 1, id + 1), id, id, 1);
    } else {
      it := Item(Undecided, (id - cols, id + cols), id, id, 1);
    }
  }

  /**
   * The loop of `decide_chain`: follows `next` from `e` round the cycle
   * `R`, painting each edge with `s`, and counts the edges painted.
   */
  method PaintCycle(t0: seq<Item>, e: nat, s: Edge, ghost R: seq<nat>) returns (t: seq<Item>, sz: nat)
    requires Cycle(t0, R) && Distinct(R) && R[0] == e
    ensures t == Painted(t0, SeqSet(R), s) && sz == |R|
  {
    t := t0;
    var pt := e;
    sz := 0;
    while true
      invariant 0 <= sz < |R| && pt == R[sz]
      invariant t == Painted(t0, SeqSet(R[..sz]), s)
      decreases |R| - sz
    {
      PaintStep(t0, R, sz, s);
      CycleNext(t0, R, sz);
      t := t[pt := t[pt].(status := s)];
      pt := t[pt].next;
      sz := sz + 1;
      if pt == e {
        break;
      }
    }
    assert R[..sz] == R;
  }

  /** Round the cycle `R`, `next` leads from each edge to the following one, and back to the first only from the last. */
  lemma CycleNext(t: seq<Item>, R: seq<nat>, k: nat)
    requires Cycle(t, R) && Distinct(R) && k < |R|
    ensures t[R[k]].next == if k + 1 < |R| then R[k + 1] else R[0]
    ensures k + 1 < |R| ==> R[k + 1] != R[0]
  {
  }

  /** The slot of position `(y, x)` on a lattice `cols` wide: `grid.index`. */
  function Id(rows: nat, cols: nat, y: int, x: int): (id: nat)
    requires 0 <= y < rows && 0 <= x < cols
    ensures id < rows * cols
  {
    Offset(rows, cols, y, x);
    y * cols + x
  }

  /** Two end-vertex pairs share a vertex. */
  predicate SharesVertex(p: (nat, nat), q: (nat, nat)) {
    p.0 == q.0 || p.0 == q.1 || p.1 == q.0 || p.1 == q.1
  }

  /**
   * The guard of `join`: both edges are chain ends, the first does not
   * point at the second, and their chains share an end vertex.
   */
  predicate JoinGuard(items: seq<Item>, e1: nat, e2: nat) {
    && IsEnd(items, e1) && IsEnd(items, e2) && items[e1].anotherEnd != e2
    && SharesVertex(items[e1].endPoints, items[e2].endPoints)
  }

  /** The shared vertex `join` brings to the front of both pairs by its swaps. */
  function Origin(p: (nat, nat), q: (nat, nat)): (o: nat)
    requires SharesVertex(p, q)
    ensures (o == p.0 || o == p.1) && (o == q.0 || o == q.1)
  {
    if p.0 == q.0 || p.0 == q.1 then p.0 else p.1
  }

  /**
   * `another_end_id`: the end vertex of the pair `p` that is not `origin`,
   * computed as their sum less `origin`.
   */
  function AnotherEndId(p: (nat, nat), origin: int): (v: int)
    ensures origin == p.0 ==> v == p.1
    ensures origin == p.1 ==> v == p.0
  {
    p.0 + p.1 - origin
  }

  /** The guard of `join` reads only chain data, which deciding statuses leaves alone. */
  lemma GuardSkeleton(a: seq<Item>, b: seq<Item>, e1: nat, e2: nat)
    requires Skeleton(a) == Skeleton(b)
    ensures JoinGuard(a, e1, e2) == JoinGuard(b, e1, e2)
  {
    if e1 < |a| {
      SkeletonFields(a, b, e1);
      if a[e1].anotherEnd < |a| {
        SkeletonFields(a, b, a[e1].anotherEnd);
      }
    }
    if e2 < |a| {
      SkeletonFields(a, b, e2);
      if a[e2].anotherEnd < |a| {
        SkeletonFields(a, b, a[e2].anotherEnd);
      }
    }
  }

  /** The four directions `inspect_vertex` looks in, in its order. */
  const Dirs: seq<(int, int)> := [(1, 0), (0, 1), (-1, 0), (0, -1)]

  /** How far the slot one step in each direction of `Dirs` lies. */
  function Steps(cols: nat): seq<int> {
    var c: int := cols;
    [c, 1, -c, -1]
  }

  /** The slots one step from `(y, x)` in the first `k` directions that lie on the lattice, in order. */
  function Around(rows: nat, cols: nat, y: int, x: int, k: nat): (r: seq<nat>)
    requires k <= 4
    ensures |r| <= k
  {
    if k == 0 then []
    else
      var d := Dirs[k - 1];
      Around(rows, cols, y, x, k - 1) + if 0 <= y + d.0 < rows && 0 <= x + d.1 < cols then [Id(rows, cols, y + d.0, x + d.1)] else []
  }

  /**
   * Around a vertex every neighbouring slot is an edge, one step of
   * `Steps` away, and no slot comes twice.
   */
  /** The neighbour of vertex `(y, x)` in direction `k` is an edge `Steps(cols)[k]` slots away. */
  lemma AroundStep(rows: nat, cols: nat, y: int, x: int, k: nat)
    requires cols >= 3 && 0 <= y < rows && 0 <= x < cols && y % 2 == 0 && x % 2 == 0 && k < 4
    requires 0 <= y + Dirs[k].0 < rows && 0 <= x + Dirs[k].1 < cols
    ensures IsEdgeSlot(cols, Id(rows, cols, y + Dirs[k].0, x + Dirs[k].1))
    ensures Id(rows, cols, y + Dirs[k].0, x + Dirs[k].1) - (y * cols + x) == Steps(cols)[k]
  {
    var d := Dirs[k];
    var v := Id(rows, cols, y + d.0, x + d.1);
    DivModUnique(v, cols, y + d.0, x + d.1);
    assert (y + d.0) * cols == y * cols + d.0 * cols;
  }

  /**
   * Around a vertex every neighbouring slot is an edge, one step of
   * `Steps` away, and no slot comes twice.
   */
  lemma {:induction false} AroundEdges(rows: nat, cols: nat, y: int, x: int, k: nat)
    requires cols >= 3 && 0 <= y < rows && 0 <= x < cols && y % 2 == 0 && x % 2 == 0 && k <= 4
    ensures forall v :: v in Around(rows, cols, y, x, k) ==> IsEdgeSlot(cols, v) && v - (y * cols + x) in Steps(cols)[..k]
    ensures Distinct(Around(rows, cols, y, x, k))
  {
    if k > 0 {
      AroundEdges(rows, cols, y, x, k - 1);
      var A, d := Around(rows, cols, y, x, k - 1), Dirs[k - 1];
      var steps := Steps(cols);
      assert steps[..k] == steps[..k - 1] + [steps[k - 1]];
      if 0 <= y + d.0 < rows && 0 <= x + d.1 < cols {
        AroundStep(rows, cols, y, x, k - 1);
        var v := Id(rows, cols, y + d.0, x + d.1);
        assert Around(rows, cols, y, x, k) == A + [v];
        assert steps[k - 1] !in steps[..k - 1];
        assert v !in A;
      } else {
        assert Around(rows, cols, y, x, k) == A;
      }
    }
  }

  /** The slots of `ids` whose status is `s`, in order. */
  function Having(items: seq<Item>, ids: seq<nat>, s: Edge): (r: seq<nat>)
    ensures |r| <= |ids| && forall v :: v in r ==> v in ids && v < |items| && items[v].status == s
  {
    if ids == [] then []
    else
      var last := ids[|ids| - 1];
      Having(items, ids[..|ids| - 1], s) + if last < |items| && items[last].status == s then [last] else []
  }

  /** Keeping some slots of a list without repeats gives a list without repeats. */
  lemma {:induction false} HavingDistinct(items: seq<Item>, ids: seq<nat>, s: Edge)
    requires Distinct(ids)
    ensures Distinct(Having(items, ids, s))
  {
    if ids != [] {
      var front := ids[..|ids| - 1];
      HavingDistinct(items, front, s);
      assert ids[|ids| - 1] !in front;
    }
  }

  /** The line edges at vertex `(y, x)`. */
  function LinesAt(items: seq<Item>, rows: nat, cols: nat, y: int, x: int): (r: seq<nat>)
    requires |items| == rows * cols
    ensures forall v :: v in r ==> v < |items| && items[v].status == Line
  {
    Having(items, Around(rows, cols, y, x, 4), Line)
  }

  /** The undecided edges at vertex `(y, x)`. */
  function OpenAt(items: seq<Item>, rows: nat, cols: nat, y: int, x: int): (r: seq<nat>)
    requires |items| == rows * cols
    ensures forall v :: v in r ==> v < |items| && items[v].status == Undecided
  {
    Having(items, Around(rows, cols, y, x, 4), Undecided)
  }

  /** An edge whose chain ends at vertex `vid`. */
  predicate EndsAt(items: seq<Item>, e: nat, vid: nat) {
    IsEnd(items, e) && (items[e].endPoints.0 == vid || items[e].endPoints.1 == vid)
  }

  /**
   * The outcome of the candidate scan of `inspect_vertex`: an undecided
   * edge to decide blank, or the candidate (`-1` for none, `-2` for
   * several).
   */
  datatype Scan = Refuse(ud: nat) | Candidate(c: int)

  /**
   * The candidate scan of `inspect_vertex` at vertex `vid`, whose one line
   * chain has `lineSize` edges and far end `anotherEnd`, over the undecided
   * edges `uds` with the candidate so far `cand`. An undecided chain ending
   * at `vid` is a candidate unless joining it would close a loop short of
   * every line, which rules it out.
   */
  function ScanFrom(items: seq<Item>, lines: int, uds: seq<nat>, vid: nat, lineSize: int, anotherEnd: int, cand: int): (r: Scan)
    ensures r.Refuse? ==> r.ud in uds && EndsAt(items, r.ud, vid)
    ensures r.Candidate? && r.c != cand && r.c != -2 ==> r.c in uds && EndsAt(items, r.c, vid)
    ensures r == Candidate(-1) <==> cand == -1 && forall i :: 0 <= i < |uds| ==> !EndsAt(items, uds[i], vid)
    decreases |uds|
  {
    if uds == [] then Candidate(cand)
    else
      var ud := uds[0];
      if EndsAt(items, ud, vid) then
        if lineSize == lines || anotherEnd != AnotherEndId(items[ud].endPoints, vid) then
          ScanFrom(items, lines, uds[1..], vid, lineSize, anotherEnd, if cand == -1 then ud else -2)
        else
          Refuse(ud)
      else
        ScanFrom(items, lines, uds[1..], vid, lineSize, anotherEnd, cand)
  }

  /** The candidate scan at vertex `(y, x)` with exactly one line edge. */
  function VertexScan(items: seq<Item>, lines: int, rows: nat, cols: nat, y: int, x: int): Scan
    requires |items| == rows * cols && 0 <= y < rows && 0 <= x < cols && |LinesAt(items, rows, cols, y, x)| == 1
  {
    var eid := LinesAt(items, rows, cols, y, x)[0];
    assert eid in LinesAt(items, rows, cols, y, x);
    var vid := Id(rows, cols, y, x);
    ScanFrom(items, lines, OpenAt(items, rows, cols, y, x), vid, items[eid].size, AnotherEndId(items[eid].endPoints, vid), -1)
  }

  /** The edges at a vertex are edges of the lattice, each listed once. */
  lemma VertexEdges(items: seq<Item>, isEdge: seq<bool>, rows: nat, cols: nat, y: int, x: int)
    requires |items| == rows * cols && cols >= 3 && isEdge == EdgeTable(cols, rows * cols)
    requires 0 <= y < rows && 0 <= x < cols && y % 2 == 0 && x % 2 == 0
    ensures forall v :: v in LinesAt(items, rows, cols, y, x) ==> isEdge[v]
    ensures forall v :: v in OpenAt(items, rows, cols, y, x) ==> isEdge[v]
    ensures Distinct(LinesAt(items, rows, cols, y, x)) && Distinct(OpenAt(items, rows, cols, y, x))
  {
    AroundEdges(rows, cols, y, x, 4);
    HavingDistinct(items, Around(rows, cols, y, x, 4), Line);
    HavingDistinct(items, Around(rows, cols, y, x, 4), Undecided);
  }

  /** Keeping the slots of status `s` commutes with appending one slot. */
  lemma HavingSnoc(items: seq<Item>, A: seq<nat>, id: nat, s: Edge)
    ensures Having(items, A + [id], s) == Having(items, A, s) + if id < |items| && items[id].status == s then [id] else []
  {
    assert (A + [id])[..|A|] == A;
  }

  /** `Around` one direction further. */
  lemma AroundNext(rows: nat, cols: nat, y: int, x: int, k: nat)
    requires k < 4
    ensures 0 <= y + Dirs[k].0 < rows && 0 <= x + Dirs[k].1 < cols ==>
              Around(rows, cols, y, x, k + 1) == Around(rows, cols, y, x, k) + [Id(rows, cols, y + Dirs[k].0, x + Dirs[k].1)]
    ensures !(0 <= y + Dirs[k].0 < rows && 0 <= x + Dirs[k].1 < cols) ==> Around(rows, cols, y, x, k + 1) == Around(rows, cols, y, x, k)
  {
    var A := Around(rows, cols, y, x, k);
    assert A + [] == A;
  }

  /** A slot below `rows * cols` lies in one of the `rows` rows. */
  lemma SlotRow(rows: nat, cols: nat, p: nat)
    requires cols > 0 && p < rows * cols
    ensures 0 <= p / cols < rows && 0 <= p % cols < cols
  {
    DivMod(p, cols);
    if p / cols >= rows {
      MulMonotone(rows, p / cols, cols);
    }
  }

  /** The first half of `inspect_vertex`: the line and the undecided edges next to `(y, x)`, in the order of `Dirs`. */
  method Collect(items: seq<Item>, rows: nat, cols: nat, y: int, x: int) returns (line: FixVec, undecided: FixVec)
    ensures line.Valid() && line.Elems() == Having(items, Around(rows, cols, y, x, 4), Line)
    ensures undecided.Valid() && undecided.Elems() == Having(items, Around(rows, cols, y, x, 4), Undecided)
  {
    line := new FixVec();
    undecided := new FixVec();
    for k := 0 to 4
      invariant line != undecided && line.data != undecided.data
      invariant line.Valid() && line.Elems() == Having(items, Around(rows, cols, y, x, k), Line)
      invariant undecided.Valid() && undecided.Elems() == Having(items, Around(rows, cols, y, x, k), Undecided)
    {
      CollectAt(items, rows, cols, y, x, k, line, undecided);
    }
  }

  /** One direction of `Collect`: the neighbour in direction `Dirs[k]`, when it lies on the lattice. */
  method CollectAt(items: seq<Item>, rows: nat, cols: nat, y: int, x: int, k: nat, line: FixVec, undecided: FixVec)
    requires k < 4 && line.Valid() && undecided.Valid() && line != undecided && line.data != undecided.data
    requires line.Elems() == Having(items, Around(rows, cols, y, x, k), Line)
    requires undecided.Elems() == Having(items, Around(rows, cols, y, x, k), Undecided)
    modifies line, line.data, undecided, undecided.data
    ensures line.Valid() && line.Elems() == Having(items, Around(rows, cols, y, x, k + 1), Line)
    ensures undecided.Valid() && undecided.Elems() == Having(items, Around(rows, cols, y, x, k + 1), Undecided)
  {
    ghost var A := Around(rows, cols, y, x, k);
    AroundNext(rows, cols, y, x, k);
    var d := Dirs[k];
    if 0 <= y + d.0 < rows && 0 <= x + d.1 < cols {
      var id := Id(rows, cols, y + d.0, x + d.1);
      assert Around(rows, cols, y, x, k + 1) == A + [id];
      PushByStatus(items, A, id, line, undecided);
    } else {
      assert Around(rows, cols, y, x, k + 1) == A;
    }
  }

  /** Slot `id` goes to `line` when it holds a line and to `undecided` when it is undecided. */
  method PushByStatus(items: seq<Item>, ghost A: seq<nat>, id: nat, line: FixVec, undecided: FixVec)
    requires line.Valid() && undecided.Valid() && line != undecided && line.data != undecided.data
    requires line.Elems() == Having(items, A, Line) && undecided.Elems() == Having(items, A, Undecided)
    requires |A| < 4
    modifies line, line.data, undecided, undecided.data
    ensures line.Valid() && line.Elems() == Having(items, A + [id], Line)
    ensures undecided.Valid() && undecided.Elems() == Having(items, A + [id], Undecided)
  {
    HavingSnoc(items, A, id, Line);
    HavingSnoc(items, A, id, Undecided);
    if id < |items| {
      var status := items[id].status;
      if status == Line {
        line.Push(id);
      } else if status == Undecided {
        undecided.Push(id);
      }
    }
  }

  /** `FixVec`: up to four edge slots, pushed in order. */
  class FixVec {
    const data: array<nat>
    var idx: nat

    ghost predicate Valid()
      reads this
    {
      data.Length == 4 && idx <= 4
    }

    /** The slots pushed so far. */
    ghost function Elems(): seq<nat>
      reads this, data
      requires Valid()
    {
      data[..idx]
    }

    constructor ()
      ensures Valid() && Elems() == [] && fresh(data)
    {
      data := new nat[4](_ => 0);
      idx := 0;
    }

    method Push(e: nat)
      requires Valid() && |Elems()| < 4
      modifies this, data
      ensures Valid() && Elems() == old(Elems()) + [e]
    {
      var idx2 := idx;
      idx := idx + 1;
      data[idx2] := e;
    }

    function Len(): (n: nat)
      reads this, data
      requires Valid()
      ensures n == |Elems()|
    {
      idx
    }

    /** Slot `i` of the buffer, which is the `i`-th pushed slot below `Len()`. */
    function At(i: nat): (e: nat)
      reads this, data
      requires Valid() && i < 4
      ensures i < |Elems()| ==> e == Elems()[i]
    {
      data[i]
    }
  }

  /**
   * Rust's `%` by 2 on `i32`: the remainder of division truncated toward
   * zero, which takes the sign of the dividend.
   */
  function Rem2(a: int): (r: int)
    ensures -1 <= r <= 1 && (r == 0 <==> a % 2 == 0)
    ensures a >= 0 ==> r == a % 2
    ensures a < 0 && a % 2 == 1 ==> r == -1
  {
    if a >= 0 then a % 2 else -((-a) % 2)
  }

  /** `is_vertex`: both coordinates even, for any sign. */
  function IsVertex(y: int, x: int): (b: bool)
    ensures b <==> y % 2 == 0 && x % 2 == 0
  {
    Rem2(y) == 0 && Rem2(x) == 0
  }

  /**
   * `is_edge`: the two remainders differ. On the lattice that is exactly the
   * two coordinates having different parities; off it, Rust's signed `%`
   * also calls `(-1, 1)` an edge although both coordinates are odd.
   */
  function IsEdge(y: int, x: int): (b: bool)
    ensures (y + x) % 2 == 1 ==> b
    ensures 0 <= y && 0 <= x ==> (b <==> (y + x) % 2 == 1)
    ensures y < 0 && x > 0 && y % 2 == 1 && x % 2 == 1 ==> b
  {
    Rem2(y) != Rem2(x)
  }

  /** `2n` is even and `2n - 1` odd. */
  lemma OddEven(n: int)
    ensures (2 * n) % 2 == 0 && (2 * n - 1) % 2 == 1
  {
  }

  /** Every line edge is a decided edge. */
  lemma LinesDecided(items: seq<Item>, isEdge: seq<bool>)
    requires |isEdge| == |items|
    ensures |LineSet(items, isEdge)| <= |DecidedSet(items, isEdge)|
  {
    SubsetCard(LineSet(items, isEdge), DecidedSet(items, isEdge));
  }

  class GridLoop {
    /** The lattice, row by row: `grid`. */
    var items: seq<Item>
    var inconsistent: bool
    var fullySolved: bool
    var decidedLine: int
    var decidedEdge: int
    const queue: FiniteSearchQueue
    /** `grid.height()` and `grid.width()`: `2h + 1` and `2w + 1`. */
    const rows: nat
    const cols: nat
    ghost const isEdge: seq<bool>
    ghost var chainOf: seq<nat>
    ghost var members: map<nat, seq<nat>>
    ghost var endEdges: map<nat, (nat, nat)>

    /**
     * The lattice has odd sides of at least 3, its edges form a chain
     * partition, the queue holds lattice slots and is empty while idle, and
     * the counters count the decided and the line edges.
     */
    ghost predicate Valid()
      reads this, queue
    {
      && ChainTable(items, isEdge, chainOf, members, endEdges, rows, cols, decidedEdge, decidedLine)
      && queue.Valid() && |queue.stored| == |items|
      && (!queue.isStarted ==> queue.Contents == [])
    }

    /** Undecided edges plus chains: falls with every decision and every merge. */
    ghost function Measure(): nat
      reads this
      requires |isEdge| == |items|
    {
      |UndecidedSet(items, isEdge)| + |members|
    }

    ghost function Snap(): Snapshot
      reads this, queue
      requires |isEdge| == |items|
    {
      Snapshot(items, chainOf, Measure(), queue.Contents, inconsistent)
    }

    /**
     * `new`: a lattice of `height` by `width` cells. Every edge starts as a
     * chain of its own; the two edges at each corner are then joined, the
     * queue drained, and the engine left idle.
     */
    constructor (height: nat, width: nat)
      requires height >= 1 && width >= 1
      ensures Valid() && fresh(queue) && !queue.isStarted
      ensures rows == 2 * height + 1 && cols == 2 * width + 1
    {
      rows := 2 * height + 1;
      cols := 2 * width + 1;
      var t := InitialTable(2 * height + 1, 2 * width + 1);
      items := t;
      isEdge := EdgeTable(2 * width + 1, (2 * height + 1) * (2 * width + 1));
      chainOf := InitialChainOf((2 * height + 1) * (2 * width + 1));
      members := InitialMembers(EdgeTable(2 * width + 1, (2 * height + 1) * (2 * width + 1)));
      endEdges := InitialEnds(EdgeTable(2 * width + 1, (2 * height + 1) * (2 * width + 1)));
      inconsistent := false;
      fullySolved := false;
      decidedLine := 0;
      decidedEdge := 0;
      queue := new FiniteSearchQueue((2 * height + 1) * (2 * width + 1));
      new;
      InitialChains(rows, cols);
      JoinCorners();
    }

    /**
     * `decide_chain`: paints every edge of the cycle through `e` with `s`,
     * counting the edges as it goes, and adds the count to the decided
     * edges, and to the line edges for `Line`.
     */
    method DecideChain(e: nat, s: Edge)
      requires Valid() && e < |items| && isEdge[e] && items[e].status == Undecided && s != Undecided
      modifies this
      ensures Valid() && chainOf == old(chainOf) && members == old(members) && endEdges == old(endEdges)
      ensures chainOf[e] in members && items == Painted(old(items), SeqSet(members[chainOf[e]]), s)
      ensures decidedEdge == old(decidedEdge) + |members[chainOf[e]]|
      ensures decidedLine == old(decidedLine) + if s == Line then |members[chainOf[e]]| else 0
      ensures inconsistent == old(inconsistent) && fullySolved == old(fullySolved)
      ensures Skeleton(items) == Skeleton(old(items)) && Measure() < old(Measure())
      ensures Extends(old(items), items)
    {
      ghost var R := PaintPlan(items, isEdge, chainOf, members, endEdges, e, s);
      var t, sz := PaintCycle(items, e, s, R);
      items := t;
      decidedEdge := decidedEdge + sz;
      if s == Line {
        decidedLine := decidedLine + sz;
      }
    }

    /**
     * `check` while the queue is running: queues the slot `y * cols + x` of
     * the position `(y, x)` when that position lies on the lattice, and does
     * nothing otherwise.
     */
    method Enqueue(y: int, x: int)
      requires Valid() && queue.isStarted
      modifies queue
      ensures Valid() && queue.isStarted
      ensures !(0 <= y < rows && 0 <= x < cols) ==> queue.Contents == old(queue.Contents)
      ensures 0 <= y < rows && 0 <= x < cols ==> queue.Contents == AddNew(old(queue.Contents), Id(rows, cols, y, x))
    {
      if 0 <= y < rows && 0 <= x < cols {
        var id := Id(rows, cols, y, x);
        queue.Push(id);
      }
    }

    /**
     * `check_neighborhood` of the engine itself: `check`s the two vertices
     * of edge `p`, above and below a vertical edge, left and right of a
     * horizontal one. Both lie on the lattice, so each is queued by its
     * slot.
     */
    method CheckNeighborhood(p: nat)
      requires Valid() && queue.isStarted && p < |items| && isEdge[p]
      modifies queue
      ensures Valid() && queue.isStarted && IsEdgeSlot(cols, p)
      ensures EdgeEnds(cols, p).0 in queue.Contents && EdgeEnds(cols, p).1 in queue.Contents
      ensures forall v :: v in old(queue.Contents) ==> v in queue.Contents
      ensures forall v :: v in queue.Contents ==> v in old(queue.Contents) || v == EdgeEnds(cols, p).0 || v == EdgeEnds(cols, p).1
    {
      EdgeEndsBound(rows, cols, p);
      var a, b := EdgeEnds(cols, p).0, EdgeEnds(cols, p).1;
      ghost var c0 := queue.Contents;
      queue.Push(a);
      queue.Push(b);
      AddNewFacts(c0, a, b);
    }

    /**
     * `check_chain_neighborhood`: walks the cycle through `e` and queues
     * the two vertices of every edge on it.
     */
    method CheckChainNeighborhood(e: nat)
      requires Valid() && queue.isStarted && e < |items| && isEdge[e]
      modifies queue
      ensures Valid() && queue.isStarted && chainOf[e] in members
      ensures forall v :: v in old(queue.Contents) ==> v in queue.Contents
      ensures forall q :: q in SeqSet(members[chainOf[e]]) ==>
                IsEdgeSlot(cols, q) && EdgeEnds(cols, q).0 in queue.Contents && EdgeEnds(cols, q).1 in queue.Contents
    {
      ghost var R := ChainFrom(items, isEdge, chainOf, members, endEdges, e);
      ChainLabels(items, isEdge, chainOf, members, endEdges, chainOf[e]);
      ghost var k := 0;
      var pt := e;
      while true
        invariant Valid() && queue.isStarted && 0 <= k < |R| && pt == R[k]
        invariant forall v :: v in old(queue.Contents) ==> v in queue.Contents
        invariant forall j :: 0 <= j < k ==>
                    IsEdgeSlot(cols, R[j]) && EdgeEnds(cols, R[j]).0 in queue.Contents && EdgeEnds(cols, R[j]).1 in queue.Contents
        decreases |R| - k
      {
        assert R[k] in SeqSet(R);
        CheckNeighborhood(pt);
        CycleNext(items, R, k);
        pt := items[pt].next;
        k := k + 1;
        if pt == e {
          break;
        }
      }
      forall q | q in SeqSet(members[chainOf[e]])
        ensures IsEdgeSlot(cols, q) && EdgeEnds(cols, q).0 in queue.Contents && EdgeEnds(cols, q).1 in queue.Contents
      {
        var j :| 0 <= j < |R| && R[j] == q;
      }
    }

    /**
     * `decide_edge_internal`: deciding an edge to its own status does
     * nothing, to a different decided status is an inconsistency, and an
     * undecided edge has its whole chain decided and its neighbourhood
     * queued.
     */
    method DecideEdgeInternal(id: nat, s: Edge)
      requires Valid() && queue.isStarted && id < |items| && isEdge[id]
      modifies this, queue
      ensures Valid() && queue.isStarted && Follows(old(Snap()), Snap())
      ensures chainOf == old(chainOf) && members == old(members) && endEdges == old(endEdges)
      ensures fullySolved == old(fullySolved) && Skeleton(items) == Skeleton(old(items))
      ensures PaintsOnly(old(items), items, s) && chainOf[id] in members
      ensures old(items[id].status) == s ==>
                items == old(items) && inconsistent == old(inconsistent) && queue.Contents == old(queue.Contents)
      ensures old(items[id].status) != Undecided && old(items[id].status) != s ==>
                items == old(items) && inconsistent && queue.Contents == old(queue.Contents)
      ensures old(items[id].status) == Undecided && s != Undecided ==>
                items == Painted(old(items), SeqSet(members[chainOf[id]]), s) && inconsistent == old(inconsistent)
      ensures s != Undecided ==> items[id].status == s || (old(items[id].status) != Undecided && inconsistent && items == old(items))
      ensures old(items[id].status) == Undecided ==> inconsistent == old(inconsistent)
    {
      InChain(items, isEdge, chainOf, members, endEdges, id);
      var current := items[id].status;
      if current == s {
        return;
      }
      if current != Undecided {
        inconsistent := true;
        return;
      }
      DecideChain(id, s);
      CheckChainNeighborhood(id);
    }
    /**
     * The splice at the end of `join`: the end edges `end1` and `end2` of
     * two different chains of one status swap their `next` links and become
     * the two ends of one chain of the summed size between `v1` and `v2`.
     * No status changes, and there is one chain fewer.
     */
    method Splice(end1: nat, end2: nat, v1: nat, v2: nat)
      requires Valid() && end1 < |items| && end2 < |items| && v1 < |items| && v2 < |items|
      requires chainOf[end1] in members && chainOf[end2] in members && chainOf[end1] != chainOf[end2]
      requires end1 == endEdges[chainOf[end1]].0 || end1 == endEdges[chainOf[end1]].1
      requires end2 == endEdges[chainOf[end2]].0 || end2 == endEdges[chainOf[end2]].1
      requires items[end1].size == |members[chainOf[end1]]| && items[end2].size == |members[chainOf[end2]]|
      requires StatusOf(items, members, chainOf[end1]) == StatusOf(items, members, chainOf[end2])
      modifies this
      ensures Valid() && Follows(old(Snap()), Snap()) && Measure() < old(Measure())
      ensures chainOf == Relabel(old(chainOf), old(chainOf[end2]), old(chainOf[end1]))
      ensures inconsistent == old(inconsistent) && fullySolved == old(fullySolved)
    {
      ghost var c1, c2 := chainOf[end1], chainOf[end2];
      var size := items[end1].size + items[end2].size;
      chainOf, members, endEdges := SpliceTable(items, isEdge, chainOf, members, endEdges, rows, cols, decidedEdge, decidedLine, c1, c2, end1, end2, v1, v2, size);
      items := Merged(items, end1, end2, v1, v2, size);
    }

    /**
     * `decide_edge` while the queue is running: a position off the lattice
     * is taken as blank (deciding it otherwise is an inconsistency); on the
     * lattice the edge is decided as by `decide_edge_internal`.
     */
    method DecideEdgeAt(y: int, x: int, s: Edge)
      requires Valid() && queue.isStarted
      requires 0 <= y < rows && 0 <= x < cols ==> y % 2 != x % 2
      modifies this, queue
      ensures Valid() && queue.isStarted && Follows(old(Snap()), Snap())
      ensures chainOf == old(chainOf) && members == old(members) && endEdges == old(endEdges)
      ensures fullySolved == old(fullySolved) && Skeleton(items) == Skeleton(old(items)) && PaintsOnly(old(items), items, s)
      ensures !(0 <= y < rows && 0 <= x < cols) ==>
                items == old(items) && queue.Contents == old(queue.Contents) && inconsistent == (old(inconsistent) || s != Blank)
      ensures 0 <= y < rows && 0 <= x < cols && s != Undecided ==>
                || items[Id(rows, cols, y, x)].status == s
                || (old(items[Id(rows, cols, y, x)].status) != Undecided && inconsistent && items == old(items))
      ensures 0 <= y < rows && 0 <= x < cols && old(items[Id(rows, cols, y, x)].status) == Undecided ==> inconsistent == old(inconsistent)
    {
      if !(0 <= y < rows && 0 <= x < cols) {
        if s != Blank {
          inconsistent := true;
        }
        return;
      }
      var id := Id(rows, cols, y, x);
      DivModUnique(id, cols, y, x);
      var current := items[id].status;
      if current == s {
        return;
      }
      if current != Undecided {
        inconsistent := true;
        return;
      }
      DecideEdgeInternal(id, s);
    }

    /**
     * What `has_fully_solved` keeps from the snapshot `s` on: the engine is
     * valid and running, it follows `s`, and only undecided edges have
     * changed, to blank.
     */
    ghost predicate BlankedSince(s: Snapshot, fs: bool)
      reads this, queue
    {
      && Since(s)
      && Skeleton(items) == Skeleton(s.items) && PaintsOnly(s.items, items, Blank) && fullySolved == fs
    }

    /**
     * `has_fully_solved`: once the loop is closed, every edge still
     * undecided is decided blank, row by row.
     */
    method HasFullySolved()
      requires Valid() && queue.isStarted
      modifies this, queue
      ensures BlankedSince(old(Snap()), old(fullySolved)) && UndecidedSet(items, isEdge) == {}
    {
      ghost var s, fs := Snap(), fullySolved;
      var height := rows / 2;
      var y := 0;
      while y < 2 * height + 1
        invariant 0 <= y <= rows && 2 * height + 1 == rows
        invariant BlankedSince(s, fs) && RowsDecided(items, isEdge, cols, y)
      {
        BlankRow(y, s, fs);
        y := y + 1;
      }
      NoneUndecided(items, isEdge, rows, cols);
    }

    /** The inner loop of `has_fully_solved`: decides every undecided edge of row `y` blank. */
    method BlankRow(y: nat, ghost s: Snapshot, ghost fs: bool)
      requires BlankedSince(s, fs) && y < rows && RowsDecided(items, isEdge, cols, y)
      modifies this, queue
      ensures BlankedSince(s, fs) && RowsDecided(items, isEdge, cols, y + 1)
    {
      var width := cols / 2;
      var x := 0;
      while x < 2 * width + 1
        invariant 0 <= x <= cols && 2 * width + 1 == cols
        invariant BlankedSince(s, fs) && RowsDecided(items, isEdge, cols, y) && RowPrefix(items, isEdge, cols, y, x)
      {
        ghost var t0 := items;
        BlankAt(y, x, s, fs);
        RowsExtend(t0, items, isEdge, cols, y);
        RowPrefixStep(t0, items, isEdge, cols, y, x);
        x := x + 1;
      }
      RowsNext(items, isEdge, cols, y);
    }

    /** One step of `has_fully_solved`: position `(y, x)` is decided blank if it is an undecided edge. */
    method BlankAt(y: nat, x: nat, ghost s: Snapshot, ghost fs: bool)
      requires BlankedSince(s, fs) && y < rows && x < cols
      modifies this, queue
      ensures BlankedSince(s, fs) && Extends(old(items), items) && DecidedCell(items, isEdge, cols, y, x)
    {
      var id := Id(rows, cols, y, x);
      DivModUnique(id, cols, y, x);
      if y % 2 != x % 2 && items[id].status == Undecided {
        ghost var s0 := Snap();
        DecideEdgeAt(y, x, Blank);
        FollowsTrans(s, s0, Snap());
        PaintsOnlyTrans(s.items, s0.items, items, Blank);
      }
    }

    /**
     * `join`: splices the chains of the end edges `e1` and `e2` at the
     * vertex they share. Nothing happens unless both are chain ends of
     * different chains meeting at a vertex. Chains of different statuses
     * are an inconsistency unless one is undecided, in which case it takes
     * the other's status first. A splice that would close a loop is
     * checked first: an undecided loop is ruled out (both chains become
     * blank) once some line exists, and a line loop must hold every line,
     * which solves the puzzle.
     */
    method Join(e1: nat, e2: nat)
      requires Valid() && queue.isStarted && e1 < |items| && isEdge[e1] && e2 < |items| && isEdge[e2] && e1 != e2
      modifies this, queue
      decreases Measure(), 1
      ensures Valid() && queue.isStarted && Follows(old(Snap()), Snap())
      ensures !JoinGuard(old(items), e1, e2) ==> Snap() == old(Snap()) && fullySolved == old(fullySolved)
      ensures JoinGuard(old(items), e1, e2) && !inconsistent ==>
                chainOf[e1] == chainOf[e2] || (items[e1].status == Blank && items[e2].status == Blank)
    {
      if !IsEnd(items, e1) || !IsEnd(items, e2) || items[e1].anotherEnd == e2 {
        return;
      }
      var p1, p2 := items[e1].endPoints, items[e2].endPoints;
      if !SharesVertex(p1, p2) {
        return;
      }
      var origin := Origin(p1, p2);
      JoinEnds(items, isEdge, chainOf, members, endEdges, e1, e2);
      var v1, v2 := AnotherEndId(p1, origin), AnotherEndId(p2, origin);
      var s1, s2 := items[e1].status, items[e2].status;
      if s1 == s2 {
        JoinSame(e1, e2, v1, v2);
      } else if s1 == Undecided {
        JoinAdopt(e1, e2, e1, s2);
      } else if s2 == Undecided {
        JoinAdopt(e1, e2, e2, s1);
      } else {
        inconsistent := true;
      }
    }

    /**
     * The branch of `join` where the chain of `u`, one of `e1` and `e2`, is
     * undecided and the other chain has status `s`: the chain of `u` is
     * decided `s`, its neighbourhood queued, and the join tried again.
     */
    method JoinAdopt(e1: nat, e2: nat, u: nat, s: Edge)
      requires Valid() && queue.isStarted && e1 < |items| && isEdge[e1] && e2 < |items| && isEdge[e2] && e1 != e2
      requires (u == e1 || u == e2) && JoinGuard(items, e1, e2) && items[u].status == Undecided && s != Undecided
      modifies this, queue
      decreases Measure(), 0
      ensures Valid() && queue.isStarted && Follows(old(Snap()), Snap())
      ensures !inconsistent ==> chainOf[e1] == chainOf[e2] || (items[e1].status == Blank && items[e2].status == Blank)
    {
      DecideChain(u, s);
      CheckChainNeighborhood(u);
      GuardSkeleton(old(items), items, e1, e2);
      ghost var s0 := Snap();
      Join(e1, e2);
      FollowsTrans(old(Snap()), s0, Snap());
    }

    /**
     * The rest of `join` once both chains have one status: the closing
     * checks, then the splice at the far ends `end1` and `end2`, whose new
     * end vertices `v1` and `v2` are queued.
     */
    method JoinSame(e1: nat, e2: nat, v1: nat, v2: nat)
      requires Valid() && queue.isStarted && e1 < |items| && isEdge[e1] && e2 < |items| && isEdge[e2] && e1 != e2
      requires JoinGuard(items, e1, e2) && items[e1].status == items[e2].status
      requires v1 == AnotherEndId(items[e1].endPoints, Origin(items[e1].endPoints, items[e2].endPoints))
      requires v2 == AnotherEndId(items[e2].endPoints, Origin(items[e1].endPoints, items[e2].endPoints))
      modifies this, queue
      ensures Valid() && queue.isStarted && Follows(old(Snap()), Snap())
      ensures !inconsistent ==> chainOf[e1] == chainOf[e2] || (items[e1].status == Blank && items[e2].status == Blank)
    {
      JoinEnds(items, isEdge, chainOf, members, endEdges, e1, e2);
      if v1 == v2 {
        var status := items[e1].status;
        if status == Undecided {
          if decidedLine != 0 {
            BlankPair(e1, e2);
            return;
          }
        } else if status == Line {
          if decidedLine != items[e1].size + items[e2].size {
            inconsistent := true;
            return;
          }
          ghost var s0 := Snap();
          CloseLoop(e1, e2);
          ghost var s1 := Snap();
          SpliceAt(e1, e2, v1, v2);
          FollowsTrans(s0, s1, Snap());
          return;
        }
      }
      SpliceAt(e1, e2, v1, v2);
    }

    /** A closed line loop holding every line: the puzzle is solved, and everything else is blank. */
    method CloseLoop(e1: nat, e2: nat)
      requires Valid() && queue.isStarted && e1 < |items| && e2 < |items|
      requires JoinGuard(items, e1, e2) && items[e1].status == Line && items[e2].status == Line
      modifies this, queue
      ensures Valid() && queue.isStarted && Follows(old(Snap()), Snap()) && fullySolved
      ensures JoinGuard(items, e1, e2) && items[e1].status == Line && items[e2].status == Line
      ensures items[e1].endPoints == old(items[e1].endPoints) && items[e2].endPoints == old(items[e2].endPoints)
      ensures UndecidedSet(items, isEdge) == {} && PaintsOnly(old(items), items, Blank)
    {
      fullySolved := true;
      ghost var t0 := items;
      HasFullySolved();
      GuardSkeleton(t0, items, e1, e2);
      SkeletonFields(t0, items, e1);
      SkeletonFields(t0, items, e2);
    }

    /** The splice of `join` at the far ends of the chains of `e1` and `e2`, and the queueing of the new end vertices. */
    method SpliceAt(e1: nat, e2: nat, v1: nat, v2: nat)
      requires Valid() && queue.isStarted && e1 < |items| && isEdge[e1] && e2 < |items| && isEdge[e2] && e1 != e2
      requires JoinGuard(items, e1, e2) && items[e1].status == items[e2].status && v1 < |items| && v2 < |items|
      modifies this, queue
      ensures Valid() && queue.isStarted && Follows(old(Snap()), Snap())
      ensures chainOf[e1] == chainOf[e2] && inconsistent == old(inconsistent) && fullySolved == old(fullySolved)
    {
      JoinEnds(items, isEdge, chainOf, members, endEdges, e1, e2);
      var end1, end2 := items[e1].anotherEnd, items[e2].anotherEnd;
      Splice(end1, end2, v1, v2);
      queue.Push(v1);
      queue.Push(v2);
    }

    /** The undecided loop `join` refuses: both chains are decided blank and their neighbourhoods queued. */
    method BlankPair(e1: nat, e2: nat)
      requires Valid() && queue.isStarted && e1 < |items| && isEdge[e1] && e2 < |items| && isEdge[e2]
      requires chainOf[e1] != chainOf[e2] && items[e1].status == Undecided && items[e2].status == Undecided
      modifies this, queue
      ensures Valid() && queue.isStarted && Follows(old(Snap()), Snap())
      ensures items[e1].status == Blank && items[e2].status == Blank
    {
      InChain(items, isEdge, chainOf, members, endEdges, e1);
      InChain(items, isEdge, chainOf, members, endEdges, e2);
      ChainLabels(items, isEdge, chainOf, members, endEdges, chainOf[e1]);
      ChainLabels(items, isEdge, chainOf, members, endEdges, chainOf[e2]);
      ghost var t0 := items;
      DecideChain(e1, Blank);
      assert items[e1].status == Blank && items[e2].status == Undecided;
      ghost var t1 := items;
      DecideChain(e2, Blank);
      assert items[e1].status == Blank && items[e2].status == Blank;
      ExtendsTrans(t0, t1, items);
      CheckChainNeighborhood(e1);
      CheckChainNeighborhood(e2);
    }

    /** The candidate scan of `inspect_vertex` over the edges of `undecided`, at vertex `vid`. */
    method FindCandidate(undecided: FixVec, vid: nat, lineSize: int, anotherEnd: int) returns (r: Scan)
      requires Valid() && undecided.Valid()
      ensures r == ScanFrom(items, decidedLine, undecided.Elems(), vid, lineSize, anotherEnd, -1)
    {
      ghost var E := undecided.Elems();
      var cand: int := -1;
      var k := 0;
      while k < undecided.Len()
        invariant 0 <= k <= |E|
        invariant ScanFrom(items, decidedLine, E, vid, lineSize, anotherEnd, -1) == ScanFrom(items, decidedLine, E[k..], vid, lineSize, anotherEnd, cand)
      {
        var ud := undecided.At(k);
        assert E[k..][0] == ud && E[k..][1..] == E[k + 1..];
        if IsEnd(items, ud) && (items[ud].endPoints.0 == vid || items[ud].endPoints.1 == vid) {
          var udAnotherEnd := AnotherEndId(items[ud].endPoints, vid);
          if lineSize == decidedLine || anotherEnd != udAnotherEnd {
            cand := if cand == -1 then ud else -2;
          } else {
            return Refuse(ud);
          }
        }
        k := k + 1;
      }
      assert E[k..] == [];
      r := Candidate(cand);
    }

    /** The engine is valid and running and has followed on from the snapshot `s`. */
    ghost predicate Since(s: Snapshot)
      reads this, queue
    {
      Valid() && queue.isStarted && Follows(s, Snap())
    }

    /** `decide_edge_internal` to blank, seen from `BlankAll`: the edge ends up decided. */
    method DecideBlank(id: nat, ghost s: Snapshot)
      requires Since(s) && id < |items| && isEdge[id]
      modifies this, queue
      ensures Since(s) && Extends(old(items), items) && items[id].status != Undecided
    {
      ghost var s0 := Snap();
      DecideEdgeInternal(id, Blank);
      FollowsTrans(s, s0, Snap());
    }

    /** The loop of `inspect_vertex` at a vertex with two line edges: every edge of `undecided` is decided blank. */
    method BlankAll(undecided: FixVec)
      requires Valid() && queue.isStarted && undecided.Valid()
      requires forall v :: v in undecided.Elems() ==> v < |items| && isEdge[v]
      modifies this, queue
      ensures Since(old(Snap())) && forall v :: v in undecided.Elems() ==> v < |items| && items[v].status != Undecided
    {
      ghost var E, s := undecided.Elems(), Snap();
      var k := 0;
      while k < undecided.Len()
        invariant 0 <= k <= |E| && undecided.Elems() == E && Since(s) && SettledUpTo(items, E, k)
        modifies this, queue
      {
        assert E[k] in E;
        ghost var t0 := items;
        DecideBlank(undecided.At(k), s);
        SettledStep(t0, items, E, k);
        k := k + 1;
      }
      SettledAll(items, E);
    }

    /** `inspect_vertex` at a vertex with two line edges: every undecided edge there is decided blank, then the lines are joined. */
    method InspectTwo(y: int, x: int, line: FixVec, undecided: FixVec)
      requires Valid() && queue.isStarted && 0 <= y < rows && 0 <= x < cols && y % 2 == 0 && x % 2 == 0
      requires line.Valid() && line.Elems() == LinesAt(items, rows, cols, y, x) && |line.Elems()| == 2
      requires undecided.Valid() && undecided.Elems() == OpenAt(items, rows, cols, y, x)
      modifies this, queue
      ensures Valid() && queue.isStarted && Follows(old(Snap()), Snap())
      ensures forall v :: v in old(OpenAt(items, rows, cols, y, x)) ==> v < |items| && items[v].status != Undecided
    {
      VertexEdges(items, isEdge, rows, cols, y, x);
      var e1, e2 := line.At(0), line.At(1);
      assert e1 in line.Elems() && e2 in line.Elems();
      BlankAll(undecided);
      ghost var s1 := Snap();
      Join(e1, e2);
      FollowsTrans(old(Snap()), s1, Snap());
    }

    /**
     * `inspect_vertex` at a vertex with one line edge: the candidate scan
     * either rules out an undecided edge (it is decided blank), finds no
     * way on (an inconsistency), several, or exactly one, which is joined
     * to the line.
     */
    method InspectOne(y: int, x: int, line: FixVec, undecided: FixVec)
      requires Valid() && queue.isStarted && 0 <= y < rows && 0 <= x < cols && y % 2 == 0 && x % 2 == 0
      requires line.Valid() && line.Elems() == LinesAt(items, rows, cols, y, x) && |line.Elems()| == 1
      requires undecided.Valid() && undecided.Elems() == OpenAt(items, rows, cols, y, x)
      modifies this, queue
      ensures Valid() && queue.isStarted && Follows(old(Snap()), Snap())
      ensures old(VertexScan(items, decidedLine, rows, cols, y, x)) == Candidate(-1) ==> inconsistent
      ensures old(VertexScan(items, decidedLine, rows, cols, y, x)).Refuse? ==>
                items[old(VertexScan(items, decidedLine, rows, cols, y, x)).ud].status == Blank
    {
      VertexEdges(items, isEdge, rows, cols, y, x);
      var eid := line.At(0);
      assert eid in line.Elems();
      var vid := Id(rows, cols, y, x);
      var lineSize := items[eid].size;
      var anotherEnd := AnotherEndId(items[eid].endPoints, vid);
      var r := FindCandidate(undecided, vid, lineSize, anotherEnd);
      match r
      case Refuse(ud) =>
        DecideEdgeInternal(ud, Blank);
      case Candidate(c) =>
        if c == -1 {
          inconsistent := true;
        } else if c != -2 {
          Join(eid, c);
        }
    }

    /** `inspect_vertex` at a vertex with no line edge: two undecided edges are joined, a single one is a dead end and decided blank. */
    method InspectNone(y: int, x: int, undecided: FixVec)
      requires Valid() && queue.isStarted && 0 <= y < rows && 0 <= x < cols && y % 2 == 0 && x % 2 == 0
      requires undecided.Valid() && undecided.Elems() == OpenAt(items, rows, cols, y, x)
      modifies this, queue
      ensures Valid() && queue.isStarted && Follows(old(Snap()), Snap())
      ensures |old(OpenAt(items, rows, cols, y, x))| == 1 ==>
                old(OpenAt(items, rows, cols, y, x))[0] < |items| && items[old(OpenAt(items, rows, cols, y, x))[0]].status == Blank
    {
      VertexEdges(items, isEdge, rows, cols, y, x);
      if undecided.Len() == 2 {
        var e1, e2 := undecided.At(0), undecided.At(1);
        assert e1 in undecided.Elems() && e2 in undecided.Elems();
        Join(e1, e2);
      } else if undecided.Len() == 1 {
        var e := undecided.At(0);
        assert e in undecided.Elems();
        DecideEdgeInternal(e, Blank);
      }
    }

    /**
     * `inspect_vertex`: the local rule at vertex `(y, x)`. Three line edges
     * are an inconsistency; two make every undecided edge there blank;
     * with one, the edge the candidate scan rules out is blank and finding
     * no candidate is an inconsistency; with none, a lone undecided edge is
     * a dead end and blank.
     */
    method InspectVertex(y: int, x: int)
      requires Valid() && queue.isStarted && 0 <= y < rows && 0 <= x < cols && y % 2 == 0 && x % 2 == 0
      modifies this, queue
      ensures Valid() && queue.isStarted && Follows(old(Snap()), Snap())
      ensures |old(LinesAt(items, rows, cols, y, x))| >= 3 ==> inconsistent && items == old(items)
      ensures |old(LinesAt(items, rows, cols, y, x))| == 2 ==>
                forall v :: v in old(OpenAt(items, rows, cols, y, x)) ==> v < |items| && items[v].status != Undecided
      ensures |old(LinesAt(items, rows, cols, y, x))| == 1 && old(VertexScan(items, decidedLine, rows, cols, y, x)) == Candidate(-1) ==>
                inconsistent
      ensures |old(LinesAt(items, rows, cols, y, x))| == 1 && old(VertexScan(items, decidedLine, rows, cols, y, x)).Refuse? ==>
                items[old(VertexScan(items, decidedLine, rows, cols, y, x)).ud].status == Blank
      ensures |old(LinesAt(items, rows, cols, y, x))| == 0 && |old(OpenAt(items, rows, cols, y, x))| == 1 ==>
                old(OpenAt(items, rows, cols, y, x))[0] < |items| && items[old(OpenAt(items, rows, cols, y, x))[0]].status == Blank
    {
      var line, undecided := Collect(items, rows, cols, y, x);
      if line.Len() >= 3 {
        inconsistent := true;
        return;
      }
      if line.Len() == 2 {
        InspectTwo(y, x, line, undecided);
        return;
      }
      if line.Len() == 1 {
        InspectOne(y, x, line, undecided);
      }
      if line.Len() == 0 {
        InspectNone(y, x, undecided);
      }
    }

    /**
     * `queue_pop_all`: takes slots off the queue until it is empty and
     * inspects each vertex among them. Every inspection decides edges,
     * merges chains or leaves the queue one shorter, so the loop ends.
     */
    method QueuePopAll()
      requires Valid() && queue.isStarted
      modifies this, queue
      ensures Valid() && queue.isStarted && queue.Contents == []
      ensures Extends(old(items), items) && Coarsens(old(chainOf), chainOf) && (old(inconsistent) ==> inconsistent)
    {
      while true
        invariant Valid() && queue.isStarted
        invariant Extends(old(items), items) && Coarsens(old(chainOf), chainOf) && (old(inconsistent) ==> inconsistent)
        decreases Measure(), |queue.Contents|
      {
        var empty := queue.Empty();
        if empty {
          break;
        }
        var id := queue.Pop();
        ghost var s0 := Snap();
        var y, x := id / cols, id % cols;
        SlotRow(rows, cols, id);
        if y % 2 == 0 && x % 2 == 0 {
          InspectVertex(y, x);
        }
        ExtendsTrans(old(items), s0.items, items);
        CoarsensTrans(old(chainOf), s0.chainOf, chainOf);
      }
    }
    /** `height` and `width`: the number of cell rows and columns. */
    function Height(): (h: nat)
      reads this, queue
      requires Valid()
      ensures 2 * h + 1 == rows
    {
      rows / 2
    }

    function Width(): (w: nat)
      reads this, queue
      requires Valid()
      ensures 2 * w + 1 == cols
    {
      cols / 2
    }

    /** `is_valid_coord`: the position lies on the lattice. */
    function IsValidCoord(y: int, x: int): (b: bool)
      reads this
    {
      0 <= y < rows && 0 <= x < cols
    }

    /** `get_edge_safe`: the status at a position, blank off the lattice. */
    function GetEdgeSafe(y: int, x: int): (e: Edge)
      reads this, queue
      requires Valid()
      ensures !IsValidCoord(y, x) ==> e == Blank
      ensures IsValidCoord(y, x) ==> e == items[Id(rows, cols, y, x)].status
      ensures IsValidCoord(y, x) && !IsEdge(y, x) ==> e == Undecided
    {
      if IsValidCoord(y, x) then
        var id := Id(rows, cols, y, x);
        DivModUnique(id, cols, y, x);
        items[id].status
      else Blank
    }

    /** `num_decided_edges`: the number of edges decided so far. */
    function NumDecidedEdges(): (n: int)
      reads this, queue
      requires Valid()
      ensures n == |DecidedSet(items, isEdge)|
    {
      decidedEdge
    }

    /** `num_decided_lines`: the number of edges holding a line. */
    function NumDecidedLines(): (n: int)
      reads this, queue
      requires Valid()
      ensures n == |LineSet(items, isEdge)| && n <= NumDecidedEdges()
    {
      LinesDecided(items, isEdge);
      decidedLine
    }

    /** `set_inconsistent`. */
    method SetInconsistent()
      requires Valid()
      modifies this
      ensures Valid() && inconsistent && Snap() == old(Snap()).(inconsistent := true)
      ensures fullySolved == old(fullySolved) && decidedEdge == old(decidedEdge) && decidedLine == old(decidedLine)
    {
      inconsistent := true;
    }

    /**
     * `decide_edge`: a position off the lattice is taken as blank (deciding
     * it otherwise is an inconsistency); on the lattice, deciding an edge to
     * its own status does nothing and to another decided status is an
     * inconsistency. Otherwise the edge is decided under a handle: when the
     * queue was idle it is started, and drained and stopped afterwards.
     */
    method DecideEdge(y: int, x: int, s: Edge)
      requires Valid()
      requires 0 <= y < rows && 0 <= x < cols ==> y % 2 != x % 2
      modifies this, queue
      ensures Valid() && queue.isStarted == old(queue.isStarted)
      ensures Extends(old(items), items) && Coarsens(old(chainOf), chainOf) && (old(inconsistent) ==> inconsistent)
      ensures !IsValidCoord(y, x) ==>
                items == old(items) && queue.Contents == old(queue.Contents) && inconsistent == (old(inconsistent) || s != Blank)
      ensures IsValidCoord(y, x) && s != Undecided ==> items[Id(rows, cols, y, x)].status == s || inconsistent
      ensures IsValidCoord(y, x) && old(items[Id(rows, cols, y, x)].status) != Undecided ==>
                items == old(items) && queue.Contents == old(queue.Contents)
                && inconsistent == (old(inconsistent) || old(items[Id(rows, cols, y, x)].status) != s)
    {
      if !(0 <= y < rows && 0 <= x < cols) {
        if s != Blank {
          inconsistent := true;
        }
        return;
      }
      var id := Id(rows, cols, y, x);
      DivModUnique(id, cols, y, x);
      var current := items[id].status;
      if current == s {
        return;
      }
      if current != Undecided {
        inconsistent := true;
        return;
      }
      var started := queue.IsStarted();
      if started {
        DecideEdgeInternal(id, s);
      } else {
        queue.Start();
        DecideEdgeInternal(id, s);
        ghost var t := items;
        QueuePopAll();
        ExtendsTrans(old(items), t, items);
        queue.Finish();
      }
    }

    /**
     * `check`: queues a position on the lattice for inspection, under a
     * handle; when the queue was idle it is drained at once and stopped.
     */
    method Check(y: int, x: int)
      requires Valid()
      modifies this, queue
      ensures Valid() && queue.isStarted == old(queue.isStarted)
      ensures Extends(old(items), items) && Coarsens(old(chainOf), chainOf) && (old(inconsistent) ==> inconsistent)
      ensures !IsValidCoord(y, x) ==> items == old(items) && queue.Contents == old(queue.Contents)
      ensures old(queue.isStarted) && IsValidCoord(y, x) ==>
                items == old(items) && queue.Contents == AddNew(old(queue.Contents), Id(rows, cols, y, x))
    {
      if !(0 <= y < rows && 0 <= x < cols) {
        return;
      }
      var started := queue.IsStarted();
      if started {
        Enqueue(y, x);
      } else {
        queue.Start();
        Enqueue(y, x);
        QueuePopAll();
        queue.Finish();
      }
    }

    /**
     * The second half of `new`: with the queue running, the two edges at
     * each corner are joined, then the queue is drained and stopped.
     */
    method JoinCorners()
      requires Valid() && !queue.isStarted
      modifies this, queue
      ensures Valid() && !queue.isStarted
    {
      queue.Start();
      JoinTop();
      JoinBottom();
      QueuePopAll();
      queue.Finish();
    }

    /** The corner joins of the top row: at `(0, 1)`-`(1, 0)` and `(0, 2w - 1)`-`(1, 2w)`. */
    method JoinTop()
      requires Valid() && queue.isStarted
      modifies this, queue
      ensures Valid() && queue.isStarted
    {
      var w := Width();
      OddEven(w);
      JoinAt(0, 1, 1, 0);
      JoinAt(0, 2 * w - 1, 1, 2 * w);
    }

    /** The corner joins of the bottom row, `2h`. */
    method JoinBottom()
      requires Valid() && queue.isStarted
      modifies this, queue
      ensures Valid() && queue.isStarted
    {
      var h, w := Height(), Width();
      OddEven(h);
      OddEven(w);
      JoinAt(2 * h - 1, 0, 2 * h, 1);
      JoinAt(2 * h - 1, 2 * w, 2 * h, 2 * w - 1);
    }

    /** One corner `join` of `new`: joins the edges at `(y1, x1)` and `(y2, x2)`. */
    method JoinAt(y1: int, x1: int, y2: int, x2: int)
      requires Valid() && queue.isStarted
      requires 0 <= y1 < rows && 0 <= x1 < cols && y1 % 2 != x1 % 2
      requires 0 <= y2 < rows && 0 <= x2 < cols && y2 % 2 != x2 % 2 && (y1, x1) != (y2, x2)
      modifies this, queue
      ensures Valid() && queue.isStarted
    {
      var e1, e2 := Id(rows, cols, y1, x1), Id(rows, cols, y2, x2);
      DivModUnique(e1, cols, y1, x1);
      DivModUnique(e2, cols, y2, x2);
      Join(e1, e2);
    }
  }
}
