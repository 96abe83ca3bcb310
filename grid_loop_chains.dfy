/**
 * The chain structure of the loop-chain engine of src/grid_loop/mod.rs,
 * stated on values.
 *
 * The engine keeps every edge of the lattice in exactly one chain: a run
 * of edges known to carry the same status. A chain is a circular list
 * through `chain_next`. Only its two end edges hold up-to-date chain data:
 * `chain_another_end_edge` points from each end to the other, and both
 * ends carry the chain's two end vertices and its size. Interior edges
 * keep stale values; the invariant below says exactly how stale they may
 * be, which is what makes the test `is_end_of_chain` exact.
 *
 * The ghost bookkeeping (`chainOf`, `members`, `endEdges`) names each
 * chain, lists its edges in `chain_next` order and names its end edges.
 */
module GridLoopChains {
  import opened Common
  import opened GridLoop

  /**
   * `GridLoopItem`, one lattice position. `endPoints`, `anotherEnd` and
   * `size` are `chain_end_points`, `chain_another_end_edge` and
   * `chain_size`; `next` is `chain_next`.
   */
  datatype Item = Item(status: Edge, endPoints: (nat, nat), next: nat, anotherEnd: nat, size: int)

  /** Slot `i` of a lattice `width` positions wide holds an edge: its row and column differ in parity. */
  predicate IsEdgeSlot(width: int, i: int)
    requires width > 0
  {
    (i / width) % 2 != (i % width) % 2
  }

  /** Which slots of a lattice `width` wide with `n` slots hold edges. */
  function EdgeTable(width: int, n: nat): (t: seq<bool>)
    requires width > 0
    ensures |t| == n && forall i :: 0 <= i < n ==> t[i] == IsEdgeSlot(width, i)
  {
    seq(n, i requires 0 <= i < n => IsEdgeSlot(width, i))
  }

  /** `L` lists a cycle of `next` links through slots of `items`, in link order. */
  ghost predicate Cycle(items: seq<Item>, L: seq<nat>) {
    && |L| > 0
    && (forall k :: 0 <= k < |L| ==> L[k] < |items|)
    && (forall j, k {:trigger items[L[j]], L[k]} :: 0 <= j < |L| - 1 && k == j + 1 ==> items[L[j]].next == L[k])
    && items[L[|L| - 1]].next == L[0]
  }

  /** `is_end_of_chain`: the edge named by `e`'s other-end pointer points back at `e`. */
  predicate IsEnd(items: seq<Item>, e: nat) {
    e < |items| && items[e].anotherEnd < |items| && items[items[e].anotherEnd].anotherEnd == e
  }

  /**
   * Chain `c` holds the edges `L` with end edges `ab`:
   *  - `L` is a cycle of `next` links through distinct edges, all labelled `c`
   *    and all of one status;
   *  - every other-end pointer names an edge of the same chain;
   *  - the two ends point at each other, share the end vertices (slots of
   *    the lattice) and carry the chain's size;
   *  - an interior edge fails `is_end_of_chain`.
   */
  ghost predicate ChainShape(items: seq<Item>, isEdge: seq<bool>, chainOf: seq<nat>, c: nat, L: seq<nat>, ab: (nat, nat))
    requires |isEdge| == |items| && |chainOf| == |items|
  {
    match ab
    case (a, b) =>
      && Cycle(items, L) && Distinct(L)
      && (forall k :: 0 <= k < |L| ==>
            && isEdge[L[k]] && chainOf[L[k]] == c
            && items[L[k]].anotherEnd < |items| && isEdge[items[L[k]].anotherEnd]
            && chainOf[items[L[k]].anotherEnd] == c
            && items[L[k]].status == items[L[0]].status)
      && a in L && b in L
      && items[a].anotherEnd == b && items[b].anotherEnd == a
      && items[a].endPoints == items[b].endPoints
      && items[a].endPoints.0 < |items| && items[a].endPoints.1 < |items|
      && items[a].size == |L| && items[b].size == |L|
      && (forall k :: 0 <= k < |L| && L[k] != a && L[k] != b ==>
            items[items[L[k]].anotherEnd].anotherEnd != L[k])
  }

  /** The common status of chain `c` (read off its first edge). */
  ghost function StatusOf(items: seq<Item>, members: map<nat, seq<nat>>, c: nat): Edge
    requires c in members
  {
    if |members[c]| > 0 && members[c][0] < |items| then items[members[c][0]].status else Undecided
  }

  /**
   * The whole chain partition: every edge lies in the chain it is labelled
   * with, each chain has the shape above, and positions that are not edges
   * stay `Undecided`.
   */
  ghost predicate Chains(items: seq<Item>, isEdge: seq<bool>, chainOf: seq<nat>, members: map<nat, seq<nat>>, endEdges: map<nat, (nat, nat)>)
    requires |isEdge| == |items|
  {
    && |chainOf| == |items|
    && members.Keys == endEdges.Keys
    && AllShapes(items, isEdge, chainOf, members, endEdges)
    && AllLocated(items, isEdge, chainOf, members)
    && NonEdgesUndecided(items, isEdge)
  }

  /**
   * The engine's table: a lattice with odd sides of at least 3, whose edges
   * form a chain partition, with `decided` and `lines` counting the decided
   * and the line edges.
   */
  ghost predicate ChainTable(items: seq<Item>, isEdge: seq<bool>, chainOf: seq<nat>, members: map<nat, seq<nat>>, endEdges: map<nat, (nat, nat)>,
                             rows: nat, cols: nat, decided: int, lines: int)
  {
    && rows % 2 == 1 && cols % 2 == 1 && rows >= 3 && cols >= 3
    && |items| == rows * cols && isEdge == EdgeTable(cols, rows * cols)
    && Chains(items, isEdge, chainOf, members, endEdges)
    && decided == |DecidedSet(items, isEdge)|
    && lines == |LineSet(items, isEdge)|
  }

  /** Every chain has the shape of a chain. */
  ghost predicate AllShapes(items: seq<Item>, isEdge: seq<bool>, chainOf: seq<nat>, members: map<nat, seq<nat>>, endEdges: map<nat, (nat, nat)>)
    requires |isEdge| == |items| && |chainOf| == |items|
  {
    forall c {:trigger ChainShape(items, isEdge, chainOf, c, members[c], endEdges[c])} ::
      c in members && c in endEdges ==> ChainShape(items, isEdge, chainOf, c, members[c], endEdges[c])
  }

  /** Every edge is listed in the chain it is labelled with. */
  ghost predicate AllLocated(items: seq<Item>, isEdge: seq<bool>, chainOf: seq<nat>, members: map<nat, seq<nat>>)
    requires |isEdge| == |items| && |chainOf| == |items|
  {
    forall e {:trigger Located(members, chainOf, e)} :: 0 <= e < |items| && isEdge[e] ==> Located(members, chainOf, e)
  }

  /** Positions that are not edges stay undecided. */
  ghost predicate NonEdgesUndecided(items: seq<Item>, isEdge: seq<bool>)
    requires |isEdge| == |items|
  {
    forall e :: 0 <= e < |items| && !isEdge[e] ==> items[e].status == Undecided
  }

  /** Edge `e` is listed in the chain it is labelled with. */
  ghost predicate Located(members: map<nat, seq<nat>>, chainOf: seq<nat>, e: nat)
    requires e < |chainOf|
  {
    chainOf[e] in members && e in members[chainOf[e]]
  }

  /** The decided edges. */
  /** An edge is listed in the chain it is labelled with. */
  lemma InChain(items: seq<Item>, isEdge: seq<bool>, chainOf: seq<nat>, members: map<nat, seq<nat>>, endEdges: map<nat, (nat, nat)>, e: nat)
    requires |isEdge| == |items| && Chains(items, isEdge, chainOf, members, endEdges) && e < |items| && isEdge[e]
    ensures chainOf[e] in members && e in members[chainOf[e]]
  {
    assert Located(members, chainOf, e);
  }

  ghost function DecidedSet(items: seq<Item>, isEdge: seq<bool>): set<nat>
    requires |isEdge| == |items|
  {
    set e: nat | e < |items| && isEdge[e] && items[e].status != Undecided
  }

  /** The edges holding a line. */
  ghost function LineSet(items: seq<Item>, isEdge: seq<bool>): set<nat>
    requires |isEdge| == |items|
  {
    set e: nat | e < |items| && isEdge[e] && items[e].status == Line
  }

  /** The undecided edges. */
  ghost function UndecidedSet(items: seq<Item>, isEdge: seq<bool>): set<nat>
    requires |isEdge| == |items|
  {
    set e: nat | e < |items| && isEdge[e] && items[e].status == Undecided
  }

  /** `items` with the status of the slots in `S` replaced by `s`. */
  ghost function Painted(items: seq<Item>, S: set<nat>, s: Edge): (r: seq<Item>)
    ensures |r| == |items|
    ensures forall i :: 0 <= i < |items| ==> r[i] == if i in S then items[i].(status := s) else items[i]
  {
    seq(|items|, i requires 0 <= i < |items| => if i in S then items[i].(status := s) else items[i])
  }

  /** Every decided status of `s0` is unchanged in `s1`: propagation only decides. */
  ghost predicate Extends(s0: seq<Item>, s1: seq<Item>) {
    |s1| == |s0| && forall i :: 0 <= i < |s0| && s0[i].status != Undecided ==> s1[i].status == s0[i].status
  }

  /** `items` with the statuses erased: everything but the edge states. */
  ghost function Skeleton(items: seq<Item>): (r: seq<Item>)
    ensures |r| == |items|
  {
    seq(|items|, i requires 0 <= i < |items| => items[i].(status := Undecided))
  }

  lemma ExtendsTrans(s0: seq<Item>, s1: seq<Item>, s2: seq<Item>)
    requires Extends(s0, s1) && Extends(s1, s2)
    ensures Extends(s0, s2)
  {
  }

  /**
   * `is_end_of_chain` is exact: an edge passes it exactly when it is one of
   * its chain's two end edges.
   */
  lemma EndIff(items: seq<Item>, isEdge: seq<bool>, chainOf: seq<nat>, members: map<nat, seq<nat>>, endEdges: map<nat, (nat, nat)>, e: nat)
    requires |isEdge| == |items| && Chains(items, isEdge, chainOf, members, endEdges)
    requires e < |items| && isEdge[e]
    ensures chainOf[e] in members && e in members[chainOf[e]]
    ensures items[e].anotherEnd < |items|
    ensures IsEnd(items, e) <==> e == endEdges[chainOf[e]].0 || e == endEdges[chainOf[e]].1
  {
    assert Located(members, chainOf, e);
    var c := chainOf[e];
    var L := members[c];
    assert ChainShape(items, isEdge, chainOf, c, L, endEdges[c]);
    var k :| 0 <= k < |L| && L[k] == e;
    assert Located(members, chainOf, items[e].anotherEnd);
  }

  /** Two ends that do not point at each other lie in different chains. */
  lemma EndsApart(items: seq<Item>, isEdge: seq<bool>, chainOf: seq<nat>, members: map<nat, seq<nat>>, endEdges: map<nat, (nat, nat)>, e1: nat, e2: nat)
    requires |isEdge| == |items| && Chains(items, isEdge, chainOf, members, endEdges)
    requires e1 < |items| && isEdge[e1] && e2 < |items| && isEdge[e2]
    requires e1 != e2 && items[e1].anotherEnd < |items| && items[e2].anotherEnd < |items|
    requires IsEnd(items, e1) && IsEnd(items, e2) && items[e1].anotherEnd != e2
    ensures chainOf[e1] != chainOf[e2]
  {
    EndIff(items, isEdge, chainOf, members, endEdges, e1);
    EndIff(items, isEdge, chainOf, members, endEdges, e2);
    var c := chainOf[e1];
    assert ChainShape(items, isEdge, chainOf, c, members[c], endEdges[c]);
  }

  /** The edges of the chain of `e` are `members[chainOf[e]]`, all of `e`'s status. */
  lemma ChainStatus(items: seq<Item>, isEdge: seq<bool>, chainOf: seq<nat>, members: map<nat, seq<nat>>, endEdges: map<nat, (nat, nat)>, e: nat)
    requires |isEdge| == |items| && Chains(items, isEdge, chainOf, members, endEdges)
    requires e < |items| && isEdge[e]
    ensures chainOf[e] in members && e in members[chainOf[e]]
    ensures forall k :: 0 <= k < |members[chainOf[e]]| ==>
              members[chainOf[e]][k] < |items| && items[members[chainOf[e]][k]].status == items[e].status
    ensures StatusOf(items, members, chainOf[e]) == items[e].status
  {
    assert Located(members, chainOf, e);
    var c := chainOf[e];
    var L := members[c];
    assert ChainShape(items, isEdge, chainOf, c, L, endEdges[c]);
    var k :| 0 <= k < |L| && L[k] == e;
  }

  /**
   * Painting every edge of a chain, or none of them, keeps its shape: only
   * statuses change, and they change alike.
   */
  lemma PaintShape(items: seq<Item>, isEdge: seq<bool>, chainOf: seq<nat>, c: nat, L: seq<nat>, ab: (nat, nat), S: set<nat>, s: Edge, allIn: bool)
    requires |isEdge| == |items| && |chainOf| == |items|
    requires ChainShape(items, isEdge, chainOf, c, L, ab)
    requires forall k :: 0 <= k < |L| ==> (L[k] in S <==> allIn)
    ensures ChainShape(Painted(items, S, s), isEdge, chainOf, c, L, ab)
  {
    var r := Painted(items, S, s);
    assert forall k :: 0 <= k < |L| ==> r[L[k]] == if allIn then items[L[k]].(status := s) else items[L[k]];
    assert r[ab.0].anotherEnd == items[ab.0].anotherEnd && r[ab.1].anotherEnd == items[ab.1].anotherEnd;
    assert r[ab.0].endPoints == items[ab.0].endPoints && r[ab.1].endPoints == items[ab.1].endPoints;
    assert r[ab.0].size == items[ab.0].size && r[ab.1].size == items[ab.1].size;
    forall k | 0 <= k < |L| && L[k] != ab.0 && L[k] != ab.1
      ensures r[r[L[k]].anotherEnd].anotherEnd != L[k]
    {
      assert r[items[L[k]].anotherEnd].anotherEnd == items[items[L[k]].anotherEnd].anotherEnd;
    }
  }

  /** Painting an undecided chain adds exactly its edges to the decided ones, and to the lines for `Line`. */
  lemma PaintCounts(items: seq<Item>, isEdge: seq<bool>, L: seq<nat>, S: set<nat>, s: Edge)
    requires |isEdge| == |items| && S == SeqSet(L) && s != Undecided
    requires forall k :: 0 <= k < |L| ==> L[k] < |items| && isEdge[L[k]] && items[L[k]].status == Undecided
    ensures DecidedSet(Painted(items, S, s), isEdge) == DecidedSet(items, isEdge) + S
    ensures S !! DecidedSet(items, isEdge)
    ensures LineSet(Painted(items, S, s), isEdge) == LineSet(items, isEdge) + (if s == Line then S else {})
    ensures Skeleton(Painted(items, S, s)) == Skeleton(items)
    ensures Extends(items, Painted(items, S, s))
    ensures S <= UndecidedSet(items, isEdge) && UndecidedSet(Painted(items, S, s), isEdge) == UndecidedSet(items, isEdge) - S
  {
    var r := Painted(items, S, s);
    assert forall e :: e in S ==> e < |items| && isEdge[e] && items[e].status == Undecided;
    assert DecidedSet(r, isEdge) == DecidedSet(items, isEdge) + S;
    assert LineSet(r, isEdge) == LineSet(items, isEdge) + (if s == Line then S else {});
    assert Skeleton(r) == Skeleton(items);
    assert UndecidedSet(r, isEdge) == UndecidedSet(items, isEdge) - S;
  }

  /**
   * Painting a whole undecided chain with a decided status keeps the
   * partition, adds exactly the chain to the decided edges, and adds it to
   * the line edges when the status is `Line`.
   */
  lemma {:induction false} PaintChain(items: seq<Item>, isEdge: seq<bool>, chainOf: seq<nat>, members: map<nat, seq<nat>>, endEdges: map<nat, (nat, nat)>, c: nat, s: Edge)
    requires |isEdge| == |items| && Chains(items, isEdge, chainOf, members, endEdges)
    requires c in members && s != Undecided && StatusOf(items, members, c) == Undecided
    ensures Chains(Painted(items, SeqSet(members[c]), s), isEdge, chainOf, members, endEdges)
    ensures DecidedSet(Painted(items, SeqSet(members[c]), s), isEdge) == DecidedSet(items, isEdge) + SeqSet(members[c])
    ensures SeqSet(members[c]) !! DecidedSet(items, isEdge)
    ensures LineSet(Painted(items, SeqSet(members[c]), s), isEdge) == LineSet(items, isEdge) + (if s == Line then SeqSet(members[c]) else {})
    ensures Skeleton(Painted(items, SeqSet(members[c]), s)) == Skeleton(items)
    ensures Extends(items, Painted(items, SeqSet(members[c]), s))
  {
    var L := members[c];
    var S := SeqSet(L);
    var r := Painted(items, S, s);
    assert ChainShape(items, isEdge, chainOf, c, L, endEdges[c]);
    assert forall x :: x in S ==> chainOf[x] == c;
    forall c' | c' in members
      ensures ChainShape(r, isEdge, chainOf, c', members[c'], endEdges[c'])
    {
      var L' := members[c'];
      assert ChainShape(items, isEdge, chainOf, c', L', endEdges[c']);
      PaintShape(items, isEdge, chainOf, c', L', endEdges[c'], S, s, c' == c);
    }
    forall e | 0 <= e < |items| && !isEdge[e]
      ensures r[e].status == Undecided
    {
      assert e !in S;
    }
    PaintCounts(items, isEdge, L, S, s);
  }

  /**
   * Painting a whole undecided chain: the chain is not empty, and the
   * counts of decided, line and undecided edges move by its length.
   */
  lemma PaintChainCounts(items: seq<Item>, isEdge: seq<bool>, chainOf: seq<nat>, members: map<nat, seq<nat>>, endEdges: map<nat, (nat, nat)>, c: nat, s: Edge)
    requires |isEdge| == |items| && Chains(items, isEdge, chainOf, members, endEdges)
    requires c in members && s != Undecided && StatusOf(items, members, c) == Undecided
    ensures |members[c]| > 0 && SeqSet(members[c]) <= UndecidedSet(items, isEdge)
    ensures |DecidedSet(Painted(items, SeqSet(members[c]), s), isEdge)| == |DecidedSet(items, isEdge)| + |members[c]|
    ensures |LineSet(Painted(items, SeqSet(members[c]), s), isEdge)| == |LineSet(items, isEdge)| + (if s == Line then |members[c]| else 0)
    ensures |UndecidedSet(Painted(items, SeqSet(members[c]), s), isEdge)| == |UndecidedSet(items, isEdge)| - |members[c]|
  {
    var L, ab := ShapeOf(items, isEdge, chainOf, members, endEdges, c);
    var S := SeqSet(L);
    DistinctCard(L);
    PaintCounts(items, isEdge, L, S, s);
    assert DecidedSet(items, isEdge) * S == {};
    assert LineSet(items, isEdge) * S == {};
  }

  /**
   * Deciding the undecided chain of `e`: the cycle `R` through it, listed
   * from `e`, is exactly that chain, and painting it keeps the partition,
   * adds its edges to the decided ones (and to the lines for `Line`), and
   * removes them from the undecided ones.
   */
  lemma PaintPlan(items: seq<Item>, isEdge: seq<bool>, chainOf: seq<nat>, members: map<nat, seq<nat>>, endEdges: map<nat, (nat, nat)>, e: nat, s: Edge)
      returns (R: seq<nat>)
    requires |isEdge| == |items| && Chains(items, isEdge, chainOf, members, endEdges)
    requires e < |items| && isEdge[e] && items[e].status == Undecided && s != Undecided
    ensures Cycle(items, R) && Distinct(R) && R[0] == e
    ensures chainOf[e] in members && SeqSet(R) == SeqSet(members[chainOf[e]]) && |R| == |members[chainOf[e]]|
    ensures Chains(Painted(items, SeqSet(R), s), isEdge, chainOf, members, endEdges)
    ensures |DecidedSet(Painted(items, SeqSet(R), s), isEdge)| == |DecidedSet(items, isEdge)| + |R|
    ensures |LineSet(Painted(items, SeqSet(R), s), isEdge)| == |LineSet(items, isEdge)| + (if s == Line then |R| else 0)
    ensures |UndecidedSet(Painted(items, SeqSet(R), s), isEdge)| < |UndecidedSet(items, isEdge)|
    ensures Skeleton(Painted(items, SeqSet(R), s)) == Skeleton(items) && Extends(items, Painted(items, SeqSet(R), s))
  {
    R := ChainFrom(items, isEdge, chainOf, members, endEdges, e);
    var c := chainOf[e];
    PaintChain(items, isEdge, chainOf, members, endEdges, c, s);
    PaintChainCounts(items, isEdge, chainOf, members, endEdges, c, s);
  }

  /** The cycle of the chain of `e`, listed from `e`. */
  lemma ChainFrom(items: seq<Item>, isEdge: seq<bool>, chainOf: seq<nat>, members: map<nat, seq<nat>>, endEdges: map<nat, (nat, nat)>, e: nat)
      returns (R: seq<nat>)
    requires |isEdge| == |items| && Chains(items, isEdge, chainOf, members, endEdges)
    requires e < |items| && isEdge[e]
    ensures chainOf[e] in members && items[e].status == StatusOf(items, members, chainOf[e])
    ensures Cycle(items, R) && Distinct(R) && R[0] == e
    ensures SeqSet(R) == SeqSet(members[chainOf[e]]) && |R| == |members[chainOf[e]]|
  {
    ChainStatus(items, isEdge, chainOf, members, endEdges, e);
    var c := chainOf[e];
    var L, ab := ShapeOf(items, isEdge, chainOf, members, endEdges, c);
    var j := IndexOf(L, e);
    if j == 0 {
      R := L;
    } else {
      RotateCycle(items, L, j - 1);
      SeqSetRotate(L, j - 1);
      R := RotateEnd(L, j - 1);
      assert R[0] == L[j];
    }
  }

  /** The edges listed for chain `c` are edges labelled `c`. */
  lemma ChainLabels(items: seq<Item>, isEdge: seq<bool>, chainOf: seq<nat>, members: map<nat, seq<nat>>, endEdges: map<nat, (nat, nat)>, c: nat)
    requires |isEdge| == |items| && Chains(items, isEdge, chainOf, members, endEdges) && c in members
    ensures forall x :: x in SeqSet(members[c]) ==> x < |items| && isEdge[x] && chainOf[x] == c
  {
    var L, ab := ShapeOf(items, isEdge, chainOf, members, endEdges, c);
  }

  /** Tables with the same skeleton agree on everything but the statuses. */
  lemma SkeletonFields(a: seq<Item>, b: seq<Item>, i: nat)
    requires Skeleton(a) == Skeleton(b) && i < |a|
    ensures i < |b| && a[i].endPoints == b[i].endPoints && a[i].next == b[i].next
    ensures a[i].anotherEnd == b[i].anotherEnd && a[i].size == b[i].size
  {
    assert Skeleton(a)[i] == a[i].(status := Undecided);
    assert Skeleton(b)[i] == b[i].(status := Undecided);
  }

  /** Painting one more edge of a list extends the painted prefix by one. */
  lemma PaintStep(items: seq<Item>, R: seq<nat>, k: nat, s: Edge)
    requires k < |R| && R[k] < |items|
    ensures var P := Painted(items, SeqSet(R[..k]), s);
            P[R[k] := P[R[k]].(status := s)] == Painted(items, SeqSet(R[..k + 1]), s)
  {
    assert R[..k + 1] == R[..k] + [R[k]];
    SeqSetAppend(R[..k], [R[k]]);
    assert SeqSet([R[k]]) == {R[k]};
  }

  /** Tables whose statuses agree have the same decided, line and undecided edges. */
  lemma SameStatusSets(a: seq<Item>, b: seq<Item>, isEdge: seq<bool>)
    requires |isEdge| == |a| == |b| && forall i :: 0 <= i < |a| ==> b[i].status == a[i].status
    ensures DecidedSet(b, isEdge) == DecidedSet(a, isEdge) && LineSet(b, isEdge) == LineSet(a, isEdge)
    ensures UndecidedSet(b, isEdge) == UndecidedSet(a, isEdge) && Extends(a, b)
  {
  }

  /** Labels equal in `a` stay equal in `b`: chains only ever grow by merging. */
  ghost predicate Coarsens(a: seq<nat>, b: seq<nat>) {
    |a| == |b| && forall i, j :: 0 <= i < |a| && 0 <= j < |a| && a[i] == a[j] ==> b[i] == b[j]
  }

  lemma CoarsensTrans(a: seq<nat>, b: seq<nat>, c: seq<nat>)
    requires Coarsens(a, b) && Coarsens(b, c)
    ensures Coarsens(a, c)
  {
  }

  /**
   * The facts `join` relies on when both edges are chain ends and the first
   * does not point at the second: the chains differ, the other-end pointers
   * name their chains' other ends, and the ends carry their chains' size
   * and in-range end vertices.
   */
  lemma JoinEnds(items: seq<Item>, isEdge: seq<bool>, chainOf: seq<nat>, members: map<nat, seq<nat>>, endEdges: map<nat, (nat, nat)>, e1: nat, e2: nat)
    requires |isEdge| == |items| && Chains(items, isEdge, chainOf, members, endEdges)
    requires e1 < |items| && isEdge[e1] && e2 < |items| && isEdge[e2] && e1 != e2
    requires IsEnd(items, e1) && IsEnd(items, e2) && items[e1].anotherEnd != e2
    ensures chainOf[e1] in members && chainOf[e2] in members && chainOf[e1] != chainOf[e2]
    ensures items[e1].anotherEnd == endEdges[chainOf[e1]].0 || items[e1].anotherEnd == endEdges[chainOf[e1]].1
    ensures items[e2].anotherEnd == endEdges[chainOf[e2]].0 || items[e2].anotherEnd == endEdges[chainOf[e2]].1
    ensures items[items[e1].anotherEnd].size == |members[chainOf[e1]]| && items[items[e2].anotherEnd].size == |members[chainOf[e2]]|
    ensures items[e1].size == |members[chainOf[e1]]| && items[e2].size == |members[chainOf[e2]]|
    ensures items[e1].endPoints.0 < |items| && items[e1].endPoints.1 < |items|
    ensures items[e2].endPoints.0 < |items| && items[e2].endPoints.1 < |items|
    ensures StatusOf(items, members, chainOf[e1]) == items[e1].status && StatusOf(items, members, chainOf[e2]) == items[e2].status
    ensures chainOf[items[e1].anotherEnd] == chainOf[e1] && chainOf[items[e2].anotherEnd] == chainOf[e2]
  {
    EndsApart(items, isEdge, chainOf, members, endEdges, e1, e2);
    EndIff(items, isEdge, chainOf, members, endEdges, e1);
    EndIff(items, isEdge, chainOf, members, endEdges, e2);
    ChainStatus(items, isEdge, chainOf, members, endEdges, e1);
    ChainStatus(items, isEdge, chainOf, members, endEdges, e2);
    var L1, ab1 := ShapeOf(items, isEdge, chainOf, members, endEdges, chainOf[e1]);
    var L2, ab2 := ShapeOf(items, isEdge, chainOf, members, endEdges, chainOf[e2]);
  }

  /** An edge slot is not the first slot of its row or column pair, so its neighbours exist. */
  lemma EdgeSlotBounds(cols: nat, i: nat)
    requires cols > 0 && IsEdgeSlot(cols, i)
    ensures (i / cols) % 2 == 0 ==> i >= 1
    ensures (i / cols) % 2 == 1 ==> i >= cols
  {
    SlotBounds(cols, i / cols, i % cols);
  }

  lemma SlotBounds(cols: int, y: int, x: int)
    requires cols > 0 && y >= 0 && 0 <= x < cols && y % 2 != x % 2
    ensures y % 2 == 0 ==> y * cols + x >= 1
    ensures y % 2 == 1 ==> y * cols + x >= cols
  {
    MulMonotone(0, y, cols);
    if y % 2 == 1 {
      MulMonotone(1, y, cols);
    }
  }

  /**
   * The two vertices at the ends of the edge in slot `i`: left and right of
   * a horizontal edge (even row), above and below a vertical one.
   */
  function EdgeEnds(cols: nat, i: nat): (p: (nat, nat))
    requires cols > 0 && IsEdgeSlot(cols, i)
    ensures (i / cols) % 2 == 0 ==> p.0 + 1 == i && p.1 == i + 1
    ensures (i / cols) % 2 == 1 ==> p.0 + cols == i && p.1 == i + cols
  {
    EdgeSlotBounds(cols, i);
    if (i / cols) % 2 == 0 then (i - 1, i + 1) else (i - cols, i + cols)
  }

  /** On a lattice with an odd number of rows and columns both end vertices of an edge lie on it. */
  lemma EdgeEndsBound(rows: nat, cols: nat, i: nat)
    requires rows % 2 == 1 && cols % 2 == 1 && i < rows * cols && IsEdgeSlot(cols, i)
    ensures EdgeEnds(cols, i).0 < rows * cols && EdgeEnds(cols, i).1 < rows * cols
  {
    DivMod(i, cols);
    SlotEndsBound(rows, cols, i / cols, i % cols);
  }

  /** Slot `p` is row `p / cols`, column `p % cols`. */
  lemma DivMod(p: nat, cols: nat)
    requires cols > 0
    ensures p == (p / cols) * cols + p % cols && 0 <= p % cols < cols
  {
  }

  lemma SlotEndsBound(rows: int, cols: int, y: int, x: int)
    requires rows > 0 && rows % 2 == 1 && cols > 0 && cols % 2 == 1
    requires 0 <= y && 0 <= x < cols && y * cols + x < rows * cols && y % 2 != x % 2
    ensures y % 2 == 0 ==> y * cols + x + 1 < rows * cols
    ensures y % 2 == 1 ==> y * cols + x + cols < rows * cols
  {
    assert y < rows by {
      if y >= rows {
        MulMonotone(rows, y, cols);
      }
    }
    if y % 2 == 0 {
      assert x <= cols - 2;
      MulMonotone(y + 1, rows, cols);
      MulStep(y, cols);
    } else {
      assert y <= rows - 2;
      MulMonotone(y + 2, rows, cols);
      MulStep(y, cols);
      MulStep(y + 1, cols);
    }
  }

  /** Slot `i` as `new` first sets it: an edge is a chain of its own, of size 1, between its two vertices. */
  function InitialItem(cols: nat, i: nat): (it: Item)
    requires cols > 0
  {
    if IsEdgeSlot(cols, i) then Item(Undecided, EdgeEnds(cols, i), i, i, 1)
    else Item(Undecided, (0, 0), 0, 0, 0)
  }

  /** The item table of a lattice `rows` by `cols` before the corner joins. */
  function InitialItems(rows: nat, cols: nat): (r: seq<Item>)
    requires cols > 0
    ensures |r| == rows * cols && forall i :: 0 <= i < rows * cols ==> r[i] == InitialItem(cols, i)
  {
    seq(rows * cols, i requires 0 <= i < rows * cols => InitialItem(cols, i))
  }

  /** Every edge labelled with its own chain. */
  function InitialChainOf(n: nat): (r: seq<nat>)
    ensures |r| == n && forall i :: 0 <= i < n ==> r[i] == i
  {
    seq(n, i requires 0 <= i < n => i)
  }

  /** One single-edge chain per edge. */
  ghost function InitialMembers(isEdge: seq<bool>): map<nat, seq<nat>> {
    map i: nat | i < |isEdge| && isEdge[i] :: [i]
  }

  /** Each single-edge chain ends at its edge on both sides. */
  ghost function InitialEnds(isEdge: seq<bool>): map<nat, (nat, nat)> {
    map i: nat | i < |isEdge| && isEdge[i] :: (i, i)
  }

  /**
   * The table `new` builds before its corner joins is a chain partition of
   * single-edge cycles, with nothing decided.
   */
  lemma InitialChains(rows: nat, cols: nat)
    requires rows % 2 == 1 && cols % 2 == 1
    ensures Chains(InitialItems(rows, cols), EdgeTable(cols, rows * cols), InitialChainOf(rows * cols),
                   InitialMembers(EdgeTable(cols, rows * cols)), InitialEnds(EdgeTable(cols, rows * cols)))
    ensures DecidedSet(InitialItems(rows, cols), EdgeTable(cols, rows * cols)) == {}
    ensures LineSet(InitialItems(rows, cols), EdgeTable(cols, rows * cols)) == {}
    ensures forall i :: 0 <= i < rows * cols && IsEdgeSlot(cols, i) ==>
              Cycle(InitialItems(rows, cols), [i]) && InitialItems(rows, cols)[i].size == 1
  {
    var n := rows * cols;
    var items := InitialItems(rows, cols);
    var isEdge := EdgeTable(cols, n);
    var chainOf := InitialChainOf(n);
    var members := InitialMembers(isEdge);
    var ends := InitialEnds(isEdge);
    forall c | c in members && c in ends
      ensures ChainShape(items, isEdge, chainOf, c, members[c], ends[c])
    {
      EdgeEndsBound(rows, cols, c);
      assert members[c] == [c] && ends[c] == (c, c);
    }
    forall e | 0 <= e < n && isEdge[e]
      ensures Located(members, chainOf, e)
    {
      assert members[e] == [e];
    }
    assert DecidedSet(items, isEdge) == {};
    assert LineSet(items, isEdge) == {};
  }

  /** The first position of `e` in `L`. */
  function IndexOf(L: seq<nat>, e: nat): (j: nat)
    requires e in L
    ensures j < |L| && L[j] == e
  {
    if L[0] == e then 0 else 1 + IndexOf(L[1..], e)
  }

  /** The cycle `L` read from just after `L[j]`, so that it ends at `L[j]`. */
  function RotateEnd(L: seq<nat>, j: nat): (r: seq<nat>)
    requires j < |L|
    ensures |r| == |L| && r[|r| - 1] == L[j]
  {
    L[j + 1..] + L[..j + 1]
  }

  /** A rotation lists the same cycle through the same edges. */
  lemma RotateCycle(items: seq<Item>, L: seq<nat>, j: nat)
    requires Cycle(items, L) && Distinct(L) && j < |L|
    ensures Cycle(items, RotateEnd(L, j)) && Distinct(RotateEnd(L, j))
    ensures forall x :: x in RotateEnd(L, j) <==> x in L
  {
    var r := RotateEnd(L, j);
    var n := |L|;
    var m := n - 1 - j;
    assert forall k :: 0 <= k < n ==> r[k] == if k < m then L[j + 1 + k] else L[k - m];
    forall k | 0 <= k < n - 1
      ensures items[r[k]].next == r[k + 1]
    {
      if k < m - 1 {
      } else if k == m - 1 {
        assert r[k] == L[n - 1] && r[k + 1] == L[0];
      } else {
      }
    }
    forall a, b | 0 <= a < b < n
      ensures r[a] != r[b]
    {
    }
    forall x | x in L
      ensures x in r
    {
      var k :| 0 <= k < n && L[k] == x;
      if k <= j {
        assert r[k + m] == x;
      } else {
        assert r[k - j - 1] == x;
      }
    }
  }

  /** `chainOf` with every label `c2` replaced by `c1`. */
  function Relabel(chainOf: seq<nat>, c2: nat, c1: nat): (r: seq<nat>)
    ensures |r| == |chainOf|
    ensures forall i :: 0 <= i < |chainOf| ==> r[i] == if chainOf[i] == c2 then c1 else chainOf[i]
  {
    seq(|chainOf|, i requires 0 <= i < |chainOf| => if chainOf[i] == c2 then c1 else chainOf[i])
  }

  /**
   * The item table after `join` concatenates two chains at their end edges
   * `e1` and `e2`: their `next` links are swapped, and both become the ends
   * of the new chain, pointing at each other, with size `size` and end
   * vertices `(v1, v2)`.
   */
  function Merged(items: seq<Item>, e1: nat, e2: nat, v1: nat, v2: nat, size: int): (r: seq<Item>)
    requires e1 < |items| && e2 < |items|
    ensures |r| == |items|
  {
    var i1 := items[e1].(next := items[e2].next, size := size, endPoints := (v1, v2), anotherEnd := e2);
    var i2 := items[e2].(next := items[e1].next, size := size, endPoints := (v1, v2), anotherEnd := e1);
    items[e1 := i1][e2 := i2]
  }

  /** After the merge, `M` with ends `e1` and `e2` is the shape of the joined chain `c1`. */
  ghost predicate JoinedShape(items: seq<Item>, isEdge: seq<bool>, chainOf: seq<nat>, c1: nat, c2: nat,
                              e1: nat, e2: nat, v1: nat, v2: nat, size: int, M: seq<nat>)
    requires |isEdge| == |items| && |chainOf| == |items| && e1 < |items| && e2 < |items|
  {
    ChainShape(Merged(items, e1, e2, v1, v2, size), isEdge, Relabel(chainOf, c2, c1), c1, M, (e1, e2))
  }

  /** The other end edge of a chain with ends `ab`, seen from its end `e`. */
  function OtherEnd(ab: (nat, nat), e: nat): nat {
    if e == ab.0 then ab.1 else ab.0
  }

  /** The edges listed by a concatenation are those of its parts. */
  lemma SeqSetAppend(a: seq<nat>, b: seq<nat>)
    ensures SeqSet(a + b) == SeqSet(a) + SeqSet(b)
  {
    forall x | x in SeqSet(a + b)
      ensures x in SeqSet(a) + SeqSet(b)
    {
      var k :| 0 <= k < |a + b| && (a + b)[k] == x;
      if k < |a| {
        assert a[k] == x;
      } else {
        assert b[k - |a|] == x;
      }
    }
    forall x | x in SeqSet(a) + SeqSet(b)
      ensures x in SeqSet(a + b)
    {
      if x in SeqSet(a) {
        var k :| 0 <= k < |a| && a[k] == x;
        assert (a + b)[k] == x;
      } else {
        var k :| 0 <= k < |b| && b[k] == x;
        assert (a + b)[|a| + k] == x;
      }
    }
  }

  /** A rotation lists the same edges. */
  lemma SeqSetRotate(L: seq<nat>, j: nat)
    requires j < |L|
    ensures SeqSet(RotateEnd(L, j)) == SeqSet(L)
  {
    SeqSetAppend(L[j + 1..], L[..j + 1]);
    SeqSetAppend(L[..j + 1], L[j + 1..]);
    assert L[..j + 1] + L[j + 1..] == L;
  }

  /** The joined list: `L1` read up to `e1`, then `L2` read up to `e2`. */
  function JoinedList(L1: seq<nat>, L2: seq<nat>, e1: nat, e2: nat): (M: seq<nat>)
    requires e1 in L1 && e2 in L2
    ensures |M| == |L1| + |L2|
  {
    RotateEnd(L1, IndexOf(L1, e1)) + RotateEnd(L2, IndexOf(L2, e2))
  }

  /**
   * The joined list is a cycle through distinct edges: the two rotated
   * lists are joined where the swapped links now point.
   */
  lemma JoinedCycle(items: seq<Item>, L1: seq<nat>, L2: seq<nat>, e1: nat, e2: nat, v1: nat, v2: nat, size: int)
    requires Cycle(items, L1) && Distinct(L1) && Cycle(items, L2) && Distinct(L2)
    requires e1 in L1 && e2 in L2 && forall x :: x in L1 ==> x !in L2
    ensures Cycle(Merged(items, e1, e2, v1, v2, size), JoinedList(L1, L2, e1, e2))
    ensures Distinct(JoinedList(L1, L2, e1, e2))
  {
    var R1 := RotateEnd(L1, IndexOf(L1, e1));
    var R2 := RotateEnd(L2, IndexOf(L2, e2));
    RotateCycle(items, L1, IndexOf(L1, e1));
    RotateCycle(items, L2, IndexOf(L2, e2));
    ConcatCycle(items, R1, R2, e1, e2, v1, v2, size);
    ConcatDistinct(R1, R2);
  }

  /** Two disjoint cycles ending in `e1` and `e2`, with those two links swapped, are one cycle. */
  lemma ConcatCycle(items: seq<Item>, R1: seq<nat>, R2: seq<nat>, e1: nat, e2: nat, v1: nat, v2: nat, size: int)
    requires Cycle(items, R1) && Distinct(R1) && Cycle(items, R2) && Distinct(R2)
    requires R1[|R1| - 1] == e1 && R2[|R2| - 1] == e2 && forall x :: x in R1 ==> x !in R2
    ensures Cycle(Merged(items, e1, e2, v1, v2, size), R1 + R2)
  {
    var M := R1 + R2;
    var r := Merged(items, e1, e2, v1, v2, size);
    var n1 := |R1|;
    assert e1 in R1 && e2 in R2;
    assert forall k :: 0 <= k < n1 - 1 ==> R1[k] != e1 && R1[k] != e2;
    assert forall k :: 0 <= k < |R2| - 1 ==> R2[k] != e1 && R2[k] != e2;
    forall k | 0 <= k < |M| - 1
      ensures r[M[k]].next == M[k + 1]
    {
      if k < n1 - 1 {
        assert M[k] == R1[k] && M[k + 1] == R1[k + 1];
      } else if k == n1 - 1 {
        assert M[k] == e1 && M[k + 1] == R2[0];
      } else {
        assert M[k] == R2[k - n1] && M[k + 1] == R2[k - n1 + 1];
      }
    }
    assert M[|M| - 1] == e2;
  }

  /** Two disjoint lists without repeats concatenate to one without repeats. */
  lemma ConcatDistinct(R1: seq<nat>, R2: seq<nat>)
    requires Distinct(R1) && Distinct(R2) && forall x :: x in R1 ==> x !in R2
    ensures Distinct(R1 + R2)
  {
    var M := R1 + R2;
    forall a, b | 0 <= a < b < |M|
      ensures M[a] != M[b]
    {
      if b >= |R1| && a < |R1| {
        assert M[a] in R1 && M[b] in R2;
      }
    }
  }

  /**
   * Joining two disjoint cycles at `e1` and `e2` gives a cycle `M` through
   * the edges of both.
   */
  lemma MergeCycle(items: seq<Item>, L1: seq<nat>, L2: seq<nat>, e1: nat, e2: nat, v1: nat, v2: nat, size: int) returns (M: seq<nat>)
    requires Cycle(items, L1) && Distinct(L1) && Cycle(items, L2) && Distinct(L2)
    requires e1 in L1 && e2 in L2 && SeqSet(L1) !! SeqSet(L2)
    ensures Cycle(Merged(items, e1, e2, v1, v2, size), M)
    ensures Distinct(M) && |M| == |L1| + |L2|
    ensures SeqSet(M) == SeqSet(L1) + SeqSet(L2)
  {
    forall x | x in L1
      ensures x !in L2
    {
      var k :| 0 <= k < |L1| && L1[k] == x;
      assert x in SeqSet(L1);
    }
    JoinedCycle(items, L1, L2, e1, e2, v1, v2, size);
    M := JoinedList(L1, L2, e1, e2);
    SeqSetAppend(RotateEnd(L1, IndexOf(L1, e1)), RotateEnd(L2, IndexOf(L2, e2)));
    SeqSetRotate(L1, IndexOf(L1, e1));
    SeqSetRotate(L2, IndexOf(L2, e2));
  }

  /**
   * Joining chains `c1` and `c2` at their ends `e1` and `e2` gives a chain
   * `M` of their edges together, with `e1` and `e2` as its ends.
   */
  lemma {:induction false} MergeNewChain(items: seq<Item>, isEdge: seq<bool>, chainOf: seq<nat>, c1: nat, c2: nat,
                                         L1: seq<nat>, L2: seq<nat>, ab1: (nat, nat), ab2: (nat, nat), e1: nat, e2: nat, v1: nat, v2: nat, size: nat)
      returns (M: seq<nat>)
    requires |isEdge| == |items| && |chainOf| == |items| && c1 != c2 && size == |L1| + |L2|
    requires ChainShape(items, isEdge, chainOf, c1, L1, ab1) && ChainShape(items, isEdge, chainOf, c2, L2, ab2)
    requires (e1 == ab1.0 || e1 == ab1.1) && (e2 == ab2.0 || e2 == ab2.1)
    requires items[L1[0]].status == items[L2[0]].status
    requires v1 < |items| && v2 < |items|
    ensures JoinedShape(items, isEdge, chainOf, c1, c2, e1, e2, v1, v2, size, M)
    ensures |M| == |L1| + |L2| && SeqSet(M) == SeqSet(L1) + SeqSet(L2)
  {
    ChainsDisjoint(items, isEdge, chainOf, c1, c2, L1, L2, ab1, ab2);
    M := MergeCycle(items, L1, L2, e1, e2, v1, v2, size);
    MergeNewShape(items, isEdge, chainOf, c1, c2, L1, L2, ab1, ab2, e1, e2, v1, v2, size, M);
  }

  /** Chains with different labels share no edge. */
  lemma ChainsDisjoint(items: seq<Item>, isEdge: seq<bool>, chainOf: seq<nat>, c1: nat, c2: nat,
                       L1: seq<nat>, L2: seq<nat>, ab1: (nat, nat), ab2: (nat, nat))
    requires |isEdge| == |items| && |chainOf| == |items| && c1 != c2
    requires ChainShape(items, isEdge, chainOf, c1, L1, ab1) && ChainShape(items, isEdge, chainOf, c2, L2, ab2)
    ensures SeqSet(L1) !! SeqSet(L2)
  {
    assert forall x :: x in SeqSet(L1) ==> chainOf[x] == c1;
    assert forall x :: x in SeqSet(L2) ==> chainOf[x] == c2;
  }

  /** The shape conditions of the joined chain, given that its list `M` is a cycle through the edges of both. */
  lemma {:induction false} MergeNewShape(items: seq<Item>, isEdge: seq<bool>, chainOf: seq<nat>, c1: nat, c2: nat,
                                         L1: seq<nat>, L2: seq<nat>, ab1: (nat, nat), ab2: (nat, nat), e1: nat, e2: nat, v1: nat, v2: nat,
                                         size: nat, M: seq<nat>)
    requires |isEdge| == |items| && |chainOf| == |items| && c1 != c2 && size == |L1| + |L2|
    requires ChainShape(items, isEdge, chainOf, c1, L1, ab1) && ChainShape(items, isEdge, chainOf, c2, L2, ab2)
    requires (e1 == ab1.0 || e1 == ab1.1) && (e2 == ab2.0 || e2 == ab2.1)
    requires items[L1[0]].status == items[L2[0]].status
    requires v1 < |items| && v2 < |items|
    requires Cycle(Merged(items, e1, e2, v1, v2, size), M)
    requires Distinct(M)
    requires |M| == size
    requires SeqSet(M) == SeqSet(L1) + SeqSet(L2)
    ensures JoinedShape(items, isEdge, chainOf, c1, c2, e1, e2, v1, v2, size, M)
  {
    var r := Merged(items, e1, e2, v1, v2, size);
    var ch := Relabel(chainOf, c2, c1);
    assert e1 != e2;
    assert forall i :: 0 <= i < |items| && i != e1 && i != e2 ==> r[i] == items[i];
    var x1, x2 := OtherEnd(ab1, e1), OtherEnd(ab2, e2);
    assert items[x1].anotherEnd == e1 && items[x2].anotherEnd == e2;
    forall k | 0 <= k < |M|
      ensures && isEdge[M[k]] && ch[M[k]] == c1
              && r[M[k]].anotherEnd < |r| && isEdge[r[M[k]].anotherEnd]
              && ch[r[M[k]].anotherEnd] == c1
              && r[M[k]].status == items[L1[0]].status
    {
      assert M[k] in SeqSet(M);
      MergedMember(items, isEdge, chainOf, c1, c2, L1, L2, ab1, ab2, e1, e2, v1, v2, size, M[k]);
    }
    forall k | 0 <= k < |M| && M[k] != e1 && M[k] != e2
      ensures r[r[M[k]].anotherEnd].anotherEnd != M[k]
    {
      MergedInteriorAt(items, isEdge, chainOf, c1, c2, L1, L2, ab1, ab2, e1, e2, v1, v2, size, M, k);
    }
    assert e1 in SeqSet(L1) && e2 in SeqSet(L2);
    assert e1 in SeqSet(M) && e2 in SeqSet(M);
    assert r[e1].anotherEnd == e2 && r[e2].anotherEnd == e1;
  }

  /** The interior condition for the `k`th edge of the joined chain, from whichever chain it came. */
  lemma MergedInteriorAt(items: seq<Item>, isEdge: seq<bool>, chainOf: seq<nat>, c1: nat, c2: nat,
                         L1: seq<nat>, L2: seq<nat>, ab1: (nat, nat), ab2: (nat, nat), e1: nat, e2: nat, v1: nat, v2: nat,
                         size: int, M: seq<nat>, k: nat)
    requires |isEdge| == |items| && |chainOf| == |items| && c1 != c2
    requires ChainShape(items, isEdge, chainOf, c1, L1, ab1) && ChainShape(items, isEdge, chainOf, c2, L2, ab2)
    requires (e1 == ab1.0 || e1 == ab1.1) && (e2 == ab2.0 || e2 == ab2.1)
    requires SeqSet(M) == SeqSet(L1) + SeqSet(L2)
    requires k < |M| && M[k] != e1 && M[k] != e2
    ensures var r := Merged(items, e1, e2, v1, v2, size);
            M[k] < |r| && r[M[k]].anotherEnd < |r| && r[r[M[k]].anotherEnd].anotherEnd != M[k]
  {
    assert chainOf[e1] == c1 && chainOf[e2] == c2;
    assert M[k] in SeqSet(M);
    if M[k] in SeqSet(L1) {
      MergedInterior(items, isEdge, chainOf, c1, L1, ab1, e1, M[k], e1, e2, v1, v2, size);
    } else {
      MergedInterior(items, isEdge, chainOf, c2, L2, ab2, e2, M[k], e1, e2, v1, v2, size);
    }
  }

  /** One edge of the joined chain: an edge of it, relabelled `c1`, pointing into it, with the common status. */
  lemma MergedMember(items: seq<Item>, isEdge: seq<bool>, chainOf: seq<nat>, c1: nat, c2: nat,
                     L1: seq<nat>, L2: seq<nat>, ab1: (nat, nat), ab2: (nat, nat), e1: nat, e2: nat, v1: nat, v2: nat, size: int, x: nat)
    requires |isEdge| == |items| && |chainOf| == |items| && c1 != c2
    requires ChainShape(items, isEdge, chainOf, c1, L1, ab1) && ChainShape(items, isEdge, chainOf, c2, L2, ab2)
    requires (e1 == ab1.0 || e1 == ab1.1) && (e2 == ab2.0 || e2 == ab2.1)
    requires items[L1[0]].status == items[L2[0]].status
    requires x in SeqSet(L1) || x in SeqSet(L2)
    ensures var r := Merged(items, e1, e2, v1, v2, size);
            var ch := Relabel(chainOf, c2, c1);
            && x < |items| && isEdge[x] && ch[x] == c1
            && r[x].anotherEnd < |r| && isEdge[r[x].anotherEnd]
            && ch[r[x].anotherEnd] == c1
            && r[x].status == items[L1[0]].status
  {
    if x in SeqSet(L1) {
      var j :| 0 <= j < |L1| && L1[j] == x;
    } else {
      var j :| 0 <= j < |L2| && L2[j] == x;
    }
  }

  /**
   * An edge of the joined chain other than its new ends fails
   * `is_end_of_chain`: an old interior edge stays interior, and the old end
   * that was not joined at now points at a joined end, which points elsewhere.
   */
  lemma MergedInterior(items: seq<Item>, isEdge: seq<bool>, chainOf: seq<nat>, c: nat, L: seq<nat>, ab: (nat, nat), e: nat,
                       x: nat, e1: nat, e2: nat, v1: nat, v2: nat, size: int)
    requires |isEdge| == |items| && |chainOf| == |items|
    requires ChainShape(items, isEdge, chainOf, c, L, ab)
    requires (e == ab.0 || e == ab.1) && (e == e1 || e == e2)
    requires x in SeqSet(L) && x != e1 && x != e2 && e1 != e2 && e1 < |items| && e2 < |items|
    ensures var r := Merged(items, e1, e2, v1, v2, size);
            r[x].anotherEnd < |r| && r[r[x].anotherEnd].anotherEnd != x
  {
    var j :| 0 <= j < |L| && L[j] == x;
    if x == ab.0 || x == ab.1 {
      assert items[x].anotherEnd == e;
    }
  }

  /** A chain other than the two being joined keeps its shape. */
  lemma MergeOtherChain(items: seq<Item>, isEdge: seq<bool>, chainOf: seq<nat>, c1: nat, c2: nat, c: nat, L: seq<nat>, ab: (nat, nat),
                        e1: nat, e2: nat, v1: nat, v2: nat, size: int)
    requires |isEdge| == |items| && |chainOf| == |items| && c != c1 && c != c2
    requires ChainShape(items, isEdge, chainOf, c, L, ab)
    requires e1 < |items| && e2 < |items| && chainOf[e1] == c1 && chainOf[e2] == c2
    ensures ChainShape(Merged(items, e1, e2, v1, v2, size), isEdge, Relabel(chainOf, c2, c1), c, L, ab)
  {
    var r := Merged(items, e1, e2, v1, v2, size);
    var ch := Relabel(chainOf, c2, c1);
    assert forall k :: 0 <= k < |L| ==> L[k] != e1 && L[k] != e2 && ch[L[k]] == c && r[L[k]] == items[L[k]];
    assert forall k :: 0 <= k < |L| ==> items[L[k]].anotherEnd != e1 && items[L[k]].anotherEnd != e2;
    assert forall k :: 0 <= k < |L| ==> ch[items[L[k]].anotherEnd] == c;
    assert forall k :: 0 <= k < |L| ==> r[items[L[k]].anotherEnd] == items[items[L[k]].anotherEnd];
    assert r[ab.0] == items[ab.0] && r[ab.1] == items[ab.1];
  }

  /**
   * Joining two distinct chains of one status at end edges `e1` and `e2`
   * keeps the partition: the result has one chain fewer, holding the edges
   * of both, with `e1` and `e2` as its ends, and every edge keeps its status.
   */
  lemma {:induction false} MergeChains(items: seq<Item>, isEdge: seq<bool>, chainOf: seq<nat>, members: map<nat, seq<nat>>, endEdges: map<nat, (nat, nat)>,
                                        c1: nat, c2: nat, e1: nat, e2: nat, v1: nat, v2: nat, size: int) returns (M: seq<nat>)
    requires |isEdge| == |items| && Chains(items, isEdge, chainOf, members, endEdges)
    requires c1 in members && c2 in members && c1 != c2
    requires e1 == endEdges[c1].0 || e1 == endEdges[c1].1
    requires e2 == endEdges[c2].0 || e2 == endEdges[c2].1
    requires StatusOf(items, members, c1) == StatusOf(items, members, c2)
    requires v1 < |items| && v2 < |items| && size == |members[c1]| + |members[c2]|
    ensures e1 in members[c1] && e2 in members[c2] && e1 < |items| && e2 < |items|
    ensures Chains(Merged(items, e1, e2, v1, v2, size), isEdge, Relabel(chainOf, c2, c1),
                   (members - {c2})[c1 := M], (endEdges - {c2})[c1 := (e1, e2)])
    ensures |(members - {c2})[c1 := M]| == |members| - 1
    ensures |M| == |members[c1]| + |members[c2]| && SeqSet(M) == SeqSet(members[c1]) + SeqSet(members[c2])
    ensures forall i :: 0 <= i < |items| ==> Merged(items, e1, e2, v1, v2, size)[i].status == items[i].status
  {
    M := MergePair(items, isEdge, chainOf, members, endEdges, c1, c2, e1, e2, v1, v2, size);
    MergedShapes(items, isEdge, chainOf, members, endEdges, c1, c2, e1, e2, v1, v2, M);
    MergedLocatedAll(items, isEdge, chainOf, members, c1, c2, M);
    MergedKeepsStatus(items, isEdge, e1, e2, v1, v2, size);
    FoldCard(members, c1, c2, M);
  }

  /** Folding chain `c2` into `c1` leaves one entry fewer in the table. */
  lemma FoldCard(members: map<nat, seq<nat>>, c1: nat, c2: nat, M: seq<nat>)
    requires c1 in members && c2 in members && c1 != c2
    ensures |(members - {c2})[c1 := M]| == |members| - 1
  {
    assert (members - {c2}).Keys == members.Keys - {c2};
    assert |(members - {c2}).Keys| == |members.Keys| - 1;
    assert (members - {c2})[c1 := M].Keys == (members - {c2}).Keys;
  }

  /**
   * The merge of `join` on the whole engine table: the partition, the
   * lattice and the counters all survive with chain `c2` folded into `c1`,
   * the statuses are untouched, and there is one chain fewer.
   */
  lemma SpliceTable(items: seq<Item>, isEdge: seq<bool>, chainOf: seq<nat>, members: map<nat, seq<nat>>, endEdges: map<nat, (nat, nat)>,
                    rows: nat, cols: nat, decided: int, lines: int, c1: nat, c2: nat, e1: nat, e2: nat, v1: nat, v2: nat, size: int)
      returns (chainOf': seq<nat>, members': map<nat, seq<nat>>, endEdges': map<nat, (nat, nat)>)
    requires ChainTable(items, isEdge, chainOf, members, endEdges, rows, cols, decided, lines)
    requires c1 in members && c2 in members && c1 != c2
    requires e1 == endEdges[c1].0 || e1 == endEdges[c1].1
    requires e2 == endEdges[c2].0 || e2 == endEdges[c2].1
    requires StatusOf(items, members, c1) == StatusOf(items, members, c2)
    requires v1 < |items| && v2 < |items| && size == |members[c1]| + |members[c2]|
    ensures e1 < |items| && e2 < |items| && chainOf[e1] == c1 && chainOf[e2] == c2
    ensures ChainTable(Merged(items, e1, e2, v1, v2, size), isEdge, chainOf', members', endEdges', rows, cols, decided, lines)
    ensures chainOf' == Relabel(chainOf, c2, c1)
    ensures c1 in members' && SeqSet(members'[c1]) == SeqSet(members[c1]) + SeqSet(members[c2]) && endEdges'[c1] == (e1, e2)
    ensures |members'| == |members| - 1
    ensures UndecidedSet(Merged(items, e1, e2, v1, v2, size), isEdge) == UndecidedSet(items, isEdge)
    ensures Extends(items, Merged(items, e1, e2, v1, v2, size))
  {
    var M := MergeChains(items, isEdge, chainOf, members, endEdges, c1, c2, e1, e2, v1, v2, size);
    var L1, ab1 := ShapeOf(items, isEdge, chainOf, members, endEdges, c1);
    var L2, ab2 := ShapeOf(items, isEdge, chainOf, members, endEdges, c2);
    SameStatusSets(items, Merged(items, e1, e2, v1, v2, size), isEdge);
    var ms: map<nat, seq<nat>> := members - {c2};
    var es: map<nat, (nat, nat)> := endEdges - {c2};
    chainOf', members', endEdges' := Relabel(chainOf, c2, c1), ms[c1 := M], es[c1 := (e1, e2)];
  }

  /** The shape of one chain of the partition. */
  lemma ShapeOf(items: seq<Item>, isEdge: seq<bool>, chainOf: seq<nat>, members: map<nat, seq<nat>>, endEdges: map<nat, (nat, nat)>, c: nat)
      returns (L: seq<nat>, ab: (nat, nat))
    requires |isEdge| == |items| && |chainOf| == |items| && c in endEdges
    requires AllShapes(items, isEdge, chainOf, members, endEdges) && c in members
    ensures L == members[c] && ab == endEdges[c] && ChainShape(items, isEdge, chainOf, c, L, ab)
  {
    L, ab := members[c], endEdges[c];
  }

  /** The joined chain of `c1` and `c2`, read off the partition's maps. */
  lemma MergePair(items: seq<Item>, isEdge: seq<bool>, chainOf: seq<nat>, members: map<nat, seq<nat>>, endEdges: map<nat, (nat, nat)>,
                  c1: nat, c2: nat, e1: nat, e2: nat, v1: nat, v2: nat, size: nat) returns (M: seq<nat>)
    requires |isEdge| == |items| && |chainOf| == |items| && c1 in endEdges && c2 in endEdges
    requires c1 in members && c2 in members && size == |members[c1]| + |members[c2]|
    requires AllShapes(items, isEdge, chainOf, members, endEdges)
    requires c1 in members && c2 in members && c1 != c2
    requires e1 == endEdges[c1].0 || e1 == endEdges[c1].1
    requires e2 == endEdges[c2].0 || e2 == endEdges[c2].1
    requires StatusOf(items, members, c1) == StatusOf(items, members, c2)
    requires v1 < |items| && v2 < |items|
    ensures e1 in members[c1] && e2 in members[c2] && e1 < |items| && e2 < |items|
    ensures JoinedShape(items, isEdge, chainOf, c1, c2, e1, e2, v1, v2, size, M)
    ensures |M| == |members[c1]| + |members[c2]| && SeqSet(M) == SeqSet(members[c1]) + SeqSet(members[c2])
  {
    var L1, ab1 := ShapeOf(items, isEdge, chainOf, members, endEdges, c1);
    var L2, ab2 := ShapeOf(items, isEdge, chainOf, members, endEdges, c2);
    M := MergeNewChain(items, isEdge, chainOf, c1, c2, L1, L2, ab1, ab2, e1, e2, v1, v2, size);
  }

  /** The merge changes no status; in particular positions that are not edges stay undecided. */
  lemma MergedKeepsStatus(items: seq<Item>, isEdge: seq<bool>, e1: nat, e2: nat, v1: nat, v2: nat, size: int)
    requires |isEdge| == |items| && e1 < |items| && e2 < |items| && NonEdgesUndecided(items, isEdge)
    ensures forall i :: 0 <= i < |items| ==> Merged(items, e1, e2, v1, v2, size)[i].status == items[i].status
    ensures NonEdgesUndecided(Merged(items, e1, e2, v1, v2, size), isEdge)
  {
  }

  /** Every chain of the merged partition has the shape of a chain. */
  lemma MergedShapes(items: seq<Item>, isEdge: seq<bool>, chainOf: seq<nat>, members: map<nat, seq<nat>>, endEdges: map<nat, (nat, nat)>,
                     c1: nat, c2: nat, e1: nat, e2: nat, v1: nat, v2: nat, M: seq<nat>)
    requires |isEdge| == |items| && |chainOf| == |items| && members.Keys == endEdges.Keys
    requires AllShapes(items, isEdge, chainOf, members, endEdges)
    requires c1 in members && c2 in members && c1 != c2
    requires e1 == endEdges[c1].0 || e1 == endEdges[c1].1
    requires e2 == endEdges[c2].0 || e2 == endEdges[c2].1
    requires e1 < |items| && e2 < |items|
    requires JoinedShape(items, isEdge, chainOf, c1, c2, e1, e2, v1, v2, |members[c1]| + |members[c2]|, M)
    ensures AllShapes(Merged(items, e1, e2, v1, v2, |members[c1]| + |members[c2]|), isEdge, Relabel(chainOf, c2, c1),
                      (members - {c2})[c1 := M], (endEdges - {c2})[c1 := (e1, e2)])
  {
    var r := Merged(items, e1, e2, v1, v2, |members[c1]| + |members[c2]|);
    var ch := Relabel(chainOf, c2, c1);
    var mem := (members - {c2})[c1 := M];
    var ends := (endEdges - {c2})[c1 := (e1, e2)];
    assert ChainShape(items, isEdge, chainOf, c1, members[c1], endEdges[c1]);
    assert ChainShape(items, isEdge, chainOf, c2, members[c2], endEdges[c2]);
    assert chainOf[e1] == c1 && chainOf[e2] == c2;
    forall c | c in mem && c in ends
      ensures ChainShape(r, isEdge, ch, c, mem[c], ends[c])
    {
      if c != c1 {
        assert ChainShape(items, isEdge, chainOf, c, members[c], endEdges[c]);
        MergedShapeOf(items, isEdge, chainOf, members, endEdges, c1, c2, e1, e2, v1, v2, M, c);
      } else {
        ShapeCongruence(r, isEdge, ch, c, M, (e1, e2), mem[c], ends[c]);
      }
    }
  }

  /** A chain other than the joined ones keeps its shape in the merged partition. */
  lemma MergedShapeOf(items: seq<Item>, isEdge: seq<bool>, chainOf: seq<nat>, members: map<nat, seq<nat>>, endEdges: map<nat, (nat, nat)>,
                      c1: nat, c2: nat, e1: nat, e2: nat, v1: nat, v2: nat, M: seq<nat>, c: nat)
    requires |isEdge| == |items| && |chainOf| == |items| && members.Keys == endEdges.Keys
    requires c in members && c1 in members && c2 in members && c != c1 && c != c2
    requires ChainShape(items, isEdge, chainOf, c, members[c], endEdges[c])
    requires e1 < |items| && e2 < |items| && chainOf[e1] == c1 && chainOf[e2] == c2
    ensures ChainShape(Merged(items, e1, e2, v1, v2, |members[c1]| + |members[c2]|), isEdge, Relabel(chainOf, c2, c1),
                       c, (members - {c2})[c1 := M][c], (endEdges - {c2})[c1 := (e1, e2)][c])
  {
    ShapeCongruence(items, isEdge, chainOf, c, members[c], endEdges[c], (members - {c2})[c1 := M][c], (endEdges - {c2})[c1 := (e1, e2)][c]);
    MergeOtherChain(items, isEdge, chainOf, c1, c2, c, (members - {c2})[c1 := M][c], (endEdges - {c2})[c1 := (e1, e2)][c],
                    e1, e2, v1, v2, |members[c1]| + |members[c2]|);
  }

  /** Chain shape is a property of the listed edges and ends, not of how they were computed. */
  lemma ShapeCongruence(items: seq<Item>, isEdge: seq<bool>, chainOf: seq<nat>, c: nat, L: seq<nat>, ab: (nat, nat), L': seq<nat>, ab': (nat, nat))
    requires |isEdge| == |items| && |chainOf| == |items|
    requires ChainShape(items, isEdge, chainOf, c, L, ab) && L == L' && ab == ab'
    ensures ChainShape(items, isEdge, chainOf, c, L', ab')
  {
  }

  /** Every edge is listed in its chain after the merge. */
  lemma MergedLocatedAll(items: seq<Item>, isEdge: seq<bool>, chainOf: seq<nat>, members: map<nat, seq<nat>>, c1: nat, c2: nat, M: seq<nat>)
    requires |isEdge| == |items| && |chainOf| == |items|
    requires AllLocated(items, isEdge, chainOf, members)
    requires c1 in members && c2 in members
    requires SeqSet(M) == SeqSet(members[c1]) + SeqSet(members[c2])
    ensures AllLocated(items, isEdge, Relabel(chainOf, c2, c1), (members - {c2})[c1 := M])
  {
    forall e | 0 <= e < |items| && isEdge[e]
      ensures Located((members - {c2})[c1 := M], Relabel(chainOf, c2, c1), e)
    {
      assert Located(members, chainOf, e);
      MergedLocated(chainOf, members, c1, c2, M, e);
    }
  }

  /** After the merge every edge is still listed in the chain it is labelled with. */
  lemma MergedLocated(chainOf: seq<nat>, members: map<nat, seq<nat>>, c1: nat, c2: nat, M: seq<nat>, e: nat)
    requires e < |chainOf| && Located(members, chainOf, e) && c1 in members && c2 in members
    requires SeqSet(M) == SeqSet(members[c1]) + SeqSet(members[c2])
    ensures Located((members - {c2})[c1 := M], Relabel(chainOf, c2, c1), e)
  {
    var c := chainOf[e];
    if c == c1 || c == c2 {
      var k :| 0 <= k < |members[c]| && members[c][k] == e;
      assert e in SeqSet(members[c]);
      assert e in SeqSet(M);
    }
  }
}
