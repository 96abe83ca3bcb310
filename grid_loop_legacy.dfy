/**
 * The older loop-chain engine of src/common/grid_loop.rs, where it differs
 * from src/grid_loop/mod.rs.  Its `join` splices the same way, but its
 * `decide_chain` adds the size stored at the edge it starts from instead of
 * counting the cycle it paints.  Only the two ends of a chain carry the
 * chain's size, so started from an interior edge the counters drift.
 */
module GridLoopLegacy {
  import opened Common
  import opened Edges = GridLoop
  import opened GridLoopChains
  import opened GridLoopEngine

  /**
   * What one `join` does to the table: nothing, a splice of the two chains,
   * or something beyond the links (it decides a chain, flags the field, or
   * records a closed loop of lines) that this module does not follow.
   */
  datatype JoinStep = Unchanged | Spliced(items: seq<Item>) | Beyond

  /**
   * `join(edge1, edge2)` of src/common/grid_loop.rs on the item table with
   * `decidedLine` line edges: unless the guard of `join` holds nothing
   * happens; otherwise the far ends of the two chains become each other's
   * other end, with the summed size and the two far end vertices.
   */
  function LegacyJoin(items: seq<Item>, edge1: nat, edge2: nat, decidedLine: int): (r: JoinStep)
    requires edge1 < |items| && edge2 < |items|
    ensures r.Spliced? ==> |r.items| == |items| && JoinGuard(items, edge1, edge2)
    ensures !JoinGuard(items, edge1, edge2) ==> r == Unchanged
  {
    if !JoinGuard(items, edge1, edge2) then Unchanged
    else
      var p1, p2 := items[edge1].endPoints, items[edge2].endPoints;
      var origin := Origin(p1, p2);
      var v1, v2 := AnotherEndId(p1, origin), AnotherEndId(p2, origin);
      var e1, e2 := items[edge1].anotherEnd, items[edge2].anotherEnd;
      var s := items[edge1].status;
      if s != items[edge2].status then Beyond
      else if v1 == v2 && s == Undecided && decidedLine != 0 then Beyond
      else if v1 == v2 && s == Line then Beyond
      else Spliced(Merged(items, e1, e2, v1, v2, items[e1].size + items[e2].size))
  }

  /** What `decide_chain` of the older engine adds to the counters: the size stored at its start edge. */
  function StaleChainCount(items: seq<Item>, edge: nat): int
    requires edge < |items|
  {
    items[edge].size
  }

  /**
   * Started from an end of a chain the stored size is the chain's length,
   * so the older count is right there.
   */
  lemma StaleCountAtEnd(items: seq<Item>, isEdge: seq<bool>, chainOf: seq<nat>, c: nat, L: seq<nat>, ab: (nat, nat), edge: nat)
    requires |isEdge| == |items| && |chainOf| == |items|
    requires ChainShape(items, isEdge, chainOf, c, L, ab) && (edge == ab.0 || edge == ab.1)
    ensures edge < |items| && StaleChainCount(items, edge) == |L|
  {
    assert edge in L;
  }

  /** The table the older `new(1, 1)` leaves: the four corner joins of the 3 by 3 lattice. */
  function LegacyCorners(): JoinStep
  {
    var t0 := InitialItems(3, 3);
    match LegacyJoin(t0, 1, 3, 0) {
      case Spliced(t1) =>
        match LegacyJoin(t1, 1, 5, 0) {
          case Spliced(t2) =>
            match LegacyJoin(t2, 3, 7, 0) {
              case Spliced(t3) => if LegacyJoin(t3, 5, 7, 0) == Unchanged then Spliced(t3) else Beyond
              case _ => Beyond
            }
          case _ => Beyond
        }
      case _ => Beyond
    }
  }

  /**
   * After the older `new(1, 1)` the four edges form one cycle `1, 3, 5, 7`,
   * and the inspections of the queued vertices 2, 6 and 8 (`join(5, 1)`,
   * `join(7, 3)`, `join(5, 7)`) change nothing.  But edge 1 still stores
   * size 2, so `decide_edge((0, 1), Line)` paints four edges while the
   * counters grow by two.
   */
  lemma StaleCountExample()
    ensures LegacyCorners().Spliced?
    ensures var t := LegacyCorners().items;
            && |t| == 9 && Cycle(t, [1, 3, 5, 7]) && Distinct([1, 3, 5, 7])
            && LegacyJoin(t, 5, 1, 0) == Unchanged && LegacyJoin(t, 7, 3, 0) == Unchanged
            && StaleChainCount(t, 1) == 2 && StaleChainCount(t, 1) != |[1, 3, 5, 7]|
  {
    var t0 := InitialItems(3, 3);
    assert t0[1] == Item(Undecided, (0, 2), 1, 1, 1);
    assert t0[3] == Item(Undecided, (0, 6), 3, 3, 1);
    assert t0[5] == Item(Undecided, (2, 8), 5, 5, 1);
    assert t0[7] == Item(Undecided, (6, 8), 7, 7, 1);
    var t1 := Merged(t0, 1, 3, 2, 6, 2);
    assert LegacyJoin(t0, 1, 3, 0) == Spliced(t1);
    var t2 := Merged(t1, 3, 5, 6, 8, 3);
    assert LegacyJoin(t1, 1, 5, 0) == Spliced(t2);
    var t3 := Merged(t2, 5, 7, 8, 8, 4);
    assert LegacyJoin(t2, 3, 7, 0) == Spliced(t3);
    assert LegacyJoin(t3, 5, 7, 0) == Unchanged;
    assert LegacyCorners() == Spliced(t3);
    assert t3[1].next == 3 && t3[3].next == 5 && t3[5].next == 7 && t3[7].next == 1;
  }
}
