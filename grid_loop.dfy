/**
 * src/grid_loop/mod.rs: the status of one edge of a loop puzzle's
 * lattice.
 */
module GridLoop {
  import opened Common

  /** `Edge`. */
  datatype Edge = Undecided | Line | Blank

  /** `get_edge_safe`: the edge at `cd`, with positions off the lattice reading `Blank`. */
  function EdgeSafe(edges: Grid<Edge>, cd: Coord): (e: Edge)
    requires edges.Valid()
    ensures !edges.IsValidCoord(cd) ==> e == Blank
    ensures edges.IsValidCoord(cd) ==> e == edges.Get(cd)
  {
    if edges.IsValidCoord(cd) then edges.Get(cd) else Blank
  }
}
