/**
 * The placement generator of src/numberlink/generator.rs, over the
 * `AnswerField` of src/numberlink/generator_field.rs: the symmetry and
 * endpoint constraints `generate` starts from, one step of the beam
 * search (choose an update at a seed, apply it, or deny it when the
 * result is invalid), the invalidity checks run after every step, and
 * the final check that a complete field is a valid answer.
 */
module NumberlinkGenerator {
  import opened Common
  import opened NumberlinkAnswer
  import opened NumberlinkGeneratorField
  import CliNlGenerator
  import Wrappers

  /* ---------- symmetry and the starting constraints ---------- */

  /**
   * The symmetry `generate` runs with: a quarter turn brings the half
   * turn with it, and is kept only on a square board.
   */
  function NormaliseSymmetry(sym: CliNlGenerator.Symmetry, h: int, w: int): (r: CliNlGenerator.Symmetry)
    ensures r.tetrad ==> r.dyad && h == w
    ensures sym.dyad ==> r.dyad
    ensures r.horizontal == sym.horizontal && r.vertical == sym.vertical
  {
    CliNlGenerator.Symmetry(sym.dyad || sym.tetrad, sym.tetrad && h == w, sym.horizontal, sym.vertical)
  }

  /** Normalising twice changes nothing, and a square board keeps the quarter turn asked for. */
  lemma NormaliseIdempotent(sym: CliNlGenerator.Symmetry, h: int, w: int)
    ensures NormaliseSymmetry(NormaliseSymmetry(sym, h, w), h, w) == NormaliseSymmetry(sym, h, w)
    ensures h == w ==> NormaliseSymmetry(sym, h, w).tetrad == sym.tetrad
  {
  }

  /** `c` and `d` share a side. */
  predicate Adjacent(c: Coord, d: Coord) {
    (c.y == d.y && (c.x - d.x == 1 || d.x - c.x == 1)) || (c.x == d.x && (c.y - d.y == 1 || d.y - c.y == 1))
  }

  /** The images of `c` under the horizontal axis, the vertical axis and the half turn of an `h` by `w` board. */
  function MirrorY(h: int, c: Coord): Coord { Coord(h - 1 - c.y, c.x) }
  function MirrorX(w: int, c: Coord): Coord { Coord(c.y, w - 1 - c.x) }
  function HalfTurn(h: int, w: int, c: Coord): Coord { Coord(h - 1 - c.y, w - 1 - c.x) }

  /**
   * The cells `generate` makes `Prohibited` before the search, as
   * intended: the centre cell of an odd board under the half turn; with
   * `forbid_adjacent_clue`, the two rows on either side of the horizontal
   * axis, the two columns on either side of the vertical axis, and the
   * two to four centre cells under the half turn.
   */
  ghost predicate Reserved(sym: CliNlGenerator.Symmetry, h: int, w: int, forbid: bool, c: Coord) {
    || (sym.dyad && h % 2 == 1 && w % 2 == 1 && c == Coord(h / 2, w / 2))
    || (forbid && sym.horizontal && h % 2 == 0 && (c.y == (h - 1) / 2 || c.y == h / 2))
    || (forbid && sym.vertical && w % 2 == 0 && (c.x == (w - 1) / 2 || c.x == w / 2))
    || (forbid && sym.dyad && (c.y == (h - 1) / 2 || c.y == h / 2) && (c.x == (w - 1) / 2 || c.x == w / 2))
  }

  /** The reserved cells map onto reserved cells under each of the three mirrors. */
  lemma ReservedMirrored(sym: CliNlGenerator.Symmetry, h: int, w: int, forbid: bool, c: Coord)
    requires Reserved(sym, h, w, forbid, c)
    ensures Reserved(sym, h, w, forbid, MirrorY(h, c))
    ensures Reserved(sym, h, w, forbid, MirrorX(w, c))
    ensures Reserved(sym, h, w, forbid, HalfTurn(h, w, c))
  {
  }

  /**
   * With `forbid_adjacent_clue`, a cell that touches its own image under
   * a symmetry the board has is reserved: two mirrored endpoints there
   * would be adjacent clues.
   */
  lemma AdjacentImagesReserved(sym: CliNlGenerator.Symmetry, h: int, w: int, c: Coord)
    requires InLattice(h, w, c)
    requires || (sym.horizontal && Adjacent(c, MirrorY(h, c)))
             || (sym.vertical && Adjacent(c, MirrorX(w, c)))
             || (sym.dyad && Adjacent(c, HalfTurn(h, w, c)))
    ensures Reserved(sym, h, w, true, c)
  {
  }

  /**
   * The cells the source's block makes `Prohibited` when it does not
   * panic: the rows `h / 2` and `h / 2 + 1`, and the columns `w / 2` and
   * `w / 2 + 1` under the horizontal axis again.
   */
  ghost predicate ReservedAsWritten(sym: CliNlGenerator.Symmetry, h: int, w: int, forbid: bool, c: Coord) {
    || (sym.dyad && h % 2 == 1 && w % 2 == 1 && c == Coord(h / 2, w / 2))
    || (forbid && sym.horizontal && h % 2 == 0 && (c.y == h / 2 || c.y == h / 2 + 1))
    || (forbid && sym.horizontal && w % 2 == 0 && (c.x == w / 2 || c.x == w / 2 + 1))
    || (forbid && sym.dyad && (c.y == (h - 1) / 2 || c.y == h / 2) && (c.x == (w - 1) / 2 || c.x == w / 2))
  }

  /** The source's block indexes past the grid: the row `h / 2 + 1` of a two-row board, or the column `w / 2 + 1` of a two-column one. */
  predicate PanicsAsWritten(sym: CliNlGenerator.Symmetry, h: int, w: int, forbid: bool) {
    forbid && sym.horizontal && ((h % 2 == 0 && h / 2 + 1 >= h) || (w % 2 == 0 && w / 2 + 1 >= w))
  }

  /**
   * Three boards where the block as written goes wrong: a two-row board
   * panics; on a four-row board the cell `(1, 0)` touches its mirror
   * image but the rows reserved are 2 and 3, and row 3's mirror image,
   * row 0, is not reserved; under the vertical axis alone no column is
   * reserved, though `(0, 1)` touches its image on a four-column board.
   */
  lemma AsWrittenCounterexamples()
    ensures PanicsAsWritten(CliNlGenerator.Symmetry(false, false, true, false), 2, 3, true)
    ensures var sym := CliNlGenerator.Symmetry(false, false, true, false);
      && Adjacent(Coord(1, 0), MirrorY(4, Coord(1, 0))) && !ReservedAsWritten(sym, 4, 3, true, Coord(1, 0))
      && ReservedAsWritten(sym, 4, 3, true, Coord(3, 0)) && !ReservedAsWritten(sym, 4, 3, true, MirrorY(4, Coord(3, 0)))
    ensures var sym := CliNlGenerator.Symmetry(false, false, false, true);
      Adjacent(Coord(0, 1), MirrorX(4, Coord(0, 1))) && !ReservedAsWritten(sym, 3, 4, true, Coord(0, 1))
  {
  }

  /** `g[(y, x)] = v` on the row-major data: the slot `y * width + x` written, or a panic (`None`) past the data. */
  function WriteSlot<T>(g: Grid<T>, y: int, x: int, v: T): (r: Wrappers.Option<Grid<T>>)
    requires g.Valid()
    ensures r.Some? <==> 0 <= g.Index(Coord(y, x)) < |g.data|
    ensures r.Some? ==> r.value.Valid() && r.value.height == g.height && r.value.width == g.width
  {
    var i := g.Index(Coord(y, x));
    if 0 <= i < |g.data| then Wrappers.Some(Grid(g.height, g.width, g.data[i := v])) else Wrappers.None
  }

  /** Writing a cell of the board is `Set`. */
  lemma WriteCell<T>(g: Grid<T>, c: Coord, v: T)
    requires g.Valid() && g.IsValidCoord(c)
    ensures WriteSlot(g, c.y, c.x, v) == Wrappers.Some(g.Set(c, v))
  {
    g.IndexInRange(c);
  }

  /** Cell `c` of `g` made `Prohibited`, every other cell kept. */
  function ProhibitCell(g: Grid<Endpoint>, c: Coord): (r: Grid<Endpoint>)
    requires g.Valid() && g.IsValidCoord(c)
    ensures Shaped(r, g.height, g.width)
    ensures forall d :: InLattice(g.height, g.width, d) ==> r.Get(d) == if d == c then Prohibited else g.Get(d)
  {
    forall d | InLattice(g.height, g.width, d)
      ensures g.Set(c, Prohibited).Get(d) == if d == c then Prohibited else g.Get(d)
    {
      GetSet(g, c, Prohibited, d);
    }
    g.Set(c, Prohibited)
  }

  /** Rows `y1` and `y2` of `g` made `Prohibited`, column by column. */
  method ProhibitRows(g: Grid<Endpoint>, y1: int, y2: int) returns (r: Grid<Endpoint>)
    requires g.Valid() && 0 <= y1 < g.height && 0 <= y2 < g.height
    ensures Shaped(r, g.height, g.width)
    ensures forall c :: InLattice(g.height, g.width, c) ==> r.Get(c) == if c.y == y1 || c.y == y2 then Prohibited else g.Get(c)
  {
    r := g;
    for x := 0 to g.width
      invariant Shaped(r, g.height, g.width)
      invariant forall c :: InLattice(g.height, g.width, c) ==>
        r.Get(c) == if (c.y == y1 || c.y == y2) && c.x < x then Prohibited else g.Get(c)
    {
      r := ProhibitCell(ProhibitCell(r, Coord(y1, x)), Coord(y2, x));
    }
  }

  /** Columns `x1` and `x2` of `g` made `Prohibited`, row by row. */
  method ProhibitColumns(g: Grid<Endpoint>, x1: int, x2: int) returns (r: Grid<Endpoint>)
    requires g.Valid() && 0 <= x1 < g.width && 0 <= x2 < g.width
    ensures Shaped(r, g.height, g.width)
    ensures forall c :: InLattice(g.height, g.width, c) ==> r.Get(c) == if c.x == x1 || c.x == x2 then Prohibited else g.Get(c)
  {
    r := g;
    for y := 0 to g.height
      invariant Shaped(r, g.height, g.width)
      invariant forall c :: InLattice(g.height, g.width, c) ==>
        r.Get(c) == if (c.x == x1 || c.x == x2) && c.y < y then Prohibited else g.Get(c)
    {
      r := ProhibitCell(ProhibitCell(r, Coord(y, x1)), Coord(y, x2));
    }
  }

  /** The block of four cells at rows `y1`, `y2` and columns `x1`, `x2` made `Prohibited`. */
  method ProhibitCentre(g: Grid<Endpoint>, y1: int, y2: int, x1: int, x2: int) returns (r: Grid<Endpoint>)
    requires g.Valid() && 0 <= y1 < g.height && 0 <= y2 < g.height && 0 <= x1 < g.width && 0 <= x2 < g.width
    ensures Shaped(r, g.height, g.width)
    ensures forall c :: InLattice(g.height, g.width, c) ==>
      r.Get(c) == if (c.y == y1 || c.y == y2) && (c.x == x1 || c.x == x2) then Prohibited else g.Get(c)
  {
    var r1 := ProhibitCell(g, Coord(y1, x1));
    var r2 := ProhibitCell(r1, Coord(y1, x2));
    var r3 := ProhibitCell(r2, Coord(y2, x1));
    r := ProhibitCell(r3, Coord(y2, x2));
  }

  /**
   * The endpoint constraints `generate` starts the search from (the
   * corrected block): every reserved cell `Prohibited`, every other cell
   * as given.
   */
  method ReserveCells(ec: Grid<Endpoint>, sym: CliNlGenerator.Symmetry, h: int, w: int, forbid: bool)
    returns (r: Grid<Endpoint>)
    requires h >= 1 && w >= 1 && Shaped(ec, h, w)
    ensures Shaped(r, h, w)
    ensures forall c :: InLattice(h, w, c) ==> r.Get(c) == if Reserved(sym, h, w, forbid, c) then Prohibited else ec.Get(c)
  {
    r := ec;
    if sym.dyad && h % 2 == 1 && w % 2 == 1 {
      r := ProhibitCell(r, Coord(h / 2, w / 2));
    }
    if forbid {
      if sym.horizontal && h % 2 == 0 {
        r := ProhibitRows(r, (h - 1) / 2, h / 2);
      }
      if sym.vertical && w % 2 == 0 {
        r := ProhibitColumns(r, (w - 1) / 2, w / 2);
      }
      if sym.dyad {
        r := ProhibitCentre(r, h / 2, (h - 1) / 2, w / 2, (w - 1) / 2);
      }
    }
  }

  /** Rows `y1` and `y2` written column by column through the row-major slots, as the source does. */
  method ProhibitRowsAsWritten(g: Grid<Endpoint>, y1: int, y2: int) returns (r: Wrappers.Option<Grid<Endpoint>>)
    requires g.Valid() && g.width >= 1 && 0 <= y1 < g.height && 0 <= y2
    ensures r.None? <==> y2 >= g.height
    ensures r.Some? ==> Shaped(r.value, g.height, g.width)
    ensures r.Some? ==> forall c :: InLattice(g.height, g.width, c) ==> r.value.Get(c) == if c.y == y1 || c.y == y2 then Prohibited else g.Get(c)
  {
    if y2 >= g.height {
      WriteCell(g, Coord(y1, 0), Prohibited);
      var g1 := g.Set(Coord(y1, 0), Prohibited);
      MulMonotone(g.height, y2, g.width);
      r := WriteSlot(g1, y2, 0, Prohibited);
    } else {
      var s := ProhibitRows(g, y1, y2);
      r := Wrappers.Some(s);
    }
  }

  /**
   * Columns `w / 2` and `w / 2 + 1` written row by row through the
   * row-major slots: on a two-column board the second column is slot
   * `y * 2 + 2`, the first cell of the next row, and past the data on the
   * last row.
   */
  method ProhibitColumnsAsWritten(g: Grid<Endpoint>) returns (r: Wrappers.Option<Grid<Endpoint>>)
    requires g.Valid() && g.height >= 1 && g.width >= 1 && g.width % 2 == 0
    ensures r.None? <==> g.width == 2
    ensures r.Some? ==> Shaped(r.value, g.height, g.width)
    ensures r.Some? ==> forall c :: InLattice(g.height, g.width, c) ==>
        r.value.Get(c) == if c.x == g.width / 2 || c.x == g.width / 2 + 1 then Prohibited else g.Get(c)
  {
    if g.width == 2 {
      r := Wrappers.Some(g);
      for y := 0 to g.height
        invariant r.Some? <==> y < g.height || y == 0
        invariant r.Some? ==> Shaped(r.value, g.height, g.width)
      {
        WriteCell(r.value, Coord(y, 1), Prohibited);
        var s := r.value.Set(Coord(y, 1), Prohibited);
        if y + 1 < g.height {
          WriteCell(s, Coord(y + 1, 0), Prohibited);
        }
        r := WriteSlot(s, y, 2, Prohibited);
      }
    } else {
      var s := ProhibitColumns(g, g.width / 2, g.width / 2 + 1);
      r := Wrappers.Some(s);
    }
  }

  /**
   * The block of `generate` as written: the same writes as `ReserveCells`
   * with the rows `h / 2`, `h / 2 + 1`, and the columns `w / 2`,
   * `w / 2 + 1` under the horizontal axis; `None` where a write panics.
   */
  method ReserveCellsAsWritten(ec: Grid<Endpoint>, sym: CliNlGenerator.Symmetry, h: int, w: int, forbid: bool)
    returns (r: Wrappers.Option<Grid<Endpoint>>)
    requires h >= 1 && w >= 1 && Shaped(ec, h, w)
    ensures r.None? <==> PanicsAsWritten(sym, h, w, forbid)
    ensures r.Some? ==> Shaped(r.value, h, w)
    ensures r.Some? ==> forall c :: InLattice(h, w, c) ==> r.value.Get(c) == if ReservedAsWritten(sym, h, w, forbid, c) then Prohibited else ec.Get(c)
  {
    var g := ec;
    if sym.dyad && h % 2 == 1 && w % 2 == 1 {
      g := ProhibitCell(g, Coord(h / 2, w / 2));
    }
    r := Wrappers.Some(g);
    if forbid {
      if sym.horizontal && h % 2 == 0 {
        r := ProhibitRowsAsWritten(g, h / 2, h / 2 + 1);
      }
      if r.Some? && sym.horizontal && w % 2 == 0 {
        r := ProhibitColumnsAsWritten(r.value);
      }
      if r.Some? && sym.dyad {
        var s := ProhibitCentre(r.value, h / 2, (h - 1) / 2, w / 2, (w - 1) / 2);
        r := Wrappers.Some(s);
      }
    }
  }

  /* ---------- one step of the search ---------- */

  /**
   * `FieldUpdate`: two lines turning at a vertex, a line ending at it (the
   * first edge a line, the second blank), or one line extended.
   */
  datatype FieldUpdate = Corner(e: Coord, f: Coord) | EndAt(e: Coord, f: Coord) | Extend(e: Coord)

  /** The edges an update names. */
  function UpdateEdges(u: FieldUpdate): seq<Coord> {
    match u
    case Corner(e, f) => [e, f]
    case EndAt(e, f) => [e, f]
    case Extend(e) => [e]
  }

  /** Every edge of `u` is an edge position of the lattice `f`. */
  predicate UpdateOn(f: Grid<Edge>, u: FieldUpdate) {
    forall e :: e in UpdateEdges(u) ==> f.IsValidCoord(e) && IsEdgePos(e)
  }

  /**
   * `choose_update` at the vertex `cd`, with the random draws as
   * parameters: `corner` is the draw below 0.9, `pick` the index drawn.
   * A vertex with no line and two undecided edges turns a corner unless
   * its cell must be an endpoint or the draw says otherwise, and else
   * ends a line along the picked edge; any other vertex extends along the
   * picked undecided edge.
   */
  function ChooseUpdate(f: Grid<Edge>, ec: Grid<Endpoint>, cd: Coord, corner: bool, pick: nat): (u: FieldUpdate)
    requires f.Valid() && ec.Valid() && ec.IsValidCoord(CellOfVertex(cd))
    requires |UndecidedAround(f, cd, 4)| > 0
    requires pick < if Degree(f, cd) == (0, 2) then 2 else |UndecidedAround(f, cd, 4)|
    ensures forall e :: e in UpdateEdges(u) ==> e in UndecidedAround(f, cd, 4)
    ensures u.Corner? <==> Degree(f, cd) == (0, 2) && ec.Get(CellOfVertex(cd)) != Forced && corner
    ensures u.EndAt? ==> Degree(f, cd) == (0, 2)
    ensures u.Extend? <==> Degree(f, cd) != (0, 2)
    ensures !u.Extend? ==> u.e != u.f
  {
    UndecidedAroundSpec(f, cd, 4);
    var nbs := UndecidedAround(f, cd, 4);
    if Degree(f, cd) == (0, 2) then
      if ec.Get(CellOfVertex(cd)) != Forced && corner then Corner(nbs[0], nbs[1])
      else EndAt(nbs[pick], nbs[1 - pick])
    else Extend(nbs[pick])
  }

  /** An update chosen at a vertex of the field's lattice names edge positions of it. */
  lemma ChosenOn(a: AnswerField, cd: Coord, corner: bool, pick: nat)
    requires a.Valid() && a.IsLatticeVertex(cd) && a.IsCell(CellOfVertex(cd)) && |UndecidedAround(a.field, cd, 4)| > 0
    requires pick < if Degree(a.field, cd) == (0, 2) then 2 else |UndecidedAround(a.field, cd, 4)|
    ensures UpdateOn(a.field, ChooseUpdate(a.field, a.endpointConstraint, cd, corner, pick))
  {
    var u := ChooseUpdate(a.field, a.endpointConstraint, cd, corner, pick);
    forall e | e in UpdateEdges(u)
      ensures a.field.IsValidCoord(e) && IsEdgePos(e)
    {
      UndecidedEdge(a.height, a.width, a.field, cd, e);
    }
  }

  /** Edge `e` decided as `ve`, then edge `f` as `vf`. */
  method DecideBoth(a: AnswerField, e: Coord, ve: Edge, f: Coord, vf: Edge)
    requires a.Valid() && a.field.IsValidCoord(e) && IsEdgePos(e) && a.field.IsValidCoord(f) && IsEdgePos(f)
    requires ve != Undecided && vf != Undecided
    modifies a, a.searchQueue
    ensures a.Valid() && Follows(old(a.Snap()), a.Snap())
    ensures HasEdge(a.Snap(), e, ve) && HasEdge(a.Snap(), f, vf)
  {
    a.Decide(e, ve);
    ghost var s1 := a.Snap();
    a.Decide(f, vf);
    HasEdgeStays(s1, a.Snap(), e, ve);
    FollowsTrans(old(a.Snap()), s1, a.Snap());
  }

  /** `apply_update`: the update's edges decided (a line, or the blank second edge of an end). */
  method ApplyUpdate(a: AnswerField, u: FieldUpdate)
    requires a.Valid() && UpdateOn(a.field, u)
    modifies a, a.searchQueue
    ensures a.Valid() && Follows(old(a.Snap()), a.Snap())
    ensures HasEdge(a.Snap(), u.e, Line)
    ensures u.Corner? ==> HasEdge(a.Snap(), u.f, Line)
    ensures u.EndAt? ==> HasEdge(a.Snap(), u.f, Blank)
  {
    assert u.e in UpdateEdges(u);
    match u
    case Corner(e, f) =>
      assert f in UpdateEdges(u);
      DecideBoth(a, e, Line, f, Line);
    case EndAt(e, f) =>
      assert f in UpdateEdges(u);
      DecideBoth(a, e, Line, f, Blank);
    case Extend(e) =>
      a.Decide(e, Line);
  }

  /**
   * `deny_update` after `u` at the vertex `cd` made the field invalid: a
   * corner makes the vertex's cell an endpoint; an end or an extension
   * blanks its first edge.
   */
  method DenyUpdate(a: AnswerField, cd: Coord, u: FieldUpdate)
    requires a.Valid() && a.IsLatticeVertex(cd) && UpdateOn(a.field, u)
    modifies a, a.searchQueue
    ensures a.Valid() && Follows(old(a.Snap()), a.Snap())
    ensures u.Corner? ==> HasConstraint(a.Snap(), CellOfVertex(cd), Forced)
    ensures !u.Corner? ==> HasEdge(a.Snap(), u.e, Blank)
  {
    if u.Corner? {
      VertexCell(a.height, a.width, cd);
      a.UpdateEndpointConstraint(CellOfVertex(cd), Forced);
    } else {
      assert u.e in UpdateEdges(u);
      a.Decide(u.e, Blank);
    }
  }

  /* ---------- the clue limit ---------- */

  /** `if constraint[c] == Any { update_endpoint_constraint(c, Prohibited) }`. */
  method SettleCell(a: AnswerField, c: Coord)
    requires a.Valid() && a.IsCell(c)
    modifies a, a.searchQueue
    ensures a.Valid() && Follows(old(a.Snap()), a.Snap()) && NotAny(a.Snap(), c)
  {
    if a.endpointConstraint.Get(c) == Any {
      a.UpdateEndpointConstraint(c, Prohibited);
    } else {
      FollowsRefl(a.Snap());
    }
  }

  /** One more cell `(cy, x / 2)` settled: the cells `(cy, cx)` with `2 cx <= x` are settled. */
  lemma HalfCellStep(s0: Snapshot, s1: Snapshot, cy: int, x: int)
    requires Follows(s0, s1) && NotAny(s1, Coord(cy, x / 2))
    requires forall c: Coord :: c.y == cy && 0 <= c.x && 2 * c.x < x ==> NotAny(s0, c)
    ensures forall c: Coord :: c.y == cy && 0 <= c.x && 2 * c.x < x + 1 ==> NotAny(s1, c)
  {
    forall c: Coord | c.y == cy && 0 <= c.x && 2 * c.x < x + 1
      ensures NotAny(s1, c)
    {
      if 2 * c.x < x {
        NotAnyStays(s0, s1, c);
      }
    }
  }

  /** One more row `y / 2` of the quadrant settled. */
  lemma HalfRowStep(s0: Snapshot, s1: Snapshot, y: int, w: int)
    requires Follows(s0, s1)
    requires forall c: Coord :: c.y == y / 2 && 0 <= c.x && 2 * c.x < w ==> NotAny(s1, c)
    requires forall c: Coord :: 0 <= c.y && 2 * c.y < y && 0 <= c.x && 2 * c.x < w ==> NotAny(s0, c)
    ensures forall c: Coord :: 0 <= c.y && 2 * c.y < y + 1 && 0 <= c.x && 2 * c.x < w ==> NotAny(s1, c)
  {
    forall c: Coord | 0 <= c.y && 2 * c.y < y + 1 && 0 <= c.x && 2 * c.x < w
      ensures NotAny(s1, c)
    {
      if 2 * c.y < y {
        NotAnyStays(s0, s1, c);
      }
    }
  }

  /** One more cell `(y, x)` of a row settled. */
  lemma CellStep(s0: Snapshot, s1: Snapshot, y: int, x: int)
    requires Follows(s0, s1) && NotAny(s1, Coord(y, x))
    requires forall c: Coord :: c.y == y && 0 <= c.x < x ==> NotAny(s0, c)
    ensures forall c: Coord :: c.y == y && 0 <= c.x < x + 1 ==> NotAny(s1, c)
  {
    forall c: Coord | c.y == y && 0 <= c.x < x + 1
      ensures NotAny(s1, c)
    {
      if c.x < x {
        NotAnyStays(s0, s1, c);
      }
    }
  }

  /** One more row `y` of the board settled. */
  lemma RowStep(s0: Snapshot, s1: Snapshot, y: int, w: int)
    requires Follows(s0, s1)
    requires forall c: Coord :: c.y == y && 0 <= c.x < w ==> NotAny(s1, c)
    requires forall c: Coord :: 0 <= c.y < y && 0 <= c.x < w ==> NotAny(s0, c)
    ensures forall c: Coord :: 0 <= c.y < y + 1 && 0 <= c.x < w ==> NotAny(s1, c)
  {
    forall c: Coord | 0 <= c.y < y + 1 && 0 <= c.x < w
      ensures NotAny(s1, c)
    {
      if c.y < y {
        NotAnyStays(s0, s1, c);
      }
    }
  }

  /** Row `y` of the scan of `limit_clue_number` as written: the cells `(y / 2, x / 2)`. */
  method SettleRowAsWritten(a: AnswerField, y: int)
    requires a.Valid() && 0 <= y < a.height
    modifies a, a.searchQueue
    ensures a.Valid() && Follows(old(a.Snap()), a.Snap())
    ensures forall c: Coord :: c.y == y / 2 && 0 <= c.x && 2 * c.x < a.width ==> NotAny(a.Snap(), c)
  {
    FollowsRefl(a.Snap());
    for x := 0 to a.width
      invariant a.Valid() && Follows(old(a.Snap()), a.Snap())
      invariant forall c: Coord :: c.y == y / 2 && 0 <= c.x && 2 * c.x < x ==> NotAny(a.Snap(), c)
    {
      ghost var s0 := a.Snap();
      SettleCell(a, Coord(y / 2, x / 2));
      HalfCellStep(s0, a.Snap(), y / 2, x);
      FollowsTrans(old(a.Snap()), s0, a.Snap());
    }
  }

  /**
   * The cells the scan of `limit_clue_number` reaches, as written: the
   * quarter of the board with `2 y < h` and `2 x < w`.
   */
  method SettleQuadrant(a: AnswerField)
    requires a.Valid()
    modifies a, a.searchQueue
    ensures a.Valid() && Follows(old(a.Snap()), a.Snap())
    ensures forall c: Coord :: 0 <= c.y && 2 * c.y < a.height && 0 <= c.x && 2 * c.x < a.width ==> NotAny(a.Snap(), c)
  {
    FollowsRefl(a.Snap());
    for y := 0 to a.height
      invariant a.Valid() && Follows(old(a.Snap()), a.Snap())
      invariant forall c: Coord :: 0 <= c.y && 2 * c.y < y && 0 <= c.x && 2 * c.x < a.width ==> NotAny(a.Snap(), c)
    {
      ghost var s0 := a.Snap();
      SettleRowAsWritten(a, y);
      HalfRowStep(s0, a.Snap(), y, a.width);
      FollowsTrans(old(a.Snap()), s0, a.Snap());
    }
  }

  /** Row `y` of the corrected scan: every cell of the row. */
  method SettleRow(a: AnswerField, y: int)
    requires a.Valid() && 0 <= y < a.height
    modifies a, a.searchQueue
    ensures a.Valid() && Follows(old(a.Snap()), a.Snap())
    ensures forall c: Coord :: c.y == y && 0 <= c.x < a.width ==> NotAny(a.Snap(), c)
  {
    FollowsRefl(a.Snap());
    for x := 0 to a.width
      invariant a.Valid() && Follows(old(a.Snap()), a.Snap())
      invariant forall c: Coord :: c.y == y && 0 <= c.x < x ==> NotAny(a.Snap(), c)
    {
      ghost var s0 := a.Snap();
      SettleCell(a, Coord(y, x));
      CellStep(s0, a.Snap(), y, x);
      FollowsTrans(old(a.Snap()), s0, a.Snap());
    }
  }

  /** The corrected scan: every cell of the board, row by row. */
  method SettleBoard(a: AnswerField)
    requires a.Valid()
    modifies a, a.searchQueue
    ensures a.Valid() && Follows(old(a.Snap()), a.Snap())
    ensures forall c :: a.IsCell(c) ==> NotAny(a.Snap(), c)
  {
    FollowsRefl(a.Snap());
    for y := 0 to a.height
      invariant a.Valid() && Follows(old(a.Snap()), a.Snap())
      invariant forall c: Coord :: 0 <= c.y < y && 0 <= c.x < a.width ==> NotAny(a.Snap(), c)
    {
      ghost var s0 := a.Snap();
      SettleRow(a, y);
      RowStep(s0, a.Snap(), y, a.width);
      FollowsTrans(old(a.Snap()), s0, a.Snap());
    }
  }

  /**
   * `limit_clue_number` as written: with `limit` clues, more than
   * `2 * limit` cells that must be endpoints flag the field; exactly
   * `2 * limit` forbid further endpoints, but only in the cells
   * `(y / 2, x / 2)` the scan reaches.
   */
  method LimitClueNumberAsWritten(a: AnswerField, limit: int)
    requires a.Valid()
    modifies a, a.searchQueue
    ensures a.Valid() && Follows(old(a.Snap()), a.Snap())
    ensures a.endpointForcedCells > 2 * limit ==> a.invalid
    ensures old(a.endpointForcedCells) < 2 * limit ==> a.Snap() == old(a.Snap())
    ensures old(a.endpointForcedCells) == 2 * limit ==>
      forall c: Coord :: 0 <= c.y && 2 * c.y < a.height && 0 <= c.x && 2 * c.x < a.width ==> NotAny(a.Snap(), c)
  {
    if a.endpointForcedCells > 2 * limit {
      a.Flag();
    } else {
      if a.endpointForcedCells == 2 * limit {
        SettleQuadrant(a);
      } else {
        FollowsRefl(a.Snap());
      }
      if a.endpointForcedCells > 2 * limit {
        ghost var s1 := a.Snap();
        a.Flag();
        FollowsTrans(old(a.Snap()), s1, a.Snap());
      }
    }
  }

  /** The scan as written never reaches the bottom-right cell of a board of two or more rows and columns. */
  lemma QuadrantMissesCorner(h: int, w: int)
    requires h >= 2 && w >= 2
    ensures forall y, x :: 0 <= y < h && 0 <= x < w ==> Coord(y / 2, x / 2) != Coord(h - 1, w - 1)
  {
  }

  /**
   * `limit_clue_number`, corrected to scan every cell: once exactly
   * `2 * limit` cells must be endpoints, no other cell may be one.
   */
  method LimitClueNumber(a: AnswerField, limit: int)
    requires a.Valid()
    modifies a, a.searchQueue
    ensures a.Valid() && Follows(old(a.Snap()), a.Snap())
    ensures a.endpointForcedCells > 2 * limit ==> a.invalid
    ensures old(a.endpointForcedCells) < 2 * limit ==> a.Snap() == old(a.Snap())
    ensures old(a.endpointForcedCells) == 2 * limit ==> forall c :: a.IsCell(c) ==> NotAny(a.Snap(), c)
  {
    if a.endpointForcedCells > 2 * limit {
      a.Flag();
    } else {
      if a.endpointForcedCells == 2 * limit {
        SettleBoard(a);
      } else {
        FollowsRefl(a.Snap());
      }
      if a.endpointForcedCells > 2 * limit {
        ghost var s1 := a.Snap();
        a.Flag();
        FollowsTrans(old(a.Snap()), s1, a.Snap());
      }
    }
  }

  /* ---------- the symmetry check ---------- */

  /**
   * What the edge position `(y, x)` adds to the tally of `check_symmetry`,
   * as (equal, different): nothing for a vertex or cell position or when
   * it and its image under the half turn are both undecided; else one
   * match or one mismatch.
   */
  function PairTally(f: Grid<Edge>, y: int, x: int): (t: (nat, nat))
    requires f.Valid() && f.IsValidCoord(Coord(y, x))
    ensures t.0 + t.1 <= 1
  {
    if y % 2 == x % 2 then (0, 0)
    else
      var e1 := f.Get(Coord(y, x));
      var e2 := f.Get(Coord(f.height - 1 - y, f.width - 1 - x));
      if e1 == Undecided && e2 == Undecided then (0, 0)
      else if e1 == e2 then (1, 0)
      else (0, 1)
  }

  /** The tally of the first `x` positions of row `y`. */
  function RowTally(f: Grid<Edge>, y: int, x: int): (t: (nat, nat))
    requires f.Valid() && 0 <= y < f.height && 0 <= x <= f.width
    ensures t.0 + t.1 <= x
  {
    if x == 0 then (0, 0)
    else
      var (e, d) := RowTally(f, y, x - 1);
      var (e', d') := PairTally(f, y, x - 1);
      (e + e', d + d')
  }

  /** The tally of the first `y` rows. */
  function Tally(f: Grid<Edge>, y: int): (t: (nat, nat))
    requires f.Valid() && 0 <= y <= f.height
  {
    if y == 0 then (0, 0)
    else
      var (e, d) := Tally(f, y - 1);
      var (e', d') := RowTally(f, y - 1, f.width);
      (e + e', d + d')
  }

  /**
   * The verdict of `check_symmetry`: at least 85 percent of the counted
   * positions match their image, with four to spare. The source compares
   * `f64` values, `n_equal >= (n_equal + n_diff) * 0.85 + 4.0`; this is
   * the same test in integers.
   */
  ghost predicate TooSymmetric(f: Grid<Edge>)
    requires f.Valid()
  {
    var (eq, diff) := Tally(f, f.height);
    100 * eq >= 85 * (eq + diff) + 400
  }

  /** `f` is its own image under the half turn. */
  ghost predicate HalfTurnSymmetric(f: Grid<Edge>)
    requires f.Valid()
  {
    forall c :: f.IsValidCoord(c) ==> f.Get(Coord(f.height - 1 - c.y, f.width - 1 - c.x)) == f.Get(c)
  }

  lemma {:induction false} SymmetricRow(f: Grid<Edge>, y: int, x: int)
    requires f.Valid() && 0 <= y < f.height && 0 <= x <= f.width && HalfTurnSymmetric(f)
    ensures RowTally(f, y, x).1 == 0
  {
    if x > 0 {
      SymmetricRow(f, y, x - 1);
      assert f.IsValidCoord(Coord(y, x - 1));
    }
  }

  lemma {:induction false} SymmetricRows(f: Grid<Edge>, y: int)
    requires f.Valid() && 0 <= y <= f.height && HalfTurnSymmetric(f)
    ensures Tally(f, y).1 == 0
  {
    if y > 0 {
      SymmetricRows(f, y - 1);
      SymmetricRow(f, y - 1, f.width);
    }
  }

  /**
   * A field that is its own image under the half turn has no mismatch,
   * so the check rejects it exactly when it has 27 or more decided edge
   * positions counted.
   */
  lemma SymmetricRejected(f: Grid<Edge>)
    requires f.Valid() && HalfTurnSymmetric(f)
    ensures Tally(f, f.height).1 == 0
    ensures TooSymmetric(f) <==> Tally(f, f.height).0 >= 27
  {
    SymmetricRows(f, f.height);
  }

  /** One row of `check_symmetry`'s scan. */
  method TallyRow(f: Grid<Edge>, y: int) returns (eq: nat, diff: nat)
    requires f.Valid() && 0 <= y < f.height
    ensures (eq, diff) == RowTally(f, y, f.width)
  {
    eq, diff := 0, 0;
    for x := 0 to f.width
      invariant (eq, diff) == RowTally(f, y, x)
    {
      if y % 2 != x % 2 {
        var e1 := f.Get(Coord(y, x));
        var e2 := f.Get(Coord(f.height - 1 - y, f.width - 1 - x));
        if e1 == Undecided && e2 == Undecided {
          continue;
        }
        if e1 == e2 {
          eq := eq + 1;
        } else {
          diff := diff + 1;
        }
      }
    }
  }

  /**
   * `check_symmetry`: the field is too symmetric under the half turn (see
   * `TooSymmetric`).
   */
  method CheckSymmetry(a: AnswerField) returns (b: bool)
    requires a.Valid()
    ensures b <==> TooSymmetric(a.field)
  {
    var eq, diff := 0, 0;
    for y := 0 to a.field.height
      invariant (eq, diff) == Tally(a.field, y)
    {
      var e, d := TallyRow(a.field, y);
      eq, diff := eq + e, diff + d;
    }
    b := 100 * eq >= 85 * (eq + diff) + 400;
  }

  /* ---------- the entanglement check ---------- */

  /**
   * The pattern `is_entangled` looks for at the vertex of cell `(y, x)`
   * in the direction `(dy, dx)`: a line leaves the vertex that way, the
   * four edges that run alongside it, two on each side, are lines, and
   * on each side a line turns off beyond them.
   */
  predicate Tangle(f: Grid<Edge>, y: int, x: int, dy: int, dx: int)
    requires f.Valid()
  {
    var (yy, xx) := (2 * y, 2 * x);
    && EdgeAt(f, Coord(yy + dy, xx + dx)) == Line
    && EdgeAt(f, Coord(yy + 2 * dx - dy, xx + 2 * dy - dx)) == Line
    && EdgeAt(f, Coord(yy - 2 * dx - dy, xx - 2 * dy - dx)) == Line
    && EdgeAt(f, Coord(yy + dx - 2 * dy, xx + dy - 2 * dx)) == Line
    && EdgeAt(f, Coord(yy - dx - 2 * dy, xx - dy - 2 * dx)) == Line
    && (EdgeAt(f, Coord(yy + 2 * dx + dy, xx + 2 * dy + dx)) == Line || EdgeAt(f, Coord(yy + dx + 2 * dy, xx + dy + 2 * dx)) == Line)
    && (EdgeAt(f, Coord(yy - 2 * dx + dy, xx - 2 * dy + dx)) == Line || EdgeAt(f, Coord(yy - dx + 2 * dy, xx - dy + 2 * dx)) == Line)
  }

  /** The pair of two chain roots, smaller first. */
  function Ordered(u: nat, v: nat): (p: (nat, nat))
    ensures p.0 <= p.1 && {p.0, p.1} == {u, v}
  {
    if u < v then (u, v) else (v, u)
  }

  /** An inner cell: `is_entangled` scans rows and columns `1 .. n - 2`. */
  predicate Inner(a: AnswerField, y: int, x: int) {
    1 <= y < a.height - 1 && 1 <= x < a.width - 1
  }

  /**
   * The pair direction `k` of the inner cell `(y, x)` adds: when the
   * pattern is there, the roots of the cell's chain and of the chain of
   * the cell behind it.
   */
  function DirPair(a: AnswerField, y: int, x: int, k: int): (ps: seq<(nat, nat)>)
    reads a, a.searchQueue
    requires a.Valid() && Inner(a, y, x) && 0 <= k < 4
    ensures forall i :: 0 <= i < |ps| ==> ps[i].0 <= ps[i].1
  {
    var dir := Dirs[k];
    if Tangle(a.field, y, x, dir.y, dir.x)
    then [Ordered(a.RootFromCoord(Coord(y, x)), a.RootFromCoord(Coord(y - dir.y, x - dir.x)))]
    else []
  }

  /** The entangled pairs of an inner cell that must be an endpoint, from its first `d` directions. */
  ghost function CellPairs(a: AnswerField, y: int, x: int, d: nat): (ps: seq<(nat, nat)>)
    reads a, a.searchQueue
    requires a.Valid() && Inner(a, y, x) && d <= 4
    ensures forall i :: 0 <= i < |ps| ==> ps[i].0 <= ps[i].1
  {
    if d == 0 || a.endpointConstraint.Get(Coord(y, x)) != Forced then []
    else CellPairs(a, y, x, d - 1) + DirPair(a, y, x, d - 1)
  }

  /** The entangled pairs of the inner cells `(y, 1 .. x - 1)`. */
  ghost function RowPairs(a: AnswerField, y: int, x: int): (ps: seq<(nat, nat)>)
    reads a, a.searchQueue
    requires a.Valid() && 1 <= y < a.height - 1 && 1 <= x < a.width
    ensures forall i :: 0 <= i < |ps| ==> ps[i].0 <= ps[i].1
  {
    if x == 1 then [] else RowPairs(a, y, x - 1) + CellPairs(a, y, x - 1, 4)
  }

  /** The entangled pairs of the inner rows `1 .. y - 1`, in the order `is_entangled` lists them. */
  ghost function Pairs(a: AnswerField, y: int): (ps: seq<(nat, nat)>)
    reads a, a.searchQueue
    requires a.Valid() && 1 <= y < a.height
    ensures forall i :: 0 <= i < |ps| ==> ps[i].0 <= ps[i].1
  {
    if y == 1 then [] else Pairs(a, y - 1) + RowPairs(a, y - 1, a.width - 1)
  }

  /** The pairs of one cell, direction by direction. */
  method CellEntangled(a: AnswerField, y: int, x: int) returns (ps: seq<(nat, nat)>)
    requires a.Valid() && Inner(a, y, x)
    ensures ps == CellPairs(a, y, x, 4)
  {
    ps := [];
    if a.endpointConstraint.Get(Coord(y, x)) == Forced {
      for d := 0 to 4
        invariant ps == CellPairs(a, y, x, d)
      {
        ps := ps + DirPair(a, y, x, d);
      }
    }
  }

  /** One cell more of the row scan: the pairs of `(y, x)` follow those of the cells before it. */
  method RowEntangledStep(a: AnswerField, y: int, x: int, ps: seq<(nat, nat)>) returns (ps': seq<(nat, nat)>)
    requires a.Valid() && Inner(a, y, x) && ps == RowPairs(a, y, x)
    ensures ps' == RowPairs(a, y, x + 1)
  {
    var cp := CellEntangled(a, y, x);
    ps' := ps + cp;
  }

  /** The pairs of the inner cells of row `y`, left to right. */
  method RowEntangled(a: AnswerField, y: int) returns (ps: seq<(nat, nat)>)
    requires a.Valid() && 1 <= y < a.height - 1
    ensures ps == RowPairs(a, y, a.width - 1)
  {
    ps := [];
    var x := 1;
    while x < a.width - 1
      invariant x <= a.width - 1 && ps == RowPairs(a, y, x)
    {
      ps := RowEntangledStep(a, y, x, ps);
      x := x + 1;
    }
    assert x == a.width - 1;
  }

  /** One row more of the scan: the pairs of row `y` follow those of the rows above it. */
  method PairsStep(a: AnswerField, y: int, ps: seq<(nat, nat)>) returns (ps': seq<(nat, nat)>)
    requires a.Valid() && 1 <= y < a.height - 1 && ps == Pairs(a, y)
    ensures ps' == Pairs(a, y + 1)
  {
    var row := RowEntangled(a, y);
    ps' := ps + row;
  }

  /** Whether some pair occurs twice: the scan of the sorted list for equal neighbours. */
  method HasRepeat(ps: seq<(nat, nat)>) returns (r: bool)
    ensures r <==> !Distinct(ps)
  {
    r := false;
    for j := 0 to |ps|
      invariant !r <==> forall i, k :: 0 <= i < k < j ==> ps[i] != ps[k]
    {
      for i := 0 to j
        invariant !r <==> (forall i', k :: 0 <= i' < k < j ==> ps[i'] != ps[k]) && forall i' :: 0 <= i' < i ==> ps[i'] != ps[j]
      {
        if ps[i] == ps[j] {
          r := true;
        }
      }
    }
  }

  /**
   * `is_entangled`: two chains that must end at adjacent cells and are
   * tangled with each other at two places.
   */
  method IsEntangled(a: AnswerField) returns (r: bool)
    requires a.Valid()
    ensures r <==> !Distinct(Pairs(a, a.height - 1))
  {
    var ps: seq<(nat, nat)> := [];
    var y := 1;
    while y < a.height - 1
      invariant y <= a.height - 1 && ps == Pairs(a, y)
    {
      ps := PairsStep(a, y, ps);
      y := y + 1;
    }
    assert y == a.height - 1;
    r := HasRepeat(ps);
  }

  /* ---------- the checks after a step ---------- */

  /** The last two tests of `check_invalidity`: entangled chains, then too much symmetry when `dyad` asks for it. */
  method FlagIfTangled(a: AnswerField, dyad: bool)
    requires a.Valid()
    modifies a`invalid
    ensures a.Valid() && Follows(old(a.Snap()), a.Snap())
    ensures !a.invalid ==> Distinct(Pairs(a, a.height - 1)) && (dyad ==> !TooSymmetric(a.field))
  {
    var entangled := IsEntangled(a);
    if entangled {
      a.Flag();
    } else {
      FlagIfSymmetric(a, dyad);
    }
  }

  /** The symmetry test of `check_invalidity`, made only when `dyad` asks for it; an unflagged field is left as it was. */
  method FlagIfSymmetric(a: AnswerField, dyad: bool)
    requires a.Valid()
    modifies a`invalid
    ensures a.Valid() && Follows(old(a.Snap()), a.Snap())
    ensures !a.invalid ==> unchanged(a) && (dyad ==> !TooSymmetric(a.field))
  {
    if dyad {
      var symmetric := CheckSymmetry(a);
      if symmetric {
        a.Flag();
        return;
      }
    }
    FollowsRefl(a.Snap());
  }

  /**
   * `check_invalidity`: a flagged field stays as it is; otherwise the
   * clue limit is applied, and the field is flagged when two chains are
   * entangled, or when it must have the half-turn symmetry and is too
   * symmetric. A field left unflagged passes every test.
   */
  method CheckInvalidity(a: AnswerField, opt: GeneratorOption)
    requires a.Valid()
    modifies a, a.searchQueue
    ensures a.Valid() && Follows(old(a.Snap()), a.Snap())
    ensures old(a.invalid) ==> a.Snap() == old(a.Snap())
    ensures !a.invalid ==> Distinct(Pairs(a, a.height - 1))
    ensures !a.invalid && opt.symmetry.dyad ==> !TooSymmetric(a.field)
    ensures !a.invalid && opt.clueLimit.Some? ==> a.endpointForcedCells <= 2 * opt.clueLimit.value
  {
    if a.invalid {
      FollowsRefl(a.Snap());
    } else if opt.clueLimit.Some? {
      LimitClueNumber(a, opt.clueLimit.value);
      if !a.invalid {
        ghost var s1 := a.Snap();
        FlagIfTangled(a, opt.symmetry.dyad);
        FollowsTrans(old(a.Snap()), s1, a.Snap());
      }
    } else {
      FlagIfTangled(a, opt.symmetry.dyad);
    }
  }

  /* ---------- the answer check ---------- */

  /** The lattice position of the edge between cell `c` and its neighbour in direction `k`. */
  function Between(c: Coord, k: int): Coord
    requires 0 <= k < 4
  {
    Coord(2 * c.y + Dirs[k].y, 2 * c.x + Dirs[k].x)
  }

  /** The direction back: the neighbour in direction `k` sees `c` in direction `Back(k)`, over the same edge. */
  function Back(k: int): (j: int)
    requires 0 <= k < 4
    ensures 0 <= j < 4
  {
    (k + 2) % 4
  }

  lemma BackBetween(c: Coord, k: int)
    requires 0 <= k < 4
    ensures CoordAdd(CoordAdd(c, Dirs[k]), Dirs[Back(k)]) == c
    ensures Between(CoordAdd(c, Dirs[k]), Back(k)) == Between(c, k)
  {
  }

  /** A line from a cell of the board leads to a cell of the board. */
  lemma LineNeighbour(f: Grid<Edge>, h: int, w: int, c: Coord, k: int)
    requires Shaped(f, 2 * h - 1, 2 * w - 1) && InLattice(h, w, c) && 0 <= k < 4
    requires EdgeAt(f, Between(c, k)) == Line
    ensures InLattice(h, w, CoordAdd(c, Dirs[k]))
  {
  }

  /** Neighbouring cells `a` and `b` are joined by a line; the edge between them sits at `a + b`. */
  ghost predicate Joined(f: Grid<Edge>, a: Coord, b: Coord)
    requires f.Valid()
  {
    Adjacent(a, b) && EdgeAt(f, Coord(a.y + b.y, a.x + b.x)) == Line
  }

  /** `p` is a walk along lines over cells of the `h` by `w` board. */
  ghost predicate LinePath(f: Grid<Edge>, h: int, w: int, p: seq<Coord>)
    requires f.Valid()
  {
    && |p| >= 1
    && (forall i :: 0 <= i < |p| ==> InLattice(h, w, p[i]))
    && (forall i {:trigger p[i], p[i + 1]} :: 0 <= i < |p| - 1 ==> Joined(f, p[i], p[i + 1]))
  }

  /** A walk along lines leads from `a` to `b`: the two cells lie on the same line. */
  ghost predicate Connected(f: Grid<Edge>, h: int, w: int, a: Coord, b: Coord)
    requires f.Valid()
  {
    exists p :: LinePath(f, h, w, p) && p[0] == a && p[|p| - 1] == b
  }

  /** `p` is a walk along lines from `a` to `b` over cells that `ids` leaves unlabelled. */
  ghost predicate FreeWalk(f: Grid<Edge>, ids: Grid<int>, p: seq<Coord>, a: Coord, b: Coord)
    requires f.Valid() && ids.Valid()
  {
    && LinePath(f, ids.height, ids.width, p) && p[0] == a && p[|p| - 1] == b
    && forall i :: 0 <= i < |p| ==> ids.Get(p[i]) == -1
  }

  /** `b` can be reached from `a` along lines without passing a labelled cell. */
  ghost predicate Reachable(f: Grid<Edge>, ids: Grid<int>, a: Coord, b: Coord)
    requires f.Valid() && ids.Valid()
  {
    exists p :: FreeWalk(f, ids, p, a, b)
  }

  /** The line in direction `k` of `a` joins `a` to that neighbour. */
  lemma JoinedDir(f: Grid<Edge>, a: Coord, k: int)
    requires f.Valid() && 0 <= k < 4
    ensures Joined(f, a, CoordAdd(a, Dirs[k])) <==> EdgeAt(f, Between(a, k)) == Line
  {
  }

  /** A cell joined to the start of a walk, put in front of it. */
  lemma PathCons(f: Grid<Edge>, h: int, w: int, c: Coord, p: seq<Coord>)
    requires f.Valid() && LinePath(f, h, w, p) && InLattice(h, w, c) && Joined(f, c, p[0])
    ensures LinePath(f, h, w, [c] + p)
  {
    var q := [c] + p;
    forall i | 0 <= i < |q| - 1
      ensures Joined(f, q[i], q[i + 1])
    {
      if i == 0 {
        assert q[0] == c && q[1] == p[0];
      } else {
        var j := i - 1;
        assert q[i] == p[j] && q[i + 1] == p[j + 1];
      }
    }
    forall i | 0 <= i < |q|
      ensures InLattice(h, w, q[i])
    {
      if i > 0 {
        assert q[i] == p[i - 1];
      }
    }
    assert LinePath(f, h, w, q);
  }

  /** A walk of two cells or more without its last cell, which the cell before it is joined to. */
  lemma PathInit(f: Grid<Edge>, h: int, w: int, p: seq<Coord>)
    requires f.Valid() && LinePath(f, h, w, p) && |p| > 1
    ensures LinePath(f, h, w, p[..|p| - 1]) && Joined(f, p[|p| - 2], p[|p| - 1])
  {
    var q := p[..|p| - 1];
    forall i | 0 <= i < |q| - 1
      ensures Joined(f, q[i], q[i + 1])
    {
      assert q[i] == p[i] && q[i + 1] == p[i + 1];
    }
    var j := |p| - 2;
    assert Joined(f, p[j], p[j + 1]);
  }

  /** Walks reversed: connection is symmetric. */
  lemma ConnectedSym(f: Grid<Edge>, h: int, w: int, a: Coord, b: Coord)
    requires f.Valid() && Connected(f, h, w, a, b)
    ensures Connected(f, h, w, b, a)
  {
    var p :| LinePath(f, h, w, p) && p[0] == a && p[|p| - 1] == b;
    var q := Reverse(p);
    forall i | 0 <= i < |q| - 1
      ensures Joined(f, q[i], q[i + 1])
    {
      var j := |p| - 2 - i;
      assert q[i] == p[j + 1] && q[i + 1] == p[j];
      assert Joined(f, p[j], p[j + 1]);
    }
    assert LinePath(f, h, w, q);
  }

  /** The cells of `p` backwards. */
  function Reverse(p: seq<Coord>): (q: seq<Coord>)
    ensures |q| == |p| && forall i :: 0 <= i < |p| ==> q[i] == p[|p| - 1 - i]
  {
    if p == [] then [] else Reverse(p[1..]) + [p[0]]
  }

  /** Walks joined end to end: connection is transitive. */
  lemma ConnectedTrans(f: Grid<Edge>, h: int, w: int, a: Coord, b: Coord, c: Coord)
    requires f.Valid() && Connected(f, h, w, a, b) && Connected(f, h, w, b, c)
    ensures Connected(f, h, w, a, c)
  {
    var p :| LinePath(f, h, w, p) && p[0] == a && p[|p| - 1] == b;
    var q :| LinePath(f, h, w, q) && q[0] == b && q[|q| - 1] == c;
    var r := p + q[1..];
    forall i | 0 <= i < |r| - 1
      ensures Joined(f, r[i], r[i + 1])
    {
      if i < |p| - 1 {
        assert r[i] == p[i] && r[i + 1] == p[i + 1];
      } else {
        var j := i - |p| + 1;
        assert r[i] == q[j] && r[i + 1] == q[j + 1];
      }
    }
    assert LinePath(f, h, w, r);
  }

  /** A free walk from a neighbour, with `cd` put in front, is a free walk from `cd` under fewer labels. */
  lemma FreeWalkPrepend(f: Grid<Edge>, ids: Grid<int>, r0: Grid<int>, id: int, cd: Coord, k: int, c: Coord)
    requires OnBoard(f, ids) && LabelsOnly(ids, r0, id) && 0 <= k < 4
    requires InLattice(ids.height, ids.width, cd) && ids.Get(cd) == -1 && EdgeAt(f, Between(cd, k)) == Line
    requires Reachable(f, r0, CoordAdd(cd, Dirs[k]), c)
    ensures Reachable(f, ids, cd, c)
  {
    var p :| FreeWalk(f, r0, p, CoordAdd(cd, Dirs[k]), c);
    var q := [cd] + p;
    JoinedDir(f, cd, k);
    PathCons(f, ids.height, ids.width, cd, p);
    forall i | 0 <= i < |q|
      ensures ids.Get(q[i]) == -1
    {
      if i > 0 {
        assert q[i] == p[i - 1];
        LabelsOnlyUnlabelled(ids, r0, id);
      }
    }
    assert FreeWalk(f, ids, q, cd, c);
  }

  /**
   * Every cell labelled in `r` but not in `ids` has its lines followed, so a
   * free walk from a cell labelled in `r` ends on a cell labelled in `r`.
   */
  lemma {:induction false} WalkLabelled(f: Grid<Edge>, ids: Grid<int>, r: Grid<int>, p: seq<Coord>, a: Coord, b: Coord)
    requires OnBoard(f, ids) && Shaped(r, ids.height, ids.width) && LinesLabelled(f, ids, r)
    requires FreeWalk(f, ids, p, a, b) && r.Get(a) != -1
    ensures r.Get(b) != -1
    decreases |p|
  {
    if |p| > 1 {
      PathInit(f, ids.height, ids.width, p);
      var q := p[..|p| - 1];
      var c := p[|p| - 2];
      assert FreeWalk(f, ids, q, a, c);
      WalkLabelled(f, ids, r, q, a, c);
      var k := if b.y == c.y + 1 then 0 else if b.x == c.x + 1 then 1 else if b.y == c.y - 1 then 2 else 3;
      JoinedDir(f, c, k);
    }
  }

  /** The number of unlabelled (`-1`) cells. */
  ghost function Unlabelled(ids: Grid<int>): nat {
    multiset(ids.data)[-1]
  }

  /** `r` keeps every label of `ids`, and labels unlabelled cells with `id` only. */
  ghost predicate LabelsOnly(ids: Grid<int>, r: Grid<int>, id: int) {
    && ids.Valid() && Shaped(r, ids.height, ids.width)
    && forall c :: InLattice(ids.height, ids.width, c) ==>
         if ids.Get(c) != -1 then r.Get(c) == ids.Get(c) else r.Get(c) == -1 || r.Get(c) == id
  }

  /** Every cell labelled in `r` but not in `ids` has the cells its lines lead to labelled in `r`. */
  ghost predicate LinesLabelled(f: Grid<Edge>, ids: Grid<int>, r: Grid<int>)
    requires f.Valid() && ids.Valid() && Shaped(r, ids.height, ids.width)
  {
    forall c, k ::
      (InLattice(ids.height, ids.width, c) && 0 <= k < 4 && EdgeAt(f, Between(c, k)) == Line &&
       ids.Get(c) == -1 && r.Get(c) != -1) ==>
      InLattice(ids.height, ids.width, CoordAdd(c, Dirs[k])) && r.Get(CoordAdd(c, Dirs[k])) != -1
  }

  /** The cells the lines of `cd` in the directions below `k` lead to are labelled in `r`. */
  ghost predicate NeighboursLabelled(f: Grid<Edge>, r: Grid<int>, cd: Coord, k: int)
    requires f.Valid() && r.Valid()
  {
    forall j :: 0 <= j < k && j < 4 && EdgeAt(f, Between(cd, j)) == Line ==>
      InLattice(r.height, r.width, CoordAdd(cd, Dirs[j])) && r.Get(CoordAdd(cd, Dirs[j])) != -1
  }

  /** The lattice `f` belongs to the board of `ids`. */
  ghost predicate OnBoard(f: Grid<Edge>, ids: Grid<int>) {
    ids.Valid() && Shaped(f, 2 * ids.height - 1, 2 * ids.width - 1)
  }

  lemma LabelsTrans(a: Grid<int>, b: Grid<int>, c: Grid<int>, id: int)
    requires LabelsOnly(a, b, id) && LabelsOnly(b, c, id)
    ensures LabelsOnly(a, c, id)
  {
  }

  lemma LinesTrans(f: Grid<Edge>, a: Grid<int>, b: Grid<int>, c: Grid<int>, id: int)
    requires OnBoard(f, a) && LabelsOnly(a, b, id) && LabelsOnly(b, c, id)
    requires LinesLabelled(f, a, b) && LinesLabelled(f, b, c)
    ensures LinesLabelled(f, a, c)
  {
  }

  /** Labelling an unlabelled cell leaves one unlabelled cell fewer. */
  lemma LabelLowers(ids: Grid<int>, cd: Coord, id: int)
    requires ids.Valid() && ids.IsValidCoord(cd) && ids.Get(cd) == -1 && id != -1
    ensures Unlabelled(ids.Set(cd, id)) + 1 == Unlabelled(ids)
    ensures LabelsOnly(ids, ids.Set(cd, id), id) && ids.Set(cd, id).Get(cd) == id
  {
    GetSet(ids, cd, id, cd);
    ids.IndexInRange(cd);
    var i := ids.Index(cd);
    assert multiset(ids.data[i := id])[-1] == multiset(ids.data)[-1] - 1;
    forall c | InLattice(ids.height, ids.width, c)
      ensures ids.Set(cd, id).Get(c) == if c == cd then id else ids.Get(c)
    {
      GetSet(ids, cd, id, c);
    }
  }

  /** A label kept from `a` to `b` only moves unlabelled cells to labelled: no more unlabelled cells. */
  lemma LabelsOnlyUnlabelled(a: Grid<int>, b: Grid<int>, id: int)
    requires LabelsOnly(a, b, id)
    ensures forall c :: InLattice(a.height, a.width, c) && b.Get(c) == -1 ==> a.Get(c) == -1
  {
  }

  /** One step of the loop of `fill_line_id`: what the recursive call from `r0` to `r` keeps. */
  lemma FillStep(f: Grid<Edge>, r1: Grid<int>, r0: Grid<int>, r: Grid<int>, cd: Coord, k: int, id: int)
    requires OnBoard(f, r1) && 0 <= k < 4 && EdgeAt(f, Between(cd, k)) == Line
    requires LabelsOnly(r1, r0, id) && LinesLabelled(f, r1, r0) && NeighboursLabelled(f, r0, cd, k)
    requires LabelsOnly(r0, r, id) && LinesLabelled(f, r0, r)
    requires InLattice(r1.height, r1.width, CoordAdd(cd, Dirs[k])) && r.Get(CoordAdd(cd, Dirs[k])) != -1
    ensures LabelsOnly(r1, r, id) && LinesLabelled(f, r1, r) && NeighboursLabelled(f, r, cd, k + 1)
  {
    LabelsTrans(r1, r0, r, id);
    LinesTrans(f, r1, r0, r, id);
  }

  /** Once `cd`'s own lines are followed, every newly labelled cell has its lines followed. */
  lemma FillClosed(f: Grid<Edge>, ids: Grid<int>, r: Grid<int>, cd: Coord, id: int)
    requires OnBoard(f, ids) && ids.IsValidCoord(cd) && ids.Get(cd) == -1
    requires LabelsOnly(ids.Set(cd, id), r, id) && LinesLabelled(f, ids.Set(cd, id), r)
    requires NeighboursLabelled(f, r, cd, 4) && r.Get(cd) != -1
    ensures LinesLabelled(f, ids, r)
  {
    forall c, k | InLattice(ids.height, ids.width, c) && 0 <= k < 4 && EdgeAt(f, Between(c, k)) == Line &&
        ids.Get(c) == -1 && r.Get(c) != -1
      ensures InLattice(ids.height, ids.width, CoordAdd(c, Dirs[k])) && r.Get(CoordAdd(c, Dirs[k])) != -1
    {
      if c != cd {
        GetSet(ids, cd, id, c);
      }
    }
  }

  /** The step of the labelling from `r1` through `r0` to `r`: every cell it labels is reachable from `cd`. */
  lemma FillStepReach(f: Grid<Edge>, ids: Grid<int>, r1: Grid<int>, r0: Grid<int>, r: Grid<int>, cd: Coord, k: int, id: int)
    requires OnBoard(f, ids) && LabelsOnly(ids, r1, id) && LabelsOnly(r1, r0, id) && Shaped(r, ids.height, ids.width)
    requires InLattice(ids.height, ids.width, cd) && ids.Get(cd) == -1 && 0 <= k < 4 && EdgeAt(f, Between(cd, k)) == Line
    requires forall c :: InLattice(ids.height, ids.width, c) && r0.Get(c) != r1.Get(c) ==> Reachable(f, ids, cd, c)
    requires forall c :: InLattice(ids.height, ids.width, c) ==>
      (r.Get(c) != r0.Get(c) <==> Reachable(f, r0, CoordAdd(cd, Dirs[k]), c))
    ensures forall c :: InLattice(ids.height, ids.width, c) && r.Get(c) != r1.Get(c) ==> Reachable(f, ids, cd, c)
  {
    LabelsTrans(ids, r1, r0, id);
    forall c | InLattice(ids.height, ids.width, c) && r.Get(c) != r1.Get(c)
      ensures Reachable(f, ids, cd, c)
    {
      if r0.Get(c) == r1.Get(c) {
        FreeWalkPrepend(f, ids, r0, id, cd, k, c);
      }
    }
  }

  /** A free walk starts and ends on unlabelled cells of the board. */
  lemma ReachableEnds(f: Grid<Edge>, ids: Grid<int>, a: Coord, b: Coord)
    requires f.Valid() && ids.Valid() && Reachable(f, ids, a, b)
    ensures InLattice(ids.height, ids.width, a) && ids.Get(a) == -1
  {
    var p :| FreeWalk(f, ids, p, a, b);
    assert p[0] == a;
  }

  /** The cells `fill_line_id` labels are exactly those reachable from `cd`, given the lines are followed. */
  lemma FillReach(f: Grid<Edge>, ids: Grid<int>, r: Grid<int>, cd: Coord, id: int)
    requires OnBoard(f, ids) && LabelsOnly(ids, r, id) && LinesLabelled(f, ids, r) && id != -1
    requires InLattice(ids.height, ids.width, cd) && ids.Get(cd) == -1 && r.Get(cd) == id
    requires forall c :: InLattice(ids.height, ids.width, c) && r.Get(c) != ids.Get(c) && c != cd ==> Reachable(f, ids, cd, c)
    ensures forall c :: InLattice(ids.height, ids.width, c) ==> (r.Get(c) != ids.Get(c) <==> Reachable(f, ids, cd, c))
  {
    forall c | InLattice(ids.height, ids.width, c)
      ensures r.Get(c) != ids.Get(c) <==> Reachable(f, ids, cd, c)
    {
      if c == cd {
        assert FreeWalk(f, ids, [cd], cd, cd);
      }
      if Reachable(f, ids, cd, c) {
        var p :| FreeWalk(f, ids, p, cd, c);
        assert ids.Get(p[|p| - 1]) == -1;
        WalkLabelled(f, ids, r, p, cd, c);
      }
    }
  }

  /**
   * `fill_line_id`: the cell `cd`, when unlabelled, and every unlabelled
   * cell its lines lead to, depth first, take the label `id`.
   */
  method FillLineId(cd: Coord, f: Grid<Edge>, ids: Grid<int>, id: int) returns (r: Grid<int>)
    requires OnBoard(f, ids) && InLattice(ids.height, ids.width, cd) && id != -1
    decreases Unlabelled(ids)
    ensures LabelsOnly(ids, r, id) && r.Get(cd) != -1
    ensures Unlabelled(r) <= Unlabelled(ids)
    ensures LinesLabelled(f, ids, r)
    ensures forall c :: InLattice(ids.height, ids.width, c) ==> (r.Get(c) != ids.Get(c) <==> Reachable(f, ids, cd, c))
  {
    if ids.Get(cd) != -1 {
      forall c | InLattice(ids.height, ids.width, c) && Reachable(f, ids, cd, c)
        ensures false
      {
        ReachableEnds(f, ids, cd, c);
      }
      return ids;
    }
    LabelLowers(ids, cd, id);
    r := ids.Set(cd, id);
    ghost var r1 := r;
    for k := 0 to 4
      invariant LabelsOnly(r1, r, id) && r.Get(cd) != -1 && Unlabelled(r) < Unlabelled(ids)
      invariant LinesLabelled(f, r1, r) && NeighboursLabelled(f, r, cd, k)
      invariant forall c :: InLattice(ids.height, ids.width, c) && r.Get(c) != r1.Get(c) ==> Reachable(f, ids, cd, c)
    {
      if EdgeAt(f, Between(cd, k)) == Line {
        LineNeighbour(f, ids.height, ids.width, cd, k);
        ghost var r0 := r;
        r := FillLineId(CoordAdd(cd, Dirs[k]), f, r, id);
        FillStep(f, r1, r0, r, cd, k, id);
        FillStepReach(f, ids, r1, r0, r, cd, k, id);
      }
    }
    LabelsTrans(ids, r1, r, id);
    FillClosed(f, ids, r, cd, id);
    forall c | InLattice(ids.height, ids.width, c) && r.Get(c) != ids.Get(c) && c != cd
      ensures Reachable(f, ids, cd, c)
    {
      GetSet(ids, cd, id, c);
    }
    FillReach(f, ids, r, cd, id);
  }

  /** Every cell of the board is unlabelled or carries a label in `[1, n)`. */
  ghost predicate LabelsBelow(ids: Grid<int>, n: int)
    requires ids.Valid()
  {
    forall c :: InLattice(ids.height, ids.width, c) ==> ids.Get(c) == -1 || 1 <= ids.Get(c) < n
  }

  /** A line joins cells of the board that carry the same label. */
  ghost predicate Coherent(f: Grid<Edge>, ids: Grid<int>)
    requires OnBoard(f, ids)
  {
    forall c, k ::
      (InLattice(ids.height, ids.width, c) && 0 <= k < 4 && EdgeAt(f, Between(c, k)) == Line && ids.Get(c) != -1) ==>
      InLattice(ids.height, ids.width, CoordAdd(c, Dirs[k])) && ids.Get(CoordAdd(c, Dirs[k])) == ids.Get(c)
  }

  /** Filling with a fresh label keeps the labels coherent with the lines. */
  lemma FillCoherent(f: Grid<Edge>, ids: Grid<int>, r: Grid<int>, id: int)
    requires OnBoard(f, ids) && Coherent(f, ids) && LabelsBelow(ids, id)
    requires LabelsOnly(ids, r, id) && LinesLabelled(f, ids, r)
    ensures OnBoard(f, r) && Coherent(f, r)
  {
    forall c, k | InLattice(ids.height, ids.width, c) && 0 <= k < 4 && EdgeAt(f, Between(c, k)) == Line && r.Get(c) != -1
      ensures InLattice(ids.height, ids.width, CoordAdd(c, Dirs[k])) && r.Get(CoordAdd(c, Dirs[k])) == r.Get(c)
    {
      var nb := CoordAdd(c, Dirs[k]);
      LineNeighbour(f, ids.height, ids.width, c, k);
      if ids.Get(c) == -1 {
        BackBetween(c, k);
        if ids.Get(nb) != -1 {
          assert false;
        }
      }
    }
  }

  /** Every cell before `(y, x)` in row-major order is labelled. */
  ghost predicate LabelledBefore(ids: Grid<int>, y: int, x: int)
    requires ids.Valid()
  {
    forall c :: InLattice(ids.height, ids.width, c) && (c.y < y || (c.y == y && c.x < x)) ==> ids.Get(c) != -1
  }

  /** A free walk is a walk along lines. */
  lemma ReachableConnected(f: Grid<Edge>, ids: Grid<int>, a: Coord, b: Coord)
    requires f.Valid() && ids.Valid() && Reachable(f, ids, a, b)
    ensures Connected(f, ids.height, ids.width, a, b)
  {
    var p :| FreeWalk(f, ids, p, a, b);
    assert LinePath(f, ids.height, ids.width, p) && p[0] == a && p[|p| - 1] == b;
  }

  /** The direction from a cell to an adjacent one. */
  function DirOf(a: Coord, b: Coord): (k: int)
    requires Adjacent(a, b)
    ensures 0 <= k < 4 && CoordAdd(a, Dirs[k]) == b
  {
    if b.y == a.y + 1 then 0 else if b.x == a.x + 1 then 1 else if b.y == a.y - 1 then 2 else 3
  }

  /** Under coherent labels every cell of a walk of labelled cells carries the label of its first cell. */
  lemma {:induction false} CoherentPath(f: Grid<Edge>, ids: Grid<int>, p: seq<Coord>)
    requires OnBoard(f, ids) && Coherent(f, ids) && LinePath(f, ids.height, ids.width, p)
    requires forall c :: InLattice(ids.height, ids.width, c) ==> ids.Get(c) != -1
    ensures ids.Get(p[|p| - 1]) == ids.Get(p[0])
    decreases |p|
  {
    if |p| > 1 {
      PathInit(f, ids.height, ids.width, p);
      CoherentPath(f, ids, p[..|p| - 1]);
      var c, b := p[|p| - 2], p[|p| - 1];
      JoinedDir(f, c, DirOf(c, b));
    }
  }

  /** Some cell of the board carries label `i`. */
  ghost predicate LabelUsed(ids: Grid<int>, i: int) {
    ids.Valid() && exists c :: InLattice(ids.height, ids.width, c) && ids.Get(c) == i
  }

  /**
   * The labels so far, with a root per label: label `i` sits on cell
   * `roots[i - 1]`, and every cell labelled `i` lies on the same line as it.
   */
  ghost predicate Rooted(f: Grid<Edge>, ids: Grid<int>, roots: seq<Coord>, n: int)
    requires OnBoard(f, ids)
  {
    && |roots| == n - 1
    && (forall j :: 0 <= j < n - 1 ==> InLattice(ids.height, ids.width, roots[j]) && ids.Get(roots[j]) == j + 1)
    && (forall c, j :: InLattice(ids.height, ids.width, c) && 0 <= j < n - 1 && ids.Get(c) == j + 1 ==>
          Connected(f, ids.height, ids.width, roots[j], c))
  }

  /** Filling from a fresh root keeps every label rooted. */
  lemma RootedFill(f: Grid<Edge>, ids: Grid<int>, r: Grid<int>, roots: seq<Coord>, cd: Coord, id: int)
    requires OnBoard(f, ids) && Rooted(f, ids, roots, id) && LabelsBelow(ids, id) && id >= 1
    requires LabelsOnly(ids, r, id) && InLattice(ids.height, ids.width, cd) && r.Get(cd) == id
    requires forall c :: InLattice(ids.height, ids.width, c) && r.Get(c) != ids.Get(c) ==> Reachable(f, ids, cd, c)
    ensures OnBoard(f, r) && Rooted(f, r, roots + [cd], id + 1)
  {
    RootedFillRoots(f, ids, r, roots, cd, id);
    RootedFillCells(f, ids, r, roots, cd, id);
  }

  /** The roots of a fill: the old roots keep their labels and `cd` carries the new one. */
  lemma RootedFillRoots(f: Grid<Edge>, ids: Grid<int>, r: Grid<int>, roots: seq<Coord>, cd: Coord, id: int)
    requires OnBoard(f, ids) && Rooted(f, ids, roots, id) && id >= 1
    requires LabelsOnly(ids, r, id) && InLattice(ids.height, ids.width, cd) && r.Get(cd) == id
    ensures forall j :: 0 <= j < id ==> InLattice(r.height, r.width, (roots + [cd])[j]) && r.Get((roots + [cd])[j]) == j + 1
  {
    var rs := roots + [cd];
    forall j | 0 <= j < id
      ensures InLattice(r.height, r.width, rs[j]) && r.Get(rs[j]) == j + 1
    {
      if j < id - 1 {
        assert rs[j] == roots[j];
      }
    }
  }

  /** The cells of a fill: each lies on the same line as the root of its label. */
  lemma RootedFillCells(f: Grid<Edge>, ids: Grid<int>, r: Grid<int>, roots: seq<Coord>, cd: Coord, id: int)
    requires OnBoard(f, ids) && Rooted(f, ids, roots, id) && LabelsBelow(ids, id) && id >= 1
    requires LabelsOnly(ids, r, id)
    requires forall c :: InLattice(ids.height, ids.width, c) && r.Get(c) != ids.Get(c) ==> Reachable(f, ids, cd, c)
    ensures forall c, j :: InLattice(r.height, r.width, c) && 0 <= j < id && r.Get(c) == j + 1 ==>
      Connected(f, r.height, r.width, (roots + [cd])[j], c)
  {
    var rs := roots + [cd];
    forall c, j | InLattice(r.height, r.width, c) && 0 <= j < id && r.Get(c) == j + 1
      ensures Connected(f, r.height, r.width, rs[j], c)
    {
      if r.Get(c) != ids.Get(c) {
        ReachableConnected(f, ids, cd, c);
      } else {
        assert j < id - 1 && rs[j] == roots[j];
      }
    }
  }

  /** Rooted, coherent labels on every cell: two cells share a label exactly when they lie on the same line. */
  lemma LabelsAreLines(f: Grid<Edge>, ids: Grid<int>, roots: seq<Coord>, n: int)
    requires OnBoard(f, ids) && Coherent(f, ids) && Rooted(f, ids, roots, n)
    requires forall c :: InLattice(ids.height, ids.width, c) ==> 1 <= ids.Get(c) < n
    ensures forall a, b :: InLattice(ids.height, ids.width, a) && InLattice(ids.height, ids.width, b) ==>
      (ids.Get(a) == ids.Get(b) <==> Connected(f, ids.height, ids.width, a, b))
  {
    var h, w := ids.height, ids.width;
    forall a, b | InLattice(h, w, a) && InLattice(h, w, b)
      ensures ids.Get(a) == ids.Get(b) <==> Connected(f, h, w, a, b)
    {
      if ids.Get(a) == ids.Get(b) {
        SameRootConnected(f, ids, roots, n, a, b);
      }
      if Connected(f, h, w, a, b) {
        var p :| LinePath(f, h, w, p) && p[0] == a && p[|p| - 1] == b;
        CoherentPath(f, ids, p);
      }
    }
  }

  /** Two cells with the same label both lie on the line of its root. */
  lemma SameRootConnected(f: Grid<Edge>, ids: Grid<int>, roots: seq<Coord>, n: int, a: Coord, b: Coord)
    requires OnBoard(f, ids) && Rooted(f, ids, roots, n)
    requires InLattice(ids.height, ids.width, a) && InLattice(ids.height, ids.width, b)
    requires 1 <= ids.Get(a) < n && ids.Get(a) == ids.Get(b)
    ensures Connected(f, ids.height, ids.width, a, b)
  {
    var j := ids.Get(a) - 1;
    assert Connected(f, ids.height, ids.width, roots[j], a) && Connected(f, ids.height, ids.width, roots[j], b);
    ViaRoot(f, ids.height, ids.width, roots[j], a, b);
  }

  /** Two cells on the line of a third lie on the same line. */
  lemma ViaRoot(f: Grid<Edge>, h: int, w: int, root: Coord, a: Coord, b: Coord)
    requires f.Valid() && Connected(f, h, w, root, a) && Connected(f, h, w, root, b)
    ensures Connected(f, h, w, a, b)
  {
    ConnectedSym(f, h, w, root, a);
    ConnectedTrans(f, h, w, a, root, b);
  }

  /** One cell of the labelling loop of `check_answer_validity`. */
  method LabelCell(f: Grid<Edge>, ids: Grid<int>, c: Coord, id: int, ghost roots: seq<Coord>)
    returns (r: Grid<int>, next: int, ghost roots': seq<Coord>)
    requires OnBoard(f, ids) && Coherent(f, ids) && LabelsBelow(ids, id) && id >= 1 && Rooted(f, ids, roots, id)
    requires InLattice(ids.height, ids.width, c) && LabelledBefore(ids, c.y, c.x)
    ensures OnBoard(f, r) && Coherent(f, r) && LabelsBelow(r, next) && next >= id && Rooted(f, r, roots', next)
    ensures r.height == ids.height && r.width == ids.width
    ensures LabelledBefore(r, c.y, c.x + 1)
  {
    if ids.Get(c) == -1 {
      r := FillLineId(c, f, ids, id);
      FillCoherent(f, ids, r, id);
      RootedFill(f, ids, r, roots, c, id);
      next, roots' := id + 1, roots + [c];
    } else {
      r, next, roots' := ids, id, roots;
    }
  }

  /**
   * The labelling loop: every cell ends labelled, coherently with the lines,
   * and two cells share a label exactly when they lie on the same line.
   */
  method LabelLines(f: Grid<Edge>, h: int, w: int) returns (ids: Grid<int>, n: int)
    requires Shaped(f, 2 * h - 1, 2 * w - 1) && h >= 0 && w >= 0
    ensures OnBoard(f, ids) && ids.height == h && ids.width == w
    ensures Coherent(f, ids) && n >= 1
    ensures forall c :: InLattice(h, w, c) ==> 1 <= ids.Get(c) < n
    ensures forall a, b :: InLattice(h, w, a) && InLattice(h, w, b) ==>
      (ids.Get(a) == ids.Get(b) <==> Connected(f, h, w, a, b))
    ensures forall i :: 1 <= i < n ==> LabelUsed(ids, i)
  {
    ids := NewGrid(h, w, -1);
    n := 1;
    ghost var roots: seq<Coord> := [];
    forall c | InLattice(h, w, c)
      ensures ids.Get(c) == -1
    {
      ids.IndexInRange(c);
    }
    for y := 0 to h
      invariant OnBoard(f, ids) && ids.height == h && ids.width == w
      invariant Coherent(f, ids) && LabelsBelow(ids, n) && n >= 1 && Rooted(f, ids, roots, n)
      invariant LabelledBefore(ids, y, 0)
    {
      for x := 0 to w
        invariant OnBoard(f, ids) && ids.height == h && ids.width == w
        invariant Coherent(f, ids) && LabelsBelow(ids, n) && n >= 1 && Rooted(f, ids, roots, n)
        invariant LabelledBefore(ids, y, x)
      {
        ids, n, roots := LabelCell(f, ids, Coord(y, x), n, roots);
      }
    }
    LabelsAreLines(f, ids, roots, n);
    forall i | 1 <= i < n
      ensures LabelUsed(ids, i)
    {
      assert InLattice(h, w, roots[i - 1]) && ids.Get(roots[i - 1]) == i;
    }
  }

  /** Whether cell `c` is a line end (one line, no undecided edge) labelled `i`. */
  ghost function EndOf(f: Grid<Edge>, ids: Grid<int>, i: int, c: Coord): nat
    requires OnBoard(f, ids) && InLattice(ids.height, ids.width, c)
  {
    if Degree(f, Coord(2 * c.y, 2 * c.x)) == (1, 0) && ids.Get(c) == i then 1 else 0
  }

  /** The line ends labelled `i` in row `y`, columns below `x`. */
  ghost function RowEnds(f: Grid<Edge>, ids: Grid<int>, i: int, y: int, x: int): nat
    requires OnBoard(f, ids) && 0 <= y < ids.height && x <= ids.width
    decreases x
  {
    if x <= 0 then 0 else RowEnds(f, ids, i, y, x - 1) + EndOf(f, ids, i, Coord(y, x - 1))
  }

  /** The line ends labelled `i` in the rows below `y`. */
  ghost function Ends(f: Grid<Edge>, ids: Grid<int>, i: int, y: int): nat
    requires OnBoard(f, ids) && y <= ids.height
    decreases y
  {
    if y <= 0 then 0 else Ends(f, ids, i, y - 1) + RowEnds(f, ids, i, y - 1, ids.width)
  }

  /** Every label in `[1, n)` has exactly two line ends. */
  ghost predicate EndsPaired(f: Grid<Edge>, ids: Grid<int>, n: int)
    requires OnBoard(f, ids)
  {
    forall i :: 1 <= i < n ==> Ends(f, ids, i, ids.height) == 2
  }

  /**
   * When the labels in `[1, n)` are exactly the labels in use, every label
   * having two line ends is every cell's label having two line ends.
   */
  lemma PairedPerCell(f: Grid<Edge>, ids: Grid<int>, n: int)
    requires OnBoard(f, ids)
    requires forall c :: InLattice(ids.height, ids.width, c) ==> 1 <= ids.Get(c) < n
    requires forall i :: 1 <= i < n ==> LabelUsed(ids, i)
    ensures EndsPaired(f, ids, n) <==>
      forall c :: InLattice(ids.height, ids.width, c) ==> Ends(f, ids, ids.Get(c), ids.height) == 2
  {
    if forall c :: InLattice(ids.height, ids.width, c) ==> Ends(f, ids, ids.Get(c), ids.height) == 2 {
      forall i | 1 <= i < n
        ensures Ends(f, ids, i, ids.height) == 2
      {
        assert LabelUsed(ids, i);
        var c :| InLattice(ids.height, ids.width, c) && ids.Get(c) == i;
      }
    }
  }

  /** Two labellings of one board that put the same cells together. */
  ghost predicate SamePartition(p: Grid<int>, q: Grid<int>) {
    && p.Valid() && q.Valid() && p.height == q.height && p.width == q.width
    && forall a, b :: InLattice(p.height, p.width, a) && InLattice(p.height, p.width, b) ==>
         (p.Get(a) == p.Get(b) <==> q.Get(a) == q.Get(b))
  }

  /** The line ends of a row that share a cell's label do not depend on how the labels are named. */
  lemma {:induction false} RowEndsAlike(f: Grid<Edge>, p: Grid<int>, q: Grid<int>, c: Coord, y: int, x: int)
    requires OnBoard(f, p) && OnBoard(f, q) && SamePartition(p, q)
    requires InLattice(p.height, p.width, c) && 0 <= y < p.height && x <= p.width
    ensures RowEnds(f, p, p.Get(c), y, x) == RowEnds(f, q, q.Get(c), y, x)
    decreases x
  {
    if x > 0 {
      RowEndsAlike(f, p, q, c, y, x - 1);
      assert EndOf(f, p, p.Get(c), Coord(y, x - 1)) == EndOf(f, q, q.Get(c), Coord(y, x - 1));
    }
  }

  /** The same for the rows above `y`. */
  lemma {:induction false} EndsAlike(f: Grid<Edge>, p: Grid<int>, q: Grid<int>, c: Coord, y: int)
    requires OnBoard(f, p) && OnBoard(f, q) && SamePartition(p, q)
    requires InLattice(p.height, p.width, c) && y <= p.height
    ensures Ends(f, p, p.Get(c), y) == Ends(f, q, q.Get(c), y)
    decreases y
  {
    if y > 0 {
      EndsAlike(f, p, q, c, y - 1);
      RowEndsAlike(f, p, q, c, y - 1, p.width);
    }
  }

  /**
   * Any two labellings in which two cells share a label exactly when a walk
   * along lines joins them give the same verdict: the result of
   * `check_answer_validity` is a function of the edges alone.
   */
  lemma ValidityDetermined(f: Grid<Edge>, h: int, w: int, p: Grid<int>, q: Grid<int>)
    requires OnBoard(f, p) && OnBoard(f, q) && p.height == h && p.width == w && q.height == h && q.width == w
    requires forall a, b :: InLattice(h, w, a) && InLattice(h, w, b) ==> (p.Get(a) == p.Get(b) <==> Connected(f, h, w, a, b))
    requires forall a, b :: InLattice(h, w, a) && InLattice(h, w, b) ==> (q.Get(a) == q.Get(b) <==> Connected(f, h, w, a, b))
    ensures (forall c :: InLattice(h, w, c) ==> Ends(f, p, p.Get(c), h) == 2) <==>
            (forall c :: InLattice(h, w, c) ==> Ends(f, q, q.Get(c), h) == 2)
    ensures LabelsFollowLines(f, p) <==> LabelsFollowLines(f, q)
  {
    assert SamePartition(p, q);
    forall c | InLattice(h, w, c)
      ensures Ends(f, p, p.Get(c), h) == Ends(f, q, q.Get(c), h)
    {
      EndsAlike(f, p, q, c, h);
    }
  }

  /** One row of the end count: each line end adds one to the count of its label. */
  method CountRowEnds(f: Grid<Edge>, ids: Grid<int>, n: int, y: int, counts: seq<int>) returns (r: seq<int>)
    requires OnBoard(f, ids) && 0 <= y < ids.height && |counts| == n
    requires forall c :: InLattice(ids.height, ids.width, c) ==> 1 <= ids.Get(c) < n
    ensures |r| == n && forall i :: 0 <= i < n ==> r[i] == counts[i] + RowEnds(f, ids, i, y, ids.width)
  {
    r := counts;
    for x := 0 to ids.width
      invariant |r| == n && forall i :: 0 <= i < n ==> r[i] == counts[i] + RowEnds(f, ids, i, y, x)
    {
      if Degree(f, Coord(y * 2, x * 2)) == (1, 0) {
        var l := ids.Get(Coord(y, x));
        r := r[l := r[l] + 1];
      }
    }
  }

  /** The end count of `check_answer_validity`: the number of line ends of every label. */
  method CountEnds(f: Grid<Edge>, ids: Grid<int>, n: int) returns (counts: seq<int>)
    requires OnBoard(f, ids) && n >= 1
    requires forall c :: InLattice(ids.height, ids.width, c) ==> 1 <= ids.Get(c) < n
    ensures |counts| == n && forall i :: 0 <= i < n ==> counts[i] == Ends(f, ids, i, ids.height)
  {
    counts := seq(n, _ => 0);
    for y := 0 to ids.height
      invariant |counts| == n && forall i :: 0 <= i < n ==> counts[i] == Ends(f, ids, i, y)
    {
      counts := CountRowEnds(f, ids, n, y, counts);
    }
  }

  /**
   * At the lattice position `p` of an edge between two cells, the two cells
   * carry the same label exactly when the edge is a line.
   */
  predicate EdgeAgrees(f: Grid<Edge>, ids: Grid<int>, p: Coord)
    requires OnBoard(f, ids) && f.IsValidCoord(p)
  {
    if p.y % 2 == 1 && p.x % 2 == 0 then
      (ids.Get(Coord(p.y / 2, p.x / 2)) == ids.Get(Coord(p.y / 2 + 1, p.x / 2))) == (f.Get(p) == Line)
    else if p.y % 2 == 0 && p.x % 2 == 1 then
      (ids.Get(Coord(p.y / 2, p.x / 2)) == ids.Get(Coord(p.y / 2, p.x / 2 + 1))) == (f.Get(p) == Line)
    else
      true
  }

  /** Every edge position of the lattice agrees with the labels. */
  ghost predicate Separated(f: Grid<Edge>, ids: Grid<int>)
    requires OnBoard(f, ids)
  {
    forall p :: f.IsValidCoord(p) ==> EdgeAgrees(f, ids, p)
  }

  /**
   * Neighbouring cells carry the same label exactly when a line joins them:
   * no line runs beside itself without a line between.
   */
  ghost predicate LabelsFollowLines(f: Grid<Edge>, ids: Grid<int>)
    requires OnBoard(f, ids)
  {
    forall c, k :: InLattice(ids.height, ids.width, c) && 0 <= k < 4 && InLattice(ids.height, ids.width, CoordAdd(c, Dirs[k])) ==>
      ((ids.Get(c) == ids.Get(CoordAdd(c, Dirs[k]))) <==> EdgeAt(f, Between(c, k)) == Line)
  }

  /** The position-by-position check is the cell-by-cell property, both ways. */
  lemma SeparatedMeans(f: Grid<Edge>, ids: Grid<int>)
    requires OnBoard(f, ids)
    ensures Separated(f, ids) <==> LabelsFollowLines(f, ids)
  {
    if Separated(f, ids) {
      forall c, k | InLattice(ids.height, ids.width, c) && 0 <= k < 4 && InLattice(ids.height, ids.width, CoordAdd(c, Dirs[k]))
        ensures (ids.Get(c) == ids.Get(CoordAdd(c, Dirs[k]))) <==> EdgeAt(f, Between(c, k)) == Line
      {
        assert EdgeAgrees(f, ids, Between(c, k));
      }
    }
    if LabelsFollowLines(f, ids) {
      forall p | f.IsValidCoord(p)
        ensures EdgeAgrees(f, ids, p)
      {
        if p.y % 2 == 1 && p.x % 2 == 0 {
          assert Between(Coord(p.y / 2, p.x / 2), 0) == p;
        } else if p.y % 2 == 0 && p.x % 2 == 1 {
          assert Between(Coord(p.y / 2, p.x / 2), 1) == p;
        }
      }
    }
  }

  /** One lattice row of the self-touch scan. */
  method AgreeRow(f: Grid<Edge>, ids: Grid<int>, y: int) returns (ok: bool)
    requires OnBoard(f, ids) && 0 <= y < f.height
    ensures ok <==> forall p :: f.IsValidCoord(p) && p.y == y ==> EdgeAgrees(f, ids, p)
  {
    for x := 0 to f.width
      invariant forall p :: f.IsValidCoord(p) && p.y == y && p.x < x ==> EdgeAgrees(f, ids, p)
    {
      if !EdgeAgrees(f, ids, Coord(y, x)) {
        return false;
      }
    }
    return true;
  }

  /** The end-count half of the verdict: every label in `[1, n)` has two line ends. */
  method AllPaired(f: Grid<Edge>, ids: Grid<int>, n: int) returns (b: bool)
    requires OnBoard(f, ids) && n >= 1
    requires forall c :: InLattice(ids.height, ids.width, c) ==> 1 <= ids.Get(c) < n
    ensures b <==> EndsPaired(f, ids, n)
  {
    var counts := CountEnds(f, ids, n);
    b := true;
    for i := 1 to n
      invariant b <==> forall j :: 1 <= j < i ==> counts[j] == 2
    {
      b := b && counts[i] == 2;
    }
  }

  /** The self-touch half of the verdict: the lattice scan, row by row. */
  method AllAgree(f: Grid<Edge>, ids: Grid<int>) returns (b: bool)
    requires OnBoard(f, ids)
    ensures b <==> LabelsFollowLines(f, ids)
  {
    SeparatedMeans(f, ids);
    for y := 0 to f.height
      invariant forall p :: f.IsValidCoord(p) && p.y < y ==> EdgeAgrees(f, ids, p)
    {
      var ok := AgreeRow(f, ids, y);
      if !ok {
        return false;
      }
    }
    return true;
  }

  /**
   * `check_answer_validity`: label the lines, then accept exactly when every
   * line has two ends and no line touches itself. The labelling is returned
   * for the contract: every cell carries a label in `[1, n)`, and two cells
   * share a label exactly when a walk along lines joins them, so the labels
   * are the lines and the verdict is about each line on its own.
   */
  method CheckAnswerValidity(a: AnswerField) returns (b: bool, ghost ids: Grid<int>, ghost n: int)
    requires a.Valid()
    ensures OnBoard(a.field, ids) && ids.height == a.height && ids.width == a.width
    ensures Coherent(a.field, ids) && forall c :: a.IsCell(c) ==> 1 <= ids.Get(c) < n
    ensures forall c, d :: a.IsCell(c) && a.IsCell(d) ==>
      (ids.Get(c) == ids.Get(d) <==> Connected(a.field, a.height, a.width, c, d))
    ensures forall i :: 1 <= i < n ==> LabelUsed(ids, i)
    ensures b <==> EndsPaired(a.field, ids, n) && LabelsFollowLines(a.field, ids)
    ensures b <==> (forall c :: a.IsCell(c) ==> Ends(a.field, ids, ids.Get(c), a.height) == 2) && LabelsFollowLines(a.field, ids)
  {
    var labels, id := LabelLines(a.field, a.height, a.width);
    ids, n := labels, id;
    PairedPerCell(a.field, labels, id);
    b := AllPaired(a.field, labels, id);
    if b {
      b := AllAgree(a.field, labels);
    }
  }
}
