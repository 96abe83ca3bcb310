/**
 * `AnswerField` of src/numberlink/generator_field.rs: a partial Numberlink
 * answer on the `(2h - 1) x (2w - 1)` lattice, grown edge by edge by the
 * placement generator. Deciding an edge splices the chains it joins,
 * queues the two vertices it touches, and applies the canonization rule;
 * inspecting a vertex applies the degree and endpoint rules and keeps the
 * list of seed vertices (where the generator may grow a line) up to date.
 *
 * Propagation runs under the search queue: `decide` and
 * `update_endpoint_constraint` started from an idle queue drain it before
 * returning. Every rule only decides undecided edges or turns `Any`
 * cells into `Forced` or `Prohibited`, so the number of undecided edges
 * plus `Any` cells bounds the recursion, and three times that number plus
 * the queue length bounds the drain.
 */
module NumberlinkGeneratorField {
  import opened Common
  import opened NumberlinkAnswer
  import NumberlinkBase
  import CliNlGenerator
  import Wrappers

  /** The options `AnswerField::new` reads (`GeneratorOption` of src/numberlink/generator.rs). */
  datatype GeneratorOption = GeneratorOption(
    chainThreshold: int,
    endpointConstraint: Wrappers.Option<Grid<Endpoint>>,
    forbidAdjacentClue: bool,
    symmetry: CliNlGenerator.Symmetry,
    clueLimit: Wrappers.Option<int>,
    prioritizedExtension: bool)

  /** Every field of an `AnswerField` but its queue, to say in one term what a method leaves alone. */
  datatype State = State(
    chainUnion: Grid<nat>, chainConnectivity: Grid<int>, chainLength: Grid<int>,
    field: Grid<Edge>, seedIdx: Grid<int>, seeds: seq<Coord>, seedCount: int,
    endpointConstraint: Grid<Endpoint>, endpoints: int, endpointForcedCells: int,
    chainThreshold: int, forbidAdjacentClue: bool, symmetry: CliNlGenerator.Symmetry,
    invalid: bool, ufRoot: seq<nat>, ufDepth: seq<nat>)

  /** The options the propagation rules read and never change. */
  datatype Options = Options(chainThreshold: int, forbidAdjacentClue: bool, symmetry: CliNlGenerator.Symmetry)

  /**
   * What the propagation rules look at: edges, endpoint constraints, the
   * flag, the queue, and the options they leave alone.
   */
  datatype Snapshot = Snapshot(field: Grid<Edge>, constraint: Grid<Endpoint>, invalid: bool, started: bool, queued: nat,
                               opts: Options)

  ghost predicate Shaped<T>(g: Grid<T>, height: int, width: int) {
    g.Valid() && g.height == height && g.width == width
  }

  /** Undecided edges plus `Any` cells: what every rule can only lower. */
  ghost function Potential(field: Grid<Edge>, constraint: Grid<Endpoint>): nat {
    multiset(field.data)[Undecided] + multiset(constraint.data)[Any]
  }

  /** `b` keeps every decided edge and every constraint of `a`. */
  ghost predicate Refines(a: Snapshot, b: Snapshot) {
    && b.field.height == a.field.height && b.field.width == a.field.width
    && b.constraint.height == a.constraint.height && b.constraint.width == a.constraint.width
    && |b.field.data| == |a.field.data| && |b.constraint.data| == |a.constraint.data|
    && (forall i :: 0 <= i < |a.field.data| && a.field.data[i] != Undecided ==> b.field.data[i] == a.field.data[i])
    && (forall i :: 0 <= i < |a.constraint.data| && a.constraint.data[i] != Any ==>
          b.constraint.data[i] == a.constraint.data[i])
  }

  /**
   * `b` may follow `a` in a propagation: it refines `a`, keeps `invalid`
   * once set, lowers no potential, and while the queue runs lowers no
   * measure.
   */
  ghost predicate Follows(a: Snapshot, b: Snapshot) {
    && Refines(a, b)
    && (a.invalid ==> b.invalid)
    && b.started == a.started && b.opts == a.opts
    && Potential(b.field, b.constraint) <= Potential(a.field, a.constraint)
    && (a.started ==> Measure(b) <= Measure(a))
  }

  ghost function Measure(s: Snapshot): nat {
    3 * Potential(s.field, s.constraint) + s.queued
  }

  /** A decided edge stays decided the same way. */
  lemma RefinesAt(a: Snapshot, b: Snapshot, cd: Coord)
    requires Refines(a, b) && a.field.Valid() && a.field.IsValidCoord(cd) && a.field.Get(cd) != Undecided
    ensures b.field.Valid() && b.field.IsValidCoord(cd) && b.field.Get(cd) == a.field.Get(cd)
  {
    a.field.IndexInRange(cd);
  }

  /** A constraint other than `Any` stays. */
  lemma RefinesConstraintAt(a: Snapshot, b: Snapshot, cd: Coord)
    requires Refines(a, b) && a.constraint.Valid() && a.constraint.IsValidCoord(cd) && a.constraint.Get(cd) != Any
    ensures b.constraint.Valid() && b.constraint.IsValidCoord(cd) && b.constraint.Get(cd) == a.constraint.Get(cd)
  {
    a.constraint.IndexInRange(cd);
  }

  /** Deciding an undecided edge lowers the potential by one and refines the field. */
  lemma DecideLowers(f: Grid<Edge>, c: Grid<Endpoint>, cd: Coord, s: Edge)
    requires f.Valid() && f.IsValidCoord(cd) && f.Get(cd) == Undecided && s != Undecided
    ensures Potential(f.Set(cd, s), c) + 1 == Potential(f, c)
    ensures forall i :: 0 <= i < |f.data| && f.data[i] != Undecided ==> f.Set(cd, s).data[i] == f.data[i]
  {
    f.IndexInRange(cd);
    var i := f.Index(cd);
    assert multiset(f.data[i := s])[Undecided] == multiset(f.data)[Undecided] - 1;
  }

  /** Fixing an `Any` cell lowers the potential by one and moves the `Forced` count by the new value. */
  lemma ConstrainLowers(f: Grid<Edge>, c: Grid<Endpoint>, cd: Coord, v: Endpoint)
    requires c.Valid() && c.IsValidCoord(cd) && c.Get(cd) == Any && v != Any
    ensures Potential(f, c.Set(cd, v)) + 1 == Potential(f, c)
    ensures multiset(c.Set(cd, v).data)[Forced] == multiset(c.data)[Forced] + (if v == Forced then 1 else 0)
    ensures forall i :: 0 <= i < |c.data| && c.data[i] != Any ==> c.Set(cd, v).data[i] == c.data[i]
  {
    c.IndexInRange(cd);
    var i := c.Index(cd);
    assert multiset(c.data[i := v])[Any] == multiset(c.data)[Any] - 1;
  }

  lemma FollowsTrans(a: Snapshot, b: Snapshot, c: Snapshot)
    requires Follows(a, b) && Follows(b, c)
    ensures Follows(a, c)
  {
  }

  /** `Follows` holds of a snapshot and itself. */
  lemma FollowsRefl(a: Snapshot)
    ensures Follows(a, a)
  {
  }

  /** Fixing an `Any` cell is a step of propagation that lowers the measure by three. */
  lemma ConstrainFollows(a: Snapshot, b: Snapshot, cd: Coord, v: Endpoint)
    requires a.field.Valid() && a.constraint.Valid() && a.constraint.IsValidCoord(cd) && a.constraint.Get(cd) == Any && v != Any
    requires b == a.(constraint := a.constraint.Set(cd, v))
    ensures Follows(a, b) && Measure(b) + 3 == Measure(a) && b.constraint.Get(cd) == v
  {
    ConstrainLowers(a.field, a.constraint, cd, v);
    GetSet(a.constraint, cd, v, cd);
  }

  /** Queueing at most `k` values after a step that lowered the measure by `k` keeps a step of propagation. */
  lemma QueuedFollows(a: Snapshot, b: Snapshot, c: Snapshot, k: nat)
    requires Follows(a, b) && Measure(b) + k <= Measure(a)
    requires c == b.(queued := c.queued) && c.queued <= b.queued + k
    ensures Follows(a, c) && Measure(c) <= Measure(a)
  {
  }

  /** Deciding an undecided edge is a step of propagation that lowers the measure by three. */
  lemma DecideFollows(a: Snapshot, b: Snapshot, cd: Coord, v: Edge)
    requires a.field.Valid() && a.field.IsValidCoord(cd) && a.field.Get(cd) == Undecided && v != Undecided
    requires b == a.(field := a.field.Set(cd, v))
    ensures Follows(a, b) && Measure(b) + 3 == Measure(a) && b.field.Get(cd) == v
  {
    DecideLowers(a.field, a.constraint, cd, v);
    GetSet(a.field, cd, v, cd);
  }

  /**
   * A run started on an idle queue: if the started run is a step of
   * propagation, so is the whole, seen from the idle queue.
   */
  lemma StartFinish(a: Snapshot, b: Snapshot, c: Snapshot, d: Snapshot)
    requires !a.started && b == a.(started := true, queued := b.queued) && Follows(b, c) && d == c.(started := false)
    ensures Follows(a, d)
  {
  }

  /**
   * A run started on the idle queue at `a` (`b` after the start, `c` after
   * its first step, `d` idle again): `d` follows `a`, and the edge `p`
   * decided in `c`, and the flag, stay.
   */
  lemma RunKeepsEdge(a: Snapshot, b: Snapshot, c: Snapshot, d: Snapshot, p: Coord, e: Edge)
    requires !a.started && b == a.(started := true, queued := b.queued) && Follows(b, c)
    requires Follows(c, d.(started := true)) && !d.started && e != Undecided
    requires c.field.Valid() && c.field.IsValidCoord(p) && (c.field.Get(p) == e || c.invalid)
    ensures Follows(a, d) && (d.field.Get(p) == e || d.invalid)
    ensures c.field.Get(p) == e ==> d.field.Get(p) == e
  {
    FollowsTrans(b, c, d.(started := true));
    StartFinish(a, b, d.(started := true), d);
    if c.field.Get(p) == e {
      RefinesAt(c, d.(started := true), p);
    }
  }

  /** As `RunKeepsEdge`, for the constraint `v` of the cell `m`. */
  lemma RunKeepsConstraint(a: Snapshot, b: Snapshot, c: Snapshot, d: Snapshot, m: Coord, v: Endpoint)
    requires !a.started && b == a.(started := true, queued := b.queued) && Follows(b, c)
    requires Follows(c, d.(started := true)) && !d.started && v != Any && HasConstraint(c, m, v)
    ensures Follows(a, d) && HasConstraint(d, m, v)
  {
    FollowsTrans(b, c, d.(started := true));
    StartFinish(a, b, d.(started := true), d);
    HasConstraintStays(c, d.(started := true), m, v);
  }

  /** Setting `invalid` is a step of propagation. */
  lemma FlagFollows(a: Snapshot)
    ensures Follows(a, a.(invalid := true))
  {
  }

  /** No undecided neighbour among the four: the undecided list is empty. */
  lemma NoneAround(f: Grid<Edge>, cd: Coord)
    requires f.Valid() && forall j :: 0 <= j < 4 ==> EdgeAt(f, CoordAdd(cd, Dirs[j])) != Undecided
    ensures |UndecidedAround(f, cd, 4)| == 0
  {
    assert UndecidedAround(f, cd, 1) == [];
    assert UndecidedAround(f, cd, 2) == [];
    assert UndecidedAround(f, cd, 3) == [];
  }

  /** A decided edge keeps its state in a refinement, also off the lattice. */
  lemma EdgeStays(a: Snapshot, b: Snapshot, p: Coord)
    requires Refines(a, b) && a.field.Valid() && EdgeAt(a.field, p) != Undecided
    ensures b.field.Valid() && EdgeAt(b.field, p) == EdgeAt(a.field, p)
  {
    if a.field.IsValidCoord(p) {
      RefinesAt(a, b, p);
    }
  }

  /**
   * The step of a loop that decides the neighbour edges of `cd` in turn:
   * the first `k` stay decided from `b` to `c`, the `k`-th is decided in
   * `c`, and `c` follows `a`.
   */
  lemma AroundStays(a: Snapshot, b: Snapshot, c: Snapshot, cd: Coord, k: nat)
    requires Follows(a, b) && Follows(b, c) && k < 4 && b.field.Valid() && c.field.Valid()
    requires forall j :: 0 <= j < k ==> EdgeAt(b.field, CoordAdd(cd, Dirs[j])) != Undecided
    requires EdgeAt(c.field, CoordAdd(cd, Dirs[k])) != Undecided
    ensures Follows(a, c)
    ensures forall j :: 0 <= j <= k ==> EdgeAt(c.field, CoordAdd(cd, Dirs[j])) != Undecided
  {
    FollowsTrans(a, b, c);
    forall j | 0 <= j < k
      ensures EdgeAt(c.field, CoordAdd(cd, Dirs[j])) != Undecided
    {
      EdgeStays(b, c, CoordAdd(cd, Dirs[j]));
    }
  }

  /** A vertex with no undecided edge around it keeps none. */
  lemma SettledStays(a: Snapshot, b: Snapshot, cd: Coord)
    requires Refines(a, b) && a.field.Valid() && |UndecidedAround(a.field, cd, 4)| == 0
    ensures b.field.Valid() && |UndecidedAround(b.field, cd, 4)| == 0
  {
    UndecidedAroundSpec(a.field, cd, 4);
    forall j | 0 <= j < 4
      ensures EdgeAt(b.field, CoordAdd(cd, Dirs[j])) != Undecided
    {
      assert CoordAdd(cd, Dirs[j]) !in UndecidedAround(a.field, cd, 4);
      EdgeStays(a, b, CoordAdd(cd, Dirs[j]));
    }
    NoneAround(b.field, cd);
  }

  /** A vertex `(2a, 2b)` of the lattice. */
  lemma VertexHalves(cd: Coord)
    requires IsVertex(cd)
    ensures cd.y == 2 * (cd.y / 2) && cd.x == 2 * (cd.x / 2)
  {
  }

  /**
   * The `k`-th neighbour of a vertex is an edge position, and when it lies
   * on the lattice the `k`-th neighbour of the vertex's cell is a cell.
   */
  lemma NeighbourEdge(h: int, w: int, cd: Coord, k: nat)
    requires IsVertex(cd) && 0 <= cd.y < 2 * h - 1 && 0 <= cd.x < 2 * w - 1 && k < 4
    ensures IsEdgePos(CoordAdd(cd, Dirs[k]))
    ensures var e := CoordAdd(cd, Dirs[k]);
      0 <= e.y < 2 * h - 1 && 0 <= e.x < 2 * w - 1 ==>
        var c := CoordAdd(CellOfVertex(cd), Dirs[k]);
        0 <= c.y < h && 0 <= c.x < w
  {
    VertexHalves(cd);
    var a, b := cd.y / 2, cd.x / 2;
    assert CellOfVertex(cd) == Coord(a, b);
    if k == 0 {
      assert CoordAdd(cd, Dirs[k]) == Coord(2 * a + 1, 2 * b);
      EdgePosOf(a, b);
    } else if k == 1 {
      assert CoordAdd(cd, Dirs[k]) == Coord(2 * a, 2 * b + 1);
      EdgePosOf(a, b);
    } else if k == 2 {
      assert CoordAdd(cd, Dirs[k]) == Coord(2 * (a - 1) + 1, 2 * b);
      EdgePosOf(a - 1, b);
    } else {
      assert CoordAdd(cd, Dirs[k]) == Coord(2 * a, 2 * (b - 1) + 1);
      EdgePosOf(a, b - 1);
    }
  }

  /** The two vertices an edge position joins lie on the lattice with it. */
  lemma EdgeVerticesOn(h: int, w: int, cd: Coord)
    requires IsEdgePos(cd) && 0 <= cd.y < 2 * h - 1 && 0 <= cd.x < 2 * w - 1 && h >= 1 && w >= 1
    ensures var (v1, v2) := EdgeVertices(cd);
      && IsVertex(v1) && 0 <= v1.y < 2 * h - 1 && 0 <= v1.x < 2 * w - 1
      && IsVertex(v2) && 0 <= v2.y < 2 * h - 1 && 0 <= v2.x < 2 * w - 1
  {
    var a, b := cd.y / 2, cd.x / 2;
    assert cd.y == 2 * a + cd.y % 2 && cd.x == 2 * b + cd.x % 2;
    Parity(a);
    Parity(a + 1);
    Parity(b);
    Parity(b + 1);
  }

  /** The cells of an edge position's two vertices are its two end cells. */
  lemma EdgeEndsCells(h: int, w: int, cd: Coord)
    requires IsEdgePos(cd) && 0 <= cd.y < 2 * h - 1 && 0 <= cd.x < 2 * w - 1
    ensures var (c1, c2) := EdgeEnds(cd);
      0 <= c1.y < h && 0 <= c1.x < w && 0 <= c2.y < h && 0 <= c2.x < w && c1 != c2
  {
    var a, b := cd.y / 2, cd.x / 2;
    assert cd.y == 2 * a + cd.y % 2 && cd.x == 2 * b + cd.x % 2;
  }

  /** The three edges the canonization rule looks at on one side of a new line. */
  function RelatedLeft(cd: Coord): seq<Coord> {
    if cd.y % 2 == 1 then [Coord(cd.y, cd.x - 2), Coord(cd.y - 1, cd.x - 1), Coord(cd.y + 1, cd.x - 1)]
    else [Coord(cd.y - 2, cd.x), Coord(cd.y - 1, cd.x - 1), Coord(cd.y - 1, cd.x + 1)]
  }

  function RelatedRight(cd: Coord): seq<Coord> {
    if cd.y % 2 == 1 then [Coord(cd.y, cd.x + 2), Coord(cd.y - 1, cd.x + 1), Coord(cd.y + 1, cd.x + 1)]
    else [Coord(cd.y + 2, cd.x), Coord(cd.y + 1, cd.x - 1), Coord(cd.y + 1, cd.x + 1)]
  }

  /** `c` lies on a lattice of `h` rows and `w` columns. */
  predicate InLattice(h: int, w: int, c: Coord) {
    0 <= c.y < h && 0 <= c.x < w
  }

  /** Three edge positions of which either all or none lie on the lattice of `h` rows and `w` columns. */
  ghost predicate Triple(h: int, w: int, t: seq<Coord>) {
    && |t| == 3
    && IsEdgePos(t[0]) && IsEdgePos(t[1]) && IsEdgePos(t[2])
    && (InLattice(h, w, t[0]) <==> InLattice(h, w, t[1]))
    && (InLattice(h, w, t[1]) <==> InLattice(h, w, t[2]))
  }

  /** `(2a + 1, 2b)` and `(2a, 2b + 1)` are edge positions. */
  lemma EdgePosOf(a: int, b: int)
    ensures IsEdgePos(Coord(2 * a + 1, 2 * b)) && IsEdgePos(Coord(2 * a, 2 * b + 1))
  {
    assert 2 * a + 1 + 2 * b == 2 * (a + b) + 1;
    assert 2 * a + (2 * b + 1) == 2 * (a + b) + 1;
  }

  /** An edge position is `(2a + 1, 2b)` or `(2a, 2b + 1)`, on a lattice of odd size. */
  lemma EdgePosHalves(f: Grid<Edge>, cd: Coord)
    requires f.Valid() && f.height % 2 == 1 && f.width % 2 == 1 && IsEdgePos(cd)
    ensures f.height == 2 * (f.height / 2) + 1 && f.width == 2 * (f.width / 2) + 1
    ensures cd.y % 2 == 1 ==> cd.y == 2 * (cd.y / 2) + 1 && cd.x == 2 * (cd.x / 2)
    ensures cd.y % 2 != 1 ==> cd.y == 2 * (cd.y / 2) && cd.x == 2 * (cd.x / 2) + 1
  {
  }

  /** The left triple of a vertical edge `(2a + 1, 2b)` on a `(2hh + 1) x (2ww + 1)` lattice. */
  lemma VerticalLeft(f: Grid<Edge>, hh: int, ww: int, a: int, b: int)
    requires f.height == 2 * hh + 1 && f.width == 2 * ww + 1 && f.IsValidCoord(Coord(2 * a + 1, 2 * b))
    ensures Triple(f.height, f.width, RelatedLeft(Coord(2 * a + 1, 2 * b)))
  {
    EdgePosOf(a, b - 1);
    EdgePosOf(a + 1, b - 1);
    Parity(a);
    assert RelatedLeft(Coord(2 * a + 1, 2 * b)) == [Coord(2 * a + 1, 2 * (b - 1)), Coord(2 * a, 2 * (b - 1) + 1), Coord(2 * (a + 1), 2 * (b - 1) + 1)];
  }

  /** The right triple of a vertical edge. */
  lemma VerticalRight(f: Grid<Edge>, hh: int, ww: int, a: int, b: int)
    requires f.height == 2 * hh + 1 && f.width == 2 * ww + 1 && f.IsValidCoord(Coord(2 * a + 1, 2 * b))
    ensures Triple(f.height, f.width, RelatedRight(Coord(2 * a + 1, 2 * b)))
  {
    EdgePosOf(a, b + 1);
    EdgePosOf(a, b);
    EdgePosOf(a + 1, b);
    Parity(a);
    assert RelatedRight(Coord(2 * a + 1, 2 * b)) == [Coord(2 * a + 1, 2 * (b + 1)), Coord(2 * a, 2 * b + 1), Coord(2 * (a + 1), 2 * b + 1)];
  }

  /** The left triple of a horizontal edge `(2a, 2b + 1)`. */
  lemma HorizontalLeft(f: Grid<Edge>, hh: int, ww: int, a: int, b: int)
    requires f.height == 2 * hh + 1 && f.width == 2 * ww + 1 && f.IsValidCoord(Coord(2 * a, 2 * b + 1))
    ensures Triple(f.height, f.width, RelatedLeft(Coord(2 * a, 2 * b + 1)))
  {
    EdgePosOf(a - 1, b);
    EdgePosOf(a - 1, b + 1);
    Parity(a);
    assert RelatedLeft(Coord(2 * a, 2 * b + 1)) == [Coord(2 * (a - 1), 2 * b + 1), Coord(2 * (a - 1) + 1, 2 * b), Coord(2 * (a - 1) + 1, 2 * (b + 1))];
  }

  /** The right triple of a horizontal edge. */
  lemma HorizontalRight(f: Grid<Edge>, hh: int, ww: int, a: int, b: int)
    requires f.height == 2 * hh + 1 && f.width == 2 * ww + 1 && f.IsValidCoord(Coord(2 * a, 2 * b + 1))
    ensures Triple(f.height, f.width, RelatedRight(Coord(2 * a, 2 * b + 1)))
  {
    EdgePosOf(a + 1, b);
    EdgePosOf(a, b);
    EdgePosOf(a, b + 1);
    Parity(a);
    assert RelatedRight(Coord(2 * a, 2 * b + 1)) == [Coord(2 * (a + 1), 2 * b + 1), Coord(2 * a + 1, 2 * b), Coord(2 * a + 1, 2 * (b + 1))];
  }

  lemma Parity(k: int)
    ensures (2 * k + 1) % 2 == 1 && (2 * k) % 2 == 0
  {
  }

  /** `RelatedTriples` on the lattice of a board of `h` by `w` cells. */
  lemma LatticeTriples(f: Grid<Edge>, h: int, w: int, cd: Coord)
    requires Shaped(f, 2 * h - 1, 2 * w - 1) && f.IsValidCoord(cd) && IsEdgePos(cd)
    ensures Triple(2 * h - 1, 2 * w - 1, RelatedLeft(cd)) && Triple(2 * h - 1, 2 * w - 1, RelatedRight(cd))
  {
    RelatedTriples(f, cd);
  }

  /** The related edges on either side of an edge position form triples. */
  lemma RelatedTriples(f: Grid<Edge>, cd: Coord)
    requires f.Valid() && f.height % 2 == 1 && f.width % 2 == 1 && f.IsValidCoord(cd) && IsEdgePos(cd)
    ensures Triple(f.height, f.width, RelatedLeft(cd)) && Triple(f.height, f.width, RelatedRight(cd))
  {
    EdgePosHalves(f, cd);
    if cd.y % 2 == 1 {
      VerticalLeft(f, f.height / 2, f.width / 2, cd.y / 2, cd.x / 2);
      VerticalRight(f, f.height / 2, f.width / 2, cd.y / 2, cd.x / 2);
    } else {
      HorizontalLeft(f, f.height / 2, f.width / 2, cd.y / 2, cd.x / 2);
      HorizontalRight(f, f.height / 2, f.width / 2, cd.y / 2, cd.x / 2);
    }
  }

  /** The cells whose vertices an edge position joins. */
  function EdgeEnds(cd: Coord): (Coord, Coord) {
    (Coord(cd.y / 2, cd.x / 2), Coord((cd.y + 1) / 2, (cd.x + 1) / 2))
  }

  /** The two vertices an edge position joins, as lattice positions. */
  function EdgeVertices(cd: Coord): (Coord, Coord) {
    if cd.y % 2 == 1 then (Coord(cd.y - 1, cd.x), Coord(cd.y + 1, cd.x))
    else (Coord(cd.y, cd.x - 1), Coord(cd.y, cd.x + 1))
  }

  /** 1 when the vertex `v` is a line end (one line, nothing undecided), else 0. */
  function LineEnd(f: Grid<Edge>, v: Coord): int
    requires f.Valid()
  {
    if Degree(f, v) == (1, 0) then 1 else 0
  }

  /** `Summary` of a list: none, its only element, or several. */
  function Summarize(s: seq<Coord>): (r: Cnt)
    ensures r == None <==> |s| == 0
    ensures r.One? <==> |s| == 1
    ensures r == Many <==> |s| >= 2
  {
    if |s| == 0 then None else if |s| == 1 then One(s[0]) else Many
  }

  /** Looking at more neighbours never shortens the undecided list. */
  lemma {:induction false} UndecidedGrows(f: Grid<Edge>, cd: Coord, k: nat, m: nat)
    requires f.Valid() && k <= m <= 4
    ensures |UndecidedAround(f, cd, k)| <= |UndecidedAround(f, cd, m)|
    ensures UndecidedAround(f, cd, m)[..|UndecidedAround(f, cd, k)|] == UndecidedAround(f, cd, k)
    decreases m
  {
    if k < m {
      UndecidedGrows(f, cd, k, m - 1);
      var s := UndecidedAround(f, cd, m - 1);
      var n := |UndecidedAround(f, cd, k)|;
      assert UndecidedAround(f, cd, m)[..n] == s[..n];
    }
  }

  /** Cell `m` holds `v`, or the field is flagged. */
  ghost predicate HasConstraint(s: Snapshot, m: Coord, v: Endpoint) {
    s.invalid || (s.constraint.Valid() && s.constraint.IsValidCoord(m) && s.constraint.Get(m) == v)
  }

  /** Edge `p` is `e`, or the field is flagged. */
  ghost predicate HasEdge(s: Snapshot, p: Coord, e: Edge) {
    s.invalid || (s.field.Valid() && EdgeAt(s.field, p) == e)
  }

  /** A constraint other than `Any`, or the flag, survives propagation. */
  lemma HasConstraintStays(a: Snapshot, b: Snapshot, m: Coord, v: Endpoint)
    requires Follows(a, b) && v != Any && HasConstraint(a, m, v)
    ensures HasConstraint(b, m, v)
  {
    if !a.invalid {
      RefinesConstraintAt(a, b, m);
    }
  }

  /** The images of the rotation rule: the quarter turn, else the half turn. */
  ghost predicate TurnDone(s: Snapshot, c: Coord, v: Endpoint, h: int, w: int, sym: CliNlGenerator.Symmetry) {
    && (sym.tetrad ==> HasConstraint(s, Coord(c.x, w - 1 - c.y), v))
    && (!sym.tetrad && sym.dyad ==> HasConstraint(s, Coord(h - 1 - c.y, w - 1 - c.x), v))
  }

  /** The rotation images set in `b` survive into `c`, and `c` follows `a`. */
  lemma TurnStays(a: Snapshot, b: Snapshot, c: Snapshot, m: Coord, v: Endpoint, h: int, w: int,
                  sym: CliNlGenerator.Symmetry)
    requires Follows(a, b) && Follows(b, c) && v != Any && TurnDone(b, m, v, h, w, sym)
    ensures Follows(a, c) && TurnDone(c, m, v, h, w, sym)
  {
    FollowsTrans(a, b, c);
    if sym.tetrad {
      HasConstraintStays(b, c, Coord(m.x, w - 1 - m.y), v);
    } else if sym.dyad {
      HasConstraintStays(b, c, Coord(h - 1 - m.y, w - 1 - m.x), v);
    }
  }

  /** A decided edge, or the flag, survives propagation. */
  lemma HasEdgeStays(a: Snapshot, b: Snapshot, p: Coord, e: Edge)
    requires Follows(a, b) && e != Undecided && HasEdge(a, p, e)
    ensures HasEdge(b, p, e)
  {
    if !a.invalid {
      EdgeStays(a, b, p);
    }
  }

  /** `(i + 1) % 3` for `0 <= i < 3`. */
  function Next3(i: int): int {
    if i == 2 then 0 else i + 1
  }

  /** A line among a triple lies on the lattice, and so do the other two. */
  lemma TripleOthers(f: Grid<Edge>, t: seq<Coord>, i: int)
    requires f.Valid() && Triple(f.height, f.width, t) && 0 <= i < 3 && EdgeAt(f, t[i]) == Line
    ensures IsEdgePos(t[Next3(i)]) && f.IsValidCoord(t[Next3(i)])
    ensures IsEdgePos(t[Next3(Next3(i))]) && f.IsValidCoord(t[Next3(Next3(i))])
  {
  }

  /** The canonization rule has run for the `i`-th edge of `t`: the other two are blank. */
  ghost predicate Cleared(s: Snapshot, t: seq<Coord>, i: nat)
    requires |t| == 3 && i < 3
  {
    HasEdge(s, t[Next3(i)], Blank) && HasEdge(s, t[Next3(Next3(i))], Blank)
  }

  /** The canonization rule has run for the first `n` edges of `t` that were lines in `before`. */
  ghost predicate ClearedUpTo(s: Snapshot, before: Grid<Edge>, t: seq<Coord>, n: int)
    requires |t| == 3 && n <= 3 && before.Valid()
  {
    forall j :: 0 <= j < n && EdgeAt(before, t[j]) == Line ==> Cleared(s, t, j)
  }

  /** One turn of the canonization loop, from `b` to `c`, extends what holds since `a`. */
  lemma CanonizeStep(a: Snapshot, b: Snapshot, c: Snapshot, t: seq<Coord>, i: int)
    requires Follows(a, b) && Follows(b, c) && a.field.Valid() && b.field.Valid() && |t| == 3 && 0 <= i < 3
    requires ClearedUpTo(b, a.field, t, i)
    requires EdgeAt(b.field, t[i]) == Line ==> Cleared(c, t, i)
    ensures Follows(a, c) && ClearedUpTo(c, a.field, t, i + 1)
  {
    FollowsTrans(a, b, c);
    forall j | 0 <= j < i && EdgeAt(a.field, t[j]) == Line
      ensures Cleared(c, t, j)
    {
      ClearedStays(b, c, t, j);
    }
    if EdgeAt(a.field, t[i]) == Line {
      EdgeStays(a, b, t[i]);
    }
  }

  lemma ClearedStays(a: Snapshot, b: Snapshot, t: seq<Coord>, i: nat)
    requires |t| == 3 && i < 3 && Follows(a, b) && Cleared(a, t, i)
    ensures Cleared(b, t, i)
  {
    HasEdgeStays(a, b, t[Next3(i)], Blank);
    HasEdgeStays(a, b, t[Next3(Next3(i))], Blank);
  }

  /** An undecided neighbour of a lattice vertex is an undecided edge position on the lattice. */
  lemma UndecidedEdge(h: int, w: int, f: Grid<Edge>, cd: Coord, e: Coord)
    requires Shaped(f, 2 * h - 1, 2 * w - 1) && IsVertex(cd) && 0 <= cd.y < 2 * h - 1 && 0 <= cd.x < 2 * w - 1
    requires e in UndecidedAround(f, cd, 4)
    ensures f.IsValidCoord(e) && IsEdgePos(e) && f.Get(e) == Undecided
  {
    UndecidedAroundSpec(f, cd, 4);
    var k :| 0 <= k < 4 && e == CoordAdd(cd, Dirs[k]) && EdgeAt(f, e) == Undecided;
    NeighbourEdge(h, w, cd, k);
  }

  /** The vertex `(2y, 2x)` of a cell `(y, x)` lies on the lattice. */
  lemma CellVertex(h: int, w: int, c: Coord)
    requires 0 <= c.y < h && 0 <= c.x < w
    ensures var v := Coord(2 * c.y, 2 * c.x);
      IsVertex(v) && 0 <= v.y < 2 * h - 1 && 0 <= v.x < 2 * w - 1 && CellOfVertex(v) == c
  {
    Parity(c.y);
    Parity(c.x);
  }

  /** A line at edge position `cd` would join the two ends of one chain. */
  ghost predicate ClosesLoop(union: Grid<nat>, cd: Coord) {
    var (c1, c2) := EdgeEnds(cd);
    union.Valid() && union.IsValidCoord(c1) && union.IsValidCoord(c2) && union.Get(c1) == union.Index(c2)
  }

  /** The canonization rule has run in `s` for every edge of `t` that is a line in `before`. */
  ghost predicate CanonizedAt(s: Snapshot, before: Grid<Edge>, t: seq<Coord>) {
    && |t| == 3 && before.Valid()
    && forall i :: 0 <= i < 3 && EdgeAt(before, t[i]) == Line ==> Cleared(s, t, i)
  }

  lemma CanonizedFlagged(s: Snapshot, before: Grid<Edge>, t: seq<Coord>)
    requires s.invalid && |t| == 3 && before.Valid()
    ensures CanonizedAt(s, before, t)
  {
  }

  /** Both canonization triples of `cd`, done between `s3` and `s4`, stated against the earlier `s0`. */
  lemma CanonizedBoth(s0: Snapshot, s3: Snapshot, s4: Snapshot, cd: Coord)
    requires Follows(s0, s3) && Follows(s3, s4) && s0.field.Valid() && s3.field.Valid()
    requires s3.field.IsValidCoord(cd) && s3.field.Get(cd) != Undecided
    requires CanonizedAt(s4, s3.field, RelatedLeft(cd)) && CanonizedAt(s4, s3.field, RelatedRight(cd))
    ensures Follows(s0, s4) && s4.field.IsValidCoord(cd) && s4.field.Get(cd) == s3.field.Get(cd)
    ensures CanonizedAt(s4, s0.field, RelatedLeft(cd)) && CanonizedAt(s4, s0.field, RelatedRight(cd))
  {
    FollowsTrans(s0, s3, s4);
    CanonizedEarlier(s4, s0, s3, RelatedLeft(cd));
    CanonizedEarlier(s4, s0, s3, RelatedRight(cd));
    RefinesAt(s3, s4, cd);
  }

  /** What holds after a later state holds after an earlier one too, since lines stay lines. */
  lemma CanonizedEarlier(s: Snapshot, a: Snapshot, b: Snapshot, t: seq<Coord>)
    requires Refines(a, b) && a.field.Valid() && CanonizedAt(s, b.field, t)
    ensures CanonizedAt(s, a.field, t)
  {
    forall i | 0 <= i < 3 && EdgeAt(a.field, t[i]) == Line
      ensures Cleared(s, t, i)
    {
      EdgeStays(a, b, t[i]);
    }
  }

  lemma CanonizedLater(a: Snapshot, b: Snapshot, before: Grid<Edge>, t: seq<Coord>)
    requires Follows(a, b) && CanonizedAt(a, before, t)
    ensures CanonizedAt(b, before, t)
  {
    forall i | 0 <= i < 3 && EdgeAt(before, t[i]) == Line
      ensures Cleared(b, t, i)
    {
      ClearedStays(a, b, t, i);
    }
  }

  /** The triple `l` canonized from `a` to `b`, then `r` from `b` to `c`: both hold at `c` against `a`. */
  lemma CanonizedSides(a: Snapshot, b: Snapshot, c: Snapshot, l: seq<Coord>, r: seq<Coord>)
    requires Follows(a, b) && Follows(b, c) && a.field.Valid()
    requires CanonizedAt(b, a.field, l) && CanonizedAt(c, b.field, r)
    ensures Follows(a, c) && CanonizedAt(c, a.field, l) && CanonizedAt(c, a.field, r)
  {
    FollowsTrans(a, b, c);
    CanonizedLater(b, c, a.field, l);
    CanonizedEarlier(c, a, b, r);
  }

  /** The blocks `extend_chain` placed between `a` and `b` stay until `c`. */
  lemma BlockedStays(a: Snapshot, b: Snapshot, c: Snapshot, e1: Coord, e2: Coord, block1: bool, block2: bool)
    requires Follows(a, b) && Follows(b, c)
    requires block1 ==> HasConstraint(b, e2, Prohibited)
    requires block2 ==> HasConstraint(b, e1, Prohibited)
    ensures Follows(a, c)
    ensures block1 ==> HasConstraint(c, e2, Prohibited)
    ensures block2 ==> HasConstraint(c, e1, Prohibited)
  {
    FollowsTrans(a, b, c);
    if block1 {
      HasConstraintStays(b, c, e2, Prohibited);
    }
    if block2 {
      HasConstraintStays(b, c, e1, Prohibited);
    }
  }

  /** The constraint the endpoint rules gave the cell at `b`, kept through the later rules up to `c`. */
  lemma EndpointStays(a: Snapshot, b: Snapshot, c: Snapshot, cell: Coord, lineEnd: bool, through: bool)
    requires Follows(a, b) && Follows(b, c)
    requires lineEnd ==> HasConstraint(b, cell, Forced)
    requires through ==> HasConstraint(b, cell, Prohibited)
    ensures Follows(a, c)
    ensures lineEnd ==> HasConstraint(c, cell, Forced)
    ensures through ==> HasConstraint(c, cell, Prohibited)
  {
    FollowsTrans(a, b, c);
    if lineEnd {
      HasConstraintStays(b, c, cell, Forced);
    }
    if through {
      HasConstraintStays(b, c, cell, Prohibited);
    }
  }

  /** `u1` is `u0` with `a1` and `a2` made each other's other end. */
  ghost predicate Swapped(u0: seq<nat>, u1: seq<nat>, a1: nat, a2: nat) {
    a1 < |u0| && a2 < |u0| && u1 == u0[a1 := a2][a2 := a1]
  }

  /** `l1` is `l0` with `a1` and `a2` both given length `len`. */
  ghost predicate Lengthened(l0: seq<int>, l1: seq<int>, a1: nat, a2: nat, len: int) {
    a1 < |l0| && a2 < |l0| && l1 == l0[a1 := len][a2 := len]
  }

  /** `n` is one of the eight cells around `c`. */
  predicate Near(c: Coord, n: Coord) {
    n != c && -1 <= n.y - c.y <= 1 && -1 <= n.x - c.x <= 1
  }

  /**
   * Every cell of an `h` by `w` board around `c` that the row-major scan
   * from `(c.y - 1, c.x - 1)` has passed before `(c.y + dy, c.x + dx)` is
   * `Prohibited` in `s`.
   */
  ghost predicate NearProhibited(s: Snapshot, h: int, w: int, c: Coord, dy: int, dx: int) {
    forall n :: InLattice(h, w, n) && Near(c, n) && (n.y - c.y < dy || (n.y - c.y == dy && n.x - c.x < dx)) ==>
      HasConstraint(s, n, Prohibited)
  }

  /** One cell of the scan: `(c.y + dy, c.x + dx)` made `Prohibited` between `b` and `d`. */
  lemma NearStep(a: Snapshot, b: Snapshot, d: Snapshot, h: int, w: int, c: Coord, dy: int, dx: int)
    requires Follows(a, b) && Follows(b, d) && NearProhibited(b, h, w, c, dy, dx)
    requires var m := Coord(c.y + dy, c.x + dx); m != c && InLattice(h, w, m) ==> HasConstraint(d, m, Prohibited)
    ensures Follows(a, d) && NearProhibited(d, h, w, c, dy, dx + 1)
  {
    FollowsTrans(a, b, d);
    forall n | InLattice(h, w, n) && Near(c, n) && (n.y - c.y < dy || (n.y - c.y == dy && n.x - c.x < dx))
      ensures HasConstraint(d, n, Prohibited)
    {
      HasConstraintStays(b, d, n, Prohibited);
    }
  }

  /** A finished row of the scan. */
  lemma NearRow(s: Snapshot, h: int, w: int, c: Coord, dy: int)
    requires NearProhibited(s, h, w, c, dy, 2)
    ensures NearProhibited(s, h, w, c, dy + 1, -1)
  {
  }

  /** A lattice vertex `(2y, 2x)` stands for the cell `(y, x)` of the board. */
  lemma VertexCell(h: int, w: int, cd: Coord)
    requires IsVertex(cd) && 0 <= cd.y < 2 * h - 1 && 0 <= cd.x < 2 * w - 1
    ensures var c := CellOfVertex(cd); 0 <= c.y < h && 0 <= c.x < w && cd == Coord(2 * c.y, 2 * c.x)
  {
  }

  /** The vertex `(2y, 2x)` stands for the cell `(y, x)`. */
  lemma CellOfDouble(y: int, x: int)
    ensures CellOfVertex(Coord(2 * y, 2 * x)) == Coord(y, x)
  {
  }

  /** Cell `c` holds `Forced` or `Prohibited`, or the field is flagged. */
  ghost predicate NotAny(s: Snapshot, c: Coord) {
    s.invalid || (s.constraint.Valid() && s.constraint.IsValidCoord(c) && s.constraint.Get(c) != Any)
  }

  /** Every cell of an `h` by `w` board that the row-major scan has passed before `(y, x)` is `NotAny` in `s`. */
  ghost predicate NoAnyBefore(s: Snapshot, h: int, w: int, y: int, x: int) {
    forall c :: InLattice(h, w, c) && (c.y < y || (c.y == y && c.x < x)) ==> NotAny(s, c)
  }

  /** A cell that is no longer `Any`, or the flag, stays so under propagation. */
  lemma NotAnyStays(a: Snapshot, b: Snapshot, c: Coord)
    requires Follows(a, b) && NotAny(a, c)
    ensures NotAny(b, c)
  {
    if !a.invalid {
      RefinesConstraintAt(a, b, c);
    }
  }

  /** The scan passes `(y, x)`, which is settled in `d`. */
  lemma NoAnyStep(a: Snapshot, b: Snapshot, d: Snapshot, h: int, w: int, y: int, x: int)
    requires Follows(a, b) && Follows(b, d) && NoAnyBefore(b, h, w, y, x)
    requires InLattice(h, w, Coord(y, x)) ==> NotAny(d, Coord(y, x))
    ensures Follows(a, d) && NoAnyBefore(d, h, w, y, x + 1)
  {
    FollowsTrans(a, b, d);
    forall c | InLattice(h, w, c) && (c.y < y || (c.y == y && c.x < x))
      ensures NotAny(d, c)
    {
      NotAnyStays(b, d, c);
    }
  }

  /** The scan settles a whole board, and the board stays settled. */
  lemma NoAnyKept(a: Snapshot, b: Snapshot, h: int, w: int)
    requires Follows(a, b) && NoAnyBefore(a, h, w, h, 0)
    ensures NoAnyBefore(b, h, w, h, 0)
  {
    forall c | InLattice(h, w, c)
      ensures NotAny(b, c)
    {
      NotAnyStays(a, b, c);
    }
  }

  class AnswerField {
    const height: int
    const width: int
    /** For the end cell of a chain, the cell at its other end. */
    var chainUnion: Grid<nat>
    /** The union-find table of cells joined by lines. */
    var chainConnectivity: Grid<int>
    /** For the end cell of a chain, the number of its edges. */
    var chainLength: Grid<int>
    var field: Grid<Edge>
    /** The slot of a seed vertex in `seeds`, -1 for any other position. */
    var seedIdx: Grid<int>
    var seeds: seq<Coord>
    var seedCount: int
    var endpointConstraint: Grid<Endpoint>
    /** A running count of line ends seen by `decide_int`; nothing reads it back. */
    var endpoints: int
    var endpointForcedCells: int
    var chainThreshold: int
    var forbidAdjacentClue: bool
    var symmetry: CliNlGenerator.Symmetry
    var invalid: bool
    const searchQueue: FiniteSearchQueue
    /** The root of every union-find entry, and its distance from it. */
    ghost var ufRoot: seq<nat>
    ghost var ufDepth: seq<nat>

    ghost function St(): State
      reads this
    {
      State(chainUnion, chainConnectivity, chainLength, field, seedIdx, seeds, seedCount,
            endpointConstraint, endpoints, endpointForcedCells, chainThreshold, forbidAdjacentClue,
            symmetry, invalid, ufRoot, ufDepth)
    }

    ghost function Snap(): Snapshot
      reads this`field, this`endpointConstraint, this`invalid, this`chainThreshold, this`forbidAdjacentClue, this`symmetry
      reads searchQueue
    {
      Snapshot(field, endpointConstraint, invalid, searchQueue.isStarted, |searchQueue.Contents|,
               Options(chainThreshold, forbidAdjacentClue, symmetry))
    }

    ghost predicate Valid()
      reads this`chainUnion, this`chainConnectivity, this`chainLength, this`field, this`seedIdx, this`seeds
      reads this`seedCount, this`endpointConstraint, this`endpointForcedCells, this`symmetry, this`ufRoot, this`ufDepth
      reads searchQueue
    {
      && height >= 2 && width >= 2
      && Shaped(chainUnion, height, width) && Shaped(chainConnectivity, height, width)
      && Shaped(chainLength, height, width) && Shaped(endpointConstraint, height, width)
      && Shaped(field, 2 * height - 1, 2 * width - 1) && Shaped(seedIdx, 2 * height - 1, 2 * width - 1)
      && |seeds| == height * width
      && (forall i :: 0 <= i < |chainUnion.data| ==> chainUnion.data[i] < height * width)
      && UnionFind(chainConnectivity.data, ufRoot, ufDepth)
      && SeedList(seedIdx, seeds, seedCount)
      && endpointForcedCells == multiset(endpointConstraint.data)[Forced]
      && searchQueue.Valid() && |searchQueue.stored| == height * width
      && (!searchQueue.isStarted ==> searchQueue.Contents == [])
      && (symmetry.tetrad ==> height == width)
    }

    /** The cells of the board, and the vertices of the lattice. */
    predicate IsCell(c: Coord) {
      0 <= c.y < height && 0 <= c.x < width
    }

    ghost predicate IsLatticeVertex(cd: Coord) reads this {
      IsVertex(cd) && 0 <= cd.y < 2 * height - 1 && 0 <= cd.x < 2 * width - 1
    }

    /** `root`: the representative of the set holding `x`. */
    function Root(x: nat): (r: nat)
      reads this
      requires UnionFind(chainConnectivity.data, ufRoot, ufDepth) && x < |chainConnectivity.data|
      ensures r == ufRoot[x]
      decreases ufDepth[x]
    {
      if chainConnectivity.data[x] < 0 then x
      else
        ParentStep(chainConnectivity.data, ufRoot, ufDepth, x);
        Root(chainConnectivity.data[x])
    }

    /** `root_from_coord`: the representative of the set holding cell `c`. */
    function RootFromCoord(c: Coord): (r: nat)
      reads this
      requires UnionFind(chainConnectivity.data, ufRoot, ufDepth) && Shaped(chainConnectivity, height, width) && IsCell(c)
    {
      chainConnectivity.IndexInRange(c);
      Root(chainConnectivity.Index(c))
    }

    /** `has_seed`. */
    function HasSeed(): (b: bool)
      reads this
      requires 0 <= seedCount <= |seeds|
      ensures b <==> SeedSet(seeds, seedCount) != {}
    {
      assert seedCount > 0 ==> seeds[0] in SeedSet(seeds, seedCount);
      seedCount != 0
    }

    /**
     * `new`: every edge undecided, every cell its own chain of length 0 in
     * a singleton set, the given endpoint constraints (all `Any` when none
     * is given) with their `Forced` cells counted, and the four corner
     * vertices as seeds.
     */
    constructor (h: int, w: int, opt: GeneratorOption)
      requires h >= 2 && w >= 2
      requires opt.endpointConstraint.Some? ==> Shaped(opt.endpointConstraint.value, h, w)
      requires opt.symmetry.tetrad ==> h == w
      ensures Valid() && fresh(searchQueue) && !searchQueue.isStarted && !invalid
      ensures height == h && width == w
      ensures forall i :: 0 <= i < |field.data| ==> field.data[i] == Undecided
      ensures forall i :: 0 <= i < h * w ==> chainUnion.data[i] == i && chainLength.data[i] == 0
      ensures forall i :: 0 <= i < h * w ==> chainConnectivity.data[i] == -1 && ufRoot[i] == i
      ensures endpointConstraint == if opt.endpointConstraint.Some? then opt.endpointConstraint.value else NewGrid(h, w, Any)
      ensures endpointForcedCells == multiset(endpointConstraint.data)[Forced]
      ensures seedCount == 4
      ensures SeedSet(seeds, seedCount) == {Coord(0, 0), Coord(0, 2 * w - 2), Coord(2 * h - 2, 0), Coord(2 * h - 2, 2 * w - 2)}
      ensures chainThreshold == opt.chainThreshold && forbidAdjacentClue == opt.forbidAdjacentClue
      ensures symmetry == opt.symmetry
    {
      var n := h * w;
      Offset(h, w, 1, 1);
      var ec := if opt.endpointConstraint.Some? then opt.endpointConstraint.value else NewGrid(h, w, Any);
      var union, forced := InitialChains(n, ec.data);
      var si, ss := CornerSeedIdx(h, w), CornerSeedList(h, w);
      CornerSeeds(h, w);

      height := h;
      width := w;
      chainUnion := Grid(h, w, union);
      chainConnectivity := NewGrid(h, w, -1);
      chainLength := NewGrid(h, w, 0);
      field := NewGrid(2 * h - 1, 2 * w - 1, Undecided);
      seedIdx := si;
      seeds := ss;
      seedCount := 4;
      endpointConstraint := ec;
      endpoints := 0;
      endpointForcedCells := forced;
      chainThreshold := opt.chainThreshold;
      forbidAdjacentClue := opt.forbidAdjacentClue;
      symmetry := opt.symmetry;
      invalid := false;
      searchQueue := new FiniteSearchQueue(n);
      ufRoot := seq(n, i => i);
      ufDepth := seq(n, _ => 0);
      SingletonSets(n);
      new;
      assert chainConnectivity.data == seq(n, _ => -1);
    }

    /** `root_mut`: the representative of `x`, with `x`'s path pointed straight at it; no set changes. */
    method RootMut(x: nat) returns (r: nat)
      requires UnionFind(chainConnectivity.data, ufRoot, ufDepth) && x < |chainConnectivity.data|
      modifies this
      ensures St() == old(St()).(chainConnectivity := chainConnectivity)
      ensures chainConnectivity.height == old(chainConnectivity.height) && chainConnectivity.width == old(chainConnectivity.width)
      ensures |chainConnectivity.data| == old(|chainConnectivity.data|)
      ensures UnionFind(chainConnectivity.data, ufRoot, ufDepth)
      ensures r == ufRoot[x] && r == Root(x)
      ensures forall i :: 0 <= i < |chainConnectivity.data| && old(chainConnectivity.data[i]) < 0 ==>
                chainConnectivity.data[i] == old(chainConnectivity.data[i])
      decreases ufDepth[x]
    {
      if chainConnectivity.data[x] < 0 {
        r := x;
      } else {
        ParentStep(chainConnectivity.data, ufRoot, ufDepth, x);
        var parent := chainConnectivity.data[x];
        r := RootMut(parent);
        Compress(chainConnectivity.data, ufRoot, ufDepth, x);
        chainConnectivity := chainConnectivity.(data := chainConnectivity.data[x := r]);
      }
    }

    /** `count_neighbor`: the lines and the undecided edges around `cd`. */
    method CountNeighbor(cd: Coord) returns (line: int, undecided: int)
      requires field.Valid()
      ensures (line, undecided) == Degree(field, cd)
    {
      line, undecided := 0, 0;
      for k := 0 to 4
        invariant line == LinesAround(field, cd, k) && undecided == |UndecidedAround(field, cd, k)|
      {
        var e := EdgeAt(field, CoordAdd(cd, Dirs[k]));
        if e == Line {
          line := line + 1;
        } else if e == Undecided {
          undecided := undecided + 1;
        }
      }
    }

    /** `undecided_neighbors`: the undecided edges around `cd`, in neighbour order. */
    method UndecidedNeighbors(cd: Coord) returns (r: seq<Coord>)
      requires field.Valid()
      ensures r == UndecidedAround(field, cd, 4)
    {
      r := [];
      for k := 0 to 4
        invariant r == UndecidedAround(field, cd, k)
      {
        var cd2 := CoordAdd(cd, Dirs[k]);
        if EdgeAt(field, cd2) == Undecided {
          r := r + [cd2];
        }
      }
    }

    /** `undecided_neighbors_summary`: none, the only, or several undecided edges around `cd`. */
    method UndecidedNeighborsSummary(cd: Coord) returns (r: Cnt)
      requires field.Valid()
      ensures r == Summarize(UndecidedAround(field, cd, 4))
    {
      r := None;
      for k := 0 to 4
        invariant r == Summarize(UndecidedAround(field, cd, k))
      {
        var cd2 := CoordAdd(cd, Dirs[k]);
        if EdgeAt(field, cd2) == Undecided {
          if r == None {
            r := One(cd2);
          } else {
            UndecidedGrows(field, cd, k + 1, 4);
            return Many;
          }
        }
      }
    }

    /** `is_seed`. */
    method IsSeed(cd: Coord) returns (b: bool)
      requires field.Valid()
      ensures b == SeedAt(field, cd)
    {
      var line, undecided := CountNeighbor(cd);
      b := (line == 0 && undecided == 2) || (line == 1 && undecided > 0);
    }

    /**
     * `copy_from`: every field but the queue takes `src`'s value; of the
     * seed list only the listed prefix is copied, the rest stays.
     */
    method CopyFrom(src: AnswerField)
      requires Valid() && src.Valid() && src != this && src.height == height && src.width == width
      modifies this
      ensures St() == src.St().(seeds := src.seeds[..src.seedCount] + old(seeds[src.seedCount..]))
      ensures SeedSet(seeds, seedCount) == SeedSet(src.seeds, src.seedCount)
      ensures Valid()
    {
      CopyChains(src);
      CopyBoard(src);
      CopyConstraints(src);
      CopyOptions(src);
      SeedListPrefix(seedIdx, src.seeds, seeds, seedCount);
    }

    /** The chain tables of `copy_from`. */
    method CopyChains(src: AnswerField)
      requires src != this
      modifies this
      ensures St() == old(St()).(chainUnion := src.chainUnion, chainConnectivity := src.chainConnectivity,
                                 chainLength := src.chainLength, ufRoot := src.ufRoot, ufDepth := src.ufDepth)
    {
      chainUnion := src.chainUnion;
      chainConnectivity := src.chainConnectivity;
      chainLength := src.chainLength;
      ufRoot := src.ufRoot;
      ufDepth := src.ufDepth;
    }

    /** The edges and the seed list of `copy_from`. */
    method CopyBoard(src: AnswerField)
      requires src != this && 0 <= src.seedCount <= |src.seeds| == |seeds|
      modifies this
      ensures St() == old(St()).(field := src.field, seedIdx := src.seedIdx, seedCount := src.seedCount,
                                 seeds := src.seeds[..src.seedCount] + old(seeds[src.seedCount..]))
    {
      field := src.field;
      seedIdx := src.seedIdx;
      seeds := src.seeds[..src.seedCount] + seeds[src.seedCount..];
      seedCount := src.seedCount;
    }

    /** The endpoint constraints and counters of `copy_from`. */
    method CopyConstraints(src: AnswerField)
      requires src != this
      modifies this
      ensures St() == old(St()).(endpointConstraint := src.endpointConstraint, endpoints := src.endpoints,
                                 endpointForcedCells := src.endpointForcedCells)
    {
      endpointConstraint := src.endpointConstraint;
      endpoints := src.endpoints;
      endpointForcedCells := src.endpointForcedCells;
    }

    /** The options and the flag of `copy_from`. */
    method CopyOptions(src: AnswerField)
      requires src != this
      modifies this
      ensures St() == old(St()).(chainThreshold := src.chainThreshold, forbidAdjacentClue := src.forbidAdjacentClue,
                                 symmetry := src.symmetry, invalid := src.invalid)
    {
      chainThreshold := src.chainThreshold;
      forbidAdjacentClue := src.forbidAdjacentClue;
      symmetry := src.symmetry;
      invalid := src.invalid;
    }

    /** `inspect`: queues the cell of vertex `cd`, and changes nothing else. */
    method Inspect(cd: Coord)
      requires Valid() && searchQueue.isStarted && IsLatticeVertex(cd)
      modifies searchQueue
      ensures Valid() && searchQueue.isStarted && Snap() == old(Snap()).(queued := |searchQueue.Contents|)
      ensures var v := CellId(width, CellOfVertex(cd));
        searchQueue.Contents == if v in old(searchQueue.Contents) then old(searchQueue.Contents) else old(searchQueue.Contents) + [v]
      ensures |searchQueue.Contents| <= old(|searchQueue.Contents|) + 1
    {
      CellIdRange(height, width, CellOfVertex(cd));
      searchQueue.Push(CellId(width, CellOfVertex(cd)));
    }

    /**
     * The write shared by the endpoint rules: an `Any` cell takes `c`, and
     * the `Forced` cells are counted again when `c` is `Forced`.
     */
    method Constrain(cd: Coord, c: Endpoint)
      requires Valid() && IsCell(cd) && endpointConstraint.Get(cd) == Any && c != Any
      modifies this
      ensures Valid() && Snap() == old(Snap()).(constraint := old(endpointConstraint).Set(cd, c))
      ensures Follows(old(Snap()), Snap()) && Measure(Snap()) + 3 == Measure(old(Snap()))
      ensures endpointConstraint.Get(cd) == c
    {
      ConstrainLowers(field, endpointConstraint, cd, c);
      ConstrainFollows(Snap(), Snap().(constraint := endpointConstraint.Set(cd, c)), cd, c);
      endpointConstraint := endpointConstraint.Set(cd, c);
      if c == Forced {
        endpointForcedCells := endpointForcedCells + 1;
      }
    }

    /**
     * `update_endpoint_constraint_int` on cell `cd`: an `Any` cell takes
     * `c` (counted when `Forced`) and its vertex is queued; a cell that
     * already holds `c` stays; any other value flags the field.
     */
    method UpdateEndpointConstraintInt(cd: Coord, c: Endpoint)
      requires Valid() && searchQueue.isStarted && IsCell(cd) && c != Any
      modifies this, searchQueue
      ensures Valid() && searchQueue.isStarted && Follows(old(Snap()), Snap()) && field == old(field)
      ensures endpointConstraint.Get(cd) == c || invalid
      ensures old(endpointConstraint.Get(cd)) != Any ==>
                Snap() == old(Snap()).(invalid := old(invalid) || old(endpointConstraint.Get(cd)) != c)
    {
      if endpointConstraint.Get(cd) == Any {
        ConstrainQueued(cd, c);
      } else if endpointConstraint.Get(cd) != c {
        invalid := true;
      }
    }

    /** An `Any` cell takes `c`, and its vertex is queued. */
    method ConstrainQueued(cd: Coord, c: Endpoint)
      requires Valid() && searchQueue.isStarted && IsCell(cd) && endpointConstraint.Get(cd) == Any && c != Any
      modifies this, searchQueue
      ensures Valid() && searchQueue.isStarted && Follows(old(Snap()), Snap())
      ensures field == old(field) && invalid == old(invalid) && endpointConstraint.Get(cd) == c
    {
      ghost var s0 := Snap();
      Constrain(cd, c);
      ghost var s1 := Snap();
      CellVertex(height, width, cd);
      Inspect(Coord(2 * cd.y, 2 * cd.x));
      QueuedFollows(s0, s1, Snap(), 1);
    }

    /** The cell at the other end of the chain that ends at cell `c`. */
    function OtherEnd(c: Coord): (r: Coord)
      reads this, searchQueue
      requires Valid() && IsCell(c)
      ensures IsCell(r)
    {
      chainUnion.IndexInRange(c);
      chainUnion.IndexCoordOf(chainUnion.Get(c));
      chainUnion.CoordOf(chainUnion.Get(c))
    }

    /** Writes `s` to the undecided edge `cd`. */
    method SetEdge(cd: Coord, s: Edge)
      requires Valid() && field.IsValidCoord(cd) && field.Get(cd) == Undecided && s != Undecided
      modifies this
      ensures Valid() && Snap() == old(Snap()).(field := old(field).Set(cd, s))
      ensures Follows(old(Snap()), Snap()) && Measure(Snap()) + 3 == Measure(old(Snap()))
      ensures St() == old(St()).(field := field)
      ensures field.Get(cd) == s
    {
      DecideFollows(Snap(), Snap().(field := field.Set(cd, s)), cd, s);
      field := field.Set(cd, s);
    }

    /** The table writes of a splice: `a1` and `a2` become each other's other end, both with length `len`. */
    method SpliceTables(a1: nat, a2: nat, len: int)
      requires Valid() && a1 < height * width && a2 < height * width
      modifies this
      ensures Valid() && Snap() == old(Snap())
      ensures St() == old(St()).(chainUnion := chainUnion, chainLength := chainLength)
      ensures chainUnion == old(chainUnion).(data := old(chainUnion.data)[a1 := a2][a2 := a1])
      ensures chainLength == old(chainLength).(data := old(chainLength.data)[a1 := len][a2 := len])
    {
      chainUnion := chainUnion.(data := chainUnion.data[a1 := a2][a2 := a1]);
      chainLength := chainLength.(data := chainLength.data[a1 := len][a2 := len]);
    }

    /**
     * The chain update of `decide_int` for a new line at `cd`: when the two
     * end cells of `cd` already end one chain the line would close a loop,
     * and the field is flagged; otherwise the far ends `a1` and `a2` of
     * the two chains become each other's other end, both with the summed
     * length plus one, and their sets are joined.
     */
    method Splice(cd: Coord) returns (stop: bool, a1: nat, a2: nat, newLength: int)
      requires Valid() && field.IsValidCoord(cd) && IsEdgePos(cd)
      modifies this
      ensures Valid() && Snap() == old(Snap()).(invalid := old(invalid) || stop)
      ensures stop <==> old(ClosesLoop(chainUnion, cd))
      ensures a1 < height * width && a2 < height * width
      ensures var (c1, c2) := EdgeEnds(cd);
        && IsCell(c1) && IsCell(c2) && a1 == old(chainUnion.Get(c1)) && a2 == old(chainUnion.Get(c2))
        && (!stop ==>
              && newLength == old(chainLength.Get(c1) + chainLength.Get(c2)) + 1
              && Swapped(old(chainUnion.data), chainUnion.data, a1, a2)
              && Lengthened(old(chainLength.data), chainLength.data, a1, a2, newLength)
              && |ufRoot| == old(|ufRoot|) && a1 < |ufRoot| && a2 < |ufRoot| && MergedSets(old(ufRoot), ufRoot, a1, a2))
    {
      var (c1, c2) := EdgeEnds(cd);
      EdgeEndsCells(height, width, cd);
      chainUnion.IndexInRange(c1);
      chainUnion.IndexInRange(c2);
      var e1, e2 := chainUnion.Index(c1), chainUnion.Index(c2);
      a1 := chainUnion.data[e1];
      a2 := chainUnion.data[e2];
      if a1 == e2 {
        invalid := true;
        return true, a1, a2, 0;
      }
      stop := false;
      newLength := chainLength.data[e1] + chainLength.data[e2] + 1;
      assert newLength == chainLength.Get(c1) + chainLength.Get(c2) + 1;
      SpliceTables(a1, a2, newLength);
      JoinEnds(a1, a2);
    }

    /** The union-find part of a splice: the sets of `a1` and `a2` are joined, then both paths compressed. */
    method JoinEnds(a1: nat, a2: nat)
      requires Valid() && a1 < height * width && a2 < height * width
      modifies this
      ensures Valid() && Snap() == old(Snap())
      ensures St() == old(St()).(chainConnectivity := chainConnectivity, ufRoot := ufRoot, ufDepth := ufDepth)
      ensures |ufRoot| == old(|ufRoot|) && MergedSets(old(ufRoot), ufRoot, a1, a2)
    {
      Join(a1, a2);
      var r1 := RootMut(a1);
      var r2 := RootMut(a2);
    }

    /**
     * The vertex part of `decide_int`: each end vertex of the edge `cd`
     * that now has one line and no undecided edge is counted as a line end,
     * and both are queued.
     */
    method Incident(cd: Coord)
      requires Valid() && searchQueue.isStarted && field.IsValidCoord(cd) && IsEdgePos(cd)
      modifies this`endpoints, searchQueue
      ensures Valid() && searchQueue.isStarted && Snap() == old(Snap()).(queued := |searchQueue.Contents|)
      ensures |searchQueue.Contents| <= old(|searchQueue.Contents|) + 2
      ensures endpoints == old(endpoints) + LineEnd(field, EdgeVertices(cd).0) + LineEnd(field, EdgeVertices(cd).1)
    {
      var (v1, v2) := EdgeVertices(cd);
      EdgeVerticesOn(height, width, cd);
      var l1, u1 := CountNeighbor(v1);
      var l2, u2 := CountNeighbor(v2);
      Tally((if (l1, u1) == (1, 0) then 1 else 0) + (if (l2, u2) == (1, 0) then 1 else 0));
      Inspect(v1);
      Inspect(v2);
    }

    /** Adds `d` to the count of line ends; nothing else changes. */
    method Tally(d: int)
      requires Valid()
      modifies this`endpoints
      ensures Valid() && Snap() == old(Snap()) && endpoints == old(endpoints) + d
    {
      endpoints := endpoints + d;
    }

    /**
     * `decide_int`: a decided edge stays, and a different state flags the
     * field; an undecided edge takes `s`. A new line that would close a
     * loop flags the field; otherwise it splices the chains it joins and a
     * chain still shorter than the threshold is extended from its far end.
     * Both end vertices are then queued, and a new line applies the
     * canonization rule on both sides.
     */
    method DecideInt(cd: Coord, s: Edge)
      requires Valid() && searchQueue.isStarted && field.IsValidCoord(cd) && IsEdgePos(cd) && s != Undecided
      modifies this, searchQueue
      decreases 0, Potential(field, endpointConstraint), 1
      ensures Valid() && searchQueue.isStarted && Follows(old(Snap()), Snap())
      ensures old(field.Get(cd)) != Undecided ==>
                Snap() == old(Snap()).(invalid := old(invalid) || old(field.Get(cd)) != s)
      ensures old(field.Get(cd)) == Undecided ==> field.Get(cd) == s
      ensures old(field.Get(cd)) == Undecided && s == Line && old(ClosesLoop(chainUnion, cd)) ==> invalid
      ensures old(field.Get(cd)) == Undecided && s == Line ==>
                CanonizedAt(Snap(), old(field), RelatedLeft(cd)) && CanonizedAt(Snap(), old(field), RelatedRight(cd))
    {
      var current := field.Get(cd);
      if current != Undecided {
        if current != s {
          invalid := true;
        }
        return;
      }
      DecideNew(cd, s);
    }

    /** `decide_int` on an undecided edge. */
    method DecideNew(cd: Coord, s: Edge)
      requires Valid() && searchQueue.isStarted && field.IsValidCoord(cd) && IsEdgePos(cd) && s != Undecided
      requires field.Get(cd) == Undecided
      modifies this, searchQueue
      decreases 0, Potential(field, endpointConstraint), 0
      ensures Valid() && searchQueue.isStarted && Follows(old(Snap()), Snap())
      ensures field.Get(cd) == s
      ensures s == Line && old(ClosesLoop(chainUnion, cd)) ==> invalid
      ensures s == Line ==>
                CanonizedAt(Snap(), old(field), RelatedLeft(cd)) && CanonizedAt(Snap(), old(field), RelatedRight(cd))
    {
      ghost var s0 := Snap();
      SetEdge(cd, s);
      ghost var s1 := Snap();
      if s == Line {
        var stop := LinkLine(cd);
        if stop {
          FollowsTrans(s0, s1, Snap());
          RefinesAt(s1, Snap(), cd);
          CanonizedFlagged(Snap(), s0.field, RelatedLeft(cd));
          CanonizedFlagged(Snap(), s0.field, RelatedRight(cd));
          return;
        }
      }
      ghost var s2 := Snap();
      FollowsTrans(s0, s1, s2);
      RefinesAt(s1, s2, cd);
      Incident(cd);
      ghost var s3 := Snap();
      QueuedFollows(s0, s2, s3, 2);
      if s == Line {
        CanonizeBoth(cd, s0);
      }
    }

    /**
     * The chain part of `decide_int` for a new line at `cd`: the splice,
     * and when the joined chain is still shorter than the threshold, the
     * extension from its far end. `stop` when the line closes a loop.
     */
    method LinkLine(cd: Coord) returns (stop: bool)
      requires Valid() && searchQueue.isStarted && field.IsValidCoord(cd) && IsEdgePos(cd)
      modifies this, searchQueue
      decreases 0, Potential(field, endpointConstraint), 5
      ensures Valid() && searchQueue.isStarted && Follows(old(Snap()), Snap())
      ensures stop <==> old(ClosesLoop(chainUnion, cd))
      ensures stop ==> invalid
    {
      ghost var s0 := Snap();
      var a1, a2, newLength;
      stop, a1, a2, newLength := Splice(cd);
      if stop {
        FlagFollows(s0);
        return;
      }
      FollowsRefl(s0);
      if newLength < chainThreshold {
        chainUnion.IndexCoordOf(a1);
        ExtendChain(chainUnion.CoordOf(a1));
      }
    }

    /** The canonization of `decide_int` after a new line at `cd`, stated against the snapshot `s0` before it. */
    method CanonizeBoth(cd: Coord, ghost s0: Snapshot)
      requires Valid() && searchQueue.isStarted && field.IsValidCoord(cd) && IsEdgePos(cd)
      requires Follows(s0, Snap()) && s0.field.Valid() && field.Get(cd) != Undecided
      modifies this, searchQueue
      decreases 0, Potential(field, endpointConstraint), 6
      ensures Valid() && searchQueue.isStarted && Follows(s0, Snap())
      ensures field.Get(cd) == old(field.Get(cd))
      ensures CanonizedAt(Snap(), s0.field, RelatedLeft(cd)) && CanonizedAt(Snap(), s0.field, RelatedRight(cd))
    {
      ghost var s3 := Snap();
      Canonize(cd);
      CanonizedBoth(s0, s3, Snap(), cd);
    }

    /**
     * `decide`: `decide_int`, and when the queue was idle the whole
     * propagation it starts, after which the queue is idle and empty again.
     */
    method Decide(cd: Coord, s: Edge)
      requires Valid() && field.IsValidCoord(cd) && IsEdgePos(cd) && s != Undecided
      modifies this, searchQueue
      decreases (if searchQueue.isStarted then 0 else 1), Potential(field, endpointConstraint), 2
      ensures Valid() && Follows(old(Snap()), Snap())
      ensures old(field.Get(cd)) == Undecided ==> field.Get(cd) == s
      ensures field.Get(cd) == s || invalid
    {
      var started := searchQueue.IsStarted();
      ghost var s0 := Snap();
      if !started {
        StartRun();
        ghost var s1 := Snap();
        DecideInt(cd, s);
        ghost var s2 := Snap();
        FinishRun();
        RunKeepsEdge(s0, s1, s2, Snap(), cd, s);
      } else {
        DecideInt(cd, s);
      }
    }

    /**
     * One loop of the canonization rule over the triple `t`: every edge of
     * `t` that is a line when its turn comes makes the other two blank.
     */
    method CanonizeTriple(t: seq<Coord>)
      requires Valid() && searchQueue.isStarted && Triple(2 * height - 1, 2 * width - 1, t)
      modifies this, searchQueue
      decreases 0, Potential(field, endpointConstraint), 4
      ensures Valid() && searchQueue.isStarted && Follows(old(Snap()), Snap())
      ensures CanonizedAt(Snap(), old(field), t)
    {
      FollowsRefl(Snap());
      for i := 0 to 3
        invariant Valid() && searchQueue.isStarted && Follows(old(Snap()), Snap())
        invariant ClearedUpTo(Snap(), old(field), t, i)
      {
        ghost var s0 := Snap();
        CanonizeEdge(t, i);
        CanonizeStep(old(Snap()), s0, Snap(), t, i);
      }
    }

    /** The turn of the `i`-th edge of the triple `t`: when it is a line, the other two are decided blank. */
    method CanonizeEdge(t: seq<Coord>, i: int)
      requires Valid() && searchQueue.isStarted && Triple(2 * height - 1, 2 * width - 1, t) && 0 <= i < 3
      modifies this, searchQueue
      decreases 0, Potential(field, endpointConstraint), 3
      ensures Valid() && searchQueue.isStarted && Follows(old(Snap()), Snap())
      ensures old(EdgeAt(field, t[i])) == Line ==> Cleared(Snap(), t, i)
    {
      FollowsRefl(Snap());
      if EdgeAt(field, t[i]) == Line {
        var e1, e2 := t[Next3(i)], t[Next3(Next3(i))];
        TripleOthers(field, t, i);
        ghost var s0 := Snap();
        Decide(e1, Blank);
        ghost var s1 := Snap();
        Decide(e2, Blank);
        FollowsTrans(s0, s1, Snap());
        HasEdgeStays(s1, Snap(), e1, Blank);
      }
    }

    /** The canonization rule on both sides of the new line `cd`. */
    method Canonize(cd: Coord)
      requires Valid() && searchQueue.isStarted && field.IsValidCoord(cd) && IsEdgePos(cd)
      modifies this, searchQueue
      decreases 0, Potential(field, endpointConstraint), 5
      ensures Valid() && searchQueue.isStarted && Follows(old(Snap()), Snap())
      ensures CanonizedAt(Snap(), old(field), RelatedLeft(cd)) && CanonizedAt(Snap(), old(field), RelatedRight(cd))
    {
      ghost var s0 := Snap();
      LatticeTriples(field, height, width, cd);
      CanonizeTriple(RelatedLeft(cd));
      ghost var s1 := Snap();
      CanonizeTriple(RelatedRight(cd));
      CanonizedSides(s0, s1, Snap(), RelatedLeft(cd), RelatedRight(cd));
    }

    /**
     * The other end `c` of a chain whose first end cannot grow: a `Forced`
     * cell flags the field, an `Any` cell becomes `Prohibited` and its
     * vertex is queued, a `Prohibited` cell stays.
     */
    method BlockEnd(c: Coord) returns (stop: bool)
      requires Valid() && searchQueue.isStarted && IsCell(c)
      modifies this, searchQueue
      ensures Valid() && searchQueue.isStarted && Follows(old(Snap()), Snap()) && field == old(field)
      ensures stop <==> old(endpointConstraint.Get(c)) == Forced
      ensures stop ==> invalid
      ensures !stop ==> endpointConstraint.Get(c) == Prohibited
    {
      FollowsRefl(Snap());
      stop := false;
      match endpointConstraint.Get(c) {
        case Forced =>
          FlagFollows(Snap());
          invalid := true;
          stop := true;
        case Any =>
          ConstrainQueued(c, Prohibited);
        case Prohibited =>
      }
    }

    /**
     * `extend_chain` from the end cell `c` of a chain whose other end is
     * `c2`. An end with no undecided edge cannot grow, so the other end
     * may not be a line end: `Prohibited`, or the field is flagged when it
     * is `Forced`. When neither end can grow the field is flagged; when
     * one cannot and the other has a single undecided edge, that edge is
     * decided a line.
     */
    method ExtendChain(c: Coord)
      requires Valid() && searchQueue.isStarted && IsCell(c)
      modifies this, searchQueue
      decreases 0, Potential(field, endpointConstraint), 4
      ensures Valid() && searchQueue.isStarted && Follows(old(Snap()), Snap())
      ensures var c2 := old(OtherEnd(c));
        var u1 := old(UndecidedAround(field, Coord(2 * c.y, 2 * c.x), 4));
        var u2 := old(UndecidedAround(field, Coord(2 * c2.y, 2 * c2.x), 4));
        && (|u1| == 0 ==> HasConstraint(Snap(), c2, Prohibited))
        && (|u2| == 0 ==> HasConstraint(Snap(), c, Prohibited))
        && (|u1| == 0 && |u2| == 0 ==> invalid)
        && (|u1| == 0 && |u2| == 1 ==> HasEdge(Snap(), u2[0], Line))
        && (|u1| == 1 && |u2| == 0 ==> HasEdge(Snap(), u1[0], Line))
    {
      var c2 := OtherEnd(c);
      CellVertex(height, width, c);
      CellVertex(height, width, c2);
      var end1, end2 := Coord(2 * c.y, 2 * c.x), Coord(2 * c2.y, 2 * c2.x);
      var u1 := UndecidedNeighborsSummary(end1);
      var u2 := UndecidedNeighborsSummary(end2);
      ghost var s0 := Snap();
      var stop := BlockEnds(c, c2, u1 == None, u2 == None);
      if stop {
        return;
      }
      ghost var s2 := Snap();
      ExtendLone(end1, end2, u1, u2);
      BlockedStays(s0, s2, Snap(), c, c2, u1 == None, u2 == None);
    }

    /**
     * The last step of `extend_chain`, given the undecided summaries `u1`
     * and `u2` of its two end vertices: neither end can grow, and the
     * field is flagged; one cannot and the other has a single undecided
     * edge, and that edge is decided a line.
     */
    method ExtendLone(end1: Coord, end2: Coord, u1: Cnt, u2: Cnt)
      requires Valid() && searchQueue.isStarted && IsLatticeVertex(end1) && IsLatticeVertex(end2)
      requires u1 == Summarize(UndecidedAround(field, end1, 4)) && u2 == Summarize(UndecidedAround(field, end2, 4))
      modifies this, searchQueue
      decreases 0, Potential(field, endpointConstraint), 3
      ensures Valid() && searchQueue.isStarted && Follows(old(Snap()), Snap())
      ensures u1 == None && u2 == None ==> invalid
      ensures u1 == None && u2.One? ==> HasEdge(Snap(), u2.cd, Line)
      ensures u1.One? && u2 == None ==> HasEdge(Snap(), u1.cd, Line)
    {
      FollowsRefl(Snap());
      if u1 == None && u2 == None {
        Flag();
      } else if (u1 == None && u2.One?) || (u1.One? && u2 == None) {
        var e := if u2.One? then u2.cd else u1.cd;
        UndecidedEdge(height, width, field, if u2.One? then end2 else end1, e);
        Decide(e, Line);
      }
    }

    /** Flags the field as contradictory; nothing else changes. */
    method Flag()
      requires Valid()
      modifies this`invalid
      ensures invalid
      ensures Valid() && Snap() == old(Snap()).(invalid := true) && Follows(old(Snap()), Snap())
    {
      FlagFollows(Snap());
      invalid := true;
    }

    /**
     * The blocking half of `extend_chain`: when the first end `c` cannot
     * grow (`block1`) the other end `c2` is blocked, and then when `c2`
     * cannot grow (`block2`) `c` is blocked; `stop` once a block flagged
     * the field.
     */
    method BlockEnds(c: Coord, c2: Coord, block1: bool, block2: bool) returns (stop: bool)
      requires Valid() && searchQueue.isStarted && IsCell(c) && IsCell(c2)
      modifies this, searchQueue
      ensures Valid() && searchQueue.isStarted && Follows(old(Snap()), Snap()) && field == old(field)
      ensures stop ==> invalid
      ensures block1 ==> HasConstraint(Snap(), c2, Prohibited)
      ensures block2 ==> HasConstraint(Snap(), c, Prohibited)
    {
      FollowsRefl(Snap());
      stop := false;
      if block1 {
        stop := BlockEnd(c2);
      }
      ghost var s1 := Snap();
      FollowsRefl(s1);
      if block2 && !stop {
        stop := BlockEnd(c);
      }
      BlockedStays(old(Snap()), s1, Snap(), c, c2, block1, false);
    }

    /**
     * The loop `inspect_int` runs in five places: every neighbour edge of
     * `cd` still undecided when its turn comes is decided `s`; afterwards
     * no undecided edge is left around `cd`.
     */
    method DecideAround(cd: Coord, s: Edge)
      requires Valid() && searchQueue.isStarted && IsLatticeVertex(cd) && s != Undecided
      modifies this, searchQueue
      decreases 0, Potential(field, endpointConstraint), 3
      ensures Valid() && searchQueue.isStarted && Follows(old(Snap()), Snap())
      ensures |UndecidedAround(field, cd, 4)| == 0
    {
      FollowsRefl(Snap());
      for k := 0 to 4
        invariant Valid() && searchQueue.isStarted && Follows(old(Snap()), Snap())
        invariant forall j :: 0 <= j < k ==> EdgeAt(field, CoordAdd(cd, Dirs[j])) != Undecided
      {
        var nb := CoordAdd(cd, Dirs[k]);
        if EdgeAt(field, nb) == Undecided {
          ghost var s0 := Snap();
          NeighbourEdge(height, width, cd, k);
          Decide(nb, s);
          AroundStays(old(Snap()), s0, Snap(), cd, k);
        }
      }
      NoneAround(field, cd);
    }

    /**
     * `queue_pop_all`: inspects the vertex of each queued cell until the
     * queue is empty or the field is flagged, then clears the queue.
     */
    method QueuePopAll()
      requires Valid() && searchQueue.isStarted
      modifies this, searchQueue
      decreases 0, Potential(field, endpointConstraint), 9
      ensures Valid() && searchQueue.isStarted && Follows(old(Snap()), Snap()) && searchQueue.Contents == []
    {
      FollowsRefl(Snap());
      while true
        invariant Valid() && searchQueue.isStarted && Follows(old(Snap()), Snap())
        decreases Measure(Snap())
      {
        var empty := searchQueue.Empty();
        if empty || invalid {
          break;
        }
        ghost var s0 := Snap();
        assert searchQueue.Contents[0] < height * width;
        var idx := searchQueue.Pop();
        ghost var s1 := Snap();
        chainConnectivity.IndexCoordOf(idx);
        var c := chainConnectivity.CoordOf(idx);
        CellVertex(height, width, c);
        InspectInt(Coord(2 * c.y, 2 * c.x));
        FollowsTrans(s0, s1, Snap());
        FollowsTrans(old(Snap()), s0, Snap());
      }
      ghost var s2 := Snap();
      searchQueue.Clear();
      QueuedFollows(old(Snap()), s2, Snap(), 0);
    }

    /** The start of a run of `decide` or `update_endpoint_constraint` on an idle queue. */
    method StartRun()
      requires Valid() && !searchQueue.isStarted
      modifies searchQueue
      ensures Valid() && searchQueue.isStarted && Snap() == old(Snap()).(started := true)
    {
      searchQueue.Start();
    }

    /** The rest of a run that `decide` or `update_endpoint_constraint` started: the queue is drained, then idle. */
    method FinishRun()
      requires Valid() && searchQueue.isStarted
      modifies this, searchQueue
      decreases 0, Potential(field, endpointConstraint), 10
      ensures Valid() && !searchQueue.isStarted && searchQueue.Contents == []
      ensures Follows(old(Snap()), Snap().(started := true))
    {
      QueuePopAll();
      searchQueue.Finish();
    }

    /**
     * `update_endpoint_constraint`: the `_int` step, and when the queue was
     * idle the whole propagation it starts, after which the queue is idle
     * and empty again.
     */
    method UpdateEndpointConstraint(cd: Coord, c: Endpoint)
      requires Valid() && IsCell(cd) && c != Any
      modifies this, searchQueue
      decreases (if searchQueue.isStarted then 0 else 1), Potential(field, endpointConstraint), 2
      ensures Valid() && Follows(old(Snap()), Snap())
      ensures endpointConstraint.Get(cd) == c || invalid
    {
      var started := searchQueue.IsStarted();
      ghost var s0 := Snap();
      if !started {
        StartRun();
        ghost var s1 := Snap();
        UpdateEndpointConstraintInt(cd, c);
        ghost var s2 := Snap();
        FinishRun();
        RunKeepsConstraint(s0, s1, s2, Snap(), cd, c);
      } else {
        UpdateEndpointConstraintInt(cd, c);
      }
    }

    /**
     * `inspect_int` at the lattice vertex `cd`, with the degree counted on
     * entry: the degree rules (no edge left, or three lines, flag the
     * field; a lone undecided edge becomes a line; two lines blank the
     * rest; one line extends a short chain), the endpoint rules, the
     * adjacent-clue rules, the symmetric copies of the cell's constraint,
     * the constraint rules, and last the seed list.
     */
    method InspectInt(cd: Coord)
      requires Valid() && searchQueue.isStarted && IsLatticeVertex(cd)
      modifies this, searchQueue
      decreases 0, Potential(field, endpointConstraint), 8
      ensures Valid() && searchQueue.isStarted && Follows(old(Snap()), Snap())
      ensures old(Degree(field, cd)) == (0, 0) || old(LinesAround(field, cd, 4)) >= 3 ==> invalid
      ensures old(Degree(field, cd)) == (1, 0) ==> HasConstraint(Snap(), CellOfVertex(cd), Forced)
      ensures old(LinesAround(field, cd, 4)) == 2 ==> HasConstraint(Snap(), CellOfVertex(cd), Prohibited)
      ensures !invalid ==> (cd in SeedSet(seeds, seedCount) <==> SeedAt(field, cd))
    {
      ghost var s0 := Snap();
      var line, undecided, stop := DegreeRules(cd);
      if !stop {
        ghost var s1 := Snap();
        VertexRules(cd, line, undecided);
        FollowsTrans(s0, s1, Snap());
      }
    }

    /** `inspect_int` after the degree rules: the endpoint rules and, unless they flagged the field, the rest. */
    method VertexRules(cd: Coord, line: int, undecided: int)
      requires Valid() && searchQueue.isStarted && IsLatticeVertex(cd)
      modifies this, searchQueue
      decreases 0, Potential(field, endpointConstraint), 7
      ensures Valid() && searchQueue.isStarted && Follows(old(Snap()), Snap())
      ensures line == 1 && undecided == 0 ==> HasConstraint(Snap(), CellOfVertex(cd), Forced)
      ensures line == 2 ==> HasConstraint(Snap(), CellOfVertex(cd), Prohibited)
      ensures !invalid ==> (cd in SeedSet(seeds, seedCount) <==> SeedAt(field, cd))
    {
      ghost var s0 := Snap();
      VertexCell(height, width, cd);
      var stop := EndpointRules(cd, line, undecided);
      if !stop {
        ghost var s1 := Snap();
        InspectRest(cd, line, undecided);
        EndpointStays(s0, s1, Snap(), CellOfVertex(cd), line == 1 && undecided == 0, line == 2);
      }
    }

    /**
     * The degree rules of `inspect_int`, on the degree counted on entry: a
     * vertex with no edge left, or with three lines, flags the field and
     * `stop`s the inspection; a lone undecided edge becomes a line; two
     * lines blank the rest; one line extends a short chain.
     */
    method DegreeRules(cd: Coord) returns (line: int, undecided: int, stop: bool)
      requires Valid() && searchQueue.isStarted && IsLatticeVertex(cd)
      modifies this, searchQueue
      decreases 0, Potential(field, endpointConstraint), 6
      ensures Valid() && searchQueue.isStarted && Follows(old(Snap()), Snap())
      ensures (line, undecided) == old(Degree(field, cd))
      ensures stop <==> (line == 0 && undecided == 0) || line >= 3
      ensures stop ==> invalid
    {
      FollowsRefl(Snap());
      line, undecided := CountNeighbor(cd);
      stop := false;
      if line == 0 {
        if undecided == 0 {
          FlagFollows(Snap());
          invalid := true;
          return line, undecided, true;
        }
        if undecided == 1 {
          DecideAround(cd, Line);
        }
      } else if line == 2 {
        DecideAround(cd, Blank);
      } else if line == 1 {
        ShortChain(cd);
      } else if line >= 3 {
        FlagFollows(Snap());
        invalid := true;
        return line, undecided, true;
      }
    }

    /** The rules of `inspect_int` after the endpoint rules, ending with the seed list. */
    method InspectRest(cd: Coord, line: int, undecided: int)
      requires Valid() && searchQueue.isStarted && IsLatticeVertex(cd)
      modifies this, searchQueue
      decreases 0, Potential(field, endpointConstraint), 6
      ensures Valid() && searchQueue.isStarted && Follows(old(Snap()), Snap())
      ensures !invalid ==> (cd in SeedSet(seeds, seedCount) <==> SeedAt(field, cd))
    {
      ghost var s0 := Snap();
      ForbidAround(cd, line == 1 && undecided == 0);
      ghost var s1 := Snap();
      ForceThrough(cd, line, undecided);
      FollowsTrans(s0, s1, Snap());
      ghost var s2 := Snap();
      VertexCell(height, width, cd);
      MirrorConstraint(CellOfVertex(cd));
      FollowsTrans(s0, s2, Snap());
      ghost var s3 := Snap();
      var stop := ApplyConstraint(cd, line, undecided);
      FollowsTrans(s0, s3, Snap());
      if stop {
        return;
      }
      UpdateSeed(cd);
    }

    /**
     * The one-line case of `inspect_int`: a chain through the cell `c` of
     * `cd` shorter than the threshold is extended; if its far end is then a
     * line end, every undecided edge of `cd` towards a cell whose chain also
     * ends in a line end and is shorter than the length still missing is
     * decided blank. A chain at the threshold is left alone.
     */
    method ShortChain(cd: Coord)
      requires Valid() && searchQueue.isStarted && IsLatticeVertex(cd)
      modifies this, searchQueue
      decreases 0, Potential(field, endpointConstraint), 5
      ensures Valid() && searchQueue.isStarted && Follows(old(Snap()), Snap())
      ensures old(chainLength.Get(CellOfVertex(cd)) >= chainThreshold) ==> Snap() == old(Snap())
    {
      FollowsRefl(Snap());
      VertexCell(height, width, cd);
      var c := CellOfVertex(cd);
      if chainLength.Get(c) < chainThreshold {
        ExtendChain(c);
        var a := OtherEnd(c);
        CellVertex(height, width, a);
        var l, u := CountNeighbor(Coord(2 * a.y, 2 * a.x));
        if (l, u) == (1, 0) {
          ghost var s0 := Snap();
          var minimumLen := chainThreshold - chainLength.Get(c);
          for k := 0 to 4
            invariant Valid() && searchQueue.isStarted && Follows(s0, Snap())
          {
            ghost var s1 := Snap();
            BlankTowardShort(cd, c, k, minimumLen);
            FollowsTrans(s0, s1, Snap());
          }
          FollowsTrans(old(Snap()), s0, Snap());
        }
      }
    }

    /**
     * One turn of the loop of `ShortChain`: the `k`-th edge of `cd`, when
     * undecided and leading to a cell whose chain ends in a line end and is
     * shorter than `minimumLen`, is decided blank.
     */
    method BlankTowardShort(cd: Coord, c: Coord, k: nat, minimumLen: int)
      requires Valid() && searchQueue.isStarted && IsLatticeVertex(cd) && IsCell(c) && k < 4
      requires cd == Coord(2 * c.y, 2 * c.x)
      modifies this, searchQueue
      decreases 0, Potential(field, endpointConstraint), 3
      ensures Valid() && searchQueue.isStarted && Follows(old(Snap()), Snap())
    {
      FollowsRefl(Snap());
      var nb := CoordAdd(cd, Dirs[k]);
      if EdgeAt(field, nb) == Undecided {
        NeighbourEdge(height, width, cd, k);
        var nc := CoordAdd(c, Dirs[k]);
        var a2 := OtherEnd(nc);
        CellVertex(height, width, a2);
        var l2, u2 := CountNeighbor(Coord(2 * a2.y, 2 * a2.x));
        if (l2, u2) == (1, 0) && chainLength.Get(nc) < minimumLen {
          Decide(nb, Blank);
        }
      }
    }

    /**
     * The endpoint rules of `inspect_int`, from the degree counted on entry
     * to it: a vertex with one line and no undecided edge is a line end, so
     * its cell may not be `Prohibited` and becomes `Forced`; a vertex with
     * two lines is passed through, so its cell may not be `Forced` and
     * becomes `Prohibited`. A clash flags the field and ends the inspection.
     */
    method EndpointRules(cd: Coord, line: int, undecided: int) returns (stop: bool)
      requires Valid() && IsLatticeVertex(cd)
      modifies this
      ensures Valid() && Follows(old(Snap()), Snap()) && field == old(field)
      ensures var c := CellOfVertex(cd);
        var con := old(endpointConstraint.Get(c));
        && (stop <==> (line == 1 && undecided == 0 && con == Prohibited) || (line == 2 && con == Forced))
        && (stop ==> invalid)
        && (line == 1 && undecided == 0 && !stop ==> endpointConstraint.Get(c) == Forced)
        && (line == 2 && !stop ==> endpointConstraint.Get(c) == Prohibited)
        && (!(line == 1 && undecided == 0) && line != 2 ==> Snap() == old(Snap()))
    {
      FollowsRefl(Snap());
      VertexCell(height, width, cd);
      var c := CellOfVertex(cd);
      stop := false;
      if line == 1 && undecided == 0 {
        if endpointConstraint.Get(c) == Prohibited {
          FlagFollows(Snap());
          invalid := true;
          return true;
        }
        if endpointConstraint.Get(c) == Any {
          Constrain(c, Forced);
        }
      }
      if line == 2 {
        if endpointConstraint.Get(c) == Forced {
          FlagFollows(Snap());
          invalid := true;
          return true;
        }
        if endpointConstraint.Get(c) == Any {
          Constrain(c, Prohibited);
        }
      }
    }

    /**
     * The first adjacent-clue rule: with adjacent clues forbidden, a cell
     * that is `Forced`, or whose vertex was a line end on entry, makes
     * every cell around it, diagonals included, `Prohibited`.
     */
    method ForbidAround(cd: Coord, lineEnd: bool)
      requires Valid() && searchQueue.isStarted && IsLatticeVertex(cd)
      modifies this, searchQueue
      decreases 0, Potential(field, endpointConstraint), 5
      ensures Valid() && searchQueue.isStarted && Follows(old(Snap()), Snap())
      ensures var c := CellOfVertex(cd);
        old(forbidAdjacentClue && (endpointConstraint.Get(c) == Forced || lineEnd)) ==>
          forall n :: IsCell(n) && Near(c, n) ==> HasConstraint(Snap(), n, Prohibited)
      ensures !old(forbidAdjacentClue) ==> Snap() == old(Snap())
    {
      FollowsRefl(Snap());
      VertexCell(height, width, cd);
      var c := CellOfVertex(cd);
      if forbidAdjacentClue && (endpointConstraint.Get(c) == Forced || lineEnd) {
        for dy := -1 to 2
          invariant Valid() && searchQueue.isStarted && Follows(old(Snap()), Snap())
          invariant NearProhibited(Snap(), height, width, c, dy, -1)
        {
          ghost var s0 := Snap();
          ForbidRow(c, dy);
          FollowsTrans(old(Snap()), s0, Snap());
          NearRow(Snap(), height, width, c, dy);
        }
      }
    }

    /** One row `c.y + dy` of the cells around `c` made `Prohibited`, left to right. */
    method ForbidRow(c: Coord, dy: int)
      requires Valid() && searchQueue.isStarted && IsCell(c) && NearProhibited(Snap(), height, width, c, dy, -1)
      modifies this, searchQueue
      decreases 0, Potential(field, endpointConstraint), 4
      ensures Valid() && searchQueue.isStarted && Follows(old(Snap()), Snap())
      ensures NearProhibited(Snap(), height, width, c, dy, 2)
    {
      FollowsRefl(Snap());
      for dx := -1 to 2
        invariant Valid() && searchQueue.isStarted && Follows(old(Snap()), Snap())
        invariant NearProhibited(Snap(), height, width, c, dy, dx)
      {
        ghost var s0 := Snap();
        ForbidAt(c, dy, dx);
        NearStep(old(Snap()), s0, Snap(), height, width, c, dy, dx);
      }
    }

    /** The cell `(c.y + dy, c.x + dx)`, when it is on the board and not `c`, made `Prohibited`. */
    method ForbidAt(c: Coord, dy: int, dx: int)
      requires Valid() && searchQueue.isStarted
      modifies this, searchQueue
      decreases 0, Potential(field, endpointConstraint), 3
      ensures Valid() && searchQueue.isStarted && Follows(old(Snap()), Snap())
      ensures var m := Coord(c.y + dy, c.x + dx);
        m != c && InLattice(height, width, m) ==> HasConstraint(Snap(), m, Prohibited)
    {
      var m := Coord(c.y + dy, c.x + dx);
      if !(dy == 0 && dx == 0) && IsCell(m) {
        UpdateEndpointConstraint(m, Prohibited);
      } else {
        FollowsRefl(Snap());
      }
    }

    /**
     * The second adjacent-clue rule: with adjacent clues forbidden and
     * exactly two edges of `cd` not blank on entry, each neighbour edge
     * still not blank whose far vertex also has exactly two edges not blank
     * becomes a line.
     */
    method ForceThrough(cd: Coord, line: int, undecided: int)
      requires Valid() && searchQueue.isStarted && IsLatticeVertex(cd)
      modifies this, searchQueue
      decreases 0, Potential(field, endpointConstraint), 5
      ensures Valid() && searchQueue.isStarted && Follows(old(Snap()), Snap())
      ensures !(old(forbidAdjacentClue) && line + undecided == 2) ==> Snap() == old(Snap())
    {
      FollowsRefl(Snap());
      if forbidAdjacentClue && line + undecided == 2 {
        for k := 0 to 4
          invariant Valid() && searchQueue.isStarted && Follows(old(Snap()), Snap())
        {
          var nb := CoordAdd(cd, Dirs[k]);
          if EdgeAt(field, nb) != Blank {
            var l2, u2 := CountNeighbor(CoordAdd(nb, Dirs[k]));
            if l2 + u2 == 2 {
              ghost var s0 := Snap();
              NeighbourEdge(height, width, cd, k);
              Decide(nb, Line);
              FollowsTrans(old(Snap()), s0, Snap());
            }
          }
        }
      }
    }

    /**
     * The symmetry rule: a decided constraint of the cell of `cd` is copied
     * to the cell's images under the board's symmetries: the quarter turn
     * when `tetrad`, else the half turn when `dyad`, and the mirror images
     * when `horizontal` or `vertical`.
     */
    method MirrorConstraint(c: Coord)
      requires Valid() && searchQueue.isStarted && IsCell(c)
      modifies this, searchQueue
      decreases 0, Potential(field, endpointConstraint), 5
      ensures Valid() && searchQueue.isStarted && Follows(old(Snap()), Snap())
      ensures var con := old(endpointConstraint.Get(c));
        con != Any ==>
          && TurnDone(Snap(), c, con, height, width, symmetry)
          && (symmetry.horizontal ==> HasConstraint(Snap(), Coord(height - 1 - c.y, c.x), con))
          && (symmetry.vertical ==> HasConstraint(Snap(), Coord(c.y, width - 1 - c.x), con))
      ensures old(endpointConstraint.Get(c)) == Any ==> Snap() == old(Snap())
    {
      var con := endpointConstraint.Get(c);
      if con != Any {
        ghost var s0 := Snap();
        MirrorTurn(c, con);
        ghost var s1 := Snap();
        MirrorAxes(c, con);
        TurnStays(s0, s1, Snap(), c, con, height, width, symmetry);
      }
    }

    /** The rotation part of the symmetry rule. */
    method MirrorTurn(c: Coord, con: Endpoint)
      requires Valid() && searchQueue.isStarted && IsCell(c) && con != Any
      modifies this, searchQueue
      decreases 0, Potential(field, endpointConstraint), 4
      ensures Valid() && searchQueue.isStarted && Follows(old(Snap()), Snap())
      ensures TurnDone(Snap(), c, con, height, width, symmetry)
    {
      FollowsRefl(Snap());
      if symmetry.tetrad {
        UpdateEndpointConstraint(Coord(c.x, width - 1 - c.y), con);
      } else if symmetry.dyad {
        UpdateEndpointConstraint(Coord(height - 1 - c.y, width - 1 - c.x), con);
      }
    }

    /** The mirror part of the symmetry rule. */
    method MirrorAxes(c: Coord, con: Endpoint)
      requires Valid() && searchQueue.isStarted && IsCell(c) && con != Any
      modifies this, searchQueue
      decreases 0, Potential(field, endpointConstraint), 4
      ensures Valid() && searchQueue.isStarted && Follows(old(Snap()), Snap())
      ensures symmetry.horizontal ==> HasConstraint(Snap(), Coord(height - 1 - c.y, c.x), con)
      ensures symmetry.vertical ==> HasConstraint(Snap(), Coord(c.y, width - 1 - c.x), con)
    {
      FollowsRefl(Snap());
      ghost var s0 := Snap();
      if symmetry.horizontal {
        UpdateEndpointConstraint(Coord(height - 1 - c.y, c.x), con);
      }
      ghost var s1 := Snap();
      if symmetry.vertical {
        UpdateEndpointConstraint(Coord(c.y, width - 1 - c.x), con);
        FollowsTrans(s0, s1, Snap());
        if symmetry.horizontal {
          HasConstraintStays(s1, Snap(), Coord(height - 1 - c.y, c.x), con);
        }
      }
    }

    /**
     * The constraint rules of `inspect_int` on the cell of `cd`, from the
     * degree counted on entry: a `Forced` cell with one line blanks every
     * undecided edge, and with more lines flags the field; a `Prohibited`
     * cell with one line and no undecided edge flags the field and ends the
     * inspection, and with one line and one undecided edge, or no line and
     * two undecided edges, makes every undecided edge a line.
     */
    method ApplyConstraint(cd: Coord, line: int, undecided: int) returns (stop: bool)
      requires Valid() && searchQueue.isStarted && IsLatticeVertex(cd)
      modifies this, searchQueue
      decreases 0, Potential(field, endpointConstraint), 5
      ensures Valid() && searchQueue.isStarted && Follows(old(Snap()), Snap())
      ensures var con := old(endpointConstraint.Get(CellOfVertex(cd)));
        && (stop <==> con == Prohibited && line == 1 && undecided == 0)
        && (stop || (con == Forced && line >= 2) ==> invalid)
        && (((con == Forced && line == 1) || (con == Prohibited && ((line == 1 && undecided == 1) || (line == 0 && undecided == 2))))
              ==> |UndecidedAround(field, cd, 4)| == 0)
        && (con == Any ==> Snap() == old(Snap()))
    {
      FollowsRefl(Snap());
      VertexCell(height, width, cd);
      stop := false;
      match endpointConstraint.Get(CellOfVertex(cd)) {
        case Any =>
        case Forced =>
          if line == 1 {
            DecideAround(cd, Blank);
          } else if line >= 2 {
            FlagFollows(Snap());
            invalid := true;
          }
        case Prohibited =>
          if line == 1 {
            if undecided == 0 {
              FlagFollows(Snap());
              invalid := true;
              return true;
            } else if undecided == 1 {
              DecideAround(cd, Line);
            }
          } else if line == 0 && undecided == 2 {
            DecideAround(cd, Line);
          }
      }
    }

    /**
     * The seed list at the end of `inspect_int`: a listed vertex that is no
     * longer a seed leaves the list, the last listed seed taking its slot;
     * an unlisted vertex that has become a seed is appended.
     */
    method UpdateSeed(cd: Coord)
      requires Valid() && IsLatticeVertex(cd)
      modifies this
      ensures Valid() && Snap() == old(Snap())
      ensures SeedSet(seeds, seedCount) ==
                if SeedAt(field, cd) then old(SeedSet(seeds, seedCount)) + {cd} else old(SeedSet(seeds, seedCount)) - {cd}
    {
      var isSeed := IsSeed(cd);
      var si := seedIdx.Get(cd);
      if si != -1 && !isSeed {
        RemoveSeed(cd);
      } else if si == -1 && isSeed {
        AddSeed(cd);
      }
    }

    /** The seed `cd` leaves the list: the last seed takes its slot. */
    method RemoveSeed(cd: Coord)
      requires Valid() && IsLatticeVertex(cd) && seedIdx.Get(cd) != -1
      modifies this
      ensures Valid() && Snap() == old(Snap())
      ensures SeedSet(seeds, seedCount) == old(SeedSet(seeds, seedCount)) - {cd}
    {
      var si := seedIdx.Get(cd);
      SeedRemove(seedIdx, seeds, seedCount, cd);
      var moved := seeds[seedCount - 1];
      seedIdx := seedIdx.Set(moved, si);
      seeds := seeds[si := moved];
      seedCount := seedCount - 1;
      seedIdx := seedIdx.Set(cd, -1);
    }

    /** The vertex `cd` joins the list of seeds at its end. */
    method AddSeed(cd: Coord)
      requires Valid() && IsLatticeVertex(cd) && seedIdx.Get(cd) == -1
      modifies this
      ensures Valid() && Snap() == old(Snap())
      ensures SeedSet(seeds, seedCount) == old(SeedSet(seeds, seedCount)) + {cd}
    {
      SeedRoom(height, width, seedIdx, seeds, seedCount, cd);
      SeedAdd(seedIdx, seeds, seedCount, cd);
      seedIdx := seedIdx.Set(cd, seedCount);
      seeds := seeds[seedCount := cd];
      seedCount := seedCount + 1;
    }

    /**
     * `join`: the sets of `x` and `y` become one and no other set changes;
     * the root of the larger set (by the stored sizes, `y`'s on a tie)
     * stays the root.
     */
    method Join(x: nat, y: nat)
      requires UnionFind(chainConnectivity.data, ufRoot, ufDepth) && x < |chainConnectivity.data| && y < |chainConnectivity.data|
      modifies this
      ensures UnionFind(chainConnectivity.data, ufRoot, ufDepth)
      ensures St() == old(St()).(chainConnectivity := chainConnectivity, ufRoot := ufRoot, ufDepth := ufDepth)
      ensures chainConnectivity.height == old(chainConnectivity.height) && chainConnectivity.width == old(chainConnectivity.width)
      ensures |chainConnectivity.data| == old(|chainConnectivity.data|)
      ensures |ufRoot| == old(|ufRoot|) && MergedSets(old(ufRoot), ufRoot, x, y)
      ensures old(ufRoot[x] != ufRoot[y]) ==>
                ufRoot[x] == if old(chainConnectivity.data[ufRoot[x]] < chainConnectivity.data[ufRoot[y]])
                             then old(ufRoot[x]) else old(ufRoot[y])
    {
      var rx := RootMut(x);
      var ry := RootMut(y);
      if rx != ry {
        LinkRoots(x, y, rx, ry);
      } else {
        MergedSame(ufRoot, x, y);
      }
    }

    /** The rest of `join`: the root of the smaller set is hung under the other root. */
    method LinkRoots(ghost x: nat, ghost y: nat, rx: nat, ry: nat)
      requires UnionFind(chainConnectivity.data, ufRoot, ufDepth) && x < |chainConnectivity.data| && y < |chainConnectivity.data|
      requires rx == ufRoot[x] && ry == ufRoot[y] && rx != ry
      modifies this`chainConnectivity, this`ufRoot, this`ufDepth
      ensures St() == old(St()).(chainConnectivity := chainConnectivity, ufRoot := ufRoot, ufDepth := ufDepth)
      ensures chainConnectivity.height == old(chainConnectivity.height) && chainConnectivity.width == old(chainConnectivity.width)
      ensures |chainConnectivity.data| == old(|chainConnectivity.data|)
      ensures UnionFind(chainConnectivity.data, ufRoot, ufDepth)
      ensures |ufRoot| == old(|ufRoot|) && MergedSets(old(ufRoot), ufRoot, x, y)
      ensures ufRoot[x] == if old(chainConnectivity.data[rx] < chainConnectivity.data[ry]) then rx else ry
    {
      var par, root, depth := chainConnectivity.data, ufRoot, ufDepth;
      var w, l := if par[rx] < par[ry] then rx else ry, if par[rx] < par[ry] then ry else rx;
      var par' := par[w := par[w] + par[l]][l := w];
      ghost var root', depth' := Relinked(root, w, l), Deepened(root, depth, l);
      Joined(par, root, depth, x, y, w, l, par', root', depth');
      chainConnectivity := chainConnectivity.(data := par');
      ufRoot, ufDepth := root', depth';
    }

    /**
     * The loops of `inspect_all`: the vertex of every cell queued, row by
     * row; only the queue changes.
     */
    method QueueAll()
      requires Valid() && searchQueue.isStarted
      modifies searchQueue
      ensures Valid() && searchQueue.isStarted && Snap() == old(Snap()).(queued := |searchQueue.Contents|)
      ensures forall c :: IsCell(c) ==> CellId(width, c) in searchQueue.Contents
    {
      for y := 0 to height
        invariant Valid() && searchQueue.isStarted && Snap() == old(Snap()).(queued := |searchQueue.Contents|)
        invariant forall c :: IsCell(c) && c.y < y ==> CellId(width, c) in searchQueue.Contents
      {
        InspectRow(y);
      }
    }

    /** Row `y` of `inspect_all`: the vertex of each cell queued, left to right; the queue only grows. */
    method InspectRow(y: int)
      requires Valid() && searchQueue.isStarted && 0 <= y < height
      modifies searchQueue
      ensures Valid() && searchQueue.isStarted && Snap() == old(Snap()).(queued := |searchQueue.Contents|)
      ensures forall v :: v in old(searchQueue.Contents) ==> v in searchQueue.Contents
      ensures forall x :: 0 <= x < width ==> CellId(width, Coord(y, x)) in searchQueue.Contents
    {
      for x := 0 to width
        invariant Valid() && searchQueue.isStarted && Snap() == old(Snap()).(queued := |searchQueue.Contents|)
        invariant forall v :: v in old(searchQueue.Contents) ==> v in searchQueue.Contents
        invariant forall x' :: 0 <= x' < x ==> CellId(width, Coord(y, x')) in searchQueue.Contents
      {
        QueueCell(Coord(y, x));
      }
    }

    /** The vertex of cell `c` queued: the queue only grows, and then holds `c`. */
    method QueueCell(c: Coord)
      requires Valid() && searchQueue.isStarted && IsCell(c)
      modifies searchQueue
      ensures Valid() && searchQueue.isStarted && Snap() == old(Snap()).(queued := |searchQueue.Contents|)
      ensures forall v :: v in old(searchQueue.Contents) ==> v in searchQueue.Contents
      ensures CellId(width, c) in searchQueue.Contents
    {
      CellOfDouble(c.y, c.x);
      Inspect(Coord(2 * c.y, 2 * c.x));
    }

    /**
     * `inspect_all`: every vertex queued on the idle queue and the whole
     * propagation run, after which the queue is idle and empty again.
     */
    method InspectAll()
      requires Valid() && !searchQueue.isStarted
      modifies this, searchQueue
      ensures Valid() && !searchQueue.isStarted && searchQueue.Contents == [] && Follows(old(Snap()), Snap())
    {
      StartRun();
      QueueAll();
      ghost var s2 := Snap();
      FinishRun();
      StartFinish(old(Snap()), s2, Snap().(started := true), Snap());
    }

    /** `as_line_placement`: a segment between two cells exactly where their edge is a `Line`. */
    method AsLinePlacement() returns (p: NumberlinkBase.LinePlacement)
      requires Valid()
      ensures fresh(p) && Fits(p, height, width)
      ensures forall y, x :: 0 <= y < height && 0 <= x < width ==>
        && p.Right(Coord(y, x)) == (EdgeAt(field, Coord(2 * y, 2 * x + 1)) == Line)
        && p.Down(Coord(y, x)) == (EdgeAt(field, Coord(2 * y + 1, 2 * x)) == Line)
    {
      p := DrawPlacement(field, height, width);
    }

    /** Cell `c`, when it is `Any`, made `Prohibited`. */
    method ProhibitIfAny(c: Coord)
      requires Valid() && searchQueue.isStarted && IsCell(c)
      modifies this, searchQueue
      ensures Valid() && searchQueue.isStarted && Follows(old(Snap()), Snap()) && NotAny(Snap(), c)
    {
      if endpointConstraint.Get(c) == Any {
        UpdateEndpointConstraint(c, Prohibited);
      } else {
        FollowsRefl(Snap());
      }
    }

    /** Row `y` of `forbid_further_endpoint`, left to right. */
    method ProhibitRow(y: int)
      requires Valid() && searchQueue.isStarted && 0 <= y < height && NoAnyBefore(Snap(), height, width, y, 0)
      modifies this, searchQueue
      ensures Valid() && searchQueue.isStarted && Follows(old(Snap()), Snap())
      ensures NoAnyBefore(Snap(), height, width, y + 1, 0)
    {
      FollowsRefl(Snap());
      for x := 0 to width
        invariant Valid() && searchQueue.isStarted && Follows(old(Snap()), Snap())
        invariant NoAnyBefore(Snap(), height, width, y, x)
      {
        ghost var s0 := Snap();
        ProhibitIfAny(Coord(y, x));
        NoAnyStep(old(Snap()), s0, Snap(), height, width, y, x);
      }
    }

    /** The loops of `forbid_further_endpoint`: every cell settled, row by row. */
    method ProhibitAll()
      requires Valid() && searchQueue.isStarted
      modifies this, searchQueue
      ensures Valid() && searchQueue.isStarted && Follows(old(Snap()), Snap())
      ensures NoAnyBefore(Snap(), height, width, height, 0)
    {
      FollowsRefl(Snap());
      for y := 0 to height
        invariant Valid() && searchQueue.isStarted && Follows(old(Snap()), Snap())
        invariant NoAnyBefore(Snap(), height, width, y, 0)
      {
        ghost var s0 := Snap();
        ProhibitRow(y);
        FollowsTrans(old(Snap()), s0, Snap());
      }
    }

    /**
     * `forbid_further_endpoint`: on the idle queue, every cell still `Any`
     * made `Prohibited` in row-major order and the propagation run to the
     * end; afterwards no cell is `Any` unless the field is flagged.
     */
    method ForbidFurtherEndpoint()
      requires Valid() && !searchQueue.isStarted
      modifies this, searchQueue
      ensures Valid() && !searchQueue.isStarted && searchQueue.Contents == [] && Follows(old(Snap()), Snap())
      ensures invalid || forall c :: IsCell(c) ==> endpointConstraint.Get(c) != Any
    {
      StartRun();
      ghost var s1 := Snap();
      ProhibitAll();
      ghost var s2 := Snap();
      FinishRun();
      FollowsTrans(s1, s2, Snap().(started := true));
      StartFinish(old(Snap()), s1, Snap().(started := true), Snap());
      NoAnyKept(s2, Snap().(started := true), height, width);
      forall c | IsCell(c) && !invalid
        ensures endpointConstraint.Get(c) != Any
      {
        assert NotAny(Snap().(started := true), c);
      }
    }
  }

  /** Hanging the root `l` under the root `w` merges the sets of `x` and `y`, and only those. */
  lemma Joined(par: seq<int>, root: seq<nat>, depth: seq<nat>, x: nat, y: nat, w: nat, l: nat,
                par': seq<int>, root': seq<nat>, depth': seq<nat>)
    requires UnionFind(par, root, depth) && x < |par| && y < |par| && w != l
    requires (root[x] == w && root[y] == l) || (root[x] == l && root[y] == w)
    requires par' == par[w := par[w] + par[l]][l := w]
    requires root' == Relinked(root, w, l) && depth' == Deepened(root, depth, l)
    ensures UnionFind(par', root', depth') && |root'| == |root|
    ensures MergedSets(root, root', x, y) && root'[x] == w
  {
    RelinkedSets(root, w, l, x, y);
    Link(par, root, depth, w, l);
  }

  /**
   * `complexity` of the seed vertex `cd` on the edges `f` (whose height is
   * `2 * height - 1`, and so on): each of the four vertices next to `cd`
   * that is on the board adds its edges that are not undecided.
   */
  function Complexity(f: Grid<Edge>, cd: Coord): (r: int)
    requires f.Valid()
    ensures 0 <= r <= 16
  {
    (if cd.y > 0 then 4 - Degree(f, Coord(cd.y - 2, cd.x)).1 else 0)
    + (if cd.x > 0 then 4 - Degree(f, Coord(cd.y, cd.x - 2)).1 else 0)
    + (if cd.y < f.height - 1 then 4 - Degree(f, Coord(cd.y + 2, cd.x)).1 else 0)
    + (if cd.x < f.width - 1 then 4 - Degree(f, Coord(cd.y, cd.x + 2)).1 else 0)
  }

  /** Deciding edges never adds undecided ones around a vertex. */
  lemma {:induction false} UndecidedShrinks(a: Snapshot, b: Snapshot, cd: Coord, k: nat)
    requires Refines(a, b) && a.field.Valid() && k <= 4
    ensures b.field.Valid() && |UndecidedAround(b.field, cd, k)| <= |UndecidedAround(a.field, cd, k)|
  {
    if k > 0 {
      UndecidedShrinks(a, b, cd, k - 1);
      var e := CoordAdd(cd, Dirs[k - 1]);
      if a.field.IsValidCoord(e) && a.field.Get(e) != Undecided {
        RefinesAt(a, b, e);
      }
    }
  }

  /** The complexity of a vertex only grows as propagation decides edges. */
  lemma ComplexityGrows(a: Snapshot, b: Snapshot, cd: Coord)
    requires Refines(a, b) && a.field.Valid()
    ensures b.field.Valid() && Complexity(a.field, cd) <= Complexity(b.field, cd)
  {
    UndecidedShrinks(a, b, Coord(cd.y - 2, cd.x), 4);
    UndecidedShrinks(a, b, Coord(cd.y, cd.x - 2), 4);
    UndecidedShrinks(a, b, Coord(cd.y + 2, cd.x), 4);
    UndecidedShrinks(a, b, Coord(cd.y, cd.x + 2), 4);
    ComplexityMono(a.field, b.field, cd);
  }

  /** Complexity compared term by term. */
  lemma ComplexityMono(f: Grid<Edge>, g: Grid<Edge>, cd: Coord)
    requires f.Valid() && g.Valid() && f.height == g.height && f.width == g.width
    requires Degree(g, Coord(cd.y - 2, cd.x)).1 <= Degree(f, Coord(cd.y - 2, cd.x)).1
    requires Degree(g, Coord(cd.y, cd.x - 2)).1 <= Degree(f, Coord(cd.y, cd.x - 2)).1
    requires Degree(g, Coord(cd.y + 2, cd.x)).1 <= Degree(f, Coord(cd.y + 2, cd.x)).1
    requires Degree(g, Coord(cd.y, cd.x + 2)).1 <= Degree(f, Coord(cd.y, cd.x + 2)).1
    ensures Complexity(f, cd) <= Complexity(g, cd)
  {
  }

  /** `p` has the shape of the placement of an `h x w` board. */
  ghost predicate Fits(p: NumberlinkBase.LinePlacement, h: int, w: int)
    reads p
  {
    p.Valid() && p.right.height == h && p.right.width == w - 1 && p.down.height == h - 1 && p.down.width == w
  }

  /**
   * Cell `(y, x)` of `p` holds the segments right and down that are `Line`
   * edges of `f` when the row-major scan has passed it before `(y0, x0)`,
   * and none otherwise.
   */
  ghost predicate CellDrawn(p: NumberlinkBase.LinePlacement, f: Grid<Edge>, y: int, x: int, y0: int, x0: int)
    reads p
    requires f.Valid() && p.Valid()
  {
    var passed := y < y0 || (y == y0 && x < x0);
    && p.Right(Coord(y, x)) == (passed && EdgeAt(f, Coord(2 * y, 2 * x + 1)) == Line)
    && p.Down(Coord(y, x)) == (passed && EdgeAt(f, Coord(2 * y + 1, 2 * x)) == Line)
  }

  ghost predicate DrawnBefore(p: NumberlinkBase.LinePlacement, f: Grid<Edge>, h: int, w: int, y: int, x: int)
    reads p
    requires f.Valid() && p.Valid()
  {
    forall cy, cx :: 0 <= cy < h && 0 <= cx < w ==> CellDrawn(p, f, cy, cx, y, x)
  }

  /** One cell of `as_line_placement`: its segment down, then its segment right. */
  method DrawCell(p: NumberlinkBase.LinePlacement, f: Grid<Edge>, h: int, w: int, y: int, x: int)
    requires f.Valid() && f.height == 2 * h - 1 && f.width == 2 * w - 1 && Fits(p, h, w)
    requires 0 <= y < h && 0 <= x < w && DrawnBefore(p, f, h, w, y, x)
    modifies p
    ensures Fits(p, h, w) && DrawnBefore(p, f, h, w, y, x + 1)
  {
    var c := Coord(y, x);
    if y < h - 1 && EdgeAt(f, Coord(y * 2 + 1, x * 2)) == Line {
      p.down.IndexInRange(c);
      p.SetDown(c, true);
    }
    if x < w - 1 && EdgeAt(f, Coord(y * 2, x * 2 + 1)) == Line {
      p.right.IndexInRange(c);
      p.SetRight(c, true);
    }
    ghost var x1 := x + 1;
    forall cy, cx | 0 <= cy < h && 0 <= cx < w
      ensures CellDrawn(p, f, cy, cx, y, x1)
    {
      assert old(CellDrawn(p, f, cy, cx, y, x));
      if Coord(cy, cx) != c {
        assert p.Right(Coord(cy, cx)) == old(p.Right(Coord(cy, cx)));
        assert p.Down(Coord(cy, cx)) == old(p.Down(Coord(cy, cx)));
      }
    }
  }

  /**
   * `as_line_placement` on the edges `f` of an `h x w` board: a segment
   * exactly where the edge between two cells is a `Line`.
   */
  method DrawPlacement(f: Grid<Edge>, h: int, w: int) returns (p: NumberlinkBase.LinePlacement)
    requires f.Valid() && f.height == 2 * h - 1 && f.width == 2 * w - 1 && h >= 1 && w >= 1
    ensures fresh(p) && Fits(p, h, w)
    ensures forall y, x :: 0 <= y < h && 0 <= x < w ==>
      && p.Right(Coord(y, x)) == (EdgeAt(f, Coord(2 * y, 2 * x + 1)) == Line)
      && p.Down(Coord(y, x)) == (EdgeAt(f, Coord(2 * y + 1, 2 * x)) == Line)
  {
    p := new NumberlinkBase.LinePlacement(h, w);
    forall cy, cx | 0 <= cy < h && 0 <= cx < w
      ensures CellDrawn(p, f, cy, cx, 0, 0)
    {
      if p.right.IsValidCoord(Coord(cy, cx)) {
        p.right.IndexInRange(Coord(cy, cx));
      }
      if p.down.IsValidCoord(Coord(cy, cx)) {
        p.down.IndexInRange(Coord(cy, cx));
      }
    }
    for y := 0 to h
      invariant Fits(p, h, w) && DrawnBefore(p, f, h, w, y, 0)
    {
      for x := 0 to w
        invariant Fits(p, h, w) && DrawnBefore(p, f, h, w, y, x)
      {
        DrawCell(p, f, h, w, y, x);
      }
      assert DrawnBefore(p, f, h, w, y + 1, 0) by {
        ghost var y1 := y + 1;
        forall cy, cx | 0 <= cy < h && 0 <= cx < w
          ensures CellDrawn(p, f, cy, cx, y1, 0)
        {
          assert CellDrawn(p, f, cy, cx, y, w);
        }
      }
    }
    forall y, x | 0 <= y < h && 0 <= x < w
      ensures p.Right(Coord(y, x)) == (EdgeAt(f, Coord(2 * y, 2 * x + 1)) == Line)
      ensures p.Down(Coord(y, x)) == (EdgeAt(f, Coord(2 * y + 1, 2 * x)) == Line)
    {
      assert CellDrawn(p, f, y, x, h, 0);
    }
  }

  /**
   * The loop of `new`: every cell is the other end of its own chain, and
   * the `Forced` cells are counted.
   */
  method InitialChains(n: nat, ec: seq<Endpoint>) returns (union: seq<nat>, forced: int)
    requires |ec| == n
    ensures |union| == n && forall i :: 0 <= i < n ==> union[i] == i
    ensures forced == multiset(ec)[Forced]
  {
    union := seq(n, _ => 0);
    forced := 0;
    var idx := 0;
    while idx < n
      invariant 0 <= idx <= n && |union| == n
      invariant forall i :: 0 <= i < idx ==> union[i] == i
      invariant forced == multiset(ec[..idx])[Forced]
    {
      union := union[idx := idx];
      assert ec[..idx + 1] == ec[..idx] + [ec[idx]];
      if ec[idx] == Forced {
        forced := forced + 1;
      }
      idx := idx + 1;
    }
    assert ec[..n] == ec;
  }

  /** `seed_idx` after `new`: the four corner vertices in slots 0 to 3. */
  function CornerSeedIdx(h: int, w: int): Grid<int>
    requires h >= 2 && w >= 2
  {
    NewGrid(2 * h - 1, 2 * w - 1, -1).Set(Coord(0, 0), 0).Set(Coord(0, 2 * w - 2), 1)
      .Set(Coord(2 * h - 2, 0), 2).Set(Coord(2 * h - 2, 2 * w - 2), 3)
  }

  /** `seeds` after `new`. */
  function CornerSeedList(h: int, w: int): seq<Coord>
    requires h >= 2 && w >= 2
  {
    Offset(h, w, 1, 1);
    seq(h * w, _ => Coord(0, 0))[0 := Coord(0, 0)][1 := Coord(0, 2 * w - 2)]
      [2 := Coord(2 * h - 2, 0)][3 := Coord(2 * h - 2, 2 * w - 2)]
  }

  /** The four corner vertices, in slot order. */
  function Corners(h: int, w: int): seq<Coord> {
    [Coord(0, 0), Coord(0, 2 * w - 2), Coord(2 * h - 2, 0), Coord(2 * h - 2, 2 * w - 2)]
  }

  /** `seed_idx` after `new` holds a corner's slot at the corner and -1 elsewhere. */
  lemma CornerSeedIdxAt(h: int, w: int, cd: Coord)
    requires h >= 2 && w >= 2 && 0 <= cd.y < 2 * h - 1 && 0 <= cd.x < 2 * w - 1
    ensures var si := CornerSeedIdx(h, w);
      && si.Valid() && si.height == 2 * h - 1 && si.width == 2 * w - 1
      && si.Get(cd) == if cd == Corners(h, w)[0] then 0 else if cd == Corners(h, w)[1] then 1
                       else if cd == Corners(h, w)[2] then 2 else if cd == Corners(h, w)[3] then 3 else -1
  {
    var corners := Corners(h, w);
    var g0 := NewGrid(2 * h - 1, 2 * w - 1, -1);
    var g1 := g0.Set(corners[0], 0);
    var g2 := g1.Set(corners[1], 1);
    var g3 := g2.Set(corners[2], 2);
    GetSet(g0, corners[0], 0, cd);
    GetSet(g1, corners[1], 1, cd);
    GetSet(g2, corners[2], 2, cd);
    GetSet(g3, corners[3], 3, cd);
    g0.IndexInRange(cd);
  }

  /** The four corners are distinct vertices, listed in slots 0 to 3. */
  lemma CornerSeeds(h: int, w: int)
    requires h >= 2 && w >= 2
    ensures var si, ss := CornerSeedIdx(h, w), CornerSeedList(h, w);
      && SeedList(si, ss, 4) && si.height == 2 * h - 1 && si.width == 2 * w - 1 && |ss| == h * w
      && SeedSet(ss, 4) == {Coord(0, 0), Coord(0, 2 * w - 2), Coord(2 * h - 2, 0), Coord(2 * h - 2, 2 * w - 2)}
  {
    var si, ss := CornerSeedIdx(h, w), CornerSeedList(h, w);
    var corners := Corners(h, w);
    CornerSeedIdxAt(h, w, Coord(0, 0));
    assert ss[..4] == corners;
    forall i | 0 <= i < 4
      ensures IsVertex(ss[i]) && si.IsValidCoord(ss[i]) && si.Get(ss[i]) == i
    {
      CornerSeedIdxAt(h, w, corners[i]);
    }
    forall cd | si.IsValidCoord(cd) && si.Get(cd) != -1
      ensures 0 <= si.Get(cd) < 4 && ss[si.Get(cd)] == cd
    {
      CornerSeedIdxAt(h, w, cd);
    }
    assert SeedSet(ss, 4) == {ss[0], ss[1], ss[2], ss[3]};
  }
}
