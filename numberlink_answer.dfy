/**
 * The value-level vocabulary of the Numberlink answer generator
 * (src/numberlink/generator_field.rs): edge and endpoint states, the four
 * neighbours of a lattice point, the union-find table of the chain
 * connectivity and the list of seed vertices.
 *
 * The answer lattice of an `h x w` board has `2h - 1` rows and `2w - 1`
 * columns: cells sit at even/even positions ("vertices"), and a position
 * with one odd coordinate is the edge between its two neighbours.
 */
module NumberlinkAnswer {
  import opened Common

  datatype Edge = Undecided | Line | Blank

  /** What a cell may be: anything, a forced line end (a clue), or no end. */
  datatype Endpoint = Any | Forced | Prohibited

  /** `Cnt<Coord>`: no, exactly one, or several undecided edges. */
  datatype Cnt = None | One(cd: Coord) | Many

  /** The neighbour order of `count_neighbor` and its relatives. */
  const Dirs: seq<Dir> := [Dir(1, 0), Dir(0, 1), Dir(-1, 0), Dir(0, -1)]

  predicate IsVertex(cd: Coord) {
    cd.y % 2 == 0 && cd.x % 2 == 0
  }

  predicate IsEdgePos(cd: Coord) {
    (cd.y + cd.x) % 2 == 1
  }

  /** `get_edge`: the edge at `cd`, `Blank` outside the lattice. */
  function EdgeAt(field: Grid<Edge>, cd: Coord): (e: Edge)
    requires field.Valid()
    ensures !field.IsValidCoord(cd) ==> e == Blank
    ensures field.IsValidCoord(cd) ==> e == field.Get(cd)
  {
    if field.IsValidCoord(cd) then field.Get(cd) else Blank
  }

  /** The number of `Line` edges among the first `k` neighbours of `cd`. */
  function LinesAround(field: Grid<Edge>, cd: Coord, k: nat): (n: nat)
    requires field.Valid() && k <= 4
    ensures n <= k
  {
    if k == 0 then 0
    else LinesAround(field, cd, k - 1) + (if EdgeAt(field, CoordAdd(cd, Dirs[k - 1])) == Line then 1 else 0)
  }

  /** The undecided edges among the first `k` neighbours of `cd`, in neighbour order. */
  function UndecidedAround(field: Grid<Edge>, cd: Coord, k: nat): (s: seq<Coord>)
    requires field.Valid() && k <= 4
    ensures |s| <= k
  {
    if k == 0 then []
    else
      var e := CoordAdd(cd, Dirs[k - 1]);
      UndecidedAround(field, cd, k - 1) + (if EdgeAt(field, e) == Undecided then [e] else [])
  }

  /** `count_neighbor(cd)` as a value: (line edges, undecided edges) around `cd`. */
  function Degree(field: Grid<Edge>, cd: Coord): (int, int)
    requires field.Valid()
  {
    (LinesAround(field, cd, 4), |UndecidedAround(field, cd, 4)|)
  }

  /** `is_seed`: no line and two undecided edges, or one line and some undecided edge. */
  predicate SeedAt(field: Grid<Edge>, cd: Coord)
    requires field.Valid()
  {
    var (line, undecided) := Degree(field, cd);
    (line == 0 && undecided == 2) || (line == 1 && undecided > 0)
  }

  /**
   * The undecided list holds exactly the undecided neighbours, each once,
   * and together with the lines it accounts for at most the four edges.
   */
  lemma {:induction false} UndecidedAroundSpec(field: Grid<Edge>, cd: Coord, k: nat)
    requires field.Valid() && k <= 4
    ensures forall e :: e in UndecidedAround(field, cd, k) <==>
      exists j :: 0 <= j < k && e == CoordAdd(cd, Dirs[j]) && EdgeAt(field, e) == Undecided
    ensures Distinct(UndecidedAround(field, cd, k))
    ensures LinesAround(field, cd, k) + |UndecidedAround(field, cd, k)| <= k
  {
    if k > 0 {
      UndecidedAroundSpec(field, cd, k - 1);
      var e := CoordAdd(cd, Dirs[k - 1]);
      var s := UndecidedAround(field, cd, k - 1);
      forall j | 0 <= j < k - 1
        ensures CoordAdd(cd, Dirs[j]) != e
      {
        assert Dirs[j] != Dirs[k - 1];
      }
      assert e !in s;
      forall e' ensures e' in UndecidedAround(field, cd, k) <==>
        exists j :: 0 <= j < k && e' == CoordAdd(cd, Dirs[j]) && EdgeAt(field, e') == Undecided
      {
        if e' in UndecidedAround(field, cd, k) && e' !in s {
          assert e' == e && EdgeAt(field, e') == Undecided;
          assert 0 <= k - 1 < k && e' == CoordAdd(cd, Dirs[k - 1]);
        }
      }
    }
  }

  /** A seed has an undecided edge to extend along. */
  lemma SeedHasUndecided(field: Grid<Edge>, cd: Coord)
    requires field.Valid() && SeedAt(field, cd)
    ensures |UndecidedAround(field, cd, 4)| > 0 && LinesAround(field, cd, 4) <= 1
  {
  }

  /** Cell `(y, x)` of a `width`-wide board has the slot `y * width + x`. */
  function CellId(width: int, cd: Coord): int {
    cd.y * width + cd.x
  }

  /** The cell a vertex stands for. */
  function CellOfVertex(cd: Coord): Coord {
    Coord(cd.y / 2, cd.x / 2)
  }

  lemma CellIdRange(height: nat, width: nat, cd: Coord)
    requires 0 <= cd.y < height && 0 <= cd.x < width
    ensures 0 <= CellId(width, cd) < height * width
  {
    Offset(height, width, cd.y, cd.x);
  }

  /** The slot of a cell and the cell of a slot determine each other. */
  lemma CellIdCoord(height: nat, width: nat, i: int)
    requires 0 <= i < height * width
    ensures width > 0 && 0 <= i / width < height && 0 <= i % width < width
    ensures CellId(width, Coord(i / width, i % width)) == i
  {
    var g := Grid(height, width, seq(height * width, _ => 0));
    g.IndexCoordOf(i);
  }

  lemma CellIdInjective(width: nat, a: Coord, b: Coord)
    requires 0 <= a.x < width && 0 <= b.x < width && CellId(width, a) == CellId(width, b)
    ensures a == b
  {
    DivModUnique(CellId(width, a), width, a.y, a.x);
    DivModUnique(CellId(width, b), width, b.y, b.x);
  }

  /** Two different vertices stand for cells with different slots. */
  lemma VertexIdInjective(width: nat, a: Coord, b: Coord)
    requires IsVertex(a) && IsVertex(b) && a != b
    requires 0 <= a.x < 2 * width - 1 && 0 <= b.x < 2 * width - 1
    ensures CellId(width, CellOfVertex(a)) != CellId(width, CellOfVertex(b))
  {
    if CellId(width, CellOfVertex(a)) == CellId(width, CellOfVertex(b)) {
      CellIdInjective(width, CellOfVertex(a), CellOfVertex(b));
    }
  }

  /**
   * The union-find table `chain_connectivity`: a root holds minus the size
   * of its set, any other entry its parent. `root` names each entry's root
   * and `depth` its distance from it, so that following parents ends.
   */
  ghost predicate UnionFind(par: seq<int>, root: seq<nat>, depth: seq<nat>) {
    && |root| == |par| && |depth| == |par|
    && (forall i {:trigger root[i]} :: 0 <= i < |par| ==> root[i] < |par| && par[root[i]] < 0)
    && (forall i {:trigger root[i]} {:trigger depth[i]} :: 0 <= i < |par| && par[i] < 0 ==> root[i] == i && depth[i] == 0)
    && (forall i {:trigger par[i]} :: 0 <= i < |par| && par[i] >= 0 ==> par[i] < |par|)
    && (forall i {:trigger root[par[i]]} {:trigger depth[par[i]]} :: 0 <= i < |par| && par[i] >= 0 ==>
          par[i] < |par| && root[par[i]] == root[i] && depth[par[i]] < depth[i])
    && (forall r {:trigger par[r]} :: 0 <= r < |par| && par[r] < 0 ==> par[r] == -|Members(root, r)|)
  }

  /** The entries whose root is `r`. */
  ghost function Members(root: seq<nat>, r: nat): set<nat> {
    set i: nat | i < |root| && root[i] == r
  }

  /** The roots after the set rooted at `l` is hung under the root `w`. */
  ghost function Relinked(root: seq<nat>, w: nat, l: nat): (r: seq<nat>)
    ensures |r| == |root|
  {
    seq(|root|, i requires 0 <= i < |root| => if root[i] == l then w else root[i])
  }

  /** The depths after the set rooted at `l` is hung one level under another root. */
  ghost function Deepened(root: seq<nat>, depth: seq<nat>, l: nat): (r: seq<nat>)
    requires |depth| == |root|
    ensures |r| == |root|
  {
    seq(|root|, i requires 0 <= i < |root| => if root[i] == l then depth[i] + 1 else depth[i])
  }

  /** Every set starts as its own singleton: all entries `-1`. */
  lemma SingletonSets(n: nat)
    ensures UnionFind(seq(n, _ => -1), seq(n, i => i), seq(n, _ => 0))
  {
    var root: seq<nat> := seq(n, i => i);
    forall r | 0 <= r < n
      ensures Members(root, r) == {r}
    {
    }
  }

  /** A non-root entry's parent is an entry of the same set, nearer the root. */
  lemma ParentStep(par: seq<int>, root: seq<nat>, depth: seq<nat>, x: nat)
    requires UnionFind(par, root, depth) && x < |par| && par[x] >= 0
    ensures par[x] < |par| && root[par[x]] == root[x] && depth[par[x]] < depth[x]
  {
    assert depth[par[x]] < depth[x];
  }

  /** Pointing a non-root entry straight at its root keeps the table a union-find of the same sets. */
  lemma Compress(par: seq<int>, root: seq<nat>, depth: seq<nat>, x: nat)
    requires UnionFind(par, root, depth) && x < |par| && par[x] >= 0
    ensures UnionFind(par[x := root[x]], root, depth)
  {
    var par' := par[x := root[x]];
    var rx := root[x];
    assert par[rx] < 0 && root[rx] == rx && depth[rx] == 0;
    assert depth[par[x]] < depth[x];
    forall i | 0 <= i < |par|
      ensures root[i] < |par'| && par'[root[i]] < 0
    {
      assert par[root[i]] < 0;
    }
    forall i | 0 <= i < |par| && par'[i] >= 0
      ensures par'[i] < |par'| && root[par'[i]] == root[i] && depth[par'[i]] < depth[i]
    {
      if i != x {
        assert par'[i] == par[i] && root[par[i]] == root[i] && depth[par[i]] < depth[i];
      }
    }
    forall i | 0 <= i < |par| && par'[i] < 0
      ensures root[i] == i && depth[i] == 0
    {
      assert par[i] < 0;
    }
    forall r | 0 <= r < |par| && par'[r] < 0
      ensures par'[r] == -|Members(root, r)|
    {
      assert par[r] < 0;
    }
  }

  /**
   * Hanging the root `l` under the root `w`, whose size grows by `l`'s:
   * the two sets become one rooted at `w` and every other set stays.
   */
  lemma Link(par: seq<int>, root: seq<nat>, depth: seq<nat>, w: nat, l: nat)
    requires UnionFind(par, root, depth) && w < |par| && l < |par| && w != l
    requires par[w] < 0 && par[l] < 0
    ensures UnionFind(par[w := par[w] + par[l]][l := w], Relinked(root, w, l), Deepened(root, depth, l))
  {
    var par' := par[w := par[w] + par[l]][l := w];
    var root', depth' := Relinked(root, w, l), Deepened(root, depth, l);
    LinkRoots(par, root, depth, w, l, par', root', depth');
    LinkParents(par, root, depth, w, l, par', root', depth');
    LinkSizes(par, root, depth, w, l, par', root');
  }

  /** `Link`, for the roots: each entry's new root is a root, and each root is its own. */
  lemma LinkRoots(par: seq<int>, root: seq<nat>, depth: seq<nat>, w: nat, l: nat,
                  par': seq<int>, root': seq<nat>, depth': seq<nat>)
    requires UnionFind(par, root, depth) && w < |par| && l < |par| && w != l
    requires par[w] < 0 && par[l] < 0
    requires par' == par[w := par[w] + par[l]][l := w]
    requires root' == Relinked(root, w, l) && depth' == Deepened(root, depth, l)
    ensures forall i {:trigger root'[i]} :: 0 <= i < |par'| ==> root'[i] < |par'| && par'[root'[i]] < 0
    ensures forall i {:trigger root'[i]} {:trigger depth'[i]} :: 0 <= i < |par'| && par'[i] < 0 ==>
              root'[i] == i && depth'[i] == 0
  {
    assert root[w] == w && root[l] == l;
    forall i | 0 <= i < |par'|
      ensures root'[i] < |par'| && par'[root'[i]] < 0
    {
      if root[i] != l {
        assert root'[i] == root[i];
      }
    }
    forall i | 0 <= i < |par'| && par'[i] < 0
      ensures root'[i] == i && depth'[i] == 0
    {
      assert i != l && root[i] == i;
    }
  }

  /** `Link`, for the parents: each parent lies in its child's set, nearer the root. */
  lemma LinkParents(par: seq<int>, root: seq<nat>, depth: seq<nat>, w: nat, l: nat,
                    par': seq<int>, root': seq<nat>, depth': seq<nat>)
    requires UnionFind(par, root, depth) && w < |par| && l < |par| && w != l
    requires par[w] < 0 && par[l] < 0
    requires par' == par[w := par[w] + par[l]][l := w]
    requires root' == Relinked(root, w, l) && depth' == Deepened(root, depth, l)
    ensures forall i {:trigger par'[i]} :: 0 <= i < |par'| && par'[i] >= 0 ==> par'[i] < |par'|
    ensures forall i {:trigger root'[par'[i]]} {:trigger depth'[par'[i]]} :: 0 <= i < |par'| && par'[i] >= 0 ==>
              par'[i] < |par'| && root'[par'[i]] == root'[i] && depth'[par'[i]] < depth'[i]
  {
    assert root[w] == w && root[l] == l;
    forall i | 0 <= i < |par'| && par'[i] >= 0
      ensures par'[i] < |par'| && root'[par'[i]] == root'[i] && depth'[par'[i]] < depth'[i]
    {
      if i != l {
        assert par'[i] == par[i] && root[par[i]] == root[i];
      }
    }
  }

  /** `Link`, for the sizes: `w`'s set is the union of the two, and every other set stays. */
  lemma LinkSizes(par: seq<int>, root: seq<nat>, depth: seq<nat>, w: nat, l: nat,
                  par': seq<int>, root': seq<nat>)
    requires UnionFind(par, root, depth) && w < |par| && l < |par| && w != l
    requires par[w] < 0 && par[l] < 0
    requires par' == par[w := par[w] + par[l]][l := w]
    requires root' == Relinked(root, w, l)
    ensures forall r {:trigger par'[r]} :: 0 <= r < |par'| && par'[r] < 0 ==> par'[r] == -|Members(root', r)|
  {
    assert root[w] == w && root[l] == l;
    forall r | 0 <= r < |par'| && par'[r] < 0
      ensures par'[r] == -|Members(root', r)|
    {
      if r == w {
        assert Members(root', w) == Members(root, w) + Members(root, l);
        assert Members(root, w) * Members(root, l) == {};
      } else {
        assert Members(root', r) == Members(root, r);
      }
    }
  }

  /**
   * After the set rooted at `l` is hung under `w`, two entries share a
   * root exactly when they did before, or one was in `x`'s set and the
   * other in `y`'s, where `x` and `y` are the two joined entries.
   */
  lemma RelinkedSets(root: seq<nat>, w: nat, l: nat, x: nat, y: nat)
    requires w < |root| && l < |root| && x < |root| && y < |root| && w != l
    requires (root[x] == w && root[y] == l) || (root[x] == l && root[y] == w)
    ensures MergedSets(root, Relinked(root, w, l), x, y)
    ensures Relinked(root, w, l)[x] == w && Relinked(root, w, l)[y] == w
  {
  }

  /**
   * `after` groups entries as `before` does, except that the groups of
   * `x` and `y` are one.
   */
  ghost predicate MergedSets(before: seq<nat>, after: seq<nat>, x: nat, y: nat)
    requires |after| == |before| && x < |before| && y < |before|
  {
    forall i, j :: 0 <= i < |before| && 0 <= j < |before| ==>
      (after[i] == after[j] <==>
         before[i] == before[j] || (before[i] == before[x] && before[j] == before[y])
         || (before[i] == before[y] && before[j] == before[x]))
  }

  /** Joining two entries already in one group changes no group. */
  lemma MergedSame(root: seq<nat>, x: nat, y: nat)
    requires x < |root| && y < |root| && root[x] == root[y]
    ensures MergedSets(root, root, x, y)
  {
  }

  /** The positions listed as seeds: the first `count` entries of `seeds`. */
  function SeedSet(seeds: seq<Coord>, count: int): set<Coord>
    requires 0 <= count <= |seeds|
  {
    set i | 0 <= i < count :: seeds[i]
  }

  /**
   * `seeds[..count]` lists distinct vertices of the lattice and `seed_idx`
   * maps each listed position to its slot and every other position to -1.
   */
  ghost predicate SeedList(idx: Grid<int>, seeds: seq<Coord>, count: int) {
    && idx.Valid() && 0 <= count <= |seeds|
    && (forall i :: 0 <= i < count ==>
          IsVertex(seeds[i]) && idx.IsValidCoord(seeds[i]) && idx.Get(seeds[i]) == i)
    && (forall cd :: idx.IsValidCoord(cd) && idx.Get(cd) != -1 ==>
          0 <= idx.Get(cd) < count && seeds[idx.Get(cd)] == cd)
  }

  /** Only the listed prefix of `seeds` matters. */
  lemma SeedListPrefix(idx: Grid<int>, seeds: seq<Coord>, seeds': seq<Coord>, count: int)
    requires SeedList(idx, seeds, count) && count <= |seeds'| && seeds'[..count] == seeds[..count]
    ensures SeedList(idx, seeds', count) && SeedSet(seeds', count) == SeedSet(seeds, count)
  {
    assert forall i :: 0 <= i < count ==> seeds'[i] == seeds[..count][i];
  }

  /**
   * Dropping the listed vertex `cd`: the last listed vertex moves into its
   * slot, the count shrinks, and `cd` is unmarked.
   */
  lemma SeedRemove(idx: Grid<int>, seeds: seq<Coord>, count: int, cd: Coord)
    requires SeedList(idx, seeds, count) && idx.IsValidCoord(cd) && idx.Get(cd) != -1
    ensures var si, moved := idx.Get(cd), seeds[count - 1];
      && idx.IsValidCoord(moved) && 0 <= si < count
      && SeedList(idx.Set(moved, si).Set(cd, -1), seeds[si := moved], count - 1)
      && SeedSet(seeds[si := moved], count - 1) == SeedSet(seeds, count) - {cd}
  {
    var si, moved := idx.Get(cd), seeds[count - 1];
    var idx1 := idx.Set(moved, si);
    var idx2 := idx1.Set(cd, -1);
    var seeds' := seeds[si := moved];
    forall i | 0 <= i < count - 1
      ensures IsVertex(seeds'[i]) && idx2.IsValidCoord(seeds'[i]) && idx2.Get(seeds'[i]) == i
    {
      if i == si {
        GetSet(idx, moved, si, moved);
        GetSet(idx1, cd, -1, moved);
      } else {
        assert seeds[i] != cd && seeds[i] != moved;
        GetSet(idx, moved, si, seeds[i]);
        GetSet(idx1, cd, -1, seeds[i]);
      }
    }
    forall p | idx2.IsValidCoord(p) && idx2.Get(p) != -1
      ensures 0 <= idx2.Get(p) < count - 1 && seeds'[idx2.Get(p)] == p
    {
      GetSet(idx, moved, si, p);
      GetSet(idx1, cd, -1, p);
      if p != moved {
        assert idx.Get(p) != -1 && seeds[idx.Get(p)] == p;
      }
    }
    forall p
      ensures p in SeedSet(seeds', count - 1) <==> p in SeedSet(seeds, count) - {cd}
    {
      if p in SeedSet(seeds, count) - {cd} {
        var i :| 0 <= i < count && seeds[i] == p;
        if i == count - 1 {
          assert seeds'[si] == p;
        } else {
          assert seeds'[i] == p;
        }
      }
    }
  }

  /** Listing the unlisted vertex `cd` in the next free slot. */
  lemma SeedAdd(idx: Grid<int>, seeds: seq<Coord>, count: int, cd: Coord)
    requires SeedList(idx, seeds, count) && idx.IsValidCoord(cd) && IsVertex(cd) && idx.Get(cd) == -1
    requires count < |seeds|
    ensures SeedList(idx.Set(cd, count), seeds[count := cd], count + 1)
    ensures SeedSet(seeds[count := cd], count + 1) == SeedSet(seeds, count) + {cd}
  {
    var idx' := idx.Set(cd, count);
    var seeds' := seeds[count := cd];
    forall i | 0 <= i < count + 1
      ensures IsVertex(seeds'[i]) && idx'.IsValidCoord(seeds'[i]) && idx'.Get(seeds'[i]) == i
    {
      if i < count {
        assert seeds'[i] == seeds[i] && idx.Get(seeds[i]) == i;
        GetSet(idx, cd, count, seeds[i]);
      } else {
        GetSet(idx, cd, count, cd);
      }
    }
    forall p | idx'.IsValidCoord(p) && idx'.Get(p) != -1
      ensures 0 <= idx'.Get(p) < count + 1 && seeds'[idx'.Get(p)] == p
    {
      GetSet(idx, cd, count, p);
      if p != cd {
        assert idx.Get(p) != -1;
      }
    }
    forall p
      ensures p in SeedSet(seeds', count + 1) <==> p in SeedSet(seeds, count) + {cd}
    {
      if p in SeedSet(seeds, count) {
        var i :| 0 <= i < count && seeds[i] == p;
        assert seeds'[i] == p;
      }
      if p == cd {
        assert seeds'[count] == p;
      }
    }
  }

  /** With the list in order, `seed_idx` tells exactly which positions are seeds. */
  lemma SeedListMembers(idx: Grid<int>, seeds: seq<Coord>, count: int, cd: Coord)
    requires SeedList(idx, seeds, count) && idx.IsValidCoord(cd)
    ensures cd in SeedSet(seeds, count) <==> idx.Get(cd) != -1
  {
    if cd in SeedSet(seeds, count) {
      var i :| 0 <= i < count && seeds[i] == cd;
    }
  }

  /**
   * An unlisted vertex fits: distinct vertices of an `h x w` lattice map to
   * distinct cells, so fewer than `h * w` are listed.
   */
  lemma SeedRoom(h: nat, w: nat, idx: Grid<int>, seeds: seq<Coord>, count: int, cd: Coord)
    requires SeedList(idx, seeds, count) && idx.height == 2 * h - 1 && idx.width == 2 * w - 1
    requires IsVertex(cd) && idx.IsValidCoord(cd) && idx.Get(cd) == -1
    ensures count < h * w
  {
    var ids := seq(count, i requires 0 <= i < count => CellId(w, CellOfVertex(seeds[i])));
    forall i | 0 <= i < count
      ensures 0 <= ids[i] < h * w
    {
      CellIdRange(h, w, CellOfVertex(seeds[i]));
    }
    assert Distinct(ids) by {
      forall i, j | 0 <= i < j < count
        ensures ids[i] != ids[j]
      {
        assert seeds[i] != seeds[j];
        VertexIdInjective(w, seeds[i], seeds[j]);
      }
    }
    var v := CellId(w, CellOfVertex(cd));
    CellIdRange(h, w, CellOfVertex(cd));
    forall i | 0 <= i < count
      ensures ids[i] != v
    {
      assert seeds[i] != cd;
      VertexIdInjective(w, seeds[i], cd);
    }
    var ns: seq<nat> := ids;
    QueueBound(ns, v, h * w);
  }
}
