/**
 * Coordinates, directions, the row-major `Grid` and the deduplicating
 * ring buffer `FiniteSearchQueue` shared by the puzzle engines
 * (src/common/mod.rs).
 *
 * Coordinates are unbounded integers: the source's `i32` arithmetic is
 * modelled without overflow.
 */
module Common {

  /** A cell position. */
  datatype Coord = Coord(y: int, x: int)

  /** A position on the doubled (vertex / edge / cell) lattice of loop puzzles. */
  datatype LoopCoord = LoopCoord(y: int, x: int)

  /** A displacement. */
  datatype Dir = Dir(y: int, x: int)

  /**
   * `FOUR_NEIGHBOURS`, the four unit steps. It is not defined in the
   * sources shown; it is taken to list up, left, down and right.
   */
  const FourNeighbours: seq<Dir> := [Dir(-1, 0), Dir(0, -1), Dir(1, 0), Dir(0, 1)]

  function CoordAdd(c: Coord, d: Dir): (r: Coord)
    ensures r.y - c.y == d.y && r.x - c.x == d.x
  {
    Coord(c.y + d.y, c.x + d.x)
  }

  function CoordSub(c: Coord, d: Dir): (r: Coord)
    ensures c.y - r.y == d.y && c.x - r.x == d.x
  {
    Coord(c.y - d.y, c.x - d.x)
  }

  function LoopCoordAdd(c: LoopCoord, d: Dir): (r: LoopCoord)
    ensures r.y - c.y == d.y && r.x - c.x == d.x
  {
    LoopCoord(c.y + d.y, c.x + d.x)
  }

  function LoopCoordSub(c: LoopCoord, d: Dir): (r: LoopCoord)
    ensures c.y - r.y == d.y && c.x - r.x == d.x
  {
    LoopCoord(c.y - d.y, c.x - d.x)
  }

  function DirAdd(a: Dir, b: Dir): (r: Dir)
    ensures r.y - a.y == b.y && r.x - a.x == b.x
  {
    Dir(a.y + b.y, a.x + b.x)
  }

  function DirSub(a: Dir, b: Dir): (r: Dir)
    ensures a.y - r.y == b.y && a.x - r.x == b.x
  {
    Dir(a.y - b.y, a.x - b.x)
  }

  /** `Dir * k`: both components scaled by `k`. */
  function DirScale(d: Dir, k: int): (r: Dir)
    ensures r.y == d.y * k && r.x == d.x * k
  {
    Dir(d.y * k, d.x * k)
  }

  /** Subtracting a direction undoes adding it, and the other way round. */
  lemma CoordAddSubInverse(c: Coord, d: Dir)
    ensures CoordSub(CoordAdd(c, d), d) == c
    ensures CoordAdd(CoordSub(c, d), d) == c
    ensures LoopCoordSub(LoopCoordAdd(LoopCoord(c.y, c.x), d), d) == LoopCoord(c.y, c.x)
  {
  }

  /** Stepping `k + 1` times along `d` is stepping `k` times and then once more. */
  lemma {:induction false} DirScaleStep(c: Coord, d: Dir, k: int)
    ensures CoordAdd(c, DirScale(d, k + 1)) == CoordAdd(CoordAdd(c, DirScale(d, k)), d)
  {
    assert d.y * (k + 1) == d.y * k + d.y;
    assert d.x * (k + 1) == d.x * k + d.x;
  }

  /** The operator test values. */
  lemma OperatorExamples()
    ensures CoordAdd(Coord(1, 2), Dir(3, 5)) == Coord(4, 7)
    ensures CoordSub(Coord(1, 2), Dir(3, 5)) == Coord(-2, -3)
    ensures LoopCoordAdd(LoopCoord(1, 2), Dir(3, 5)) == LoopCoord(4, 7)
    ensures LoopCoordSub(LoopCoord(1, 2), Dir(3, 5)) == LoopCoord(-2, -3)
    ensures DirAdd(Dir(1, 2), Dir(3, 5)) == Dir(4, 7)
    ensures DirSub(Dir(1, 2), Dir(3, 5)) == Dir(-2, -3)
    ensures DirScale(Dir(1, 2), 3) == Dir(3, 6)
  {
  }

  /** A rectangular grid stored row-major. */
  datatype Grid<T> = Grid(height: int, width: int, data: seq<T>)
  {
    ghost predicate Valid() {
      height >= 0 && width >= 0 && |data| == height * width
    }

    predicate IsValidCoord(cd: Coord) {
      0 <= cd.y < height && 0 <= cd.x < width
    }

    /** The slot of a cell: `y * width + x`. */
    function Index(cd: Coord): int {
      cd.y * width + cd.x
    }

    function IndexLoop(cd: LoopCoord): int {
      cd.y * width + cd.x
    }

    /** The cell stored at a slot. */
    function CoordOf(i: int): Coord
      requires width > 0
    {
      Coord(i / width, i % width)
    }

    function Get(cd: Coord): T
      requires Valid() && IsValidCoord(cd)
    {
      IndexInRange(cd);
      data[Index(cd)]
    }

    function GetLoop(cd: LoopCoord): T
      requires Valid() && IsValidCoord(Coord(cd.y, cd.x))
    {
      IndexInRange(Coord(cd.y, cd.x));
      data[IndexLoop(cd)]
    }

    function Set(cd: Coord, v: T): (g: Grid<T>)
      requires Valid() && IsValidCoord(cd)
      ensures g.Valid() && g.height == height && g.width == width
    {
      IndexInRange(cd);
      Grid(height, width, data[Index(cd) := v])
    }

    /** A valid cell has a slot inside the data. */
    lemma IndexInRange(cd: Coord)
      requires Valid() && IsValidCoord(cd)
      ensures 0 <= Index(cd) < |data|
    {
      MulMonotone(cd.y, height - 1, width);
    }

    /** Slot and cell determine each other. */
    lemma IndexCoordOf(i: int)
      requires Valid() && 0 <= i < |data|
      ensures width > 0 && IsValidCoord(CoordOf(i)) && Index(CoordOf(i)) == i
    {
      var q, r := i / width, i % width;
      assert i == q * width + r;
      if q >= height {
        MulMonotone(height, q, width);
      }
    }

    lemma CoordOfIndex(cd: Coord)
      requires Valid() && IsValidCoord(cd)
      ensures width > 0 && CoordOf(Index(cd)) == cd
    {
      IndexInRange(cd);
      var i := Index(cd);
      assert i == cd.y * width + cd.x;
      assert i / width == cd.y && i % width == cd.x by {
        DivModUnique(i, width, cd.y, cd.x);
      }
    }

    /** Two valid cells share a slot only when they are the same cell. */
    lemma IndexInjective(a: Coord, b: Coord)
      requires Valid() && IsValidCoord(a) && IsValidCoord(b)
      ensures Index(a) == Index(b) <==> a == b
    {
      if Index(a) == Index(b) {
        CoordOfIndex(a);
        CoordOfIndex(b);
      }
    }
  }

  lemma MulMonotone(a: int, b: int, w: nat)
    requires a <= b
    ensures a * w <= b * w
  {
    assert b * w - a * w == (b - a) * w;
  }

  /** The next row starts `width` slots further on. */
  lemma MulStep(y: int, width: int)
    ensures (y + 1) * width == y * width + width
  {
  }

  /** Slot `y * width + x` of a cell inside the grid lies inside its data. */
  lemma Offset(height: nat, width: nat, y: int, x: int)
    requires 0 <= y < height && 0 <= x < width
    ensures 0 <= y * width + x < height * width
  {
    MulMonotone(y + 1, height, width);
  }

  lemma DivModUnique(i: int, w: int, q: int, r: int)
    requires w > 0 && 0 <= r < w && i == q * w + r
    ensures i / w == q && i % w == r
  {
    var q', r' := i / w, i % w;
    assert i == q' * w + r';
    assert (q - q') * w == r' - r;
    if q > q' {
      MulMonotone(1, q - q', w);
    } else if q < q' {
      MulMonotone(1, q' - q, w);
    }
  }

  /** `Grid::new(h, w, d)`. */
  function NewGrid<T>(height: int, width: int, default: T): (g: Grid<T>)
    requires height >= 0 && width >= 0
    ensures g.Valid() && g.height == height && g.width == width
    ensures forall i :: 0 <= i < |g.data| ==> g.data[i] == default
  {
    Grid(height, width, seq(height * width, _ => default))
  }

  /** The number of `true` entries. */
  function CountTrue(b: seq<bool>): (r: nat)
    ensures r <= |b|
  {
    if |b| == 0 then 0 else CountTrue(b[..|b| - 1]) + (if b[|b| - 1] then 1 else 0)
  }

  lemma {:induction false} CountPrefix(b: seq<bool>, i: int)
    requires 0 <= i < |b|
    ensures CountTrue(b[..i + 1]) == CountTrue(b[..i]) + (if b[i] then 1 else 0)
  {
    assert b[..i + 1][..i] == b[..i];
  }

  lemma CountAll(b: seq<bool>)
    ensures CountTrue(b[..|b|]) == CountTrue(b)
  {
    assert b[..|b|] == b;
  }

  /** Setting entry `i` to `v` moves the count by the change at `i`. */
  lemma {:induction false} CountUpdate(b: seq<bool>, i: int, v: bool)
    requires 0 <= i < |b|
    ensures CountTrue(b[i := v]) == CountTrue(b) - (if b[i] then 1 else 0) + (if v then 1 else 0)
  {
    var n := |b| - 1;
    if i < n {
      assert b[i := v][..n] == b[..n][i := v];
      CountUpdate(b[..n], i, v);
    } else {
      assert b[i := v][..n] == b[..n];
    }
  }

  /** Writing a cell changes that cell and no other. */
  lemma GetSet<T>(g: Grid<T>, cd: Coord, v: T, other: Coord)
    requires g.Valid() && g.IsValidCoord(cd) && g.IsValidCoord(other)
    ensures g.Set(cd, v).Get(other) == if other == cd then v else g.Get(other)
  {
    g.IndexInjective(cd, other);
    g.IndexInRange(other);
  }

  /** The grid test: on a 3x3 grid `LoopCoord{1,1}` is slot 4. */
  lemma GridExample()
    ensures var g := NewGrid(3, 3, 0).Set(Coord(1, 1), 4);
      g.GetLoop(LoopCoord(1, 1)) == 4 && g.GetLoop(LoopCoord(1, 0)) == 0
      && g.GetLoop(LoopCoord(2, 0)) == 0 && g.data[4] == 4
  {
  }

  /**
   * Deduplicating FIFO over the values `0 .. maxElem - 1`
   * (`FiniteSearchQueue`). `queue` has `maxElem + 1` slots and `stored`
   * marks the queued values; `Contents` is the abstract queue, read from
   * `top` to `end`.
   */
  class FiniteSearchQueue {
    var top: nat
    var end: nat
    var size: nat
    var queue: seq<nat>
    var stored: seq<bool>
    var isStarted: bool
    ghost var Contents: seq<nat>

    ghost predicate Valid()
      reads this
    {
      RingInv(top, end, size, queue, stored, Contents)
    }

    constructor (maxElem: nat)
      ensures Valid() && Contents == [] && !isStarted
      ensures |stored| == maxElem && top == 0 && end == 0
    {
      top := 0;
      end := 0;
      size := maxElem + 1;
      queue := seq(maxElem + 1, _ => 0);
      stored := seq(maxElem, _ => false);
      isStarted := false;
      Contents := [];
    }

    method IsStarted() returns (b: bool)
      ensures b == isStarted
    {
      b := isStarted;
    }

    method Start()
      modifies this`isStarted
      ensures isStarted
    {
      isStarted := true;
    }

    method Finish()
      modifies this`isStarted
      ensures !isStarted
    {
      isStarted := false;
    }

    /** Enqueues `v` unless it is already queued. */
    method Push(v: nat)
      requires Valid() && v < |stored|
      modifies this
      ensures Valid() && isStarted == old(isStarted) && |stored| == old(|stored|)
      ensures Contents == if v in old(Contents) then old(Contents) else old(Contents) + [v]
      ensures old(stored[v]) ==> end == old(end) && queue == old(queue)
    {
      if !stored[v] {
        RingPush(top, end, size, queue, stored, Contents, v);
        stored := stored[v := true];
        queue := queue[end := v];
        end := if end + 1 == size then 0 else end + 1;
        Contents := Contents + [v];
      }
    }

    /** Enqueues `0` to `n - 1` in turn, each unless it is already queued. */
    method PushAll(n: nat)
      requires Valid() && n <= |stored|
      modifies this
      ensures Valid() && isStarted == old(isStarted) && |stored| == old(|stored|)
      ensures forall v :: 0 <= v < n ==> v in Contents
    {
      var i := 0;
      while i < n
        invariant 0 <= i <= n && Valid() && isStarted == old(isStarted) && |stored| == old(|stored|)
        invariant forall v :: 0 <= v < i ==> v in Contents
      {
        ghost var c0 := Contents;
        Push(i);
        PushMembers(c0, Contents, i);
        i := i + 1;
      }
    }

    /** Dequeues the oldest value and clears its mark. */
    method Pop() returns (r: nat)
      requires Valid() && Contents != []
      modifies this
      ensures Valid() && isStarted == old(isStarted) && |stored| == old(|stored|)
      ensures r == old(Contents[0]) && Contents == old(Contents[1..])
    {
      RingPop(top, end, size, queue, stored, Contents);
      r := queue[top];
      top := if top + 1 == size then 0 else top + 1;
      stored := stored[r := false];
      Contents := Contents[1..];
    }

    /**
     * `clear`: drops every queued value and every mark. It is called by
     * src/numberlink/generator_field.rs but not defined in the sources
     * shown; this is its evident meaning.
     */
    method Clear()
      requires Valid()
      modifies this
      ensures Valid() && Contents == [] && isStarted == old(isStarted) && |stored| == old(|stored|)
    {
      top := 0;
      end := 0;
      stored := seq(|stored|, _ => false);
      Contents := [];
    }

    /** `top == end`, which is exactly an empty queue. */
    method Empty() returns (e: bool)
      requires Valid()
      ensures e <==> Contents == []
    {
      e := top == end;
    }
  }

  /**
   * The ring buffer holding `contents`: `queue` has one slot more than there
   * are values, the values sit in order from `top` to `end`, and `stored`
   * marks exactly the queued values, each queued once.
   */
  ghost predicate RingInv(top: nat, end: nat, size: nat, queue: seq<nat>, stored: seq<bool>, contents: seq<nat>) {
    && size == |queue| == |stored| + 1
    && top < size && end < size
    && |contents| < size
    && end == Slot(top, |contents|, size)
    && (forall k :: 0 <= k < |contents| ==> queue[Slot(top, k, size)] == contents[k])
    && (forall k :: 0 <= k < |contents| ==> contents[k] < |stored|)
    && (forall v :: 0 <= v < |stored| ==> (stored[v] <==> v in contents))
    && Distinct(contents)
  }

  /** After a push of `v` the queue holds `v` and everything it held before. */
  lemma PushMembers(c0: seq<nat>, c1: seq<nat>, v: nat)
    requires c1 == if v in c0 then c0 else c0 + [v]
    ensures v in c1 && forall x :: x in c0 ==> x in c1
  {
  }

  /** Writing an unmarked value at `end` and advancing `end` appends it. */
  lemma RingPush(top: nat, end: nat, size: nat, queue: seq<nat>, stored: seq<bool>, c: seq<nat>, v: nat)
    requires RingInv(top, end, size, queue, stored, c) && v < |stored| && !stored[v]
    ensures v !in c
    ensures RingInv(top, if end + 1 == size then 0 else end + 1, size, queue[end := v], stored[v := true], c + [v])
  {
    QueueBound(c, v, |stored|);
    var c' := c + [v];
    var q' := queue[end := v];
    assert Distinct(c') by {
      forall i, j | 0 <= i < j < |c'| ensures c'[i] != c'[j] {
        if j == |c| { assert c'[i] == c[i]; }
      }
    }
    assert forall w :: 0 <= w < |stored| ==> (w in c' <==> w in c || w == v);
    forall k | 0 <= k < |c'|
      ensures q'[Slot(top, k, size)] == c'[k]
    {
      if k < |c| {
        SlotInjective(top, k, |c|, size);
      }
    }
  }

  /** Reading the value at `top`, clearing its mark and advancing `top` drops the front. */
  lemma RingPop(top: nat, end: nat, size: nat, queue: seq<nat>, stored: seq<bool>, c: seq<nat>)
    requires RingInv(top, end, size, queue, stored, c) && c != []
    ensures queue[top] == c[0] && c[0] < |stored|
    ensures RingInv(if top + 1 == size then 0 else top + 1, end, size, queue, stored[c[0] := false], c[1..])
  {
    var top' := if top + 1 == size then 0 else top + 1;
    assert queue[Slot(top, 0, size)] == c[0];
    assert forall k :: 0 <= k < |c| - 1 ==> Slot(top', k, size) == Slot(top, k + 1, size);
    var c' := c[1..];
    assert forall w :: w in c' ==> w in c && w != c[0] by {
      forall w | w in c' ensures w in c && w != c[0] {
        var k :| 0 <= k < |c'| && c'[k] == w;
        assert c[k + 1] == w;
      }
    }
    assert forall w :: w in c && w != c[0] ==> w in c';
  }

  /** The ring-buffer slot `k` places after `top`. */
  function Slot(top: nat, k: nat, size: nat): (r: nat)
    requires top < size && k < size
    ensures r < size
  {
    if top + k < size then top + k else top + k - size
  }

  lemma SlotInjective(top: nat, j: nat, k: nat, size: nat)
    requires top < size && j < size && k < size && j != k
    ensures Slot(top, j, size) != Slot(top, k, size)
  {
  }

  predicate Distinct<T(==)>(s: seq<T>) {
    forall i, j :: 0 <= i < j < |s| ==> s[i] != s[j]
  }

  function SeqSet<T>(s: seq<T>): set<T> {
    set k | 0 <= k < |s| :: s[k]
  }

  /** The values `0 .. n - 1`. */
  function Below(n: nat): (r: set<nat>)
    ensures forall v: nat :: v in r <==> v < n
  {
    if n == 0 then {} else Below(n - 1) + {n - 1}
  }

  lemma {:induction false} BelowCard(n: nat)
    ensures |Below(n)| == n
  {
    if n > 0 {
      BelowCard(n - 1);
    }
  }

  lemma {:induction false} DistinctCard<T>(s: seq<T>)
    requires Distinct(s)
    ensures |SeqSet(s)| == |s|
  {
    if s != [] {
      var p := s[..|s| - 1];
      DistinctCard(p);
      assert SeqSet(s) == SeqSet(p) + {s[|s| - 1]};
      assert s[|s| - 1] !in SeqSet(p);
    }
  }

  /**
   * Pigeonhole: distinct values below `n` that leave out `v` number fewer
   * than `n`, so a push never overwrites an unread slot.
   */
  lemma QueueBound(s: seq<nat>, v: nat, n: nat)
    requires Distinct(s) && v < n && v !in s
    requires forall k :: 0 <= k < |s| ==> s[k] < n
    ensures |s| < n
  {
    DistinctCard(s);
    BelowCard(n);
    assert SeqSet(s) <= Below(n) - {v};
    SubsetCard(SeqSet(s), Below(n) - {v});
  }

  lemma {:induction false} SubsetCard<T>(a: set<T>, b: set<T>)
    requires a <= b
    ensures |a| <= |b|
    decreases b
  {
    if a != {} {
      var x :| x in a;
      SubsetCard(a - {x}, b - {x});
    }
  }
}
