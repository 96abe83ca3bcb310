/**
 * Bookkeeping shared by the propagation fields whose cells start
 * undecided and are only ever decided: how many cells hold a value,
 * and the relation "every decided cell kept its value".
 */
module DecidedGrid {
  import opened Common

  /** The number of entries equal to `c`. */
  function CountOf<T(==)>(s: seq<T>, c: T): (n: nat)
    ensures n <= |s|
  {
    if s == [] then 0 else (if s[0] == c then 1 else 0) + CountOf(s[1..], c)
  }

  lemma {:induction false} CountOfUpdate<T>(s: seq<T>, i: nat, v: T, c: T)
    requires i < |s|
    ensures CountOf(s[i := v], c) == CountOf(s, c) - (if s[i] == c then 1 else 0) + (if v == c then 1 else 0)
  {
    if i == 0 {
      assert s[i := v][1..] == s[1..];
    } else {
      assert s[i := v][1..] == s[1..][i - 1 := v];
      CountOfUpdate(s[1..], i - 1, v, c);
    }
  }

  lemma {:induction false} CountOfAll<T>(s: seq<T>, c: T)
    requires forall i :: 0 <= i < |s| ==> s[i] == c
    ensures CountOf(s, c) == |s|
  {
    if s != [] {
      CountOfAll(s[1..], c);
    }
  }

  lemma {:induction false} CountOfNone<T>(s: seq<T>, c: T)
    ensures CountOf(s, c) == 0 <==> forall i :: 0 <= i < |s| ==> s[i] != c
  {
    if s != [] {
      CountOfNone(s[1..], c);
      assert forall i :: 1 <= i < |s| ==> s[i] == s[1..][i - 1];
    }
  }

  /**
   * `b` agrees with `a` on every entry of `a` other than `u`: the
   * entries equal to `u` cannot grow in number, and stay as many only
   * when nothing changed.
   */
  lemma {:induction false} CountMono<T>(a: seq<T>, b: seq<T>, u: T)
    requires |a| == |b| && forall i :: 0 <= i < |a| && a[i] != u ==> b[i] == a[i]
    ensures CountOf(b, u) <= CountOf(a, u)
    ensures CountOf(b, u) == CountOf(a, u) ==> b == a
  {
    if a != [] {
      assert forall i :: 0 <= i < |a[1..]| && a[1..][i] != u ==> b[1..][i] == a[1..][i] by {
        assert forall i :: 0 <= i < |a[1..]| ==> a[1..][i] == a[i + 1] && b[1..][i] == b[i + 1];
      }
      CountMono(a[1..], b[1..], u);
      if CountOf(b, u) == CountOf(a, u) {
        assert b == [b[0]] + b[1..] && a == [a[0]] + a[1..];
      }
    }
  }

  /**
   * `g1` comes from `g0` by deciding cells: the same shape, and every
   * slot of `g0` that is not `u` holds the same value in `g1`.
   */
  ghost predicate Settled<T>(g0: Grid<T>, g1: Grid<T>, u: T) {
    && g1.height == g0.height && g1.width == g0.width && |g1.data| == |g0.data|
    && forall i :: 0 <= i < |g0.data| && g0.data[i] != u ==> g1.data[i] == g0.data[i]
  }

  lemma SettledRefl<T>(g: Grid<T>, u: T)
    ensures Settled(g, g, u)
  {
  }

  lemma SettledTrans<T>(a: Grid<T>, b: Grid<T>, c: Grid<T>, u: T)
    requires Settled(a, b, u) && Settled(b, c, u)
    ensures Settled(a, c, u)
  {
  }

  /** A decided cell keeps its value. */
  lemma SettledAt<T>(g0: Grid<T>, g1: Grid<T>, u: T, cd: Coord)
    requires g0.Valid() && Settled(g0, g1, u) && g0.IsValidCoord(cd) && g0.Get(cd) != u
    ensures g1.Valid() && g1.IsValidCoord(cd) && g1.Get(cd) == g0.Get(cd)
  {
    g0.IndexInRange(cd);
  }

  /** Deciding more cells never brings back an undecided one. */
  lemma SettledCount<T>(g0: Grid<T>, g1: Grid<T>, u: T)
    requires Settled(g0, g1, u)
    ensures CountOf(g1.data, u) <= CountOf(g0.data, u)
    ensures CountOf(g1.data, u) == CountOf(g0.data, u) ==> g1 == g0
  {
    CountMono(g0.data, g1.data, u);
  }

  /** Writing an undecided cell: the others stay, and one fewer cell is undecided. */
  lemma SetDecides<T>(g: Grid<T>, cd: Coord, v: T, u: T)
    requires g.Valid() && g.IsValidCoord(cd) && g.Get(cd) == u && v != u
    ensures Settled(g, g.Set(cd, v), u)
    ensures CountOf(g.Set(cd, v).data, u) == CountOf(g.data, u) - 1
    ensures g.Set(cd, v).Get(cd) == v
  {
    g.IndexInRange(cd);
    CountOfUpdate(g.data, g.Index(cd), v, u);
    GetSet(g, cd, v, cd);
  }
}
