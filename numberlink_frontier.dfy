/**
 * The frontier of the row-by-row Numberlink solver of
 * src/numberlink/solver.rs: one entry per column, `-1` for a closed end,
 * a column `q >= 0` for an open end whose chain ends at column `q` (itself
 * for a fresh end), and a value below `-1` for an open end whose chain
 * reaches a number cell (clue `c` is stored as `-c - 1`).
 *
 * `join` and `connect_to_number` update the frontier vector in place and
 * return whether the step made the state inconsistent; `forget` only
 * reads it.
 */
module NumberlinkFrontier {

  const ClosedEnd: int := -1

  /** The solver's internal value of clue `c`: `-c - 1` for a clue, 0 for an empty cell. */
  function Internal(c: int): (v: int)
    ensures c > 0 ==> v < ClosedEnd
    ensures c <= 0 ==> v == 0
  {
    if c > 0 then -c - 1 else 0
  }

  /** Distinct clues stay distinct in the frontier, and none reads as a closed end or a column. */
  lemma InternalInjective(c: int, d: int)
    requires c > 0 && d > 0
    ensures Internal(c) == Internal(d) <==> c == d
    ensures Internal(c) != ClosedEnd && Internal(c) < 0
  {
  }

  /** Every column an entry names lies inside the frontier: what indexing it needs. */
  predicate InRange(f: seq<int>) {
    forall p :: 0 <= p < |f| ==> f[p] < |f|
  }

  /** Open ends come in pairs: the partner of an open column end has it as its own partner. */
  predicate Paired(f: seq<int>) {
    forall p :: 0 <= p < |f| && f[p] >= 0 ==> f[p] < |f| && f[f[p]] == p
  }

  /** `join(frontier, i, j)` reports an inconsistency. */
  predicate JoinFails(f: seq<int>, i: int, j: int)
    requires 0 <= i < |f| && 0 <= j < |f|
  {
    if f[i] == ClosedEnd || f[j] == ClosedEnd then true
    else if f[i] < 0 && f[j] < 0 then f[i] != f[j]
    else if f[i] >= 0 && f[j] >= 0 then f[i] == j
    else false
  }

  /** The frontier `join(frontier, i, j)` leaves. */
  function Joined(f: seq<int>, i: int, j: int): (g: seq<int>)
    requires 0 <= i < |f| && 0 <= j < |f| && InRange(f)
    ensures |g| == |f|
  {
    if f[i] == ClosedEnd || f[j] == ClosedEnd then f
    else
      var ia, ja := f[i], f[j];
      var closed := f[i := ClosedEnd][j := ClosedEnd];
      if ia < 0 && ja < 0 then closed
      else if ia < 0 then closed[ja := ia]
      else if ja < 0 then closed[ia := ja]
      else if ia == j then closed
      else closed[ia := ja][ja := ia]
  }

  /** `join`: connects the open ends at columns `i` and `j`. */
  method Join(frontier: array<int>, i: int, j: int) returns (inconsistent: bool)
    requires 0 <= i < frontier.Length && 0 <= j < frontier.Length && InRange(frontier[..])
    modifies frontier
    ensures inconsistent == JoinFails(old(frontier[..]), i, j)
    ensures frontier[..] == Joined(old(frontier[..]), i, j)
  {
    if frontier[i] == ClosedEnd || frontier[j] == ClosedEnd {
      return true;
    }
    var iAnother := frontier[i];
    var jAnother := frontier[j];
    frontier[i] := ClosedEnd;
    frontier[j] := ClosedEnd;
    if iAnother < 0 && jAnother < 0 {
      if iAnother != jAnother {
        return true;
      }
    } else if iAnother < 0 {
      frontier[jAnother] := iAnother;
    } else if jAnother < 0 {
      frontier[iAnother] := jAnother;
    } else {
      if iAnother == j {
        return true;
      }
      frontier[iAnother] := jAnother;
      frontier[jAnother] := iAnother;
    }
    return false;
  }

  /**
   * A consistent join keeps the ends paired, and links the far ends of the
   * two chains: two column ends become each other's partners, and a column
   * end whose partner joins a number chain takes over that number.
   */
  lemma JoinPaired(f: seq<int>, i: int, j: int)
    requires 0 <= i < |f| && 0 <= j < |f| && i != j && Paired(f) && InRange(f)
    requires !JoinFails(f, i, j)
    ensures Paired(Joined(f, i, j))
    ensures f[i] >= 0 && f[j] >= 0 ==> Joined(f, i, j)[f[i]] == f[j] && Joined(f, i, j)[f[j]] == f[i]
    ensures f[i] < 0 && f[j] >= 0 ==> Joined(f, i, j)[f[j]] == f[i]
    ensures f[i] >= 0 && f[j] < 0 ==> Joined(f, i, j)[f[i]] == f[j]
    ensures forall p :: 0 <= p < |f| && p != i && p != j && p != f[i] && p != f[j] ==> Joined(f, i, j)[p] == f[p]
  {
    var g := Joined(f, i, j);
    forall p | 0 <= p < |g| && g[p] >= 0
      ensures g[p] < |g| && g[g[p]] == p
    {
      if f[i] >= 0 && f[j] >= 0 {
        assert f[f[i]] == i && f[f[j]] == j;
      } else if f[j] >= 0 {
        assert f[f[j]] == j;
      } else if f[i] >= 0 {
        assert f[f[i]] == i;
      }
    }
  }

  /** `forget(frontier, i)` reports an inconsistency: the end at `i` is open and leads elsewhere. */
  predicate Forget(f: seq<int>, i: int)
    requires 0 <= i < |f|
  {
    f[i] != ClosedEnd && f[i] != i
  }

  /**
   * What the solver does after a successful `forget`: the column's end is
   * replaced by a fresh end or a number. The ends stay paired, because a
   * forgotten end has no partner elsewhere.
   */
  lemma ForgetPaired(f: seq<int>, i: int, v: int)
    requires 0 <= i < |f| && Paired(f) && !Forget(f, i)
    requires v < 0 || v == i
    ensures Paired(f[i := v])
  {
    var g := f[i := v];
    forall p | 0 <= p < |g| && g[p] >= 0
      ensures g[p] < |g| && g[g[p]] == p
    {
      if p != i {
        assert f[p] != i;
      }
    }
  }

  /** `connect_to_number(frontier, i, num)` reports an inconsistency. */
  predicate ConnectFails(f: seq<int>, i: int, num: int)
    requires 0 <= i < |f|
  {
    f[i] == ClosedEnd || (f[i] < 0 && num != f[i])
  }

  /** The frontier `connect_to_number(frontier, i, num)` leaves. */
  function Connected(f: seq<int>, i: int, num: int): (g: seq<int>)
    requires 0 <= i < |f| && InRange(f)
    ensures |g| == |f|
  {
    if f[i] == ClosedEnd then f
    else if f[i] < 0 then f[i := ClosedEnd]
    else f[i := ClosedEnd][f[i] := num]
  }

  /** `connect_to_number`: connects the open end at column `i` to a number cell. */
  method ConnectToNumber(frontier: array<int>, i: int, num: int) returns (inconsistent: bool)
    requires 0 <= i < frontier.Length && InRange(frontier[..])
    modifies frontier
    ensures inconsistent == ConnectFails(old(frontier[..]), i, num)
    ensures frontier[..] == Connected(old(frontier[..]), i, num)
  {
    var another := frontier[i];
    if another == ClosedEnd {
      return true;
    }
    frontier[i] := ClosedEnd;
    if another < 0 {
      return num != another;
    } else {
      frontier[another] := num;
      return false;
    }
  }

  /**
   * A consistent connection to a number keeps the ends paired: the end at
   * `i` closes, and its partner column, if any, now leads to the number.
   */
  lemma ConnectPaired(f: seq<int>, i: int, num: int)
    requires 0 <= i < |f| && Paired(f) && InRange(f) && num < 0
    requires !ConnectFails(f, i, num)
    ensures Paired(Connected(f, i, num))
    ensures Connected(f, i, num)[i] == ClosedEnd || f[i] == i
    ensures f[i] >= 0 ==> Connected(f, i, num)[f[i]] == num
    ensures forall p :: 0 <= p < |f| && p != i && p != f[i] ==> Connected(f, i, num)[p] == f[p]
  {
    var g := Connected(f, i, num);
    forall p | 0 <= p < |g| && g[p] >= 0
      ensures g[p] < |g| && g[g[p]] == p
    {
      if f[i] >= 0 {
        assert f[f[i]] == i;
      }
    }
  }

  /** Joining and connecting write only values that were already there, closed ends and numbers. */
  lemma StepsInRange(f: seq<int>, i: int, j: int, num: int)
    requires 0 <= i < |f| && 0 <= j < |f| && InRange(f) && num < |f|
    ensures InRange(Joined(f, i, j)) && InRange(Connected(f, i, num))
  {
  }
}
