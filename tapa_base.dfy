/**
 * src/tapa/mod.rs: the cell and clue types of Tapa, the table of the 23
 * clue kinds and `clue_pattern_to_id`, which finds the kind of a pattern
 * of run lengths.
 */
module TapaBase {
  import opened Wrappers

  datatype Cell = Undecided | Black | White

  /** `Clue(i32)`: the index of a row of `CLUE_VALUES`; `NO_CLUE` is `Clue(-1)`. */
  datatype Clue = Clue(id: int)

  const NoClue: Clue := Clue(-1)

  const ClueTypes: nat := 23

  /** `CLUE_VALUES`: each kind's run lengths in ascending order, padded with -1. */
  const ClueValues: seq<seq<int>> := [
    [-1, -1, -1, -1, -1],
    [1, -1, -1, -1, -1],
    [1, 1, -1, -1, -1],
    [1, 1, 1, -1, -1],
    [1, 1, 1, 1, -1],
    [1, 1, 2, -1, -1],
    [1, 1, 3, -1, -1],
    [1, 2, -1, -1, -1],
    [1, 2, 2, -1, -1],
    [1, 3, -1, -1, -1],
    [1, 4, -1, -1, -1],
    [1, 5, -1, -1, -1],
    [2, -1, -1, -1, -1],
    [2, 2, -1, -1, -1],
    [2, 3, -1, -1, -1],
    [2, 4, -1, -1, -1],
    [3, -1, -1, -1, -1],
    [3, 3, -1, -1, -1],
    [4, -1, -1, -1, -1],
    [5, -1, -1, -1, -1],
    [6, -1, -1, -1, -1],
    [7, -1, -1, -1, -1],
    [8, -1, -1, -1, -1]
  ]

  /** `CLUE_MAX`: the longest run of each kind. */
  const ClueMax: seq<int> := [0, 1, 1, 1, 1, 2, 3, 2, 2, 3, 4, 5, 2, 2, 3, 4, 3, 3, 4, 5, 6, 7, 8]

  /** The entries of a row other than the padding, `filter(|&&x| x != -1)`. */
  function Unpadded(row: seq<int>): (r: seq<int>)
    ensures |r| <= |row|
    ensures forall k :: 0 <= k < |r| ==> r[k] != -1
  {
    UnpaddedFrom(row, 0)
  }

  function UnpaddedFrom(row: seq<int>, k: nat): (r: seq<int>)
    ensures k <= |row| ==> |r| <= |row| - k
    ensures forall j :: 0 <= j < |r| ==> r[j] != -1
    decreases |row| - k
  {
    if k >= |row| then [] else (if row[k] == -1 then [] else [row[k]]) + UnpaddedFrom(row, k + 1)
  }

  /** The run lengths of row `i` of a table of kinds. */
  function Pattern(table: seq<seq<int>>, i: int): seq<int>
    requires 0 <= i < |table|
  {
    Unpadded(table[i])
  }

  predicate Ascending(s: seq<int>) {
    forall j, k :: 0 <= j < k < |s| ==> s[j] <= s[k]
  }

  /** `slice::sort`, as an insertion sort. */
  function Sort(s: seq<int>): (r: seq<int>)
    ensures |r| == |s|
  {
    if s == [] then [] else Insert(s[0], Sort(s[1..]))
  }

  function Insert(x: int, s: seq<int>): (r: seq<int>)
    ensures |r| == |s| + 1
  {
    if s == [] || x <= s[0] then [x] + s else [s[0]] + Insert(x, s[1..])
  }

  lemma TailAscending(s: seq<int>)
    requires Ascending(s) && s != []
    ensures Ascending(s[1..]) && forall k :: 1 <= k < |s| ==> s[0] <= s[k]
  {
    var t := s[1..];
    forall j, k | 0 <= j < k < |t|
      ensures t[j] <= t[k]
    {
      assert t[j] == s[j + 1] && t[k] == s[k + 1];
    }
  }

  lemma ConsAscending(h: int, r: seq<int>)
    requires Ascending(r) && forall k :: 0 <= k < |r| ==> h <= r[k]
    ensures Ascending([h] + r)
  {
    var c := [h] + r;
    forall j, k | 0 <= j < k < |c|
      ensures c[j] <= c[k]
    {
      assert c[k] == r[k - 1];
      if j > 0 {
        assert c[j] == r[j - 1];
      }
    }
  }

  lemma {:induction false} InsertSpec(x: int, s: seq<int>)
    requires Ascending(s)
    ensures Ascending(Insert(x, s)) && multiset(Insert(x, s)) == multiset(s) + multiset{x}
  {
    if s == [] || x <= s[0] {
      forall k | 0 <= k < |s|
        ensures x <= s[k]
      {
        if k > 0 {
          TailAscending(s);
        }
      }
      ConsAscending(x, s);
    } else {
      var t := s[1..];
      assert s == [s[0]] + t;
      TailAscending(s);
      InsertSpec(x, t);
      var r := Insert(x, t);
      forall k | 0 <= k < |r|
        ensures s[0] <= r[k]
      {
        assert r[k] in multiset(r);
        if r[k] != x {
          assert r[k] in multiset(t);
          var j :| 0 <= j < |t| && t[j] == r[k];
          assert t[j] == s[j + 1];
        }
      }
      ConsAscending(s[0], r);
    }
  }

  /** The sort is ascending and a permutation of its input. */
  lemma {:induction false} SortSpec(s: seq<int>)
    ensures Ascending(Sort(s)) && multiset(Sort(s)) == multiset(s)
  {
    if s != [] {
      assert s == [s[0]] + s[1..];
      SortSpec(s[1..]);
      InsertSpec(s[0], Sort(s[1..]));
    }
  }

  /** The first row from `i` on whose runs are `sorted`. */
  function MatchFrom(sorted: seq<int>, table: seq<seq<int>>, i: nat): Option<Clue>
    requires i <= |table|
    decreases |table| - i
  {
    if i == |table| then None
    else if sorted == Pattern(table, i) then Some(Clue(i))
    else MatchFrom(sorted, table, i + 1)
  }

  /** The search of `clue_pattern_to_id` over a table of kinds. */
  function KindOf(pat: seq<int>, table: seq<seq<int>>): Option<Clue> {
    var sorted := Sort(pat);
    if |sorted| == 1 && sorted[0] == 0 then Some(Clue(0)) else MatchFrom(sorted, table, 0)
  }

  /** `clue_pattern_to_id`: `[0]` is kind 0, and otherwise the first kind with these runs. */
  function PatternToId(pat: seq<int>): Option<Clue> {
    KindOf(pat, ClueValues)
  }

  /**
   * The loop of `clue_pattern_to_id` over the kinds of `table`; the source
   * searches `CLUE_VALUES`, and the table is a parameter here so that the
   * loop's proof does not depend on the table's contents.
   */
  method CluePatternToIdIn(pat: seq<int>, table: seq<seq<int>>) returns (r: Option<Clue>)
    ensures r == KindOf(pat, table)
  {
    var sorted := Sort(pat);
    if |sorted| == 1 && sorted[0] == 0 {
      return Some(Clue(0));
    }
    var i := 0;
    while i < |table|
      invariant 0 <= i <= |table|
      invariant KindOf(pat, table) == MatchFrom(sorted, table, i)
    {
      if sorted == Pattern(table, i) {
        return Some(Clue(i));
      }
      i := i + 1;
    }
    return None;
  }

  /** `clue_pattern_to_id`. */
  method CluePatternToId(pat: seq<int>) returns (r: Option<Clue>)
    ensures r == PatternToId(pat)
  {
    r := CluePatternToIdIn(pat, ClueValues);
  }

  /** Two ascending sequences with the same elements are equal. */
  lemma {:induction false} AscendingUnique(a: seq<int>, b: seq<int>)
    requires Ascending(a) && Ascending(b) && multiset(a) == multiset(b)
    ensures a == b
  {
    if a != [] && b != [] {
      assert a[0] in multiset(b) && b[0] in multiset(a) by {
        assert a[0] in multiset(a) && b[0] in multiset(b);
      }
      assert a[0] == b[0] by {
        var j :| 0 <= j < |b| && b[j] == a[0];
        var k :| 0 <= k < |a| && a[k] == b[0];
      }
      assert a == [a[0]] + a[1..] && b == [b[0]] + b[1..];
      calc {
        multiset{a[0]} + multiset(a[1..]);
        multiset(a);
        multiset(b);
        multiset{b[0]} + multiset(b[1..]);
      }
      assert multiset(a[1..]) == multiset(a) - multiset{a[0]};
      assert multiset(b[1..]) == multiset(b) - multiset{b[0]};
      TailAscending(a);
      TailAscending(b);
      AscendingUnique(a[1..], b[1..]);
    }
  }

  /** A table of kinds as `CLUE_VALUES` is: each row's runs ascending and positive, no two rows alike. */
  ghost predicate KindTable(table: seq<seq<int>>) {
    && (forall i :: 0 <= i < |table| ==> Ascending(Pattern(table, i)) && 0 !in multiset(Pattern(table, i)))
    && (forall i, j :: 0 <= i < j < |table| ==> Pattern(table, i) != Pattern(table, j))
  }

  lemma {:induction false} MatchFromSpec(sorted: seq<int>, table: seq<seq<int>>, k: nat)
    requires k <= |table|
    ensures MatchFrom(sorted, table, k).Some? ==>
      var id := MatchFrom(sorted, table, k).value.id;
      && k <= id < |table| && sorted == Pattern(table, id)
      && forall j :: k <= j < id ==> sorted != Pattern(table, j)
    ensures MatchFrom(sorted, table, k).None? ==> forall j :: k <= j < |table| ==> sorted != Pattern(table, j)
    decreases |table| - k
  {
    if k < |table| && sorted != Pattern(table, k) {
      MatchFromSpec(sorted, table, k + 1);
    }
  }

  /** A pattern's runs are row `i`'s exactly when its sorted copy is that row. */
  lemma SortedMatches(pat: seq<int>, table: seq<seq<int>>, i: int)
    requires KindTable(table) && 0 <= i < |table|
    ensures Sort(pat) == Pattern(table, i) <==> multiset(pat) == multiset(Pattern(table, i))
  {
    SortSpec(pat);
    if multiset(pat) == multiset(Pattern(table, i)) {
      AscendingUnique(Sort(pat), Pattern(table, i));
    }
  }

  /** The search over any table of kinds, as `PatternToIdSpec` states it for `CLUE_VALUES`. */
  lemma KindOfSpec(pat: seq<int>, table: seq<seq<int>>)
    requires KindTable(table)
    ensures multiset(pat) == multiset{0} ==> KindOf(pat, table) == Some(Clue(0))
    ensures forall i :: 0 <= i < |table| && multiset(pat) == multiset(Pattern(table, i)) ==> KindOf(pat, table) == Some(Clue(i))
    ensures KindOf(pat, table).Some? ==>
      var id := KindOf(pat, table).value.id;
      0 <= id && (multiset(pat) == multiset{0} || (id < |table| && multiset(pat) == multiset(Pattern(table, id))))
  {
    var sorted := Sort(pat);
    SortSpec(pat);
    assert |sorted| == 1 && sorted[0] == 0 <==> multiset(pat) == multiset{0} by {
      if multiset(pat) == multiset{0} {
        AscendingUnique(sorted, [0]);
      } else if |sorted| == 1 {
        assert sorted == [sorted[0]];
      }
    }
    MatchFromSpec(sorted, table, 0);
    forall i | 0 <= i < |table| && multiset(pat) == multiset(Pattern(table, i))
      ensures KindOf(pat, table) == Some(Clue(i))
    {
      SortedMatches(pat, table, i);
      assert 0 !in multiset(Pattern(table, i));
    }
    if KindOf(pat, table).Some? && multiset(pat) != multiset{0} {
      SortedMatches(pat, table, KindOf(pat, table).value.id);
    }
  }

  /** Row `i` is its runs followed by -1 padding to five entries. */
  predicate RowShape(i: int)
    requires 0 <= i < ClueTypes
  {
    var p := Pattern(ClueValues, i);
    && |p| <= 5 && ClueValues[i] == p + Padding(5 - |p|)
    && Ascending(p) && (forall k :: 0 <= k < |p| ==> p[k] >= 1)
    && ClueMax[i] == (if p == [] then 0 else p[|p| - 1])
  }

  function Padding(n: int): (r: seq<int>)
    ensures |r| == if n < 0 then 0 else n
    ensures forall k :: 0 <= k < |r| ==> r[k] == -1
  {
    if n <= 0 then [] else [-1] + Padding(n - 1)
  }

  /** The same checks, as a computation Dafny can evaluate on the table. */
  predicate AscendingFrom(s: seq<int>, least: int) {
    s == [] || (least <= s[0] && AscendingFrom(s[1..], s[0]))
  }

  predicate RowChecks(i: int)
    requires 0 <= i < ClueTypes
  {
    var p := Pattern(ClueValues, i);
    |p| <= 5 && ClueValues[i] == p + Padding(5 - |p|) && AscendingFrom(p, 1)
    && ClueMax[i] == (if p == [] then 0 else p[|p| - 1])
  }

  lemma {:induction false} AscendingFromSpec(s: seq<int>, least: int)
    requires AscendingFrom(s, least)
    ensures Ascending(s) && forall k :: 0 <= k < |s| ==> least <= s[k]
  {
    if s != [] {
      AscendingFromSpec(s[1..], s[0]);
      forall j, k | 0 <= j < k < |s|
        ensures s[j] <= s[k]
      {
        assert s[k] == s[1..][k - 1];
        if j > 0 {
          assert s[j] == s[1..][j - 1];
        }
      }
    }
  }

  /** Each row checked on its own, which keeps every evaluation small. */
  lemma Row0()
    ensures RowChecks(0)
  {
  }

  lemma Row1()
    ensures RowChecks(1)
  {
  }

  lemma Row2()
    ensures RowChecks(2)
  {
  }

  lemma Row3()
    ensures RowChecks(3)
  {
  }

  lemma Row4()
    ensures RowChecks(4)
  {
  }

  lemma Row5()
    ensures RowChecks(5)
  {
  }

  lemma Row6()
    ensures RowChecks(6)
  {
  }

  lemma Row7()
    ensures RowChecks(7)
  {
  }

  lemma Row8()
    ensures RowChecks(8)
  {
  }

  lemma Row9()
    ensures RowChecks(9)
  {
  }

  lemma Row10()
    ensures RowChecks(10)
  {
  }

  lemma Row11()
    ensures RowChecks(11)
  {
  }

  lemma Row12()
    ensures RowChecks(12)
  {
  }

  lemma Row13()
    ensures RowChecks(13)
  {
  }

  lemma Row14()
    ensures RowChecks(14)
  {
  }

  lemma Row15()
    ensures RowChecks(15)
  {
  }

  lemma Row16()
    ensures RowChecks(16)
  {
  }

  lemma Row17()
    ensures RowChecks(17)
  {
  }

  lemma Row18()
    ensures RowChecks(18)
  {
  }

  lemma Row19()
    ensures RowChecks(19)
  {
  }

  lemma Row20()
    ensures RowChecks(20)
  {
  }

  lemma Row21()
    ensures RowChecks(21)
  {
  }

  lemma Row22()
    ensures RowChecks(22)
  {
  }

  lemma RowChecked(i: int)
    requires 0 <= i < ClueTypes
    ensures RowChecks(i)
  {
    if i == 0 {
      Row0();
    } else if i == 1 {
      Row1();
    } else if i == 2 {
      Row2();
    } else if i == 3 {
      Row3();
    } else if i == 4 {
      Row4();
    } else if i == 5 {
      Row5();
    } else if i == 6 {
      Row6();
    } else if i == 7 {
      Row7();
    } else if i == 8 {
      Row8();
    } else if i == 9 {
      Row9();
    } else if i == 10 {
      Row10();
    } else if i == 11 {
      Row11();
    } else if i == 12 {
      Row12();
    } else if i == 13 {
      Row13();
    } else if i == 14 {
      Row14();
    } else if i == 15 {
      Row15();
    } else if i == 16 {
      Row16();
    } else if i == 17 {
      Row17();
    } else if i == 18 {
      Row18();
    } else if i == 19 {
      Row19();
    } else if i == 20 {
      Row20();
    } else if i == 21 {
      Row21();
    } else {
      Row22();
    }
  }

  /** Every row is ascending runs of length at least 1, padded with -1, and `CLUE_MAX` is its largest run, or 0 for kind 0. */
  lemma TableShape(i: int)
    requires 0 <= i < ClueTypes
    ensures RowShape(i)
    ensures forall k :: 0 <= k < |Pattern(ClueValues, i)| ==> Pattern(ClueValues, i)[k] <= ClueMax[i]
  {
    RowChecked(i);
    var p := Pattern(ClueValues, i);
    AscendingFromSpec(p, 1);
    forall k | 0 <= k < |p|
      ensures p[k] <= ClueMax[i]
    {
      if k < |p| - 1 {
        assert p[k] <= p[|p| - 1];
      }
    }
  }

  lemma RowsDistinct(i: int, j: int)
    requires 0 <= i < j < ClueTypes
    ensures ClueValues[i] != ClueValues[j]
  {
  }

  /** No two kinds have the same runs. */
  lemma TableDistinct(i: int, j: int)
    requires 0 <= i < j < ClueTypes
    ensures Pattern(ClueValues, i) != Pattern(ClueValues, j)
  {
    RowsDistinct(i, j);
    RowChecked(i);
    RowChecked(j);
  }

  lemma ClueValuesKinds()
    ensures KindTable(ClueValues)
  {
    forall i | 0 <= i < |ClueValues|
      ensures Ascending(Pattern(ClueValues, i)) && 0 !in multiset(Pattern(ClueValues, i))
    {
      TableShape(i);
    }
    forall i, j | 0 <= i < j < |ClueValues|
      ensures Pattern(ClueValues, i) != Pattern(ClueValues, j)
    {
      TableDistinct(i, j);
    }
  }

  /**
   * `clue_pattern_to_id` finds the kind whose runs are the pattern's, in any
   * order; the single run `[0]` (no black cell) is kind 0 as well, like the
   * empty pattern; any other pattern has no kind.
   */
  lemma PatternToIdSpec(pat: seq<int>)
    ensures multiset(pat) == multiset{0} ==> PatternToId(pat) == Some(Clue(0))
    ensures forall i :: 0 <= i < ClueTypes && multiset(pat) == multiset(Pattern(ClueValues, i)) ==> PatternToId(pat) == Some(Clue(i))
    ensures PatternToId(pat).Some? ==>
      var id := PatternToId(pat).value.id;
      0 <= id < ClueTypes && (multiset(pat) == multiset{0} || multiset(pat) == multiset(Pattern(ClueValues, id)))
  {
    ClueValuesKinds();
    KindOfSpec(pat, ClueValues);
  }

  /** The kind of a pattern depends only on its runs, not on their order. */
  lemma OrderInsensitive(p: seq<int>, q: seq<int>)
    requires multiset(p) == multiset(q)
    ensures PatternToId(p) == PatternToId(q)
  {
    SortSpec(p);
    SortSpec(q);
    AscendingUnique(Sort(p), Sort(q));
  }

  /** The empty pattern (no black neighbour) is kind 0. */
  lemma EmptyPattern()
    ensures PatternToId([]) == Some(Clue(0))
  {
    Row0();
    PatternToIdSpec([]);
  }

  /** A pattern mixing 0 with other runs has no kind: 0 stands only for a clue alone. */
  lemma MixedZeroPattern(p: seq<int>)
    requires 0 in p && |p| >= 2
    ensures PatternToId(p) == None
  {
    PatternToIdSpec(p);
    ClueValuesKinds();
    assert |multiset(p)| == |p|;
    assert multiset(p) != multiset{0};
    assert 0 in multiset(p);
  }

  /** A pattern with the runs of kind `i`, in any order, is kind `i`. */
  lemma KindByRuns(p: seq<int>, i: int, q: seq<int>)
    requires 0 <= i < ClueTypes && Pattern(ClueValues, i) == q && multiset(p) == multiset(q)
    ensures PatternToId(p) == Some(Clue(i))
  {
    PatternToIdSpec(p);
  }

  /** The longest run of a kind is at most 8, and 6 or more only for kinds 20 to 22. */
  lemma ClueMaxBounds(i: int)
    requires 0 <= i < ClueTypes
    ensures ClueMax[i] <= 8
    ensures ClueMax[i] >= 6 ==> i >= 20
  {
  }

  /** A run of a kind is at most that kind's longest run. */
  lemma RunWithinMax(p: seq<int>, id: int, r: int)
    requires 0 <= id < ClueTypes && multiset(p) == multiset(Pattern(ClueValues, id)) && r in p
    ensures r <= ClueMax[id]
  {
    TableShape(id);
    var q := Pattern(ClueValues, id);
    assert r in multiset(p);
    assert r in q;
  }

  /** No kind has a run longer than 8, the number of neighbours. */
  lemma NoKindLongRun(p: seq<int>, r: int)
    requires r in p && r > 8
    ensures PatternToId(p) == None
  {
    PatternToIdSpec(p);
    if PatternToId(p).Some? {
      var id := PatternToId(p).value.id;
      assert r in multiset(p);
      assert multiset(p) != multiset{0};
      RunWithinMax(p, id, r);
      ClueMaxBounds(id);
    }
  }

  /** Only kinds 20 to 22 have a run of 6 or more, and each of them is that run alone. */
  lemma NoKindSixWithOthers(p: seq<int>, r: int)
    requires r in p && r >= 6 && |p| >= 2
    ensures PatternToId(p) == None
  {
    PatternToIdSpec(p);
    if PatternToId(p).Some? {
      var id := PatternToId(p).value.id;
      assert |multiset(p)| == |p|;
      assert r in multiset(p);
      assert multiset(p) != multiset{0};
      RunWithinMax(p, id, r);
      ClueMaxBounds(id);
      if id == 20 {
        Row20();
      } else if id == 21 {
        Row21();
      } else {
        Row22();
      }
    }
  }

  // The runs of the kinds the tests of src/cli/tapa_generator.rs name, one
  // row per lemma: each row's evaluation stays small on its own.

  lemma PatternOne()
    ensures Pattern(ClueValues, 1) == [1]
  {
    Row1();
  }

  lemma PatternTwelve()
    ensures Pattern(ClueValues, 12) == [2]
  {
    Row12();
  }

  lemma PatternSixteen()
    ensures Pattern(ClueValues, 16) == [3]
  {
    Row16();
  }

  lemma PatternFour()
    ensures Pattern(ClueValues, 4) == [1, 1, 1, 1]
  {
    Row4();
  }

  lemma PatternFive()
    ensures Pattern(ClueValues, 5) == [1, 1, 2]
  {
    Row5();
  }

  lemma PatternNine()
    ensures Pattern(ClueValues, 9) == [1, 3]
  {
    Row9();
  }
}
