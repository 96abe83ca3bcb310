/**
 * The option parsing of src/cli/tapa_generator.rs, the Tapa generator
 * front end: `parse_clue_patterns` and `parse_options`. Running the
 * generator threads is not part of this model.
 *
 * A `u32` clue mask is modelled as the set of its bit positions: `|=` of
 * `1 << n` adds `n`, and the `^` with `(1 << 23) - 1` is the complement
 * within the 23 kinds.
 */
module CliTapaGenerator {
  import opened Wrappers
  import opened Text
  import opened Cli
  import opened TapaBase

  /** The runs a token spells: each character as `c as u8 as i32 - '0' as u8 as i32`, its low byte minus 48. */
  function TokenRuns(token: string): (r: seq<int>)
    ensures |r| == |token|
    ensures forall k :: 0 <= k < |token| ==> r[k] == (token[k] as int) % 256 - 48
  {
    seq(|token|, k requires 0 <= k < |token| => (token[k] as int) % 256 - 48)
  }

  /**
   * The kind a token names among the kinds of `table`, if it names one;
   * `clue_pattern_to_id` looks it up in `ClueValues`.
   */
  function TokenKind(token: string, table: seq<seq<int>>): Option<Clue> {
    KindOf(TokenRuns(token), table)
  }

  /** Every one of the first `i` tokens names a kind. */
  predicate AllKinds(tokens: seq<string>, i: int, table: seq<seq<int>>)
    requires 0 <= i <= |tokens|
  {
    forall k :: 0 <= k < i ==> TokenKind(tokens[k], table).Some?
  }

  /** The kinds the first `i` tokens name. */
  function KindsUpTo(tokens: seq<string>, i: int, table: seq<seq<int>>): set<int>
    requires 0 <= i <= |tokens| && AllKinds(tokens, i, table)
  {
    if i == 0 then {} else KindsUpTo(tokens, i - 1, table) + {TokenKind(tokens[i - 1], table).value.id}
  }

  lemma {:induction false} KindsUpToMembers(tokens: seq<string>, i: int, table: seq<seq<int>>, n: int)
    requires 0 <= i <= |tokens| && AllKinds(tokens, i, table)
    ensures n in KindsUpTo(tokens, i, table) <==> exists k :: 0 <= k < i && TokenKind(tokens[k], table) == Some(Clue(n))
  {
    if i > 0 {
      KindsUpToMembers(tokens, i - 1, table, n);
      if TokenKind(tokens[i - 1], table) == Some(Clue(n)) {
        assert n in KindsUpTo(tokens, i, table);
      }
    }
  }

  /** The kinds of `table` the comma-separated tokens name, or `None` when some token names none. */
  function CluePatternsIn(pat: string, table: seq<seq<int>>): Option<set<int>> {
    var t := Split(pat, ',');
    if AllKinds(t, |t|, table) then Some(KindsUpTo(t, |t|, table)) else None
  }

  /** What `parse_clue_patterns` returns: the mask of the kinds of `CLUE_VALUES` the tokens name. */
  function CluePatternsOf(pat: string): Option<set<int>> {
    CluePatternsIn(pat, ClueValues)
  }

  /** The loop of `parse_clue_patterns`, over the kinds of any table. */
  method ParseCluePatternsIn(pat: string, table: seq<seq<int>>) returns (r: Option<set<int>>)
    ensures r == CluePatternsIn(pat, table)
  {
    var ret: set<int> := {};
    var tokens := Split(pat, ',');
    for i := 0 to |tokens|
      invariant AllKinds(tokens, i, table)
      invariant ret == KindsUpTo(tokens, i, table)
    {
      var cluePattern := TokenRuns(tokens[i]);
      var id := CluePatternToIdIn(cluePattern, table);
      match id {
        case Some(Clue(n)) =>
          ret := ret + {n};
        case None =>
          return None;
      }
    }
    return Some(ret);
  }

  /** `parse_clue_patterns`: add the kind of each token to the mask, and give up at the first token that has none. */
  method ParseCluePatterns(pat: string) returns (r: Option<set<int>>)
    ensures r == CluePatternsOf(pat)
  {
    r := ParseCluePatternsIn(pat, ClueValues);
  }

  /** A token whose characters are the runs of kind `i`, in any order, names kind `i`. */
  lemma TokenNames(token: string, i: int, q: seq<int>)
    requires 0 <= i < ClueTypes && Pattern(ClueValues, i) == q && multiset(TokenRuns(token)) == multiset(q)
    ensures TokenKind(token, ClueValues) == Some(Clue(i))
  {
    KindByRuns(TokenRuns(token), i, q);
  }

  // The kinds the test tokens name, one token per lemma; each character is one run.

  lemma TokenZero()
    ensures TokenKind("0", ClueValues) == Some(Clue(0))
  {
    assert TokenRuns("0") == [0];
    PatternToIdSpec(TokenRuns("0"));
  }

  lemma TokenOne()
    ensures TokenKind("1", ClueValues) == Some(Clue(1))
  {
    assert TokenRuns("1") == [1];
    PatternOne();
    TokenNames("1", 1, [1]);
  }

  lemma TokenTwo()
    ensures TokenKind("2", ClueValues) == Some(Clue(12))
  {
    assert TokenRuns("2") == [2];
    PatternTwelve();
    TokenNames("2", 12, [2]);
  }

  lemma TokenThree()
    ensures TokenKind("3", ClueValues) == Some(Clue(16))
  {
    assert TokenRuns("3") == [3];
    PatternSixteen();
    TokenNames("3", 16, [3]);
  }

  lemma TokenFourOnes()
    ensures TokenKind("1111", ClueValues) == Some(Clue(4))
  {
    assert TokenRuns("1111") == [1, 1, 1, 1];
    PatternFour();
    TokenNames("1111", 4, [1, 1, 1, 1]);
  }

  lemma TokenTwoOneOne()
    ensures TokenKind("211", ClueValues) == Some(Clue(5))
  {
    assert TokenRuns("211") == [2, 1, 1];
    assert multiset([2, 1, 1]) == multiset([1, 1, 2]);
    PatternFive();
    TokenNames("211", 5, [1, 1, 2]);
  }

  lemma TokenThreeOne()
    ensures TokenKind("31", ClueValues) == Some(Clue(9))
  {
    assert TokenRuns("31") == [3, 1];
    assert multiset([3, 1]) == multiset([1, 3]);
    PatternNine();
    TokenNames("31", 9, [1, 3]);
  }

  /** `'a'` is the run 97 - 48 = 49, longer than any kind's. */
  lemma TokenLetter()
    ensures TokenKind("a", ClueValues) == None
  {
    assert TokenRuns("a") == [49];
    NoKindLongRun(TokenRuns("a"), 49);
  }

  /** No kind has a run of 6 beside another run. */
  lemma TokenOneSix()
    ensures TokenKind("16", ClueValues) == None
  {
    assert TokenRuns("16") == [1, 6];
    NoKindSixWithOthers(TokenRuns("16"), 6);
  }

  /**
   * The test of src/cli/tapa_generator.rs:203-216: "1,2,3" sets bits 1,
   * 12 and 16, "0,1111" bits 0 and 4, "211,31" bits 5 and 9, and "a" and
   * "16" name no kind.
   */
  lemma ParseCluePatternsTest()
    ensures CluePatternsOf("1,2,3") == Some({1, 12, 16})
    ensures CluePatternsOf("0,1111") == Some({0, 4})
    ensures CluePatternsOf("211,31") == Some({5, 9})
    ensures CluePatternsOf("a") == None
    ensures CluePatternsOf("16") == None
  {
    MaskThreeKinds();
    MaskZeroAndFour();
    MaskUnsorted();
    MaskBad();
  }

  // The test masks split at their commas: each is the join of its pieces.

  lemma SplitThree()
    ensures Split("1,2,3", ',') == ["1", "2", "3"]
  {
    var t := ["1", "2", "3"];
    assert t[1..] == ["2", "3"] && t[1..][1..] == ["3"];
    assert Join(["3"], ',') == "3";
    assert Join(["2", "3"], ',') == "2,3";
    assert Join(t, ',') == "1,2,3";
    JoinSplit(t, ',');
  }

  lemma SplitZeroFour()
    ensures Split("0,1111", ',') == ["0", "1111"]
  {
    assert ["0", "1111"][1..] == ["1111"];
    assert Join(["0", "1111"], ',') == "0,1111";
    JoinSplit(["0", "1111"], ',');
  }

  lemma SplitUnsorted()
    ensures Split("211,31", ',') == ["211", "31"]
  {
    assert ["211", "31"][1..] == ["31"];
    assert Join(["211", "31"], ',') == "211,31";
    JoinSplit(["211", "31"], ',');
  }

  /** A mask of two tokens that name kinds `i` and `j` of `table` is `{i, j}`. */
  lemma MaskOfTwo(pat: string, a: string, b: string, i: int, j: int, table: seq<seq<int>>)
    requires Split(pat, ',') == [a, b]
    requires TokenKind(a, table) == Some(Clue(i)) && TokenKind(b, table) == Some(Clue(j))
    ensures CluePatternsIn(pat, table) == Some({i, j})
  {
    var t := [a, b];
    assert t[0] == a && t[1] == b;
    assert AllKinds(t, 2, table);
    assert KindsUpTo(t, 1, table) == {i};
    assert KindsUpTo(t, 2, table) == {i, j};
  }

  /** A mask of three tokens that name kinds `i`, `j` and `k` of `table` is `{i, j, k}`. */
  lemma MaskOfThree(pat: string, a: string, b: string, c: string, i: int, j: int, k: int, table: seq<seq<int>>)
    requires Split(pat, ',') == [a, b, c]
    requires TokenKind(a, table) == Some(Clue(i)) && TokenKind(b, table) == Some(Clue(j))
    requires TokenKind(c, table) == Some(Clue(k))
    ensures CluePatternsIn(pat, table) == Some({i, j, k})
  {
    var t := [a, b, c];
    assert t[0] == a && t[1] == b && t[2] == c;
    assert AllKinds(t, 3, table);
    assert KindsUpTo(t, 1, table) == {i};
    assert KindsUpTo(t, 2, table) == {i, j};
    assert KindsUpTo(t, 3, table) == {i, j, k};
  }

  lemma MaskThreeKinds()
    ensures CluePatternsOf("1,2,3") == Some({1, 12, 16})
  {
    TokenOne();
    TokenTwo();
    TokenThree();
    SplitThree();
    MaskOfThree("1,2,3", "1", "2", "3", 1, 12, 16, ClueValues);
  }

  lemma MaskZeroAndFour()
    ensures CluePatternsOf("0,1111") == Some({0, 4})
  {
    TokenZero();
    TokenFourOnes();
    SplitZeroFour();
    MaskOfTwo("0,1111", "0", "1111", 0, 4, ClueValues);
  }

  lemma MaskUnsorted()
    ensures CluePatternsOf("211,31") == Some({5, 9})
  {
    TokenTwoOneOne();
    TokenThreeOne();
    SplitUnsorted();
    MaskOfTwo("211,31", "211", "31", 5, 9, ClueValues);
  }

  lemma MaskBad()
    ensures CluePatternsOf("a") == None
    ensures CluePatternsOf("16") == None
  {
    TokenLetter();
    TokenOneSix();
    JoinSplit(["a"], ',');
    JoinSplit(["16"], ',');
  }

  /** `CluePatternsSpec` for any table of distinct ascending kinds. */
  lemma CluePatternsInSpec(pat: string, table: seq<seq<int>>)
    requires KindTable(table)
    ensures var t := Split(pat, ',');
      CluePatternsIn(pat, table).Some? <==> forall k :: 0 <= k < |t| ==> TokenKind(t[k], table).Some?
    ensures CluePatternsIn(pat, table).Some? ==>
      var t := Split(pat, ',');
      forall n :: n in CluePatternsIn(pat, table).value <==> exists k :: 0 <= k < |t| && TokenKind(t[k], table) == Some(Clue(n))
    ensures CluePatternsIn(pat, table).Some? ==> forall n :: n in CluePatternsIn(pat, table).value ==> 0 <= n < |table| || n == 0
    ensures CluePatternsIn(pat, table).Some? ==>
      var t := Split(pat, ',');
      forall k, n | 0 <= k < |t| && 0 <= n < |table| && multiset(TokenRuns(t[k])) == multiset(Pattern(table, n))
        :: n in CluePatternsIn(pat, table).value
  {
    var t := Split(pat, ',');
    if AllKinds(t, |t|, table) {
      forall n
        ensures n in KindsUpTo(t, |t|, table) <==> exists k :: 0 <= k < |t| && TokenKind(t[k], table) == Some(Clue(n))
      {
        KindsUpToMembers(t, |t|, table, n);
      }
      forall k | 0 <= k < |t|
        ensures 0 <= TokenKind(t[k], table).value.id < |table| || TokenKind(t[k], table).value.id == 0
        ensures forall n :: 0 <= n < |table| && multiset(TokenRuns(t[k])) == multiset(Pattern(table, n)) ==> TokenKind(t[k], table) == Some(Clue(n))
      {
        KindOfSpec(TokenRuns(t[k]), table);
      }
    }
  }

  /**
   * A mask is parsed exactly when every token names a kind; its bits are
   * then exactly the kinds the tokens name, all below 23, and a token
   * whose runs are those of a kind, in any order, sets that kind's bit.
   */
  lemma CluePatternsSpec(pat: string)
    ensures var t := Split(pat, ',');
      CluePatternsOf(pat).Some? <==> forall k :: 0 <= k < |t| ==> TokenKind(t[k], ClueValues).Some?
    ensures CluePatternsOf(pat).Some? ==>
      var t := Split(pat, ',');
      forall n :: n in CluePatternsOf(pat).value <==> exists k :: 0 <= k < |t| && TokenKind(t[k], ClueValues) == Some(Clue(n))
    ensures CluePatternsOf(pat).Some? ==> forall n :: n in CluePatternsOf(pat).value ==> 0 <= n < ClueTypes
    ensures CluePatternsOf(pat).Some? ==>
      var t := Split(pat, ',');
      forall k, n | 0 <= k < |t| && 0 <= n < ClueTypes && multiset(TokenRuns(t[k])) == multiset(Pattern(ClueValues, n))
        :: n in CluePatternsOf(pat).value
  {
    ClueValuesKinds();
    CluePatternsInSpec(pat, ClueValues);
  }

  /** An empty token, as in `1,,2` or a trailing comma, spells no run and names kind 0. */
  lemma EmptyTokenKind()
    ensures TokenKind("", ClueValues) == Some(Clue(0))
  {
    assert TokenRuns("") == [];
    EmptyPattern();
  }

  /** The mask of the kinds not in `q`: `((1 << 23) - 1) ^ q`. */
  function Complement(q: set<int>): (r: set<int>)
    requires forall n :: n in q ==> 0 <= n < ClueTypes
    ensures forall n :: n in r <==> 0 <= n < ClueTypes && n !in q
  {
    set n | 0 <= n < ClueTypes && n !in q
  }

  /** The settings of one generator run. */
  datatype GeneratorOption = GeneratorOption(
    height: int,
    width: int,
    jobs: int,
    symmetry: bool,
    maxClue: Option<int>,
    trialAndError: bool,
    allowedClues: Option<set<int>>)

  /** `parse_options` either returns, or panics. */
  datatype Outcome = Returns(result: Result<GeneratorOption, CliError>) | Panics

  /** `--allowed-clues` or `--disallowed-clues`: absent is no mask; a value with a token that names no kind is `UnrecognizedArgument`. */
  function MaskOption(m: Matches, name: string): (r: Result<Option<set<int>>, CliError>)
    ensures r.Err? ==> r.error == UnrecognizedArgument(name)
    ensures name !in m.values ==> r == Ok(None)
    ensures name in m.values ==> (r.Ok? <==> CluePatternsOf(m.values[name]).Some?)
    ensures name in m.values && r.Ok? ==> r.value == CluePatternsOf(m.values[name])
    ensures r.Ok? && r.value.Some? ==> forall n :: n in r.value.value ==> 0 <= n < ClueTypes
  {
    match OptStr(m, name)
    case None => Ok(None)
    case Some(s) =>
      CluePatternsSpec(s);
      match CluePatternsOf(s)
      case Some(p) => Ok(Some(p))
      case None => Err(UnrecognizedArgument(name))
  }

  /**
   * The kinds a generated problem may use: those allowed, or all but
   * those disallowed, or no restriction; `None` when both are given,
   * where `parse_options` panics.
   */
  function AllowedClues(allowed: Option<set<int>>, disallowed: Option<set<int>>): (r: Option<Option<set<int>>>)
    requires disallowed.Some? ==> forall n :: n in disallowed.value ==> 0 <= n < ClueTypes
    ensures r.None? <==> allowed.Some? && disallowed.Some?
    ensures r.Some? && allowed.Some? ==> r.value == allowed
    ensures r.Some? && disallowed.Some? ==>
      r.value.Some? && forall n :: n in r.value.value <==> 0 <= n < ClueTypes && n !in disallowed.value
    ensures r == Some(None) <==> allowed.None? && disallowed.None?
  {
    match (allowed, disallowed)
    case (Some(p), None) => Some(Some(p))
    case (None, Some(q)) => Some(Some(Complement(q)))
    case (None, None) => Some(None)
    case _ => None
  }

  /** `parse_options`: each option in turn, the first failure being the result. */
  function ParseOptions(m: Matches): Outcome {
    var height := ParseIntegerArgument(m, "height", None, Some(1));
    if height.Err? then Returns(Err(height.error)) else
    var width := ParseIntegerArgument(m, "width", None, Some(1));
    if width.Err? then Returns(Err(width.error)) else
    var jobs := ParseIntegerArgument(m, "jobs", Some(1), Some(1));
    if jobs.Err? then Returns(Err(jobs.error)) else
    var maxClue := MaxClueOption(m);
    if maxClue.Err? then Returns(Err(maxClue.error)) else
    var allowed := MaskOption(m, "allowed-clues");
    if allowed.Err? then Returns(Err(allowed.error)) else
    var disallowed := MaskOption(m, "disallowed-clues");
    if disallowed.Err? then Returns(Err(disallowed.error)) else
    match AllowedClues(allowed.value, disallowed.value)
    case None => Panics
    case Some(mask) =>
      Returns(Ok(GeneratorOption(
        height.value, width.value, jobs.value, "symmetry" in m.flags, maxClue.value,
        "trial-and-error" in m.flags, mask)))
  }

  /**
   * The options are accepted exactly when every one of them is and at
   * most one of the two masks is given; then the grid is at least 1 x 1,
   * there is at least one job, the maximum clue is positive, and the
   * allowed kinds all lie below 23.
   */
  lemma ParseOptionsSpec(m: Matches)
    ensures ParseOptions(m) == Panics <==>
      && ParseIntegerArgument(m, "height", None, Some(1)).Ok?
      && ParseIntegerArgument(m, "width", None, Some(1)).Ok?
      && ParseIntegerArgument(m, "jobs", Some(1), Some(1)).Ok?
      && MaxClueOption(m).Ok?
      && MaskOption(m, "allowed-clues").Ok? && MaskOption(m, "allowed-clues").value.Some?
      && MaskOption(m, "disallowed-clues").Ok? && MaskOption(m, "disallowed-clues").value.Some?
    ensures ParseOptions(m).Returns? && ParseOptions(m).result.Ok? ==>
      var o := ParseOptions(m).result.value;
      && o.height >= 1 && o.width >= 1 && o.jobs >= 1
      && (o.maxClue.Some? ==> o.maxClue.value > 0)
      && (o.allowedClues.Some? ==> forall n :: n in o.allowedClues.value ==> 0 <= n < ClueTypes)
      && (o.symmetry <==> "symmetry" in m.flags)
      && (o.trialAndError <==> "trial-and-error" in m.flags)
  {
    if "allowed-clues" in m.values {
      CluePatternsSpec(m.values["allowed-clues"]);
    }
  }
}
