/**
 * src/cli/mod.rs: the subcommand parser and the integer-option reader the
 * command-line front ends share. Command-line options are given as
 * `Matches`: the value of each option that takes one, and the flags that
 * were present.
 */
module Cli {
  import opened Wrappers
  import opened Text

  datatype Puzzle = Numberlink | Slitherlink | Kakuro | Tapa

  datatype Mode = Solver | Generator

  /** `CliError`, without the I/O and `getopts` failures, which come from code this model does not include. */
  datatype CliError = InvalidSubcommand | MissingOption(name: string) | UnrecognizedArgument(name: string)

  /** What `getopts` reports for a command line: option values by name, and the flags present. */
  datatype Matches = Matches(values: map<string, string>, flags: set<string>)

  function OptStr(m: Matches, name: string): Option<string> {
    if name in m.values then Some(m.values[name]) else None
  }

  function LowerChar(c: char): char {
    if 'A' <= c <= 'Z' then (c as int - 'A' as int + 'a' as int) as char else c
  }

  /** `to_ascii_lowercase`. */
  function Lower(s: string): (r: string)
    ensures |r| == |s|
    ensures forall k :: 0 <= k < |s| ==> r[k] == LowerChar(s[k])
  {
    if s == [] then [] else [LowerChar(s[0])] + Lower(s[1..])
  }

  function PuzzleOf(token: string): Option<Puzzle> {
    var t := Lower(token);
    if t == "nl" || t == "numberlink" then Some(Numberlink)
    else if t == "sl" || t == "slitherlink" then Some(Slitherlink)
    else if t == "kk" || t == "kakuro" then Some(Kakuro)
    else if t == "tp" || t == "tapa" then Some(Tapa)
    else None
  }

  function ModeOf(token: string): Option<Mode> {
    var t := Lower(token);
    if t == "sol" || t == "solver" then Some(Solver)
    else if t == "gen" || t == "generator" then Some(Generator)
    else None
  }

  /** `parse_subcommand`: exactly two `-`-separated tokens, a puzzle and a mode. */
  function ParseSubcommand(subcommand: string): Result<(Puzzle, Mode), CliError> {
    var tokens := Split(subcommand, '-');
    if |tokens| != 2 then Err(InvalidSubcommand)
    else
      match (PuzzleOf(tokens[0]), ModeOf(tokens[1]))
      case (Some(p), Some(m)) => Ok((p, m))
      case _ => Err(InvalidSubcommand)
  }

  /** The short and long names of each puzzle and mode, in lower case. */
  function PuzzleNames(p: Puzzle): (string, string) {
    match p
    case Numberlink => ("nl", "numberlink")
    case Slitherlink => ("sl", "slitherlink")
    case Kakuro => ("kk", "kakuro")
    case Tapa => ("tp", "tapa")
  }

  function ModeNames(m: Mode): (string, string) {
    match m
    case Solver => ("sol", "solver")
    case Generator => ("gen", "generator")
  }

  lemma LowerOfLower(s: string)
    ensures Lower(Lower(s)) == Lower(s)
  {
  }

  /** Each name of a puzzle, in any mix of cases, reads as that puzzle. */
  lemma PuzzleNamesRead(p: Puzzle, token: string)
    requires Lower(token) == PuzzleNames(p).0 || Lower(token) == PuzzleNames(p).1
    ensures PuzzleOf(token) == Some(p)
  {
  }

  lemma ModeNamesRead(m: Mode, token: string)
    requires Lower(token) == ModeNames(m).0 || Lower(token) == ModeNames(m).1
    ensures ModeOf(token) == Some(m)
  {
  }

  /** Only those names are puzzles and modes. */
  lemma NamesOnly(token: string)
    ensures PuzzleOf(token).Some? ==>
      var n := PuzzleNames(PuzzleOf(token).value); Lower(token) == n.0 || Lower(token) == n.1
    ensures ModeOf(token).Some? ==>
      var n := ModeNames(ModeOf(token).value); Lower(token) == n.0 || Lower(token) == n.1
  {
  }

  /** A subcommand made of two tokens reads as the puzzle and mode they name, and fails when either names none. */
  lemma ParseSubcommandJoin(a: string, b: string)
    requires '-' !in a && '-' !in b
    ensures ParseSubcommand(a + "-" + b).Ok? <==> PuzzleOf(a).Some? && ModeOf(b).Some?
    ensures ParseSubcommand(a + "-" + b).Ok? ==> ParseSubcommand(a + "-" + b).value == (PuzzleOf(a).value, ModeOf(b).value)
  {
    SplitTwo(a, b, '-');
  }

  /** Every accepted subcommand has that form: any other number of `-` is `InvalidSubcommand`. */
  lemma ParseSubcommandShape(subcommand: string)
    ensures ParseSubcommand(subcommand).Ok? ==>
      var t := Split(subcommand, '-');
      |t| == 2 && subcommand == t[0] + "-" + t[1] && '-' !in t[0] && '-' !in t[1]
    ensures ParseSubcommand(subcommand).Err? ==> ParseSubcommand(subcommand).error == InvalidSubcommand
  {
    var t := Split(subcommand, '-');
    SplitNoSep(subcommand, '-');
    SplitJoin(subcommand, '-');
    if |t| == 2 {
      assert Join(t, '-') == t[0] + "-" + t[1];
    }
  }

  /**
   * `parse_integer_argument`: the option's value as an `i32`, or the
   * default when the option is absent; no value at all is
   * `MissingOption`, and a value that does not parse or is below the bound
   * is `UnrecognizedArgument`.
   */
  function ParseIntegerArgument(m: Matches, name: string, default: Option<int>, lowerBound: Option<int>): (r: Result<int, CliError>)
    ensures r.Ok? ==> lowerBound.None? || r.value >= lowerBound.value
    ensures r.Ok? ==> I32Min <= r.value <= I32Max || (name !in m.values && default == Some(r.value))
    ensures name !in m.values ==> (r.Ok? <==> default.Some? && (lowerBound.None? || default.value >= lowerBound.value))
    ensures name !in m.values && default.Some? && r.Ok? ==> r.value == default.value
    ensures name in m.values ==> (r.Ok? <==> ParseI32(m.values[name]).Some? && (lowerBound.None? || ParseI32(m.values[name]).value >= lowerBound.value))
    ensures name in m.values && r.Ok? ==> Some(r.value) == ParseI32(m.values[name])
    ensures r.Err? ==> r.error == (if name !in m.values && default.None? then MissingOption(name) else UnrecognizedArgument(name))
  {
    var res: Result<Option<int>, CliError> :=
      match OptStr(m, name)
      case Some(s) => (match ParseI32(s) case Some(v) => Ok(Some(v)) case None => Err(UnrecognizedArgument(name)))
      case None => Ok(default);
    match res
    case Err(e) => Err(e)
    case Ok(None) => Err(MissingOption(name))
    case Ok(Some(v)) => if lowerBound.Some? && v < lowerBound.value then Err(UnrecognizedArgument(name)) else Ok(v)
  }

  /**
   * `--max-clue`, read the same way by both generator front ends: absent
   * is no bound; otherwise a positive `i32`.
   */
  function MaxClueOption(m: Matches): (r: Result<Option<int>, CliError>)
    ensures r.Err? ==> r.error == UnrecognizedArgument("max-clue")
    ensures "max-clue" !in m.values ==> r == Ok(None)
    ensures "max-clue" in m.values ==>
      (r.Ok? <==> ParseI32(m.values["max-clue"]).Some? && ParseI32(m.values["max-clue"]).value > 0)
    ensures r.Ok? && r.value.Some? ==> r.value.value > 0 && Some(r.value.value) == ParseI32(m.values["max-clue"])
  {
    match OptStr(m, "max-clue")
    case None => Ok(None)
    case Some(s) =>
      match ParseI32(s)
      case None => Err(UnrecognizedArgument("max-clue"))
      case Some(arg) => if arg > 0 then Ok(Some(arg)) else Err(UnrecognizedArgument("max-clue"))
  }
}
