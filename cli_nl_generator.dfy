/**
 * The option parsing of src/cli/nl_generator.rs, the Numberlink generator
 * front end: `parse_symmetry` and `parse_options`. Running the generator
 * threads is not part of this model.
 */
module CliNlGenerator {
  import opened Wrappers
  import opened Text
  import opened Cli

  /**
   * The crate's `Symmetry`: which symmetries a generated placement must
   * have. `Symmetry::none()` has none of them.
   */
  datatype Symmetry = Symmetry(dyad: bool, tetrad: bool, horizontal: bool, vertical: bool)

  const NoSymmetry: Symmetry := Symmetry(false, false, false, false)

  /** The four kinds of symmetry a token can name. */
  datatype Axis = Dyad | Tetrad | Horizontal | Vertical

  /** The axis a `--symmetry` token names, if it names one. */
  function AxisOf(token: string): Option<Axis> {
    if token == "d" || token == "dyad" || token == "180" then Some(Dyad)
    else if token == "t" || token == "tetrad" || token == "90" then Some(Tetrad)
    else if token == "h" || token == "horizontal" then Some(Horizontal)
    else if token == "v" || token == "vertical" then Some(Vertical)
    else None
  }

  /** Some of the first `i` tokens names `a`. */
  predicate Names(tokens: seq<string>, i: int, a: Axis)
    requires 0 <= i <= |tokens|
  {
    exists k :: 0 <= k < i && AxisOf(tokens[k]) == Some(a)
  }

  lemma NamesStep(tokens: seq<string>, i: int)
    requires 0 <= i < |tokens|
    ensures forall a :: Names(tokens, i + 1, a) <==> Names(tokens, i, a) || AxisOf(tokens[i]) == Some(a)
  {
  }

  /**
   * What `parse_symmetry` returns, stated without its loop: the
   * comma-separated tokens must all name an axis, and each symmetry is on
   * exactly when some token names it.
   */
  function SymmetryOf(s: string): Result<Symmetry, CliError> {
    var t := Split(s, ',');
    if forall k :: 0 <= k < |t| ==> AxisOf(t[k]).Some? then
      Ok(Symmetry(Names(t, |t|, Dyad), Names(t, |t|, Tetrad), Names(t, |t|, Horizontal), Names(t, |t|, Vertical)))
    else
      Err(UnrecognizedArgument("symmetry"))
  }

  /** `parse_symmetry`: turn on one symmetry per token, and stop at the first token that names none. */
  method ParseSymmetry(s: string) returns (r: Result<Symmetry, CliError>)
    ensures r == SymmetryOf(s)
  {
    var ret := NoSymmetry;
    var tokens := Split(s, ',');
    for i := 0 to |tokens|
      invariant forall k :: 0 <= k < i ==> AxisOf(tokens[k]).Some?
      invariant ret.dyad <==> Names(tokens, i, Dyad)
      invariant ret.tetrad <==> Names(tokens, i, Tetrad)
      invariant ret.horizontal <==> Names(tokens, i, Horizontal)
      invariant ret.vertical <==> Names(tokens, i, Vertical)
    {
      var token := tokens[i];
      NamesStep(tokens, i);
      if token == "d" || token == "dyad" || token == "180" {
        assert AxisOf(token) == Some(Dyad);
        ret := ret.(dyad := true);
      } else if token == "t" || token == "tetrad" || token == "90" {
        assert AxisOf(token) == Some(Tetrad);
        ret := ret.(tetrad := true);
      } else if token == "h" || token == "horizontal" {
        assert AxisOf(token) == Some(Horizontal);
        ret := ret.(horizontal := true);
      } else if token == "v" || token == "vertical" {
        assert AxisOf(token) == Some(Vertical);
        ret := ret.(vertical := true);
      } else {
        assert AxisOf(tokens[i]).None?;
        return Err(UnrecognizedArgument("symmetry"));
      }
    }
    return Ok(ret);
  }

  /** The symmetries `sym` has, in the order dyad, tetrad, horizontal, vertical. */
  function Axes(sym: Symmetry): (r: seq<Axis>)
    ensures forall x :: x in r <==> (match x
      case Dyad => sym.dyad
      case Tetrad => sym.tetrad
      case Horizontal => sym.horizontal
      case Vertical => sym.vertical)
  {
    (if sym.dyad then [Dyad] else []) + (if sym.tetrad then [Tetrad] else [])
      + (if sym.horizontal then [Horizontal] else []) + (if sym.vertical then [Vertical] else [])
  }

  /** The one-letter name of each symmetry. */
  function ShortName(a: Axis): (r: string)
    ensures AxisOf(r) == Some(a) && ',' !in r
  {
    match a
    case Dyad => "d"
    case Tetrad => "t"
    case Horizontal => "h"
    case Vertical => "v"
  }

  /** `sym` written as the short names of its symmetries. */
  function ShortNames(sym: Symmetry): (r: seq<string>)
    ensures |r| == |Axes(sym)|
    ensures forall k :: 0 <= k < |r| ==> r[k] == ShortName(Axes(sym)[k])
  {
    var axes := Axes(sym);
    seq(|axes|, k requires 0 <= k < |axes| => ShortName(axes[k]))
  }

  /** A symmetry written as its short names, comma-separated; `NoSymmetry` has no tokens. */
  function ShowSymmetry(sym: Symmetry): string
    requires sym != NoSymmetry
  {
    Join(ShortNames(sym), ',')
  }

  lemma ShortNamesNames(sym: Symmetry)
    ensures var t := ShortNames(sym);
      && (forall k :: 0 <= k < |t| ==> ',' !in t[k] && AxisOf(t[k]).Some?)
      && (Names(t, |t|, Dyad) <==> sym.dyad)
      && (Names(t, |t|, Tetrad) <==> sym.tetrad)
      && (Names(t, |t|, Horizontal) <==> sym.horizontal)
      && (Names(t, |t|, Vertical) <==> sym.vertical)
  {
    var t := ShortNames(sym);
    var axes := Axes(sym);
    forall x
      ensures Names(t, |t|, x) <==> x in axes
    {
      if x in axes {
        var k :| 0 <= k < |axes| && axes[k] == x;
        assert AxisOf(t[k]) == Some(x);
      }
    }
  }

  /** Every symmetry but `NoSymmetry` can be given on the command line: its short names read back as it. */
  lemma ShowSymmetryRead(sym: Symmetry)
    requires sym != NoSymmetry
    ensures SymmetryOf(ShowSymmetry(sym)) == Ok(sym)
  {
    JoinSplit(ShortNames(sym), ',');
    ShortNamesNames(sym);
  }

  /** `NoSymmetry` cannot: an empty value is a single empty token, which names no symmetry. */
  lemma EmptySymmetry()
    ensures SymmetryOf("") == Err(UnrecognizedArgument("symmetry"))
  {
    var t := Split("", ',');
    assert t == [""];
    assert AxisOf(t[0]).None?;
  }

  /** The order of the tokens does not matter. */
  lemma SymmetrySwap(a: string, b: string)
    requires ',' !in a && ',' !in b
    ensures SymmetryOf(a + "," + b) == SymmetryOf(b + "," + a)
  {
    SplitTwo(a, b, ',');
    SplitTwo(b, a, ',');
    var ab := [a, b];
    var ba := [b, a];
    assert (forall k :: 0 <= k < 2 ==> AxisOf(ab[k]).Some?) <==> (forall k :: 0 <= k < 2 ==> AxisOf(ba[k]).Some?) by {
      assert ab[0] == ba[1] && ab[1] == ba[0];
    }
    forall x
      ensures Names(ab, 2, x) <==> Names(ba, 2, x)
    {
      if Names(ab, 2, x) {
        var k :| 0 <= k < 2 && AxisOf(ab[k]) == Some(x);
        assert AxisOf(ba[1 - k]) == Some(x);
      }
      if Names(ba, 2, x) {
        var k :| 0 <= k < 2 && AxisOf(ba[k]) == Some(x);
        assert AxisOf(ab[1 - k]) == Some(x);
      }
    }
  }

  /** Naming a symmetry twice is naming it once. */
  lemma SymmetryRepeat(a: string)
    requires ',' !in a
    ensures SymmetryOf(a + "," + a) == SymmetryOf(a)
  {
    SplitTwo(a, a, ',');
    JoinSplit([a], ',');
    var aa := [a, a];
    assert (forall k :: 0 <= k < 2 ==> AxisOf(aa[k]).Some?) <==> (forall k :: 0 <= k < 1 ==> AxisOf([a][k]).Some?) by {
      assert aa[0] == aa[1] == [a][0];
    }
    forall x
      ensures Names(aa, 2, x) <==> Names([a], 1, x)
    {
      if Names(aa, 2, x) {
        assert AxisOf([a][0]) == Some(x);
      }
      if Names([a], 1, x) {
        assert AxisOf(aa[0]) == Some(x);
      }
    }
  }

  /** `GeneratorOption`, the settings of one generator run. */
  datatype GeneratorOption = GeneratorOption(
    height: int,
    width: int,
    jobs: int,
    noAdjacentClues: bool,
    symmetry: Symmetry,
    minimumPathLength: int,
    emptyWidth: int,
    maxClue: Option<int>,
    corner: Option<(int, int)>,
    useProfiler: bool,
    prioritizedExtension: bool)

  /** `-s`: absent is `Symmetry::none()`. */
  function SymmetryOption(m: Matches): Result<Symmetry, CliError> {
    match OptStr(m, "s")
    case None => Ok(NoSymmetry)
    case Some(s) => SymmetryOf(s)
  }

  /** `--corner`: absent is no range; otherwise exactly two comma-separated `i32`s `lo`, `hi` with `1 <= lo <= hi`. */
  function CornerOption(m: Matches): (r: Result<Option<(int, int)>, CliError>)
    ensures r.Err? ==> r.error == UnrecognizedArgument("corner")
    ensures "corner" !in m.values ==> r == Ok(None)
    ensures "corner" in m.values ==>
      var t := Split(m.values["corner"], ',');
      (r.Ok? <==> |t| == 2 && ParseI32(t[0]).Some? && ParseI32(t[1]).Some? && 1 <= ParseI32(t[0]).value <= ParseI32(t[1]).value)
    ensures r.Ok? && r.value.Some? ==>
      var t := Split(m.values["corner"], ',');
      && |t| == 2 && Some(r.value.value.0) == ParseI32(t[0]) && Some(r.value.value.1) == ParseI32(t[1])
      && 1 <= r.value.value.0 <= r.value.value.1
  {
    match OptStr(m, "corner")
    case None => Ok(None)
    case Some(s) =>
      var split := Split(s, ',');
      if |split| != 2 then Err(UnrecognizedArgument("corner"))
      else
        match (ParseI32(split[0]), ParseI32(split[1]))
        case (Some(lo), Some(hi)) =>
          if !(1 <= lo && lo <= hi) then Err(UnrecognizedArgument("corner")) else Ok(Some((lo, hi)))
        case _ => Err(UnrecognizedArgument("corner"))
  }

  /**
   * `parse_options`: each option in turn, the first failure being the
   * result. Presence flags cannot fail.
   */
  function ParseOptions(m: Matches): Result<GeneratorOption, CliError> {
    var height := ParseIntegerArgument(m, "height", None, Some(1));
    if height.Err? then Err(height.error) else
    var width := ParseIntegerArgument(m, "width", None, Some(1));
    if width.Err? then Err(width.error) else
    var jobs := ParseIntegerArgument(m, "jobs", Some(1), Some(1));
    if jobs.Err? then Err(jobs.error) else
    var symmetry := SymmetryOption(m);
    if symmetry.Err? then Err(symmetry.error) else
    var minimumPathLength := ParseIntegerArgument(m, "minimum-path-length", Some(1), Some(1));
    if minimumPathLength.Err? then Err(minimumPathLength.error) else
    var emptyWidth := ParseIntegerArgument(m, "empty-width", Some(0), Some(0));
    if emptyWidth.Err? then Err(emptyWidth.error) else
    var maxClue := MaxClueOption(m);
    if maxClue.Err? then Err(maxClue.error) else
    var corner := CornerOption(m);
    if corner.Err? then Err(corner.error) else
    Ok(GeneratorOption(
      height.value, width.value, jobs.value, "no-adjacent-clues" in m.flags, symmetry.value,
      minimumPathLength.value, emptyWidth.value, maxClue.value, corner.value,
      "use-profiler" in m.flags, "prioritized-extension" in m.flags))
  }

  /**
   * The options are accepted exactly when every one of them is, and then
   * each setting is the one its option gives: a grid of at least 1 x 1,
   * at least one job, a minimum path length of at least 1, a
   * non-negative empty width, a positive maximum clue and a corner range
   * `1 <= lo <= hi` when given.
   */
  lemma ParseOptionsSpec(m: Matches)
    ensures ParseOptions(m).Ok? <==>
      && ParseIntegerArgument(m, "height", None, Some(1)).Ok?
      && ParseIntegerArgument(m, "width", None, Some(1)).Ok?
      && ParseIntegerArgument(m, "jobs", Some(1), Some(1)).Ok?
      && SymmetryOption(m).Ok?
      && ParseIntegerArgument(m, "minimum-path-length", Some(1), Some(1)).Ok?
      && ParseIntegerArgument(m, "empty-width", Some(0), Some(0)).Ok?
      && MaxClueOption(m).Ok?
      && CornerOption(m).Ok?
    ensures ParseOptions(m).Ok? ==>
      var o := ParseOptions(m).value;
      && o.height >= 1 && o.width >= 1 && o.jobs >= 1
      && o.minimumPathLength >= 1 && o.emptyWidth >= 0
      && (o.maxClue.Some? ==> o.maxClue.value > 0)
      && (o.corner.Some? ==> 1 <= o.corner.value.0 <= o.corner.value.1)
      && o.symmetry == SymmetryOption(m).value
      && (o.noAdjacentClues <==> "no-adjacent-clues" in m.flags)
      && (o.useProfiler <==> "use-profiler" in m.flags)
      && (o.prioritizedExtension <==> "prioritized-extension" in m.flags)
  {
  }

  /** The grid size has no default: leaving out `--height` or `--width` is `MissingOption`. */
  lemma SizeRequired(m: Matches)
    requires "height" !in m.values || ("height" in m.values && ParseIntegerArgument(m, "height", None, Some(1)).Ok? && "width" !in m.values)
    ensures ParseOptions(m).Err?
    ensures ParseOptions(m).error == MissingOption(if "height" !in m.values then "height" else "width")
  {
  }

  /** Without the optional settings, the defaults are one job, paths of length 1 or more, no empty border, no symmetry and no limits; a flag not given is off. */
  lemma Defaults(m: Matches)
    requires ParseOptions(m).Ok?
    requires forall name :: name in m.values ==> name == "height" || name == "width"
    ensures var o := ParseOptions(m).value;
      && o.jobs == 1 && o.minimumPathLength == 1 && o.emptyWidth == 0
      && o.symmetry == NoSymmetry && o.maxClue == None && o.corner == None
    ensures var o := ParseOptions(m).value;
      && ("no-adjacent-clues" !in m.flags ==> !o.noAdjacentClues)
      && ("use-profiler" !in m.flags ==> !o.useProfiler)
      && ("prioritized-extension" !in m.flags ==> !o.prioritizedExtension)
  {
    assert "jobs" !in m.values && "minimum-path-length" !in m.values && "empty-width" !in m.values;
    assert "s" !in m.values && "max-clue" !in m.values && "corner" !in m.values;
  }
}
