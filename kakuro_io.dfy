/**
 * `read_penciloid_problem` of src/kakuro/io.rs: the same line format as
 * src/kakuro/format.rs, but with `ReadError`, which tells a missing field
 * (`InvalidFormat`) from one that is not an integer (`InvalidValue`).
 *
 * The `io` module this reader imports is not part of this model; its
 * `next_valid_line` is taken to behave like the one of src/format/mod.rs,
 * and its I/O failures to surface as a `ReadError` that carries them.
 */
module KakuroIo {
  import opened Wrappers
  import opened Text
  import opened Common
  import opened Format
  import opened KakuroBase
  import opened ReadErrors
  import KakuroFormat

  /**
   * The `k`-th space-separated field, trimmed and read as an `i32`:
   * `ok_or(InvalidFormat)` when it is missing, `map_err(|_| InvalidValue)`
   * when it does not parse.
   */
  function IoField(tokens: seq<string>, k: nat): (r: Result<int, ReadError>)
    ensures r.Err? ==> !r.error.IoFailure?
  {
    match Nth(tokens, k)
    case None => Err(InvalidFormat)
    case Some(t) =>
      match ParseI32(Trim(t))
      case None => Err(InvalidValue)
      case Some(v) => Ok(v)
  }

  /** A field is missing exactly when there are too few tokens, and otherwise fails exactly when it does not parse. */
  lemma IoFieldErrors(tokens: seq<string>, k: nat)
    ensures IoField(tokens, k) == Err(InvalidFormat) <==> k >= |tokens|
    ensures IoField(tokens, k) == Err(InvalidValue) <==> k < |tokens| && ParseI32(Trim(tokens[k])).None?
    ensures IoField(tokens, k).Ok? ==> Some(IoField(tokens, k).value) == ParseI32(Trim(tokens[k]))
  {
  }

  function ParseHeader(line: string): (r: Result<(int, int, int), ReadError>)
    ensures r.Err? ==> !r.error.IoFailure?
  {
    var t := Split(line, ' ');
    match IoField(t, 0)
    case Err(e) => Err(e)
    case Ok(h) =>
      match IoField(t, 1)
      case Err(e) => Err(e)
      case Ok(w) =>
        match IoField(t, 2)
        case Err(e) => Err(e)
        case Ok(n) => Ok((h, w, n))
  }

  function ParseEntry(line: string): (r: Result<KakuroFormat.Entry, ReadError>)
    ensures r.Err? ==> !r.error.IoFailure?
  {
    var t := Split(line, ' ');
    match IoField(t, 0)
    case Err(e) => Err(e)
    case Ok(y) =>
      match IoField(t, 1)
      case Err(e) => Err(e)
      case Ok(x) =>
        match IoField(t, 2)
        case Err(e) => Err(e)
        case Ok(h) =>
          match IoField(t, 3)
          case Err(e) => Err(e)
          case Ok(v) => Ok(KakuroFormat.Entry(y, x, h, v))
  }

  /** One clue line: parse it, then write `Clue { horizontal, vertical }` at `P(y, x)`. */
  function ClueLine(g: Grid<Clue>, line: string): LineOutcome<Grid<Clue>, ReadError> {
    match ParseEntry(line)
    case Err(e) => Stop(e)
    case Ok(en) =>
      match WriteCell(g, en.y, en.x, Clue(en.horizontal, en.vertical))
      case None => Crash
      case Some(g') => Continue(g')
  }

  ghost function Read(input: seq<LineRead>): ReadOutcome<Grid<Clue>, ReadError> {
    match NextValid(input, 0)
    case Endless => Hangs
    case IoFailed(e, _) => Failed(IoFailure(e))
    case Found(line, next) =>
      match ParseHeader(line)
      case Err(e) => Failed(e)
      case Ok(hdr) =>
        match NewReaderGrid(hdr.0, hdr.1, NoClue)
        case None => Panics
        case Some(g) => ReadLines(input, next, hdr.2, g, ClueLine, FromIo)
  }

  /** `read_penciloid_problem`. */
  method ReadPenciloidProblem(input: seq<LineRead>) returns (r: ReadOutcome<Grid<Clue>, ReadError>)
    ensures r == Read(input)
  {
    var first := NextValidLine(input, 0);
    if first.Endless? {
      return Hangs;
    } else if first.IoFailed? {
      return Failed(IoFailure(first.err));
    }
    var header := ParseHeader(first.line);
    if header.Err? {
      return Failed(header.error);
    }
    var (height, width, count) := header.value;
    var blank := NewReaderGrid(height, width, NoClue);
    if blank.None? {
      return Panics;
    }
    r := ReadLinesLoop(input, first.next, count, blank.value, ClueLine, FromIo);
  }

  /** How the two readers' errors correspond: both value and format problems are `Error::Format`. */
  function ToFormatError(e: ReadError): (r: Format.Error)
    ensures r.Io? <==> e.IoFailure?
    ensures e.IoFailure? ==> r.err == e.err
  {
    match e
    case InvalidFormat => FormatError
    case InvalidValue => FormatError
    case IoFailure(err) => Format.Io(err)
  }

  lemma IoFieldAgrees(tokens: seq<string>, k: nat)
    ensures IoField(tokens, k).Ok? <==> Field(tokens, k).Ok?
    ensures IoField(tokens, k).Ok? ==> IoField(tokens, k).value == Field(tokens, k).value
  {
  }

  lemma ClueLineAgrees(g: Grid<Clue>, line: string)
    ensures KakuroFormat.ClueLine(g, line) == MapStop(ClueLine(g, line), ToFormatError)
  {
    var t := Split(line, ' ');
    IoFieldAgrees(t, 0);
    IoFieldAgrees(t, 1);
    IoFieldAgrees(t, 2);
    IoFieldAgrees(t, 3);
  }

  lemma HeaderAgrees(line: string)
    ensures ParseHeader(line).Ok? <==> KakuroFormat.ParseHeader(line).Ok?
    ensures ParseHeader(line).Ok? ==> ParseHeader(line).value == KakuroFormat.ParseHeader(line).value
  {
    var t := Split(line, ' ');
    IoFieldAgrees(t, 0);
    IoFieldAgrees(t, 1);
    IoFieldAgrees(t, 2);
  }

  /**
   * The two readers agree on every input once the finer errors of this
   * one are merged into `Error::Format`: same grids, same panics, same
   * endless reads, same I/O errors.
   */
  lemma ReadAgrees(input: seq<LineRead>)
    ensures KakuroFormat.Read(input) == MapFailed(Read(input), ToFormatError)
  {
    var nv := NextValid(input, 0);
    if nv.Found? {
      HeaderAgrees(nv.line);
      if ParseHeader(nv.line).Ok? {
        var hdr := ParseHeader(nv.line).value;
        var blank := NewReaderGrid(hdr.0, hdr.1, NoClue);
        if blank.Some? {
          forall g', line | true
            ensures KakuroFormat.ClueLine(g', line) == MapStop(ClueLine(g', line), ToFormatError)
          {
            ClueLineAgrees(g', line);
          }
          ReadLinesMap(input, nv.next, hdr.2, blank.value, ClueLine, FromIo,
            KakuroFormat.ClueLine, FromIoError, ToFormatError);
        }
      }
    }
  }

  /** A header with fewer than three tokens, all of which parse, is `InvalidFormat`. */
  lemma ReadShortHeader(input: seq<LineRead>)
    requires NextValid(input, 0).Found?
    requires var t := Split(NextValid(input, 0).line, ' ');
      |t| < 3 && forall k :: 0 <= k < |t| ==> IoField(t, k).Ok?
    ensures Read(input) == Failed(InvalidFormat)
  {
    var t := Split(NextValid(input, 0).line, ' ');
    assert IoField(t, 0).Ok?;
    assert |t| == 1 ==> IoField(t, 1) == Err(InvalidFormat);
    assert |t| == 2 ==> IoField(t, 1).Ok? && IoField(t, 2) == Err(InvalidFormat);
  }

  /** A header whose `k`-th field is present but not an integer, after `k` good ones, is `InvalidValue`. */
  lemma ReadBadHeaderValue(input: seq<LineRead>, k: nat)
    requires NextValid(input, 0).Found?
    requires var t := Split(NextValid(input, 0).line, ' ');
      k < 3 && k < |t| && ParseI32(Trim(t[k])).None? && forall j :: 0 <= j < k ==> IoField(t, j).Ok?
    ensures Read(input) == Failed(InvalidValue)
  {
    var t := Split(NextValid(input, 0).line, ' ');
    assert IoField(t, k) == Err(InvalidValue);
    assert k > 0 ==> IoField(t, 0).Ok?;
    assert k > 1 ==> IoField(t, 1).Ok?;
  }

  /**
   * A parsed grid is the one src/kakuro/format.rs reads: the header's
   * shape, and each cell the last clue line naming it, or `NoClue`.
   */
  lemma ReadCells(input: seq<LineRead>, i: int)
    requires Read(input).Parsed? && 0 <= i < |Read(input).value.data|
    ensures KakuroFormat.Read(input) == Parsed(Read(input).value)
    ensures NextValid(input, 0).Found? && ParseHeader(NextValid(input, 0).line).Ok?
    ensures var hdr := ParseHeader(NextValid(input, 0).line).value;
      var es := KakuroFormat.EntriesOf(KakuroFormat.ClueLines(input));
      var g := Read(input).value;
      && g.height == hdr.0 && g.width == hdr.1 && |g.data| == hdr.0 * hdr.1
      && |es| == (if hdr.2 < 0 then 0 else hdr.2)
      && ((forall j :: 0 <= j < |es| ==> KakuroFormat.EntrySlot(es[j], hdr.1) != i) ==> g.data[i] == NoClue)
      && (forall j :: 0 <= j < |es| && KakuroFormat.EntrySlot(es[j], hdr.1) == i
            && (forall j' :: j < j' < |es| ==> KakuroFormat.EntrySlot(es[j'], hdr.1) != i)
            ==> g.data[i] == Clue(es[j].horizontal, es[j].vertical))
  {
    ReadAgrees(input);
    HeaderAgrees(NextValid(input, 0).line);
    KakuroFormat.ReadShape(input);
    KakuroFormat.ReadCells(input, i);
  }
}
