/**
 * `read_penciloid_problem` of src/kakuro/format.rs: a header line
 * "height width count", then `count` lines "y x horizontal vertical",
 * each writing one clue cell of an otherwise clue-free grid.
 */
module KakuroFormat {
  import opened Wrappers
  import opened Text
  import opened Common
  import opened Format
  import opened KakuroBase

  /** One clue line: the cell and its two sums, in the order of the line. */
  datatype Entry = Entry(y: int, x: int, horizontal: int, vertical: int)

  /** The three header fields, read left to right. */
  function ParseHeader(line: string): (r: Result<(int, int, int), Error>)
    ensures r.Err? ==> r.error == FormatError
  {
    var t := Split(line, ' ');
    match Field(t, 0)
    case Err(e) => Err(e)
    case Ok(h) =>
      match Field(t, 1)
      case Err(e) => Err(e)
      case Ok(w) =>
        match Field(t, 2)
        case Err(e) => Err(e)
        case Ok(n) => Ok((h, w, n))
  }

  /** The four fields of a clue line; the third is the horizontal sum. */
  function ParseEntry(line: string): (r: Result<Entry, Error>)
    ensures r.Err? ==> r.error == FormatError
  {
    var t := Split(line, ' ');
    match Field(t, 0)
    case Err(e) => Err(e)
    case Ok(y) =>
      match Field(t, 1)
      case Err(e) => Err(e)
      case Ok(x) =>
        match Field(t, 2)
        case Err(e) => Err(e)
        case Ok(h) =>
          match Field(t, 3)
          case Err(e) => Err(e)
          case Ok(v) => Ok(Entry(y, x, h, v))
  }

  /** The slot an entry writes: `y * width + x`. */
  function EntrySlot(e: Entry, width: int): int {
    e.y * width + e.x
  }

  /** Writing the entries in order; `None` is the panic of an index outside the grid. */
  function Place(g: Grid<Clue>, es: seq<Entry>): Option<Grid<Clue>>
    decreases |es|
  {
    if es == [] then Some(g)
    else match WriteCell(g, es[0].y, es[0].x, Clue(es[0].horizontal, es[0].vertical))
      case None => None
      case Some(g') => Place(g', es[1..])
  }

  /** Placing keeps the grid's shape. */
  lemma {:induction false} PlaceShape(g: Grid<Clue>, es: seq<Entry>)
    requires Place(g, es).Some?
    ensures var g' := Place(g, es).value;
      g'.height == g.height && g'.width == g.width && |g'.data| == |g.data|
    decreases |es|
  {
    if es != [] {
      var g1 := WriteCell(g, es[0].y, es[0].x, Clue(es[0].horizontal, es[0].vertical)).value;
      PlaceShape(g1, es[1..]);
    }
  }

  /** A slot that no entry names keeps its old content. */
  lemma {:induction false} PlaceUnnamed(g: Grid<Clue>, es: seq<Entry>, i: int)
    requires Place(g, es).Some? && 0 <= i < |g.data|
    requires forall j :: 0 <= j < |es| ==> EntrySlot(es[j], g.width) != i
    ensures |Place(g, es).value.data| == |g.data| && Place(g, es).value.data[i] == g.data[i]
    decreases |es|
  {
    PlaceShape(g, es);
    if es != [] {
      var g1 := WriteCell(g, es[0].y, es[0].x, Clue(es[0].horizontal, es[0].vertical)).value;
      assert EntrySlot(es[0], g.width) != i;
      forall j | 0 <= j < |es[1..]|
        ensures EntrySlot(es[1..][j], g1.width) != i
      {
        assert es[1..][j] == es[j + 1];
      }
      PlaceUnnamed(g1, es[1..], i);
    }
  }

  /** A slot holds the clue of the last entry that names it: later lines overwrite. */
  lemma {:induction false} PlaceLastWins(g: Grid<Clue>, es: seq<Entry>, j: int)
    requires Place(g, es).Some? && 0 <= j < |es|
    requires forall j' :: j < j' < |es| ==> EntrySlot(es[j'], g.width) != EntrySlot(es[j], g.width)
    ensures var i := EntrySlot(es[j], g.width);
      0 <= i < |Place(g, es).value.data|
      && Place(g, es).value.data[i] == Clue(es[j].horizontal, es[j].vertical)
    decreases |es|
  {
    var g1 := WriteCell(g, es[0].y, es[0].x, Clue(es[0].horizontal, es[0].vertical)).value;
    PlaceShape(g1, es[1..]);
    if j == 0 {
      var i := EntrySlot(es[0], g.width);
      forall j' | 0 <= j' < |es[1..]|
        ensures EntrySlot(es[1..][j'], g1.width) != i
      {
        assert es[1..][j'] == es[j' + 1];
      }
      PlaceUnnamed(g1, es[1..], i);
    } else {
      forall j' | j - 1 < j' < |es[1..]|
        ensures EntrySlot(es[1..][j'], g1.width) != EntrySlot(es[1..][j - 1], g1.width)
      {
        assert es[1..][j'] == es[j' + 1];
      }
      PlaceLastWins(g1, es[1..], j - 1);
      assert es[1..][j - 1] == es[j];
    }
  }

  /** One clue line of the loop: parse the four fields, then write the cell. */
  function ClueLine(g: Grid<Clue>, line: string): LineOutcome<Grid<Clue>, Error> {
    match ParseEntry(line)
    case Err(e) => Stop(e)
    case Ok(en) =>
      match WriteCell(g, en.y, en.x, Clue(en.horizontal, en.vertical))
      case None => Crash
      case Some(g') => Continue(g')
  }

  /** The whole reader: header, an all-`NoClue` grid, then `count` clue lines. */
  ghost function Read(input: seq<LineRead>): ReadOutcome<Grid<Clue>, Error> {
    match NextValid(input, 0)
    case Endless => Hangs
    case IoFailed(e, _) => Failed(FromIoError(e))
    case Found(line, next) =>
      match ParseHeader(line)
      case Err(e) => Failed(e)
      case Ok(hdr) =>
        match NewReaderGrid(hdr.0, hdr.1, NoClue)
        case None => Panics
        case Some(g) => ReadLines(input, next, hdr.2, g, ClueLine, FromIoError)
  }

  /** `read_penciloid_problem`. */
  method ReadPenciloidProblem(input: seq<LineRead>) returns (r: ReadOutcome<Grid<Clue>, Error>)
    ensures r == Read(input)
  {
    var first := NextValidLine(input, 0);
    if first.Endless? {
      return Hangs;
    } else if first.IoFailed? {
      return Failed(FromIoError(first.err));
    }
    var header := ParseHeader(first.line);
    if header.Err? {
      return Failed(header.error);
    }
    var (height, width, count) := header.value;
    var blank := NewReaderGrid(height, width, NoClue);
    if blank.None? {
      return Panics;
    }
    r := ReadLinesLoop(input, first.next, count, blank.value, ClueLine, FromIoError);
  }

  /** The entries of a run of clue lines, up to the first that does not parse. */
  function EntriesOf(lines: seq<string>): seq<Entry>
    decreases |lines|
  {
    if lines == [] || ParseEntry(lines[0]).Err? then []
    else [ParseEntry(lines[0]).value] + EntriesOf(lines[1..])
  }

  /** Clue lines that all go through write their entries in order. */
  lemma {:induction false} FoldPlace(g: Grid<Clue>, lines: seq<string>)
    requires Fold(g, lines, ClueLine).Continue?
    ensures |EntriesOf(lines)| == |lines|
    ensures Place(g, EntriesOf(lines)) == Some(Fold(g, lines, ClueLine).state)
    decreases |lines|
  {
    if lines != [] {
      var g1 := ClueLine(g, lines[0]).state;
      FoldPlace(g1, lines[1..]);
      var es := EntriesOf(lines);
      assert es[1..] == EntriesOf(lines[1..]);
    }
  }

  /** The clue lines a parsed read consumed: exactly `count` of them, after the header. */
  ghost function ClueLines(input: seq<LineRead>): seq<string>
    requires NextValid(input, 0).Found? && ParseHeader(NextValid(input, 0).line).Ok?
  {
    var hdr := ParseHeader(NextValid(input, 0).line).value;
    var ls := ValidLines(input, NextValid(input, 0).next, hdr.2);
    if ls.Some? then ls.value else []
  }

  /** A parsed grid has the header's height and width, and `count` clue lines were read. */
  lemma ReadShape(input: seq<LineRead>)
    requires Read(input).Parsed?
    ensures NextValid(input, 0).Found? && ParseHeader(NextValid(input, 0).line).Ok?
    ensures var hdr := ParseHeader(NextValid(input, 0).line).value;
      var g := Read(input).value;
      g.height == hdr.0 && g.width == hdr.1 && |g.data| == hdr.0 * hdr.1
      && |ClueLines(input)| == (if hdr.2 < 0 then 0 else hdr.2)
  {
    var nv := NextValid(input, 0);
    var hdr := ParseHeader(nv.line).value;
    var g := NewReaderGrid(hdr.0, hdr.1, NoClue).value;
    ReadLinesFold(input, nv.next, hdr.2, g, ClueLine, FromIoError);
    FoldPlace(g, ClueLines(input));
    PlaceShape(g, EntriesOf(ClueLines(input)));
  }

  /**
   * In a parsed grid a cell named by some clue line holds the clue of the
   * last such line, and every other cell is `NoClue`.
   */
  lemma ReadCells(input: seq<LineRead>, i: int)
    requires Read(input).Parsed? && 0 <= i < |Read(input).value.data|
    ensures NextValid(input, 0).Found? && ParseHeader(NextValid(input, 0).line).Ok?
    ensures var width := ParseHeader(NextValid(input, 0).line).value.1;
      var es := EntriesOf(ClueLines(input));
      var g := Read(input).value;
      && |es| == |ClueLines(input)|
      && ((forall j :: 0 <= j < |es| ==> EntrySlot(es[j], width) != i) ==> g.data[i] == NoClue)
      && (forall j :: 0 <= j < |es| && EntrySlot(es[j], width) == i
            && (forall j' :: j < j' < |es| ==> EntrySlot(es[j'], width) != i)
            ==> g.data[i] == Clue(es[j].horizontal, es[j].vertical))
  {
    var nv := NextValid(input, 0);
    var hdr := ParseHeader(nv.line).value;
    var g0 := NewReaderGrid(hdr.0, hdr.1, NoClue).value;
    ReadLinesFold(input, nv.next, hdr.2, g0, ClueLine, FromIoError);
    var lines := ClueLines(input);
    FoldPlace(g0, lines);
    var es := EntriesOf(lines);
    PlaceShape(g0, es);
    if forall j :: 0 <= j < |es| ==> EntrySlot(es[j], hdr.1) != i {
      PlaceUnnamed(g0, es, i);
    }
    forall j | 0 <= j < |es| && EntrySlot(es[j], hdr.1) == i
        && (forall j' :: j < j' < |es| ==> EntrySlot(es[j'], hdr.1) != i)
      ensures Read(input).value.data[i] == Clue(es[j].horizontal, es[j].vertical)
    {
      PlaceLastWins(g0, es, j);
    }
  }

  /** Exactly the header and `count` clue lines are read: whatever follows them is ignored. */
  lemma ReadExtend(input: seq<LineRead>, extra: seq<LineRead>)
    requires !Read(input).Hangs?
    ensures Read(input + extra) == Read(input)
  {
    NextValidExtend(input, extra, 0);
    var nv := NextValid(input, 0);
    if nv.Found? && ParseHeader(nv.line).Ok? {
      var hdr := ParseHeader(nv.line).value;
      if NewReaderGrid(hdr.0, hdr.1, NoClue).Some? {
        ReadLinesExtend(input, extra, nv.next, hdr.2, NewReaderGrid(hdr.0, hdr.1, NoClue).value, ClueLine, FromIoError);
      }
    }
  }

  /** A header with a missing or non-integer field makes the whole read a format error. */
  lemma ReadBadHeader(input: seq<LineRead>)
    requires NextValid(input, 0).Found?
    requires var t := Split(NextValid(input, 0).line, ' ');
      Field(t, 0).Err? || Field(t, 1).Err? || Field(t, 2).Err?
    ensures Read(input) == Failed(FormatError)
  {
    assert ParseHeader(NextValid(input, 0).line) == Err(FormatError);
  }
}
