/**
 * `read_penciloid_problem` of src/numberlink/format.rs: a header
 * "height width", then one line per row whose `x`-th space-separated
 * token, trimmed, becomes `Clue(n)` when it reads as an `i32` `n`; any
 * other token leaves `NO_CLUE`.
 */
module NumberlinkFormat {
  import opened Wrappers
  import opened Text
  import opened Common
  import opened Format
  import opened GridReader
  import opened NumberlinkBase

  /** The clue each token of a row line writes. */
  function TokenCells(line: string): (r: seq<Option<Clue>>)
    ensures |r| == |Split(line, ' ')|
  {
    var t := Split(line, ' ');
    seq(|t|, k requires 0 <= k < |t| => match ParseI32(Trim(t[k])) case Some(n) => Some(Clue(n)) case None => None)
  }

  function Row(st: RowState<Clue>, line: string): LineOutcome<RowState<Clue>, Error> {
    RowStep(st, TokenCells(line))
  }

  ghost function Read(input: seq<LineRead>): ReadOutcome<Grid<Clue>, Error> {
    GridReader.Read(input, NoClue, Row)
  }

  /** `read_penciloid_problem`. */
  method ReadPenciloidProblem(input: seq<LineRead>) returns (r: ReadOutcome<Grid<Clue>, Error>)
    ensures r == Read(input)
  {
    r := ReadRows(input, NoClue, Row);
  }

  /**
   * A parsed grid has the header's shape; every row line had at least
   * `width` tokens, and cell `(y, x)` is `Clue(n)` exactly when the
   * `x`-th token of row line `y` reads as `n`, else `NO_CLUE`.
   */
  lemma ReadCells(input: seq<LineRead>, y: int, x: int)
    requires Read(input).Parsed?
    ensures NextValid(input, 0).Found? && ParseHeader(NextValid(input, 0).line).Ok?
    ensures var (h, w) := ParseHeader(NextValid(input, 0).line).value;
      var g := Read(input).value;
      && g.height == h && g.width == w && |g.data| == h * w
      && |Rows(input)| == (if h < 0 then 0 else h)
      && (0 <= y < h && 0 <= x < w ==>
            var t := Split(Rows(input)[y], ' ');
            && x < |t| && 0 <= y * w + x < |g.data|
            && g.data[y * w + x] == (match ParseI32(Trim(t[x])) case Some(n) => Clue(n) case None => NoClue))
  {
    assert IsRowStep(Row, TokenCells);
    GridReader.ReadCells(input, NoClue, Row, TokenCells);
    var (h, w) := ParseHeader(NextValid(input, 0).line).value;
    if 0 <= y < h && 0 <= x < w {
      assert CellSlot(w, y, x) == y * w + x;
    }
  }
}
