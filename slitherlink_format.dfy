/**
 * `read_penciloid_problem` of src/slitherlink/format.rs: a header
 * "height width", then one line per row whose first `width` characters
 * (the line break included) are the cells: `'0'` to `'3'` become that
 * clue, anything else leaves `NO_CLUE`.
 */
module SlitherlinkFormat {
  import opened Wrappers
  import opened Common
  import opened Format
  import opened GridReader
  import opened SlitherlinkBase

  /** The clue a character writes: `c as u8 - '0' as u8` for `'0'..='3'`. */
  function CharClue(c: char): (r: Option<Clue>)
    ensures r.Some? <==> '0' <= c <= '3'
    ensures r.Some? ==> 0 <= r.value.n <= 3 && r.value.n == c as int - '0' as int
  {
    if '0' <= c <= '3' then Some(Clue(c as int - '0' as int)) else None
  }

  /** The clue each character of a row line writes. */
  function CharCells(line: string): (r: seq<Option<Clue>>)
    ensures |r| == |line|
  {
    seq(|line|, k requires 0 <= k < |line| => CharClue(line[k]))
  }

  function Row(st: RowState<Clue>, line: string): LineOutcome<RowState<Clue>, Error> {
    RowStep(st, CharCells(line))
  }

  ghost function Read(input: seq<LineRead>): ReadOutcome<Grid<Clue>, Error> {
    GridReader.Read(input, NoClue, Row)
  }

  /** `read_penciloid_problem`. */
  method ReadPenciloidProblem(input: seq<LineRead>) returns (r: ReadOutcome<Grid<Clue>, Error>)
    ensures r == Read(input)
  {
    r := ReadRows(input, NoClue, Row);
  }

  /**
   * A parsed grid has the header's shape; every row line had at least
   * `width` characters, and cell `(y, x)` is `Clue(d)` for a digit `d`
   * from 0 to 3 at position `x` of row line `y`, else `NO_CLUE`.
   */
  lemma ReadCells(input: seq<LineRead>, y: int, x: int)
    requires Read(input).Parsed?
    ensures NextValid(input, 0).Found? && ParseHeader(NextValid(input, 0).line).Ok?
    ensures var (h, w) := ParseHeader(NextValid(input, 0).line).value;
      var g := Read(input).value;
      && g.height == h && g.width == w && |g.data| == h * w
      && |Rows(input)| == (if h < 0 then 0 else h)
      && (0 <= y < h && 0 <= x < w ==>
            var line := Rows(input)[y];
            && x < |line| && 0 <= y * w + x < |g.data|
            && g.data[y * w + x] == (if '0' <= line[x] <= '3' then Clue(line[x] as int - '0' as int) else NoClue))
  {
    assert IsRowStep(Row, CharCells);
    GridReader.ReadCells(input, NoClue, Row, CharCells);
    var (h, w) := ParseHeader(NextValid(input, 0).line).value;
    if 0 <= y < h && 0 <= x < w {
      assert CellSlot(w, y, x) == y * w + x;
    }
  }
}
