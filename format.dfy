/**
 * The shared reader support of src/format/mod.rs: the error type, its
 * conversions, comment detection and `next_valid_line`.
 *
 * A reader is modelled as the sequence of results its successive
 * `read_line` calls give (a line of text, or an I/O failure); past the
 * end of that sequence `read_line` yields an empty line, as at end of
 * input.
 */
module Format {
  import opened Wrappers
  import opened Text
  import opened Common

  /** The payload of an `io::Error`, which the model does not inspect. */
  datatype IoError = IoError(code: int)

  /** `format::Error`. */
  datatype Error = Io(err: IoError) | FormatError

  /** `From<io::Error>`: the I/O error is kept. */
  function FromIoError(e: IoError): (r: Error)
    ensures r.Io? && r.err == e
  {
    Io(e)
  }

  /** `From<ParseIntError>`: every parse failure is a format error. */
  function FromParseIntError(): (r: Error)
    ensures !r.Io?
  {
    FormatError
  }

  /** The result of one `read_line` call. */
  datatype LineRead = Text(s: string) | Failure(e: IoError)

  /** `is_comment`: the raw line starts with `#`. */
  predicate IsComment(s: string)
    requires s != []
  {
    s[0] == '#'
  }

  /** A line `next_valid_line` accepts: not blank, and not a comment. */
  predicate IsValidLine(s: string) {
    Trim(s) != [] && !IsComment(s)
  }

  /**
   * How `next_valid_line` ends: with a valid line (and the position after
   * it), with an I/O error, or never (only blank lines and comments remain,
   * and at end of input `read_line` keeps returning an empty line).
   */
  datatype NextLine = Found(line: string, next: nat) | IoFailed(err: IoError, next: nat) | Endless

  ghost function NextValid(input: seq<LineRead>, pos: nat): NextLine
    decreases |input| - pos
  {
    if pos >= |input| then Endless
    else match input[pos]
      case Failure(e) => IoFailed(e, pos + 1)
      case Text(s) => if IsValidLine(s) then Found(s, pos + 1) else NextValid(input, pos + 1)
  }

  /** The readers' outcomes: a value, an error, a read that never ends, or a panic. */
  datatype ReadOutcome<T, E> = Parsed(value: T) | Failed(error: E) | Hangs | Panics

  /** `next_valid_line`: clears the buffer and reads until a valid line arrives. */
  method NextValidLine(input: seq<LineRead>, pos: nat) returns (r: NextLine)
    ensures r == NextValid(input, pos)
  {
    var p := pos;
    while p < |input|
      invariant pos <= p
      invariant NextValid(input, p) == NextValid(input, pos)
      decreases |input| - p
    {
      match input[p]
      case Failure(e) =>
        return IoFailed(e, p + 1);
      case Text(s) =>
        if Trim(s) != [] && !IsComment(s) {
          return Found(s, p + 1);
        }
      p := p + 1;
    }
    return Endless;
  }

  /**
   * A found line is the first valid one at or after `pos`; the lines
   * before it are skipped blank lines and comments.
   */
  lemma {:induction false} NextValidFound(input: seq<LineRead>, pos: nat)
    requires NextValid(input, pos).Found?
    ensures var r := NextValid(input, pos);
      pos < r.next <= |input| && input[r.next - 1] == Text(r.line) && IsValidLine(r.line)
      && forall k :: pos <= k < r.next - 1 ==> input[k].Text? && !IsValidLine(input[k].s)
    decreases |input| - pos
  {
    if input[pos].Text? && !IsValidLine(input[pos].s) {
      var r := NextValid(input, pos);
      assert r == NextValid(input, pos + 1);
      NextValidFound(input, pos + 1);
      assert forall k :: pos + 1 <= k < r.next - 1 ==> input[k].Text? && !IsValidLine(input[k].s);
    }
  }

  /** `next_valid_line` never returns exactly when only blank lines and comments remain. */
  lemma NextValidEndless(input: seq<LineRead>, pos: nat)
    ensures NextValid(input, pos).Endless?
      <==> forall k :: pos <= k < |input| ==> input[k].Text? && !IsValidLine(input[k].s)
  {
    if NextValid(input, pos).Endless? {
      EndlessSkipsAll(input, pos);
    }
    if forall k :: pos <= k < |input| ==> input[k].Text? && !IsValidLine(input[k].s) {
      SkipsAllEndless(input, pos);
    }
  }

  lemma {:induction false} EndlessSkipsAll(input: seq<LineRead>, pos: nat)
    requires NextValid(input, pos).Endless?
    ensures forall k :: pos <= k < |input| ==> input[k].Text? && !IsValidLine(input[k].s)
    decreases |input| - pos
  {
    if pos < |input| {
      assert input[pos].Text? && !IsValidLine(input[pos].s);
      assert NextValid(input, pos) == NextValid(input, pos + 1);
      EndlessSkipsAll(input, pos + 1);
      forall k | pos <= k < |input|
        ensures input[k].Text? && !IsValidLine(input[k].s)
      {
        if k == pos {
          assert input[pos].Text? && !IsValidLine(input[pos].s);
        }
      }
    }
  }

  lemma {:induction false} SkipsAllEndless(input: seq<LineRead>, pos: nat)
    requires forall k :: pos <= k < |input| ==> input[k].Text? && !IsValidLine(input[k].s)
    ensures NextValid(input, pos).Endless?
    decreases |input| - pos
  {
    if pos < |input| {
      assert input[pos].Text? && !IsValidLine(input[pos].s);
      SkipsAllEndless(input, pos + 1);
    }
  }

  /**
   * Lines after the one `next_valid_line` stops at are never looked at:
   * appending input leaves a found line or an I/O error unchanged.
   */
  lemma {:induction false} NextValidExtend(input: seq<LineRead>, extra: seq<LineRead>, pos: nat)
    requires !NextValid(input, pos).Endless?
    ensures NextValid(input + extra, pos) == NextValid(input, pos)
    decreases |input| - pos
  {
    assert (input + extra)[pos] == input[pos];
    if input[pos].Text? && !IsValidLine(input[pos].s) {
      NextValidExtend(input, extra, pos + 1);
    }
  }

  /** Only the raw first character makes a comment: leading blanks hide the `#`. */
  lemma CommentExamples()
    ensures IsValidLine(" # x\n") && !IsValidLine("# x\n") && !IsValidLine(" \t\n")
    ensures IsValidLine("3 4\n")
  {
    TrimSpec(" # x\n");
    TrimSpec("3 4\n");
    TrimSpec(" \t\n");
    TrimSpec("# x\n");
    var a := " # x\n";
    assert !IsWhitespace(a[1]);
    assert !AllWhitespace(a);
    var b := "3 4\n";
    assert !IsWhitespace(b[0]);
    assert !AllWhitespace(b);
    var c := " \t\n";
    assert IsWhitespace(c[0]) && IsWhitespace(c[1]) && IsWhitespace(c[2]);
    assert AllWhitespace(c);
    var d := "# x\n";
    assert !IsWhitespace(d[0]);
    assert !AllWhitespace(d);
  }

  /** What a reader's handling of one valid line gives: a new state, an error, or a panic. */
  datatype LineOutcome<G, E> = Continue(state: G) | Stop(error: E) | Crash

  /**
   * A reader's counted loop: `count` times, `next_valid_line` and then
   * `act` on the line; an I/O error is converted by `ioErr` and ends the
   * read at once, as does an error or a panic of `act`.
   */
  ghost function ReadLines<G, E>(input: seq<LineRead>, pos: nat, count: int, g: G,
      act: (G, string) -> LineOutcome<G, E>, ioErr: IoError -> E): ReadOutcome<G, E>
    decreases if count < 0 then 0 else count
  {
    if count <= 0 then Parsed(g)
    else match NextValid(input, pos)
      case Endless => Hangs
      case IoFailed(e, _) => Failed(ioErr(e))
      case Found(line, next) =>
        match act(g, line)
        case Stop(e) => Failed(e)
        case Crash => Panics
        case Continue(g') => ReadLines(input, next, count - 1, g', act, ioErr)
  }

  /**
   * The `for _ in 0..count` loop that every reader runs after its header:
   * fetch the next valid line, stop on an I/O error, otherwise apply the
   * reader's per-line step to its state.
   */
  method ReadLinesLoop<G, E>(input: seq<LineRead>, start: nat, count: int, g: G,
      act: (G, string) -> LineOutcome<G, E>, ioErr: IoError -> E)
    returns (r: ReadOutcome<G, E>)
    ensures r == ReadLines(input, start, count, g, act, ioErr)
  {
    var state := g;
    var pos := start;
    var i := 0;
    while i < count
      invariant 0 <= i && (count >= 0 ==> i <= count)
      invariant ReadLines(input, start, count, g, act, ioErr)
        == ReadLines(input, pos, count - i, state, act, ioErr)
      decreases count - i
    {
      var next := NextValidLine(input, pos);
      if next.Endless? {
        return Hangs;
      } else if next.IoFailed? {
        return Failed(ioErr(next.err));
      }
      match act(state, next.line)
      case Stop(e) => return Failed(e);
      case Crash => return Panics;
      case Continue(g') => state := g';
      pos := next.next;
      i := i + 1;
    }
    return Parsed(state);
  }

  /** The next `count` valid lines from `pos`, when there are that many before any I/O error. */
  ghost function ValidLines(input: seq<LineRead>, pos: nat, count: int): Option<seq<string>>
    decreases if count < 0 then 0 else count
  {
    if count <= 0 then Some([])
    else
      var nv := NextValid(input, pos);
      if !nv.Found? then None
      else match ValidLines(input, nv.next, count - 1)
        case Some(rest) => Some([nv.line] + rest)
        case None => None
  }

  /** Handling the lines one after the other. */
  function Fold<G, E>(g: G, lines: seq<string>, act: (G, string) -> LineOutcome<G, E>): LineOutcome<G, E>
    decreases |lines|
  {
    if lines == [] then Continue(g)
    else match act(g, lines[0])
      case Continue(g') => Fold(g', lines[1..], act)
      case other => other
  }

  /**
   * A loop that finishes has read exactly `count` valid lines (none when
   * `count` is not positive), and its result is `act` applied to them in
   * order.
   */
  lemma {:induction false} ReadLinesFold<G, E>(input: seq<LineRead>, pos: nat, count: int, g: G,
      act: (G, string) -> LineOutcome<G, E>, ioErr: IoError -> E)
    requires ReadLines(input, pos, count, g, act, ioErr).Parsed?
    ensures var ls := ValidLines(input, pos, count);
      ls.Some? && |ls.value| == (if count < 0 then 0 else count)
      && Fold(g, ls.value, act) == Continue(ReadLines(input, pos, count, g, act, ioErr).value)
    decreases if count < 0 then 0 else count
  {
    if count > 0 {
      var nv := NextValid(input, pos);
      var g' := act(g, nv.line).state;
      ReadLinesFold(input, nv.next, count - 1, g', act, ioErr);
      var rest := ValidLines(input, nv.next, count - 1).value;
      var ls := [nv.line] + rest;
      assert ValidLines(input, pos, count) == Some(ls);
      assert ls[0] == nv.line && ls[1..] == rest;
    }
  }

  /** The loop looks at no line after the last one it needs: appending input changes no outcome. */
  lemma {:induction false} ReadLinesExtend<G, E>(input: seq<LineRead>, extra: seq<LineRead>, pos: nat, count: int, g: G,
      act: (G, string) -> LineOutcome<G, E>, ioErr: IoError -> E)
    requires !ReadLines(input, pos, count, g, act, ioErr).Hangs?
    ensures ReadLines(input + extra, pos, count, g, act, ioErr) == ReadLines(input, pos, count, g, act, ioErr)
    decreases if count < 0 then 0 else count
  {
    if count > 0 {
      NextValidExtend(input, extra, pos);
      var nv := NextValid(input, pos);
      if nv.Found? && act(g, nv.line).Continue? {
        ReadLinesExtend(input, extra, nv.next, count - 1, act(g, nv.line).state, act, ioErr);
      }
    }
  }

  /** An error of one line step, translated by `f`. */
  function MapStop<G, E, F>(o: LineOutcome<G, E>, f: E -> F): LineOutcome<G, F> {
    match o
    case Continue(g) => Continue(g)
    case Stop(e) => Stop(f(e))
    case Crash => Crash
  }

  /** An error of a whole read, translated by `f`. */
  function MapFailed<G, E, F>(o: ReadOutcome<G, E>, f: E -> F): ReadOutcome<G, F> {
    match o
    case Parsed(g) => Parsed(g)
    case Failed(e) => Failed(f(e))
    case Hangs => Hangs
    case Panics => Panics
  }

  /**
   * Two readers whose line steps and I/O conversions differ only by an
   * error translation `f` read every input alike, up to `f`.
   */
  lemma {:induction false} ReadLinesMap<G, E, F>(input: seq<LineRead>, pos: nat, count: int, g: G,
      act1: (G, string) -> LineOutcome<G, E>, io1: IoError -> E,
      act2: (G, string) -> LineOutcome<G, F>, io2: IoError -> F, f: E -> F)
    requires forall g', line :: act2(g', line) == MapStop(act1(g', line), f)
    requires forall e :: io2(e) == f(io1(e))
    ensures ReadLines(input, pos, count, g, act2, io2) == MapFailed(ReadLines(input, pos, count, g, act1, io1), f)
    decreases if count < 0 then 0 else count
  {
    if count > 0 {
      var nv := NextValid(input, pos);
      if nv.Found? && act1(g, nv.line).Continue? {
        ReadLinesMap(input, nv.next, count - 1, act1(g, nv.line).state, act1, io1, act2, io2, f);
      }
    }
  }

  /**
   * The `k`-th space-separated field of a line as `parse::<i32>` reads it
   * after `trim`: a missing field and a parse failure are both
   * `Error::Format`.
   */
  function Field(tokens: seq<string>, k: nat): (r: Result<int, Error>)
    ensures r.Err? ==> r.error == FormatError
  {
    match Nth(tokens, k)
    case None => Err(FormatError)
    case Some(t) =>
      match ParseI32(Trim(t))
      case None => Err(FromParseIntError())
      case Some(v) => Ok(v)
  }

  /**
   * `Grid::new` of the reader's grid type: `(height * width) as usize`
   * slots, which cannot be allocated (a panic) when the product is negative.
   */
  function NewReaderGrid<T>(height: int, width: int, default: T): (r: Option<Grid<T>>)
    ensures r.Some? <==> height * width >= 0
    ensures r.Some? ==>
      && r.value.height == height && r.value.width == width
      && |r.value.data| == height * width
      && forall i :: 0 <= i < |r.value.data| ==> r.value.data[i] == default
  {
    if height * width < 0 then None else Some(Grid(height, width, seq(height * width, _ => default)))
  }

  /**
   * `grid[(Y(y), X(x))] = v` on the reader's grid: slot `y * width + x`,
   * which panics (None) outside the data.
   */
  function WriteCell<T>(g: Grid<T>, y: int, x: int, v: T): (r: Option<Grid<T>>)
    ensures r.Some? <==> 0 <= y * g.width + x < |g.data|
    ensures r.Some? ==> r.value == g.(data := g.data[y * g.width + x := v])
  {
    var slot := y * g.width + x;
    if 0 <= slot < |g.data| then Some(g.(data := g.data[slot := v])) else None
  }
}
