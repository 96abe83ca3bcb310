/**
 * `parse_url` of src/bin/doublechoco_sol.rs: a Double Choco puzzle URL
 * `.../<width>/<height>/<body>`. The body starts with the colours, five
 * cells per character, most significant bit first; the clues follow, as
 * runs of empty cells (`g` to `z`) and values (a hex digit, or `-` and two
 * hex digits).
 *
 * The `doublechoco` module itself (its `Color`, `Clue` and `NO_CLUE`) is
 * not part of this model: `Color` is White or Black, a clue is the `i32`
 * written into the grid, and `NO_CLUE` is a parameter.
 */
module DoubleChocoUrl {
  import opened Wrappers
  import opened Text
  import opened Common
  import Format

  datatype Color = White | Black

  /** `parse_url` returns both grids, or panics (an `unwrap`, an index past the end, a division by zero). */
  datatype Outcome = Decoded(color: Grid<Color>, clue: Grid<int>) | Panics

  /** `convert_hex`, and the digit reading of the colour section: digits are 0 to 9, every other character `c - 'a' + 10`. */
  function ConvertHex(v: char): (r: int)
    ensures '0' <= v <= '9' ==> r == v as int - '0' as int
    ensures 'a' <= v <= 'z' ==> r == v as int - 'a' as int + 10 && 10 <= r < 36
    ensures !('0' <= v <= '9') ==> r == v as int - 'a' as int + 10
  {
    if '0' <= v <= '9' then v as int - '0' as int else v as int - 'a' as int + 10
  }

  function Pow2(k: nat): (r: nat)
    ensures r >= 1
  {
    if k == 0 then 1 else 2 * Pow2(k - 1)
  }

  /** `bits & (1 << k) != 0` on an `i32`: bit `k` of its two's complement form, which floor division reads off. */
  predicate Bit(bits: int, k: nat) {
    (bits / Pow2(k)) % 2 == 1
  }

  /** Rust's `/` on `i32`, which truncates toward zero. */
  function TDiv(a: int, b: int): (r: int)
    requires b != 0
    ensures a >= 0 && b > 0 ==> r == a / b
  {
    var q := (if a < 0 then -a else a) / (if b < 0 then -b else b);
    if (a < 0) == (b < 0) then q else -q
  }

  /** Rust's `%` on `i32`: whatever truncating division leaves. */
  function TMod(a: int, b: int): (r: int)
    requires b != 0
    ensures TDiv(a, b) * b + r == a
    ensures a >= 0 && b > 0 ==> r == a % b
  {
    a - TDiv(a, b) * b
  }

  /** The number of colour characters: `(height * width + 4) / 5`. */
  function ColorChars(n: int): (r: int)
    requires n >= 0
    ensures r >= 0 && 5 * r >= n && 5 * r < n + 5
  {
    (n + 4) / 5
  }

  /** The colour the body gives cell `p`: bit `4 - p % 5` of character `p / 5`. */
  function BitColor(body: string, p: int): Color {
    if 0 <= p && p / 5 < |body| && Bit(ConvertHex(body[p / 5]), 4 - p % 5) then Black else White
  }

  /** The colour loop writes cell `p` (at slot `p`) only when its row `p / width` is below `height`. */
  predicate Written(h: int, w: int, p: int) {
    w != 0 && TDiv(p, w) < h
  }

  /**
   * The colour section read on its own terms: `None` (a panic) when the
   * body is shorter than the section, or when some written cell lies
   * outside the grid; otherwise each cell is the colour of its bit when it
   * is written, and White when not.
   */
  function ColorSection(h: int, w: int, body: string): (r: Option<seq<Color>>)
    requires h * w >= 0
    ensures r.Some? ==> |r.value| == h * w && ColorChars(h * w) <= |body|
  {
    var n := h * w;
    var count := ColorChars(n);
    if |body| < count then None
    else if exists p :: 0 <= p < 5 * count && Written(h, w, p) && p >= n then None
    else Some(seq(n, q => if Written(h, w, q) then BitColor(body, q) else White))
  }

  /**
   * The clue section from the rest `s` of the body, with the next cell
   * `pos`: a character from `g` on skips `c - 'f'` cells; `-` and two hex
   * digits, or one hex digit, is a value for cell `pos`. `None` when `-`
   * lacks its digits, when `width` is 0 (the division of `pos / width`), or
   * when `pos` lies outside the grid.
   */
  function ClueScan(s: string, pos: int, w: int, clue: seq<int>): Option<seq<int>>
    decreases |s|
  {
    if s == [] then Some(clue)
    else if 'g' <= s[0] then ClueScan(s[1..], pos + (s[0] as int - 'f' as int), w, clue)
    else if s[0] == '-' && |s| < 3 then None
    else
      var val := if s[0] == '-' then ConvertHex(s[1]) * 16 + ConvertHex(s[2]) else ConvertHex(s[0]);
      var rest := if s[0] == '-' then s[3..] else s[1..];
      if w == 0 || !(0 <= pos < |clue|) then None
      else ClueScan(rest, pos + 1, w, clue[pos := val])
  }

  /** What `parse_url` returns. */
  function ParseUrlSpec(url: string, noClue: int): Outcome {
    var tokens := Split(url, '/');
    if |tokens| < 3 then Panics
    else
      var width := ParseI32(tokens[|tokens| - 3]);
      var height := ParseI32(tokens[|tokens| - 2]);
      if width.None? || height.None? then Panics
      else
        var w, h := width.value, height.value;
        var body := tokens[|tokens| - 1];
        if h * w < 0 then Panics
        else
          match ColorSection(h, w, body)
          case None => Panics
          case Some(colors) =>
            var n := h * w;
            match ClueScan(body[ColorChars(n)..], 0, w, seq(n, _ => noClue))
            case None => Panics
            case Some(clues) => Decoded(Grid(h, w, colors), Grid(h, w, clues))
  }

  /** The colour cells written before cell `limit`, as the loop has them. */
  function ColorsUpTo(h: int, w: int, body: string, limit: int): seq<Color>
    requires h * w >= 0
  {
    seq(h * w, q => if q < limit && Written(h, w, q) then BitColor(body, q) else White)
  }

  /** One more cell of the colour loop: cell `p` takes its colour when written, and nothing else changes. */
  lemma ColorsStep(h: int, w: int, body: string, p: int)
    requires h * w >= 0 && 0 <= p
    ensures Written(h, w, p) && p < h * w ==> ColorsUpTo(h, w, body, p + 1) == ColorsUpTo(h, w, body, p)[p := BitColor(body, p)]
    ensures !(Written(h, w, p) && p < h * w) ==> ColorsUpTo(h, w, body, p + 1) == ColorsUpTo(h, w, body, p)
  {
  }

  /** Past the last cell, the loop's colours are the section's. */
  lemma ColorsFinal(h: int, w: int, body: string, limit: int)
    requires h * w >= 0 && limit >= h * w
    ensures ColorsUpTo(h, w, body, limit) == seq(h * w, q => if Written(h, w, q) then BitColor(body, q) else White)
  {
  }

  lemma FiveDigits(i: int, j: int)
    requires 0 <= i && 0 <= j < 5
    ensures (5 * i + j) / 5 == i && (5 * i + j) % 5 == j
  {
  }

  /** The colour loop of `parse_url`: `None` where it panics. */
  method DecodeColors(h: int, w: int, body: string) returns (r: Option<seq<Color>>)
    requires h * w >= 0
    ensures r == ColorSection(h, w, body)
  {
    var n := h * w;
    var count := ColorChars(n);
    var color := seq(n, _ => White);
    assert color == ColorsUpTo(h, w, body, 0);
    var idx := 0;
    for i := 0 to count
      invariant idx == i && i <= |body|
      invariant color == ColorsUpTo(h, w, body, 5 * i)
      invariant forall p :: 0 <= p < 5 * i && Written(h, w, p) ==> p < n
    {
      if idx >= |body| {
        return None;
      }
      var v := body[idx];
      idx := idx + 1;
      var bits := ConvertHex(v);
      for j := 0 to 5
        invariant color == ColorsUpTo(h, w, body, 5 * i + j)
        invariant forall p :: 0 <= p < 5 * i + j && Written(h, w, p) ==> p < n
      {
        var p := i * 5 + j;
        ColorsStep(h, w, body, p);
        var y := TDiv(p, w);
        var x := TMod(p, w);
        if y < h {
          var slot := y * w + x;
          assert slot == p;
          if !(0 <= slot < n) {
            assert Written(h, w, p) && p >= n;
            return None;
          }
          FiveDigits(i, j);
          color := color[slot := if Bit(bits, 4 - j) then Black else White];
        }
      }
    }
    ColorsFinal(h, w, body, 5 * count);
    return Some(color);
  }

  /** The clue loop of `parse_url`, from character `start` of the body: `None` where it panics. */
  method DecodeClues(body: string, start: nat, w: int, clue: seq<int>) returns (r: Option<seq<int>>)
    requires start <= |body|
    ensures r == ClueScan(body[start..], 0, w, clue)
  {
    var idx := start;
    var pos := 0;
    var c := clue;
    while idx < |body|
      invariant start <= idx <= |body|
      invariant ClueScan(body[idx..], pos, w, c) == ClueScan(body[start..], 0, w, clue)
      decreases |body| - idx
    {
      assert body[idx..][0] == body[idx];
      if 'g' <= body[idx] {
        assert body[idx..][1..] == body[idx + 1..];
        pos := pos + (body[idx] as int - 'f' as int);
        idx := idx + 1;
      } else {
        var val;
        if body[idx] == '-' {
          if idx + 2 >= |body| {
            return None;
          }
          assert body[idx..][1] == body[idx + 1] && body[idx..][2] == body[idx + 2];
          assert body[idx..][3..] == body[idx + 3..];
          val := ConvertHex(body[idx + 1]) * 16 + ConvertHex(body[idx + 2]);
          idx := idx + 3;
        } else {
          assert body[idx..][1..] == body[idx + 1..];
          val := ConvertHex(body[idx]);
          idx := idx + 1;
        }
        if w == 0 {
          return None;
        }
        var slot := TDiv(pos, w) * w + TMod(pos, w);
        if !(0 <= slot < |c|) {
          return None;
        }
        c := c[slot := val];
        pos := pos + 1;
      }
    }
    assert body[idx..] == [];
    return Some(c);
  }

  /** `parse_url`. */
  method ParseUrl(url: string, noClue: int) returns (r: Outcome)
    ensures r == ParseUrlSpec(url, noClue)
  {
    var tokens := Split(url, '/');
    if |tokens| < 3 {
      return Panics;
    }
    var width := ParseI32(tokens[|tokens| - 3]);
    var height := ParseI32(tokens[|tokens| - 2]);
    if width.None? || height.None? {
      return Panics;
    }
    var w, h := width.value, height.value;
    var body := tokens[|tokens| - 1];
    var blank := Format.NewReaderGrid(h, w, noClue);
    if blank.None? {
      return Panics;
    }
    var colors := DecodeColors(h, w, body);
    if colors.None? {
      return Panics;
    }
    var clues := DecodeClues(body, ColorChars(h * w), w, blank.value.data);
    if clues.None? {
      return Panics;
    }
    assert blank.value.data == seq(h * w, _ => noClue);
    return Decoded(Grid(h, w, colors.value), Grid(h, w, clues.value));
  }
}
