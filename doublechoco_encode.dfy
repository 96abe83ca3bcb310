/**
 * The URL format `parse_url` of src/bin/doublechoco_sol.rs reads, written
 * the other way: an encoder for Double Choco puzzles, and the proof that
 * `parse_url` decodes every encoded puzzle back into its colours and
 * clues.
 */
module DoubleChocoEncode {
  import opened Wrappers
  import opened Text
  import opened Common
  import opened DoubleChocoUrl

  /** The character `convert_hex` reads as `v`, for `v` below 36: a digit, or a letter from `a`. */
  function HexChar(v: int): (r: char)
    requires 0 <= v < 36
    ensures ConvertHex(r) == v && r != '/' && r != '-'
    ensures v < 16 ==> r < 'g'
  {
    if v < 10 then ('0' as int + v) as char else ('a' as int + v - 10) as char
  }

  /** Cell `p` is a Black cell of the grid. */
  function BlackBit(colors: seq<Color>, p: int): int {
    if 0 <= p < |colors| && colors[p] == Black then 1 else 0
  }

  /** The five cells of colour character `i`, most significant bit first. */
  function FiveCells(colors: seq<Color>, i: int): (v: int)
    ensures 0 <= v < 32
  {
    16 * BlackBit(colors, 5 * i) + 8 * BlackBit(colors, 5 * i + 1) + 4 * BlackBit(colors, 5 * i + 2)
      + 2 * BlackBit(colors, 5 * i + 3) + BlackBit(colors, 5 * i + 4)
  }

  /** The colour section: one character per five cells, padded with White. */
  function EncodeColors(colors: seq<Color>): (r: string)
    ensures |r| == ColorChars(|colors|)
    ensures forall i :: 0 <= i < |r| ==> r[i] == HexChar(FiveCells(colors, i))
  {
    seq(ColorChars(|colors|), i => HexChar(FiveCells(colors, i)))
  }

  /** A run of `k` empty cells: `z` for twenty at a time, then `f` plus the rest. */
  function SkipChars(k: nat): (r: string)
    ensures forall c :: c in r ==> 'g' <= c <= 'z'
    decreases k
  {
    if k == 0 then [] else if k <= 20 then [('f' as int + k) as char] else ['z'] + SkipChars(k - 20)
  }

  /** A clue value: one hex digit below 16, otherwise `-` and two hex digits. */
  function ValueChars(v: int): (r: string)
    requires 0 <= v < 256
    ensures forall c :: c in r ==> c != '/'
  {
    if v < 16 then [HexChar(v)] else ['-', HexChar(v / 16), HexChar(v % 16)]
  }

  /**
   * The clue section for the cells `clues`, after `skip` empty cells not
   * yet written: each clue is preceded by the run of empty cells before
   * it; trailing empty cells are left out.
   */
  function EncodeClues(clues: seq<int>, noClue: int, skip: nat): (r: string)
    requires forall k :: 0 <= k < |clues| ==> clues[k] == noClue || 0 <= clues[k] < 256
    ensures forall c :: c in r ==> c != '/'
    decreases |clues|
  {
    if clues == [] then []
    else if clues[0] == noClue then EncodeClues(clues[1..], noClue, skip + 1)
    else SkipChars(skip) + ValueChars(clues[0]) + EncodeClues(clues[1..], noClue, 0)
  }

  /** A whole puzzle as a URL: the given prefix, the width, the height and the body. */
  function EncodeUrl(prefix: string, h: nat, w: nat, colors: seq<Color>, clues: seq<int>, noClue: int): string
    requires forall k :: 0 <= k < |clues| ==> clues[k] == noClue || 0 <= clues[k] < 256
  {
    prefix + "/" + ShowInt(w) + "/" + ShowInt(h) + "/" + EncodeColors(colors) + EncodeClues(clues, noClue, 0)
  }

  /** A run of empty cells decodes to moving the position past them. */
  lemma {:induction false} SkipScan(k: nat, t: string, pos: int, w: int, c: seq<int>)
    ensures ClueScan(SkipChars(k) + t, pos, w, c) == ClueScan(t, pos + k, w, c)
    decreases k
  {
    if k > 0 {
      var s := SkipChars(k) + t;
      if k <= 20 {
        assert s[0] == ('f' as int + k) as char && s[1..] == t;
        assert s[0] as int - 'f' as int == k;
      } else {
        assert s[0] == 'z' && s[1..] == SkipChars(k - 20) + t;
        SkipScan(k - 20, t, pos + 20, w, c);
      }
      assert ClueScan(s, pos, w, c) == ClueScan(s[1..], pos + (s[0] as int - 'f' as int), w, c);
    } else {
      assert SkipChars(k) + t == t;
    }
  }

  /** A value decodes to writing it at the position and moving one cell on. */
  lemma ValueScan(v: int, t: string, pos: int, w: int, c: seq<int>)
    requires 0 <= v < 256 && w != 0 && 0 <= pos < |c|
    ensures ClueScan(ValueChars(v) + t, pos, w, c) == ClueScan(t, pos + 1, w, c[pos := v])
  {
    var s := ValueChars(v) + t;
    if v < 16 {
      assert s[0] == HexChar(v) && s[1..] == t;
    } else {
      assert s[0] == '-' && s[1] == HexChar(v / 16) && s[2] == HexChar(v % 16) && s[3..] == t;
    }
  }

  /**
   * The clue section from cell `i` on, with the `skip` cells before `i`
   * empty: once the cells before `i - skip` are decoded, the rest decode
   * as well.
   */
  lemma {:induction false} CluesRoundTrip(clues: seq<int>, noClue: int, i: nat, skip: nat, w: int, c: seq<int>)
    requires forall k :: 0 <= k < |clues| ==> clues[k] == noClue || 0 <= clues[k] < 256
    requires w != 0 && skip <= i <= |clues| == |c|
    requires forall k :: 0 <= k < i - skip ==> c[k] == clues[k]
    requires forall k :: i - skip <= k < |c| ==> c[k] == noClue
    requires forall k :: i - skip <= k < i ==> clues[k] == noClue
    ensures ClueScan(EncodeClues(clues[i..], noClue, skip), i - skip, w, c) == Some(clues)
    decreases |clues| - i
  {
    var rest := clues[i..];
    if i == |clues| {
      assert rest == [];
      assert c == clues;
    } else if rest[0] == noClue {
      assert rest[1..] == clues[i + 1..];
      CluesRoundTrip(clues, noClue, i + 1, skip + 1, w, c);
    } else {
      assert rest[1..] == clues[i + 1..];
      var tail := EncodeClues(clues[i + 1..], noClue, 0);
      assert EncodeClues(rest, noClue, skip) == SkipChars(skip) + (ValueChars(clues[i]) + tail);
      SkipScan(skip, ValueChars(clues[i]) + tail, i - skip, w, c);
      ValueScan(clues[i], tail, i, w, c);
      CluesRoundTrip(clues, noClue, i + 1, 0, w, c[i := clues[i]]);
    }
  }

  /** Bit `k` of a value with `bj` at that place, higher bits `high` and lower bits `low`. */
  lemma BitAt(v: int, k: nat, high: int, bj: int, low: int)
    requires 0 <= bj <= 1 && 0 <= low < Pow2(k) && v == (2 * high + bj) * Pow2(k) + low
    ensures Bit(v, k) <==> bj == 1
  {
    DivModUnique(v, Pow2(k), 2 * high + bj, low);
    DivModUnique(2 * high + bj, 2, high, bj);
  }

  /** Bit `4 - j` of five cells is cell `j`. */
  lemma FiveCellsBit(colors: seq<Color>, i: int, j: int)
    requires 0 <= j < 5
    ensures Bit(FiveCells(colors, i), 4 - j) <==> BlackBit(colors, 5 * i + j) == 1
  {
    var b0, b1, b2, b3, b4 := BlackBit(colors, 5 * i), BlackBit(colors, 5 * i + 1), BlackBit(colors, 5 * i + 2),
      BlackBit(colors, 5 * i + 3), BlackBit(colors, 5 * i + 4);
    var v := FiveCells(colors, i);
    assert Pow2(0) == 1 && Pow2(1) == 2 && Pow2(2) == 4 && Pow2(3) == 8 && Pow2(4) == 16;
    if j == 0 {
      BitAt(v, 4, 0, b0, 8 * b1 + 4 * b2 + 2 * b3 + b4);
    } else if j == 1 {
      BitAt(v, 3, b0, b1, 4 * b2 + 2 * b3 + b4);
    } else if j == 2 {
      BitAt(v, 2, 2 * b0 + b1, b2, 2 * b3 + b4);
    } else if j == 3 {
      BitAt(v, 1, 4 * b0 + 2 * b1 + b2, b3, b4);
    } else {
      BitAt(v, 0, 8 * b0 + 4 * b1 + 2 * b2 + b3, b4, 0);
    }
  }

  /** With a positive width, exactly the cells of the grid are written. */
  lemma WrittenInGrid(h: nat, w: nat, p: int)
    requires w >= 1 && 0 <= p
    ensures Written(h, w, p) <==> p < h * w
  {
    assert p == (p / w) * w + p % w;
    if p / w < h {
      MulMonotone(p / w + 1, h, w);
    } else {
      MulMonotone(h, p / w, w);
    }
  }

  /** The colour the encoded body gives each cell is its own. */
  lemma EncodedColor(colors: seq<Color>, t: string, q: nat)
    requires q < |colors|
    ensures BitColor(EncodeColors(colors) + t, q) == colors[q]
  {
    var body := EncodeColors(colors) + t;
    FiveCellsBit(colors, q / 5, q % 5);
    assert 5 * (q / 5) + q % 5 == q;
    assert q / 5 < ColorChars(|colors|);
    assert body[q / 5] == HexChar(FiveCells(colors, q / 5));
  }

  /** The colour section decodes to the colours. */
  lemma ColorsRoundTrip(h: nat, w: nat, colors: seq<Color>, t: string)
    requires w >= 1 && |colors| == h * w
    ensures ColorSection(h, w, EncodeColors(colors) + t) == Some(colors)
  {
    var body := EncodeColors(colors) + t;
    var n := h * w;
    forall p | 0 <= p && Written(h, w, p)
      ensures p < n
    {
      WrittenInGrid(h, w, p);
    }
    var r := seq(n, q => if Written(h, w, q) then BitColor(body, q) else White);
    forall q | 0 <= q < n
      ensures r[q] == colors[q]
    {
      WrittenInGrid(h, w, q);
      EncodedColor(colors, t, q);
    }
    assert r == colors;
  }

  lemma {:induction false} SplitAppend(x: string, y: string, sep: char)
    ensures Split(x + [sep] + y, sep) == Split(x, sep) + Split(y, sep)
    decreases |x|
  {
    if x == [] {
      assert x + [sep] + y == [sep] + y;
      assert ([sep] + y)[1..] == y;
    } else {
      assert (x + [sep] + y)[1..] == x[1..] + [sep] + y;
      SplitAppend(x[1..], y, sep);
    }
  }

  lemma NoSep(a: string, sep: char)
    requires sep !in a
    ensures Split(a, sep) == [a]
  {
    SplitPrefix(a, [], sep);
    assert a + [] == a;
  }

  lemma {:induction false} DigitsAt(d: string)
    requires AllDigits(d)
    ensures forall k :: 0 <= k < |d| ==> IsDigit(d[k])
    decreases |d|
  {
    if d != [] {
      DigitsAt(d[..|d| - 1]);
    }
  }

  lemma ShowIntNoSlash(n: int)
    ensures '/' !in ShowInt(n)
  {
    var d := ShowNat(if n < 0 then -n else n);
    DigitsAt(d);
    if n < 0 {
      assert ShowInt(n) == ['-'] + d;
    }
  }

  /** The URL's segments: the prefix's, then the width, the height and the body. */
  lemma UrlTokens(prefix: string, ws: string, hs: string, body: string)
    requires '/' !in ws && '/' !in hs && '/' !in body
    ensures Split(prefix + "/" + ws + "/" + hs + "/" + body, '/') == Split(prefix, '/') + [ws, hs, body]
  {
    assert prefix + "/" + ws + "/" + hs + "/" + body == prefix + ['/'] + (ws + ['/'] + (hs + ['/'] + body));
    NoSep(body, '/');
    NoSep(ws, '/');
    NoSep(hs, '/');
    SplitAppend(hs, body, '/');
    SplitAppend(ws, hs + ['/'] + body, '/');
    SplitAppend(prefix, ws + ['/'] + (hs + ['/'] + body), '/');
  }

  /**
   * Every puzzle of positive width decodes back into itself: the URL's
   * last three segments are read as the width, the height and the body,
   * the colours come back cell for cell, and so do the clues, with every
   * empty cell `NO_CLUE`. Clues are bytes and `NO_CLUE` is not one.
   */
  lemma ParseUrlRoundTrip(prefix: string, h: nat, w: nat, colors: seq<Color>, clues: seq<int>, noClue: int)
    requires 1 <= w <= I32Max && h <= I32Max
    requires |colors| == h * w && |clues| == h * w
    requires forall k :: 0 <= k < |clues| ==> clues[k] == noClue || 0 <= clues[k] < 256
    requires !(0 <= noClue < 256)
    ensures ParseUrlSpec(EncodeUrl(prefix, h, w, colors, clues, noClue), noClue) == Decoded(Grid(h, w, colors), Grid(h, w, clues))
  {
    var ws, hs := ShowInt(w), ShowInt(h);
    var ks := EncodeClues(clues, noClue, 0);
    var cs := EncodeColors(colors);
    var body := cs + ks;
    var url := EncodeUrl(prefix, h, w, colors, clues, noClue);
    assert url == prefix + "/" + ws + "/" + hs + "/" + body;
    ShowIntNoSlash(w);
    ShowIntNoSlash(h);
    ParseShowI32(w);
    ParseShowI32(h);
    assert '/' !in body by {
      assert forall k :: 0 <= k < |body| ==> body[k] != '/' by {
        forall k | 0 <= k < |body|
          ensures body[k] != '/'
        {
          if k < |cs| {
            assert body[k] == cs[k];
          } else {
            assert body[k] == ks[k - |cs|];
            assert ks[k - |cs|] in ks;
          }
        }
      }
    }
    UrlTokens(prefix, ws, hs, body);
    var tokens := Split(url, '/');
    assert |tokens| >= 3 && tokens[|tokens| - 3] == ws && tokens[|tokens| - 2] == hs && tokens[|tokens| - 1] == body;
    ColorsRoundTrip(h, w, colors, ks);
    assert body[ColorChars(h * w)..] == ks;
    CluesRoundTrip(clues, noClue, 0, 0, w, seq(h * w, _ => noClue));
    assert clues[0..] == clues;
  }
}
