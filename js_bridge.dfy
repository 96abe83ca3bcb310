/**
 * The byte-buffer contract between `numberlink_generate` (src/js/mod.rs)
 * and `generateNumberlink` (wasm-bridge/bridge.js): Rust writes the clue
 * of cell (y, x) at offset `y * width + x` of a 65536-byte static array
 * and returns offset 0; JavaScript views `height * width` bytes from that
 * address and reads them back into `board[y][x]`.
 *
 * The generator, the uniqueness pretest, the problem extraction and the
 * solver are not part of this model: each attempt of the retry loop is a
 * parameter (`Attempt`) that says what they produced.
 */
module JsBridge {
  import opened Wrappers
  import opened Common

  /** The length of `SHARED_ARRAY`, `1 << 16`. */
  const SharedSize: int := 0x1_0000

  /** The fixed numberlink generator options of `numberlink_generate`. */
  datatype NumberlinkOption = NumberlinkOption(
    chainThreshold: int,
    endpointConstraintGiven: bool,
    forbidAdjacentClue: bool,
    symmetryGiven: bool,
    clueLimit: Option<int>,
    prioritizedExtension: bool)

  const JsOption: NumberlinkOption := NumberlinkOption(8, false, true, false, None, false)

  /** `val.0 as u8`: the low eight bits of the clue number. */
  function ToByte(v: int): (b: int)
    ensures 0 <= b < 256
    ensures 0 <= v < 256 ==> b == v
    ensures (v - b) % 256 == 0
  {
    v % 256
  }

  /** The bytes of a problem, row-major: slot `y * width + x` holds the byte of cell (y, x). */
  function ProblemBytes(problem: Grid<int>): (r: seq<int>)
    requires problem.Valid()
    ensures |r| == problem.height * problem.width
    ensures forall i :: 0 <= i < |r| ==> r[i] == ToByte(problem.data[i])
  {
    seq(|problem.data|, i requires 0 <= i < |problem.data| => ToByte(problem.data[i]))
  }

  /** The array once the first `limit` slots have been written with `bytes`, the others as before. */
  function Filled(before: seq<int>, bytes: seq<int>, limit: int): (r: seq<int>)
    requires 0 <= limit <= |bytes| && limit <= |before|
    ensures |r| == |before|
    ensures r[..limit] == bytes[..limit] && r[limit..] == before[limit..]
  {
    seq(|before|, i requires 0 <= i < |before| => if i < limit then bytes[i] else before[i])
  }

  lemma FilledStep(before: seq<int>, bytes: seq<int>, limit: int)
    requires 0 <= limit < |bytes| && limit < |before|
    ensures Filled(before, bytes, limit + 1) == Filled(before, bytes, limit)[limit := bytes[limit]]
  {
    var a, b := Filled(before, bytes, limit + 1), Filled(before, bytes, limit)[limit := bytes[limit]];
    assert forall i :: 0 <= i < |a| ==> a[i] == b[i];
  }

  /**
   * The nested loop of `numberlink_generate` that copies the problem into
   * `SHARED_ARRAY`, row by row. It panics (`ok` false) when a slot falls
   * past the array's end, which happens exactly when the grid has more
   * than 65536 cells; otherwise the first `height * width` bytes are the
   * problem's and the rest of the array is untouched.
   */
  method WriteProblem(shared: array<int>, problem: Grid<int>) returns (ok: bool)
    requires shared.Length == SharedSize && problem.Valid()
    modifies shared
    ensures ok <==> problem.height * problem.width <= SharedSize
    ensures ok ==> shared[..] == Filled(old(shared[..]), ProblemBytes(problem), problem.height * problem.width)
  {
    ghost var before := shared[..];
    ghost var bytes := ProblemBytes(problem);
    assert shared[..] == Filled(before, bytes, 0);
    var base := 0;
    for y := 0 to problem.height
      invariant base == y * problem.width && base <= SharedSize
      invariant shared[..] == Filled(before, bytes, base)
    {
      ok := WriteRow(shared, problem, y, base, before);
      if !ok {
        return;
      }
      base := base + problem.width;
    }
    return true;
  }

  /** The inner loop of `WriteProblem`: row `y`, from slot `base = y * width` on. */
  method WriteRow(shared: array<int>, problem: Grid<int>, y: int, base: int, ghost before: seq<int>) returns (ok: bool)
    requires shared.Length == SharedSize == |before| && problem.Valid()
    requires 0 <= y < problem.height && base == y * problem.width && base <= SharedSize
    requires shared[..] == Filled(before, ProblemBytes(problem), base)
    modifies shared
    ensures ok <==> base + problem.width <= SharedSize
    ensures !ok ==> problem.height * problem.width > SharedSize
    ensures ok ==> (y + 1) * problem.width == base + problem.width && base + problem.width <= SharedSize
    ensures ok ==> shared[..] == Filled(before, ProblemBytes(problem), base + problem.width)
  {
    var width := problem.width;
    MulStep(y, width);
    MulMonotone(y + 1, problem.height, width);
    ghost var bytes := ProblemBytes(problem);
    for x := 0 to width
      invariant base + x <= SharedSize
      invariant shared[..] == Filled(before, bytes, base + x)
    {
      var slot := base + x;
      if slot >= SharedSize {
        return false;
      }
      problem.IndexInRange(Coord(y, x));
      assert problem.Index(Coord(y, x)) == slot;
      var v := ToByte(problem.Get(Coord(y, x)));
      assert v == bytes[slot];
      FilledStep(before, bytes, slot);
      shared[slot] := v;
    }
    return true;
  }

  /** What one round of the retry loop produced. */
  datatype Attempt = Attempt(
    generated: bool,
    pretestPassed: bool,
    problem: Grid<int>,
    answers: int,
    foundNotFullyFilled: bool)

  /** A round is accepted when a placement was generated, passed the pretest, and the solver found exactly one answer, fully filled. */
  predicate Accepted(a: Attempt) {
    a.generated && a.pretestPassed && a.answers == 1 && !a.foundNotFullyFilled
  }

  /** The retry loop over the rounds given: the first accepted round, or `None` when there is none (the loop goes on). */
  method FirstAccepted(attempts: seq<Attempt>) returns (r: Option<nat>)
    ensures r.Some? ==> r.value < |attempts| && Accepted(attempts[r.value])
    ensures r.Some? ==> forall j :: 0 <= j < r.value ==> !Accepted(attempts[j])
    ensures r.None? <==> forall j :: 0 <= j < |attempts| ==> !Accepted(attempts[j])
  {
    var i := 0;
    while i < |attempts|
      invariant 0 <= i <= |attempts|
      invariant forall j :: 0 <= j < i ==> !Accepted(attempts[j])
    {
      var a := attempts[i];
      if a.generated {
        if a.pretestPassed {
          if a.answers == 1 && !a.foundNotFullyFilled {
            return Some(i);
          }
        }
      }
      i := i + 1;
    }
    return None;
  }

  /** How `numberlink_generate` ends: the pointer to offset 0, a panic, or no accepted round among those given. */
  datatype Generated = Pointer(offset: int) | Panics | Retrying

  /**
   * `numberlink_generate` over the given rounds: the first accepted
   * round's problem is written into the array and offset 0 returned.
   */
  method NumberlinkGenerate(shared: array<int>, height: int, width: int, attempts: seq<Attempt>) returns (r: Generated)
    requires shared.Length == SharedSize
    requires forall j :: 0 <= j < |attempts| ==> attempts[j].problem.Valid()
    requires forall j :: 0 <= j < |attempts| ==> attempts[j].problem.height == height && attempts[j].problem.width == width
    modifies shared
    ensures r.Retrying? <==> forall j :: 0 <= j < |attempts| ==> !Accepted(attempts[j])
    ensures r.Panics? ==> height * width > SharedSize
    ensures r.Pointer? ==> r.offset == 0 && height * width <= SharedSize
    ensures r.Pointer? ==>
      exists j :: 0 <= j < |attempts| && Accepted(attempts[j]) && (forall k :: 0 <= k < j ==> !Accepted(attempts[k]))
        && shared[..] == Filled(old(shared[..]), ProblemBytes(attempts[j].problem), height * width)
  {
    var chosen := FirstAccepted(attempts);
    if chosen.None? {
      return Retrying;
    }
    var ok := WriteProblem(shared, attempts[chosen.value].problem);
    if !ok {
      return Panics;
    }
    return Pointer(0);
  }

  /** What `generateNumberlink` returns. */
  datatype Board = Board(height: int, width: int, board: seq<seq<int>>)

  /** `generateNumberlink` returns its board, or throws the `RangeError` of a `Uint8Array` view that does not fit the memory. */
  datatype JsOutcome = Returns(result: Board) | Throws

  /** The rows of `bytes`: `height` rows of `width` entries, entry (y, x) at `y * width + x`. */
  function Reshape(bytes: seq<int>, height: nat, width: nat): (board: seq<seq<int>>)
    requires |bytes| == height * width
    ensures |board| == height
    ensures forall y :: 0 <= y < height ==> |board[y]| == width
  {
    seq(height, y requires 0 <= y < height =>
      seq(width, x requires 0 <= x < width => (Offset(height, width, y, x); bytes[y * width + x])))
  }

  /** The rows laid end to end. */
  function Flatten(rows: seq<seq<int>>): seq<int>
    decreases |rows|
  {
    if rows == [] then [] else rows[0] + Flatten(rows[1..])
  }

  /** The view `bytes` of `generateNumberlink`, made of `height * width` bytes from `address`, or `None` for a `RangeError`. */
  function View(memory: seq<int>, address: nat, count: int): (r: Option<seq<int>>)
    ensures r.Some? <==> 0 <= count && address + count <= |memory|
    ensures r.Some? ==> |r.value| == count
  {
    if 0 <= count && address + count <= |memory| then Some(memory[address..address + count]) else None
  }

  /**
   * `generateNumberlink` over the wasm memory, given the address
   * `numberlink_generate` returned: a board of `height` rows of `width`
   * bytes each, read row-major from the view, and the arguments given back.
   */
  method GenerateNumberlink(memory: seq<int>, address: nat, height: int, width: int) returns (r: JsOutcome)
    ensures r.Throws? <==> View(memory, address, height * width).None?
    ensures r.Returns? ==> r.result.height == height && r.result.width == width
    ensures r.Returns? && height >= 0 && width >= 0 ==>
      r.result.board == Reshape(View(memory, address, height * width).value, height, width)
  {
    var problemData := View(memory, address, height * width);
    if problemData.None? {
      return Throws;
    }
    var data := problemData.value;
    var ret: seq<seq<int>> := [];
    var y := 0;
    while y < height
      invariant 0 <= y && (y == 0 || y <= height)
      invariant |ret| == y
      invariant forall k :: 0 <= k < y ==> ret[k] == RowOf(data, height, width, k)
    {
      var row: seq<int> := [];
      var x := 0;
      while x < width
        invariant 0 <= x && x <= width
        invariant row == RowOf(data, height, width, y)[..x]
      {
        RowEntry(data, height, width, y, x);
        row := row + [data[y * width + x]];
        x := x + 1;
      }
      ret := ret + [row];
      y := y + 1;
    }
    if height >= 0 && width >= 0 {
      assert ret == Reshape(data, height, width);
    }
    return Returns(Board(height, width, ret));
  }

  /** Row `y` of the view: the `width` bytes from `y * width`. */
  function RowOf(data: seq<int>, height: int, width: int, y: int): seq<int>
    requires |data| == height * width && 0 <= y < height
  {
    seq(if width < 0 then 0 else width, x requires 0 <= x < width =>
      (Offset(height, width, y, x); data[y * width + x]))
  }

  lemma RowEntry(data: seq<int>, height: int, width: int, y: int, x: int)
    requires |data| == height * width && 0 <= y < height && 0 <= x < width
    ensures 0 <= y * width + x < |data| && RowOf(data, height, width, y)[x] == data[y * width + x]
  {
    Offset(height, width, y, x);
  }

  lemma {:induction false} FlattenLength(rows: seq<seq<int>>, width: nat)
    requires forall y :: 0 <= y < |rows| ==> |rows[y]| == width
    ensures |Flatten(rows)| == |rows| * width
    decreases |rows|
  {
    if rows != [] {
      FlattenLength(rows[1..], width);
      MulStep(|rows| - 1, width);
    }
  }

  /** Entry (y, x) of a board of rows of `width` sits at `y * width + x` of the flattened board. */
  lemma {:induction false} FlattenEntry(rows: seq<seq<int>>, width: nat, y: int, x: int)
    requires forall k :: 0 <= k < |rows| ==> |rows[k]| == width
    requires 0 <= y < |rows| && 0 <= x < width
    ensures y * width + x < |Flatten(rows)| && Flatten(rows)[y * width + x] == rows[y][x]
    decreases y
  {
    var tail := rows[1..];
    FlattenLength(rows, width);
    FlattenLength(tail, width);
    if y > 0 {
      FlattenEntry(tail, width, y - 1, x);
      MulStep(y - 1, width);
      assert rows[y] == tail[y - 1];
    }
  }

  lemma DivSplit(i: int, width: int)
    requires 0 <= i && width > 0
    ensures i == (i / width) * width + i % width && 0 <= i % width < width && 0 <= i / width
  {
  }

  /** Flattening the board gives back the bytes, for every byte string of `height * width` entries. */
  lemma FlattenReshape(bytes: seq<int>, height: nat, width: nat)
    requires |bytes| == height * width
    ensures Flatten(Reshape(bytes, height, width)) == bytes
  {
    var board := Reshape(bytes, height, width);
    FlattenLength(board, width);
    var f := Flatten(board);
    forall i | 0 <= i < |bytes|
      ensures f[i] == bytes[i]
    {
      if width > 0 {
        var y, x := i / width, i % width;
        DivSplit(i, width);
        assert y < height by {
          if y >= height {
            MulMonotone(height, y, width);
          }
        }
        FlattenEntry(board, width, y, x);
      }
    }
  }

  /** Reshaping a flattened rectangular board gives back the board. */
  lemma ReshapeFlatten(rows: seq<seq<int>>, width: nat)
    requires forall y :: 0 <= y < |rows| ==> |rows[y]| == width
    ensures |Flatten(rows)| == |rows| * width
    ensures Reshape(Flatten(rows), |rows|, width) == rows
  {
    FlattenLength(rows, width);
    var board := Reshape(Flatten(rows), |rows|, width);
    forall y | 0 <= y < |rows|
      ensures board[y] == rows[y]
    {
      forall x | 0 <= x < width
        ensures board[y][x] == rows[y][x]
      {
        FlattenEntry(rows, width, y, x);
      }
    }
  }

  /**
   * The two sides together: once `numberlink_generate` has written a
   * problem and the memory holds `SHARED_ARRAY` at the returned address,
   * `generateNumberlink` returns a board of the problem's size whose entry
   * (y, x) is the byte of cell (y, x), and which flattens to exactly the
   * `height * width` bytes written.
   */
  lemma BridgeRoundTrip(memory: seq<int>, address: nat, shared: seq<int>, before: seq<int>, problem: Grid<int>)
    requires problem.Valid() && |before| == SharedSize && problem.height * problem.width <= SharedSize
    requires shared == Filled(before, ProblemBytes(problem), problem.height * problem.width)
    requires address + SharedSize <= |memory| && memory[address..address + SharedSize] == shared
    ensures View(memory, address, problem.height * problem.width).Some?
    ensures var board := Reshape(View(memory, address, problem.height * problem.width).value, problem.height, problem.width);
      && Flatten(board) == ProblemBytes(problem)
      && forall y, x :: 0 <= y < problem.height && 0 <= x < problem.width ==> board[y][x] == ToByte(problem.Get(Coord(y, x)))
  {
    var h, w := problem.height, problem.width;
    var bytes := ProblemBytes(problem);
    var view := View(memory, address, h * w).value;
    assert view == shared[..h * w];
    assert view == bytes;
    FlattenReshape(view, h, w);
    forall y, x | 0 <= y < h && 0 <= x < w
      ensures Reshape(view, h, w)[y][x] == ToByte(problem.Get(Coord(y, x)))
    {
      problem.IndexInRange(Coord(y, x));
    }
  }
}
