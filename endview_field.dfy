/**
 * src/endview/field.rs: the Endview field and its propagation. `decide`
 * fixes a cell's value, `limit_cand` narrows its candidate letters, and
 * `inspect_cell` and `inspect_row` draw the consequences; the four call
 * each other until nothing changes. Each method keeps the field `Valid`,
 * only moves it forward (`Follows`), and never rules out a solved board
 * that the value it was given agrees with.
 */
module EndviewField {
  import opened Common
  import opened EndviewBase
  import opened EndviewState

  class Field {
    const size: int
    const nAlpha: int
    var cand: seq<seq<Cand>>
    var value: seq<seq<Value>>
    const clueFront: seq<Clue>
    const clueBack: seq<Clue>
    var inconsistent: bool
    var solved: bool

    function Snap(): Snapshot
      reads this
    {
      Snapshot(size, nAlpha, value, cand, inconsistent)
    }

    ghost predicate Valid()
      reads this
    {
      Shaped(Snap()) && |clueFront| == 2 * size && |clueBack| == 2 * size
    }

    /** `Field::empty_board`; `1u32 << n_alpha` needs `n_alpha` below 32. */
    constructor EmptyBoard(size: int, nAlpha: int)
      requires size >= 0 && 0 <= nAlpha < Width
      ensures Valid() && Snap() == EmptySnapshot(size, nAlpha) && !solved
      ensures clueFront == seq(2 * size, _ => NoClue) && clueBack == seq(2 * size, _ => NoClue)
    {
      this.size := size;
      this.nAlpha := nAlpha;
      cand := seq(size, _ => seq(size, _ => FirstLetters(nAlpha)));
      value := seq(size, _ => seq(size, _ => Undecided));
      clueFront := seq(2 * size, _ => NoClue);
      clueBack := seq(2 * size, _ => NoClue);
      inconsistent := false;
      solved := false;
    }

    /**
     * `decide`: give `cell` the value `val`. A clash sets `inconsistent`
     * and nothing else; a value already there changes nothing. Otherwise
     * the cell takes `val`: `EMPTY` clears its candidates, a letter
     * narrows them to itself and removes it from the rest of the row
     * and column, and `SOME` inspects the cell.
     */
    method Decide(cell: Coord, val: Value, ghost S: seq<seq<Value>>)
      requires Valid() && InBoard(size, cell) && ValueOk(val)
      modifies this
      decreases Measure(Snap()), 1
      ensures Valid() && Follows(old(Snap()), Snap()) && solved == old(solved)
      ensures Sound(S, old(Snap())) && Agrees(At(S, cell), val) ==> Sound(S, Snap())
      ensures DecideStep(old(V(Snap(), cell)), val) == Conflict ==> Snap() == old(Snap()).(inconsistent := true)
      ensures DecideStep(old(V(Snap(), cell)), val) == Keep ==> Snap() == old(Snap())
      ensures DecideStep(old(V(Snap(), cell)), val) == Proceed ==> Assigned(Snap(), cell, val)
    {
      var current := value[cell.y][cell.x];
      var step := DecideStep(current, val);
      if step == Conflict {
        if Sound(S, Snap()) && Agrees(At(S, cell), val) {
          ConflictRulesOut(S, Snap(), cell, val);
        }
        inconsistent := true;
        return;
      }
      if step == Keep {
        return;
      }
      Assign(cell, val, S);
    }

    /**
     * What `decide` leaves once the cell took `val`: the value, possibly
     * refined from `SOME` to a letter; no candidates for `EMPTY`; for a
     * letter, that letter alone, and gone from the rest of its row and
     * column.
     */
    ghost predicate Assigned(t: Snapshot, cell: Coord, val: Value)
      requires Shaped(t) && InBoard(t.size, cell)
    {
      ValueFollows(val, V(t, cell))
      && (val == Empty ==> Within(Cd(t, cell), NoCand()))
      && (IsLetterValue(val) ==> LetterStruck(t, cell, val.v))
    }

    /** The part of `decide` past its guard: set the value, then propagate it. */
    method Assign(cell: Coord, val: Value, ghost S: seq<seq<Value>>)
      requires Valid() && InBoard(size, cell) && ValueOk(val) && DecideStep(V(Snap(), cell), val) == Proceed
      modifies this
      decreases Measure(Snap()), 0
      ensures Valid() && Follows(old(Snap()), Snap()) && solved == old(solved)
      ensures Sound(S, old(Snap())) && Agrees(At(S, cell), val) ==> Sound(S, Snap())
      ensures Assigned(Snap(), cell, val)
    {
      ghost var s0 := Snap();
      value := value[cell.y := value[cell.y][cell.x := val]];
      assert Snap() == WithValue(s0, cell, val);
      if Sound(S, s0) && Agrees(At(S, cell), val) {
        AllowsWithValue(S, s0, cell, val);
      }
      if val == Undecided {
        return;
      }
      ProceedDrops(s0, cell, val);
      ghost var s1 := Snap();
      if val == Empty {
        LimitCand(cell, NoCand(), S);
      } else if val == Some {
        InspectCell(cell, S);
      } else {
        AssignLetter(cell, val, S, s0);
      }
      FollowsCell(s1, Snap(), cell);
      FollowsTrans(s0, s1, Snap());
    }

    /**
     * The letter branch of `decide`: narrow the cell to its letter, then
     * take the letter out of the rest of its column and of its row.
     */
    method AssignLetter(cell: Coord, val: Value, ghost S: seq<seq<Value>>, ghost s0: Snapshot)
      requires Valid() && InBoard(size, cell) && IsLetterValue(val) && V(Snap(), cell) == val
      requires Shaped(s0) && s0.size == size && Measure(Snap()) < Measure(s0)
      requires Sound(S, s0) && Agrees(At(S, cell), val) ==> Sound(S, Snap())
      modifies this
      decreases Measure(Snap()), 5
      ensures Valid() && Follows(old(Snap()), Snap()) && solved == old(solved)
      ensures Sound(S, s0) && Agrees(At(S, cell), val) ==> Sound(S, Snap())
      ensures LetterStruck(Snap(), cell, val.v)
    {
      ghost var s1 := Snap();
      if Sound(S, s0) && Agrees(At(S, cell), val) {
        KeepsOwn(At(S, cell), val);
      }
      LimitCand(cell, Singleton(val.v), S);
      ghost var s2 := Snap();
      StrikeLine(cell, val, cell.x + size, S, s0, s1);
      ghost var s3 := Snap();
      FollowsTrans(s1, s2, s3);
      StrikeLine(cell, val, cell.y, S, s0, s1);
      LetterChain(s1, s2, s3, Snap(), cell, val.v);
    }

    /**
     * One of the two loops of `decide`: take the new letter of `cell`
     * out of every other cell of line `g`, its column or its row.
     */
    method StrikeLine(cell: Coord, val: Value, g: int, ghost S: seq<seq<Value>>, ghost s0: Snapshot, ghost s1: Snapshot)
      requires Valid() && InBoard(size, cell) && IsLetterValue(val) && LineOf(size, cell, g)
      requires Follows(s1, Snap()) && Shaped(s0) && s0.size == size && Measure(s1) < Measure(s0)
      requires Sound(S, s0) && Agrees(At(S, cell), val) ==> Sound(S, Snap())
      modifies this
      decreases Measure(s1), 1
      ensures Valid() && Follows(old(Snap()), Snap()) && solved == old(solved)
      ensures Sound(S, s0) && Agrees(At(S, cell), val) ==> Sound(S, Snap())
      ensures LineGone(Snap(), cell, val.v, g, size)
    {
      ghost var s2 := Snap();
      var limit := Complement(Singleton(val.v));
      for i := 0 to size
        invariant Valid() && Follows(s2, Snap()) && solved == old(solved)
        invariant Sound(S, s0) && Agrees(At(S, cell), val) ==> Sound(S, Snap())
        invariant LineGone(Snap(), cell, val.v, g, i)
      {
        var d := Group(size, g, i);
        if d != cell {
          ghost var sb := Snap();
          FollowsTrans(s1, s2, sb);
          FollowsMeasure(s1, sb);
          if Sound(S, s0) && Agrees(At(S, cell), val) {
            KeepsOthers(S, sb, cell, d, val);
          }
          LimitCand(d, limit, S);
          GoneFollows(sb, Snap(), cell, val.v, g, i);
          FollowsTrans(s2, sb, Snap());
        }
        GoneStep(Snap(), cell, val.v, g, i);
      }
    }

    /**
     * `limit_cand`: narrow the candidates of `cell` to those in `lim`.
     * When that changes them and leaves none, the cell is decided empty;
     * either way it is then inspected.
     */
    method LimitCand(cell: Coord, lim: Cand, ghost S: seq<seq<Value>>)
      requires Valid() && InBoard(size, cell) && WellFormed(lim)
      modifies this
      decreases Measure(Snap()), 0
      ensures Valid() && Follows(old(Snap()), Snap()) && solved == old(solved)
      ensures Sound(S, old(Snap())) && Keeps(At(S, cell), lim) ==> Sound(S, Snap())
      ensures Within(Cd(Snap(), cell), lim)
      ensures Inter(old(Cd(Snap(), cell)), lim) == old(Cd(Snap(), cell)) ==> Snap() == old(Snap())
    {
      var current := Cd(Snap(), cell);
      var next := Inter(current, lim);
      NarrowedWithin(next, current, lim);
      if next == current {
        return;
      }
      ghost var s0 := Snap();
      cand := cand[cell.y := cand[cell.y][cell.x := next]];
      assert Snap() == WithCand(s0, cell, next);
      SetCandDrops(s0, cell, next);
      if Sound(S, s0) && Keeps(At(S, cell), lim) {
        AllowsWithCand(S, s0, cell, lim);
      }
      ghost var s1 := Snap();
      if next == NoCand() {
        Decide(cell, Empty, S);
      }
      ghost var s2 := Snap();
      FollowsMeasure(s1, s2);
      InspectCell(cell, S);
      FollowsTrans(s1, s2, Snap());
      FollowsTrans(s0, s1, Snap());
      FollowsCell(s1, Snap(), cell);
      NarrowedWithin(next, current, lim);
      WithinTrans(Cd(Snap(), cell), next, lim);
    }

    /**
     * `inspect_cell`: a `SOME` cell with one letter left takes that
     * letter; then the cell's row and column are inspected.
     */
    method InspectCell(cell: Coord, ghost S: seq<seq<Value>>)
      requires Valid() && InBoard(size, cell)
      modifies this
      decreases Measure(Snap()), 4
      ensures Valid() && Follows(old(Snap()), Snap()) && solved == old(solved)
      ensures Sound(S, old(Snap())) ==> Sound(S, Snap())
      ensures old(V(Snap(), cell)) == Some && old(CountSetCands(Cd(Snap(), cell))) == 1 ==>
                IsLetterValue(V(Snap(), cell))
    {
      ghost var s0 := Snap();
      DecideLastLetter(cell, S);
      ghost var s1 := Snap();
      FollowsMeasure(s0, s1);
      InspectRow(cell.y, S);
      ghost var s2 := Snap();
      FollowsTrans(s0, s1, s2);
      FollowsMeasure(s0, s2);
      InspectRow(cell.x + size, S);
      FollowsTrans(s0, s2, Snap());
      FollowsTrans(s1, s2, Snap());
      FollowsCell(s1, Snap(), cell);
    }

    /** The first step of `inspect_cell`: a `SOME` cell with one letter left takes that letter. */
    method DecideLastLetter(cell: Coord, ghost S: seq<seq<Value>>)
      requires Valid() && InBoard(size, cell)
      modifies this
      decreases Measure(Snap()), 3
      ensures Valid() && Follows(old(Snap()), Snap()) && solved == old(solved)
      ensures Sound(S, old(Snap())) ==> Sound(S, Snap())
      ensures old(V(Snap(), cell)) == Some && old(CountSetCands(Cd(Snap(), cell))) == 1 ==>
                IsLetterValue(V(Snap(), cell))
    {
      ghost var s0 := Snap();
      FollowsRefl(s0);
      var k := Cd(Snap(), cell);
      if value[cell.y][cell.x] == Some && CountSetCands(k) == 1 {
        var letter := SmallestSetCand(k);
        SmallestSetCandSpec(k);
        CountSetCandsBounds(k);
        if Sound(S, s0) {
          assert CellFits(S, s0, cell);
          OnlyLetter(k, At(S, cell).v);
        }
        Decide(cell, Value(letter), S);
      }
    }

    /** The counting loop of `inspect_row`: cells of line `g` with `SOME` or a letter, and empty cells. */
    method CountLine(g: int) returns (nSome: int, nEmpty: int)
      requires Valid() && 0 <= g < 2 * size
      ensures nSome == CountTrue(SomeFlags(Snap(), g)) && nEmpty == CountTrue(EmptyFlags(Snap(), g))
    {
      nSome, nEmpty := 0, 0;
      for i := 0 to size
        invariant nSome == CountTrue(SomeFlags(Snap(), g)[..i])
        invariant nEmpty == CountTrue(EmptyFlags(Snap(), g)[..i])
      {
        CountPrefix(SomeFlags(Snap(), g), i);
        CountPrefix(EmptyFlags(Snap(), g), i);
        var c := Group(size, g, i);
        var v := value[c.y][c.x];
        if v == Empty {
          nEmpty := nEmpty + 1;
        } else if v != Undecided {
          nSome := nSome + 1;
        }
      }
      CountAll(SomeFlags(Snap(), g));
      CountAll(EmptyFlags(Snap(), g));
    }

    /**
     * `inspect_row`: when line `g` already has `nAlpha` cells with a
     * letter, its undecided cells are decided empty; when it already has
     * `size - nAlpha` empty cells, they are decided `SOME`. Both counts
     * are taken before either loop.
     */
    method InspectRow(g: int, ghost S: seq<seq<Value>>)
      requires Valid() && 0 <= g < 2 * size
      modifies this
      decreases Measure(Snap()), 3
      ensures Valid() && Follows(old(Snap()), Snap()) && solved == old(solved)
      ensures Sound(S, old(Snap())) ==> Sound(S, Snap())
      ensures LineForces(old(Snap()), g, Empty) || LineForces(old(Snap()), g, Some) ==> LineDecided(Snap(), g, size)
    {
      ghost var s0 := Snap();
      FollowsRefl(s0);
      var nSome, nEmpty := CountLine(g);
      if nSome == nAlpha {
        FillLine(g, Empty, S, s0);
      }
      ghost var s1 := Snap();
      FollowsMeasure(s0, s1);
      if nEmpty == size - nAlpha {
        FillLine(g, Some, S, s0);
        FollowsTrans(s0, s1, Snap());
      }
      if nSome == nAlpha {
        DecidedFollows(s1, Snap(), g, size);
      }
    }

    /** One of the two loops of `inspect_row`: decide `v` on every undecided cell of line `g`. */
    method FillLine(g: int, v: Value, ghost S: seq<seq<Value>>, ghost s0: Snapshot)
      requires Valid() && 0 <= g < 2 * size && (v == Empty || v == Some)
      requires Follows(s0, Snap()) && LineForces(s0, g, v)
      requires Sound(S, s0) ==> Sound(S, Snap())
      modifies this
      decreases Measure(Snap()), 2
      ensures Valid() && Follows(old(Snap()), Snap()) && solved == old(solved)
      ensures Sound(S, s0) ==> Sound(S, Snap())
      ensures LineDecided(Snap(), g, size)
    {
      ghost var s1 := Snap();
      FollowsRefl(s1);
      for i := 0 to size
        invariant Valid() && Follows(s1, Snap()) && solved == old(solved)
        invariant Sound(S, s0) ==> Sound(S, Snap())
        invariant LineDecided(Snap(), g, i)
      {
        var c := Group(size, g, i);
        if value[c.y][c.x] == Undecided {
          ghost var sb := Snap();
          FollowsTrans(s0, s1, sb);
          FollowsMeasure(s1, sb);
          if Sound(S, s0) {
            ForcedAgrees(S, s0, sb, g, i, v);
          }
          Decide(c, v, S);
          DecidedFollows(sb, Snap(), g, i);
          FollowsTrans(s1, sb, Snap());
        }
      }
    }
  }
}
