/**
 * src/numberlink/mod.rs: the clue type and `LinePlacement`, the set of
 * line segments between horizontally (`right`) and vertically (`down`)
 * adjacent cells.
 */
module NumberlinkBase {
  import opened Common

  /** `Clue(i32)`; `NO_CLUE` is `Clue(0)`. */
  datatype Clue = Clue(n: int)

  const NoClue: Clue := Clue(0)

  class LinePlacement {
    /** `right[(y, x)]`: a segment between cells (y, x) and (y, x + 1); `height x (width - 1)`. */
    var right: Grid<bool>
    /** `down[(y, x)]`: a segment between cells (y, x) and (y + 1, x); `(height - 1) x width`. */
    var down: Grid<bool>

    ghost predicate Valid()
      reads this
    {
      |right.data| == right.height * right.width && |down.data| == down.height * down.width
    }

    /**
     * `LinePlacement::new`: both grids all false. `Grid::new` cannot
     * allocate a negative number of slots, so both products must be
     * non-negative.
     */
    constructor (height: int, width: int)
      requires height * (width - 1) >= 0 && (height - 1) * width >= 0
      ensures Valid()
      ensures right.height == height && right.width == width - 1
      ensures down.height == height - 1 && down.width == width
      ensures forall i :: 0 <= i < |right.data| ==> !right.data[i]
      ensures forall i :: 0 <= i < |down.data| ==> !down.data[i]
    {
      right := Grid(height, width - 1, seq(height * (width - 1), _ => false));
      down := Grid(height - 1, width, seq((height - 1) * width, _ => false));
    }

    /** `right(cd)`: false for a cell outside the `right` grid. */
    function Right(cd: Coord): (b: bool)
      reads this
      requires Valid()
      ensures b ==> right.IsValidCoord(cd)
    {
      right.IsValidCoord(cd) && (right.IndexInRange(cd); right.data[right.Index(cd)])
    }

    /** `down(cd)`: false for a cell outside the `down` grid. */
    function Down(cd: Coord): (b: bool)
      reads this
      requires Valid()
      ensures b ==> down.IsValidCoord(cd)
    {
      down.IsValidCoord(cd) && (down.IndexInRange(cd); down.data[down.Index(cd)])
    }

    /**
     * `set_right(cd, e)`: writes slot `cd.y * (width - 1) + cd.x`, which
     * panics when it lies outside the data.
     */
    method SetRight(cd: Coord, e: bool)
      requires Valid() && 0 <= right.Index(cd) < |right.data|
      modifies this
      ensures Valid() && down == old(down)
      ensures right == old(right).(data := old(right).data[old(right).Index(cd) := e])
      ensures right.IsValidCoord(cd) ==> Right(cd) == e
      ensures forall c :: c != cd && right.IsValidCoord(cd) ==> Right(c) == old(Right(c))
    {
      right := right.(data := right.data[right.Index(cd) := e]);
      forall c | c != cd && right.IsValidCoord(cd)
        ensures Right(c) == old(Right(c))
      {
        if right.IsValidCoord(c) {
          right.IndexInjective(c, cd);
          right.IndexInRange(c);
        }
      }
    }

    /** `set_down(cd, e)`, as `SetRight` on the `down` grid. */
    method SetDown(cd: Coord, e: bool)
      requires Valid() && 0 <= down.Index(cd) < |down.data|
      modifies this
      ensures Valid() && right == old(right)
      ensures down == old(down).(data := old(down).data[old(down).Index(cd) := e])
      ensures down.IsValidCoord(cd) ==> Down(cd) == e
      ensures forall c :: c != cd && down.IsValidCoord(cd) ==> Down(c) == old(Down(c))
    {
      down := down.(data := down.data[down.Index(cd) := e]);
      forall c | c != cd && down.IsValidCoord(cd)
        ensures Down(c) == old(Down(c))
      {
        if down.IsValidCoord(c) {
          down.IndexInjective(c, cd);
          down.IndexInRange(c);
        }
      }
    }
  }
}
