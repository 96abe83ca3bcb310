/**
 * src/yajilin/mod.rs: the clue and cell types of Yajilin and their
 * classifying predicates.
 */
module YajilinBase {
  import opened Wrappers

  /** The four arrow directions a clue can point in. */
  datatype Arrow = ArrowUp | ArrowLeft | ArrowDown | ArrowRight

  /** `Clue`: no clue, an empty (numberless) clue cell, or an arrow with a number. */
  datatype Clue = NoClue | Empty | Up(n: int) | Left(n: int) | Down(n: int) | Right(n: int)

  /** The arrow of a clue, if it has one: an independent view of its constructor. */
  function ArrowOf(c: Clue): Option<Arrow> {
    match c
    case NoClue => None
    case Empty => None
    case Up(_) => Some(ArrowUp)
    case Left(_) => Some(ArrowLeft)
    case Down(_) => Some(ArrowDown)
    case Right(_) => Some(ArrowRight)
  }

  /** `same_shape`: both are arrows of the same direction, whatever their numbers. */
  predicate SameShape(a: Clue, b: Clue) {
    match (a, b)
    case (Up(_), Up(_)) => true
    case (Left(_), Left(_)) => true
    case (Down(_), Down(_)) => true
    case (Right(_), Right(_)) => true
    case _ => false
  }

  /** `clue_number`: the arrow's number, or -1 for `NoClue` and `Empty`. */
  function ClueNumber(c: Clue): int {
    match c
    case NoClue => -1
    case Empty => -1
    case Up(n) => n
    case Left(n) => n
    case Down(n) => n
    case Right(n) => n
  }

  /** `same_shape` holds exactly for two arrows in one direction, so it is symmetric and never holds for `NoClue` or `Empty`. */
  lemma SameShapeArrow(a: Clue, b: Clue)
    ensures SameShape(a, b) <==> ArrowOf(a).Some? && ArrowOf(a) == ArrowOf(b)
    ensures SameShape(a, b) == SameShape(b, a)
    ensures (a.NoClue? || a.Empty?) ==> !SameShape(a, b)
  {
  }

  /** An arrow clue's number is its field; the others read -1. */
  lemma ClueNumberArrow(c: Clue)
    ensures ArrowOf(c).Some? ==> ClueNumber(c) == c.n
    ensures ArrowOf(c).None? ==> ClueNumber(c) == -1
  {
  }

  /** `Cell`. */
  datatype Cell = ClueCell | Undecided | Line | Blocked

  /** `is_blocking`: a clue cell or a blocked cell, which the loop cannot pass. */
  predicate IsBlocking(c: Cell) {
    c.ClueCell? || c.Blocked?
  }
}
