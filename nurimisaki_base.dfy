/** src/nurimisaki/mod.rs: the cell type of Nurimisaki. */
module NurimisakiBase {
  /** `Cell`: a cape carries its number. */
  datatype Cell = Undecided | White | Black | Cape(n: int)

  /** `is_white_like`: white, or a cape (which is a white cell too). */
  predicate IsWhiteLike(c: Cell) {
    c.White? || c.Cape?
  }

  /** `is_cape`. */
  predicate IsCape(c: Cell) {
    c.Cape?
  }

  /** A cape is white-like, and black and undecided cells are neither. */
  lemma CellClasses(c: Cell)
    ensures IsCape(c) ==> IsWhiteLike(c)
    ensures (c.Black? || c.Undecided?) ==> !IsWhiteLike(c) && !IsCape(c)
  {
  }
}
