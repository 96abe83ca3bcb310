/** The clue type of src/slitherlink/mod.rs: `Clue(i32)`, with `NO_CLUE` as `Clue(-1)`. */
module SlitherlinkBase {
  datatype Clue = Clue(n: int)

  const NoClue: Clue := Clue(-1)
}
