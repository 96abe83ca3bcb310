/**
 * The token reader of src/tapa/io.rs: how one space-separated token of a
 * problem becomes a clue. The grid reader `io::read_grid` it is passed to
 * is not part of this model.
 */
module TapaIo {
  import opened Wrappers
  import opened Text
  import opened ReadErrors
  import opened TapaBase

  /** The decimal digits of a token, in order, as numbers; every other character is dropped. */
  function DigitRuns(token: string): (r: seq<int>)
    ensures |r| <= |token|
    ensures forall k :: 0 <= k < |r| ==> 0 <= r[k] <= 9
  {
    if token == [] then []
    else (if IsDigit(token[0]) then [DigitValue(token[0])] else []) + DigitRuns(token[1..])
  }

  /** The token closure: `.` or a token without digits is `NO_CLUE`, otherwise the kind of its digits. */
  function TokenClue(token: string): Result<Clue, ReadError> {
    if token == "." then Ok(NoClue)
    else
      var pat := DigitRuns(token);
      if pat == [] then Ok(NoClue)
      else
        match PatternToId(pat)
        case Some(c) => Ok(c)
        case None => Err(InvalidValue)
  }

  lemma {:induction false} DigitRunsEmpty(token: string)
    ensures DigitRuns(token) == [] <==> forall k :: 0 <= k < |token| ==> !IsDigit(token[k])
  {
    if token != [] {
      DigitRunsEmpty(token[1..]);
      assert forall k :: 1 <= k < |token| ==> token[k] == token[1..][k - 1];
    }
  }

  /**
   * A token reads as `NO_CLUE` exactly when it has no digit; otherwise it is
   * the kind of its digits, in any order, or `InvalidValue` when they form
   * no kind.
   */
  lemma TokenClueSpec(token: string)
    ensures TokenClue(token) == Ok(NoClue) <==> forall k :: 0 <= k < |token| ==> !IsDigit(token[k])
    ensures TokenClue(token).Err? <==> DigitRuns(token) != [] && PatternToId(DigitRuns(token)).None?
    ensures TokenClue(token).Err? ==> TokenClue(token).error == InvalidValue
    ensures TokenClue(token).Ok? && TokenClue(token) != Ok(NoClue) ==>
      Some(TokenClue(token).value) == PatternToId(DigitRuns(token))
  {
    DigitRunsEmpty(token);
    PatternToIdSpec(DigitRuns(token));
    if token == "." {
      assert !IsDigit(token[0]);
    }
  }

  /** Tokens with the same digits, in whatever order and among whatever other characters, read alike. */
  lemma TokenOrderInsensitive(s: string, t: string)
    requires s != "." && t != "." && multiset(DigitRuns(s)) == multiset(DigitRuns(t))
    ensures TokenClue(s) == TokenClue(t)
  {
    OrderInsensitive(DigitRuns(s), DigitRuns(t));
    if DigitRuns(s) == [] {
      assert |multiset(DigitRuns(t))| == 0;
    } else {
      assert |multiset(DigitRuns(t))| > 0;
    }
  }
}
