/**
 * src/endview/mod.rs: `Cand`, a 32-bit set of candidate letters, and the
 * value and clue types of Endview.
 *
 * The `u32` of `Cand` is represented by its 32 bits, least significant
 * first, so that bit `n` stands for letter `n`. `1u32 << n` overflows for
 * `n` outside 0..32, which panics in a debug build, so every operation
 * taking a letter requires it in that range.
 */
module EndviewBase {
  const Width: nat := 32

  /** The letters a cell may still take. */
  datatype Cand = Cand(bits: seq<bool>)

  predicate IsLetter(n: int) {
    0 <= n < Width
  }

  predicate WellFormed(c: Cand) {
    |c.bits| == Width
  }

  /** `Cand(0)`. */
  function NoCand(): (c: Cand)
    ensures WellFormed(c)
  {
    Cand(seq(Width, _ => false))
  }

  /** `Cand::singleton(n)`: bit `n` alone, which is `1u32 << n`. */
  function Singleton(n: int): (c: Cand)
    requires IsLetter(n)
    ensures WellFormed(c)
  {
    Cand(seq(Width, i => i == n))
  }

  /** `Cand::is_set(n)`: bit `n` of the word. */
  predicate IsSet(c: Cand, n: int)
    requires WellFormed(c) && IsLetter(n)
  {
    c.bits[n]
  }

  /** `Cand((1 << n) - 1)`, the bits below `n`, as `Field::new` builds it. */
  function FirstLetters(n: int): (c: Cand)
    requires IsLetter(n)
    ensures WellFormed(c)
  {
    Cand(seq(Width, i => i < n))
  }

  /** `&`, `|` and `!` on `Cand`, bit by bit. */
  function Inter(a: Cand, b: Cand): (c: Cand)
    requires WellFormed(a) && WellFormed(b)
    ensures WellFormed(c)
  {
    Cand(seq(Width, i requires 0 <= i < Width => a.bits[i] && b.bits[i]))
  }

  function Union(a: Cand, b: Cand): (c: Cand)
    requires WellFormed(a) && WellFormed(b)
    ensures WellFormed(c)
  {
    Cand(seq(Width, i requires 0 <= i < Width => a.bits[i] || b.bits[i]))
  }

  function Complement(a: Cand): (c: Cand)
    requires WellFormed(a)
    ensures WellFormed(c)
  {
    Cand(seq(Width, i requires 0 <= i < Width => !a.bits[i]))
  }

  /** The number of letters below `k` in `c`. */
  function CountBelow(c: Cand, k: nat): (r: nat)
    requires WellFormed(c) && k <= Width
    ensures r <= k
  {
    if k == 0 then 0 else CountBelow(c, k - 1) + (if IsSet(c, k - 1) then 1 else 0)
  }

  /** `count_set_cands`: `count_ones` of the word. */
  function CountSetCands(c: Cand): nat
    requires WellFormed(c)
  {
    CountBelow(c, Width)
  }

  /** The first letter from `k` on that `c` holds, or 32. */
  function FirstFrom(c: Cand, k: nat): (r: nat)
    requires WellFormed(c) && k <= Width
    decreases Width - k
  {
    if k == Width then Width else if IsSet(c, k) then k else FirstFrom(c, k + 1)
  }

  /** `smallest_set_cand`: `trailing_zeros` of the word, 32 for `Cand(0)`. */
  function SmallestSetCand(c: Cand): nat
    requires WellFormed(c)
  {
    FirstFrom(c, 0)
  }

  /** A singleton holds its letter and no other; the first `n` letters are those below `n`. */
  lemma Members(n: int, m: int)
    requires IsLetter(n) && IsLetter(m)
    ensures IsSet(Singleton(n), m) <==> m == n
    ensures IsSet(FirstLetters(n), m) <==> m < n
    ensures !IsSet(NoCand(), m)
  {
  }

  /** The bitwise operators are intersection, union and complement of the letter sets. */
  lemma SetOperations(a: Cand, b: Cand, n: int)
    requires WellFormed(a) && WellFormed(b) && IsLetter(n)
    ensures IsSet(Inter(a, b), n) <==> IsSet(a, n) && IsSet(b, n)
    ensures IsSet(Union(a, b), n) <==> IsSet(a, n) || IsSet(b, n)
    ensures IsSet(Complement(a), n) <==> !IsSet(a, n)
  {
  }

  /** Two sets with the same letters are the same word. */
  lemma Extensionality(a: Cand, b: Cand)
    requires WellFormed(a) && WellFormed(b)
    requires forall m :: IsLetter(m) ==> (IsSet(a, m) <==> IsSet(b, m))
    ensures a == b
  {
    forall i | 0 <= i < Width
      ensures a.bits[i] == b.bits[i]
    {
      assert IsLetter(i);
    }
  }

  /** Counting letters below `k`: zero exactly when none is set, `k` exactly when all are. */
  lemma {:induction false} CountBelowBounds(c: Cand, k: nat)
    requires WellFormed(c) && k <= Width
    ensures CountBelow(c, k) == 0 <==> forall m :: 0 <= m < k ==> !IsSet(c, m)
    ensures CountBelow(c, k) == k <==> forall m :: 0 <= m < k ==> IsSet(c, m)
  {
    if k > 0 {
      CountBelowBounds(c, k - 1);
    }
  }

  /** The count of a set is at most 32, and zero exactly for `Cand(0)`. */
  lemma CountSetCandsBounds(c: Cand)
    requires WellFormed(c)
    ensures CountSetCands(c) <= Width
    ensures CountSetCands(c) == 0 <==> c == NoCand()
  {
    CountBelowBounds(c, Width);
    if CountSetCands(c) == 0 {
      Extensionality(c, NoCand());
    }
  }

  lemma {:induction false} CountBelowSingleton(n: int, k: nat)
    requires IsLetter(n) && k <= Width
    ensures CountBelow(Singleton(n), k) == if n < k then 1 else 0
  {
    if k > 0 {
      Members(n, k - 1);
      CountBelowSingleton(n, k - 1);
    }
  }

  /** A singleton has exactly one letter, and it is the smallest. */
  lemma SingletonCount(n: int)
    requires IsLetter(n)
    ensures CountSetCands(Singleton(n)) == 1
    ensures SmallestSetCand(Singleton(n)) == n
  {
    CountBelowSingleton(n, Width);
    var r := SmallestSetCand(Singleton(n));
    SmallestSetCandSpec(Singleton(n));
    Members(n, n);
    if r < Width {
      Members(n, r);
    }
  }

  /** The first `n` letters count `n`. */
  lemma {:induction false} CountBelowFirstLetters(n: int, k: nat)
    requires IsLetter(n) && k <= Width
    ensures CountBelow(FirstLetters(n), k) == if n < k then n else k
  {
    if k > 0 {
      CountBelowFirstLetters(n, k - 1);
    }
  }

  lemma {:induction false} FirstFromSpec(c: Cand, k: nat)
    requires WellFormed(c) && k <= Width
    ensures k <= FirstFrom(c, k) <= Width
    ensures forall m :: k <= m < FirstFrom(c, k) ==> !IsSet(c, m)
    ensures FirstFrom(c, k) < Width ==> IsSet(c, FirstFrom(c, k))
    decreases Width - k
  {
    if k < Width && !IsSet(c, k) {
      FirstFromSpec(c, k + 1);
    }
  }

  /** `smallest_set_cand` is the least letter in the set, or 32 for `Cand(0)`. */
  lemma SmallestSetCandSpec(c: Cand)
    requires WellFormed(c)
    ensures SmallestSetCand(c) <= Width
    ensures forall m :: 0 <= m < SmallestSetCand(c) ==> !IsSet(c, m)
    ensures SmallestSetCand(c) < Width ==> IsSet(c, SmallestSetCand(c))
    ensures SmallestSetCand(c) == Width <==> c == NoCand()
  {
    FirstFromSpec(c, 0);
    if SmallestSetCand(c) == Width {
      Extensionality(c, NoCand());
    }
  }

  /** `Value(i32)`: a letter, or one of the three markers below. */
  datatype Value = Value(v: int)

  const Undecided: Value := Value(-1)
  const Empty: Value := Value(-2)
  const Some: Value := Value(-3)

  /** `Clue(i32)`; `NO_CLUE` is `Clue(-1)`. */
  datatype Clue = Clue(n: int)

  const NoClue: Clue := Clue(-1)

  /** `ClueLoc`: the side of the board a clue stands on. */
  datatype ClueLoc = Left | Right | Top | Bottom
}
