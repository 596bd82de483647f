/**
 What a lane is. In C it is a 64-bit word; in the two Python files it is an unbounded integer kept
 below 2^64 by masks that stand in different places. Here an integer is the set of the positions of
 its one bits, in two's complement, so that a negative one (a complement before it is masked) has all
 but finitely many; a word is an integer without a bit above position 63, and C shifts and
 complements drop what leaves it.

 The permutation commutes with any map of words that respects the three operations; reading a word as
 an integer is such a map, so the Python permutations are the C one.
 */
module KeccakWords {
  import opened KeccakSpec
  import opened KeccakMap

  type Int = iset<nat>

  type Word = w: Int | forall i :: i in w ==> i < 64 witness iset{}

  // ---------------------------------------------------------------- bitwise operators

  ghost const MASK64: Word := iset i: nat | i < 64

  ghost function Xor(a: Int, b: Int): Int {
    (a - b) + (b - a)
  }

  ghost function Not(a: Int): Int {
    iset i: nat | i !in a
  }

  ghost function Left(a: Int, n: nat): Int {
    iset i | i in a :: i + n
  }

  ghost function Right(a: Int, n: nat): Int {
    iset i | i in a && i >= n :: i - n
  }

  // ---------------------------------------------------------------- the three arithmetics

  ghost function XorC(a: Word, b: Word): Word {
    Xor(a, b)
  }

  /** `rol64` of the demo: the shift by 64 that C leaves undefined is avoided at 0. */
  ghost function RolC(x: Word, n: Turn): Word {
    if n != 0 then Left(x, n) * MASK64 + Right(x, 64 - n) else x
  }

  ghost function ChiC(a: Word, b: Word, c: Word): Word {
    Xor(a, Not(b) * MASK64 * c)
  }

  /** `_rotl`. */
  ghost function RolNested(x: Int, n: Turn): Int {
    (Left(x, n) + Right(x, 64 - n)) * MASK64
  }

  ghost function ChiNested(a: Int, b: Int, c: Int): Int {
    Xor(a, (Not(b) * MASK64) * c)
  }

  /** `_rol64` of the drift checker. */
  ghost function RolFlat(x: Int, n: Turn): Int {
    if n == 0 then x * MASK64 else (Left(x, n) + Right(x, 64 - n)) * MASK64
  }

  ghost function ChiFlat(a: Int, b: Int, c: Int): Int {
    Xor(a, Not(b) * c) * MASK64
  }

  ghost const WORDS_C: Words<Word> := Words(iset{}, XorC, RolC, ChiC)
  ghost const WORDS_NESTED: Words<Int> := Words(iset{}, Xor, RolNested, ChiNested)
  ghost const WORDS_FLAT: Words<Int> := Words(iset{}, Xor, RolFlat, ChiFlat)

  // ---------------------------------------------------------------- bit by bit

  /** `rol64` moves bit i to bit i + n, round the end of the word. */
  lemma RolIsRotation(x: Word, n: Turn, i: nat)
    requires i < 64
    ensures i in x <==> (i + n) % 64 in RolC(x, n)
  {
    if i + n < 64 {
      assert i in x <==> i + n in Left(x, n);
      assert i + n !in Right(x, 64 - n);
    } else {
      assert i in x <==> i + n - 64 in Right(x, 64 - n);
      assert i + n - 64 !in Left(x, n);
    }
  }

  /** `a ^ (~b & c)`, and exclusive or, on every bit. */
  lemma ChiIsBitwise(a: Word, b: Word, c: Word, i: nat)
    requires i < 64
    ensures i in ChiC(a, b, c) <==> (i in a) != (i !in b && i in c)
    ensures i in XorC(a, b) <==> (i in a) != (i in b)
  {
  }

  // ---------------------------------------------------------------- the three agree on a lane

  ghost function Widen(x: Word): Int {
    x
  }

  lemma RolWidens(x: Word, n: Turn)
    ensures RolNested(x, n) == RolFlat(x, n) == RolC(x, n)
  {
  }

  lemma ChiWidens(a: Word, b: Word, c: Word)
    ensures ChiNested(a, b, c) == ChiFlat(a, b, c) == ChiC(a, b, c)
  {
  }

  /** So they agree on every state. */
  lemma NestedRespects()
    ensures Respects(WORDS_C, WORDS_NESTED, Widen)
  {
    forall a: Word, n: Turn
      ensures RolNested(a, n) == RolC(a, n)
    {
      RolWidens(a, n);
    }
    forall a: Word, b: Word, c: Word
      ensures ChiNested(a, b, c) == ChiC(a, b, c)
    {
      ChiWidens(a, b, c);
    }
  }

  lemma FlatRespects()
    ensures Respects(WORDS_C, WORDS_FLAT, Widen)
  {
    forall a: Word, n: Turn
      ensures RolFlat(a, n) == RolC(a, n)
    {
      RolWidens(a, n);
    }
    forall a: Word, b: Word, c: Word
      ensures ChiFlat(a, b, c) == ChiC(a, b, c)
    {
      ChiWidens(a, b, c);
    }
  }
}
