/** 32-bit unsigned arithmetic, written out because Dafny's integers are unbounded. */
module Words {

  const WORD: nat := 0x1_0000_0000

  type Word = x: nat | x < WORD

  /** `a + b` as the machine computes it. */
  function Add32(a: Word, b: Word): (r: Word)
    ensures a + b < WORD ==> r == a + b
    ensures a + b >= WORD ==> r == a + b - WORD
  {
    if a + b < WORD then a + b else a + b - WORD
  }

  /** `a - b` as the machine computes it. */
  function Sub32(a: Word, b: Word): (r: Word)
    ensures a >= b ==> r == a - b
    ensures a < b ==> r == a - b + WORD
  {
    if a >= b then a - b else a - b + WORD
  }
}
