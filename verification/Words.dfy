/** The 64-bit size_t arithmetic of the bounds checker: sums and differences wrap. */
module Words {
  const W: int := 0x1_0000_0000_0000_0000

  type Word = x: int | 0 <= x < W

  function Add(a: Word, b: Word): Word {
    if a + b < W then a + b else a + b - W
  }

  function Sub(a: Word, b: Word): Word {
    if b <= a then a - b else a - b + W
  }
}
