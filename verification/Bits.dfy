/** Powers of two, and the bitwise "or" that joins disjoint fields of a machine word. */
module Bits {
  function Pow2(k: nat): nat {
    if k == 0 then 1 else 2 * Pow2(k - 1)
  }

  lemma {:induction false} Pow2Positive(k: nat)
    ensures Pow2(k) >= 1
  {
    if k > 0 { Pow2Positive(k - 1); }
  }

  lemma {:induction false} Pow2Sum(i: nat, j: nat)
    ensures Pow2(i) * Pow2(j) == Pow2(i + j)
  {
    if i > 0 { Pow2Sum(i - 1, j); }
  }

  lemma {:induction false} Pow2Monotone(i: nat, j: nat)
    requires i <= j
    ensures Pow2(i) <= Pow2(j)
    decreases j
  {
    if i < j {
      Pow2Monotone(i, j - 1);
      Pow2Positive(j - 1);
    }
  }

  lemma Pow2Of32()
    ensures Pow2(8) == 0x100 && Pow2(16) == 0x1_0000 && Pow2(31) == 0x8000_0000 && Pow2(32) == 0x1_0000_0000
  {
    Pow2Sum(8, 8);
    Pow2Sum(16, 16);
    Pow2Sum(1, 31);
  }

  /** Bitwise or. */
  function Or(x: nat, y: nat): nat {
    if x == 0 then y
    else if y == 0 then x
    else 2 * Or(x / 2, y / 2) + if x % 2 == 1 || y % 2 == 1 then 1 else 0
  }

  lemma {:induction false} OrDisjoint(hi: nat, k: nat, lo: nat)
    requires lo < Pow2(k)
    ensures Or(hi * Pow2(k), lo) == hi * Pow2(k) + lo
    decreases k
  {
    var x := hi * Pow2(k);
    if k > 0 && hi > 0 && lo > 0 {
      var h := hi * Pow2(k - 1);
      assert x == 2 * h;
      assert h > 0 by { Pow2Positive(k - 1); }
      OrDisjoint(hi, k - 1, lo / 2);
    }
  }

  lemma MulLe(a: int, b: int, c: int)
    requires a <= b && 0 <= c
    ensures a * c <= b * c
  {}

  lemma UniqueQuotient(q: int, r: int, q': int, r': int, d: int)
    requires q * d + r == q' * d + r' && 0 <= r < d && 0 <= r' < d
    ensures q == q' && r == r'
  {
    assert (q - q') * d == r' - r;
    if q > q' { MulLe(1, q - q', d); }
    if q < q' { MulLe(1, q' - q, d); }
  }

  lemma OrDouble(x: nat, y: nat, bit: nat)
    requires bit < 2
    ensures Or(2 * x, 2 * y + bit) == 2 * Or(x, y) + bit
  {}

  /** Or above and below bit k. */
  lemma {:induction false} OrShift(x: nat, y: nat, k: nat, lo: nat)
    requires lo < Pow2(k)
    ensures Or(x * Pow2(k), y * Pow2(k) + lo) == Or(x, y) * Pow2(k) + lo
    decreases k
  {
    if k > 0 {
      HalfBelow(lo, k);
      OrShift(x, y, k - 1, lo / 2);
      OrShiftStep(x, y, k, lo);
    }
  }

  lemma HalfBelow(lo: nat, k: nat)
    requires k > 0 && lo < Pow2(k)
    ensures lo / 2 < Pow2(k - 1)
  {}

  lemma OrShiftStep(x: nat, y: nat, k: nat, lo: nat)
    requires k > 0
    requires Or(x * Pow2(k - 1), y * Pow2(k - 1) + lo / 2) == Or(x, y) * Pow2(k - 1) + lo / 2
    ensures Or(x * Pow2(k), y * Pow2(k) + lo) == Or(x, y) * Pow2(k) + lo
  {
    hide Or, Pow2;
    Halves(x, k);
    Halves(y, k);
    Halves(Or(x, y), k);
    OrDouble(x * Pow2(k - 1), y * Pow2(k - 1) + lo / 2, lo % 2);
  }

  lemma Halves(x: nat, k: nat)
    requires k > 0
    ensures x * Pow2(k) == 2 * (x * Pow2(k - 1))
  {}
}
