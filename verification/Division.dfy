/** 64-by-64 division out of 32-bit hardware divides (lib/libtcc1.c, i386). */
module Division {
  import opened Bits

  const B: int := 0x1_0000_0000
  const HALF: int := 0x8000_0000
  const BB: int := 0x1_0000_0000_0000_0000

  type Limb = x: int | 0 <= x < B

  type Word64 = x: int | 0 <= x < BB

  /** Where the remainder is written through rp. */
  class Cell {
    var ll: Word64
    constructor () { ll := 0; }
  }

  // Shifts by k, 0 < k < 32, of a limb

  function Shl(x: Limb, k: nat): Limb {
    x * Pow2(k) % B
  }

  function Shr(x: Limb, k: nat): nat {
    Pow2Positive(k);
    Quotient(x, Pow2(k))
  }

  function Quotient(x: nat, p: nat): nat
    requires p > 0
  {
    x / p
  }

  lemma PowPair(bm: nat)
    requires bm <= 32
    ensures Pow2(bm) * Pow2(32 - bm) == B && Pow2(bm) > 0 && Pow2(32 - bm) > 0
  {
    Pow2Sum(bm, 32 - bm);
    Pow2Of32();
    Pow2Positive(bm);
    Pow2Positive(32 - bm);
  }

  lemma ShrLess(x: Limb, bm: nat)
    requires bm <= 32
    ensures Shr(x, 32 - bm) < Pow2(bm)
  {
    PowPair(bm);
    QuotientLess(x, Pow2(bm), Pow2(32 - bm));
  }

  predicate IsQuotient(n: int, d: int, q: int, r: int) {
    d > 0 && n == q * d + r && 0 <= r < d
  }

  lemma QuotientIs(n: int, d: int, q: int, r: int)
    requires IsQuotient(n, d, q, r)
    ensures n / d == q && n % d == r
  {
    UniqueQuotient(q, r, n / d, n % d, d);
  }

  lemma QuotientLess(x: nat, p: nat, q: nat)
    requires q > 0 && x < p * q
    ensures x / q < p
  {}

  /** Shifting left keeps the low 32 - bm bits; the others are what the right shift gives. */
  lemma ShlKeeps(x: Limb, bm: nat)
    requires 0 < bm < 32
    ensures Pow2(32 - bm) > 0 && Pow2(bm) * Pow2(32 - bm) == B
    ensures Shl(x, bm) == (x % Pow2(32 - bm)) * Pow2(bm) <= B - Pow2(bm)
    ensures x * Pow2(bm) == Shr(x, 32 - bm) * B + Shl(x, bm)
  {
    hide Pow2;
    PowPair(bm);
    SplitShift(x, Pow2(bm), Pow2(32 - bm), x / Pow2(32 - bm), x % Pow2(32 - bm));
  }

  lemma SplitShift(x: Limb, p: int, q: int, h: int, l: int)
    requires 0 < p && 0 < q && p * q == B && x == h * q + l && 0 <= l < q
    ensures x * p % B == l * p <= B - p
    ensures x * p == h * B + l * p
  {
    assert x * p == h * (p * q) + l * p;
    assert (q - 1) * p == B - p;
    MulLe(l, q - 1, p);
    UniqueQuotient(x * p / B, x * p % B, h, l * p, B);
  }

  // The machine operations

  /** divl: traps unless the high limb is below the divisor. */
  method UDivQrnnd(n1: Limb, n0: Limb, d: Limb) returns (q: Limb, r: Limb)
    requires n1 < d
    ensures n1 * B + n0 == q * d + r && r < d
  {
    var n := n1 * B + n0;
    MulLe(n1 + 1, d, B);
    QuotientLess(n, B, d);
    q, r := n / d, n % d;
  }

  /** mull */
  method UMulPpmm(u: Limb, v: Limb) returns (hi: Limb, lo: Limb)
    ensures hi * B + lo == u * v
  {
    MulLe(u, B - 1, v);
    MulLe(0, u, v);
    var p := u * v;
    hi, lo := p / B, p % B;
  }

  /** subl, sbbl */
  method SubDdmmss(ah: Limb, al: Limb, bh: Limb, bl: Limb) returns (h: Limb, l: Limb)
    ensures var x := (ah * B + al) - (bh * B + bl); h * B + l == if x >= 0 then x else x + BB
  {
    var borrow := if al < bl then 1 else 0;
    l := (al - bl) % B;
    h := (ah - bh - borrow) % B;
    ghost var d := (ah * B + al) - (bh * B + bl);
    assert l == al - bl + borrow * B;
    assert d == (ah - bh - borrow) * B + l;
  }

  /** bsrl: the index of the highest set bit. */
  function HighestBit(x: Limb): (r: nat)
    requires x > 0
    ensures Pow2(r) <= x < Pow2(r + 1) && r < 32
  {
    if x == 1 then 0
    else
      var r := HighestBit(x / 2) + 1;
      TopBitBelow32(r, x);
      r
  }

  lemma TopBitBelow32(k: nat, x: Limb)
    requires Pow2(k) <= x
    ensures k < 32
  {
    Pow2Of32();
    if k >= 32 { Pow2Monotone(32, k); }
  }

  lemma Normalizes(x: Limb, k: nat)
    requires k < 32 && Pow2(k) <= x < Pow2(k + 1)
    ensures HALF <= x * Pow2(31 - k) < B
  {
    hide Pow2;
    var p := Pow2(31 - k);
    Pow2Of32();
    Pow2Sum(k, 31 - k);
    Pow2Sum(k + 1, 31 - k);
    Pow2Positive(31 - k);
    MulLe(Pow2(k), x, p);
    MulLe(x + 1, Pow2(k + 1), p);
  }

  /** How far x must be shifted left for its top bit to be set. */
  function CountLeadingZeros(x: Limb): (r: nat)
    requires x > 0
    ensures r < 32 && HALF <= x * Pow2(r) < B
  {
    var k := HighestBit(x);
    Normalizes(x, k);
    31 - k
  }

  // The quotient estimate

  /** With divisor and dividend shifted left by bm, P == 2^bm, the product of the estimate and
      the low divisor limb is at most the divisor. */
  lemma EstimateProduct(P: int, n: int, d1: Limb, d0: Limb, q0: Limb, r: Limb)
    requires 1 < P <= HALF && HALF <= d1 && d0 <= B - P
    requires n < P * B && n == q0 * d1 + r
    ensures q0 * d0 <= d1 * B
  {
    MulLe(HALF, d1, q0);
    assert q0 * (HALF) < P * B == (2 * P) * (HALF);
    if q0 >= 2 * P { MulLe(2 * P, q0, HALF); }
    assert q0 <= 2 * P - 1;
    MulLe(q0, 2 * P - 1, d0);
    MulLe(d0, B - P, 2 * P - 1);
    HalfSquare(P, HALF);
    MulLe(HALF, d1, B);
  }

  lemma HalfSquare(p: int, h: int)
    requires 1 <= p <= h
    ensures (2 * p - 1) * (2 * h - p) <= 2 * h * h
  {}

  lemma EstimateGap(n: int, n0: Limb, d1: Limb, d0: Limb, q: int, r: int, m: int)
    requires n == q * d1 + r && m == q * d0
    ensures (n * B + n0) - q * (d1 * B + d0) == (r * B + n0) - m
    ensures (q - 1) * (d1 * B + d0) == q * (d1 * B + d0) - (d1 * B + d0)
    ensures (q + 1) * (d1 * B + d0) == q * (d1 * B + d0) + (d1 * B + d0)
  {}

  /** The estimate from the top limbs is the quotient or one more: (q0 - 1) * D <= N < (q0 + 1) * D. */
  lemma EstimateOffByOne(n: int, n0: Limb, d1: Limb, d0: Limb, q0: Limb, r: Limb)
    requires n == q0 * d1 + r && r < d1 && q0 * d0 <= d1 * B
    ensures (q0 - 1) * (d1 * B + d0) <= n * B + n0 < (q0 + 1) * (d1 * B + d0)
  {
    var a, c := q0 * d1, q0 * d0;
    assert c >= 0 by { MulLe(0, q0, d0); }
    assert q0 * (d1 * B + d0) == a * B + c;
    assert n * B == a * B + r * B;
    assert (q0 + 1) * (d1 * B + d0) == q0 * (d1 * B + d0) + (d1 * B + d0);
    assert (q0 - 1) * (d1 * B + d0) == q0 * (d1 * B + d0) - (d1 * B + d0);
    MulLe(r + 1, d1, B);
  }

  // __udivmoddi4

  lemma Distribute(a: int, b: int, p: int)
    ensures (a * B + b) * p == (a * p) * B + b * p
  {}

  /** Or joins a limb shifted left with what comes in from the limb below. */
  lemma Funnel(x: Limb, y: Limb, bm: nat)
    requires 0 < bm < 32
    ensures Shl(x, bm) + Shr(y, 32 - bm) < B
    ensures Or(Shl(x, bm), Shr(y, 32 - bm)) == Shl(x, bm) + Shr(y, 32 - bm)
  {
    hide Pow2, Or, Shl;
    ShlKeeps(x, bm);
    ShrLess(y, bm);
    OrDisjoint(x % Pow2(32 - bm), bm, Shr(y, 32 - bm));
  }

  lemma NothingOut(x: Limb, bm: nat)
    requires 0 < bm < 32 && x * Pow2(bm) < B
    ensures Shl(x, bm) == x * Pow2(bm)
  {}

  /** (d1, d0) << bm when nothing is shifted out */
  method NormalizedDivisor(d1: Limb, d0: Limb, bm: nat) returns (e1: Limb, e0: Limb)
    requires 0 < bm < 32 && d1 * Pow2(bm) < B
    ensures e1 * B + e0 == (d1 * B + d0) * Pow2(bm)
    ensures d1 * Pow2(bm) <= e1 && e0 <= B - Pow2(bm)
  {
    hide Pow2, Or, Shl, Shr;
    Funnel(d1, d0, bm);
    NothingOut(d1, bm);
    ShlKeeps(d0, bm);
    Distribute(d1, d0, Pow2(bm));
    e1 := Or(Shl(d1, bm), Shr(d0, 32 - bm));
    e0 := Shl(d0, bm);
  }

  /** (n1, n0) << bm into three limbs */
  method NormalizedDividend(n1: Limb, n0: Limb, bm: nat) returns (n2: Limb, m1: Limb, m0: Limb)
    requires 0 < bm < 32
    ensures (n2 * B + m1) * B + m0 == (n1 * B + n0) * Pow2(bm)
    ensures n2 * B + m1 < Pow2(bm) * B && n2 < Pow2(bm)
  {
    hide Pow2, Or, Shl, Shr;
    PowRange(bm);
    Funnel(n1, n0, bm);
    ShlKeeps(n1, bm);
    ShlKeeps(n0, bm);
    ShrLess(n1, bm);
    Distribute(n1, n0, Pow2(bm));
    n2 := Shr(n1, 32 - bm);
    m1 := Or(Shl(n1, bm), Shr(n0, 32 - bm));
    m0 := Shl(n0, bm);
  }

  /** (h, l) >> bm, which is exact */
  method ShiftBack(h: Limb, l: Limb, bm: nat, ghost R: int) returns (hi: Limb, lo: Limb)
    requires 0 < bm < 32 && h * B + l == R * Pow2(bm)
    ensures hi * B + lo == R
  {
    hide Pow2, Or, Shl;
    PowPair(bm);
    Funnel(h, l, 32 - bm);
    ShlKeeps(h, 32 - bm);
    ShrLimb(h, bm);
    hi := Shr(h, bm);
    lo := Or(Shl(h, 32 - bm), Shr(l, bm));
    JoinShifted(h, l, Pow2(bm), Pow2(32 - bm), h / Pow2(bm), h % Pow2(bm), l / Pow2(bm), l % Pow2(bm), R);
  }

  lemma ShrLimb(x: Limb, k: nat)
    ensures Shr(x, k) <= x
  {
    Pow2Positive(k);
    MulLe(1, Pow2(k), x + 1);
    QuotientLess(x, x + 1, Pow2(k));
  }

  lemma JoinShifted(h: int, l: int, p: int, q: int, hq: int, hr: int, lq: int, lr: int, R: int)
    requires p * q == B && h == hq * p + hr && l == lq * p + lr && 0 <= lr < p
    requires h * B + l == R * p
    ensures hq * B + (hr * q + lq) == R
  {}

  /** Scaling dividend and divisor scales the remainder. */
  lemma Unscale(n: int, d: int, q: int, p: int, r: int)
    requires p > 0 && n * p == q * (d * p) + r && 0 <= r < d * p
    ensures r == (n - q * d) * p && 0 <= n - q * d < d
  {}

  /** d1 > 0 and its top bit clear: shift both operands left by bm, divide the top limbs,
      correct the estimate at most once, shift the remainder back. */
  method DivideNormalized(n1: Limb, n0: Limb, d1: Limb, d0: Limb, bm: nat) returns (q0: Limb, hi: Limb, lo: Limb)
    requires 0 < bm < 32 && HALF <= d1 * Pow2(bm) < B
    ensures n1 * B + n0 == q0 * (d1 * B + d0) + (hi * B + lo) && hi * B + lo < d1 * B + d0
  {
    hide Pow2;
    PowRange(bm);
    ghost var P, N, D := Pow2(bm), n1 * B + n0, d1 * B + d0;
    var e1, e0 := NormalizedDivisor(d1, d0, bm);
    var n2, m1, m0 := NormalizedDividend(n1, n0, bm);
    var r1: Limb;
    q0, r1 := UDivQrnnd(n2, m1, e1);
    EstimateProduct(P, n2 * B + m1, e1, e0, q0, r1);
    EstimateOffByOne(n2 * B + m1, m0, e1, e0, q0, r1);
    ghost var D', N', q := e1 * B + e0, (n2 * B + m1) * B + m0, q0;
    var p1: Limb, p0: Limb;
    p1, p0 := UMulPpmm(q0, e0);
    EstimateGap(n2 * B + m1, m0, e1, e0, q, r1, p1 * B + p0);
    if p1 > r1 || (p1 == r1 && p0 > m0) {
      q0 := q0 - 1;
      p1, p0 := SubDdmmss(p1, p0, e1, e0);
    }
    r1, m0 := SubDdmmss(r1, m0, p1, p0);
    assert N' == q0 * D' + (r1 * B + m0) && r1 * B + m0 < D';
    Unscale(N, D, q0, P, r1 * B + m0);
    hi, lo := ShiftBack(r1, m0, bm, N - q0 * D);
  }

  lemma PowRange(bm: nat)
    requires 0 < bm < 32
    ensures 1 < Pow2(bm) <= HALF
  {
    Pow2Of32();
    Pow2Monotone(1, bm);
    Pow2Monotone(bm, 31);
  }

  /** The two limbs of a union. */
  function Join(hi: Limb, lo: Limb): Word64 {
    hi * B + lo
  }

  lemma Rejoin(n: Word64)
    ensures Join(n / B, n % B) == n
  {}

  /** One hardware divide: the divisor and the quotient have one limb. */
  lemma OneDivide(n1: Limb, n0: Limb, d: Limb, q: Limb, r: Limb)
    requires n1 * B + n0 == q * d + r && r < d
    ensures IsQuotient(Join(n1, n0), Join(0, d), Join(0, q), Join(0, r))
  {}

  /** Two: the remainder of the first is the high limb of the second. */
  lemma TwoDivides(n1: Limb, n0: Limb, d: Limb, q1: Limb, m: Limb, q0: Limb, r: Limb)
    requires n1 == q1 * d + m && m * B + n0 == q0 * d + r && r < d
    ensures IsQuotient(Join(n1, n0), Join(0, d), Join(q1, q0), Join(0, r))
  {}

  lemma SmallDividend(n1: Limb, n0: Limb, d1: Limb, d0: Limb)
    requires d1 > 0 && (d1 > n1 || (d1 == n1 && d0 > n0))
    ensures IsQuotient(Join(n1, n0), Join(d1, d0), 0, Join(n1, n0))
  {}

  lemma QuotientOne(n1: Limb, n0: Limb, d1: Limb, d0: Limb, r1: Limb, r0: Limb)
    requires d1 >= HALF && (n1 > d1 || (n1 == d1 && n0 >= d0))
    requires var x := (n1 * B + n0) - (d1 * B + d0); r1 * B + r0 == if x >= 0 then x else x + BB
    ensures IsQuotient(Join(n1, n0), Join(d1, d0), 1, Join(r1, r0))
  {}

  /** Both operands have two limbs: the quotient has one. */
  method UDivWide(n1: Limb, n0: Limb, d1: Limb, d0: Limb) returns (q0: Limb, r1: Limb, r0: Limb)
    requires d1 > 0
    ensures IsQuotient(Join(n1, n0), Join(d1, d0), q0, Join(r1, r0))
  {
    hide Pow2, Join, IsQuotient;
    r1, r0 := n1, n0;
    if d1 > n1 {
      q0 := 0;
      SmallDividend(n1, n0, d1, d0);
    } else {
      var bm := CountLeadingZeros(d1);
      if bm == 0 {
        TopBitSet(d1);
        if n1 > d1 || n0 >= d0 {
          q0 := 1;
          r1, r0 := SubDdmmss(n1, n0, d1, d0);
          QuotientOne(n1, n0, d1, d0, r1, r0);
        } else {
          q0 := 0;
          SmallDividend(n1, n0, d1, d0);
        }
      } else {
        q0, r1, r0 := DivideNormalized(n1, n0, d1, d0, bm);
        WideQuotient(n1, n0, d1, d0, q0, r1, r0);
      }
    }
  }

  lemma TopBitSet(d1: Limb)
    requires HALF <= d1 * Pow2(0) < B
    ensures d1 >= HALF
  {}

  lemma WideQuotient(n1: Limb, n0: Limb, d1: Limb, d0: Limb, q: Limb, r1: Limb, r0: Limb)
    requires n1 * B + n0 == q * (d1 * B + d0) + (r1 * B + r0) && r1 * B + r0 < d1 * B + d0
    ensures IsQuotient(Join(n1, n0), Join(d1, d0), q, Join(r1, r0))
  {}

  /** For every n and every nonzero d: quotient returned, remainder stored when asked for.
      A zero divisor runs into the deliberate divide by zero. */
  method UDivModDi4(n: Word64, d: Word64, rp: Cell?) returns (trap: bool, q: Word64)
    modifies if rp == null then {} else {rp}
    ensures trap <==> d == 0
    ensures d != 0 ==> q == n / d && (rp != null ==> rp.ll == n % d)
  {
    hide IsQuotient, Join;
    var d0: Limb, d1: Limb, n0: Limb, n1: Limb := d % B, d / B, n % B, n / B;
    Rejoin(n);
    Rejoin(d);
    var q0: Limb, q1: Limb := 0, 0;
    trap, q := d == 0, 0;
    if d1 == 0 {
      if d0 > n1 {
        ghost var m1, m0 := n1, n0;
        q0, n0 := UDivQrnnd(n1, n0, d0);
        OneDivide(m1, m0, d0, q0, n0);
      } else {
        if d0 == 0 { return; }
        ghost var m1, m0 := n1, n0;
        q1, n1 := UDivQrnnd(0, n1, d0);
        ghost var m := n1;
        q0, n0 := UDivQrnnd(n1, n0, d0);
        TwoDivides(m1, m0, d0, q1, m, q0, n0);
      }
      n1 := 0;
    } else {
      q0, n1, n0 := UDivWide(n1, n0, d1, d0);
      LowQuotient(q0);
    }
    QuotientIs(n, d, Join(q1, q0), Join(n1, n0));
    if rp != null {
      rp.ll := Join(n1, n0);
    }
    q := Join(q1, q0);
  }

  lemma LowQuotient(q: Limb)
    ensures Join(0, q) == q
  {}

  // The signed and unsigned entry points

  type Int64 = x: int | -0x8000_0000_0000_0000 <= x < 0x8000_0000_0000_0000

  function ToSigned(w: Word64): Int64 {
    if w < 0x8000_0000_0000_0000 then w else w - BB
  }

  function ToUnsigned(x: Int64): Word64 {
    if x < 0 then x + BB else x
  }

  /** __negdi2 on the 64-bit word */
  function Negate(w: Word64): Word64 {
    if w == 0 then 0 else BB - w
  }

  function Abs(x: int): nat {
    if x < 0 then -x else x
  }

  /** C division: toward zero, and the remainder takes the dividend's sign. */
  function TruncDiv(u: int, v: int): int
    requires v != 0
  {
    if (u < 0) == (v < 0) then Abs(u) / Abs(v) else -(Abs(u) / Abs(v))
  }

  function TruncMod(u: int, v: int): int
    requires v != 0
  {
    if u < 0 then -(Abs(u) % Abs(v)) else Abs(u) % Abs(v)
  }

  /** Quotient and remainder fit together, and the remainder is smaller than the divisor. */
  lemma TruncLaw(u: int, v: int)
    requires v != 0
    ensures u == TruncDiv(u, v) * v + TruncMod(u, v)
    ensures if v > 0 then -v < TruncMod(u, v) < v else v < TruncMod(u, v) < -v
    ensures TruncMod(u, v) == 0 || (TruncMod(u, v) < 0 <==> u < 0)
  {}

  lemma QuotientBounds(a: Word64, b: Word64)
    requires b != 0 && a <= 0x8000_0000_0000_0000
    ensures 0 <= a / b <= a && 0 <= a % b <= a
  {}

  /** __divdi3: the truncated quotient, reduced to 64 bits (only -2^63 / -1 does not fit). */
  method DivDi3(u: Int64, v: Int64) returns (trap: bool, w: Int64)
    ensures trap <==> v == 0
    ensures v != 0 ==> w == if u == -0x8000_0000_0000_0000 && v == -1 then u else TruncDiv(u, v)
  {
    var c := false;
    var uu, vv := ToUnsigned(u), ToUnsigned(v);
    if u < 0 {
      c := !c;
      uu := Negate(uu);
    }
    if v < 0 {
      c := !c;
      vv := Negate(vv);
    }
    var q: Word64;
    trap, q := UDivModDi4(uu, vv, null);
    if !trap {
      QuotientBounds(uu, vv);
      FullQuotient(uu, vv);
    }
    if c {
      q := Negate(q);
    }
    w := ToSigned(q);
  }

  lemma FullQuotient(a: Word64, b: Word64)
    requires b != 0 && a <= 0x8000_0000_0000_0000
    ensures a / b == 0x8000_0000_0000_0000 <==> a == 0x8000_0000_0000_0000 && b == 1
  {}

  /** __moddi3 */
  method ModDi3(u: Int64, v: Int64) returns (trap: bool, w: Int64)
    ensures trap <==> v == 0
    ensures v != 0 ==> w == TruncMod(u, v)
  {
    var c := false;
    var uu, vv := ToUnsigned(u), ToUnsigned(v);
    if u < 0 {
      c := !c;
      uu := Negate(uu);
    }
    if v < 0 {
      vv := Negate(vv);
    }
    var cell := new Cell();
    var q: Word64;
    trap, q := UDivModDi4(uu, vv, cell);
    if !trap {
      QuotientBounds(uu, vv);
      ModBelow(uu, vv);
    }
    w := ToSigned(if c then Negate(cell.ll) else cell.ll);
  }

  /** A remainder of at most 2^63 by at most 2^63 is below 2^63. */
  lemma ModBelow(a: Word64, b: Word64)
    requires 0 < b <= 0x8000_0000_0000_0000
    ensures 0 <= a % b < 0x8000_0000_0000_0000
  {}

  /** __udivdi3 and __umoddi3 */
  method UDivDi3(u: Word64, v: Word64) returns (trap: bool, w: Word64)
    ensures trap <==> v == 0
    ensures v != 0 ==> w == u / v
  {
    trap, w := UDivModDi4(u, v, null);
  }

  method UModDi3(u: Word64, v: Word64) returns (trap: bool, w: Word64)
    ensures trap <==> v == 0
    ensures v != 0 ==> w == u % v
  {
    var cell := new Cell();
    var q: Word64;
    trap, q := UDivModDi4(u, v, cell);
    w := cell.ll;
  }
}
