/** The logical-immediate encoder of the A64 back end and of its assembler. */
module LogicalImm {
  import opened Options
  import opened BitMasks

  // Trailing zeros and trailing ones, counted by halving

  /** x is what a right shift by n leaves of x0. */
  predicate Stripped(x0: bv64, x: bv64, n: bv64)
    requires n < 64
  {
    Shr(x0, n) == x
  }

  /** The n bits that the shift dropped were zeros. */
  predicate Shifted(x0: bv64, x: bv64, n: bv64)
    requires n < 64
  {
    Shl(x, n) == x0
  }

  /** The n bits that the shift dropped were ones. */
  predicate Filled(x0: bv64, x: bv64, n: bv64)
    requires n < 64
  {
    Or(Shl(x, n), Ones(n)) == x0
  }

  /** Ones from bit 0 up, and nothing above the first zero. */
  predicate IsMask(x: bv64) {
    x & (x + 1) == 0
  }

  predicate MaskKept(x0: bv64, x: bv64) {
    IsMask(x0) ==> IsMask(x)
  }

  lemma Strip32(x0: bv64, x: bv64, n: bv64)
    requires n <= 0 && Stripped(x0, x, n)
    ensures Stripped(x0, x >> 32, n + 32)
  {}

  lemma Zeros32(x0: bv64, x: bv64, n: bv64)
    requires x & 0xffff_ffff == 0 && n <= 0 && Shifted(x0, x, n)
    ensures Shifted(x0, x >> 32, n + 32)
  {}

  lemma NoZeros32(x: bv64)
    requires x & 0xffff_ffff_ffff_ffff != 0
    ensures (if x & 0xffff_ffff == 0 then x >> 32 else x) & 0xffff_ffff != 0
  {}

  lemma FilledNone(x0: bv64, x: bv64)
    requires Filled(x0, x, 0)
    ensures x0 == x
  {}

  lemma Filled32(x: bv64)
    requires !x & 0xffff_ffff == 0
    ensures Filled(x, x >> 32, 32)
  {}

  lemma Ones32(x0: bv64, x: bv64, n: bv64)
    requires !x & 0xffff_ffff == 0 && n <= 0 && Filled(x0, x, n)
    ensures Filled(x0, x >> 32, n + 32)
  {
    hide Filled;
    FilledNone(x0, x);
    Filled32(x);
  }

  lemma NoOnes32(x: bv64)
    requires !x & 0xffff_ffff_ffff_ffff != 0
    ensures !(if !x & 0xffff_ffff == 0 then x >> 32 else x) & 0xffff_ffff != 0
  {}

  lemma Mask32(x0: bv64, x: bv64)
    requires !x & 0xffff_ffff == 0 && MaskKept(x0, x)
    ensures MaskKept(x0, x >> 32)
  {}

  lemma Strip16(x0: bv64, x: bv64, n: bv64)
    requires n <= 32 && Stripped(x0, x, n)
    ensures Stripped(x0, x >> 16, n + 16)
  {}

  lemma Zeros16(x0: bv64, x: bv64, n: bv64)
    requires x & 0xffff == 0 && n <= 32 && Shifted(x0, x, n)
    ensures Shifted(x0, x >> 16, n + 16)
  {}

  lemma NoZeros16(x: bv64)
    requires x & 0xffff_ffff != 0
    ensures (if x & 0xffff == 0 then x >> 16 else x) & 0xffff != 0
  {}

  lemma Ones16(x0: bv64, x: bv64, n: bv64)
    requires !x & 0xffff == 0 && n <= 32 && Filled(x0, x, n)
    ensures Filled(x0, x >> 16, n + 16)
  {}

  lemma NoOnes16(x: bv64)
    requires !x & 0xffff_ffff != 0
    ensures !(if !x & 0xffff == 0 then x >> 16 else x) & 0xffff != 0
  {}

  lemma Mask16(x0: bv64, x: bv64)
    requires !x & 0xffff == 0 && MaskKept(x0, x)
    ensures MaskKept(x0, x >> 16)
  {}

  lemma Strip8(x0: bv64, x: bv64, n: bv64)
    requires n <= 48 && Stripped(x0, x, n)
    ensures Stripped(x0, x >> 8, n + 8)
  {}

  lemma Zeros8(x0: bv64, x: bv64, n: bv64)
    requires x & 0xff == 0 && n <= 48 && Shifted(x0, x, n)
    ensures Shifted(x0, x >> 8, n + 8)
  {}

  lemma NoZeros8(x: bv64)
    requires x & 0xffff != 0
    ensures (if x & 0xff == 0 then x >> 8 else x) & 0xff != 0
  {}

  lemma Ones8(x0: bv64, x: bv64, n: bv64)
    requires !x & 0xff == 0 && n <= 48 && Filled(x0, x, n)
    ensures Filled(x0, x >> 8, n + 8)
  {}

  lemma NoOnes8(x: bv64)
    requires !x & 0xffff != 0
    ensures !(if !x & 0xff == 0 then x >> 8 else x) & 0xff != 0
  {}

  lemma Mask8(x0: bv64, x: bv64)
    requires !x & 0xff == 0 && MaskKept(x0, x)
    ensures MaskKept(x0, x >> 8)
  {}

  lemma Strip4(x0: bv64, x: bv64, n: bv64)
    requires n <= 56 && Stripped(x0, x, n)
    ensures Stripped(x0, x >> 4, n + 4)
  {}

  lemma Zeros4(x0: bv64, x: bv64, n: bv64)
    requires x & 0xf == 0 && n <= 56 && Shifted(x0, x, n)
    ensures Shifted(x0, x >> 4, n + 4)
  {}

  lemma NoZeros4(x: bv64)
    requires x & 0xff != 0
    ensures (if x & 0xf == 0 then x >> 4 else x) & 0xf != 0
  {}

  lemma Ones4(x0: bv64, x: bv64, n: bv64)
    requires !x & 0xf == 0 && n <= 56 && Filled(x0, x, n)
    ensures Filled(x0, x >> 4, n + 4)
  {}

  lemma NoOnes4(x: bv64)
    requires !x & 0xff != 0
    ensures !(if !x & 0xf == 0 then x >> 4 else x) & 0xf != 0
  {}

  lemma Mask4(x0: bv64, x: bv64)
    requires !x & 0xf == 0 && MaskKept(x0, x)
    ensures MaskKept(x0, x >> 4)
  {}

  lemma Strip2(x0: bv64, x: bv64, n: bv64)
    requires n <= 60 && Stripped(x0, x, n)
    ensures Stripped(x0, x >> 2, n + 2)
  {}

  lemma Zeros2(x0: bv64, x: bv64, n: bv64)
    requires x & 0x3 == 0 && n <= 60 && Shifted(x0, x, n)
    ensures Shifted(x0, x >> 2, n + 2)
  {}

  lemma NoZeros2(x: bv64)
    requires x & 0xf != 0
    ensures (if x & 0x3 == 0 then x >> 2 else x) & 0x3 != 0
  {}

  lemma Ones2(x0: bv64, x: bv64, n: bv64)
    requires !x & 0x3 == 0 && n <= 60 && Filled(x0, x, n)
    ensures Filled(x0, x >> 2, n + 2)
  {}

  lemma NoOnes2(x: bv64)
    requires !x & 0xf != 0
    ensures !(if !x & 0x3 == 0 then x >> 2 else x) & 0x3 != 0
  {}

  lemma Mask2(x0: bv64, x: bv64)
    requires !x & 0x3 == 0 && MaskKept(x0, x)
    ensures MaskKept(x0, x >> 2)
  {}

  lemma HalfIs(x: bv64)
    ensures Half(x) == x >> 1
    ensures x & 0x1 == 0 ==> Double(x >> 1) == x
    ensures !x & 0x1 == 0 ==> DoubleOne(x >> 1) == x
  {}

  lemma Strip1(x0: bv64, x: bv64, n: bv64)
    requires n <= 62 && Stripped(x0, x, n)
    ensures Stripped(x0, x >> 1, n + 1)
  {
    hide Shr, Half;
    ShiftNext(x0, n, n + 1);
    HalfIs(x);
  }

  lemma FirstStep(y: bv64)
    ensures Shl(y, 1) == Double(y) && Ones(1) == 1 && Ones(0) == 0 && Shl(Double(y), 0) == Double(y)
    ensures Or(Double(y), 1) == DoubleOne(y) && Or(DoubleOne(y), 0) == DoubleOne(y)
    ensures Shl(DoubleOne(y), 0) == DoubleOne(y)
  {}

  /** The first shift made by hand */
  lemma {:induction false} ShlFirst(y: bv64, n: bv64, n': bv64)
    requires n < 63 && n' == n + 1
    ensures Shl(Double(y), n) == Shl(y, n')
    decreases n
  {
    hide Shl, Shr, Half, Double, DoubleOne, Ones, Or;
    if n == 0 {
      FirstStep(y);
    } else {
      var m := n - 1;
      ShlFirst(y, m, n);
      ShiftNext(Double(y), m, n);
      ShiftNext(y, n, n');
    }
  }

  lemma Zeros1(x0: bv64, x: bv64, n: bv64)
    requires x & 0x1 == 0 && n <= 62 && Shifted(x0, x, n)
    ensures Shifted(x0, x >> 1, n + 1)
  {
    hide Shl, Double, DoubleOne, Half;
    HalfIs(x);
    ShlFirst(x >> 1, n, n + 1);
  }

  lemma NoZeros1(x: bv64)
    requires x & 0x3 != 0
    ensures (if x & 0x1 == 0 then x >> 1 else x) & 0x1 != 0
  {}

  lemma DoubleOr(a: bv64, b: bv64)
    ensures DoubleOne(Or(a, b)) == Or(Double(a), DoubleOne(b))
  {}

  lemma {:induction false} FilledFirst(y: bv64, n: bv64, n': bv64)
    requires n < 63 && n' == n + 1
    ensures Or(Shl(DoubleOne(y), n), Ones(n)) == Or(Shl(y, n'), Ones(n'))
    decreases n
  {
    hide Shl, Shr, Half, Double, DoubleOne, Ones, Or;
    if n == 0 {
      FirstStep(y);
    } else {
      var m := n - 1;
      FilledFirst(y, m, n);
      ShiftNext(DoubleOne(y), m, n);
      ShiftNext(y, n, n');
      OnesNext(m, n);
      OnesNext(n, n');
      DoubleOr(Shl(DoubleOne(y), m), Ones(m));
      DoubleOr(Shl(y, n), Ones(n));
    }
  }

  lemma Ones1(x0: bv64, x: bv64, n: bv64)
    requires !x & 0x1 == 0 && n <= 62 && Filled(x0, x, n)
    ensures Filled(x0, x >> 1, n + 1)
  {
    hide Shl, Double, DoubleOne, Half, Ones, Or;
    HalfIs(x);
    FilledFirst(x >> 1, n, n + 1);
  }

  lemma NoOnes1(x: bv64)
    requires !x & 0x3 != 0
    ensures !(if !x & 0x1 == 0 then x >> 1 else x) & 0x1 != 0
  {}

  lemma Mask1(x0: bv64, x: bv64)
    requires !x & 0x1 == 0 && MaskKept(x0, x)
    ensures MaskKept(x0, x >> 1)
  {}

  /** n <= bound zeros are gone from x0, and x has a bit of low set. */
  predicate ZerosLeft(x0: bv64, x: bv64, n: bv64, bound: bv64, low: bv64) {
    n <= bound && n < 64 && Shifted(x0, x, n) && Stripped(x0, x, n) && x & low != 0
  }

  /** n <= bound ones are gone from x0, and x has a bit of low clear. */
  predicate OnesLeft(x0: bv64, x: bv64, n: bv64, bound: bv64, low: bv64) {
    n <= bound && n < 64 && Filled(x0, x, n) && !x & low != 0 && MaskKept(x0, x)
  }

  lemma NothingShifted(x0: bv64)
    ensures Shifted(x0, x0, 0)
  {}

  lemma NothingStripped(x0: bv64)
    ensures Stripped(x0, x0, 0)
  {}

  lemma ZeroStep32(x0: bv64, x: bv64, n: bv64)
    requires ZerosLeft(x0, x, n, 0, 0xffff_ffff_ffff_ffff)
    ensures x & 0xffff_ffff == 0 ==> ZerosLeft(x0, x >> 32, n + 32, 32, 0xffff_ffff)
    ensures x & 0xffff_ffff != 0 ==> ZerosLeft(x0, x, n, 32, 0xffff_ffff)
  {
    hide Shifted, Stripped;
    NoZeros32(x);
    if x & 0xffff_ffff == 0 {
      Zeros32(x0, x, n);
      Strip32(x0, x, n);
    }
  }

  lemma OneStep32(x0: bv64, x: bv64, n: bv64)
    requires OnesLeft(x0, x, n, 0, 0xffff_ffff_ffff_ffff)
    ensures !x & 0xffff_ffff == 0 ==> OnesLeft(x0, x >> 32, n + 32, 32, 0xffff_ffff)
    ensures !x & 0xffff_ffff != 0 ==> OnesLeft(x0, x, n, 32, 0xffff_ffff)
  {
    hide Filled, MaskKept;
    NoOnes32(x);
    if !x & 0xffff_ffff == 0 {
      Ones32(x0, x, n);
      Mask32(x0, x);
    }
  }

  lemma ZeroStep16(x0: bv64, x: bv64, n: bv64)
    requires ZerosLeft(x0, x, n, 32, 0xffff_ffff)
    ensures x & 0xffff == 0 ==> ZerosLeft(x0, x >> 16, n + 16, 48, 0xffff)
    ensures x & 0xffff != 0 ==> ZerosLeft(x0, x, n, 48, 0xffff)
  {
    hide Shifted, Stripped;
    NoZeros16(x);
    if x & 0xffff == 0 {
      Zeros16(x0, x, n);
      Strip16(x0, x, n);
    }
  }

  lemma OneStep16(x0: bv64, x: bv64, n: bv64)
    requires OnesLeft(x0, x, n, 32, 0xffff_ffff)
    ensures !x & 0xffff == 0 ==> OnesLeft(x0, x >> 16, n + 16, 48, 0xffff)
    ensures !x & 0xffff != 0 ==> OnesLeft(x0, x, n, 48, 0xffff)
  {
    hide Filled, MaskKept;
    NoOnes16(x);
    if !x & 0xffff == 0 {
      Ones16(x0, x, n);
      Mask16(x0, x);
    }
  }

  lemma ZeroStep8(x0: bv64, x: bv64, n: bv64)
    requires ZerosLeft(x0, x, n, 48, 0xffff)
    ensures x & 0xff == 0 ==> ZerosLeft(x0, x >> 8, n + 8, 56, 0xff)
    ensures x & 0xff != 0 ==> ZerosLeft(x0, x, n, 56, 0xff)
  {
    hide Shifted, Stripped;
    NoZeros8(x);
    if x & 0xff == 0 {
      Zeros8(x0, x, n);
      Strip8(x0, x, n);
    }
  }

  lemma OneStep8(x0: bv64, x: bv64, n: bv64)
    requires OnesLeft(x0, x, n, 48, 0xffff)
    ensures !x & 0xff == 0 ==> OnesLeft(x0, x >> 8, n + 8, 56, 0xff)
    ensures !x & 0xff != 0 ==> OnesLeft(x0, x, n, 56, 0xff)
  {
    hide Filled, MaskKept;
    NoOnes8(x);
    if !x & 0xff == 0 {
      Ones8(x0, x, n);
      Mask8(x0, x);
    }
  }

  lemma ZeroStep4(x0: bv64, x: bv64, n: bv64)
    requires ZerosLeft(x0, x, n, 56, 0xff)
    ensures x & 0xf == 0 ==> ZerosLeft(x0, x >> 4, n + 4, 60, 0xf)
    ensures x & 0xf != 0 ==> ZerosLeft(x0, x, n, 60, 0xf)
  {
    hide Shifted, Stripped;
    NoZeros4(x);
    if x & 0xf == 0 {
      Zeros4(x0, x, n);
      Strip4(x0, x, n);
    }
  }

  lemma OneStep4(x0: bv64, x: bv64, n: bv64)
    requires OnesLeft(x0, x, n, 56, 0xff)
    ensures !x & 0xf == 0 ==> OnesLeft(x0, x >> 4, n + 4, 60, 0xf)
    ensures !x & 0xf != 0 ==> OnesLeft(x0, x, n, 60, 0xf)
  {
    hide Filled, MaskKept;
    NoOnes4(x);
    if !x & 0xf == 0 {
      Ones4(x0, x, n);
      Mask4(x0, x);
    }
  }

  lemma ZeroStep2(x0: bv64, x: bv64, n: bv64)
    requires ZerosLeft(x0, x, n, 60, 0xf)
    ensures x & 0x3 == 0 ==> ZerosLeft(x0, x >> 2, n + 2, 62, 0x3)
    ensures x & 0x3 != 0 ==> ZerosLeft(x0, x, n, 62, 0x3)
  {
    hide Shifted, Stripped;
    NoZeros2(x);
    if x & 0x3 == 0 {
      Zeros2(x0, x, n);
      Strip2(x0, x, n);
    }
  }

  lemma OneStep2(x0: bv64, x: bv64, n: bv64)
    requires OnesLeft(x0, x, n, 60, 0xf)
    ensures !x & 0x3 == 0 ==> OnesLeft(x0, x >> 2, n + 2, 62, 0x3)
    ensures !x & 0x3 != 0 ==> OnesLeft(x0, x, n, 62, 0x3)
  {
    hide Filled, MaskKept;
    NoOnes2(x);
    if !x & 0x3 == 0 {
      Ones2(x0, x, n);
      Mask2(x0, x);
    }
  }

  lemma ZeroStep1(x0: bv64, x: bv64, n: bv64)
    requires ZerosLeft(x0, x, n, 62, 0x3)
    ensures x & 0x1 == 0 ==> ZerosLeft(x0, x >> 1, n + 1, 63, 0x1)
    ensures x & 0x1 != 0 ==> ZerosLeft(x0, x, n, 63, 0x1)
  {
    hide Shifted, Stripped;
    NoZeros1(x);
    if x & 0x1 == 0 {
      Zeros1(x0, x, n);
      Strip1(x0, x, n);
    }
  }

  lemma OneStep1(x0: bv64, x: bv64, n: bv64)
    requires OnesLeft(x0, x, n, 62, 0x3)
    ensures !x & 0x1 == 0 ==> OnesLeft(x0, x >> 1, n + 1, 63, 0x1)
    ensures !x & 0x1 != 0 ==> OnesLeft(x0, x, n, 63, 0x1)
  {
    hide Filled, MaskKept;
    NoOnes1(x);
    if !x & 0x1 == 0 {
      Ones1(x0, x, n);
      Mask1(x0, x);
    }
  }

  /** Shifts the trailing zeros out of x0, and counts them. */
  method StripZeros(x0: bv64) returns (x: bv64, pos: bv64)
    requires x0 != 0
    ensures ZerosLeft(x0, x, pos, 63, 1)
  {
    x, pos := x0, 0;
    hide ZerosLeft;
    NoZerosYet(x0);
    ZeroStep32(x0, x, pos);
    if x & 0xffff_ffff == 0 { x, pos := x >> 32, pos + 32; }
    ZeroStep16(x0, x, pos);
    if x & 0xffff == 0 { x, pos := x >> 16, pos + 16; }
    ZeroStep8(x0, x, pos);
    if x & 0xff == 0 { x, pos := x >> 8, pos + 8; }
    ZeroStep4(x0, x, pos);
    if x & 0xf == 0 { x, pos := x >> 4, pos + 4; }
    ZeroStep2(x0, x, pos);
    if x & 0x3 == 0 { x, pos := x >> 2, pos + 2; }
    ZeroStep1(x0, x, pos);
    if x & 0x1 == 0 { x, pos := x >> 1, pos + 1; }
  }

  lemma NoZerosYet(x0: bv64)
    requires x0 != 0
    ensures ZerosLeft(x0, x0, 0, 0, 0xffff_ffff_ffff_ffff)
  {
    hide Shifted, Stripped;
    NothingShifted(x0);
    NothingStripped(x0);
  }

  /** Shifts the trailing ones out of x0, and counts them. */
  method StripOnes(x0: bv64) returns (x: bv64, len: bv64)
    requires !x0 != 0
    ensures OnesLeft(x0, x, len, 63, 1)
  {
    x, len := x0, 0;
    hide OnesLeft;
    NoOnesYet(x0);
    OneStep32(x0, x, len);
    if !x & 0xffff_ffff == 0 { x, len := x >> 32, len + 32; }
    OneStep16(x0, x, len);
    if !x & 0xffff == 0 { x, len := x >> 16, len + 16; }
    OneStep8(x0, x, len);
    if !x & 0xff == 0 { x, len := x >> 8, len + 8; }
    OneStep4(x0, x, len);
    if !x & 0xf == 0 { x, len := x >> 4, len + 4; }
    OneStep2(x0, x, len);
    if !x & 0x3 == 0 { x, len := x >> 2, len + 2; }
    OneStep1(x0, x, len);
    if !x & 0x1 == 0 { x, len := x >> 1, len + 1; }
  }

  lemma NoOnesYet(x0: bv64)
    requires !x0 != 0
    ensures OnesLeft(x0, x0, 0, 0, 0xffff_ffff_ffff_ffff)
  {}

  // The field

  /** The field that arm64_encode_bimm64 assembles. */
  function Code(rep: bv64, pos: bv64, len: bv64): bv64 {
    (0x1000 & (rep << 6)) | ((((rep - 1) ^ 31) << 1) & 63) | (((rep - pos) & (rep - 1)) << 6) | (len - 1)
  }

  lemma CodeFields64(rep: bv64, pos: bv64, len: bv64)
    requires IsElementSize(rep) && rep == 64 && 0 < len < rep && pos < rep
    ensures IsCode(rep, Code(rep, pos, len), len, (rep - pos) & (rep - 1))
  {}

  lemma CodeFields32(rep: bv64, pos: bv64, len: bv64)
    requires IsElementSize(rep) && rep == 32 && 0 < len < rep && pos < rep
    ensures IsCode(rep, Code(rep, pos, len), len, (rep - pos) & (rep - 1))
  {}

  lemma CodeFields16(rep: bv64, pos: bv64, len: bv64)
    requires IsElementSize(rep) && rep == 16 && 0 < len < rep && pos < rep
    ensures IsCode(rep, Code(rep, pos, len), len, (rep - pos) & (rep - 1))
  {}

  lemma CodeFields8(rep: bv64, pos: bv64, len: bv64)
    requires IsElementSize(rep) && rep <= 8 && 0 < len < rep && pos < rep
    ensures IsCode(rep, Code(rep, pos, len), len, (rep - pos) & (rep - 1))
  {}

  /** c has element size rep, len ones and rotation r. */
  predicate IsCode(rep: bv64, c: bv64, len: bv64, r: bv64) {
    var imms := c & 63;
    && c < 0x2000 && ElementSize((c >> 12) & 1, imms) == rep
    && imms & (rep - 1) == len - 1 && ((c >> 6) & 63) & (rep - 1) == r
  }

  lemma CodeFields(rep: bv64, pos: bv64, len: bv64)
    requires IsElementSize(rep) && 0 < len < rep && pos < rep
    ensures IsCode(rep, Code(rep, pos, len), len, (rep - pos) & (rep - 1))
  {
    hide IsCode, Code;
    if rep == 64 { CodeFields64(rep, pos, len); }
    else if rep == 32 { CodeFields32(rep, pos, len); }
    else if rep == 16 { CodeFields16(rep, pos, len); }
    else { CodeFields8(rep, pos, len); }
  }

  lemma DecodeCode(rep: bv64, c: bv64, len: bv64, r: bv64)
    requires IsElementSize(rep) && 0 < len < rep && r < rep && IsCode(rep, c, len, r)
    ensures c < 0x2000 && DecodeField(c) == Some(Replicate(RotateRight(Ones(len), r, rep), rep))
  {
    hide Replicate, RotateRight, Ones, ElementSize;
  }

  // What the encoder finds, and what there is to find

  /** A run found in the low rep bits of y lies within them and off bit 0. */
  lemma RunLies(rep: bv64, e: bv64, pos: bv64, m: bv64, len: bv64)
    requires pos < 64 && len < 64 && m & 1 == 1 && m == Ones(len) && Stripped(e, m, pos) && e & 1 == 0
    requires rep == 64 || (rep <= 32 && e < 1 << rep)
    ensures 0 < pos && 0 < len && pos + len <= rep
  {}

  lemma LowFits(y: bv64, rep: bv64)
    requires IsElementSize(rep) && y & 1 == 0
    ensures Low(y, rep) & 1 == 0 && (rep == 64 || (rep <= 32 && Low(y, rep) < 1 << rep))
  {}

  lemma RunOf(rep: bv64, pos: bv64, len: bv64, e: bv64, m: bv64)
    requires pos < 64 && len < 64 && Shifted(e, m, pos) && m == Ones(len)
    ensures Run(rep, pos, len) == Replicate(e, rep)
  {}

  lemma AllOnes(m: bv64, len: bv64)
    requires len < 64 && Filled(m, 0, len)
    ensures m == Ones(len)
  {}

  lemma IsRunFrom(rep: bv64, pos: bv64, len: bv64)
    requires IsElementSize(rep) && 0 < pos < 64 && 0 < len < 64 && pos + len <= rep
    ensures Fits(rep, pos, len)
  {}

  /** Soundness: y is the run that the two counts describe. */
  lemma FoundRun(y: bv64, rep: bv64, pos: bv64, m: bv64, len: bv64)
    requires IsElementSize(rep) && Replicate(Low(y, rep), rep) == y && y & 1 == 0
    requires pos < 64 && len < 64 && m & 1 == 1
    requires Shifted(Low(y, rep), m, pos) && Stripped(Low(y, rep), m, pos) && Filled(m, 0, len)
    ensures IsRun(rep, pos, len) && y == Run(rep, pos, len)
  {
    hide Replicate, Low, Ones, Filled, Shifted, Stripped, Run, Fits, IsElementSize;
    AllOnes(m, len);
    LowFits(y, rep);
    RunLies(rep, Low(y, rep), pos, m, len);
    IsRunFrom(rep, pos, len);
    RunOf(rep, pos, len, Low(y, rep), m);
  }

  lemma StripsToOnes(rep: bv64, pos: bv64, len: bv64)
    requires IsRun(rep, pos, len)
    ensures Ones(len) & 1 == 1 && Shifted(Shl(Ones(len), pos), Ones(len), pos)
  {}

  lemma ShiftedUnique(x0: bv64, a: bv64, i: bv64, b: bv64, j: bv64)
    requires i < 64 && j < 64 && a & 1 == 1 && b & 1 == 1 && Shifted(x0, a, i) && Shifted(x0, b, j)
    ensures i == j
  {}

  lemma OnesBackLow(pos: bv64, len: bv64)
    requires 0 <= pos < 12 && len < 64 && pos + len <= 64
    ensures Shr(Shl(Ones(len), pos), pos) == Ones(len)
  {}

  lemma OnesBackMid(pos: bv64, len: bv64)
    requires 12 <= pos < 28 && len < 64 && pos + len <= 64
    ensures Shr(Shl(Ones(len), pos), pos) == Ones(len)
  {}

  lemma OnesBackHigh(pos: bv64, len: bv64)
    requires 28 <= pos < 64 && len < 64 && pos + len <= 64
    ensures Shr(Shl(Ones(len), pos), pos) == Ones(len)
  {}

  lemma OnesShiftBack(pos: bv64, len: bv64)
    requires pos < 64 && len < 64 && pos + len <= 64
    ensures Shr(Shl(Ones(len), pos), pos) == Ones(len)
  {
    hide Shl, Shr, Ones;
    if pos < 12 { OnesBackLow(pos, len); } else if pos < 28 { OnesBackMid(pos, len); } else { OnesBackHigh(pos, len); }
  }

  lemma OnesAreMask(len: bv64)
    requires len < 64
    ensures IsMask(Ones(len))
  {}

  lemma SameRest(pos: bv64, len: bv64, i: bv64, m: bv64)
    requires pos < 64 && len < 64 && i == pos && Stripped(Shl(Ones(len), pos), m, i)
    ensures m == Shr(Shl(Ones(len), pos), pos)
  {}

  /** Completeness: what strips from a run is a mask. */
  lemma RunFound(rep: bv64, pos: bv64, len: bv64, i: bv64, m: bv64)
    requires IsRun(rep, pos, len) && i < 64 && m & 1 == 1
    requires Shifted(Shl(Ones(len), pos), m, i) && Stripped(Shl(Ones(len), pos), m, i)
    ensures IsMask(m)
  {
    hide Ones, Shifted, Stripped, IsMask;
    StripsToOnes(rep, pos, len);
    ShiftedUnique(Shl(Ones(len), pos), m, i, Ones(len), pos);
    SameRest(pos, len, i, m);
    OnesShiftBack(pos, len);
    OnesAreMask(len);
  }

  /** So its stripped element is a mask. */
  lemma DecodedFound(c: bv64, y: bv64, i: bv64, m: bv64)
    requires DecodeField(c).Some? && Same(DecodeField(c).value, y) && y & 1 == 0
    requires ZerosLeft(Low(y, Period(y)), m, i, 63, 1)
    ensures y != 0 && IsMask(m)
  {
    hide DecodeMask, DecodeField, Run, Same, IsRun, Period, Low, Ones, IsMask, Shifted, Stripped;
    var rep, pos, len := DecodedRun(c, y);
    RunPeriod(rep, pos, len);
    RunFound(rep, pos, len, i, m);
  }

  /** The predicates of the field of a run. */
  predicate IsPlainTurn(rep: bv64, pos: bv64, len: bv64, r: bv64) {
    0 < len <= r < rep && rep - r == pos
  }

  /** And of the complement of a run. */
  predicate IsNegatedTurn(rep: bv64, pos: bv64, len: bv64, p: bv64, l: bv64, r: bv64) {
    p < rep && 0 < l < rep && r < l && r < rep && l - r == pos && rep - l == len
  }

  lemma PlainTurn64(rep: bv64, pos: bv64, len: bv64, r: bv64)
    requires rep == 64 && Fits(rep, pos, len) && r == (rep - pos) & (rep - 1)
    ensures IsPlainTurn(rep, pos, len, r)
  {}

  lemma NegatedTurn64(rep: bv64, pos: bv64, len: bv64, p: bv64, r: bv64)
    requires rep == 64 && Fits(rep, pos, len) && p == (pos + len) & (rep - 1) && r == (rep - p) & (rep - 1)
    ensures IsNegatedTurn(rep, pos, len, p, rep - len, r)
  {}

  lemma PlainTurn32(rep: bv64, pos: bv64, len: bv64, r: bv64)
    requires rep == 32 && Fits(rep, pos, len) && r == (rep - pos) & (rep - 1)
    ensures IsPlainTurn(rep, pos, len, r)
  {}

  lemma NegatedTurn32(rep: bv64, pos: bv64, len: bv64, p: bv64, r: bv64)
    requires rep == 32 && Fits(rep, pos, len) && p == (pos + len) & (rep - 1) && r == (rep - p) & (rep - 1)
    ensures IsNegatedTurn(rep, pos, len, p, rep - len, r)
  {}

  lemma PlainTurnSmall(rep: bv64, pos: bv64, len: bv64, r: bv64)
    requires (rep == 2 || rep == 4 || rep == 8 || rep == 16) && Fits(rep, pos, len) && r == (rep - pos) & (rep - 1)
    ensures IsPlainTurn(rep, pos, len, r)
  {
    if rep == 16 {} else if rep == 8 {} else if rep == 4 {}
  }

  lemma NegatedTurnSmall(rep: bv64, pos: bv64, len: bv64, p: bv64, r: bv64)
    requires (rep == 2 || rep == 4 || rep == 8 || rep == 16) && Fits(rep, pos, len) && p == (pos + len) & (rep - 1)
    requires r == (rep - p) & (rep - 1)
    ensures IsNegatedTurn(rep, pos, len, p, rep - len, r)
  {
    if rep == 16 {} else if rep == 8 {} else if rep == 4 {}
  }

  lemma PlainTurn(rep: bv64, pos: bv64, len: bv64, r: bv64)
    requires IsRun(rep, pos, len) && r == (rep - pos) & (rep - 1)
    ensures IsPlainTurn(rep, pos, len, r)
  {
    hide Fits, IsPlainTurn;
    if rep == 64 {
      PlainTurn64(rep, pos, len, r);
    } else if rep == 32 {
      PlainTurn32(rep, pos, len, r);
    } else {
      PlainTurnSmall(rep, pos, len, r);
    }
  }

  lemma NegatedTurn(rep: bv64, pos: bv64, len: bv64, p: bv64, r: bv64)
    requires IsRun(rep, pos, len) && p == (pos + len) & (rep - 1) && r == (rep - p) & (rep - 1)
    ensures IsNegatedTurn(rep, pos, len, p, rep - len, r)
  {
    hide Fits, IsNegatedTurn;
    if rep == 64 {
      NegatedTurn64(rep, pos, len, p, r);
    } else if rep == 32 {
      NegatedTurn32(rep, pos, len, p, r);
    } else {
      NegatedTurnSmall(rep, pos, len, p, r);
    }
  }

  lemma PlainRun(rep: bv64, pos: bv64, len: bv64, r: bv64)
    requires IsRun(rep, pos, len) && IsPlainTurn(rep, pos, len, r)
    ensures pos < rep && Replicate(RotateRight(Ones(len), r, rep), rep) == Run(rep, pos, len)
  {
    hide Replicate, RotateRight, Ones, Run;
    RotatedInside(rep, len, r);
  }

  lemma NegatedRun(rep: bv64, pos: bv64, len: bv64, p: bv64, l: bv64, r: bv64)
    requires IsRun(rep, pos, len) && IsNegatedTurn(rep, pos, len, p, l, r)
    ensures p < rep && 0 < l < rep && r < rep && Replicate(RotateRight(Ones(l), r, rep), rep) == !Run(rep, pos, len)
  {
    hide Replicate, RotateRight, Ones, Run;
    RotatedWraps(rep, l, r);
  }

  lemma PlainCodeOf(rep: bv64, pos: bv64, len: bv64, r: bv64)
    requires IsRun(rep, pos, len) && IsPlainTurn(rep, pos, len, r) && r == (rep - pos) & (rep - 1)
    ensures Code(rep, pos, len) < 0x2000 && DecodeField(Code(rep, pos, len)) == Some(Run(rep, pos, len))
  {
    hide DecodeField, Code, Replicate, RotateRight, Ones, Run, IsCode, IsRun, IsPlainTurn, IsElementSize;
    RunSize(rep, pos, len);
    PlainRun(rep, pos, len, r);
    CodeFields(rep, pos, len);
    DecodeCode(rep, Code(rep, pos, len), len, r);
  }

  /** The field for rep, pos and len decodes to their run, or to its complement once turned. */
  lemma PlainCode(rep: bv64, pos: bv64, len: bv64)
    requires IsRun(rep, pos, len)
    ensures Code(rep, pos, len) < 0x2000 && DecodeField(Code(rep, pos, len)) == Some(Run(rep, pos, len))
  {
    hide DecodeField, Code, Run, IsRun, IsPlainTurn;
    RunRange(rep, pos, len);
    PlainTurn(rep, pos, len, (rep - pos) & (rep - 1));
    PlainCodeOf(rep, pos, len, (rep - pos) & (rep - 1));
  }

  lemma RunSize(rep: bv64, pos: bv64, len: bv64)
    requires IsRun(rep, pos, len)
    ensures IsElementSize(rep) && rep <= 64 && pos < rep && 0 < len < rep
  {}

  lemma NegatedCodeOf(rep: bv64, pos: bv64, len: bv64, p: bv64, l: bv64, r: bv64)
    requires IsRun(rep, pos, len) && IsNegatedTurn(rep, pos, len, p, l, r) && r == (rep - p) & (rep - 1)
    ensures Code(rep, p, l) < 0x2000 && DecodeField(Code(rep, p, l)) == Some(!Run(rep, pos, len))
  {
    hide DecodeField, Code, Replicate, RotateRight, Ones, Run, IsCode, IsRun, IsNegatedTurn, IsElementSize;
    RunSize(rep, pos, len);
    NegatedRun(rep, pos, len, p, l, r);
    CodeFields(rep, p, l);
    DecodeCode(rep, Code(rep, p, l), l, r);
  }

  lemma NegatedCode(rep: bv64, pos: bv64, len: bv64, p: bv64)
    requires pos < 64 && len < 64 && IsRun(rep, pos, len) && p == (pos + len) & (rep - 1)
    ensures Code(rep, p, rep - len) < 0x2000 && DecodeField(Code(rep, p, rep - len)) == Some(!Run(rep, pos, len))
  {
    hide DecodeField, Code, Run, IsRun, IsNegatedTurn;
    NegatedTurn(rep, pos, len, p, (rep - p) & (rep - 1));
    NegatedCodeOf(rep, pos, len, p, rep - len, (rep - p) & (rep - 1));
  }

  lemma SameAsEven(x: bv64, y: bv64)
    requires y == if x & 1 == 1 then !x else x
    ensures y & 1 == 0 && Same(x, y)
  {}

  /** No field decodes to x. */
  ghost predicate Unencodable(x: bv64) {
    forall c :: DecodeField(c) != Some(x)
  }

  lemma ZeroUnencodable(x: bv64)
    requires Same(x, 0)
    ensures Unencodable(x)
  {
    hide DecodeField, Same, IsRun, Run;
    forall c ensures DecodeField(c) != Some(x) {
      if DecodeField(c) == Some(x) {
        var _, _, _ := DecodedRun(c, 0);
      }
    }
  }

  lemma NotMaskUnencodable(x: bv64, y: bv64, i: bv64, m: bv64)
    requires Same(x, y) && y & 1 == 0 && !IsMask(m)
    requires ZerosLeft(Low(y, Period(y)), m, i, 63, 1)
    ensures Unencodable(x)
  {
    hide DecodeField, Same, IsMask, ZerosLeft, Period, Low;
    forall c ensures DecodeField(c) != Some(x) {
      if DecodeField(c) == Some(x) {
        DecodedFound(c, y, i, m);
      }
    }
  }

  /** The element that y repeats. */
  method FindPeriod(y: bv64) returns (rep: bv64, x: bv64)
    ensures rep == Period(y) && x == Low(y, Period(y))
  {
    hide Low;
    Low2(y);
    Low4(y);
    Low8(y);
    Low16(y);
    Low32(y);
    Low64(y);
    x := y;
    if x >> 2 == x & 0x3fff_ffff_ffff_ffff { rep, x := 2, x & 0x3; }
    else if x >> 4 == x & 0xfff_ffff_ffff_ffff { rep, x := 4, x & 0xf; }
    else if x >> 8 == x & 0xff_ffff_ffff_ffff { rep, x := 8, x & 0xff; }
    else if x >> 16 == x & 0xffff_ffff_ffff { rep, x := 16, x & 0xffff; }
    else if x >> 32 == x & 0xffff_ffff { rep, x := 32, x & 0xffff_ffff; }
    else { rep := 64; }
  }

  lemma Low2(x: bv64)
    ensures Low(x, 2) == x & 0x3
  {}

  lemma Low4(x: bv64)
    ensures Low(x, 4) == x & 0xf
  {}

  lemma Low8(x: bv64)
    ensures Low(x, 8) == x & 0xff
  {}

  lemma Low16(x: bv64)
    ensures Low(x, 16) == x & 0xffff
  {}

  lemma Low32(x: bv64)
    ensures Low(x, 32) == x & 0xffff_ffff
  {}

  lemma Low64(x: bv64)
    ensures Low(x, 64) == x
  {}

  lemma PeriodIsSize(y: bv64)
    ensures IsElementSize(Period(y))
  {}

  lemma LowNotZero(y: bv64)
    requires y != 0
    ensures Low(y, Period(y)) != 0
  {}

  lemma ElementEven(y: bv64)
    requires y & 1 == 0
    ensures Low(y, Period(y)) & 1 == 0
  {}

  lemma NoFieldFor(x: bv64)
    requires Unencodable(x)
    ensures forall c :: DecodeField(c) != Some(x)
  {
    hide DecodeField;
  }

  lemma StrippedNotOnes(e: bv64, m: bv64, i: bv64)
    requires ZerosLeft(e, m, i, 63, 1) && e & 1 == 0
    ensures !m != 0
  {}

  /** arm64_encode_bimm64, and arm64_asm_encode_bimm64, which is the same function: the field
      found decodes to x0, and where none is found no field decodes to x0. */
  method EncodeBimm64(x0: bv64) returns (r: Option<bv64>)
    ensures r.Some? ==> r.value < 0x2000 && DecodeField(r.value) == Some(x0)
    ensures r.None? ==> Unencodable(x0) && forall c :: DecodeField(c) != Some(x0)
  {
    hide DecodeField, Unencodable, Same, IsMask, ZerosLeft, OnesLeft, Period, Low, Code, Run, IsRun;
    var x := x0;
    var neg := x & 1 == 1;
    if neg {
      x := !x;
    }
    ghost var y := x;
    SameAsEven(x0, y);
    if x == 0 {
      ZeroUnencodable(x0);
      NoFieldFor(x0);
      return None;
    }
    LowNotZero(y);
    var rep, pos, len;
    rep, x := FindPeriod(x);
    ElementEven(y);
    x, pos := StripZeros(x);
    ghost var m := x;
    StrippedNotOnes(Low(y, Period(y)), m, pos);
    x, len := StripOnes(x);
    if x != 0 {
      NotMaskLeft(m, x, len);
      NotMaskUnencodable(x0, y, pos, m);
      NoFieldFor(x0);
      return None;
    }
    FoundPeriod(y, pos, m, len);
    if neg {
      RunRange(rep, pos, len);
      NegatedCode(rep, pos, len, (pos + len) & (rep - 1));
      pos := (pos + len) & (rep - 1);
      len := rep - len;
    } else {
      PlainCode(rep, pos, len);
    }
    return Some(Code(rep, pos, len));
  }

  lemma NotMaskLeft(m: bv64, x: bv64, len: bv64)
    requires OnesLeft(m, x, len, 63, 1) && x != 0
    ensures !IsMask(m)
  {}

  lemma FoundPeriod(y: bv64, pos: bv64, m: bv64, len: bv64)
    requires y & 1 == 0 && ZerosLeft(Low(y, Period(y)), m, pos, 63, 1) && OnesLeft(m, 0, len, 63, 1)
    ensures IsRun(Period(y), pos, len) && y == Run(Period(y), pos, len)
  {
    hide Replicate, Low, Filled, Shifted, Stripped, Run, IsRun, Period, MaskKept;
    PeriodIsSize(y);
    PeriodRepeats(y);
    FoundRun(y, Period(y), pos, m, len);
  }
}
