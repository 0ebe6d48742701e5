/** The logical immediates of A64: the masks that DecodeBitMasks (Arm ARM DDI 0487, pseudocode
    chapter J1) gives, and what they look like. Each mask, or its complement, is a run of ones
    that does not reach bit 0, repeated with its element size. */
module BitMasks {
  import opened Options

  function Shl(x: bv64, n: bv64): bv64
    requires n < 64
  {
    x << n
  }

  function Shr(x: bv64, n: bv64): bv64
    requires n < 64
  {
    x >> n
  }

  function Half(x: bv64): bv64 {
    x >> 1
  }

  function Double(x: bv64): bv64 {
    x << 1
  }

  function DoubleOne(x: bv64): bv64 {
    (x << 1) | 1
  }

  function Not(x: bv64): bv64 {
    !x
  }

  function Or(x: bv64, y: bv64): bv64 {
    x | y
  }

  function And(x: bv64, y: bv64): bv64 {
    x & y
  }

  /** The bits of x that are not in y. */
  function Without(x: bv64, y: bv64): bv64 {
    And(x, Not(y))
  }

  /** n ones */
  function Ones(n: bv64): bv64
    requires n < 64
  {
    (1 << n) - 1
  }

  predicate IsElementSize(e: bv64) {
    e == 2 || e == 4 || e == 8 || e == 16 || e == 32 || e == 64
  }

  /** e ones, for an element size e */
  function ElementMask(e: bv64): bv64 {
    if e == 64 then 0xffff_ffff_ffff_ffff
    else if e == 32 then 0xffff_ffff
    else if e == 16 then 0xffff
    else if e == 8 then 0xff
    else if e == 4 then 0xf
    else 0x3
  }

  /** The low e bits, for an element size e. */
  function Low(x: bv64, e: bv64): bv64 {
    And(x, ElementMask(e))
  }

  /** 2 to the highest set bit of N:NOT(imms). */
  function ElementSize(n: bv64, imms: bv64): bv64 {
    if n == 1 then 64
    else if imms & 0x20 == 0 then 32
    else if imms & 0x10 == 0 then 16
    else if imms & 0x8 == 0 then 8
    else if imms & 0x4 == 0 then 4
    else if imms & 0x2 == 0 then 2
    else 1
  }

  function Replicate(x: bv64, e: bv64): bv64 {
    var x := if e <= 2 then x | (x << 2) else x;
    var x := if e <= 4 then x | (x << 4) else x;
    var x := if e <= 8 then x | (x << 8) else x;
    var x := if e <= 16 then x | (x << 16) else x;
    if e <= 32 then x | (x << 32) else x
  }

  function RotateRight(x: bv64, r: bv64, e: bv64): bv64
    requires r < e <= 64
  {
    if r == 0 then x else Low(Or(Shr(x, r), Shl(x, e - r)), e)
  }

  /** The mask that N, immr, imms stand for, if any. */
  function DecodeMask(n: bv64, immr: bv64, imms: bv64): Option<bv64> {
    var e := ElementSize(n, imms);
    var s, r := imms & (e - 1), immr & (e - 1);
    ElementFields(n, immr, imms, e, s, r);
    if e < 2 || s == e - 1 then None
    else Some(Replicate(RotateRight(Ones(s + 1), r, e), e))
  }

  lemma ElementFields(n: bv64, immr: bv64, imms: bv64, e: bv64, s: bv64, r: bv64)
    requires e == ElementSize(n, imms) && s == imms & (e - 1) && r == immr & (e - 1)
    ensures e < 2 || (r < e <= 64 && (s == e - 1 || s + 1 < 64))
  {
    hide ElementSize, IsElementSize, InElement;
    if e >= 2 {
      SizeIs(n, imms);
      Field(e, imms, s);
      Field(e, immr, r);
      SizeRange(e);
      InElementRange(e, s);
      InElementRange(e, r);
    }
  }

  lemma SizeIs(n: bv64, imms: bv64)
    ensures ElementSize(n, imms) < 2 || IsElementSize(ElementSize(n, imms))
  {}

  /** DecodeMask on the 13-bit field N:immr:imms. */
  function DecodeField(c: bv64): Option<bv64> {
    DecodeMask((c >> 12) & 1, (c >> 6) & 63, c & 63)
  }

  /** len ones starting at pos, repeated every e bits. */
  function Run(e: bv64, pos: bv64, len: bv64): bv64
    requires pos < 64 && len < 64
  {
    Replicate(Shl(Ones(len), pos), e)
  }

  predicate IsRun(e: bv64, pos: bv64, len: bv64) {
    IsElementSize(e) && Fits(e, pos, len)
  }

  predicate Fits(e: bv64, pos: bv64, len: bv64) {
    0 < len < e && 0 < pos < e && pos + len <= e
  }

  // Shifted ones

  lemma ShrNextLow(x: bv64, n: bv64)
    requires 0 <= n < 6
    ensures Shr(x, n + 1) == Half(Shr(x, n))
  {}

  lemma ShlNextLow(x: bv64, n: bv64)
    requires 0 <= n < 6
    ensures Shl(x, n + 1) == Double(Shl(x, n))
  {}

  lemma ShrNextMid(x: bv64, n: bv64)
    requires 6 <= n < 14
    ensures Shr(x, n + 1) == Half(Shr(x, n))
  {}

  lemma ShlNextMid(x: bv64, n: bv64)
    requires 6 <= n < 14
    ensures Shl(x, n + 1) == Double(Shl(x, n))
  {}

  lemma ShrNextUpper(x: bv64, n: bv64)
    requires 14 <= n < 20
    ensures Shr(x, n + 1) == Half(Shr(x, n))
  {}

  lemma ShrNextHigh(x: bv64, n: bv64)
    requires 20 <= n < 28
    ensures Shr(x, n + 1) == Half(Shr(x, n))
  {}

  lemma ShlNextHigh(x: bv64, n: bv64)
    requires 14 <= n < 28
    ensures Shl(x, n + 1) == Double(Shl(x, n))
  {}

  lemma ShrNextTop(x: bv64, n: bv64)
    requires 28 <= n < 63
    ensures Shr(x, n + 1) == Half(Shr(x, n))
  {}

  lemma ShlNextTop(x: bv64, n: bv64)
    requires 28 <= n < 63
    ensures Shl(x, n + 1) == Double(Shl(x, n))
  {}

  /** Shifts by one more */
  lemma ShiftNext(x: bv64, n: bv64, n': bv64)
    requires n < 63 && n' == n + 1
    ensures n' < 64 && Shr(x, n') == Half(Shr(x, n)) && Shl(x, n') == Double(Shl(x, n))
  {
    hide Shr, Shl, Half, Double;
    if n < 6 {
      ShrNextLow(x, n);
      ShlNextLow(x, n);
    } else if n < 14 {
      ShrNextMid(x, n);
      ShlNextMid(x, n);
    } else if n < 28 {
      if n < 20 { ShrNextUpper(x, n); } else { ShrNextHigh(x, n); }
      ShlNextHigh(x, n);
    } else {
      ShrNextTop(x, n);
      ShlNextTop(x, n);
    }
  }

  lemma NoShift(x: bv64)
    ensures Shr(x, 0) == x && Shl(x, 0) == x && Ones(0) == 0 && Half(0) == 0
  {}

  lemma OnesHalf(n: bv64, n': bv64)
    requires n < 63 && n' == n + 1
    ensures n' < 64 && Half(Ones(n')) == Ones(n)
  {}

  lemma {:induction false} ShrOnes(l: bv64, r: bv64, m: bv64)
    requires m < 64 && r < 64 && m + r < 64 && l == m + r
    ensures l < 64 && Shr(Ones(l), r) == Ones(m)
    decreases r
  {
    hide Ones, Shr, Half;
    if r == 0 {
      NoShift(Ones(l));
    } else {
      var r', m' := r - 1, m + 1;
      ShrOnes(l, r', m');
      ShiftNext(Ones(l), r', r);
      OnesHalf(m, m');
    }
  }

  lemma {:induction false} NoOnesLeft(l: bv64, r: bv64)
    requires l <= r < 64
    ensures Shr(Ones(l), r) == 0
    decreases r
  {
    hide Ones, Shr, Half;
    NoShift(0);
    if r == l {
      ShrOnes(l, l, 0);
    } else {
      var r' := r - 1;
      NoOnesLeft(l, r');
      ShiftNext(Ones(l), r', r);
    }
  }

  lemma OnesNext(n: bv64, n': bv64)
    requires n < 63 && n' == n + 1
    ensures n' < 64 && Ones(n') == DoubleOne(Ones(n))
  {}

  lemma DoubleWithout(x: bv64, y: bv64)
    ensures Double(Without(x, y)) == Without(DoubleOne(x), DoubleOne(y))
  {}

  lemma WithoutNothing(x: bv64)
    ensures Without(x, 0) == x
  {}

  predicate IsSum(n: bv64, p: bv64, s: bv64) {
    n < 64 && p < 64 && n + p < 64 && s == n + p && s < 64
  }

  predicate IsNext(n: bv64, n': bv64) {
    n < 63 && n' == n + 1
  }

  lemma SumStep(n: bv64, p: bv64, s: bv64)
    requires IsSum(n, p, s) && p != 0
    ensures IsSum(n, p - 1, s - 1) && IsNext(p - 1, p) && IsNext(s - 1, s) && p - 1 < p
  {}

  lemma SumRange(n: bv64, p: bv64, s: bv64)
    requires IsSum(n, p, s)
    ensures n < 64 && p < 64 && s < 64 && (p == 0 ==> s == n)
  {}

  /** One step of ShiftedOnes */
  lemma ShiftedNext(x: bv64, p': bv64, p: bv64, s': bv64, s: bv64)
    requires IsNext(p', p) && IsNext(s', s)
    requires p' < 63 && s' < 63 && Shl(x, p') == Without(Ones(s'), Ones(p'))
    ensures p < 64 && s < 64 && Shl(x, p) == Without(Ones(s), Ones(p))
  {
    hide Ones, Shl, Shr, Half, Double, DoubleOne, Without;
    ShiftNext(x, p', p);
    OnesNext(p', p);
    OnesNext(s', s);
    DoubleWithout(Ones(s'), Ones(p'));
  }

  lemma NextRange(n: bv64, n': bv64)
    requires IsNext(n, n')
    ensures n < 63 && n' < 64
  {}

  /** Ones shifted up by p lie between p and s. */
  lemma {:induction false} OnesShifted(n: bv64, p: bv64, s: bv64)
    requires IsSum(n, p, s)
    ensures n < 64 && p < 64 && s < 64 && Shl(Ones(n), p) == Without(Ones(s), Ones(p))
    decreases p
  {
    hide Ones, Shl, Without, IsSum, IsNext;
    SumRange(n, p, s);
    if p == 0 {
      NoShift(Ones(n));
      WithoutNothing(Ones(n));
    } else {
      SumStep(n, p, s);
      var p', s' := p - 1, s - 1;
      OnesShifted(n, p', s');
      NextRange(p', p);
      NextRange(s', s);
      ShiftedNext(Ones(n), p', p, s', s);
    }
  }

  lemma ShiftedOnes(n: bv64, p: bv64, s: bv64)
    requires n < 64 && p < 64 && n + p < 64 && s == n + p
    ensures s < 64 && Shl(Ones(n), p) == Without(Ones(s), Ones(p))
  {
    hide Ones, Shl, Without;
    OnesShifted(n, p, s);
  }

  /** Or they reach the top. */
  lemma TopOnes(n: bv64, p: bv64)
    requires n < 64 && p < 64 && 64 <= n + p
    ensures Shl(Ones(n), p) == Not(Ones(p))
  {}

  lemma OnesFit(n: bv64, e: bv64)
    requires IsElementSize(e) && n < 64 && n <= e
    ensures Low(Ones(n), e) == Ones(n)
  {}

  lemma OnesFill(n: bv64, e: bv64)
    requires IsElementSize(e) && e <= n < 64
    ensures Low(Ones(n), e) == ElementMask(e)
  {}

  /** Ones shifted up to the end of the element and beyond fill it from p on. */
  lemma FilledFrom(e: bv64, n: bv64, p: bv64, s: bv64)
    requires IsElementSize(e) && n < 64 && p < 64 && s == n + p && e <= s
    ensures Low(Shl(Ones(n), p), e) == Low(Not(Ones(p)), e)
  {
    hide Ones, Shl, Low, IsElementSize, ElementMask, Not, Or, Without;
    if s < 64 {
      ShiftedOnes(n, p, s);
      OnesFill(s, e);
      FillBits(Ones(p), Ones(s), e);
    } else {
      TopOnes(n, p);
    }
  }

  lemma AndTwice(x: bv64, y: bv64, z: bv64)
    ensures And(And(x, y), z) == And(y, And(x, z))
  {}

  lemma FillBits(a: bv64, b: bv64, e: bv64)
    requires Low(b, e) == ElementMask(e)
    ensures Low(Without(b, a), e) == Low(Not(a), e)
  {
    hide ElementMask, And, Not;
    AndTwice(b, Not(a), ElementMask(e));
  }

  /** And if they end within the element nothing is lost. */
  lemma ShiftedFit(e: bv64, n: bv64, p: bv64, s: bv64)
    requires IsElementSize(e) && n < 64 && p < 64 && s == n + p && s <= e
    ensures Low(Shl(Ones(n), p), e) == Shl(Ones(n), p)
  {
    hide Ones, Shl, Low, IsElementSize, Not, Or, Without;
    if s < 64 {
      ShiftedOnes(n, p, s);
      OnesFit(s, e);
      InsideMask(Ones(s), Ones(p), e);
    } else {
      SizeRange(e);
      LowAll(Shl(Ones(n), p), e);
    }
  }

  lemma InsideMask(b: bv64, a: bv64, e: bv64)
    requires Low(b, e) == b
    ensures Low(Without(b, a), e) == Without(b, a)
  {
    hide ElementMask;
  }

  lemma LowAll(x: bv64, e: bv64)
    requires e == 64
    ensures Low(x, e) == x
  {}

  lemma SizeRange(e: bv64)
    requires IsElementSize(e)
    ensures 2 <= e <= 64
  {}

  lemma ReplicateNot64(v: bv64, e: bv64)
    requires e == 64
    ensures Replicate(Low(Not(v), e), e) == Not(Replicate(Low(v, e), e))
  {
    hide Replicate, Low, Not, Or, Without;
    LowAll(v, e);
    LowAll(Not(v), e);
    ReplicateOnce(v, e);
    ReplicateOnce(Not(v), e);
  }

  lemma ReplicateOnce(v: bv64, e: bv64)
    requires e == 64
    ensures Replicate(v, e) == v
  {}

  lemma ReplicateNot32(v: bv64, e: bv64)
    requires e == 32
    ensures Replicate(Low(Not(v), e), e) == Not(Replicate(Low(v, e), e))
  {}

  lemma ReplicateNot16(v: bv64, e: bv64)
    requires e == 16
    ensures Replicate(Low(Not(v), e), e) == Not(Replicate(Low(v, e), e))
  {}

  lemma ReplicateNot8(v: bv64, e: bv64)
    requires e == 8
    ensures Replicate(Low(Not(v), e), e) == Not(Replicate(Low(v, e), e))
  {}

  lemma ReplicateNot4(v: bv64, e: bv64)
    requires e == 4
    ensures Replicate(Low(Not(v), e), e) == Not(Replicate(Low(v, e), e))
  {}

  lemma ReplicateNot2(v: bv64, e: bv64)
    requires e == 2
    ensures Replicate(Low(Not(v), e), e) == Not(Replicate(Low(v, e), e))
  {}

  lemma ReplicateNot(v: bv64, e: bv64)
    requires IsElementSize(e)
    ensures Replicate(Low(Not(v), e), e) == Not(Replicate(Low(v, e), e))
  {
    hide Replicate, Low, Not, Or, Without;
    if e == 64 { ReplicateNot64(v, e); }
    else if e == 32 { ReplicateNot32(v, e); }
    else if e == 16 { ReplicateNot16(v, e); }
    else if e == 8 { ReplicateNot8(v, e); }
    else if e == 4 { ReplicateNot4(v, e); }
    else { ReplicateNot2(v, e); }
  }

  // Rotated ones

  /** For l ones rotated right by r in an element: n zeros start at p and end before s. */
  predicate IsWrap(e: bv64, l: bv64, r: bv64, n: bv64, p: bv64, s: bv64) {
    && IsElementSize(e) && r < l < e <= 64 && n < 64 && p < 64 && s <= e && (0 < r ==> s < 64)
    && l == p + r && s == n + p && s == e - r && e <= l + s && e == n + l
  }

  lemma WrapIndices(e: bv64, l: bv64, r: bv64)
    requires IsElementSize(e) && r < l < e
    ensures IsWrap(e, l, r, e - l, l - r, e - r) && l < 64 && e - l < 64 && l - r < 64
  {
    if e == 64 {} else if e == 32 {} else if e == 16 {} else if e == 8 {} else if e == 4 {}
  }

  lemma WrapBits(a: bv64, u: bv64, b: bv64, e: bv64)
    requires Low(u, e) == Low(Not(b), e)
    ensures Low(Or(a, u), e) == Low(Not(Without(b, a)), e)
  {
    hide ElementMask;
  }

  lemma EdgeBits(a: bv64, b: bv64, e: bv64)
    requires Low(b, e) == ElementMask(e) && Low(a, e) == a
    ensures a == Low(Not(Without(b, a)), e)
  {
    hide ElementMask;
  }

  lemma RotateIs(x: bv64, r: bv64, e: bv64, s: bv64)
    requires r < e <= 64 && s == e - r && (0 < r ==> s < 64)
    ensures RotateRight(x, r, e) == if r == 0 then x else Low(Or(Shr(x, r), Shl(x, s)), e)
  {
    hide Shl, Shr, Low, Not, Or, Without;
  }

  lemma WrapParts(e: bv64, l: bv64, r: bv64, n: bv64, p: bv64, s: bv64)
    requires IsWrap(e, l, r, n, p, s) && 0 < r && l < 64
    ensures n < 64 && p < 64 && s < 64 && r < e <= 64
    ensures RotateRight(Ones(l), r, e) == Low(Or(Shr(Ones(l), r), Shl(Ones(l), s)), e)
    ensures Shr(Ones(l), r) == Ones(p) && Low(Shl(Ones(l), s), e) == Low(Not(Ones(s)), e)
    ensures Shl(Ones(n), p) == Without(Ones(s), Ones(p))
  {
    hide RotateRight, Low, Ones, Shl, Shr, IsElementSize, Not, Or, Without;
    RotateIs(Ones(l), r, e, s);
    ShrOnes(l, r, p);
    FilledFrom(e, l, s, l + s);
    ShiftedOnes(n, p, s);
  }

  lemma UnrotatedParts(e: bv64, l: bv64, r: bv64, n: bv64, p: bv64, s: bv64)
    requires IsWrap(e, l, r, n, p, s) && r == 0 && l < 64
    ensures n < 64 && p < 64 && r < e <= 64 && IsElementSize(e) && l < e && e == n + l && p == l
    ensures RotateRight(Ones(l), r, e) == Ones(l)
  {
    hide Low, Ones, Shl, Shr, IsElementSize, Not, Or, Without;
  }

  /** The zeros of rotated ones that reach bit 0 are a run. */
  lemma WrapElement(e: bv64, l: bv64, r: bv64, n: bv64, p: bv64, s: bv64)
    requires IsWrap(e, l, r, n, p, s) && l < 64 && n < 64 && p < 64 && r < e <= 64
    ensures RotateRight(Ones(l), r, e) == Low(Not(Shl(Ones(n), p)), e)
  {
    hide RotateRight, Low, Ones, Shl, Shr, IsWrap, Not, Or, Without;
    if r > 0 {
      WrapParts(e, l, r, n, p, s);
      WrapBits(Ones(p), Shl(Ones(l), s), Ones(s), e);
    } else {
      UnrotatedParts(e, l, r, n, p, s);
      UnrotatedElement(e, l, n);
    }
  }

  lemma UnrotatedElement(e: bv64, l: bv64, n: bv64)
    requires IsElementSize(e) && l < e <= 64 && n < 64 && e == n + l
    ensures Ones(l) == Low(Not(Shl(Ones(n), l)), e)
  {
    hide Low, Ones, Shl, IsElementSize, ElementMask, Not, Or, Without;
    OnesFit(l, e);
    if e < 64 {
      ShiftedOnes(n, l, e);
      OnesFill(e, e);
      EdgeBits(Ones(l), Ones(e), e);
    } else {
      TopOnes(n, l);
      NotNot(Ones(l));
    }
  }

  lemma NotNot(x: bv64)
    ensures Not(Not(x)) == x
  {}

  lemma WrapFit(e: bv64, l: bv64, r: bv64, n: bv64, p: bv64, s: bv64)
    requires IsWrap(e, l, r, n, p, s)
    ensures n < 64 && p < 64 && IsElementSize(e) && Low(Shl(Ones(n), p), e) == Shl(Ones(n), p)
  {
    hide Ones, Shl, Low, IsElementSize, Not, Or, Without;
    ShiftedFit(e, n, p, s);
  }

  lemma WrapMask(e: bv64, l: bv64, r: bv64, n: bv64, p: bv64, s: bv64)
    requires IsWrap(e, l, r, n, p, s) && l < 64 && n < 64 && p < 64 && r < e <= 64
    ensures Replicate(RotateRight(Ones(l), r, e), e) == Not(Run(e, p, n))
  {
    hide Replicate, RotateRight, Ones, Shl, Low, IsElementSize, IsWrap, Not, Or, Without;
    WrapElement(e, l, r, n, p, s);
    WrapFit(e, l, r, n, p, s);
    ReplicateNot(Shl(Ones(n), p), e);
  }

  /** A rotated run that reaches bit 0 is the complement of a run that does not. */
  lemma RotatedWraps(e: bv64, l: bv64, r: bv64)
    requires IsElementSize(e) && 0 < l < e && r < l
    ensures Replicate(RotateRight(Ones(l), r, e), e) == !Run(e, l - r, e - l)
  {
    hide Replicate, RotateRight, Ones, Run, IsElementSize, IsWrap;
    SizeRange(e);
    WrapIndices(e, l, r);
    WrapMask(e, l, r, e - l, l - r, e - r);
  }

  lemma InsideIndices(e: bv64, l: bv64, r: bv64, p: bv64)
    requires IsElementSize(e) && 0 < l <= r < e && p == e - r
    ensures l < 64 && p < 64 && l + p <= e
  {
    if e == 64 {} else if e == 32 {} else if e == 16 {} else if e == 8 {} else if e == 4 {}
  }

  lemma OrNothing(x: bv64)
    ensures Or(0, x) == x
  {}

  lemma InsideElement(e: bv64, l: bv64, r: bv64, p: bv64)
    requires IsElementSize(e) && 0 < l <= r < e <= 64 && l < 64 && p < 64 && p == e - r && l + p <= e
    ensures RotateRight(Ones(l), r, e) == Shl(Ones(l), p)
  {
    hide RotateRight, Ones, Shl, Shr, Low, IsElementSize, Not, Or, Without;
    RotateIs(Ones(l), r, e, p);
    NoOnesLeft(l, r);
    OrNothing(Shl(Ones(l), p));
    ShiftedFit(e, l, p, l + p);
  }

  lemma TurnedInside(e: bv64, l: bv64, r: bv64, p: bv64)
    requires IsElementSize(e) && 0 < l <= r < e <= 64 && l < 64 && p < 64 && p == e - r && l + p <= e
    ensures Replicate(RotateRight(Ones(l), r, e), e) == Run(e, p, l)
  {
    hide Replicate, RotateRight, Ones, Shl, IsElementSize;
    InsideElement(e, l, r, p);
  }

  /** A rotated run that does not reach bit 0 is a run. */
  lemma RotatedInside(e: bv64, l: bv64, r: bv64)
    requires IsElementSize(e) && 0 < l <= r < e
    ensures Replicate(RotateRight(Ones(l), r, e), e) == Run(e, e - r, l)
  {
    hide Replicate, RotateRight, Ones, Run, IsElementSize;
    SizeRange(e);
    var p := e - r;
    InsideIndices(e, l, r, p);
    TurnedInside(e, l, r, p);
  }

  /** The shortest element size x repeats with. */
  function Period(x: bv64): (e: bv64)
    ensures e <= 64
  {
    if x >> 2 == x & 0x3fff_ffff_ffff_ffff then 2
    else if x >> 4 == x & 0xfff_ffff_ffff_ffff then 4
    else if x >> 8 == x & 0xff_ffff_ffff_ffff then 8
    else if x >> 16 == x & 0xffff_ffff_ffff then 16
    else if x >> 32 == x & 0xffff_ffff then 32
    else 64
  }

  lemma Repeats2(x: bv64)
    requires x >> 2 == x & 0x3fff_ffff_ffff_ffff
    ensures Replicate(Low(x, 2), 2) == x
  {}

  lemma Repeats4(x: bv64)
    requires x >> 4 == x & 0xfff_ffff_ffff_ffff
    ensures Replicate(Low(x, 4), 4) == x
  {}

  lemma Repeats8(x: bv64)
    requires x >> 8 == x & 0xff_ffff_ffff_ffff
    ensures Replicate(Low(x, 8), 8) == x
  {}

  lemma Repeats16(x: bv64)
    requires x >> 16 == x & 0xffff_ffff_ffff
    ensures Replicate(Low(x, 16), 16) == x
  {}

  lemma Repeats32(x: bv64)
    requires x >> 32 == x & 0xffff_ffff
    ensures Replicate(Low(x, 32), 32) == x
  {}

  lemma PeriodRepeats(x: bv64)
    ensures Replicate(Low(x, Period(x)), Period(x)) == x
  {
    var e := Period(x);
    if e == 2 { Repeats2(x); }
    else if e == 4 { Repeats4(x); }
    else if e == 8 { Repeats8(x); }
    else if e == 16 { Repeats16(x); }
    else if e == 32 { Repeats32(x); }
  }

  lemma RunPeriod64(e: bv64, pos: bv64, len: bv64)
    requires IsRun(e, pos, len) && e == 64
    ensures Period(Run(e, pos, len)) == e
  {}

  lemma RunPeriod32(e: bv64, pos: bv64, len: bv64)
    requires IsRun(e, pos, len) && e == 32
    ensures Period(Run(e, pos, len)) == e
  {}

  lemma RunPeriod16(e: bv64, pos: bv64, len: bv64)
    requires IsRun(e, pos, len) && e == 16
    ensures Period(Run(e, pos, len)) == e
  {}

  lemma RunPeriod8(e: bv64, pos: bv64, len: bv64)
    requires IsRun(e, pos, len) && e == 8
    ensures Period(Run(e, pos, len)) == e
  {}

  lemma RunPeriod4(e: bv64, pos: bv64, len: bv64)
    requires IsRun(e, pos, len) && e == 4
    ensures Period(Run(e, pos, len)) == e
  {}

  lemma RunPeriod2(e: bv64, pos: bv64, len: bv64)
    requires IsRun(e, pos, len) && e == 2
    ensures Period(Run(e, pos, len)) == e
  {}

  lemma LowReplicate(v: bv64, e: bv64)
    requires IsElementSize(e) && Low(v, e) == v
    ensures Low(Replicate(v, e), e) == v
  {
    if e == 64 {} else if e == 32 {} else if e == 16 {} else if e == 8 {} else if e == 4 {}
  }

  lemma FitIndices(e: bv64, pos: bv64, len: bv64)
    requires IsRun(e, pos, len)
    ensures pos < 64 && len < 64 && len + pos <= e
  {
    if e == 64 {} else if e == 32 {} else if e == 16 {} else if e == 8 {} else if e == 4 {}
  }

  lemma RunPeriodIs(e: bv64, pos: bv64, len: bv64)
    requires IsRun(e, pos, len)
    ensures Period(Run(e, pos, len)) == e
  {
    hide Period, Run;
    if e == 64 { RunPeriod64(e, pos, len); }
    else if e == 32 { RunPeriod32(e, pos, len); }
    else if e == 16 { RunPeriod16(e, pos, len); }
    else if e == 8 { RunPeriod8(e, pos, len); }
    else if e == 4 { RunPeriod4(e, pos, len); }
    else { RunPeriod2(e, pos, len); }
  }

  /** A run has no shorter period than its element. */
  lemma RunPeriod(e: bv64, pos: bv64, len: bv64)
    requires IsRun(e, pos, len)
    ensures Period(Run(e, pos, len)) == e && Low(Run(e, pos, len), e) == Shl(Ones(len), pos)
  {
    hide Period, Replicate, Low, Ones, Shl;
    FitIndices(e, pos, len);
    ShiftedFit(e, len, pos, len + pos);
    LowReplicate(Shl(Ones(len), pos), e);
    RunPeriodIs(e, pos, len);
  }

  // Every mask is such a run or the complement of one

  predicate InElement(rep: bv64, s: bv64) {
    s < rep && (s != rep - 1 ==> 0 < s + 1 < rep)
  }

  lemma RunIsEven64(rep: bv64, pos: bv64, len: bv64)
    requires rep == 64 && Fits(rep, pos, len)
    ensures Run(rep, pos, len) & 1 == 0 && Run(rep, pos, len) != 0
  {}

  lemma RunIsEven32(rep: bv64, pos: bv64, len: bv64)
    requires rep == 32 && Fits(rep, pos, len)
    ensures Run(rep, pos, len) & 1 == 0 && Run(rep, pos, len) != 0
  {}

  lemma RunIsEvenSmall(rep: bv64, pos: bv64, len: bv64)
    requires (rep == 2 || rep == 4 || rep == 8 || rep == 16) && Fits(rep, pos, len)
    ensures Run(rep, pos, len) & 1 == 0 && Run(rep, pos, len) != 0
  {
    if rep == 16 {} else if rep == 8 {} else if rep == 4 {}
  }

  lemma Field(rep: bv64, f: bv64, s: bv64)
    requires IsElementSize(rep) && s == f & (rep - 1)
    ensures InElement(rep, s)
  {
    if rep == 64 {} else if rep == 32 {} else if rep == 16 {} else if rep == 8 {} else if rep == 4 {}
  }

  lemma WrapFits(rep: bv64, l: bv64, r: bv64)
    requires IsElementSize(rep) && r < l < rep
    ensures Fits(rep, l - r, rep - l)
  {
    if rep == 64 {} else if rep == 32 {} else if rep == 16 {} else if rep == 8 {} else if rep == 4 {}
  }

  lemma InsideFits(rep: bv64, l: bv64, r: bv64)
    requires IsElementSize(rep) && 0 < l <= r < rep
    ensures Fits(rep, rep - r, l)
  {
    if rep == 64 {} else if rep == 32 {} else if rep == 16 {} else if rep == 8 {} else if rep == 4 {}
  }

  /** l ones rotated right by r in an element are a run or the complement of one. */
  lemma RotatedRun(rep: bv64, l: bv64, r: bv64) returns (pos: bv64, len: bv64)
    requires IsElementSize(rep) && 0 < l < rep && r < rep
    ensures IsRun(rep, pos, len)
    ensures Same(Replicate(RotateRight(Ones(l), r, rep), rep), Run(rep, pos, len))
  {
    hide Replicate, RotateRight, Ones, Run, Fits, IsElementSize;
    if r < l {
      pos, len := l - r, rep - l;
      WrapFits(rep, l, r);
      RotatedWraps(rep, l, r);
    } else {
      pos, len := rep - r, l;
      InsideFits(rep, l, r);
      RotatedInside(rep, l, r);
    }
  }

  /** x is the run y or its complement. */
  predicate Same(x: bv64, y: bv64) {
    x == y || x == !y
  }

  lemma DecodeSome(n: bv64, immr: bv64, imms: bv64)
    requires DecodeMask(n, immr, imms).Some?
    ensures IsElementSize(ElementSize(n, imms))
  {}

  lemma DecodeParts(n: bv64, immr: bv64, imms: bv64, rep: bv64, s: bv64, r: bv64)
    requires DecodeMask(n, immr, imms).Some? && rep == ElementSize(n, imms) && s == imms & (rep - 1)
    requires r == immr & (rep - 1)
    requires InElement(rep, r) && InElement(rep, s) && rep <= 64
    ensures s != rep - 1 && DecodeMask(n, immr, imms).value == Replicate(RotateRight(Ones(s + 1), r, rep), rep)
  {
    hide Replicate, RotateRight, Ones, ElementSize;
  }

  lemma DecodedRunOf(n: bv64, immr: bv64, imms: bv64) returns (rep: bv64, pos: bv64, len: bv64)
    requires DecodeMask(n, immr, imms).Some?
    ensures IsRun(rep, pos, len) && Same(DecodeMask(n, immr, imms).value, Run(rep, pos, len))
    ensures rep == ElementSize(n, imms)
  {
    hide DecodeMask, ElementSize, IsElementSize, Replicate, RotateRight, Ones, Run, Fits, Same, IsRun, InElement;
    rep := ElementSize(n, imms);
    var s, r := imms & (rep - 1), immr & (rep - 1);
    DecodeSome(n, immr, imms);
    Field(rep, imms, s);
    Field(rep, immr, r);
    SizeRange(rep);
    DecodeParts(n, immr, imms, rep, s, r);
    InElementRange(rep, s);
    InElementRange(rep, r);
    pos, len := RotatedRun(rep, s + 1, r);
  }

  // What a field stands for, in numbers

  /** The element size e, the run length less one s and the rotation r of the field N:immr:imms. */
  predicate IsField(c: bv64, e: bv64, s: bv64, r: bv64) {
    && ((e == 64 && c & 0x1000 != 0) || (e == 32 && c & 0x1020 == 0) || (e == 16 && c & 0x1030 == 0x20)
        || (e == 8 && c & 0x1038 == 0x30) || (e == 4 && c & 0x103c == 0x38) || (e == 2 && c & 0x103e == 0x3c))
    && s == c & (e - 1) && r == (c >> 6) & (e - 1)
  }

  /** The part of a field that counts. */
  function Part(f: bv64, e: bv64): bv64 {
    f & (e - 1)
  }

  function NOf(c: bv64): bv64 {
    (c >> 12) & 1
  }

  function ImmrOf(c: bv64): bv64 {
    (c >> 6) & 63
  }

  function ImmsOf(c: bv64): bv64 {
    c & 63
  }

  lemma FieldSize(c: bv64, e: bv64, s: bv64, r: bv64)
    requires IsField(c, e, s, r)
    ensures IsElementSize(e) && ElementSize(NOf(c), ImmsOf(c)) == e
    ensures Part(ImmsOf(c), e) == s && Part(ImmrOf(c), e) == r
  {}

  lemma FieldIsMask(c: bv64)
    ensures DecodeField(c) == DecodeMask(NOf(c), ImmrOf(c), ImmsOf(c))
  {}

  lemma MaskParts(n: bv64, immr: bv64, imms: bv64, e: bv64, s: bv64, r: bv64, l: bv64)
    requires e == ElementSize(n, imms) && IsElementSize(e) && s == Part(imms, e) && r == Part(immr, e)
    requires l == s + 1 && 0 < l < e && r < e <= 64
    ensures DecodeMask(n, immr, imms) == Some(Replicate(RotateRight(Ones(l), r, e), e))
  {
    hide ElementSize, IsElementSize, Replicate, RotateRight, Ones;
  }

  /** A field stands for its run of l ones, turned right by r. */
  lemma FieldPlain(c: bv64, e: bv64, s: bv64, r: bv64, l: bv64, pos: bv64)
    requires IsField(c, e, s, r) && l == s + 1 && 0 < l <= r < e <= 64 && l < 64 && pos == e - r && pos < 64
    ensures DecodeField(c) == Some(Run(e, pos, l))
  {
    hide IsField, DecodeField, DecodeMask, IsElementSize, ElementSize, Replicate, RotateRight, Ones, Run, Part, NOf,
         ImmrOf, ImmsOf;
    FieldSize(c, e, s, r);
    FieldIsMask(c);
    MaskParts(NOf(c), ImmrOf(c), ImmsOf(c), e, s, r, l);
    RotatedInside(e, l, r);
  }

  /** A run that turns around the end is the complement of one that does not. */
  lemma FieldTurned(c: bv64, e: bv64, s: bv64, r: bv64, l: bv64, pos: bv64, len: bv64)
    requires IsField(c, e, s, r) && l == s + 1 && r < l < e <= 64
    requires pos == l - r && pos < 64 && len == e - l && len < 64
    ensures DecodeField(c) == Some(!Run(e, pos, len))
  {
    hide IsField, DecodeField, DecodeMask, IsElementSize, ElementSize, Replicate, RotateRight, Ones, Run, Part, NOf,
         ImmrOf, ImmsOf;
    FieldSize(c, e, s, r);
    FieldIsMask(c);
    MaskParts(NOf(c), ImmrOf(c), ImmsOf(c), e, s, r, l);
    RotatedWraps(e, l, r);
  }

  /** No mask is all ones: those fields stand for nothing, and the one of element size 1. */
  lemma NoField(c: bv64)
    ensures DecodeField(c).None? <==>
      c & 63 == 63 || (c & 0x1000 == 0 && (c & 63 == 31 || c & 63 == 47 || c & 63 == 55 || c & 63 == 59
                                           || c & 63 == 61 || c & 63 == 62))
  {}

  /** Fields of each element size. */
  lemma KnownFields()
    ensures DecodeField(0x1007) == Some(0xff) && DecodeField(0x1047) == Some(0x8000_0000_0000_007f)
    ensures DecodeField(0x0007) == Some(0xff_0000_00ff) && DecodeField(0x0023) == Some(0x000f_000f_000f_000f)
    ensures DecodeField(0x0031) == Some(0x0303_0303_0303_0303) && DecodeField(0x0038) == Some(0x1111_1111_1111_1111)
    ensures DecodeField(0x003c) == Some(0x5555_5555_5555_5555) && DecodeField(0x007c) == Some(0xaaaa_aaaa_aaaa_aaaa)
  {}

  /** The ones of a run. */
  lemma RunIs(pos: bv64, len: bv64)
    requires pos < 64 && len < 64
    ensures Shl(Ones(len), pos) == ((1 << len) - 1) << pos
    ensures forall e :: Run(e, pos, len) == Replicate(Shl(Ones(len), pos), e)
  {
    hide Replicate;
  }

  /** A run of each element size. */
  lemma KnownRuns()
    ensures Run(64, 60, 4) == 0xf000_0000_0000_0000 && Run(32, 4, 8) == 0x0000_0ff0_0000_0ff0
    ensures Run(16, 1, 3) == 0x000e_000e_000e_000e && Run(8, 2, 1) == 0x0404_0404_0404_0404
    ensures Run(4, 1, 2) == 0x6666_6666_6666_6666 && Run(2, 1, 1) == 0xaaaa_aaaa_aaaa_aaaa
  {}

  lemma InElementRange(rep: bv64, s: bv64)
    requires InElement(rep, s)
    ensures s < rep && (s != rep - 1 ==> 0 < s + 1 < rep)
  {}

  lemma RunIsEven(rep: bv64, pos: bv64, len: bv64)
    requires IsRun(rep, pos, len)
    ensures Run(rep, pos, len) & 1 == 0 && Run(rep, pos, len) != 0
  {
    hide Run, Fits;
    if rep == 64 {
      RunIsEven64(rep, pos, len);
    } else if rep == 32 {
      RunIsEven32(rep, pos, len);
    } else {
      RunIsEvenSmall(rep, pos, len);
    }
  }

  lemma RunRange(rep: bv64, pos: bv64, len: bv64)
    requires IsRun(rep, pos, len)
    ensures pos < 64 && len < 64
  {}

  lemma EvenSame(x0: bv64, y: bv64, z: bv64)
    requires Same(x0, y) && Same(x0, z) && y & 1 == 0 && z & 1 == 0
    ensures y == z
  {}

  /** The even one of a mask and its complement is a run. */
  lemma DecodedRun(c: bv64, y: bv64) returns (rep: bv64, pos: bv64, len: bv64)
    requires DecodeField(c).Some? && Same(DecodeField(c).value, y) && y & 1 == 0
    ensures IsRun(rep, pos, len) && y == Run(rep, pos, len) && y != 0
  {
    hide DecodeMask, Run, Same, IsRun;
    rep, pos, len := DecodedRunOf((c >> 12) & 1, (c >> 6) & 63, c & 63);
    RunIsEven(rep, pos, len);
    RunRange(rep, pos, len);
    EvenSame(DecodeField(c).value, y, Run(rep, pos, len));
  }

  // Masks whose two halves agree are those of a W register

  predicate Doubled(m: bv64) {
    m >> 32 == m & 0xffff_ffff
  }

  lemma DoubledRun32(rep: bv64, pos: bv64, len: bv64)
    requires rep == 32 && Fits(rep, pos, len)
    ensures Doubled(Run(rep, pos, len)) && Doubled(!Run(rep, pos, len))
  {}

  lemma DoubledRun16(rep: bv64, pos: bv64, len: bv64)
    requires rep == 16 && Fits(rep, pos, len)
    ensures Doubled(Run(rep, pos, len)) && Doubled(!Run(rep, pos, len))
  {}

  lemma DoubledRun8(rep: bv64, pos: bv64, len: bv64)
    requires rep == 8 && Fits(rep, pos, len)
    ensures Doubled(Run(rep, pos, len)) && Doubled(!Run(rep, pos, len))
  {}

  lemma DoubledRun4(rep: bv64, pos: bv64, len: bv64)
    requires rep == 4 && Fits(rep, pos, len)
    ensures Doubled(Run(rep, pos, len)) && Doubled(!Run(rep, pos, len))
  {}

  lemma DoubledRun2(rep: bv64, pos: bv64, len: bv64)
    requires rep == 2 && Fits(rep, pos, len)
    ensures Doubled(Run(rep, pos, len)) && Doubled(!Run(rep, pos, len))
  {}

  lemma NotDoubledRun(rep: bv64, pos: bv64, len: bv64)
    requires rep == 64 && Fits(rep, pos, len)
    ensures !Doubled(Run(rep, pos, len)) && !Doubled(!Run(rep, pos, len))
  {}

  lemma DoubledRun(rep: bv64, pos: bv64, len: bv64)
    requires IsRun(rep, pos, len)
    ensures Doubled(Run(rep, pos, len)) <==> rep != 64
    ensures Doubled(!Run(rep, pos, len)) <==> rep != 64
  {
    hide Run, Fits, Doubled;
    if rep == 64 { NotDoubledRun(rep, pos, len); }
    else if rep == 32 { DoubledRun32(rep, pos, len); }
    else if rep == 16 { DoubledRun16(rep, pos, len); }
    else if rep == 8 { DoubledRun8(rep, pos, len); }
    else if rep == 4 { DoubledRun4(rep, pos, len); }
    else { DoubledRun2(rep, pos, len); }
  }

  lemma WideElement(c: bv64)
    ensures ElementSize((c >> 12) & 1, c & 63) == 64 <==> (c >> 12) & 1 == 1
  {}

  /** N is set just for the masks that need 64 bits. */
  lemma DoubledMask(c: bv64)
    requires DecodeField(c).Some?
    ensures Doubled(DecodeField(c).value) <==> (c >> 12) & 1 == 0
  {
    hide DecodeMask, Run, IsRun, Doubled, ElementSize;
    var rep, pos, len := DecodedRunOf((c >> 12) & 1, (c >> 6) & 63, c & 63);
    RunRange(rep, pos, len);
    DoubledRun(rep, pos, len);
    WideElement(c);
    OneBit(c);
  }

  lemma OneBit(c: bv64)
    ensures (c >> 12) & 1 == 0 || (c >> 12) & 1 == 1
  {}
}
