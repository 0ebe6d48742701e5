/** The A32 procedure linkage table and Thumb-2 branches (src/arm-link.c). */
module LinkArm {
  import opened Options
  import opened A32

  // Sums of words

  function Add(a: bv32, b: bv32): bv32 {
    a + b
  }

  function Sub(a: bv32, b: bv32): bv32 {
    a - b
  }

  lemma AddIs(a: bv32, b: bv32)
    ensures Add(a, b) == a + b
  {}

  lemma AddInline(a: bv32, b: bv32, c: bv32)
    ensures Add(a + b, c) == Add(a, b + c)
  {}

  lemma AddAssociates(a: bv32, b: bv32, c: bv32)
    ensures Add(Add(a, b), c) == Add(a, Add(b, c))
  {
    hide Add;
    AddIs(a, b);
    AddIs(b, c);
    AddInline(a, b, c);
  }

  lemma AddCommutes(a: bv32, b: bv32)
    ensures Add(a, b) == Add(b, a)
  {}

  lemma AddSwaps(a: bv32, b: bv32, c: bv32)
    ensures Add(Add(a, b), c) == Add(Add(a, c), b)
  {
    hide Add;
    AddAssociates(a, b, c);
    AddAssociates(a, c, b);
    AddCommutes(b, c);
  }

  lemma SubInline(a: bv32, b: bv32)
    ensures Sub(a + b, a) == b
  {}

  lemma AddBack(a: bv32, b: bv32)
    ensures Sub(Add(a, b), a) == b
  {
    hide Add, Sub;
    AddIs(a, b);
    SubInline(a, b);
  }

  lemma AddCancels(a: bv32, b: bv32, c: bv32)
    ensures Add(a, b) == Add(a, c) <==> b == c
  {
    hide Add, Sub;
    AddBack(a, b);
    AddBack(a, c);
  }

  lemma SubIs(a: bv32, b: bv32)
    ensures Sub(a, b) == a - b
  {}

  lemma SubPlus(a: bv32, b: bv32)
    ensures Add(a - b, b) == a
  {}

  lemma SubBack(a: bv32, b: bv32)
    ensures Add(Sub(a, b), b) == a
  {
    hide Add, Sub;
    SubIs(a, b);
    SubPlus(a, b);
  }

  lemma AddNothing(a: bv32, b: bv32)
    ensures Add(a, b) == b <==> a == 0
  {
    hide Add;
    AddCommutes(a, b);
    AddIs(b, 0);
    AddCancels(b, a, 0);
  }

  // Thumb-2 branches: two halfwords with a displacement of 25 bits, the lowest 0

  /** The displacement of the branch hi, lo, before and after sign extension. */
  function ThumbField(hi: bv32, lo: bv32): bv32 {
    var s, j1, j2 := (hi >> 10) & 1, (lo >> 13) & 1, (lo >> 11) & 1;
    var i1, i2 := (j1 ^ s) ^ 1, (j2 ^ s) ^ 1;
    (s << 24) | (i1 << 23) | (i2 << 22) | ((hi & 0x3ff) << 12) | ((lo & 0x7ff) << 1)
  }

  function SignExtend25(x: bv32): bv32 {
    if x & 0x100_0000 != 0 then x - 0x200_0000 else x
  }

  function ThumbOffset(hi: bv32, lo: bv32): bv32 {
    SignExtend25(ThumbField(hi, lo))
  }

  /** The bits of the displacement in either halfword. */
  function HiPart(x: bv32): bv32 {
    (((x >> 24) & 1) << 10) | ((x >> 12) & 0x3ff)
  }

  function LoPart(x: bv32): bv32 {
    LoFields(JBit(x, (x >> 23) & 1), JBit(x, (x >> 22) & 1), (x >> 1) & 0x7ff)
  }

  /** The bit of the halfword for bit i1 or i2 of the displacement. */
  function JBit(x: bv32, i: bv32): bv32 {
    ((x >> 24) & 1) ^ (i ^ 1)
  }

  function LoFields(j1: bv32, j2: bv32, imm: bv32): bv32 {
    (j1 << 13) | (j2 << 11) | imm
  }

  /** With the bits of the opcode. */
  function JoinHi(hi: bv32, part: bv32): bv32 {
    (hi & 0xf800) | part
  }

  function JoinLo(lo: bv32, blx: bv32, part: bv32): bv32 {
    (lo & 0xc000) | blx | part
  }

  function ThumbHi(hi: bv32, x: bv32): bv32 {
    JoinHi(hi, HiPart(x))
  }

  function ThumbLo(lo: bv32, blx: bv32, x: bv32): bv32 {
    JoinLo(lo, blx, LoPart(x))
  }

  function HiMask(hi: bv32): bv32 {
    hi & 0x7ff
  }

  function LoMask(lo: bv32): bv32 {
    lo & 0x2fff
  }

  /** A displacement that fits, as a signed number. */
  predicate InThumbRange(x: bv32) {
    x + 0x100_0000 < 0x200_0000
  }

  predicate Forward(x: bv32) {
    x & 0xff00_0000 == 0
  }

  predicate Backward(x: bv32) {
    x & 0xff00_0000 == 0xff00_0000
  }

  lemma Ways(x: bv32)
    ensures InThumbRange(x) <==> Forward(x) || Backward(x)
  {}

  lemma ExtendForward(x: bv32)
    requires Forward(x)
    ensures SignExtend25(x & 0x1ff_fffe) == x & 0xffff_fffe
  {}

  lemma ExtendBackward(x: bv32)
    requires Backward(x)
    ensures SignExtend25(x & 0x1ff_fffe) == x & 0xffff_fffe
  {}

  lemma ExtendRange(x: bv32)
    requires SignExtend25(x & 0x1ff_fffe) == x & 0xffff_fffe
    ensures Forward(x) || Backward(x)
  {}

  lemma HiRange(x: bv32)
    ensures HiMask(HiPart(x)) == HiPart(x)
  {}

  lemma JRange(x: bv32, i: bv32)
    requires i <= 1
    ensures JBit(x, i) <= 1
  {}

  lemma FieldRanges(x: bv32)
    ensures (x >> 23) & 1 <= 1 && (x >> 22) & 1 <= 1 && (x >> 1) & 0x7ff <= 0x7ff
  {}

  lemma FieldsRange(j1: bv32, j2: bv32, imm: bv32)
    requires j1 <= 1 && j2 <= 1 && imm <= 0x7ff
    ensures LoMask(LoFields(j1, j2, imm)) == LoFields(j1, j2, imm)
  {}

  lemma LoRange(x: bv32)
    ensures LoMask(LoPart(x)) == LoPart(x)
  {
    hide JBit, LoFields, LoMask;
    FieldRanges(x);
    JRange(x, (x >> 23) & 1);
    JRange(x, (x >> 22) & 1);
    FieldsRange(JBit(x, (x >> 23) & 1), JBit(x, (x >> 22) & 1), (x >> 1) & 0x7ff);
  }

  lemma HiBits(hi: bv32, part: bv32)
    requires HiMask(part) == part
    ensures HiMask(JoinHi(hi, part)) == part
  {}

  lemma LoBits(lo: bv32, blx: bv32, part: bv32)
    requires LoMask(part) == part && (blx == 0 || blx == 0x1000)
    ensures LoMask(JoinLo(lo, blx, part)) == part
  {}

  lemma HalfwordBits(hi: bv32, lo: bv32, blx: bv32, x: bv32)
    requires blx == 0 || blx == 0x1000
    ensures HiMask(ThumbHi(hi, x)) == HiPart(x) && LoMask(ThumbLo(lo, blx, x)) == LoPart(x)
  {
    hide HiPart, LoPart, JoinHi, JoinLo, HiMask, LoMask;
    HiRange(x);
    LoRange(x);
    HiBits(hi, HiPart(x));
    LoBits(lo, blx, LoPart(x));
  }

  lemma FieldBits(hi: bv32, lo: bv32)
    ensures ThumbField(hi, lo) == ThumbField(HiMask(hi), LoMask(lo))
  {}

  lemma FieldOfParts(x: bv32)
    ensures ThumbField(HiPart(x), LoPart(x)) == x & 0x1ff_fffe
  {}

  /** Encoded and decoded, a displacement has lost bit 0 and all from bit 25 on. */
  lemma EncodedField(hi: bv32, lo: bv32, blx: bv32, x: bv32)
    requires blx == 0 || blx == 0x1000
    ensures ThumbField(ThumbHi(hi, x), ThumbLo(lo, blx, x)) == x & 0x1ff_fffe
  {
    hide ThumbHi, ThumbLo, ThumbField, HiPart, LoPart, HiMask, LoMask;
    HalfwordBits(hi, lo, blx, x);
    FieldBits(ThumbHi(hi, x), ThumbLo(lo, blx, x));
    FieldOfParts(x);
  }

  /** Decoding undoes encoding, but for bit 0, just for the displacements of 25 bits. */
  lemma ThumbExact(hi: bv32, lo: bv32, blx: bv32, x: bv32)
    requires blx == 0 || blx == 0x1000
    ensures ThumbOffset(ThumbHi(hi, x), ThumbLo(lo, blx, x)) == x & 0xffff_fffe <==> InThumbRange(x)
  {
    hide ThumbField, ThumbHi, ThumbLo, SignExtend25, InThumbRange, Forward, Backward;
    EncodedField(hi, lo, blx, x);
    Ways(x);
    if Forward(x) { ExtendForward(x); }
    if Backward(x) { ExtendBackward(x); }
    if SignExtend25(x & 0x1ff_fffe) == x & 0xffff_fffe { ExtendRange(x); }
  }

  lemma HiOfField(hi: bv32, lo: bv32)
    requires hi < 0x1_0000 && hi & 0xf800 == 0xf000
    ensures ThumbHi(hi, ThumbField(hi, lo)) == hi
  {}

  lemma LoOfField(hi: bv32, lo: bv32)
    requires lo < 0x1_0000
    ensures ThumbLo(lo, lo & 0x1000, ThumbField(hi, lo)) == lo
  {}

  function Low25(x: bv32): bv32 {
    x & 0x1ff_ffff
  }

  lemma LowSame(x: bv32)
    requires x < 0x200_0000
    ensures Low25(SignExtend25(x)) == Low25(x)
  {}

  lemma FieldRange(hi: bv32, lo: bv32)
    ensures ThumbField(hi, lo) < 0x200_0000
  {}

  lemma HiLow(hi: bv32, x: bv32, y: bv32)
    requires Low25(x) == Low25(y)
    ensures ThumbHi(hi, x) == ThumbHi(hi, y)
  {}

  lemma LoLow(lo: bv32, blx: bv32, x: bv32, y: bv32)
    requires Low25(x) == Low25(y)
    ensures ThumbLo(lo, blx, x) == ThumbLo(lo, blx, y)
  {}

  /** And encoding undoes decoding: a branch moved by nothing stays as it is. */
  lemma ThumbBack(hi: bv32, lo: bv32)
    requires hi < 0x1_0000 && lo < 0x1_0000 && hi & 0xf800 == 0xf000
    ensures ThumbHi(hi, ThumbOffset(hi, lo)) == hi && ThumbLo(lo, lo & 0x1000, ThumbOffset(hi, lo)) == lo
  {
    hide ThumbHi, ThumbLo, ThumbField, SignExtend25, Low25;
    FieldRange(hi, lo);
    HiOfField(hi, lo);
    LoOfField(hi, lo);
    LowSame(ThumbField(hi, lo));
    HiLow(hi, ThumbOffset(hi, lo), ThumbField(hi, lo));
    LoLow(lo, lo & 0x1000, ThumbOffset(hi, lo), ThumbField(hi, lo));
  }

  // Relocating a Thumb-2 branch

  /** bx pc; nop: what a stub starts with */
  const STUB: Word := 0x46c0_4778

  /** The displacement that is wanted: the old one moved by val - addr, for a call into ARM code rounded
      up to a word. */
  function Moved(x: bv32, val: bv32, addr: bv32, call: bool): bv32 {
    var moved := Add(x, Sub(val, addr));
    if val & 1 == 0 && call then (moved + 3) & 0xffff_fffc else moved
  }

  /** The test of relocate. */
  predicate Relocatable(x: bv32, val: bv32, toThumb: bool, call: bool, toPlt: bool) {
    !((!toThumb || !InThumbRange(x)) && (toThumb || val & 2 != 0 || (!call && !toPlt)))
  }

  /** Bit 0 of an address in Thumb code is set. */
  predicate IsThumb(val: bv32) {
    val & 1 == 1
  }

  predicate IsWordAligned(val: bv32) {
    val & 2 == 0
  }

  /** x without bit 0 */
  function Even(x: bv32): bv32 {
    x & 0xffff_fffe
  }

  /** The bit that tells BL and B from BLX. */
  predicate StaysThumb(lo: bv32) {
    lo & 0x1000 == 0x1000
  }

  /** The bits of the halfwords that are not part of the displacement. */
  predicate SameOpcode(hi: bv32, lo: bv32, hi2: bv32, lo2: bv32) {
    hi2 & 0xf800 == hi & 0xf800 && lo2 & 0xc000 == lo & 0xc000
  }

  /** A jump to ARM code that is not in the linkage table is sent to a stub. */
  predicate NeedsStub(val: bv32, call: bool, toPlt: bool) {
    !IsThumb(val) && !call && !toPlt
  }

  /** bx pc; nop; and a branch to be relocated to the old target */
  const STUB_WORDS: seq<Word> := [STUB, 0xeaff_fffe]

  /** The stub at an offset of its section, with bit 0 set for Thumb. */
  function StubTarget(text: bv32): bv32 {
    text + 1
  }

  /** Where the branch is sent, text being the offset at which a stub would start. */
  function Target(val: bv32, call: bool, toPlt: bool, text: bv32): bv32 {
    if NeedsStub(val, call, toPlt) then StubTarget(text) else val
  }

  /** A stub is Thumb code. */
  predicate ToThumb(val: bv32, call: bool, toPlt: bool) {
    IsThumb(val) || NeedsStub(val, call, toPlt)
  }

  /** For a target in Thumb code the test is exact, for one in ARM code it looks at the alignment only. */
  lemma RelocatableMeans(x: bv32, val: bv32, toThumb: bool, call: bool, toPlt: bool)
    requires toThumb || call || toPlt
    ensures Relocatable(x, val, toThumb, call, toPlt) <==> if toThumb then InThumbRange(x) else IsWordAligned(val)
  {
    hide InThumbRange;
  }

  /** The branch with its displacement, its opcode and its mode. */
  lemma Written(hi: bv32, lo: bv32, thumb: bool, x: bv32, blx: bv32)
    requires blx == if thumb then 0x1000 else 0
    ensures ThumbOffset(ThumbHi(hi, x), ThumbLo(lo, blx, x)) == Even(x) <==> InThumbRange(x)
    ensures SameOpcode(hi, lo, ThumbHi(hi, x), ThumbLo(lo, blx, x)) && StaysThumb(ThumbLo(lo, blx, x)) == thumb
  {
    hide ThumbOffset, ThumbHi, ThumbLo, InThumbRange;
    ThumbExact(hi, lo, blx, x);
    KeepsHi(hi, x);
    KeepsLo(lo, blx, x);
  }

  // Where a relocated branch leads

  /** The word that p is in. */
  function Down(p: bv32): bv32 {
    p & 0xffff_fffc
  }

  /** Where a branch at addr leads with the displacement off: BLX counts from a word boundary. */
  function Destination(thumb: bool, addr: bv32, off: bv32): bv32 {
    Add(if thumb then Add(addr, 4) else Down(Add(addr, 4)), off)
  }

  /** Where it is to lead: to the target plus the addend that x stands for. */
  function Wanted(x: bv32, val: bv32): bv32 {
    Even(Add(Add(val, x), 4))
  }

  predicate IsEven(x: bv32) {
    x & 1 == 0
  }

  function Bit1(x: bv32): bv32 {
    x & 2
  }

  /** Up to a word boundary */
  function Up(m: bv32): bv32 {
    (m + 3) & 0xffff_fffc
  }

  lemma Parity(p: bv32, q: bv32)
    requires IsEven(p)
    ensures IsEven(Add(p, q)) <==> IsEven(q)
  {}

  lemma OddIs(q: bv32)
    requires !IsEven(q)
    ensures Even(q) == Sub(q, 1)
  {}

  lemma EvenIs(m: bv32)
    requires IsEven(m)
    ensures Even(m) == m
  {}

  lemma EvenSum(p: bv32, q: bv32)
    requires IsEven(p)
    ensures Even(Add(p, q)) == Add(p, Even(q)) && (IsEven(q) ==> IsEven(Add(p, q)))
  {
    hide Add, Sub, Even, IsEven;
    Parity(p, q);
    if IsEven(q) {
      EvenIs(q);
      EvenIs(Add(p, q));
    } else {
      OddIs(q);
      OddIs(Add(p, q));
      SubBack(q, 1);
      AddAssociates(p, Sub(q, 1), 1);
      AddSubtracts(Add(p, Sub(q, 1)), 1);
    }
  }

  lemma AddSubtracts(a: bv32, b: bv32)
    ensures Sub(Add(a, b), b) == a
  {
    hide Add, Sub;
    AddCommutes(a, b);
    AddBack(b, a);
  }

  lemma EvenDifference(p: bv32, q: bv32)
    requires IsEven(p) && IsEven(q)
    ensures IsEven(Sub(p, q))
  {}

  lemma EvenFour()
    ensures IsEven(4)
  {}

  lemma UpWhole(m: bv32)
    requires IsEven(m) && IsWordAligned(m)
    ensures Up(m) == m && Bit1(m) == 0
  {}

  lemma UpHalf(m: bv32)
    requires IsEven(m) && !IsWordAligned(m)
    ensures Up(m) == Add(m, 2) && Bit1(m) == 2
  {}

  lemma UpEven(m: bv32)
    ensures IsEven(Up(m))
  {}

  /** An even displacement is rounded up by its bit 1. */
  lemma UpIs(m: bv32)
    requires IsEven(m)
    ensures Up(m) == Add(m, Bit1(m)) && Even(Up(m)) == Up(m)
  {
    hide Add, Up, Bit1, IsEven, Even, IsWordAligned;
    if IsWordAligned(m) {
      UpWhole(m);
      AddIs(m, 0);
    } else {
      UpHalf(m);
    }
    UpEven(m);
    EvenIs(Up(m));
  }

  lemma DownIs(p: bv32)
    requires IsEven(p)
    ensures Down(p) == Sub(p, Bit1(p))
  {}

  lemma BitsAgree(p: bv32, m: bv32)
    requires IsEven(p) && IsEven(m)
    ensures Bit1(m) == Bit1(p) <==> IsWordAligned(Add(p, m))
  {}

  /** The program counter and the displacement make the target. */
  lemma SumIs(x: bv32, val: bv32, addr: bv32)
    ensures Add(Add(addr, 4), Add(x, Sub(val, addr))) == Add(Add(val, x), 4)
  {
    hide Add, Sub;
    var d := Sub(val, addr);
    AddSwaps(addr, 4, Add(x, d));
    AddCommutes(x, d);
    AddAssociates(addr, d, x);
    AddCommutes(addr, d);
    SubBack(val, addr);
  }

  lemma ThumbLeads(x: bv32, val: bv32, addr: bv32)
    requires IsEven(addr)
    ensures Destination(true, addr, Even(Add(x, Sub(val, addr)))) == Wanted(x, val)
  {
    hide Add, Sub, Even, IsEven, Down;
    EvenFour();
    EvenSum(addr, 4);
    EvenSum(Add(addr, 4), Add(x, Sub(val, addr)));
    SumIs(x, val, addr);
  }

  /** Rounding the displacement up and the program counter down are to cancel out. */
  lemma ArmLeads(x: bv32, val: bv32, addr: bv32)
    requires IsEven(addr) && IsEven(val) && IsEven(x)
    ensures Destination(false, addr, Even(Up(Add(x, Sub(val, addr))))) == Wanted(x, val) <==>
      IsWordAligned(Wanted(x, val))
  {
    hide Add, Sub, Even, IsEven, Down, Up, Bit1, IsWordAligned;
    var p, m := Add(addr, 4), Add(x, Sub(val, addr));
    EvenFour();
    EvenSum(addr, 4);
    EvenDifference(val, addr);
    EvenSum(x, Sub(val, addr));
    EvenSum(p, m);
    EvenIs(Add(p, m));
    SumIs(x, val, addr);
    UpIs(m);
    DownIs(p);
    BitsAgree(p, m);
    UnevenSum(p, Bit1(p), m, Bit1(m));
  }

  lemma UnevenSum(p: bv32, u: bv32, m: bv32, t: bv32)
    ensures Add(Sub(p, u), Add(m, t)) == Add(p, m) <==> t == u
  {
    hide Add, Sub;
    var q := Sub(p, u);
    SubBack(p, u);
    AddAssociates(q, u, m);
    AddCommutes(u, m);
    AddCancels(q, Add(m, t), Add(m, u));
    AddCancels(m, t, u);
  }

  lemma OffsetEven(hi: bv32, lo: bv32)
    ensures IsEven(ThumbOffset(hi, lo))
  {}

  lemma MovedUp(x: bv32, val: bv32, addr: bv32)
    requires IsEven(val)
    ensures Moved(x, val, addr, true) == Up(Add(x, Sub(val, addr)))
  {
    hide Add, Sub;
  }

  lemma MovedPlain(x: bv32, val: bv32, addr: bv32, call: bool)
    requires IsThumb(val) || !call
    ensures Moved(x, val, addr, call) == Add(x, Sub(val, addr))
  {
    hide Add, Sub;
  }

  lemma ThumbOrEven(val: bv32)
    ensures IsThumb(val) <==> !IsEven(val)
  {}

  /** A displacement in range leads to the place wanted, but with BLX only if that begins a word. */
  lemma BranchLeads(x: bv32, val: bv32, addr: bv32, call: bool, thumb: bool)
    requires IsEven(addr) && IsEven(x) && (if thumb then IsThumb(val) || !call else !IsThumb(val) && call)
    ensures Destination(thumb, addr, Even(Moved(x, val, addr, call))) == Wanted(x, val) <==>
      thumb || IsWordAligned(Wanted(x, val))
  {
    hide Destination, Wanted, Moved, IsThumb, IsWordAligned, IsEven, Even, Add, Sub, Up;
    ThumbOrEven(val);
    if thumb {
      MovedPlain(x, val, addr, call);
      ThumbLeads(x, val, addr);
    } else {
      MovedUp(x, val, addr);
      ArmLeads(x, val, addr);
    }
  }

  // The words that those say this about

  lemma ThumbRange(x: bv32)
    ensures InThumbRange(x) <==> x < 0x100_0000 || x >= 0xff00_0000
  {}

  /** bl +0, +2, -2, -4, +2^24 - 2 and -2^24 */
  lemma KnownThumb()
    ensures ThumbOffset(0xf000, 0xf800) == 0 && ThumbOffset(0xf000, 0xf801) == 2
    ensures ThumbOffset(0xf7ff, 0xffff) == 0xffff_fffe && ThumbOffset(0xf7ff, 0xfffe) == 0xffff_fffc
    ensures ThumbOffset(0xf3ff, 0xd7ff) == 0xff_fffe && ThumbOffset(0xf400, 0xd000) == 0xff00_0000
    ensures StaysThumb(0xf800) && !StaysThumb(0xe800)
    ensures SameOpcode(0xf000, 0xf800, 0xf7ff, 0xefff) && !SameOpcode(0xf000, 0xf800, 0xe800, 0xf800)
    ensures !SameOpcode(0xf000, 0xf800, 0xf000, 0xb800)
  {}

  /** Which addresses are in Thumb code, and when a jump needs a stub and where that is. */
  lemma StubsExact(val: bv32, call: bool, toPlt: bool, text: bv32)
    ensures IsThumb(val) <==> val & 1 != 0
    ensures NeedsStub(val, call, toPlt) <==> val & 1 == 0 && !call && !toPlt
    ensures ToThumb(val, call, toPlt) <==> val & 1 != 0 || (!call && !toPlt)
    ensures Target(val, call, toPlt, text) == if val & 1 == 0 && !call && !toPlt then text + 1 else val
    ensures STUB_WORDS == [0x46c0_4778, 0xeaff_fffe]
  {}

  /** Displacements for a target at 0x1000 from a branch at 0x102, with an addend of 2 beyond the program counter;
      then where branches at 0x102 lead, and are to lead. */
  lemma KnownPlaces()
    ensures Moved(2, 0x1000, 0x102, false) == 0xf00 && Moved(2, 0x1001, 0x102, true) == 0xf01
    ensures Moved(4, 0x1000, 0x102, true) == 0xf04 && Moved(2, 0x1000, 0x102, true) == 0xf00
    ensures Destination(true, 0x102, 8) == 0x10e && Destination(false, 0x102, 8) == 0x10c
    ensures Wanted(6, 0x1001) == 0x100a && Wanted(0xffff_fffc, 0x1000) == 0x1000
    ensures Even(0x1003) == 0x1002 && Even(0x1002) == 0x1002 && IsEven(2) && !IsEven(3)
    ensures IsWordAligned(0x1001) && !IsWordAligned(0x1002) && !IsWordAligned(0x1003)
  {}

  /** R_ARM_THM_PC22 (call) and R_ARM_THM_JUMP24. The displacement written is the one that is wanted just
      when that is in range, and then the branch leads to the target plus its addend, but with BLX only if that
      begins a word; stub is what is added to the section. */
  method RelocateThumb(hi: bv32, lo: bv32, val: bv32, addr: bv32, call: bool, toPlt: bool, text: bv32)
    returns (ok: bool, hi2: bv32, lo2: bv32, stub: seq<Word>)
    ensures var v, toThumb := Target(val, call, toPlt, text), ToThumb(val, call, toPlt);
            var x := Moved(ThumbOffset(hi, lo), v, addr, call);
            && (ok <==> if toThumb then InThumbRange(x) else IsWordAligned(v))
            && (ThumbOffset(hi2, lo2) == Even(x) <==> InThumbRange(x))
            && StaysThumb(lo2) == (toThumb || !call)
            && hi2 == ThumbHi(hi, x) && lo2 == ThumbLo(lo, if toThumb || !call then 0x1000 else 0, x)
            && (IsEven(addr) && InThumbRange(x) ==>
                  var to, thumb := Wanted(ThumbOffset(hi, lo), v), StaysThumb(lo2);
                  Destination(thumb, addr, ThumbOffset(hi2, lo2)) == to <==> thumb || IsWordAligned(to))
    ensures SameOpcode(hi, lo, hi2, lo2)
    ensures stub == if NeedsStub(val, call, toPlt) then STUB_WORDS else []
  {
    hide ThumbOffset, ThumbHi, ThumbLo, InThumbRange, Moved, IsThumb, Relocatable, StubTarget, IsWordAligned, Even,
         StaysThumb, SameOpcode, Destination, Wanted, IsEven;
    var v, toThumb := val, IsThumb(val);
    stub := [];
    if NeedsStub(val, call, toPlt) {
      toThumb, v := true, StubTarget(text);
      stub := STUB_WORDS;
    }
    var x := Moved(ThumbOffset(hi, lo), v, addr, call);
    var blx: bv32 := if !toThumb && call then 0 else 0x1000;
    ok := Relocatable(x, v, toThumb, call, toPlt);
    RelocatableMeans(x, v, toThumb, call, toPlt);
    Written(hi, lo, toThumb || !call, x, blx);
    OffsetEven(hi, lo);
    if IsEven(addr) { BranchLeads(ThumbOffset(hi, lo), v, addr, call, toThumb || !call); }
    hi2, lo2 := ThumbHi(hi, x), ThumbLo(lo, blx, x);
  }

  /** BLX with addend 6 from 0x100 to ARM code at 0x1000 passes, and leads to 0x1008 instead of 0x1006. */
  lemma UnevenCall()
    ensures var x := Moved(ThumbOffset(0xf000, 0xf801), 0x1000, 0x100, true);
            && Relocatable(x, 0x1000, false, true, false) && Wanted(ThumbOffset(0xf000, 0xf801), 0x1000) == 0x1006
            && Destination(false, 0x100, ThumbOffset(ThumbHi(0xf000, x), ThumbLo(0xf801, 0, x))) == 0x1008
  {}

  /** The offset of the stub stands for its address, so the displacement is the wanted one exactly if the
      section starts at 0; in a section at 0x8000 it is not. */
  lemma StubByOffset(x: bv32, section: bv32, text: bv32, addr: bv32)
    ensures Moved(x, StubTarget(text), addr, false) == Moved(x, Add(section, StubTarget(text)), addr, false) <==>
      section == 0
    ensures Moved(0, StubTarget(0x100), 0x8010, false) != Moved(0, Add(0x8000, StubTarget(0x100)), 0x8010, false)
  {
    hide Add, Sub, Moved, StubTarget;
    var stub := StubTarget(text);
    MovedIs(x, stub, addr);
    MovedIs(x, Add(section, stub), addr);
    AddCancels(x, Sub(stub, addr), Sub(Add(section, stub), addr));
    SubBack(stub, addr);
    SubBack(Add(section, stub), addr);
    AddNothing(section, stub);
    MovedFrom(0x8000, 0x100, 0x8010);
  }

  lemma MovedIs(x: bv32, val: bv32, addr: bv32)
    ensures Moved(x, val, addr, false) == Add(x, Sub(val, addr))
  {
    hide Add, Sub;
  }

  lemma MovedFrom(section: bv32, text: bv32, addr: bv32)
    requires section == 0x8000 && text == 0x100 && addr == 0x8010
    ensures Moved(0, StubTarget(text), addr, false) != Moved(0, Add(section, StubTarget(text)), addr, false)
  {}

  lemma KeepsHi(hi: bv32, x: bv32)
    ensures ThumbHi(hi, x) & 0xf800 == hi & 0xf800
  {}

  lemma KeepsLo(lo: bv32, blx: bv32, x: bv32)
    requires blx == 0 || blx == 0x1000
    ensures ThumbLo(lo, blx, x) & 0xc000 == lo & 0xc000 && ThumbLo(lo, blx, x) & 0x1000 == blx
  {}

  /** BL with addend 0, relocated to a target in ARM code 32 MB away: it passes, and goes elsewhere. */
  lemma FarCall()
    ensures var x := Moved(ThumbOffset(0xf000, 0xf800), 0x200_0000, 0, true);
            && ThumbOffset(0xf000, 0xf800) == 0 && Relocatable(x, 0x200_0000, false, true, false)
            && ThumbOffset(ThumbHi(0xf000, x), ThumbLo(0xf800, 0, x)) != x
  {}

  // The procedure linkage table

  /** The four words of an entry for an offset. */
  function EntryWords(off: bv32): seq<Word> {
    [0xe28f_c200 | ((off >> 28) & 0xf), 0xe28c_c600 | ((off >> 20) & 0xff), 0xe28c_ca00 | ((off >> 12) & 0xff),
     0xe5bc_f000 | (off & 0xfff)]
  }

  /** The operand of an addition with an immediate, or 0. */
  function AddedBy(w: Word, rn: bv32): Option<bv32> {
    match Decode(w)
    case DataImm(opcode, s, n, d, v) => if opcode == ADD && s == 0 && n == rn && d == 12 then Some(v) else None
    case _ => None
  }

  /** Where the words add ip, pc, #a; add ip, ip, #b; add ip, ip, #c; ldr pc, [ip, #d]! find the address
      that they jump to, if they are such words. */
  function LoadsFrom(w: seq<Word>, pc: bv32): Option<bv32> {
    if |w| == 4 && AddedBy(w[0], 15).Some? && AddedBy(w[1], 12).Some? && AddedBy(w[2], 12).Some?
       && w[3] & 0xffff_f000 == 0xe5bc_f000
    then Some(Add(Add(Add(Add(pc, AddedBy(w[0], 15).value), AddedBy(w[1], 12).value), AddedBy(w[2], 12).value),
                  w[3] & 0xfff))
    else None
  }

  lemma EntryDecodes(off: bv32)
    ensures var w := EntryWords(off);
      && AddedBy(w[0], 15) == Some(off & 0xf000_0000) && AddedBy(w[1], 12) == Some(off & 0xff0_0000)
      && AddedBy(w[2], 12) == Some(off & 0xf_f000)
      && w[3] & 0xffff_f000 == 0xe5bc_f000 && w[3] & 0xfff == off & 0xfff
  {}

  lemma TopParts(off: bv32)
    ensures Add(off & 0xf000_0000, off & 0xff0_0000) == off & 0xfff0_0000
  {}

  lemma UpperParts(off: bv32)
    ensures Add(off & 0xfff0_0000, off & 0xf_f000) == off & 0xffff_f000
  {}

  lemma AllParts(off: bv32)
    ensures Add(off & 0xffff_f000, off & 0xfff) == off
  {}

  /** The four parts add up to the offset. */
  lemma PartsSum(pc: bv32, off: bv32)
    ensures Add(Add(Add(Add(pc, off & 0xf000_0000), off & 0xff0_0000), off & 0xf_f000), off & 0xfff) == Add(pc, off)
  {
    hide Add;
    AddAssociates(pc, off & 0xf000_0000, off & 0xff0_0000);
    TopParts(off);
    AddAssociates(pc, off & 0xfff0_0000, off & 0xf_f000);
    UpperParts(off);
    AddAssociates(pc, off & 0xffff_f000, off & 0xfff);
    AllParts(off);
  }

  /** The words of an entry jump through the place that the offset leads to from the program counter. */
  lemma EntryLoads(pc: bv32, off: bv32)
    ensures LoadsFrom(EntryWords(off), pc) == Some(Add(pc, off))
  {
    hide Add, AddedBy, EntryWords;
    EntryLength(off);
    EntryDecodes(off);
    PartsSum(pc, off);
  }

  lemma EntryLength(off: bv32)
    ensures |EntryWords(off)| == 4
  {}

  /** The byte offset of word i. */
  function ByteOffset(i: nat): bv32 {
    if i == 0 then 0 else Add(ByteOffset(i - 1), 4)
  }

  /** off of relocate_plt, d bytes into the table and with g in the next word. */
  function ToSlot(plt: bv32, got: bv32, d: bv32, g: bv32): bv32 {
    (got - plt - 12) + g - d + 4
  }

  /** The program counter that the first instruction of the entry reads. */
  function EntryPc(plt: bv32, d: bv32): bv32 {
    Add(Add(plt, d), 8)
  }

  lemma ToSlotIs(plt: bv32, got: bv32, d: bv32, g: bv32)
    ensures ToSlot(plt, got, d, g) == (got - plt - 12) + g - d + 4
  {}

  lemma PcIs(plt: bv32, d: bv32)
    ensures EntryPc(plt, d) == plt + d + 8
  {
    hide Add;
    AddIs(plt, d);
    AddIs(plt + d, 8);
  }

  lemma SlotInline(plt: bv32, got: bv32, d: bv32, g: bv32)
    ensures Add(plt + d + 8, (got - plt - 12) + g - d + 4) == Add(got, g)
  {}

  /** Followed from its entry, the offset leads to the slot. */
  lemma SlotReached(plt: bv32, got: bv32, d: bv32, g: bv32)
    ensures Add(EntryPc(plt, d), ToSlot(plt, got, d, g)) == Add(got, g)
  {
    hide Add, ToSlot, EntryPc;
    ToSlotIs(plt, got, d, g);
    PcIs(plt, d);
    SlotInline(plt, got, d, g);
  }

  lemma PcAfter(plt: bv32, d: bv32)
    ensures EntryPc(plt, Add(d, 4)) == Add(EntryPc(plt, d), 4)
  {
    hide Add;
    AddAssociates(plt, d, 4);
    AddSwaps(Add(plt, d), 4, 8);
  }

  /** And from an entry four bytes on, four bytes further. */
  lemma StubReached(plt: bv32, got: bv32, d: bv32, g: bv32)
    ensures Add(EntryPc(plt, Add(d, 4)), ToSlot(plt, got, d, g)) == Add(got, Add(g, 4))
  {
    hide Add, ToSlot, EntryPc;
    PcAfter(plt, d);
    AddSwaps(EntryPc(plt, d), 4, ToSlot(plt, got, d, g));
    SlotReached(plt, got, d, g);
    AddAssociates(got, g, 4);
  }

  /** The word at 16 in the header. */
  function HeaderWord(plt: bv32, got: bv32): bv32 {
    (got - plt - 12) - 4
  }

  lemma HeaderWordIs(plt: bv32, got: bv32)
    ensures HeaderWord(plt, got) == (got - plt - 12) - 4
  {}

  lemma HeaderInline(plt: bv32, got: bv32)
    ensures Add(plt + 16, (got - plt - 12) - 4) == got
  {}

  /** Added to the program counter of the instruction at 8, it gives got. */
  lemma HeaderReached(plt: bv32, got: bv32)
    ensures Add(plt + 16, HeaderWord(plt, got)) == got
  {
    hide Add, HeaderWord;
    HeaderWordIs(plt, got);
    HeaderInline(plt, got);
  }

  /** add ip, pc, #0x10000000; add ip, ip, #0x2300000; add ip, ip, #0x45000; ldr pc, [ip, #0x678]! */
  lemma KnownEntry()
    ensures EntryWords(0x1234_5678) == [0xe28f_c201, 0xe28c_c623, 0xe28c_ca45, 0xe5bc_f678]
    ensures LoadsFrom([0xe28f_c201, 0xe28c_c623, 0xe28c_ca45, 0xe5bc_f678], 0x1000) == Some(0x1234_6678)
    ensures LoadsFrom([0xe28f_c201, 0xe28f_c623, 0xe28c_ca45, 0xe5bc_f678], 0x1000) == None
    ensures HeaderWord(0x8000, 0x1_0000) == 0x7ff0 && ToSlot(0x8000, 0x1_0000, 20, 12) == 0x7ff0
    ensures EntryPc(0x8000, 20) == 0x801c && STUB == 0x46c0_4778
    ensures IsTable([0, 0, 0, 0, 0], [5]) && IsTable([0, 0, 0, 0, 0, 0, 8, 0, 0], [5, 9])
  {}

  /** How many words of a stub are in front of the entry at word i. */
  function Skip(code: seq<Word>, i: nat): nat
    requires i < |code|
  {
    if code[i] == STUB then 1 else 0
  }

  /** The entries after the header, with or without stub, begin at the words in starts; the last is the end. */
  ghost predicate IsTable(code: seq<Word>, starts: seq<nat>) {
    && |starts| > 0 && starts[0] == 5 && starts[|starts| - 1] == |code|
    && forall j :: 0 <= j < |starts| - 1 ==> IsStart(code, starts[j], starts[j + 1])
  }

  predicate IsStart(code: seq<Word>, i: nat, next: nat) {
    i < |code| && next == i + Skip(code, i) + 4 <= |code|
  }

  /** The entry at word i is the four words for the offset computed from there, after its stub if it has one. */
  predicate IsEntry(was: seq<Word>, now: seq<Word>, i: nat, plt: bv32, got: bv32)
    requires |was| == |now|
  {
    && i < |was| && i + Skip(was, i) + 4 <= |was|
    && now[i + Skip(was, i)..i + Skip(was, i) + 4] == EntryWords(ToSlot(plt, got, ByteOffset(i), was[i + 1]))
    && (was[i] == STUB ==> now[i] == STUB)
  }

  method FillEntry(code: array<Word>, i: nat, off: bv32)
    requires i + 4 <= code.Length
    modifies code
    ensures code[i..i + 4] == EntryWords(off)
    ensures forall j :: 0 <= j < code.Length && !(i <= j < i + 4) ==> code[j] == old(code[j])
  {
    code[i] := 0xe28f_c200 | ((off >> 28) & 0xf);
    code[i + 1] := 0xe28c_c600 | ((off >> 20) & 0xff);
    code[i + 2] := 0xe28c_ca00 | ((off >> 12) & 0xff);
    code[i + 3] := 0xe5bc_f000 | (off & 0xfff);
    assert code[i..i + 4] == EntryWords(off);
  }

  lemma OffsetNext(i: nat)
    ensures ByteOffset(i + 1) == Add(ByteOffset(i), 4)
  {}

  lemma FourTimes(d: bv32)
    ensures Add(Add(Add(Add(d, 4), 4), 4), 4) == Add(d, 16)
  {}

  lemma OffsetAfter(i: nat)
    ensures ByteOffset(i + 4) == Add(ByteOffset(i), 16)
  {
    hide Add;
    OffsetNext(i);
    OffsetNext(i + 1);
    OffsetNext(i + 2);
    OffsetNext(i + 3);
    FourTimes(ByteOffset(i));
  }

  lemma OffsetOfHeader()
    ensures ByteOffset(5) == 20
  {
    OffsetAfter(0);
    OffsetNext(4);
  }

  /** The first n entries are filled in, and the words from the next on are as they were. */
  ghost predicate Filled(was: seq<Word>, now: seq<Word>, starts: seq<nat>, n: nat, plt: bv32, got: bv32)
    requires |was| == |now| && n < |starts|
  {
    && (forall j :: 0 <= j < n ==> IsEntry(was, now, starts[j], plt, got))
    && (forall i :: starts[n] <= i < |was| ==> now[i] == was[i])
  }

  lemma {:induction false} StartsAscend(code: seq<Word>, starts: seq<nat>, j: nat, n: nat)
    requires IsTable(code, starts) && j < n < |starts|
    ensures starts[j] < |code| && starts[j] + Skip(code, starts[j]) + 4 <= starts[n] <= |code|
    decreases n
  {
    hide Skip;
    assert IsStart(code, starts[n - 1], starts[n]);
    if j < n - 1 { StartsAscend(code, starts, j, n - 1); }
  }

  lemma FilledNext(was: seq<Word>, a: seq<Word>, b: seq<Word>, starts: seq<nat>, n: nat, plt: bv32, got: bv32)
    requires |was| == |a| == |b| && IsTable(was, starts) && n + 1 < |starts| && Filled(was, a, starts, n, plt, got)
    requires forall i :: 0 <= i < |was| && !(starts[n] <= i < starts[n + 1]) ==> b[i] == a[i]
    requires IsEntry(was, b, starts[n], plt, got)
    ensures Filled(was, b, starts, n + 1, plt, got)
  {
    hide EntryWords, ByteOffset, ToSlot, IsTable, Skip;
    StartsAscend(was, starts, n, n + 1);
    forall j | 0 <= j < n ensures IsEntry(was, b, starts[j], plt, got) {
      StartsAscend(was, starts, j, n);
      assert IsEntry(was, a, starts[j], plt, got);
      var e := starts[j] + Skip(was, starts[j]);
      assert b[e..e + 4] == a[e..e + 4];
    }
  }

  /** relocate_plt, for a table with its header */
  method RelocatePlt(code: array<Word>, plt: bv32, got: bv32, ghost starts: seq<nat>)
    requires code.Length >= 5 && IsTable(code[..], starts)
    modifies code
    ensures code[..4] == old(code[..4]) && code[4] == HeaderWord(plt, got)
    ensures forall j :: 0 <= j < |starts| - 1 ==> IsEntry(old(code[..]), code[..], starts[j], plt, got)
  {
    hide EntryWords, ByteOffset, ToSlot, HeaderWord, IsEntry, Filled, IsTable, Add;
    ghost var was := code[..];
    TableEnds(was, starts);
    code[4] := HeaderWord(plt, got);
    var p, i := 20, 5;
    ghost var n := 0;
    OffsetOfHeader();
    NothingFilled(was, code[..], starts, plt, got);
    while i < code.Length
      invariant 0 <= n < |starts| && 5 <= i == starts[n] <= code.Length && p == ByteOffset(i)
      invariant code[..4] == was[..4] && code[4] == HeaderWord(plt, got)
      invariant Filled(was, code[..], starts, n, plt, got)
      decreases code.Length - i
    {
      StartAt(was, code[..], starts, n, plt, got);
      ghost var before, i0 := code[..], i;
      var off := ToSlot(plt, got, p, code[i + 1]);
      if code[i] == STUB {
        OffsetNext(i);
        p, i := Add(p, 4), i + 1;
      }
      FillEntry(code, i, off);
      assert code[..][i..i + 4] == code[i..i + 4];
      IsEntryBy(was, code[..], i0, plt, got);
      FilledNext(was, before, code[..], starts, n, plt, got);
      OffsetAfter(i);
      p, i := Add(p, 16), i + 4;
      n := n + 1;
    }
    AllFilled(was, code[..], starts, n, plt, got);
  }

  lemma TableEnds(code: seq<Word>, starts: seq<nat>)
    requires IsTable(code, starts)
    ensures |starts| > 0 && starts[0] == 5 && starts[|starts| - 1] == |code|
  {}

  lemma NothingFilled(was: seq<Word>, now: seq<Word>, starts: seq<nat>, plt: bv32, got: bv32)
    requires IsTable(was, starts) && |was| == |now| && forall i :: 5 <= i < |was| ==> now[i] == was[i]
    ensures |starts| > 0 && Filled(was, now, starts, 0, plt, got)
  {}

  lemma AllFilled(was: seq<Word>, now: seq<Word>, starts: seq<nat>, n: nat, plt: bv32, got: bv32)
    requires IsTable(was, starts) && |was| == |now| && n < |starts| && starts[n] == |was|
    requires Filled(was, now, starts, n, plt, got)
    ensures forall j :: 0 <= j < |starts| - 1 ==> IsEntry(was, now, starts[j], plt, got)
  {
    hide IsEntry;
    if n < |starts| - 1 { StartsAscend(was, starts, n, |starts| - 1); }
  }

  lemma StartAt(was: seq<Word>, now: seq<Word>, starts: seq<nat>, n: nat, plt: bv32, got: bv32)
    requires IsTable(was, starts) && |was| == |now| && n < |starts| && starts[n] < |was|
    requires Filled(was, now, starts, n, plt, got)
    ensures var i := starts[n];
      && n + 1 < |starts| && starts[n + 1] == i + Skip(was, i) + 4 <= |was|
      && now[i] == was[i] && now[i + 1] == was[i + 1]
  {
    hide IsEntry;
    assert n < |starts| - 1;
    assert IsStart(was, starts[n], starts[n + 1]);
  }

  lemma IsEntryBy(was: seq<Word>, now: seq<Word>, i: nat, plt: bv32, got: bv32)
    requires |was| == |now| && i < |was| && i + Skip(was, i) + 4 <= |was|
    requires var e := i + Skip(was, i); now[e..e + 4] == EntryWords(ToSlot(plt, got, ByteOffset(i), was[i + 1]))
    requires was[i] == STUB ==> now[i] == STUB
    ensures IsEntry(was, now, i, plt, got)
  {
    hide EntryWords, ByteOffset, ToSlot, Skip;
  }

  /** Where a filled-in entry finds the address it jumps to: at the offset in its second word, but with a
      stub in front four bytes beyond the offset in its first. */
  lemma EntryFinds(was: seq<Word>, now: seq<Word>, i: nat, plt: bv32, got: bv32)
    requires |was| == |now| && IsEntry(was, now, i, plt, got)
    ensures var e := i + Skip(was, i);
      LoadsFrom(now[e..e + 4], EntryPc(plt, ByteOffset(e)))
        == Some(Add(got, if was[i] == STUB then Add(was[i + 1], 4) else was[i + 1]))
  {
    hide LoadsFrom, EntryWords, ToSlot, EntryPc, Add;
    var off := ToSlot(plt, got, ByteOffset(i), was[i + 1]);
    EntryLoads(EntryPc(plt, ByteOffset(i + Skip(was, i))), off);
    if was[i] == STUB {
      StubReached(plt, got, ByteOffset(i), was[i + 1]);
    } else {
      SlotReached(plt, got, ByteOffset(i), was[i + 1]);
    }
  }

  /** create_plt_entry puts the offset of the slot into the second word of the entry. The entry jumps through
      that slot exactly if it has no stub, or the word before happens to be four less. */
  lemma EntryJumps(was: seq<Word>, now: seq<Word>, i: nat, plt: bv32, got: bv32)
    requires |was| == |now| && IsEntry(was, now, i, plt, got)
    ensures var e := i + Skip(was, i);
      LoadsFrom(now[e..e + 4], EntryPc(plt, ByteOffset(e))) == Some(Add(got, was[e + 1])) <==>
        was[i] == STUB ==> Add(was[i + 1], 4) == was[i + 2]
  {
    hide LoadsFrom, EntryWords, ToSlot, EntryPc, Add, IsEntry, ByteOffset;
    EntryRange(was, now, i, plt, got);
    EntryFinds(was, now, i, plt, got);
    AddCancels(got, if was[i] == STUB then Add(was[i + 1], 4) else was[i + 1], was[i + Skip(was, i) + 1]);
  }

  lemma EntryRange(was: seq<Word>, now: seq<Word>, i: nat, plt: bv32, got: bv32)
    requires |was| == |now| && IsEntry(was, now, i, plt, got)
    ensures i < |was| && i + Skip(was, i) + 4 <= |was|
  {
    hide EntryWords, ToSlot, ByteOffset;
  }

  /** As the entry is created after a stub, with the slot at 12, it jumps through the place at 4. */
  lemma StubMisses(plt: bv32, got: bv32)
    ensures IsTable([0, 0, 0, 0, 0, STUB, 0, 12, 0, 0], [5, 10])
    ensures forall now: seq<Word> :: |now| == 10 && IsEntry([0, 0, 0, 0, 0, STUB, 0, 12, 0, 0], now, 5, plt, got) ==>
              LoadsFrom(now[6..10], EntryPc(plt, 24)) == Some(Add(got, 4))
  {
    hide LoadsFrom, EntryWords, ToSlot, EntryPc, Add, IsEntry, ByteOffset;
    var was: seq<Word> := [0, 0, 0, 0, 0, STUB, 0, 12, 0, 0];
    assert IsStart(was, 5, 10);
    OffsetOfHeader();
    OffsetNext(5);
    AddIs(20, 4);
    AddIs(0, 4);
    forall now: seq<Word> | |now| == 10 && IsEntry(was, now, 5, plt, got)
      ensures LoadsFrom(now[6..10], EntryPc(plt, 24)) == Some(Add(got, 4))
    {
      EntryFinds(was, now, 5, plt, got);
    }
  }
}
