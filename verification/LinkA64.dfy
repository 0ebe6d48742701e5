/** Relocation of A64 branches and address pairs, and of the procedure linkage table (src/arm64-link.c;
    section 4.6 of IHI 0056B). */
module LinkA64 {
  type Word = bv32

  function Low32(v: bv64): Word {
    (v & 0xffff_ffff) as bv32
  }

  // Branches: the displacement in words, 26, 19 or 14 bits wide

  /** A displacement that B and BL can hold. */
  function Offset26(imm: bv64): bv64 {
    if imm & 0x200_0000 == 0 then imm << 2 else (imm << 2) | 0xffff_ffff_f000_0000
  }

  function Offset19(imm: bv64): bv64 {
    if imm & 0x4_0000 == 0 then imm << 2 else (imm << 2) | 0xffff_ffff_ffe0_0000
  }

  function Offset14(imm: bv64): bv64 {
    if imm & 0x2000 == 0 then imm << 2 else (imm << 2) | 0xffff_ffff_ffff_0000
  }

  /** Where the instructions have them. */
  function Field26(w: Word): bv64 {
    (w & 0x3ff_ffff) as bv64
  }

  function Field19(w: Word): bv64 {
    ((w >> 5) & 0x7_ffff) as bv64
  }

  function Field14(w: Word): bv64 {
    ((w >> 5) & 0x3fff) as bv64
  }

  /** The range tests of relocate. */
  predicate Passes26(d: bv64) {
    (d + (1 << 27)) & !0xfff_fffc == 0
  }

  predicate Passes19(d: bv64) {
    (d + (1 << 20)) & !0x1f_fffc == 0
  }

  predicate Passes14(d: bv64) {
    (d + (1 << 15)) & !0xfffc == 0
  }

  function Jump26(call: bv64, d: bv64): Word
    requires call < 2
  {
    Low32(0x1400_0000 | (call << 31) | ((d >> 2) & 0x3ff_ffff))
  }

  function Cond19(w: Word, d: bv64): Word {
    Low32(((w as bv64) & 0xff00_001f) | (((d >> 2) & 0x7_ffff) << 5))
  }

  function Test14(w: Word, d: bv64): Word {
    Low32(((w as bv64) & 0xfff8_001f) | (((d >> 2) & 0x3fff) << 5))
  }

  lemma Jump26Field(call: bv64, d: bv64)
    requires call < 2
    ensures Field26(Jump26(call, d)) == (d >> 2) & 0x3ff_ffff
  {}

  lemma Jump26Keeps(call: bv64, d: bv64)
    requires call < 2
    ensures Jump26(call, d) & 0xfc00_0000 == if call == 1 then 0x9400_0000 else 0x1400_0000
  {}

  predicate Forward26(d: bv64) {
    d & !0x7ff_fffc == 0
  }

  predicate Backward26(d: bv64) {
    d & 3 == 0 && d | 0x7ff_ffff == 0xffff_ffff_ffff_ffff
  }

  lemma Jump26Ways(d: bv64)
    requires Passes26(d)
    ensures Forward26(d) || Backward26(d)
  {}

  lemma Jump26Forward(d: bv64)
    requires Forward26(d)
    ensures Offset26((d >> 2) & 0x3ff_ffff) == d
  {}

  lemma Jump26Backward(d: bv64)
    requires Backward26(d)
    ensures Offset26((d >> 2) & 0x3ff_ffff) == d
  {}

  lemma Jump26Reaches(d: bv64)
    requires Passes26(d)
    ensures Offset26((d >> 2) & 0x3ff_ffff) == d
  {
    hide Forward26, Backward26, Offset26, Passes26;
    Jump26Ways(d);
    if Forward26(d) { Jump26Forward(d); } else { Jump26Backward(d); }
  }

  /** A displacement that has an encoding passes. */
  lemma Jump26Complete(d: bv64, imm: bv64)
    requires imm < 0x400_0000 && Offset26(imm) == d
    ensures Passes26(d)
  {}

  lemma Jump26Range(d: bv64)
    ensures (d >> 2) & 0x3ff_ffff < 0x400_0000
  {}

  /** R_AARCH64_JUMP26 and CALL26: the word is B or BL, and it goes exactly as far as asked whenever the
      range test passes; and the test passes just for the displacements that have an encoding. */
  lemma Jump26Exact(call: bv64, d: bv64)
    requires call < 2
    ensures Jump26(call, d) & 0xfc00_0000 == if call == 1 then 0x9400_0000 else 0x1400_0000
    ensures Passes26(d) <==> Offset26(Field26(Jump26(call, d))) == d
  {
    hide Jump26, Passes26, Offset26, Field26;
    Jump26Keeps(call, d);
    Jump26Field(call, d);
    Jump26Range(d);
    if Passes26(d) { Jump26Reaches(d); }
    if Offset26((d >> 2) & 0x3ff_ffff) == d { Jump26Complete(d, (d >> 2) & 0x3ff_ffff); }
  }

  lemma Cond19Field(w: Word, d: bv64)
    ensures Field19(Cond19(w, d)) == (d >> 2) & 0x7_ffff
  {}

  lemma Cond19Keeps(w: Word, d: bv64)
    ensures Cond19(w, d) & 0xff00_001f == w & 0xff00_001f
  {}

  predicate Forward19(d: bv64) {
    d & !0xf_fffc == 0
  }

  predicate Backward19(d: bv64) {
    d & 3 == 0 && d | 0xf_ffff == 0xffff_ffff_ffff_ffff
  }

  lemma Cond19Ways(d: bv64)
    requires Passes19(d)
    ensures Forward19(d) || Backward19(d)
  {}

  lemma Cond19Forward(d: bv64)
    requires Forward19(d)
    ensures Offset19((d >> 2) & 0x7_ffff) == d
  {}

  lemma Cond19Backward(d: bv64)
    requires Backward19(d)
    ensures Offset19((d >> 2) & 0x7_ffff) == d
  {}

  lemma Cond19Reaches(d: bv64)
    requires Passes19(d)
    ensures Offset19((d >> 2) & 0x7_ffff) == d
  {
    hide Forward19, Backward19, Offset19, Passes19;
    Cond19Ways(d);
    if Forward19(d) { Cond19Forward(d); } else { Cond19Backward(d); }
  }

  /** A displacement that has an encoding passes. */
  lemma Cond19Complete(d: bv64, imm: bv64)
    requires imm < 0x8_0000 && Offset19(imm) == d
    ensures Passes19(d)
  {}

  lemma Cond19Range(d: bv64)
    ensures (d >> 2) & 0x7_ffff < 0x8_0000
  {}

  /** R_AARCH64_CONDBR19, for B.cond, CBZ and CBNZ. */
  lemma Cond19Exact(w: Word, d: bv64)
    ensures Cond19(w, d) & 0xff00_001f == w & 0xff00_001f
    ensures Passes19(d) <==> Offset19(Field19(Cond19(w, d))) == d
  {
    hide Cond19, Passes19, Offset19, Field19;
    Cond19Keeps(w, d);
    Cond19Field(w, d);
    Cond19Range(d);
    if Passes19(d) { Cond19Reaches(d); }
    if Offset19((d >> 2) & 0x7_ffff) == d { Cond19Complete(d, (d >> 2) & 0x7_ffff); }
  }

  lemma Test14Field(w: Word, d: bv64)
    ensures Field14(Test14(w, d)) == (d >> 2) & 0x3fff
  {}

  lemma Test14Keeps(w: Word, d: bv64)
    ensures Test14(w, d) & 0xfff8_001f == w & 0xfff8_001f
  {}

  predicate Forward14(d: bv64) {
    d & !0x7ffc == 0
  }

  predicate Backward14(d: bv64) {
    d & 3 == 0 && d | 0x7fff == 0xffff_ffff_ffff_ffff
  }

  lemma Test14Ways(d: bv64)
    requires Passes14(d)
    ensures Forward14(d) || Backward14(d)
  {}

  lemma Test14Forward(d: bv64)
    requires Forward14(d)
    ensures Offset14((d >> 2) & 0x3fff) == d
  {}

  lemma Test14Backward(d: bv64)
    requires Backward14(d)
    ensures Offset14((d >> 2) & 0x3fff) == d
  {}

  lemma Test14Reaches(d: bv64)
    requires Passes14(d)
    ensures Offset14((d >> 2) & 0x3fff) == d
  {
    hide Forward14, Backward14, Offset14, Passes14;
    Test14Ways(d);
    if Forward14(d) { Test14Forward(d); } else { Test14Backward(d); }
  }

  /** A displacement that has an encoding passes. */
  lemma Test14Complete(d: bv64, imm: bv64)
    requires imm < 0x4000 && Offset14(imm) == d
    ensures Passes14(d)
  {}

  lemma Test14Range(d: bv64)
    ensures (d >> 2) & 0x3fff < 0x4000
  {}

  /** R_AARCH64_TSTBR14, for TBZ and TBNZ. */
  lemma Test14Exact(w: Word, d: bv64)
    ensures Test14(w, d) & 0xfff8_001f == w & 0xfff8_001f
    ensures Passes14(d) <==> Offset14(Field14(Test14(w, d))) == d
  {
    hide Test14, Passes14, Offset14, Field14;
    Test14Keeps(w, d);
    Test14Field(w, d);
    Test14Range(d);
    if Passes14(d) { Test14Reaches(d); }
    if Offset14((d >> 2) & 0x3fff) == d { Test14Complete(d, (d >> 2) & 0x3fff); }
  }

  // What the tests let pass, and words with the places they lead to

  lemma Range26(d: bv64)
    ensures Passes26(d) <==> d & 3 == 0 && (d < 0x800_0000 || d >= 0xffff_ffff_f800_0000)
  {}

  lemma Range19(d: bv64)
    ensures Passes19(d) <==> d & 3 == 0 && (d < 0x10_0000 || d >= 0xffff_ffff_fff0_0000)
  {}

  lemma Range14(d: bv64)
    ensures Passes14(d) <==> d & 3 == 0 && (d < 0x8000 || d >= 0xffff_ffff_ffff_8000)
  {}

  /** b +4, b -4 and b -2^27; b.eq +8, b.eq -4 and b.eq -2^20; tbz w0, #0, +8, -4 and -2^15 */
  lemma KnownBranches()
    ensures Offset26(Field26(0x1400_0001)) == 4 && Offset26(Field26(0x17ff_ffff)) == 0xffff_ffff_ffff_fffc
    ensures Offset26(Field26(0x1600_0000)) == 0xffff_ffff_f800_0000
    ensures Offset19(Field19(0x5400_0040)) == 8 && Offset19(Field19(0x54ff_ffe0)) == 0xffff_ffff_ffff_fffc
    ensures Offset19(Field19(0x5480_0000)) == 0xffff_ffff_fff0_0000
    ensures Offset14(Field14(0x3600_0040)) == 8 && Offset14(Field14(0x3607_ffe0)) == 0xffff_ffff_ffff_fffc
    ensures Offset14(Field14(0x3604_0000)) == 0xffff_ffff_ffff_8000
  {}

  // ADRP and what follows it

  function Pages(imm: bv64): bv64 {
    if imm & 0x10_0000 == 0 then imm else imm | 0xffff_ffff_ffe0_0000
  }

  /** The 21 bits of an ADRP: immhi and immlo. */
  function AdrpImm(w: Word): bv64 {
    ((((w >> 5) & 0x7_ffff) << 2) | ((w >> 29) & 3)) as bv64
  }

  predicate PassesPages(off: bv64) {
    (off + (1 << 20)) >> 21 == 0
  }

  function Minus(a: bv64, b: bv64): bv64 {
    a - b
  }

  function PageDistance(addr: bv64, val: bv64): bv64 {
    Minus(val >> 12, addr >> 12)
  }

  function Adrp(w: Word, off: bv64): Word {
    Low32(((w as bv64) & 0x9f00_001f) | ((off & 0x1f_fffc) << 3) | ((off & 3) << 29))
  }

  lemma AdrpField(w: Word, off: bv64)
    ensures AdrpImm(Adrp(w, off)) == off & 0x1f_ffff
  {}

  lemma AdrpKeeps(w: Word, off: bv64)
    ensures Adrp(w, off) & 0x9f00_001f == w & 0x9f00_001f
  {}

  predicate ForwardPages(off: bv64) {
    off & !0xf_ffff == 0
  }

  predicate BackwardPages(off: bv64) {
    off | 0xf_ffff == 0xffff_ffff_ffff_ffff
  }

  lemma AdrpWays(off: bv64)
    requires PassesPages(off)
    ensures ForwardPages(off) || BackwardPages(off)
  {}

  lemma AdrpForward(off: bv64)
    requires ForwardPages(off)
    ensures Pages(off & 0x1f_ffff) == off
  {}

  lemma AdrpBackward(off: bv64)
    requires BackwardPages(off)
    ensures Pages(off & 0x1f_ffff) == off
  {}

  lemma AdrpReaches(off: bv64)
    requires PassesPages(off)
    ensures Pages(off & 0x1f_ffff) == off
  {
    hide ForwardPages, BackwardPages, Pages, PassesPages;
    AdrpWays(off);
    if ForwardPages(off) { AdrpForward(off); } else { AdrpBackward(off); }
  }

  lemma AdrpComplete(off: bv64, imm: bv64)
    requires imm < 0x20_0000 && Pages(imm) == off
    ensures PassesPages(off)
  {}

  lemma AdrpRange(off: bv64)
    ensures off & 0x1f_ffff < 0x20_0000
  {}

  /** R_AARCH64_ADR_PREL_PG_HI21 and ADR_GOT_PAGE: likewise for distances in pages. */
  lemma AdrpExact(w: Word, off: bv64)
    ensures Adrp(w, off) & 0x9f00_001f == w & 0x9f00_001f
    ensures PassesPages(off) <==> Pages(AdrpImm(Adrp(w, off))) == off
  {
    hide Adrp, AdrpImm, Pages, PassesPages;
    AdrpKeeps(w, off);
    AdrpField(w, off);
    AdrpRange(off);
    if PassesPages(off) { AdrpReaches(off); }
    if Pages(off & 0x1f_ffff) == off { AdrpComplete(off, off & 0x1f_ffff); }
  }

  /** What ADRP at addr puts in its register. */
  function AdrpValue(w: Word, addr: bv64): bv64 {
    PageOf(addr, Pages(AdrpImm(w)))
  }

  function Plus(a: bv64, b: bv64): bv64 {
    a + b
  }

  function Bytes(pages: bv64): bv64 {
    pages << 12
  }

  function Page(x: bv64): bv64 {
    x & !0xfff
  }

  function PageOf(addr: bv64, off: bv64): bv64 {
    Plus(Page(addr), Bytes(off))
  }

  lemma MinusIs(x: bv64, y: bv64)
    ensures Minus(x, y) == x - y
  {}

  lemma BytesIs(x: bv64)
    ensures Bytes(x) == x << 12
  {}

  lemma BytesOfDifference(x: bv64, y: bv64)
    ensures Bytes(x - y) == Minus(x << 12, y << 12)
  {}

  lemma BytesOfMinus(x: bv64, y: bv64)
    ensures Bytes(Minus(x, y)) == Minus(Bytes(x), Bytes(y))
  {
    hide Bytes, Minus;
    MinusIs(x, y);
    BytesIs(x);
    BytesIs(y);
    BytesOfDifference(x, y);
  }

  lemma PlusDifference(a: bv64, b: bv64)
    ensures Plus(b, a - b) == a
  {}

  lemma PlusMinus(a: bv64, b: bv64)
    ensures Plus(b, Minus(a, b)) == a
  {
    hide Plus;
    PlusDifference(a, b);
  }

  lemma PageBase(x: bv64)
    ensures Bytes(x >> 12) == Page(x)
  {}

  lemma PageReached(addr: bv64, val: bv64)
    ensures PageOf(addr, PageDistance(addr, val)) == Page(val)
  {
    hide Plus, Bytes, Page, Minus;
    PageBase(addr);
    PageBase(val);
    BytesOfMinus(val >> 12, addr >> 12);
    PlusMinus(Page(val), Page(addr));
  }

  /** An ADRP whose relocation passes gets the page of val. */
  lemma AdrpPage(w: Word, addr: bv64, val: bv64)
    requires PassesPages(PageDistance(addr, val))
    ensures AdrpValue(Adrp(w, PageDistance(addr, val)), addr) == Page(val)
  {
    hide Adrp, AdrpImm, Pages, PassesPages, PageOf, PageDistance, Page;
    AdrpExact(w, PageDistance(addr, val));
    PageReached(addr, val);
  }

  // The low 12 bits

  /** ADD_ABS_LO12_NC and LDST8: the 12 bits are the offset; for LDSTn they count units of n bits. */
  function Lo12(w: Word, size: bv64, val: bv64): Word {
    Low32(((w as bv64) & 0xffc0_03ff)
          | (if size == 0 then (val & 0xfff) << 10
             else if size == 1 then (val & 0xffe) << 9
             else if size == 2 then (val & 0xffc) << 8
             else if size == 3 then (val & 0xff8) << 7
             else (val & 0xff0) << 6))
  }

  function Imm12(w: Word): bv64 {
    ((w >> 10) & 0xfff) as bv64
  }

  /** The bytes that the 12 bits of a load or store of 1 << size bytes stand for. */
  function Scaled(size: bv64, imm: bv64): bv64
    requires size <= 4
  {
    imm << size
  }

  predicate AlignedFor(size: bv64, val: bv64)
    requires size <= 4
  {
    val & ((1 << size) - 1) == 0
  }

  /** The offset is exact just when the address is aligned for the access. */
  lemma Lo12Exact(w: Word, size: bv64, val: bv64)
    requires size <= 4
    ensures Lo12(w, size, val) & 0xffc0_03ff == w & 0xffc0_03ff
    ensures Scaled(size, Imm12(Lo12(w, size, val))) == val & 0xfff <==> AlignedFor(size, val)
  {
    if size == 0 {} else if size == 1 {} else if size == 2 {} else if size == 3 {}
  }

  /** Where it is not, the address is rounded down to the unit. */
  lemma Lo12Rounds(w: Word, size: bv64, val: bv64)
    requires size <= 4
    ensures Scaled(size, Imm12(Lo12(w, size, val))) ==
      if size == 0 then val & 0xfff else if size == 1 then val & 0xffe else if size == 2 then val & 0xffc
      else if size == 3 then val & 0xff8 else val & 0xff0
  {
    if size == 0 {} else if size == 1 {} else if size == 2 {} else if size == 3 {}
  }

  lemma PageAndRest(val: bv64)
    ensures Plus(val & !0xfff, val & 0xfff) == val
  {}

  /** ADRP and ADD, or ADRP and a load or store of aligned data, reach val. */
  lemma PairReaches(w1: Word, w2: Word, size: bv64, addr: bv64, val: bv64)
    requires size <= 4 && PassesPages(PageDistance(addr, val)) && AlignedFor(size, val)
    ensures Plus(AdrpValue(Adrp(w1, PageDistance(addr, val)), addr), Scaled(size, Imm12(Lo12(w2, size, val)))) == val
  {
    hide Adrp, AdrpValue, PassesPages, PageDistance, Plus, Scaled, Imm12, Lo12, AlignedFor;
    AdrpPage(w1, addr, val);
    Lo12Exact(w2, size, val);
    PageAndRest(val);
  }

  /** LD64_GOT_LO12_NC keeps three bits of the old field: right as long as those are zero. */
  function GotLo12(w: Word, slot: bv64): Word {
    Low32(((w as bv64) & 0xfff8_03ff) | ((slot & 0xff8) << 7))
  }

  lemma GotLo12Exact(w: Word, slot: bv64)
    requires slot & 7 == 0
    ensures Scaled(3, Imm12(GotLo12(w, slot))) == slot & 0xfff <==> w & 0x38_0000 == 0
    ensures GotLo12(w, slot) & 0xfff8_03ff == w & 0xfff8_03ff
  {}

  lemma RangePages(off: bv64)
    ensures PassesPages(off) <==> off < 0x10_0000 || off >= 0xffff_ffff_fff0_0000
  {}

  lemma DistanceIs(addr: bv64, val: bv64, off: bv64)
    requires off == (val >> 12) - (addr >> 12)
    ensures PageDistance(addr, val) == off
  {}

  /** At 0x12345678: adrp x16 with 0, 1, 4, 2^20 - 1, -2^20 and -1 for its immediate */
  lemma KnownPages()
    ensures AdrpValue(0x9000_0010, 0x1234_5678) == 0x1234_5000 && AdrpValue(0xb000_0010, 0x1234_5678) == 0x1234_6000
    ensures AdrpValue(0x9000_0030, 0x1234_5678) == 0x1234_9000 && AdrpValue(0xf07f_fff0, 0x1234_5678) == 0x1_1234_4000
    ensures AdrpValue(0x9080_0010, 0x1234_5678) == 0xffff_ffff_1234_5000
    ensures AdrpValue(0xf0ff_fff0, 0x1234_5678) == 0x1234_4000
  {}

  /** add x0, x0, #0x123; ldrb w0, [x0, #3]; ldrh w0, [x0, #6]; ldr w0, [x0, #12]; ldr x0, [x0, #24];
      ldr q0, [x0, #48] */
  lemma KnownLow()
    ensures Scaled(0, Imm12(0x9104_8c00)) == 0x123 && Scaled(0, Imm12(0x3940_0c00)) == 3
    ensures Scaled(1, Imm12(0x7940_0c00)) == 6 && Scaled(2, Imm12(0xb940_0c00)) == 12
    ensures Scaled(3, Imm12(0xf940_0c00)) == 24 && Scaled(4, Imm12(0x3dc0_0c00)) == 48
  {}

  lemma AlignedIs(val: bv64)
    ensures AlignedFor(0, val)
    ensures AlignedFor(1, val) <==> val & 1 == 0
    ensures AlignedFor(2, val) <==> val & 3 == 0
    ensures AlignedFor(3, val) <==> val & 7 == 0
    ensures AlignedFor(4, val) <==> val & 15 == 0
  {}

  // relocate

  datatype Reloc = Jump | Call | CondBr19 | TstBr14 | AdrPage | AddLo12 | LdstLo12(size: bv64)

  predicate Passes(t: Reloc, addr: bv64, val: bv64) {
    match t
    case Jump => Passes26(Minus(val, addr))
    case Call => Passes26(Minus(val, addr))
    case CondBr19 => Passes19(Minus(val, addr))
    case TstBr14 => Passes14(Minus(val, addr))
    case AdrPage => PassesPages(PageDistance(addr, val))
    case _ => true
  }

  /** The word after relocation goes to, or forms the page or the low bits of, exactly val. */
  predicate Reaches(t: Reloc, w: Word, addr: bv64, val: bv64) {
    match t
    case Jump => Plus(addr, Offset26(Field26(w))) == val
    case Call => Plus(addr, Offset26(Field26(w))) == val
    case CondBr19 => Plus(addr, Offset19(Field19(w))) == val
    case TstBr14 => Plus(addr, Offset14(Field14(w))) == val
    case AdrPage => Pages(AdrpImm(w)) == PageDistance(addr, val) && AdrpValue(w, addr) == Page(val)
    case AddLo12 => Scaled(0, Imm12(w)) == val & 0xfff
    case LdstLo12(size) => size <= 4 && Scaled(size, Imm12(w)) == val & 0xfff
  }

  function Relocated(t: Reloc, w: Word, addr: bv64, val: bv64): Word {
    match t
    case Jump => Jump26(0, Minus(val, addr))
    case Call => Jump26(1, Minus(val, addr))
    case CondBr19 => Cond19(w, Minus(val, addr))
    case TstBr14 => Test14(w, Minus(val, addr))
    case AdrPage => Adrp(w, PageDistance(addr, val))
    case AddLo12 => Lo12(w, 0, val)
    case LdstLo12(size) => Lo12(w, size, val)
  }

  /** The bits of the word that the relocation does not fill in. */
  function Kept(t: Reloc): Word {
    match t
    case Jump => 0
    case Call => 0
    case CondBr19 => 0xff00_001f
    case TstBr14 => 0xfff8_001f
    case AdrPage => 0x9f00_001f
    case _ => 0xffc0_03ff
  }

  predicate Keeps(t: Reloc, w: Word, was: Word) {
    w & Kept(t) == was & Kept(t)
  }

  lemma KeptIs()
    ensures Kept(Jump) == 0 && Kept(Call) == 0 && Kept(CondBr19) == 0xff00_001f && Kept(TstBr14) == 0xfff8_001f
    ensures Kept(AdrPage) == 0x9f00_001f && Kept(AddLo12) == 0xffc0_03ff && Kept(LdstLo12(3)) == 0xffc0_03ff
  {}

  lemma MinusSum(addr: bv64, d: bv64)
    ensures Minus(addr + d, addr) == d
  {}

  lemma MinusPlus(addr: bv64, d: bv64)
    ensures Minus(Plus(addr, d), addr) == d
  {
    hide Minus;
    MinusSum(addr, d);
  }

  lemma DifferenceReaches(addr: bv64, val: bv64, d: bv64)
    ensures Plus(addr, d) == val <==> d == Minus(val, addr)
  {
    hide Plus, Minus;
    MinusPlus(addr, d);
    PlusMinus(val, addr);
  }

  lemma JumpReloc(t: Reloc, w: Word, addr: bv64, val: bv64, call: bv64)
    requires (t == Jump && call == 0) || (t == Call && call == 1)
    ensures Passes(t, addr, val) <==> Reaches(t, Relocated(t, w, addr, val), addr, val)
  {
    hide Jump26, Passes26, Offset26, Field26, Plus, Minus;
    Jump26Exact(call, Minus(val, addr));
    DifferenceReaches(addr, val, Offset26(Field26(Jump26(call, Minus(val, addr)))));
  }

  /** The field that a branch or ADRP gets, also where the test fails: the low bits of the distance d, in words or, as
      p, in pages. */
  lemma FieldsWritten(w: Word, addr: bv64, val: bv64, d: bv64, p: bv64)
    requires d == val - addr && p == (val >> 12) - (addr >> 12)
    ensures Field26(Relocated(Jump, w, addr, val)) == (d >> 2) & 0x3ff_ffff
    ensures Relocated(Jump, w, addr, val) & 0xfc00_0000 == 0x1400_0000
    ensures Field26(Relocated(Call, w, addr, val)) == (d >> 2) & 0x3ff_ffff
    ensures Relocated(Call, w, addr, val) & 0xfc00_0000 == 0x9400_0000
    ensures Field19(Relocated(CondBr19, w, addr, val)) == (d >> 2) & 0x7_ffff
    ensures Field14(Relocated(TstBr14, w, addr, val)) == (d >> 2) & 0x3fff
    ensures AdrpImm(Relocated(AdrPage, w, addr, val)) == p & 0x1f_ffff
  {
    hide Jump26, Cond19, Test14, Adrp, Field26, Field19, Field14, AdrpImm, Minus, PageDistance;
    MinusIs(val, addr);
    DistanceIs(addr, val, p);
    Jump26Field(0, d);
    Jump26Keeps(0, d);
    Jump26Field(1, d);
    Jump26Keeps(1, d);
    Cond19Field(w, d);
    Test14Field(w, d);
    AdrpField(w, p);
  }

  lemma CondReloc(w: Word, addr: bv64, val: bv64)
    ensures Passes(CondBr19, addr, val) <==> Reaches(CondBr19, Relocated(CondBr19, w, addr, val), addr, val)
  {
    hide Cond19, Passes19, Offset19, Field19, Plus, Minus;
    Cond19Exact(w, Minus(val, addr));
    DifferenceReaches(addr, val, Offset19(Field19(Cond19(w, Minus(val, addr)))));
  }

  lemma TestReloc(w: Word, addr: bv64, val: bv64)
    ensures Passes(TstBr14, addr, val) <==> Reaches(TstBr14, Relocated(TstBr14, w, addr, val), addr, val)
  {
    hide Test14, Passes14, Offset14, Field14, Plus, Minus;
    Test14Exact(w, Minus(val, addr));
    DifferenceReaches(addr, val, Offset14(Field14(Test14(w, Minus(val, addr)))));
  }

  lemma PageReloc(w: Word, addr: bv64, val: bv64)
    ensures Passes(AdrPage, addr, val) <==> Reaches(AdrPage, Relocated(AdrPage, w, addr, val), addr, val)
  {
    hide Adrp, PassesPages, Pages, AdrpImm, AdrpValue, PageDistance, Page;
    AdrpExact(w, PageDistance(addr, val));
    if PassesPages(PageDistance(addr, val)) { AdrpPage(w, addr, val); }
  }

  lemma LowReloc(t: Reloc, w: Word, addr: bv64, val: bv64, size: bv64)
    requires (t == AddLo12 && size == 0) || (t == LdstLo12(size) && size <= 4)
    ensures Passes(t, addr, val) && (Reaches(t, Relocated(t, w, addr, val), addr, val) <==> AlignedFor(size, val))
  {
    hide Lo12, Scaled, Imm12, AlignedFor;
    Lo12Exact(w, size, val);
  }

  lemma LowPasses(t: Reloc, addr: bv64, val: bv64)
    ensures t.AddLo12? || t.LdstLo12? ==> Passes(t, addr, val)
  {}

  /** The address is aligned for the access. */
  predicate Suits(t: Reloc, val: bv64) {
    t.LdstLo12? ==> t.size <= 4 && AlignedFor(t.size, val)
  }

  /** What the word can do is exactly what the test lets pass, and for the low bits of a load or store,
      which are not tested, what is aligned for the access. */
  lemma RelocExact(t: Reloc, w: Word, addr: bv64, val: bv64)
    requires t.LdstLo12? ==> t.size <= 4
    ensures Reaches(t, Relocated(t, w, addr, val), addr, val) <==> Passes(t, addr, val) && Suits(t, val)
  {
    hide Passes, Reaches, Relocated, AlignedFor;
    match t
    case Jump => JumpReloc(t, w, addr, val, 0);
    case Call => JumpReloc(t, w, addr, val, 1);
    case CondBr19 => CondReloc(w, addr, val);
    case TstBr14 => TestReloc(w, addr, val);
    case AdrPage => PageReloc(w, addr, val);
    case AddLo12 =>
      LowReloc(t, w, addr, val, 0);
      AlwaysAligned(val);
    case LdstLo12(size) => LowReloc(t, w, addr, val, size);
  }

  /** A load of 8 bytes from address 12 is relocated without complaint, and gets the bytes at 8. */
  lemma Misaligned(w: Word)
    ensures Passes(LdstLo12(3), 0, 12) && !Reaches(LdstLo12(3), Relocated(LdstLo12(3), w, 0, 12), 0, 12)
    ensures Scaled(3, Imm12(Relocated(LdstLo12(3), w, 0, 12))) == 8
  {}

  lemma AlwaysAligned(val: bv64)
    ensures AlignedFor(0, val)
  {}

  /** relocate, for these types, on word i of a section. The word is written even where the test fails. */
  method Relocate(t: Reloc, code: array<Word>, i: nat, addr: bv64, val: bv64) returns (ok: bool)
    requires i < code.Length && (t.LdstLo12? ==> t.size <= 4)
    modifies code
    ensures Reaches(t, code[i], addr, val) <==> ok && Suits(t, val)
    ensures t.AddLo12? || t.LdstLo12? ==> ok
    ensures code[i] == Relocated(t, old(code[i]), addr, val) && Keeps(t, code[i], old(code[i]))
    ensures forall j :: 0 <= j < code.Length && j != i ==> code[j] == old(code[j])
  {
    hide Passes, Reaches, Relocated, Keeps, Suits;
    var w := code[i];
    ok := Passes(t, addr, val);
    RelocKeeps(t, w, addr, val);
    LowPasses(t, addr, val);
    RelocExact(t, w, addr, val);
    code[i] := Relocated(t, w, addr, val);
  }

  lemma RelocKeeps(t: Reloc, w: Word, addr: bv64, val: bv64)
    requires t.LdstLo12? ==> t.size <= 4
    ensures Keeps(t, Relocated(t, w, addr, val), w)
  {
    hide Passes, Reaches, Jump26, Cond19, Test14, Adrp, Lo12, Minus, PageDistance, Passes19, Passes14, PassesPages,
         Offset19, Offset14, Pages, AdrpImm,
         AlignedFor, Scaled, Imm12;
    match t
    case CondBr19 => Cond19Exact(w, Minus(val, addr));
    case TstBr14 => Test14Exact(w, Minus(val, addr));
    case AdrPage => AdrpExact(w, PageDistance(addr, val));
    case AddLo12 => Lo12Exact(w, 0, val);
    case LdstLo12(size) => Lo12Exact(w, size, val);
    case _ =>
  }

  // The procedure linkage table

  const LDR_X17: Word := 0xf940_0211
  const ADD_X16: Word := 0x9100_0210
  const ADRP_X16: Word := 0x9000_0010
  const BR_X17: Word := 0xd61f_0220
  const STP_X16_X30: Word := 0xa9bf_7bf0
  const NOP: Word := 0xd503_201f

  /** The three words that form a slot's address at pc, as relocate_plt writes them. */
  function PltAdrp(pc: bv64, slot: bv64): Word {
    var off := PageDistance(pc, slot);
    Low32(0x9000_0000 | 16 | ((off & 0x1f_fffc) << 3) | ((off & 3) << 29))
  }

  function PltLdr(slot: bv64): Word {
    Low32(0xf940_0000 | 17 | (16 << 5) | ((slot & 0xff8) << 7))
  }

  function PltAdd(slot: bv64): Word {
    Low32(0x1100_0000 | (1 << 31) | 16 | (16 << 5) | ((slot & 0xfff) << 10))
  }

  lemma PltAdrpIs(pc: bv64, slot: bv64)
    ensures PltAdrp(pc, slot) == Adrp(ADRP_X16, PageDistance(pc, slot))
  {}

  lemma PltLdrIs(slot: bv64)
    ensures PltLdr(slot) == Lo12(LDR_X17, 3, slot)
  {}

  lemma PltAddIs(slot: bv64)
    ensures PltAdd(slot) == Lo12(ADD_X16, 0, slot)
  {}

  /** adrp x16; ldr x17, [x16, #]; add x16, x16, #: x16 becomes slot, and x17 what is stored there. */
  predicate LoadsSlot(w0: Word, w1: Word, w2: Word, pc: bv64, slot: bv64) {
    && w0 & 0x9f00_001f == ADRP_X16 && w1 & 0xffc0_03ff == LDR_X17 && w2 & 0xffc0_03ff == ADD_X16
    && Plus(AdrpValue(w0, pc), Scaled(3, Imm12(w1))) == slot
    && Plus(AdrpValue(w0, pc), Scaled(0, Imm12(w2))) == slot
  }

  lemma LoadsMeans(w0: Word, w1: Word, w2: Word, pc: bv64, slot: bv64)
    requires LoadsSlot(w0, w1, w2, pc, slot)
    ensures w0 & 0x9f00_001f == 0x9000_0010 && w1 & 0xffc0_03ff == 0xf940_0211 && w2 & 0xffc0_03ff == 0x9100_0210
    ensures Plus(AdrpValue(w0, pc), Scaled(3, Imm12(w1))) == slot
    ensures Plus(AdrpValue(w0, pc), Scaled(0, Imm12(w2))) == slot
  {
    hide Plus, AdrpValue, Scaled, Imm12;
  }

  lemma PltLoads(pc: bv64, slot: bv64)
    requires PassesPages(PageDistance(pc, slot)) && AlignedFor(3, slot)
    ensures LoadsSlot(PltAdrp(pc, slot), PltLdr(slot), PltAdd(slot), pc, slot)
  {
    hide PltAdrp, PltLdr, PltAdd, PageDistance, PassesPages, AlignedFor, Adrp, Lo12, AdrpValue, Scaled, Imm12, Plus;
    PltAdrpIs(pc, slot);
    PltLdrIs(slot);
    PltAddIs(slot);
    AdrpExact(ADRP_X16, PageDistance(pc, slot));
    Lo12Exact(LDR_X17, 3, slot);
    Lo12Exact(ADD_X16, 0, slot);
    AlwaysAligned(slot);
    PairReaches(ADRP_X16, LDR_X17, 3, pc, slot);
    PairReaches(ADRP_X16, ADD_X16, 0, pc, slot);
    Masks();
  }

  lemma Masks()
    ensures ADRP_X16 & 0x9f00_001f == ADRP_X16 && LDR_X17 & 0xffc0_03ff == LDR_X17 && ADD_X16 & 0xffc0_03ff == ADD_X16
  {}

  /** BR to register r (section C6.2.37 of Arm ARM DDI 0487) */
  predicate BranchesTo(w: Word, r: bv32) {
    w & 0xffff_fc1f == 0xd61f_0000 && (w >> 5) & 31 == r
  }

  /** ldr x17, [x16]; add x16, x16, #0; adrp x16; br x17; stp x16, x30, [sp, #-16]! */
  lemma KnownPltWords()
    ensures LDR_X17 == 0xf940_0000 | (16 << 5) | 17 && ADD_X16 == 0x9100_0000 | (16 << 5) | 16
    ensures ADRP_X16 == 0x9000_0000 | 16 && BranchesTo(BR_X17, 17) && !BranchesTo(BR_X17, 16)
    ensures STP_X16_X30 == 0xa980_0000 | (0x7e << 15) | (30 << 10) | (31 << 5) | 16 && NOP == 0xd503_201f
    ensures SlotOffset(0x18, 1) == 0x1_0000_0018
  {}

  /** The offset of entry k, after the 32 bytes of the header. */
  function EntryOffset(k: nat): bv64 {
    if k == 0 then 32 else Plus(EntryOffset(k - 1), 16)
  }

  /** What create_plt_entry left in an entry: the offset of its slot in the global offset table. */
  function SlotOffset(lo: Word, hi: Word): bv64 {
    (lo as bv64) | ((hi as bv64) << 32)
  }

  function EntryWords(pc: bv64, slot: bv64): seq<Word> {
    [PltAdrp(pc, slot), PltLdr(slot), PltAdd(slot), BR_X17]
  }

  function HeaderWords(plt: bv64, slot: bv64): seq<Word> {
    [STP_X16_X30, PltAdrp(plt, slot), PltLdr(slot), PltAdd(slot), BR_X17, NOP, NOP, NOP]
  }

  /** Entry k of the table at plt jumps through its slot in the table at got. */
  predicate IsEntry(was: seq<Word>, now: seq<Word>, k: nat, plt: bv64, got: bv64)
    requires |was| == |now| && 8 + 4 * k + 4 <= |was|
  {
    var i := 8 + 4 * k;
    now[i..i + 4] == EntryWords(Plus(plt, EntryOffset(k)), Plus(got, SlotOffset(was[i], was[i + 1])))
  }

  predicate EntryPasses(was: seq<Word>, k: nat, plt: bv64, got: bv64)
    requires 8 + 4 * k + 4 <= |was|
  {
    PassesPages(PageDistance(Plus(plt, EntryOffset(k)), Plus(got, SlotOffset(was[8 + 4 * k], was[8 + 4 * k + 1]))))
  }

  lemma EntryNext(k: nat)
    ensures EntryOffset(0) == 32 && EntryOffset(k + 1) == Plus(EntryOffset(k), 16)
  {}

  method FillEntry(code: array<Word>, i: nat, pc: bv64, slot: bv64)
    requires i + 4 <= code.Length
    modifies code
    ensures code[i..i + 4] == EntryWords(pc, slot)
    ensures forall j :: 0 <= j < code.Length && !(i <= j < i + 4) ==> code[j] == old(code[j])
  {
    hide PltAdrp, PltLdr, PltAdd;
    code[i] := PltAdrp(pc, slot);
    code[i + 1] := PltLdr(slot);
    code[i + 2] := PltAdd(slot);
    code[i + 3] := BR_X17;
    assert code[i..i + 4] == EntryWords(pc, slot);
  }

  method FillHeader(code: array<Word>, plt: bv64, slot: bv64)
    requires 8 <= code.Length
    modifies code
    ensures code[..8] == HeaderWords(plt, slot)
    ensures forall j :: 8 <= j < code.Length ==> code[j] == old(code[j])
  {
    hide PltAdrp, PltLdr, PltAdd;
    code[0] := STP_X16_X30;
    code[1] := PltAdrp(plt, slot);
    code[2] := PltLdr(slot);
    code[3] := PltAdd(slot);
    code[4] := BR_X17;
    code[5], code[6], code[7] := NOP, NOP, NOP;
    assert code[..8] == HeaderWords(plt, slot);
  }

  /** relocate_plt, for a table with its header: the header and every entry are filled in, and the result
      tells whether every page distance fits. */
  method RelocatePlt(code: array<Word>, plt: bv64, got: bv64) returns (ok: bool)
    requires code.Length >= 8 && code.Length % 4 == 0
    modifies code
    ensures code[..8] == HeaderWords(plt, Plus(got, 16))
    ensures forall k :: 0 <= k < (code.Length - 8) / 4 ==> IsEntry(old(code[..]), code[..], k, plt, got)
    ensures ok <==> PassesPages(PageDistance(plt, Plus(got, 16)))
                    && forall k :: 0 <= k < (code.Length - 8) / 4 ==> EntryPasses(old(code[..]), k, plt, got)
  {
    hide PassesPages, PageDistance, Plus, SlotOffset, EntryWords, HeaderWords, EntryOffset, IsEntry, EntryPasses,
         Filled;
    ghost var was := code[..];
    var head := Plus(got, 16);
    ok := PassesPages(PageDistance(plt, head));
    FillHeader(code, plt, head);
    assert code[..][..8] == code[..8];
    FilledStart(was, code[..], plt, got, ok);
    var p, k := 32, 0;
    EntryNext(0);
    while 8 + 4 * k < code.Length
      invariant 0 <= k <= (code.Length - 8) / 4 && p == EntryOffset(k)
      invariant forall i :: 8 + 4 * k <= i < code.Length ==> code[i] == was[i]
      invariant Filled(was, code[..], k, plt, got, ok)
      decreases code.Length - 4 * k
    {
      var i := 8 + 4 * k;
      var pc := Plus(plt, p);
      var addr := Plus(got, SlotOffset(code[i], code[i + 1]));
      ghost var before, okay := code[..], ok;
      if !PassesPages(PageDistance(pc, addr)) {
        ok := false;
      }
      FillEntry(code, i, pc, addr);
      assert code[..][i..i + 4] == code[i..i + 4];
      FilledNext(was, before, code[..], k, plt, got, okay, pc, addr);
      EntryNext(k);
      p := Plus(p, 16);
      k := k + 1;
    }
    assert code[..][..8] == code[..8];
    FilledAll(was, code[..], k, plt, got, ok);
  }

  lemma FilledStart(was: seq<Word>, now: seq<Word>, plt: bv64, got: bv64, ok: bool)
    requires |was| == |now| >= 8 && now[..8] == HeaderWords(plt, Plus(got, 16))
    requires ok <==> PassesPages(PageDistance(plt, Plus(got, 16)))
    ensures Filled(was, now, 0, plt, got, ok)
  {}

  lemma FilledAll(was: seq<Word>, now: seq<Word>, k: nat, plt: bv64, got: bv64, ok: bool)
    requires |was| == |now| == 8 + 4 * k && Filled(was, now, k, plt, got, ok)
    ensures now[..8] == HeaderWords(plt, Plus(got, 16)) && forall j :: 0 <= j < k ==> IsEntry(was, now, j, plt, got)
    ensures ok <==> PassesPages(PageDistance(plt, Plus(got, 16)))
                    && forall j :: 0 <= j < k ==> EntryPasses(was, j, plt, got)
  {}

  /** The header and the first k entries are filled in, and ok tells whether their distances fit. */
  predicate Filled(was: seq<Word>, now: seq<Word>, k: nat, plt: bv64, got: bv64, ok: bool)
    requires |was| == |now| && 8 + 4 * k <= |was|
  {
    && now[..8] == HeaderWords(plt, Plus(got, 16)) && (forall j :: 0 <= j < k ==> IsEntry(was, now, j, plt, got))
    && (ok <==> PassesPages(PageDistance(plt, Plus(got, 16)))
                && forall j :: 0 <= j < k ==> EntryPasses(was, j, plt, got))
  }

  lemma NewEntry(was: seq<Word>, now: seq<Word>, k: nat, plt: bv64, got: bv64, pc: bv64, addr: bv64)
    requires |was| == |now| && 8 + 4 * k + 4 <= |was|
    requires pc == Plus(plt, EntryOffset(k)) && addr == Plus(got, SlotOffset(was[8 + 4 * k], was[8 + 4 * k + 1]))
    requires now[8 + 4 * k..8 + 4 * k + 4] == EntryWords(pc, addr)
    ensures IsEntry(was, now, k, plt, got) && (EntryPasses(was, k, plt, got) <==> PassesPages(PageDistance(pc, addr)))
  {}

  lemma FilledNext(was: seq<Word>, a: seq<Word>, b: seq<Word>, k: nat, plt: bv64, got: bv64,
                   ok: bool, pc: bv64, addr: bv64)
    requires |was| == |a| == |b| && 8 + 4 * k + 4 <= |a| && Filled(was, a, k, plt, got, ok)
    requires pc == Plus(plt, EntryOffset(k)) && addr == Plus(got, SlotOffset(was[8 + 4 * k], was[8 + 4 * k + 1]))
    requires forall j :: 0 <= j < 8 + 4 * k ==> b[j] == a[j]
    requires b[8 + 4 * k..8 + 4 * k + 4] == EntryWords(pc, addr)
    ensures Filled(was, b, k + 1, plt, got, ok && PassesPages(PageDistance(pc, addr)))
  {
    hide PassesPages, PageDistance, Plus, SlotOffset, EntryWords, HeaderWords, EntryOffset, IsEntry, EntryPasses;
    EntriesStay(was, a, b, k, plt, got);
    NewEntry(was, b, k, plt, got, pc, addr);
  }

  /** Filling in an entry leaves the header and the earlier entries alone. */
  lemma EntriesStay(was: seq<Word>, a: seq<Word>, b: seq<Word>, k: nat, plt: bv64, got: bv64)
    requires |was| == |a| == |b| && 8 + 4 * k <= |a| && forall j :: 0 <= j < 8 + 4 * k ==> b[j] == a[j]
    requires forall j :: 0 <= j < k ==> IsEntry(was, a, j, plt, got)
    ensures b[..8] == a[..8] && forall j :: 0 <= j < k ==> IsEntry(was, b, j, plt, got)
  {
    hide EntryWords, Plus, EntryOffset, SlotOffset;
    forall j | 0 <= j < k ensures IsEntry(was, b, j, plt, got) {
      assert IsEntry(was, a, j, plt, got);
      assert b[8 + 4 * j..8 + 4 * j + 4] == a[8 + 4 * j..8 + 4 * j + 4];
    }
  }

  /** An entry whose distance fits, for a slot that is aligned as slots are, loads its slot and jumps there. */
  lemma EntryJumps(was: seq<Word>, now: seq<Word>, k: nat, plt: bv64, got: bv64, slot: bv64)
    requires |was| == |now| && 8 + 4 * k + 4 <= |was| && IsEntry(was, now, k, plt, got) && EntryPasses(was, k, plt, got)
    requires slot == Plus(got, SlotOffset(was[8 + 4 * k], was[8 + 4 * k + 1])) && AlignedFor(3, slot)
    ensures LoadsSlot(now[8 + 4 * k], now[8 + 4 * k + 1], now[8 + 4 * k + 2], Plus(plt, EntryOffset(k)), slot)
    ensures BranchesTo(now[8 + 4 * k + 3], 17)
  {
    hide PltAdrp, PltLdr, PltAdd, PassesPages, PageDistance, Plus, SlotOffset, LoadsSlot, AlignedFor, BranchesTo;
    KnownPltWords();
    var i := 8 + 4 * k;
    var e := now[i..i + 4];
    assert now[i] == e[0] && now[i + 1] == e[1] && now[i + 2] == e[2] && now[i + 3] == e[3];
    PltLoads(Plus(plt, EntryOffset(k)), slot);
  }

  /** The test of an entry lets pass distances of -2^20 to 2^20 - 1 pages. */
  lemma EntryRange(was: seq<Word>, k: nat, plt: bv64, got: bv64, pc: bv64, slot: bv64, off: bv64)
    requires 8 + 4 * k + 4 <= |was| && pc == Plus(plt, EntryOffset(k))
    requires slot == Plus(got, SlotOffset(was[8 + 4 * k], was[8 + 4 * k + 1])) && off == (slot >> 12) - (pc >> 12)
    ensures EntryPasses(was, k, plt, got) <==> off < 0x10_0000 || off >= 0xffff_ffff_fff0_0000
  {
    hide Plus, SlotOffset, EntryOffset, PassesPages, PageDistance;
    DistanceIs(pc, slot, off);
    RangePages(off);
  }

  lemma SamePage(pc: bv64, pc': bv64)
    requires pc' == pc + 4
    ensures Page(pc') == Page(pc) <==> pc & 0xfff < 0xffc
  {}

  lemma PlusSwaps(a: bv64, b: bv64)
    ensures Plus(a, b) == Plus(b, a)
  {}

  lemma OtherSum(a: bv64, b: bv64, c: bv64)
    requires Plus(a, c) == Plus(b, c)
    ensures a == b
  {
    hide Plus, Minus;
    PlusSwaps(a, c);
    PlusSwaps(b, c);
    MinusPlus(c, a);
    MinusPlus(c, b);
  }

  /** The address that ADRP forms from pc, by the pages it adds and the low bits that follow. */
  lemma PageMoves(w: Word, low: bv64, pc: bv64, pc': bv64)
    ensures Plus(AdrpValue(w, pc), low) == Plus(AdrpValue(w, pc'), low) <==> Page(pc) == Page(pc')
  {
    hide Plus, Page, Pages, AdrpImm, Bytes;
    if Plus(AdrpValue(w, pc), low) == Plus(AdrpValue(w, pc'), low) {
      OtherSum(AdrpValue(w, pc), AdrpValue(w, pc'), low);
      OtherSum(Page(pc), Page(pc'), Bytes(Pages(AdrpImm(w))));
    }
  }

  /** The header, when its distance fits, loads the third slot of the table at got and branches there, unless its ADRP,
      which stands four bytes after the place that the distance is measured from, is the first word of a page. */
  lemma HeaderJumps(now: seq<Word>, plt: bv64, got: bv64, pc: bv64, slot: bv64)
    requires |now| >= 8 && now[..8] == HeaderWords(plt, slot)
    requires slot == got + 16 && pc == plt + 4 && AlignedFor(3, slot) && PassesPages(PageDistance(plt, slot))
    ensures now[0] == STP_X16_X30 && BranchesTo(now[4], 17)
    ensures LoadsSlot(now[1], now[2], now[3], pc, slot) <==> plt & 0xfff < 0xffc
  {
    hide PltAdrp, PltLdr, PltAdd, PassesPages, PageDistance, Plus, AlignedFor, BranchesTo, AdrpValue, Scaled, Imm12,
         Page;
    KnownPltWords();
    var h := now[..8];
    assert now[0] == h[0] && now[1] == h[1] && now[2] == h[2] && now[3] == h[3] && now[4] == h[4];
    PltLoads(plt, slot);
    SamePage(plt, pc);
    PageMoves(now[1], Scaled(3, Imm12(now[2])), plt, pc);
    PageMoves(now[1], Scaled(0, Imm12(now[3])), plt, pc);
  }
}
