/** Constant operands of A32 data processing (stuff_const, stuff_const_harder, calcaddr). */
module StuffConst {
  import opened A32

  /** A data-processing instruction with an immediate operand left at zero. */
  predicate IsTemplate(op: Word) {
    op & 0x0e00_0fff == 0x0200_0000
  }

  /** The instruction of the template with operand c. */
  function With(op: Word, c: bv32): Instr {
    DataImm(Opcode(op), (op >> 20) & 1, (op >> 16) & 15, (op >> 12) & 15, c)
  }

  /** w is executed on the same condition as op, and is op with operand c, or an instruction without
      flags that leaves the same registers. */
  ghost predicate Same(w: Word, op: Word, c: bv32) {
    && w >> 28 == op >> 28
    && (Decode(w) == With(op, c)
        || ((op >> 20) & 1 == 0 && (w >> 20) & 1 == 0 && forall x: Regs :: Exec(Decode(w), x) == Exec(With(op, c), x)))
  }

  // Finding a rotation

  function Window(i: bv32): bv32
    requires 0 < i < 32
  {
    (0xff >> i) | (0xff << (32 - i))
  }

  function Rol(c: bv32, i: bv32): bv32
    requires 0 < i < 32
  {
    (c << i) | (c >> (32 - i))
  }

  lemma RorInWindow(b: bv32, i: bv32)
    requires 0 < i < 32 && b <= 0xff
    ensures Ror(b, i) & !Window(i) == 0
  {}

  /** No rotation by an even number below n does for c. */
  ghost predicate NoneBelow(c: bv32, n: bv32) {
    forall j: bv32 :: 0 < j < 32 && j < n && j & 1 == 0 ==> c & !Window(j) != 0
  }

  lemma NotModImm(c: bv32)
    requires 256 <= c && NoneBelow(c, 32)
    ensures !IsModImm(c)
  {
    forall imm: bv32 | imm < 0x1000 ensures ExpandImm(imm) != c {
      var r := (imm >> 8) << 1;
      if r != 0 {
        RorInWindow(imm & 0xff, r);
      }
    }
  }

  lemma SmallIsModImm(c: bv32)
    requires c < 256
    ensures IsModImm(c)
  {
    assert ExpandImm(c) == c;
  }

  /** The 12-bit operand for c rotated left by i. */
  function RotatedImm(c: bv32, i: bv32): bv32
    requires 0 < i < 32
  {
    (i << 7) | Rol(c, i)
  }

  lemma NoneYet(c: bv32)
    ensures NoneBelow(c, 2)
  {}

  lemma NoneNext(c: bv32, i: bv32)
    requires NoneBelow(c, i) && 0 < i < 32 && i & 1 == 0 && c & !Window(i) != 0
    ensures NoneBelow(c, i + 2) && i + 2 <= 32 && (i + 2) & 1 == 0 && 32 - (i + 2) < 32 - i
  {}

  lemma RotatedExpands(c: bv32, i: bv32)
    requires 0 < i < 32 && i & 1 == 0 && c & !Window(i) == 0
    ensures RotatedImm(c, i) < 0x1000 && ExpandImm(RotatedImm(c, i)) == c
  {}

  predicate FitsIn(c: bv32, m: bv32) {
    c & !m == 0
  }

  /** c fits in eight adjacent bits that begin at an even place, around the end too. */
  predicate FitsSome(c: bv32) {
    || c < 0x100 || FitsIn(c, 0xc000_003f) || FitsIn(c, 0xf000_000f) || FitsIn(c, 0xfc00_0003)
    || FitsIn(c, 0xff00_0000) || FitsIn(c, 0x3fc0_0000) || FitsIn(c, 0xff0_0000) || FitsIn(c, 0x3fc_0000)
    || FitsIn(c, 0xff_0000) || FitsIn(c, 0x3f_c000) || FitsIn(c, 0xf_f000) || FitsIn(c, 0x3_fc00)
    || FitsIn(c, 0xff00) || FitsIn(c, 0x3fc0) || FitsIn(c, 0xff0) || FitsIn(c, 0x3fc)
  }

  lemma WindowsAre()
    ensures Window(2) == 0xc000_003f && Window(4) == 0xf000_000f && Window(6) == 0xfc00_0003 && Window(8) == 0xff00_0000
    ensures Window(10) == 0x3fc0_0000 && Window(12) == 0xff0_0000 && Window(14) == 0x3fc_0000 && Window(16) == 0xff_0000
    ensures Window(18) == 0x3f_c000 && Window(20) == 0xf_f000 && Window(22) == 0x3_fc00 && Window(24) == 0xff00
    ensures Window(26) == 0x3fc0 && Window(28) == 0xff0 && Window(30) == 0x3fc
  {}

  lemma FitsAt(c: bv32, i: bv32, m: bv32)
    requires 0 < i < 32 && i & 1 == 0 && m == Window(i) && FitsIn(c, m)
    ensures !NoneBelow(c, 32)
  {
    hide Window;
  }

  lemma FitsWindow(c: bv32)
    requires FitsSome(c) && 0x100 <= c
    ensures !NoneBelow(c, 32)
  {
    hide Window, NoneBelow, FitsIn;
    WindowsAre();
    if FitsIn(c, 0xc000_003f) {
      FitsAt(c, 2, 0xc000_003f);
    } else if FitsIn(c, 0xf000_000f) {
      FitsAt(c, 4, 0xf000_000f);
    } else if FitsIn(c, 0xfc00_0003) {
      FitsAt(c, 6, 0xfc00_0003);
    } else if FitsIn(c, 0xff00_0000) {
      FitsAt(c, 8, 0xff00_0000);
    } else if FitsIn(c, 0x3fc0_0000) {
      FitsAt(c, 10, 0x3fc0_0000);
    } else if FitsIn(c, 0xff0_0000) {
      FitsAt(c, 12, 0xff0_0000);
    } else if FitsIn(c, 0x3fc_0000) {
      FitsAt(c, 14, 0x3fc_0000);
    } else if FitsIn(c, 0xff_0000) {
      FitsAt(c, 16, 0xff_0000);
    } else if FitsIn(c, 0x3f_c000) {
      FitsAt(c, 18, 0x3f_c000);
    } else if FitsIn(c, 0xf_f000) {
      FitsAt(c, 20, 0xf_f000);
    } else if FitsIn(c, 0x3_fc00) {
      FitsAt(c, 22, 0x3_fc00);
    } else if FitsIn(c, 0xff00) {
      FitsAt(c, 24, 0xff00);
    } else if FitsIn(c, 0x3fc0) {
      FitsAt(c, 26, 0x3fc0);
    } else if FitsIn(c, 0xff0) {
      FitsAt(c, 28, 0xff0);
    } else {
      FitsAt(c, 30, 0x3fc);
    }
  }

  lemma NoFit(c: bv32)
    requires !FitsSome(c)
    ensures 0x100 <= c && NoneBelow(c, 32)
  {}

  lemma HasImm(c: bv32)
    requires 0x100 <= c && !NoneBelow(c, 32)
    ensures IsModImm(c)
  {
    hide Window, IsModImm, RotatedImm, ExpandImm;
    var j: bv32 :| 0 < j < 32 && j & 1 == 0 && c & !Window(j) == 0;
    RotatedExpands(c, j);
    IsModImmBy(RotatedImm(c, j), c);
  }

  /** These are the modified immediates. */
  lemma ModImmExact(c: bv32)
    ensures IsModImm(c) <==> FitsSome(c)
  {
    hide IsModImm, NoneBelow, FitsSome;
    if !FitsSome(c) {
      NoFit(c);
      NotModImm(c);
    } else if c < 0x100 {
      SmallIsModImm(c);
    } else {
      FitsWindow(c);
      HasImm(c);
    }
  }

  /** The template with its operand filled in. */
  function Filled(op: Word, f: bv32): Word {
    op | f
  }

  lemma FieldDecodes(op: Word, f: bv32)
    requires IsTemplate(op) && f < 0x1000
    ensures op | f != 0 && (op | f) >> 28 == op >> 28 && Decode(op | f) == With(op, ExpandImm(f))
  {}

  lemma FilledDecodes(op: Word, f: bv32)
    requires IsTemplate(op) && f < 0x1000
    ensures Filled(op, f) != 0 && Filled(op, f) >> 28 == op >> 28 && Decode(Filled(op, f)) == With(op, ExpandImm(f))
  {
    hide Decode, With, ExpandImm, IsTemplate;
    FieldDecodes(op, f);
  }

  /** The first even rotation that brings c into the low byte, or 0. */
  method FindRotation(c: bv32) returns (i: bv32)
    ensures i < 32 && i & 1 == 0
    ensures if i == 0 then NoneBelow(c, 32) else c & !Window(i) == 0
  {
    hide Window, NoneBelow;
    NoneYet(c);
    i := 2;
    while i < 32
      invariant 2 <= i <= 32 && i & 1 == 0 && NoneBelow(c, i)
      decreases 32 - i
    {
      if c & !Window(i) == 0 {
        return;
      }
      NoneNext(c, i);
      i := i + 2;
    }
    i := 0;
  }

  /** One turn of the outer loop of stuff_const. */
  method TryConst(op: Word, c: bv32) returns (w: Word)
    requires IsTemplate(op)
    ensures w != 0 ==> w >> 28 == op >> 28 && Decode(w) == With(op, c)
    ensures w != 0 <==> IsModImm(c)
  {
    hide Decode, With, IsTemplate, Window, RotatedImm, NoneBelow, IsModImm, ExpandImm, Filled;
    if c < 256 {
      SmallIsModImm(c);
      SmallExpands(c);
      FilledDecodes(op, c);
      return Filled(op, c);
    }
    var i := FindRotation(c);
    if i == 0 {
      NotModImm(c);
      return 0;
    }
    NotZeroRotation(i);
    RotatedExpands(c, i);
    IsModImmBy(RotatedImm(c, i), c);
    FilledDecodes(op, RotatedImm(c, i));
    return Filled(op, RotatedImm(c, i));
  }

  lemma NotZeroRotation(i: bv32)
    requires i != 0
    ensures 0 < i
  {}

  lemma SmallExpands(c: bv32)
    requires c < 256
    ensures ExpandImm(c) == c
  {}

  lemma IsModImmBy(imm: bv32, c: bv32)
    requires imm < 0x1000 && ExpandImm(imm) == c
    ensures IsModImm(c)
  {}

  // stuff_const

  /** Opcode and S bit, in place. */
  function Key(op: Word): bv32 {
    op & 0x1f0_0000
  }

  predicate HasSwap(k: bv32) {
    k == 0x80_0000 || k == 0x40_0000 || k == 0x1a0_0000 || k == 0x1e0_0000 || k == 0 || k == 0x1c0_0000
  }

  /** ADD and SUB, MOV and MVN, AND and BIC swapped. */
  function SwapOp(k: bv32, op: Word): Word {
    if k == 0x80_0000 || k == 0x40_0000 then op ^ 0xc0_0000
    else if k == 0x1a0_0000 || k == 0x1e0_0000 then op ^ 0x40_0000
    else op ^ 0x1c0_0000
  }

  function SwapConst(k: bv32, c: bv32): bv32 {
    if k == 0x80_0000 || k == 0x40_0000 then -c else !c
  }

  const ALL: bv32 := 0xffff_ffff

  /** EOR, AND and ORR of all ones. */
  predicate IsNot(k: bv32, c: bv32) {
    c == ALL && (k == 0x20_0000 || k == 0 || k == 0x180_0000)
  }

  /** The register forms for those, and MVN of 0 for ORR. */
  function NotOp(k: bv32, op: Word): Word {
    if k == 0x20_0000 then (op & 0xf010_f000) | ((op >> 16) & 0xf) | 0x1e0_0000
    else if k == 0 then (op & 0xf010_f000) | ((op >> 16) & 0xf) | 0x1a0_0000
    else (op & 0xfff0_ffff) | 0x1e0_0000
  }

  lemma KeyFields(op: Word)
    ensures Opcode(op) == Key(op) >> 21 && (op >> 20) & 1 == (Key(op) >> 20) & 1
  {}

  lemma SwapFields(op: Word)
    requires IsTemplate(op) && HasSwap(Key(op))
    ensures IsTemplate(SwapOp(Key(op), op)) && SwapOp(Key(op), op) >> 28 == op >> 28 && (op >> 20) & 1 == 0
    ensures forall c ::
      With(SwapOp(Key(op), op), c) == DataImm(SwapCode(Opcode(op)), 0, (op >> 16) & 15, (op >> 12) & 15, c)
  {}

  function SwapCode(opcode: bv32): bv32 {
    if opcode == ADD then SUB
    else if opcode == SUB then ADD
    else if opcode == MOV then MVN
    else if opcode == MVN then MOV
    else if opcode == AND then BIC
    else AND
  }

  lemma AddIsSub(a: bv32, c: bv32)
    ensures Compute(ADD, a, c) == Compute(SUB, a, -c)
  {}

  lemma SubIsAdd(a: bv32, c: bv32)
    ensures Compute(SUB, a, c) == Compute(ADD, a, -c)
  {}

  lemma MovIsMvn(a: bv32, c: bv32)
    ensures Compute(MOV, a, c) == Compute(MVN, a, !c) && Compute(MVN, a, c) == Compute(MOV, a, !c)
  {}

  lemma AndIsBic(a: bv32, c: bv32)
    ensures Compute(AND, a, c) == Compute(BIC, a, !c) && Compute(BIC, a, c) == Compute(AND, a, !c)
  {}

  lemma SwapComputes(k: bv32, a: bv32, c: bv32)
    requires HasSwap(k)
    ensures Compute(SwapCode(k >> 21), a, SwapConst(k, c)) == Compute(k >> 21, a, c)
  {
    hide Compute;
    AddIsSub(a, c);
    SubIsAdd(a, c);
    MovIsMvn(a, c);
    AndIsBic(a, c);
  }

  lemma SwapSame(op: Word, c: bv32, w: Word, n: Word)
    requires IsTemplate(op) && HasSwap(Key(op)) && n == SwapOp(Key(op), op)
    requires w >> 28 == n >> 28 && Decode(w) == With(n, SwapConst(Key(op), c)) && SBit(w) == SBit(n)
    ensures Same(w, op, c)
  {
    hide Decode, Compute, SwapConst, SwapOp, IsTemplate, HasSwap, SwapCode;
    SwapFields(op);
    KeyFields(op);
    SFields(op, n, w);
    forall x: Regs ensures Exec(Decode(w), x) == Exec(With(op, c), x) {
      SwapComputes(Key(op), x[R((op >> 16) & 15)], c);
    }
  }

  function SBit(w: Word): bv32 {
    (w >> 20) & 1
  }

  lemma SFields(op: Word, n: Word, w: Word)
    requires HasSwap(Key(op)) && n == SwapOp(Key(op), op) && SBit(w) == SBit(n)
    ensures (op >> 20) & 1 == 0 && (w >> 20) & 1 == 0
  {}

  lemma DecodedS(w: Word, n: Word, c: bv32)
    requires Decode(w) == With(n, c)
    ensures SBit(w) == SBit(n)
  {}

  lemma PlainSame(op: Word, c: bv32, w: Word)
    requires w >> 28 == op >> 28 && Decode(w) == With(op, c)
    ensures Same(w, op, c)
  {}

  // All ones

  lemma NotFields(op: Word)
    requires IsTemplate(op) && IsNot(Key(op), ALL)
    ensures NotOp(Key(op), op) != 0 && NotOp(Key(op), op) >> 28 == op >> 28 && (op >> 20) & 1 == 0
    ensures (NotOp(Key(op), op) >> 20) & 1 == 0
  {}

  lemma EorFields(op: Word)
    requires IsTemplate(op) && Key(op) == 0x20_0000
    ensures Decode(NotOp(Key(op), op)) == DataReg(MVN, 0, 0, (op >> 12) & 15, (op >> 16) & 15) && Opcode(op) == EOR
  {}

  lemma AndFields(op: Word)
    requires IsTemplate(op) && Key(op) == 0
    ensures Decode(NotOp(Key(op), op)) == DataReg(MOV, 0, 0, (op >> 12) & 15, (op >> 16) & 15) && Opcode(op) == AND
  {}

  lemma OrrFields(op: Word)
    requires IsTemplate(op) && Key(op) == 0x180_0000
    ensures Decode(NotOp(Key(op), op)) == DataImm(MVN, 0, 0, (op >> 12) & 15, ExpandImm(0)) && Opcode(op) == ORR
  {}

  lemma AllOnes(a: bv32, b: bv32)
    ensures Compute(EOR, a, ALL) == Compute(MVN, b, a) && Compute(AND, a, ALL) == Compute(MOV, b, a)
  {}

  lemma AllOnesOrr(a: bv32, b: bv32)
    ensures Compute(ORR, a, ALL) == Compute(MVN, b, ExpandImm(0))
  {}

  lemma NotSame(op: Word)
    requires IsTemplate(op) && IsNot(Key(op), ALL)
    ensures NotOp(Key(op), op) != 0 && Same(NotOp(Key(op), op), op, ALL)
  {
    hide Decode, Compute, NotOp, IsTemplate, ExpandImm, Opcode;
    NotFields(op);
    forall x: Regs ensures Exec(Decode(NotOp(Key(op), op)), x) == Exec(With(op, ALL), x) {
      NotExec(op, x);
    }
  }

  lemma NotExec(op: Word, x: Regs)
    requires IsTemplate(op) && IsNot(Key(op), ALL)
    ensures Exec(Decode(NotOp(Key(op), op)), x) == Exec(With(op, ALL), x)
  {
    hide Decode, Compute, NotOp, IsTemplate, ExpandImm, Opcode;
    var a := x[R((op >> 16) & 15)];
    AllOnes(a, x[R(0)]);
    AllOnesOrr(a, x[R(0)]);
    if Key(op) == 0x20_0000 { EorFields(op); } else if Key(op) == 0 { AndFields(op); } else { OrrFields(op); }
  }

  /** What one instruction can do for the template and the constant. */
  ghost predicate Encodable(op: Word, c: bv32) {
    IsNot(Key(op), c) || IsModImm(c) || (HasSwap(Key(op)) && IsModImm(SwapConst(Key(op), c)))
  }

  /** stuff_const: an instruction that does what the template does with operand c, or 0 when c is no
      modified immediate, nor is its negation or complement where the operation can be swapped. */
  method StuffConst(op: Word, c: bv32) returns (w: Word)
    requires IsTemplate(op)
    ensures w != 0 ==> Same(w, op, c)
    ensures w != 0 <==> Encodable(op, c)
  {
    hide Decode, With, Same, IsTemplate, IsModImm, Key, HasSwap, SwapOp, SwapConst, NotOp;
    var k := Key(op);
    if IsNot(k, c) {
      NotSame(op);
      return NotOp(k, op);
    }
    w := TryConst(op, c);
    if w != 0 {
      PlainSame(op, c, w);
      return;
    }
    if HasSwap(k) {
      SwapFields(op);
      w := TryConst(SwapOp(k, op), SwapConst(k, c));
      if w != 0 {
        DecodedS(w, SwapOp(k, op), SwapConst(k, c));
        SwapSame(op, c, w, SwapOp(k, op));
      }
    }
  }

  lemma KeyIs(op: Word, k: bv32)
    requires k == (op >> 20) & 31
    ensures Key(op) == 0x80_0000 <==> k == 8
    ensures Key(op) == 0x40_0000 <==> k == 4
    ensures Key(op) == 0x1a0_0000 <==> k == 26
    ensures Key(op) == 0x1e0_0000 <==> k == 30
    ensures Key(op) == 0 <==> k == 0
    ensures Key(op) == 0x1c0_0000 <==> k == 28
    ensures Key(op) == 0x20_0000 <==> k == 2
    ensures Key(op) == 0x180_0000 <==> k == 24
  {}

  lemma SwapConstIs(c: bv32)
    ensures SwapConst(0x80_0000, c) == -c && SwapConst(0x40_0000, c) == -c
    ensures SwapConst(0x1a0_0000, c) == !c && SwapConst(0x1e0_0000, c) == !c
    ensures SwapConst(0, c) == !c && SwapConst(0x1c0_0000, c) == !c
  {}

  /** By opcode and S bit k: ADD (8) and SUB (4) without flags take the negation too, MOV (26), MVN (30), AND (0) and
      BIC (28) the complement, and EOR (2), AND and ORR (24) all ones. */
  lemma EncodableExact(op: Word, c: bv32, k: bv32, neg: bv32, inv: bv32)
    requires k == (op >> 20) & 31 && neg == -c && inv == !c
    ensures Encodable(op, c) <==>
      || IsModImm(c)
      || ((k == 8 || k == 4) && IsModImm(neg))
      || ((k == 26 || k == 30 || k == 0 || k == 28) && IsModImm(inv))
      || ((k == 2 || k == 0 || k == 24) && c == 0xffff_ffff)
  {
    hide IsModImm, SwapConst, Key;
    KeyIs(op, k);
    SwapConstIs(c);
  }

  /** add, adds, sub, rsb, mov and eor r3, r4, #0, and what is no template: add r3, r4, #1 and add r3, r4, r0 */
  lemma KnownTemplates(c: bv32)
    ensures IsTemplate(0xe284_3000) && With(0xe284_3000, c) == DataImm(4, 0, 4, 3, c)
    ensures IsTemplate(0xe294_3000) && With(0xe294_3000, c) == DataImm(4, 1, 4, 3, c)
    ensures IsTemplate(0xe244_3000) && With(0xe244_3000, c) == DataImm(2, 0, 4, 3, c)
    ensures IsTemplate(0xe264_3000) && With(0xe264_3000, c) == DataImm(3, 0, 4, 3, c)
    ensures IsTemplate(0x03a0_3000) && With(0x03a0_3000, c) == DataImm(13, 0, 0, 3, c)
    ensures IsTemplate(0xe224_3000) && With(0xe224_3000, c) == DataImm(1, 0, 4, 3, c)
    ensures !IsTemplate(0xe284_3001) && !IsTemplate(0xe084_3000)
  {}

  /** What Same promises: the condition is kept, and so is what the operation leaves in the registers; with flags to
      set, the instruction itself is the template's. */
  lemma SameMeans(w: Word, op: Word, c: bv32, x: Regs)
    requires Same(w, op, c)
    ensures w >> 28 == op >> 28 && Exec(Decode(w), x) == Exec(With(op, c), x)
    ensures (op >> 20) & 1 == 1 ==> Decode(w) == With(op, c)
  {
    hide Exec, Decode, With;
  }

  /** For MOV: one instruction does it just when the constant or its complement is a modified immediate. */
  lemma MovEncodable(op: Word, c: bv32)
    requires Key(op) == 0x1a0_0000
    ensures Encodable(op, c) <==> IsModImm(c) || IsModImm(!c)
  {}
}
