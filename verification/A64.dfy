/** The A64 instructions that the code generator emits for constants and constant operands:
    their encodings and their effect on the general registers (Arm ARM DDI 0487, chapter C6).
    Register 31 is the stack pointer or the zero register, as the instruction says. */
module A64 {
  import opened Options
  import opened BitMasks

  type Word = bv32

  type Reg = r: bv32 | r < 32

  /** A general register; X(31) is the stack pointer. */
  datatype Gpr = X(n: bv32)

  type Regs = m: imap<Gpr, bv64> | forall r: Gpr :: r in m
    ghost witness imap r: Gpr :: 0

  datatype Instr =
    | MoveWide(sf: bv32, opc: bv32, hw: bv32, imm: bv64, rd: bv32)
    | AddSubImm(sf: bv32, sub: bv32, sh: bv32, imm: bv64, rn: bv32, rd: bv32)
    | AddSubReg(sf: bv32, sub: bv32, rm: bv32, rn: bv32, rd: bv32)
    | LogicalImm(sf: bv32, opc: bv32, field: bv32, rn: bv32, rd: bv32)
    | LogicalReg(sf: bv32, opc: bv32, invert: bv32, rm: bv32, rn: bv32, rd: bv32)
    | Bitfield(sf: bv32, opc: bv32, n: bv32, immr: bv32, imms: bv32, rn: bv32, rd: bv32)
    | Other

  /** Move wide, add and subtract, logical and bitfield instructions, without shifted registers
      and flag setting (ANDS apart). */
  function Decode(w: Word): Instr {
    var sf, opc, rn, rd := w >> 31, (w >> 29) & 3, (w >> 5) & 31, w & 31;
    if w & 0x1f80_0000 == 0x1280_0000 then
      MoveWide(sf, opc, (w >> 21) & 3, ((w >> 5) & 0xffff) as bv64, rd)
    else if w & 0x3f80_0000 == 0x1100_0000 then
      AddSubImm(sf, opc >> 1, (w >> 22) & 1, ((w >> 10) & 0xfff) as bv64, rn, rd)
    else if w & 0x3fe0_fc00 == 0x0b00_0000 then
      AddSubReg(sf, opc >> 1, (w >> 16) & 31, rn, rd)
    else if w & 0x1f80_0000 == 0x1200_0000 then
      LogicalImm(sf, opc, (w >> 10) & 0x1fff, rn, rd)
    else if w & 0x1fc0_fc00 == 0x0a00_0000 then
      LogicalReg(sf, opc, (w >> 21) & 1, (w >> 16) & 31, rn, rd)
    else if w & 0x1f80_0000 == 0x1300_0000 then
      Bitfield(sf, opc, (w >> 22) & 1, (w >> 16) & 63, (w >> 10) & 63, rn, rd)
    else
      Other
  }

  function Rd(i: Instr): bv32 {
    match i
    case MoveWide(_, _, _, _, rd) => rd
    case AddSubImm(_, _, _, _, _, rd) => rd
    case AddSubReg(_, _, _, _, rd) => rd
    case LogicalImm(_, _, _, _, rd) => rd
    case LogicalReg(_, _, _, _, _, rd) => rd
    case Bitfield(_, _, _, _, _, _, rd) => rd
    case Other => 31
  }

  // Effects

  /** What a write of v to a W or an X register stores. */
  function Sized(sf: bv32, v: bv64): bv64 {
    if sf == 1 then v else v & 0xffff_ffff
  }

  /** Register r, 31 being zero. */
  function Read(x: Regs, r: bv32): bv64 {
    if r == 31 then 0 else x[X(r)]
  }

  /** Register r set to v, 31 being ignored. */
  function Write(x: Regs, r: bv32, v: bv64): Regs {
    if r == 31 then x else x[X(r) := v]
  }

  /** v at halfword hw. */
  function AtHalf(hw: bv32, v: bv64): bv64 {
    if hw == 0 then v else if hw == 1 then v << 16 else if hw == 2 then v << 32 else v << 48
  }

  function WideValue(opc: bv32, hw: bv32, imm: bv64, was: bv64): bv64 {
    if opc == 3 then (was & !AtHalf(hw, 0xffff)) | AtHalf(hw, imm)
    else if opc == 2 then AtHalf(hw, imm)
    else !AtHalf(hw, imm)
  }

  /** The low 32 bits. */
  function Trunc(v: bv64): bv32 {
    (v & 0xffff_ffff) as bv32
  }

  function Extend(v: bv32): bv64 {
    v as bv64
  }

  function Add64(sub: bool, a: bv64, b: bv64): bv64 {
    if sub then a - b else a + b
  }

  function Add32(sub: bool, a: bv32, b: bv32): bv32 {
    if sub then a - b else a + b
  }

  /** a + b, or a - b if sub is 1, in the width of sf. */
  function Sum(sf: bv32, sub: bv32, a: bv64, b: bv64): bv64 {
    if sf == 1 then Add64(sub == 1, a, b) else Extend(Add32(sub == 1, Trunc(a), Trunc(b)))
  }

  function Logical(opc: bv32, a: bv64, b: bv64): bv64 {
    if opc == 1 then a | b else if opc == 2 then a ^ b else a & b
  }

  function Inverted(invert: bv32, v: bv64): bv64 {
    if invert == 1 then !v else v
  }

  // Shifts by n < 64

  function ShiftLeft(v: bv64, n: bv64): bv64 {
    if n < 64 then v << n else 0
  }

  function ShiftRight(v: bv64, n: bv64): bv64 {
    if n < 64 then v >> n else 0
  }

  function ShiftRightSigned(v: bv64, n: bv64): bv64 {
    if v >> 63 == 1 then !ShiftRight(!v, n) else ShiftRight(v, n)
  }

  function SignExtend(sf: bv32, v: bv64): bv64 {
    if sf == 1 || v & 0x8000_0000 == 0 then Sized(sf, v) else v | 0xffff_ffff_0000_0000
  }

  /** The bitfield moves that are shifts: LSL and LSR of UBFM (opc 2), ASR of SBFM (opc 0). */
  function ShiftAlias(sf: bv32, opc: bv32, immr: bv64, imms: bv64, v: bv64): Option<bv64> {
    var top := if sf == 1 then 63 else 31;
    if opc == 2 && immr <= top && imms == top then Some(ShiftRight(Sized(sf, v), immr))
    else if opc == 0 && immr <= top && imms == top then Some(ShiftRightSigned(SignExtend(sf, v), immr))
    else if opc == 2 && imms < top && immr == imms + 1 then Some(ShiftLeft(v, top - imms))
    else None
  }

  /** The mask of a logical immediate; N is not for W registers. */
  function ImmMask(sf: bv32, field: bv32): Option<bv64> {
    if sf == 0 && field >= 0x1000 then None else DecodeField(field as bv64)
  }

  /** One instruction; none where it is unallocated or not among the modelled ones. */
  function Exec(i: Instr, x: Regs): Option<Regs> {
    match i
    case MoveWide(sf, opc, hw, imm, rd) =>
      if opc == 1 || hw > 3 || (sf == 0 && hw > 1) then None
      else Some(Write(x, rd, Sized(sf, WideValue(opc, hw, imm, Read(x, rd)))))
    case AddSubImm(sf, sub, sh, imm, rn, rd) =>
      var v := if sh == 1 then imm << 12 else imm;
      Some(x[X(rd) := Sum(sf, sub, x[X(rn)], v)])
    case AddSubReg(sf, sub, rm, rn, rd) =>
      Some(Write(x, rd, Sum(sf, sub, Read(x, rn), Read(x, rm))))
    case LogicalImm(sf, opc, field, rn, rd) =>
      var mask := ImmMask(sf, field);
      if mask.None? then None else Some(Write(x, rd, Sized(sf, Logical(opc, Read(x, rn), mask.value))))
    case LogicalReg(sf, opc, invert, rm, rn, rd) =>
      Some(Write(x, rd, Sized(sf, Logical(opc, Read(x, rn), Inverted(invert, Read(x, rm))))))
    case Bitfield(sf, opc, n, immr, imms, rn, rd) =>
      var v := ShiftAlias(sf, opc, immr as bv64, imms as bv64, Read(x, rn));
      if n != sf || v.None? then None else Some(Write(x, rd, Sized(sf, v.value)))
    case Other => None
  }

  /** The instructions one after the other. */
  function Execute(code: seq<Word>, x: Regs): Option<Regs> {
    if code == [] then Some(x)
    else
      match Execute(code[..|code| - 1], x)
      case None => None
      case Some(y) => Exec(Decode(code[|code| - 1]), y)
  }

  lemma ExecuteSnoc(code: seq<Word>, w: Word, x: Regs)
    ensures Execute(code + [w], x) == match Execute(code, x) case None => None case Some(y) => Exec(Decode(w), y)
  {}

  /** code sets register r to v and nothing else. */
  ghost predicate Sets(code: seq<Word>, r: bv32, v: bv64) {
    forall x: Regs :: Execute(code, x) == Some(x[X(r) := v])
  }

  lemma Overwrite(x: Regs, r: bv32, u: bv64, v: bv64)
    ensures x[X(r) := u][X(r) := v] == x[X(r) := v]
  {}

  // Exec, one form at a time

  lemma ExecAddImm(sf: bv32, sub: bv32, v: bv64, rn: bv32, rd: bv32, x: Regs)
    ensures Exec(AddSubImm(sf, sub, 0, v, rn, rd), x) == Some(x[X(rd) := Sum(sf, sub, x[X(rn)], v)])
    ensures Exec(AddSubImm(sf, sub, 1, v, rn, rd), x) == Some(x[X(rd) := Sum(sf, sub, x[X(rn)], v << 12)])
  {}

  lemma ExecAddReg(sf: bv32, sub: bv32, rm: bv32, rn: bv32, rd: bv32, x: Regs)
    requires rd < 31
    ensures Exec(AddSubReg(sf, sub, rm, rn, rd), x) == Some(x[X(rd) := Sum(sf, sub, Read(x, rn), Read(x, rm))])
  {}

  lemma ExecLogicalImm(sf: bv32, opc: bv32, field: bv32, rn: bv32, rd: bv32, x: Regs)
    requires rd < 31 && ImmMask(sf, field).Some?
    ensures Exec(LogicalImm(sf, opc, field, rn, rd), x) ==
      Some(x[X(rd) := Sized(sf, Logical(opc, Read(x, rn), ImmMask(sf, field).value))])
  {}

  lemma ExecLogicalReg(sf: bv32, opc: bv32, invert: bv32, rm: bv32, rn: bv32, rd: bv32, x: Regs)
    requires rd < 31
    ensures Exec(LogicalReg(sf, opc, invert, rm, rn, rd), x)
         == Some(x[X(rd) := Sized(sf, Logical(opc, Read(x, rn), Inverted(invert, Read(x, rm))))])
  {}

  lemma ExecBitfield(sf: bv32, opc: bv32, immr: bv32, imms: bv32, rn: bv32, rd: bv32, x: Regs, v: bv64)
    requires rd < 31 && ShiftAlias(sf, opc, immr as bv64, imms as bv64, Read(x, rn)) == Some(v)
    ensures Exec(Bitfield(sf, opc, sf, immr, imms, rn, rd), x) == Some(x[X(rd) := Sized(sf, v)])
  {}

  // Some words and what they do

  /** movz w3, #0x1234, lsl #16; movn x3, #0x1234; movk x3, #0x1234, lsl #48; add x3, x4, #0x123;
      sub w3, w4, #0x123, lsl #12; add x3, x4, x5; sub w3, w4, x5; and, orr and eor x3, x4, #0xff; and, orr and eor
      x3, x4, x5; mvn x3, x5; lsl x3, x4, #5; lsr x3, x4, #5; asr w3, w4, #5 */
  lemma KnownWords()
    ensures Decode(0x52a2_4683) == MoveWide(0, 2, 1, 0x1234, 3)
    ensures Decode(0x9282_4683) == MoveWide(1, 0, 0, 0x1234, 3)
    ensures Decode(0xf2e2_4683) == MoveWide(1, 3, 3, 0x1234, 3)
    ensures Decode(0x9104_8c83) == AddSubImm(1, 0, 0, 0x123, 4, 3)
    ensures Decode(0x5144_8c83) == AddSubImm(0, 1, 1, 0x123, 4, 3)
    ensures Decode(0x8b05_0083) == AddSubReg(1, 0, 5, 4, 3) && Decode(0x4b05_0083) == AddSubReg(0, 1, 5, 4, 3)
    ensures Decode(0x9240_1c83) == LogicalImm(1, 0, 0x1007, 4, 3) && ImmMask(1, 0x1007) == Some(0xff)
    ensures Decode(0xb240_1c83) == LogicalImm(1, 1, 0x1007, 4, 3)
    ensures Decode(0xd240_1c83) == LogicalImm(1, 2, 0x1007, 4, 3)
    ensures Decode(0x8a05_0083) == LogicalReg(1, 0, 0, 5, 4, 3) && Decode(0xaa05_0083) == LogicalReg(1, 1, 0, 5, 4, 3)
    ensures Decode(0xca05_0083) == LogicalReg(1, 2, 0, 5, 4, 3) && Decode(0xaa25_03e3) == LogicalReg(1, 1, 1, 5, 31, 3)
    ensures Decode(0xd37b_e883) == Bitfield(1, 2, 1, 59, 58, 4, 3)
    ensures Decode(0xd345_fc83) == Bitfield(1, 2, 1, 5, 63, 4, 3)
    ensures Decode(0x1305_7c83) == Bitfield(0, 0, 0, 5, 31, 4, 3)
  {}

  /** Halfwords moved, sums in 64 and 32 bits, and the bitwise operations. */
  lemma KnownValues()
    ensures WideValue(0, 3, 0x1234, 5) == 0xedcb_ffff_ffff_ffff && WideValue(2, 2, 0x1234, 5) == 0x1234_0000_0000
    ensures WideValue(3, 1, 0x1234, 0x1111_2222_3333_4444) == 0x1111_2222_1234_4444
    ensures Sum(1, 0, 0xffff_ffff, 1) == 0x1_0000_0000 && Sum(0, 0, 0x7_ffff_ffff, 1) == 0
    ensures Sum(1, 1, 0, 1) == 0xffff_ffff_ffff_ffff && Sum(0, 1, 0x7_0000_0000, 1) == 0xffff_ffff
    ensures Logical(0, 12, 10) == 8 && Logical(1, 12, 10) == 14 && Logical(2, 12, 10) == 6
    ensures Inverted(0, 5) == 5 && Inverted(1, 5) == 0xffff_ffff_ffff_fffa
    ensures Sized(1, 0x7_0000_0005) == 0x7_0000_0005 && Sized(0, 0x7_0000_0005) == 5
  {}

  /** Shifts by 5 bits, left, right, and right with copies of the sign, in 64 and 32 bits. */
  lemma KnownShifts()
    ensures ShiftAlias(1, 2, 59, 58, 0x8000_0000_0000_0081) == Some(0x1020)
    ensures ShiftAlias(1, 2, 5, 63, 0x8000_0000_0000_0081) == Some(0x400_0000_0000_0004)
    ensures ShiftAlias(1, 0, 5, 63, 0x8000_0000_0000_0081) == Some(0xfc00_0000_0000_0004)
    ensures ShiftAlias(1, 0, 5, 63, 0x4000_0000_0000_0081) == Some(0x200_0000_0000_0004)
    ensures ShiftAlias(0, 2, 27, 26, 0x81) == Some(0x1020) && ShiftAlias(0, 2, 5, 31, 0x7_8000_0081) == Some(0x400_0004)
    ensures ShiftAlias(0, 0, 5, 31, 0x7_8000_0081) == Some(0xffff_ffff_fc00_0004)
    ensures ShiftAlias(0, 0, 5, 31, 0x7_7fff_ffff) == Some(0x3ff_ffff)
  {}

  /** Register 31 is the stack pointer in additions of an immediate, and zero elsewhere. */
  lemma Register31(x: Regs)
    ensures Exec(AddSubImm(1, 0, 0, 16, 31, 3), x) == Some(x[X(3) := Sum(1, 0, x[X(31)], 16)])
    ensures Exec(AddSubReg(1, 0, 31, 4, 3), x) == Some(x[X(3) := Sum(1, 0, x[X(4)], 0)])
    ensures Exec(LogicalReg(1, 1, 0, 4, 31, 3), x) == Some(x[X(3) := Sized(1, Logical(1, 0, Inverted(0, x[X(4)])))])
    ensures Exec(MoveWide(1, 2, 0, 5, 31), x) == Some(x)
  {
    hide Sum, Sized, Logical, Inverted, WideValue;
  }
}
