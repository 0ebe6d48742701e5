/** The A32 data-processing instructions that the code generator builds constants with (sections A5.2
    and A8.8 of Arm ARM DDI 0406C). */
module A32 {
  import opened Options

  type Word = bv32

  type Reg = r: bv32 | r < 16

  datatype CoreReg = R(n: bv32)

  type Regs = m: imap<CoreReg, bv32> | forall r: CoreReg :: r in m
    ghost witness imap r: CoreReg :: 0

  datatype Instr =
    | DataImm(opcode: bv32, s: bv32, rn: bv32, rd: bv32, value: bv32)
    | DataReg(opcode: bv32, s: bv32, rn: bv32, rd: bv32, rm: bv32)
    | Other

  // Modified immediates

  function Ror(b: bv32, i: bv32): bv32
    requires i < 32
  {
    if i == 0 then b else (b >> i) | (b << (32 - i))
  }

  /** The constant that the 12 bits of an immediate operand stand for (section A5.2.4). */
  function ExpandImm(imm: bv32): bv32
    requires imm < 0x1000
  {
    Ror(imm & 0xff, (imm >> 8) << 1)
  }

  ghost predicate IsModImm(c: bv32) {
    exists imm: bv32 | imm < 0x1000 :: ExpandImm(imm) == c
  }

  // Instructions

  function Opcode(w: Word): bv32 {
    (w >> 21) & 15
  }

  function Decode(w: Word): Instr {
    var opcode, s, rn, rd := Opcode(w), (w >> 20) & 1, (w >> 16) & 15, (w >> 12) & 15;
    if w & 0x0e00_0000 == 0x0200_0000 then DataImm(opcode, s, rn, rd, ExpandImm(w & 0xfff))
    else if w & 0x0e00_0ff0 == 0 then DataReg(opcode, s, rn, rd, w & 15)
    else Other
  }

  const AND: bv32 := 0
  const EOR: bv32 := 1
  const SUB: bv32 := 2
  const RSB: bv32 := 3
  const ADD: bv32 := 4
  const ORR: bv32 := 12
  const MOV: bv32 := 13
  const BIC: bv32 := 14
  const MVN: bv32 := 15

  function Compute(opcode: bv32, a: bv32, b: bv32): Option<bv32> {
    if opcode == AND then Some(a & b)
    else if opcode == EOR then Some(a ^ b)
    else if opcode == SUB then Some(a - b)
    else if opcode == RSB then Some(b - a)
    else if opcode == ADD then Some(a + b)
    else if opcode == ORR then Some(a | b)
    else if opcode == MOV then Some(b)
    else if opcode == BIC then Some(a & !b)
    else if opcode == MVN then Some(!b)
    else None
  }

  function Store(x: Regs, rd: bv32, v: Option<bv32>): Option<Regs> {
    match v
    case None => None
    case Some(u) => Some(x[R(rd) := u])
  }

  /** The registers after an instruction; none for those that compare or use the carry. */
  function Exec(i: Instr, x: Regs): Option<Regs> {
    match i
    case DataImm(opcode, _, rn, rd, v) => Store(x, rd, Compute(opcode, x[R(rn)], v))
    case DataReg(opcode, _, rn, rd, rm) => Store(x, rd, Compute(opcode, x[R(rn)], x[R(rm)]))
    case Other => None
  }

  function Execute(code: seq<Word>, x: Regs): Option<Regs> {
    if code == [] then Some(x)
    else
      match Execute(code[..|code| - 1], x)
      case None => None
      case Some(y) => Exec(Decode(code[|code| - 1]), y)
  }

  lemma ExecuteSnoc(code: seq<Word>, w: Word, x: Regs)
    ensures Execute(code + [w], x) == match Execute(code, x) case None => None case Some(y) => Exec(Decode(w), y)
  {}

  // Some words and what they do

  /** add and adds r3, r4, #0xff000000; sub, rsb, and, eor, orr and bic r3, r4, #5; mov and mvn r3, #5; mov and mvn
      r3, r5; mov r3, r5, lsl #2 */
  lemma KnownWords()
    ensures Decode(0xe284_34ff) == DataImm(4, 0, 4, 3, 0xff00_0000)
    ensures Decode(0xe294_34ff) == DataImm(4, 1, 4, 3, 0xff00_0000)
    ensures Decode(0xe244_3005) == DataImm(2, 0, 4, 3, 5) && Decode(0xe264_3005) == DataImm(3, 0, 4, 3, 5)
    ensures Decode(0xe204_3005) == DataImm(0, 0, 4, 3, 5) && Decode(0xe224_3005) == DataImm(1, 0, 4, 3, 5)
    ensures Decode(0xe384_3005) == DataImm(12, 0, 4, 3, 5) && Decode(0xe3c4_3005) == DataImm(14, 0, 4, 3, 5)
    ensures Decode(0xe3a0_3005) == DataImm(13, 0, 0, 3, 5) && Decode(0xe3e0_3005) == DataImm(15, 0, 0, 3, 5)
    ensures Decode(0xe1a0_3005) == DataReg(13, 0, 0, 3, 5) && Decode(0xe1e0_3005) == DataReg(15, 0, 0, 3, 5)
    ensures Decode(0xe1a0_3105) == Other
  {}

  /** The operations on 12 and 10; none of those that use the carry (5 to 7) or only compare (8 to 11). */
  lemma KnownValues()
    ensures Compute(0, 12, 10) == Some(8) && Compute(1, 12, 10) == Some(6) && Compute(2, 12, 10) == Some(2)
    ensures Compute(3, 12, 10) == Some(0xffff_fffe) && Compute(4, 12, 10) == Some(22)
    ensures Compute(12, 12, 10) == Some(14) && Compute(13, 12, 10) == Some(10) && Compute(14, 12, 10) == Some(4)
    ensures Compute(15, 12, 10) == Some(0xffff_fff5)
    ensures forall opcode: bv32 :: 5 <= opcode <= 11 ==> Compute(opcode, 12, 10) == None
  {}

  /** The result goes to register rd, and nothing else changes. */
  lemma ExecStores(x: Regs)
    ensures Exec(DataImm(13, 0, 4, 3, 5), x) == Some(x[R(3) := 5])
    ensures Exec(DataReg(13, 0, 4, 3, 5), x) == Some(x[R(3) := x[R(5)]])
    ensures Exec(DataImm(2, 0, 4, 3, 5), x) == Store(x, 3, Compute(2, x[R(4)], 5))
    ensures Exec(DataReg(2, 0, 4, 3, 5), x) == Store(x, 3, Compute(2, x[R(4)], x[R(5)]))
    ensures Exec(DataImm(10, 0, 4, 3, 5), x) == None && Exec(Other, x) == None
  {
    ComputeMoves(x[R(4)]);
    hide Compute;
  }

  lemma ComputeMoves(a: bv32)
    ensures forall b: bv32 :: Compute(13, a, b) == Some(b) && Compute(10, a, b) == None
  {}
}
