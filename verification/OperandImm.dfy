/** Operations with a constant operand (arm64_gen_opic). */
module OperandImm {
  import opened Options
  import opened BitMasks
  import opened LogicalImm
  import opened A64
  import opened MoveImm

  datatype Op = Plus | Minus | Xor | And | Or | Shl | Shr | Sar | OtherOp

  // What the operations mean, on 64 bits if l is 1 and on 32 if it is 0

  function Width(l: bv32): bv64 {
    if l == 1 then 64 else 32
  }

  /** The shift count taken from a constant. */
  function ShiftCount(l: bv32, val: bv64): bv64 {
    val & (Width(l) - 1)
  }

  lemma CountRange(l: bv32, val: bv64)
    requires l < 2
    ensures ShiftCount(l, val) < Width(l)
  {
    if l == 1 {} else {}
  }

  /** a op val, or val op a if rev. */
  function Apply(op: Op, l: bv32, rev: bool, a: bv64, val: bv64): bv64
    requires l < 2
  {
    match op
    case Plus => Sum(l, 0, a, val)
    case Minus => if rev then Sum(l, 1, val, a) else Sum(l, 1, a, val)
    case And => Sized(l, Logical(0, a, val))
    case Or => Sized(l, Logical(1, a, val))
    case Xor => Sized(l, Logical(2, a, val))
    case Shl => Sized(l, ShiftLeft(a, ShiftCount(l, val)))
    case Shr => Sized(l, ShiftRight(Sized(l, a), ShiftCount(l, val)))
    case Sar => Sized(l, ShiftRightSigned(SignExtend(l, a), ShiftCount(l, val)))
    case OtherOp => 0
  }

  /** The code leaves the result in register x and changes no other register but x30. */
  ghost predicate Computes(code: seq<Word>, op: Op, l: bv32, rev: bool, val: bv64, x: Reg, a: Reg)
    requires l < 2
  {
    forall s: Regs :: Leaves(Execute(code, s), s, x, Apply(op, l, rev, s[X(a)], val))
  }

  ghost predicate Leaves(t: Option<Regs>, s: Regs, x: bv32, v: bv64) {
    t.Some? && t.value[X(x)] == v && forall g :: g != X(x) && g != X(30) ==> t.value[g] == s[g]
  }

  // The words that are written

  function AddImmCode(l: bv32, sub: bv64, x: Reg, a: Reg, v: bv64): Word {
    Trunc(0x1100_0000 | ((l as bv64) << 31) | (sub << 30) | (x as bv64) | ((a as bv64) << 5) | (v << 10))
  }

  function AddImm12Code(l: bv32, sub: bv64, x: Reg, a: Reg, v: bv64): Word {
    Trunc(0x1140_0000 | ((l as bv64) << 31) | (sub << 30) | (x as bv64) | ((a as bv64) << 5) | ((v >> 12) << 10))
  }

  function AddRegCode(l: bv32, sub: bv64, x: Reg, a: Reg): Word {
    Trunc(0x0b1e_0000 | ((l as bv64) << 31) | (sub << 30) | (x as bv64) | ((a as bv64) << 5))
  }

  function NegCode(l: bv32, x: Reg, a: Reg): Word {
    0x4b00_03e0 | (l << 31) | x | (a << 16)
  }

  function SubCode(l: bv32, x: Reg, a: Reg): Word {
    0x4b00_03c0 | (l << 31) | x | (a << 16)
  }

  function MvnCode(l: bv32, x: Reg, a: Reg): Word {
    0x2a20_03e0 | (l << 31) | x | (a << 16)
  }

  function MovCode(l: bv32, a: Reg): Word {
    0x2a00_03e0 | (l << 31) | (a << 16)
  }

  function LogicalCode(opc: bv32, l: bv32, x: Reg, a: Reg, e: bv32): Word {
    0x1200_0000 | (opc << 29) | (l << 31) | x | (a << 5) | (e << 10)
  }

  function LslCode(l: bv32, x: Reg, a: Reg, immr: bv64, imms: bv64): Word {
    Trunc(0x5300_0000 | ((l as bv64) << 31) | ((l as bv64) << 22) | (x as bv64) | ((a as bv64) << 5)
          | (immr << 16) | (imms << 10))
  }

  function ShrCode(b: bv64, l: bv32, x: Reg, a: Reg, immr: bv64, imms: bv64): Word {
    Trunc(0x1300_0000 | (b << 30) | ((l as bv64) << 31) | ((l as bv64) << 22) | (x as bv64) | ((a as bv64) << 5)
          | (immr << 16) | (imms << 10))
  }

  // The encodings

  lemma AddImmWord(l: bv32, sub: bv64, x: Reg, a: Reg, v: bv64)
    requires l < 2 && sub < 2 && v <= 0xfff
    ensures Decode(AddImmCode(l, sub, x, a, v)) == AddSubImm(l, sub as bv32, 0, v, a, x)
  {}

  lemma AddImm12Word(l: bv32, sub: bv64, x: Reg, a: Reg, v: bv64)
    requires l < 2 && sub < 2 && v & !0xff_f000 == 0
    ensures Decode(AddImm12Code(l, sub, x, a, v)) == AddSubImm(l, sub as bv32, 1, v >> 12, a, x)
  {}

  lemma AddRegWord(l: bv32, sub: bv64, x: Reg, a: Reg)
    requires l < 2 && sub < 2
    ensures Decode(AddRegCode(l, sub, x, a)) == AddSubReg(l, sub as bv32, 30, a, x)
  {}

  lemma NegWord(l: bv32, x: Reg, a: Reg)
    requires l < 2
    ensures Decode(NegCode(l, x, a)) == AddSubReg(l, 1, a, 31, x)
  {}

  lemma SubWord(l: bv32, x: Reg, a: Reg)
    requires l < 2
    ensures Decode(SubCode(l, x, a)) == AddSubReg(l, 1, a, 30, x)
  {}

  lemma MvnWord(l: bv32, x: Reg, a: Reg)
    requires l < 2
    ensures Decode(MvnCode(l, x, a)) == LogicalReg(l, 1, 1, a, 31, x)
  {}

  lemma MovWord(l: bv32, a: Reg)
    requires l < 2
    ensures Decode(MovCode(l, a)) == LogicalReg(l, 1, 0, a, 31, 0)
  {}

  lemma LogicalWord(opc: bv32, l: bv32, x: Reg, a: Reg, e: bv32)
    requires opc < 3 && l < 2 && e < 0x2000
    ensures Decode(LogicalCode(opc, l, x, a, e)) == LogicalImm(l, opc, e, a, x)
  {}

  lemma LslWordX(l: bv32, x: Reg, a: Reg, immr: bv64, imms: bv64)
    requires l == 1 && immr < 64 && imms < 64
    ensures Decode(LslCode(l, x, a, immr, imms)) == Bitfield(l, 2, l, immr as bv32, imms as bv32, a, x)
  {}

  lemma LslWordW(l: bv32, x: Reg, a: Reg, immr: bv64, imms: bv64)
    requires l == 0 && immr < 64 && imms < 64
    ensures Decode(LslCode(l, x, a, immr, imms)) == Bitfield(l, 2, l, immr as bv32, imms as bv32, a, x)
  {}

  lemma ShrWordX(l: bv32, x: Reg, a: Reg, immr: bv64, imms: bv64)
    requires l == 1 && immr < 64 && imms < 64
    ensures Decode(ShrCode(1, l, x, a, immr, imms)) == Bitfield(l, 2, l, immr as bv32, imms as bv32, a, x)
  {}

  lemma ShrWordW(l: bv32, x: Reg, a: Reg, immr: bv64, imms: bv64)
    requires l == 0 && immr < 64 && imms < 64
    ensures Decode(ShrCode(1, l, x, a, immr, imms)) == Bitfield(l, 2, l, immr as bv32, imms as bv32, a, x)
  {}

  lemma SarWordX(l: bv32, x: Reg, a: Reg, immr: bv64, imms: bv64)
    requires l == 1 && immr < 64 && imms < 64
    ensures Decode(ShrCode(0, l, x, a, immr, imms)) == Bitfield(l, 0, l, immr as bv32, imms as bv32, a, x)
  {}

  lemma SarWordW(l: bv32, x: Reg, a: Reg, immr: bv64, imms: bv64)
    requires l == 0 && immr < 64 && imms < 64
    ensures Decode(ShrCode(0, l, x, a, immr, imms)) == Bitfield(l, 0, l, immr as bv32, imms as bv32, a, x)
  {}

  // What the shift aliases compute

  lemma LslAliasOf(l: bv32, immr: bv64, imms: bv64, top: bv64, v: bv64, a: bv64)
    requires top == (if l == 1 then 63 else 31) && imms < top && immr == imms + 1 && v == top - imms
    ensures ShiftAlias(l, 2, immr, imms, a) == Some(ShiftLeft(a, v))
  {
    hide ShiftLeft, ShiftRight, ShiftRightSigned, SignExtend;
  }

  lemma LslFields(w: bv64, v: bv64)
    requires 0 < v < w <= 64
    ensures w - 1 - v < w - 1 && w - v == (w - 1 - v) + 1 && v == (w - 1) - (w - 1 - v)
  {}

  lemma LslAlias(l: bv32, v: bv64, a: bv64)
    requires l < 2 && 0 < v < Width(l)
    ensures ShiftAlias(l, 2, Width(l) - v, Width(l) - 1 - v, a) == Some(ShiftLeft(a, v))
  {
    hide ShiftAlias;
    if l == 1 {
      LslFields(64, v);
      LslAliasOf(l, 64 - v, 63 - v, 63, v, a);
    } else {
      LslFields(32, v);
      LslAliasOf(l, 32 - v, 31 - v, 31, v, a);
    }
  }

  lemma LsrAlias(l: bv32, v: bv64, a: bv64)
    requires l < 2 && 0 < v < Width(l)
    ensures ShiftAlias(l, 2, v, Width(l) - 1, a) == Some(ShiftRight(Sized(l, a), v))
  {
    hide ShiftLeft, ShiftRight, ShiftRightSigned, SignExtend, Sized;
    if l == 1 {} else {}
  }

  lemma AsrAlias(l: bv32, v: bv64, a: bv64)
    requires l < 2 && 0 < v < Width(l)
    ensures ShiftAlias(l, 0, v, Width(l) - 1, a) == Some(ShiftRightSigned(SignExtend(l, a), v))
  {
    hide ShiftLeft, ShiftRight, ShiftRightSigned, SignExtend, Sized;
    if l == 1 {} else {}
  }

  // What one instruction does

  ghost predicate Does(i: Instr, op: Op, l: bv32, rev: bool, val: bv64, x: Reg, a: Reg)
    requires l < 2
  {
    forall s: Regs :: Exec(i, s) == Some(s[X(x) := Apply(op, l, rev, s[X(a)], val)])
  }

  /** The same, when x30 holds v. */
  ghost predicate DoesWith(i: Instr, v: bv64, op: Op, l: bv32, rev: bool, val: bv64, x: Reg, a: Reg)
    requires l < 2
  {
    forall s: Regs :: s[X(30)] == v ==> Exec(i, s) == Some(s[X(x) := Apply(op, l, rev, s[X(a)], val)])
  }

  lemma OneInstr(w: Word, op: Op, l: bv32, rev: bool, val: bv64, x: Reg, a: Reg)
    requires l < 2 && Does(Decode(w), op, l, rev, val, x, a)
    ensures Computes([w], op, l, rev, val, x, a)
  {
    hide Decode, Exec, Apply;
    forall s: Regs ensures Leaves(Execute([w], s), s, x, Apply(op, l, rev, s[X(a)], val)) {
      assert Exec(Decode(w), s) == Some(s[X(x) := Apply(op, l, rev, s[X(a)], val)]);
      ExecuteSnoc([], w, s);
      assert [] + [w] == [w];
    }
  }

  lemma WithX30(code: seq<Word>, v: bv64, w: Word, op: Op, l: bv32, rev: bool, val: bv64, x: Reg, a: Reg)
    requires l < 2 && a != 30 && Sets(code, 30, v) && DoesWith(Decode(w), v, op, l, rev, val, x, a)
    ensures Computes(code + [w], op, l, rev, val, x, a)
  {
    hide Decode, Exec, Apply;
    forall s: Regs ensures Leaves(Execute(code + [w], s), s, x, Apply(op, l, rev, s[X(a)], val)) {
      assert Execute(code, s) == Some(s[X(30) := v]);
      ExecuteSnoc(code, w, s);
      var t: Regs := s[X(30) := v];
      assert t[X(30)] == v && t[X(a)] == s[X(a)];
      assert Exec(Decode(w), t) == Some(t[X(x) := Apply(op, l, rev, s[X(a)], val)]);
    }
  }

  // Addition

  function Neg(v: bv64): bv64 {
    -v
  }

  /** v is val or, to be subtracted, its negation, in the width of l. */
  predicate Magnitude(l: bv32, sub: bv32, v: bv64, val: bv64) {
    v == Sized(l, if sub == 1 then Neg(Sized(l, val)) else Sized(l, val))
  }

  function Neg32(v: bv32): bv32 {
    -v
  }

  lemma SubNeg64(y: bv64, v: bv64)
    ensures Add64(true, y, -v) == Add64(false, y, v) && Add64(true, y, v) == Add64(false, y, -v)
  {}

  lemma SubNeg32(y: bv32, v: bv32)
    ensures Add32(true, y, -v) == Add32(false, y, v) && Add32(true, y, v) == Add32(false, y, -v)
  {}

  lemma TruncMinus(v: bv64)
    ensures Trunc(-v) == -Trunc(v)
  {}

  lemma TruncLow(v: bv64)
    ensures Trunc(v & 0xffff_ffff) == Trunc(v)
  {}

  // The same of the named functions

  lemma Subtract64(y: bv64, v: bv64)
    ensures Add64(true, y, Neg(v)) == Add64(false, y, v) && Add64(true, y, v) == Add64(false, y, Neg(v))
  {
    hide Add64;
    SubNeg64(y, v);
  }

  lemma Subtract32(y: bv32, v: bv32)
    ensures Add32(true, y, Neg32(v)) == Add32(false, y, v) && Add32(true, y, v) == Add32(false, y, Neg32(v))
  {
    hide Add32;
    SubNeg32(y, v);
  }

  lemma TruncNeg(v: bv64)
    ensures Trunc(Neg(v)) == Neg32(Trunc(v))
  {
    hide Trunc;
    TruncMinus(v);
  }

  lemma SizedIs(v: bv64)
    ensures Sized(1, v) == v && Trunc(Sized(0, v)) == Trunc(v)
  {
    hide Trunc;
    TruncLow(v);
  }

  lemma SubtractTrunc(y: bv64, v: bv64)
    ensures Add32(true, Trunc(y), Trunc(v)) == Add32(false, Trunc(y), Trunc(Neg(v)))
    ensures Add32(true, Trunc(y), Trunc(Neg(v))) == Add32(false, Trunc(y), Trunc(v))
  {
    hide Add32, Trunc, Neg, Neg32;
    TruncNeg(v);
    Subtract32(Trunc(y), Trunc(v));
  }

  lemma SubIsAddW(y: bv64, v: bv64)
    ensures Sum(0, 1, y, v) == Sum(0, 0, y, Neg(v))
  {
    hide Extend, Add64, Add32, Trunc, Neg;
    SubtractTrunc(y, v);
  }

  lemma SubNegW(y: bv64, v: bv64)
    ensures Sum(0, 1, y, Neg(v)) == Sum(0, 0, y, v)
  {
    hide Extend, Add64, Add32, Trunc, Neg;
    SubtractTrunc(y, v);
  }

  lemma SubIsAddX(y: bv64, v: bv64)
    ensures Sum(1, 1, y, v) == Sum(1, 0, y, Neg(v)) && Sum(1, 1, y, Neg(v)) == Sum(1, 0, y, v)
  {
    hide Extend, Add64, Add32, Trunc, Neg;
    Subtract64(y, v);
  }

  lemma SubIsAdd(l: bv32, y: bv64, v: bv64)
    requires l < 2
    ensures Sum(l, 1, y, v) == Sum(l, 0, y, Neg(v)) && Sum(l, 1, y, Neg(v)) == Sum(l, 0, y, v)
  {
    hide Sum, Neg;
    SubIsAddX(y, v);
    SubIsAddW(y, v);
    SubNegW(y, v);
  }

  lemma SumSizedW(sub: bv32, y: bv64, v: bv64)
    ensures Sum(0, sub, y, Sized(0, v)) == Sum(0, sub, y, v)
  {
    hide Extend, Add64, Add32, Trunc, Sized;
    SizedIs(v);
  }

  /** Sums do not see what an operand has above its width. */
  lemma SumSized(l: bv32, sub: bv32, y: bv64, v: bv64)
    requires l < 2
    ensures Sum(l, sub, y, Sized(l, v)) == Sum(l, sub, y, v)
  {
    hide Sum, Sized;
    SumSizedW(sub, y, v);
    SizedIs(v);
  }

  lemma SumMagnitude(l: bv32, sub: bv32, v: bv64, val: bv64, y: bv64)
    requires l < 2 && sub < 2 && Magnitude(l, sub, v, val)
    ensures Sum(l, sub, y, v) == Sum(l, 0, y, val)
  {
    hide Sum, Sized, Neg;
    SumSized(l, 0, y, val);
    SumSized(l, 0, y, Sized(l, val));
    SumSized(l, 1, y, Neg(Sized(l, val)));
    SubIsAdd(l, y, Sized(l, val));
  }

  /** Plus and, without rev, minus as the addition of the negated constant. */
  predicate Adds(op: Op, rev: bool, val: bv64, added: bv64) {
    (op == Plus && added == val) || (op == Minus && !rev && added == Neg(val))
  }

  lemma AddsApply(op: Op, l: bv32, sub: bv32, v: bv64, rev: bool, val: bv64, added: bv64, y: bv64)
    requires l < 2 && sub < 2 && Magnitude(l, sub, v, added) && Adds(op, rev, val, added)
    ensures Sum(l, sub, y, v) == Apply(op, l, rev, y, val)
  {
    hide Sum, Sized, Logical, ShiftLeft, ShiftRight, ShiftRightSigned, SignExtend, ShiftCount, Magnitude, Neg;
    SumMagnitude(l, sub, v, added, y);
    SubIsAdd(l, y, val);
  }

  lemma AddImmDoes(l: bv32, sub: bv32, v: bv64, op: Op, rev: bool, val: bv64, added: bv64, x: Reg, a: Reg)
    requires l < 2 && sub < 2 && Magnitude(l, sub, v, added) && Adds(op, rev, val, added)
    ensures Does(AddSubImm(l, sub, 0, v, a, x), op, l, rev, val, x, a)
  {
    hide Sum, Apply, Magnitude, Adds, Exec;
    forall s: Regs ensures Exec(AddSubImm(l, sub, 0, v, a, x), s) == Some(s[X(x) := Apply(op, l, rev, s[X(a)], val)]) {
      ExecAddImm(l, sub, v, a, x, s);
      AddsApply(op, l, sub, v, rev, val, added, s[X(a)]);
    }
  }

  lemma AddImm12Does(l: bv32, sub: bv32, v: bv64, op: Op, rev: bool, val: bv64, added: bv64, x: Reg, a: Reg)
    requires l < 2 && sub < 2 && Magnitude(l, sub, v, added) && Adds(op, rev, val, added) && v & !0xff_f000 == 0
    ensures Does(AddSubImm(l, sub, 1, v >> 12, a, x), op, l, rev, val, x, a)
  {
    hide Sum, Apply, Magnitude, Adds, Exec;
    Unshift(v);
    forall s: Regs
      ensures Exec(AddSubImm(l, sub, 1, v >> 12, a, x), s) ==
        Some(s[X(x) := Apply(op, l, rev, s[X(a)], val)])
    {
      ExecAddImm(l, sub, v >> 12, a, x, s);
      AddsApply(op, l, sub, v, rev, val, added, s[X(a)]);
    }
  }

  lemma AddRegDoes(l: bv32, sub: bv32, v: bv64, op: Op, rev: bool, val: bv64, added: bv64, x: Reg, a: Reg)
    requires l < 2 && sub < 2 && Magnitude(l, sub, v, added) && Adds(op, rev, val, added) && x < 31 && a < 31
    ensures DoesWith(AddSubReg(l, sub, 30, a, x), v, op, l, rev, val, x, a)
  {
    hide Sum, Apply, Magnitude, Adds, Exec;
    forall s: Regs | s[X(30)] == v
      ensures Exec(AddSubReg(l, sub, 30, a, x), s) == Some(s[X(x) := Apply(op, l, rev, s[X(a)], val)])
    {
      ExecAddReg(l, sub, 30, a, x, s);
      AddsApply(op, l, sub, v, rev, val, added, s[X(a)]);
    }
  }

  lemma Unshift(v: bv64)
    requires v & !0xff_f000 == 0
    ensures (v >> 12) << 12 == v
  {}

  // Subtraction from the constant

  lemma SumSizedLeftW(sub: bv32, v: bv64, y: bv64)
    ensures Sum(0, sub, Sized(0, v), y) == Sum(0, sub, v, y)
  {
    hide Extend, Add64, Add32, Trunc, Sized;
    SizedIs(v);
  }

  lemma SumSizedLeft(l: bv32, sub: bv32, v: bv64, y: bv64)
    requires l < 2
    ensures Sum(l, sub, Sized(l, v), y) == Sum(l, sub, v, y)
  {
    hide Sum, Sized;
    SumSizedLeftW(sub, v, y);
    SizedIs(v);
  }

  lemma ReverseApply(l: bv32, y: bv64, val: bv64)
    requires l < 2
    ensures Apply(Minus, l, true, y, val) == Sum(l, 1, Sized(l, val), y)
  {
    hide Sum, Sized, Logical, ShiftLeft, ShiftRight, ShiftRightSigned, SignExtend, ShiftCount;
    SumSizedLeft(l, 1, val, y);
  }

  lemma NegDoes(l: bv32, val: bv64, x: Reg, a: Reg)
    requires l < 2 && Sized(l, val) == 0 && x < 31 && a < 31
    ensures Does(AddSubReg(l, 1, a, 31, x), Minus, l, true, val, x, a)
  {
    hide Sum, Sized, Apply, Exec;
    forall s: Regs ensures Exec(AddSubReg(l, 1, a, 31, x), s) == Some(s[X(x) := Apply(Minus, l, true, s[X(a)], val)]) {
      ExecAddReg(l, 1, a, 31, x, s);
      ReverseApply(l, s[X(a)], val);
    }
  }

  lemma SubDoes(l: bv32, v: bv64, val: bv64, x: Reg, a: Reg)
    requires l < 2 && v == Sized(l, val) && x < 31 && a < 31
    ensures DoesWith(AddSubReg(l, 1, a, 30, x), v, Minus, l, true, val, x, a)
  {
    hide Sum, Sized, Apply, Exec;
    forall s: Regs | s[X(30)] == v
      ensures Exec(AddSubReg(l, 1, a, 30, x), s) == Some(s[X(x) := Apply(Minus, l, true, s[X(a)], val)])
    {
      ExecAddReg(l, 1, a, 30, x, s);
      ReverseApply(l, s[X(a)], val);
    }
  }

  function AllOnes(l: bv32): bv64 {
    if l == 1 then 0xffff_ffff_ffff_ffff else 0xffff_ffff
  }

  lemma MinusOneMinusX(y: bv64)
    ensures Sum(1, 1, 0xffff_ffff_ffff_ffff, y) == Sized(1, Logical(1, 0, Inverted(1, y)))
  {}

  lemma MinusOneMinusW(y: bv64)
    ensures Sum(0, 1, 0xffff_ffff, y) == Sized(0, Logical(1, 0, Inverted(1, y)))
  {}

  /** Not a is minus one minus a. */
  lemma MinusOneMinus(l: bv32, y: bv64)
    requires l < 2
    ensures Sum(l, 1, AllOnes(l), y) == Sized(l, Logical(1, 0, Inverted(1, y)))
  {
    hide Sum, Sized, Logical, Inverted;
    MinusOneMinusX(y);
    MinusOneMinusW(y);
  }

  lemma MvnMinusDoes(l: bv32, val: bv64, x: Reg, a: Reg)
    requires l < 2 && Sized(l, val) == AllOnes(l) && x < 31 && a < 31
    ensures Does(LogicalReg(l, 1, 1, a, 31, x), Minus, l, true, val, x, a)
  {
    hide Sum, Sized, Apply, Exec, Logical, Inverted, AllOnes;
    forall s: Regs
      ensures Exec(LogicalReg(l, 1, 1, a, 31, x), s) ==
        Some(s[X(x) := Apply(Minus, l, true, s[X(a)], val)])
    {
      ExecLogicalReg(l, 1, 1, a, 31, x, s);
      ReverseApply(l, s[X(a)], val);
      MinusOneMinus(l, s[X(a)]);
    }
  }

  // Bitwise operations

  lemma NotX(y: bv64)
    ensures Sized(1, Logical(1, 0, Inverted(1, y))) == Sized(1, Logical(2, y, 0xffff_ffff_ffff_ffff))
  {}

  lemma NotLow(y: bv64, val: bv64)
    requires val & 0xffff_ffff == 0xffff_ffff
    ensures (0 | !y) & 0xffff_ffff == (y ^ val) & 0xffff_ffff
  {}

  lemma LogicalAnd(a: bv64, b: bv64)
    ensures Logical(0, a, b) == a & b
  {}

  lemma LogicalOr(a: bv64, b: bv64)
    ensures Logical(1, a, b) == a | b
  {}

  lemma LogicalXor(a: bv64, b: bv64)
    ensures Logical(2, a, b) == a ^ b
  {}

  lemma NotW(y: bv64, val: bv64)
    requires val & 0xffff_ffff == 0xffff_ffff
    ensures Sized(0, Logical(1, 0, Inverted(1, y))) == Sized(0, Logical(2, y, val))
  {
    hide Logical;
    LogicalXor(y, val);
    LogicalOr(0, !y);
    NotLow(y, val);
  }

  lemma Not(l: bv32, val: bv64, y: bv64)
    requires l < 2 && Sized(l, val) == AllOnes(l)
    ensures Sized(l, Logical(1, 0, Inverted(1, y))) == Sized(l, Logical(2, y, val))
  {
    hide Logical, Inverted;
    if l == 1 { NotX(y); } else { NotW(y, val); }
  }

  lemma MvnXorDoes(l: bv32, rev: bool, val: bv64, x: Reg, a: Reg)
    requires l < 2 && Sized(l, val) == AllOnes(l) && x < 31 && a < 31
    ensures Does(LogicalReg(l, 1, 1, a, 31, x), Xor, l, rev, val, x, a)
  {
    hide Sum, Sized, Exec, Logical, Inverted, AllOnes, ShiftLeft, ShiftRight, ShiftRightSigned, SignExtend, ShiftCount;
    forall s: Regs ensures Exec(LogicalReg(l, 1, 1, a, 31, x), s) == Some(s[X(x) := Apply(Xor, l, rev, s[X(a)], val)]) {
      ExecLogicalReg(l, 1, 1, a, 31, x, s);
      Not(l, val, s[X(a)]);
    }
  }

  /** The 64-bit mask that an operand of width l stands for in an immediate. */
  function Repeated(l: bv32, v: bv64): bv64 {
    if l == 1 then v else v | (v << 32)
  }

  lemma AndLow(y: bv64, val: bv64)
    ensures (y & ((val & 0xffff_ffff) | ((val & 0xffff_ffff) << 32))) & 0xffff_ffff == (y & val) & 0xffff_ffff
  {}

  lemma AndRepeated(y: bv64, val: bv64)
    ensures Sized(0, Logical(0, y, Repeated(0, Sized(0, val)))) == Sized(0, Logical(0, y, val))
  {
    hide Logical;
    LogicalAnd(y, val);
    LogicalAnd(y, Repeated(0, Sized(0, val)));
    AndLow(y, val);
  }

  lemma OrLow(y: bv64, val: bv64)
    ensures (y | ((val & 0xffff_ffff) | ((val & 0xffff_ffff) << 32))) & 0xffff_ffff == (y | val) & 0xffff_ffff
  {}

  lemma OrRepeated(y: bv64, val: bv64)
    ensures Sized(0, Logical(1, y, Repeated(0, Sized(0, val)))) == Sized(0, Logical(1, y, val))
  {
    hide Logical;
    LogicalOr(y, val);
    LogicalOr(y, Repeated(0, Sized(0, val)));
    OrLow(y, val);
  }

  lemma XorLow(y: bv64, val: bv64)
    ensures (y ^ ((val & 0xffff_ffff) | ((val & 0xffff_ffff) << 32))) & 0xffff_ffff == (y ^ val) & 0xffff_ffff
  {}

  lemma XorRepeated(y: bv64, val: bv64)
    ensures Sized(0, Logical(2, y, Repeated(0, Sized(0, val)))) == Sized(0, Logical(2, y, val))
  {
    hide Logical;
    LogicalXor(y, val);
    LogicalXor(y, Repeated(0, Sized(0, val)));
    XorLow(y, val);
  }

  lemma LogicalRepeated(opc: bv32, val: bv64, y: bv64)
    requires opc < 3
    ensures Sized(0, Logical(opc, y, Repeated(0, Sized(0, val)))) == Sized(0, Logical(opc, y, val))
  {
    hide Logical, Sized, Repeated;
    if opc == 0 { AndRepeated(y, val); } else if opc == 1 { OrRepeated(y, val); } else { XorRepeated(y, val); }
  }

  function Opc(op: Op): bv32 {
    if op == And then 0 else if op == Or then 1 else 2
  }

  lemma LogicalApply(op: Op, l: bv32, rev: bool, val: bv64, y: bv64)
    requires l < 2 && (op == And || op == Or || op == Xor)
    ensures Apply(op, l, rev, y, val) == Sized(l, Logical(Opc(op), y, Repeated(l, Sized(l, val))))
  {
    hide Sum, Logical, Sized, ShiftLeft, ShiftRight, ShiftRightSigned, SignExtend, ShiftCount;
    SizedIs(val);
    LogicalRepeated(Opc(op), val, y);
  }

  lemma LogicalDoes(op: Op, l: bv32, rev: bool, val: bv64, field: bv32, x: Reg, a: Reg)
    requires l < 2 && (op == And || op == Or || op == Xor) && x < 31 && a < 31
    requires ImmMask(l, field) == Some(Repeated(l, Sized(l, val)))
    ensures Does(LogicalImm(l, Opc(op), field, a, x), op, l, rev, val, x, a)
  {
    hide Sum, Apply, Sized, Exec, Logical, ImmMask, Repeated;
    forall s: Regs
      ensures Exec(LogicalImm(l, Opc(op), field, a, x), s) ==
        Some(s[X(x) := Apply(op, l, rev, s[X(a)], val)])
    {
      ExecLogicalImm(l, Opc(op), field, a, x, s);
      LogicalApply(op, l, rev, val, s[X(a)]);
    }
  }

  lemma RepeatedHigh(v: bv64)
    requires v >> 32 == 0
    ensures Doubled(Repeated(0, v))
  {
    hide Doubled;
    DoubleHalves(v);
  }

  lemma SizedHigh(val: bv64)
    ensures Sized(0, val) >> 32 == 0
  {}

  /** An encoded immediate is good for the width it was made for. */
  lemma FieldForWidth(l: bv32, val: bv64, field: bv64)
    requires l < 2 && field < 0x2000 && DecodeField(field) == Some(Repeated(l, Sized(l, val)))
    ensures ImmMask(l, field as bv32) == Some(Repeated(l, Sized(l, val)))
  {
    hide DecodeField, Doubled, Repeated, Sized;
    FieldBack(field);
    if l == 0 {
      SizedHigh(val);
      RepeatedHigh(Sized(0, val));
      DoubledMask(field);
      NarrowField(field);
    }
  }

  // Shifts

  predicate IsShift(op: Op) {
    op == Shl || op == Shr || op == Sar
  }

  lemma CastBack(v: bv64)
    requires v < 64
    ensures (v as bv32) as bv64 == v
  {}

  lemma CountInWidth(l: bv32, n: bv64)
    requires l < 2 && 0 < n < Width(l)
    ensures n < 64 && Width(l) - n < 64 && Width(l) - 1 - n < 64 && Width(l) - 1 < 64
  {
    if l == 1 {} else {}
  }

  /** immr and imms of a left shift by n. */
  predicate LeftFields(l: bv32, n: bv64, immr: bv64, imms: bv64) {
    0 < n < Width(l) && immr == Width(l) - n && imms == Width(l) - 1 - n
  }

  lemma LeftAlias(l: bv32, n: bv64, immr: bv64, imms: bv64, y: bv64)
    requires l < 2 && LeftFields(l, n, immr, imms)
    ensures immr < 64 && imms < 64
    ensures ShiftAlias(l, 2, (immr as bv32) as bv64, (imms as bv32) as bv64, y) == Some(ShiftLeft(y, n))
  {
    hide ShiftAlias, ShiftLeft, Width;
    CountInWidth(l, n);
    CastBack(immr);
    CastBack(imms);
    LslAlias(l, n, y);
  }

  lemma ShlDoes(l: bv32, rev: bool, val: bv64, x: Reg, a: Reg, immr: bv64, imms: bv64)
    requires l < 2 && x < 31 && a < 31 && LeftFields(l, ShiftCount(l, val), immr, imms)
    ensures immr < 64 && imms < 64 && Does(Bitfield(l, 2, l, immr as bv32, imms as bv32, a, x), Shl, l, rev, val, x, a)
  {
    hide Sum, Sized, Exec, Logical, ShiftCount, ShiftLeft, ShiftRight, ShiftRightSigned, SignExtend, ShiftAlias,
      LeftFields;
    LeftAlias(l, ShiftCount(l, val), immr, imms, 0);
    forall s: Regs
      ensures Exec(Bitfield(l, 2, l, immr as bv32, imms as bv32, a, x), s) ==
        Some(s[X(x) := Apply(Shl, l, rev, s[X(a)], val)])
    {
      LeftAlias(l, ShiftCount(l, val), immr, imms, s[X(a)]);
      ExecBitfield(l, 2, immr as bv32, imms as bv32, a, x, s, ShiftLeft(s[X(a)], ShiftCount(l, val)));
    }
  }

  predicate RightFields(l: bv32, n: bv64, imms: bv64) {
    0 < n < Width(l) && imms == Width(l) - 1
  }

  lemma RightAlias(l: bv32, n: bv64, imms: bv64, y: bv64)
    requires l < 2 && RightFields(l, n, imms)
    ensures n < 64 && imms < 64
    ensures ShiftAlias(l, 2, (n as bv32) as bv64, (imms as bv32) as bv64, y) == Some(ShiftRight(Sized(l, y), n))
    ensures ShiftAlias(l, 0, (n as bv32) as bv64, (imms as bv32) as bv64, y) ==
      Some(ShiftRightSigned(SignExtend(l, y), n))
  {
    hide ShiftAlias, ShiftRight, ShiftRightSigned, SignExtend, Sized, Width;
    CountInWidth(l, n);
    CastBack(n);
    CastBack(imms);
    LsrAlias(l, n, y);
    AsrAlias(l, n, y);
  }

  lemma ShrDoes(op: Op, l: bv32, rev: bool, val: bv64, x: Reg, a: Reg, n: bv64, imms: bv64)
    requires (op == Shr || op == Sar) && l < 2 && x < 31 && a < 31 && n == ShiftCount(l, val) && RightFields(l, n, imms)
    ensures n < 64 && imms < 64
    ensures Does(Bitfield(l, if op == Shr then 2 else 0, l, n as bv32, imms as bv32, a, x), op, l, rev, val, x, a)
  {
    hide Sum, Sized, Exec, Logical, ShiftCount, ShiftLeft, ShiftRight, ShiftRightSigned, SignExtend, ShiftAlias,
      RightFields;
    RightAlias(l, n, imms, 0);
    var opc := if op == Shr then 2 else 0;
    forall s: Regs
      ensures Exec(Bitfield(l, opc, l, n as bv32, imms as bv32, a, x), s) ==
        Some(s[X(x) := Apply(op, l, rev, s[X(a)], val)])
    {
      var y := s[X(a)];
      RightAlias(l, n, imms, y);
      ExecBitfield(l, opc, n as bv32, imms as bv32, a, x, s,
                   if op == Shr then ShiftRight(Sized(l, y), n) else ShiftRightSigned(SignExtend(l, y), n));
    }
  }

  lemma LslWord(l: bv32, x: Reg, a: Reg, immr: bv64, imms: bv64)
    requires l < 2 && immr < 64 && imms < 64
    ensures Decode(LslCode(l, x, a, immr, imms)) == Bitfield(l, 2, l, immr as bv32, imms as bv32, a, x)
  {
    hide Decode, LslCode;
    if l == 1 { LslWordX(l, x, a, immr, imms); } else { LslWordW(l, x, a, immr, imms); }
  }

  lemma ShrWord(op: Op, b: bv64, l: bv32, x: Reg, a: Reg, immr: bv64, imms: bv64)
    requires l < 2 && immr < 64 && imms < 64 && b == if op == Shr then 1 else 0
    ensures Decode(ShrCode(b, l, x, a, immr, imms)) ==
      Bitfield(l, if op == Shr then 2 else 0, l, immr as bv32, imms as bv32, a, x)
  {
    hide Decode, ShrCode;
    if op == Shr {
      if l == 1 { ShrWordX(l, x, a, immr, imms); } else { ShrWordW(l, x, a, immr, imms); }
    } else {
      if l == 1 { SarWordX(l, x, a, immr, imms); } else { SarWordW(l, x, a, immr, imms); }
    }
  }

  // A shift by nothing

  /** What the instruction for a zero count does: a move, to register 0 whatever x is. */
  lemma MovDoes(l: bv32, a: Reg, s: Regs)
    requires l < 2 && a < 31
    ensures Exec(LogicalReg(l, 1, 0, a, 31, 0), s) == Some(s[X(0) := Sized(l, s[X(a)])])
  {
    hide Sized, Exec;
    ExecLogicalReg(l, 1, 0, a, 31, 0, s);
    OrZero(s[X(a)]);
  }

  lemma OrZero(v: bv64)
    ensures Logical(1, 0, Inverted(0, v)) == v
  {}

  lemma ShiftByZero(op: Op, l: bv32, rev: bool, val: bv64, y: bv64)
    requires l < 2 && IsShift(op) && ShiftCount(l, val) == 0
    ensures Apply(op, l, rev, y, val) == Sized(l, y)
  {
    hide Sum, Logical, ShiftCount, ShiftLeft, ShiftRight, ShiftRightSigned, SignExtend, Sized;
    NoShiftLeft(y);
    NoShiftRight(Sized(l, y));
    SizedTwice(l, y);
    NoShiftSigned(SignExtend(l, y));
    SizedExtend(l, y);
  }

  lemma NoShiftLeft(y: bv64)
    ensures ShiftLeft(y, 0) == y
  {}

  lemma NoShiftRight(y: bv64)
    ensures ShiftRight(y, 0) == y
  {}

  lemma NoShiftSigned(y: bv64)
    ensures ShiftRightSigned(y, 0) == y
  {}

  lemma SizedTwice(l: bv32, y: bv64)
    ensures Sized(l, Sized(l, y)) == Sized(l, y)
  {}

  lemma SizedExtend(l: bv32, y: bv64)
    ensures Sized(l, SignExtend(l, y)) == Sized(l, y)
  {}

  lemma ZeroShiftInX0(w: Word, op: Op, l: bv32, rev: bool, val: bv64, a: Reg)
    requires l < 2 && a < 31 && IsShift(op) && ShiftCount(l, val) == 0 && Decode(w) == LogicalReg(l, 1, 0, a, 31, 0)
    ensures Computes([w], op, l, rev, val, 0, a)
  {
    hide Decode, Exec, Apply, Sized, ShiftCount;
    forall s: Regs ensures Exec(Decode(w), s) == Some(s[X(0) := Apply(op, l, rev, s[X(a)], val)]) {
      MovDoes(l, a, s);
      ShiftByZero(op, l, rev, val, s[X(a)]);
    }
    OneInstr(w, op, l, rev, val, 0, a);
  }

  /** With any other target register the result is not there, or X0 is lost. */
  lemma ZeroShiftElsewhere(w: Word, op: Op, l: bv32, rev: bool, val: bv64, x: Reg, a: Reg)
    requires l < 2 && x < 31 && a < 31 && IsShift(op) && ShiftCount(l, val) == 0
    requires Decode(w) == LogicalReg(l, 1, 0, a, 31, 0)
    requires x != 0
    ensures !Computes([w], op, l, rev, val, x, a)
  {
    hide Decode, Exec, Apply, Sized, ShiftCount;
    var s: Regs := imap g: Gpr :: OneInX0(g);
    ExecuteSnoc([], w, s);
    assert [] + [w] == [w];
    MovDoes(l, a, s);
    ShiftByZero(op, l, rev, val, s[X(a)]);
    SizedSmall(l);
    LosesX0(s, x, Sized(l, s[X(a)]), a);
  }

  lemma LosesX0(s: Regs, x: Reg, v: bv64, a: Reg)
    requires (forall g :: s[g] == OneInX0(g)) && x < 31 && x != 0 && v == OneInX0(X(a))
    ensures !Leaves(Some(s[X(0) := v]), s, x, v)
  {
    var t: Regs := s[X(0) := v];
    assert t[X(0)] == v && t[X(x)] == 0;
    assert X(0) != X(30) && X(0) != X(x);
  }

  function OneInX0(g: Gpr): bv64 {
    if g == X(0) then 1 else 0
  }

  lemma SizedSmall(l: bv32)
    ensures Sized(l, 0) == 0 && Sized(l, 1) == 1
  {}

  /** All that the code does is to copy register a to register 0. */
  ghost predicate CopiesToX0(code: seq<Word>, l: bv32, a: Reg) {
    forall s: Regs :: Execute(code, s) == Some(s[X(0) := Sized(l, s[X(a)])])
  }

  lemma MovCopies(w: Word, l: bv32, a: Reg)
    requires l < 2 && a < 31 && Decode(w) == LogicalReg(l, 1, 0, a, 31, 0)
    ensures CopiesToX0([w], l, a)
  {
    hide Decode, Exec, Sized;
    forall s: Regs ensures Execute([w], s) == Some(s[X(0) := Sized(l, s[X(a)])]) {
      ExecuteSnoc([], w, s);
      assert [] + [w] == [w];
      MovDoes(l, a, s);
    }
  }

  // What the operations give, in numbers

  /** Sums and differences, in 64 and 32 bits. */
  lemma KnownSums()
    ensures Apply(Plus, 1, false, 0xffff_ffff, 2) == 0x1_0000_0001 && Apply(Plus, 0, false, 0xffff_ffff, 2) == 1
    ensures Apply(Minus, 1, false, 1, 2) == 0xffff_ffff_ffff_ffff && Apply(Minus, 1, true, 1, 2) == 1
    ensures Apply(Minus, 0, false, 1, 2) == 0xffff_ffff
    ensures Apply(Minus, 0, true, 1, 0xffff_ffff_ffff_fff0) == 0xffff_ffef
  {}

  /** The bitwise operations. */
  lemma KnownBits()
    ensures Apply(And, 1, false, 0x7_0000_000c, 0x5_0000_000a) == 0x5_0000_0008
    ensures Apply(Or, 1, false, 0x7_0000_000c, 0x5_0000_000a) == 0x7_0000_000e
    ensures Apply(Xor, 1, false, 0x7_0000_000c, 0x5_0000_000a) == 0x2_0000_0006
    ensures Apply(And, 0, false, 0x7_0000_000c, 0x5_0000_000a) == 8
    ensures Apply(Or, 0, true, 0x7_0000_000c, 0x5_0000_000a) == 14
    ensures Apply(Xor, 0, true, 0x7_0000_000c, 0x5_0000_000a) == 6
  {}

  /** Shifts: the count is taken modulo the width, and the low half shifted for W registers. */
  lemma KnownShifted()
    ensures Apply(Shl, 1, false, 0x8000_0000_0000_0003, 68) == 0x30
    ensures Apply(Shr, 1, false, 0x8000_0000_0000_0030, 68) == 0x800_0000_0000_0003
    ensures Apply(Sar, 1, false, 0x8000_0000_0000_0030, 68) == 0xf800_0000_0000_0003
    ensures Apply(Shl, 0, false, 0x8000_0003, 36) == 0x30 && Apply(Shr, 0, false, 0x7_8000_0030, 36) == 0x800_0003
    ensures Apply(Sar, 0, false, 0x7_8000_0030, 36) == 0xf800_0003
    ensures Apply(Sar, 0, false, 0x7_7fff_ffff, 36) == 0x7ff_ffff
    ensures ShiftCount(1, 64) == 0 && ShiftCount(0, 64) == 0 && ShiftCount(1, 32) == 32 && ShiftCount(0, 32) == 0
    ensures Repeated(1, 5) == 5 && Repeated(0, 5) == 0x5_0000_0005
  {}

  /** The low six bits of a count, five for W registers. */
  lemma ShiftCountIs(val: bv64)
    ensures ShiftCount(1, val) == val & 63 && ShiftCount(0, val) == val & 31
  {}

  /** Code that computes ends, leaves the result in its register, and all others but x30 as they were. */
  lemma ComputesKeeps(code: seq<Word>, op: Op, l: bv32, rev: bool, val: bv64, x: Reg, a: Reg, s: Regs)
    requires l < 2 && Computes(code, op, l, rev, val, x, a)
    ensures Execute(code, s).Some? && Execute(code, s).value[X(x)] == Apply(op, l, rev, s[X(a)], val)
    ensures forall g :: g != X(x) && g != X(30) ==> Execute(code, s).value[g] == s[g]
  {
    hide Apply;
    assert Leaves(Execute(code, s), s, x, Apply(op, l, rev, s[X(a)], val));
  }

  // arm64_gen_opic

  /** The operations and constants that arm64_gen_opic takes on. */
  ghost predicate Folds(op: Op, l: bv32, rev: bool, val: bv64) {
    match op
    case Plus => true
    case Minus => true
    case And => !Unencodable(Repeated(l, Sized(l, val)))
    case Or => !Unencodable(Repeated(l, Sized(l, val)))
    case Xor => Sized(l, val) == AllOnes(l) || !Unencodable(Repeated(l, Sized(l, val)))
    case OtherOp => false
    case _ => !rev
  }

  function SignBit(l: bv32, v: bv64): bv64 {
    if l == 1 then v >> 63 else v >> 31
  }

  lemma SignBitRange(l: bv32, v: bv64)
    requires l < 2
    ensures SignBit(l, Sized(l, v)) == 0 || SignBit(l, Sized(l, v)) == 1
  {
    if l == 1 {} else {}
  }

  /** A constant without its sign, as it is added or subtracted. */
  function Unsigned(l: bv32, added: bv64): bv64 {
    var v := Sized(l, added);
    Sized(l, if SignBit(l, v) == 1 then Neg(v) else v)
  }

  predicate FitsLow(v: bv64) {
    v & !0xfff == 0
  }

  predicate FitsHigh(v: bv64) {
    v & !0xff_f000 == 0
  }

  /** It has 12 bits, or 12 bits above 12 zeros. */
  predicate IsShort(v: bv64) {
    FitsLow(v) || FitsHigh(v)
  }

  lemma HighIs(v: bv64)
    requires FitsHigh(v)
    ensures v & !0xff_f000 == 0
  {}

  lemma UnsignedIs(l: bv32, added: bv64, s: bv64, v: bv64, w: bv64)
    requires v == Sized(l, added) && s == SignBit(l, v) && w == Sized(l, if s == 1 then Neg(v) else v)
    ensures Unsigned(l, added) == w
  {
    hide Sized, Neg, SignBit;
  }

  /** 4095, -4095, 4096 and 0xfff000 are short, in 64 and in 32 bits, but not 4097 and 0x1000000. */
  lemma KnownShort()
    ensures IsShort(Unsigned(1, 0xfff)) && IsShort(Unsigned(1, 0xffff_ffff_ffff_f001)) && IsShort(Unsigned(1, 0x1000))
    ensures IsShort(Unsigned(1, 0xff_f000)) && IsShort(Unsigned(1, 0xffff_ffff_ff00_1000))
    ensures !IsShort(Unsigned(1, 0x1001)) && !IsShort(Unsigned(1, 0x100_0000)) && !IsShort(Unsigned(1, 0xffff_f001))
    ensures IsShort(Unsigned(0, 0x7_0000_0fff)) && IsShort(Unsigned(0, 0x7_ffff_f001))
    ensures IsShort(Unsigned(0, 0x7_ff00_1000))
    ensures !IsShort(Unsigned(0, 0x1001)) && !IsShort(Unsigned(0, 0xffff_efff))
  {}

  /** The case of '+', to which '-' of a constant is reduced by negating it. */
  method GenAdd(op: Op, l: bv32, rev: bool, val0: bv64, added: bv64, x: Reg, a: Reg) returns (code: seq<Word>)
    requires l < 2 && x < 31 && a < 30 && Adds(op, rev, val0, added)
    ensures Computes(code, op, l, rev, val0, x, a)
    ensures IsShort(Unsigned(l, added)) ==> |code| == 1
  {
    hide Unsigned, FitsLow, FitsHigh, AddImmCode, AddImm12Code, AddRegCode, Decode, Does, DoesWith, Sets, Computes,
         Adds, Magnitude, SignBit, Sized, Neg;
    var val := Sized(l, added);
    var s := SignBit(l, val);
    SignBitRange(l, added);
    if s == 1 {
      val := Neg(val);
    }
    val := Sized(l, val);
    MagnitudeOf(l, s as bv32, val, added);
    UnsignedIs(l, added, s, Sized(l, added), val);
    if FitsLow(val) {
      AddImmDoes(l, s as bv32, val, op, rev, val0, added, x, a);
      Imm12(val);
      AddImmWord(l, s, x, a, val);
      var w := AddImmCode(l, s, x, a, val);
      OneInstr(w, op, l, rev, val0, x, a);
      code := [w];
    } else if FitsHigh(val) {
      HighIs(val);
      AddImm12Does(l, s as bv32, val, op, rev, val0, added, x, a);
      AddImm12Word(l, s, x, a, val);
      var w := AddImm12Code(l, s, x, a, val);
      OneInstr(w, op, l, rev, val0, x, a);
      code := [w];
    } else {
      code := Movimm(30, val);
      AddRegDoes(l, s as bv32, val, op, rev, val0, added, x, a);
      AddRegWord(l, s, x, a);
      var w := AddRegCode(l, s, x, a);
      WithX30(code, val, w, op, l, rev, val0, x, a);
      code := code + [w];
    }
  }

  lemma Imm12(v: bv64)
    requires FitsLow(v)
    ensures v <= 0xfff
  {}

  lemma MagnitudeOf(l: bv32, sub: bv32, v: bv64, added: bv64)
    requires v == Sized(l, if sub == 1 then Neg(Sized(l, added)) else Sized(l, added))
    ensures Magnitude(l, sub, v, added)
  {
    hide Sized, Neg;
  }

  /** The case of '-' from a constant. */
  method GenReverse(l: bv32, val0: bv64, x: Reg, a: Reg) returns (code: seq<Word>)
    requires l < 2 && x < 31 && a < 30
    ensures Computes(code, Minus, l, true, val0, x, a)
    ensures Sized(l, val0) == 0 || Sized(l, val0) == AllOnes(l) ==> |code| == 1
  {
    hide NegCode, SubCode, MvnCode, Decode, Does, DoesWith, Sets, Computes, Sized;
    var val := Sized(l, val0);
    if val == 0 {
      NegDoes(l, val0, x, a);
      NegWord(l, x, a);
      var w := NegCode(l, x, a);
      OneInstr(w, Minus, l, true, val0, x, a);
      code := [w];
    } else if val == AllOnes(l) {
      MvnMinusDoes(l, val0, x, a);
      MvnWord(l, x, a);
      var w := MvnCode(l, x, a);
      OneInstr(w, Minus, l, true, val0, x, a);
      code := [w];
    } else {
      code := Movimm(30, val);
      SubDoes(l, val, val0, x, a);
      SubWord(l, x, a);
      var w := SubCode(l, x, a);
      WithX30(code, val, w, Minus, l, true, val0, x, a);
      code := code + [w];
    }
  }

  /** The cases of '&', '|' and '^'. */
  method GenLogical(op: Op, l: bv32, rev: bool, val0: bv64, x: Reg, a: Reg) returns (ok: bool, code: seq<Word>)
    requires l < 2 && x < 31 && a < 31 && (op == And || op == Or || op == Xor)
    ensures ok <==> Folds(op, l, rev, val0)
    ensures ok ==> Computes(code, op, l, rev, val0, x, a) && |code| == 1
  {
    hide MvnCode, LogicalCode, Decode, Does, Computes, Sized, Repeated, DecodeField, Unencodable, ImmMask;
    var val := Sized(l, val0);
    if op == Xor && val == AllOnes(l) {
      MvnXorDoes(l, rev, val0, x, a);
      MvnWord(l, x, a);
      var w := MvnCode(l, x, a);
      OneInstr(w, op, l, rev, val0, x, a);
      return true, [w];
    }
    var e := EncodeBimm64(Repeated(l, val));
    if e.None? {
      return false, [];
    }
    Encoded(e.value, Repeated(l, val));
    FieldForWidth(l, val0, e.value);
    LogicalDoes(op, l, rev, val0, e.value as bv32, x, a);
    LogicalWord(Opc(op), l, x, a, e.value as bv32);
    var w := LogicalCode(Opc(op), l, x, a, e.value as bv32);
    OneInstr(w, op, l, rev, val0, x, a);
    return true, [w];
  }

  lemma Encoded(field: bv64, x: bv64)
    requires field < 0x2000 && DecodeField(field) == Some(x)
    ensures !Unencodable(x) && field as bv32 < 0x2000
  {
    hide DecodeField;
  }

  /** The cases of the shifts. */
  method GenShift(op: Op, l: bv32, rev: bool, val0: bv64, x: Reg, a: Reg) returns (ok: bool, code: seq<Word>)
    requires l < 2 && x < 31 && a < 31 && IsShift(op)
    ensures ok <==> !rev
    ensures ok ==> (Computes(code, op, l, rev, val0, x, a) <==> ShiftCount(l, val0) != 0 || x == 0)
    ensures ok && ShiftCount(l, val0) == 0 ==> CopiesToX0(code, l, a)
    ensures ok ==> |code| == 1
  {
    hide MovCode, Decode, Computes, Width, ShiftCount, CopiesToX0;
    var val := ShiftCount(l, val0);
    if rev {
      return false, [];
    }
    if val == 0 {
      MovWord(l, a);
      var w := MovCode(l, a);
      MovCopies(w, l, a);
      if x == 0 { ZeroShiftInX0(w, op, l, rev, val0, a); } else { ZeroShiftElsewhere(w, op, l, rev, val0, x, a); }
      return true, [w];
    }
    if op == Shl {
      code := GenShl(l, rev, val0, x, a);
    } else {
      code := GenShr(op, l, rev, val0, x, a);
    }
    return true, code;
  }

  function Immr(n: bv64, v: bv64): bv64 {
    n - v
  }

  function Imms(n: bv64, v: bv64): bv64 {
    n - 1 - v
  }

  method GenShl(l: bv32, rev: bool, val0: bv64, x: Reg, a: Reg) returns (code: seq<Word>)
    requires l < 2 && x < 31 && a < 31 && ShiftCount(l, val0) != 0
    ensures Computes(code, Shl, l, rev, val0, x, a) && |code| == 1
  {
    hide LslCode, Immr, Imms, Computes, Width, ShiftCount, LeftFields;
    var n, val := Width(l), ShiftCount(l, val0);
    CountRange(l, val0);
    LeftFieldsOf(l, val, n);
    LslComputes(l, rev, val0, x, a, Immr(n, val), Imms(n, val));
    return [LslCode(l, x, a, Immr(n, val), Imms(n, val))];
  }

  method GenShr(op: Op, l: bv32, rev: bool, val0: bv64, x: Reg, a: Reg) returns (code: seq<Word>)
    requires (op == Shr || op == Sar) && l < 2 && x < 31 && a < 31 && ShiftCount(l, val0) != 0
    ensures Computes(code, op, l, rev, val0, x, a) && |code| == 1
  {
    hide ShrCode, Computes, Width, ShiftCount, RightFields;
    var n, val := Width(l), ShiftCount(l, val0);
    CountRange(l, val0);
    RightFieldsOf(l, val, n);
    var b := if op == Shr then 1 else 0;
    ShrComputes(op, b, l, rev, val0, x, a, val, n - 1);
    return [ShrCode(b, l, x, a, val, n - 1)];
  }

  lemma LeftFieldsX(v: bv64)
    requires v != 0 && v < 64
    ensures LeftFields(1, v, 64 - v, 63 - v) && RightFields(1, v, 63)
  {}

  lemma LeftFieldsW(v: bv64)
    requires v != 0 && v < 32
    ensures LeftFields(0, v, 32 - v, 31 - v) && RightFields(0, v, 31)
  {}

  lemma LeftFieldsOf(l: bv32, v: bv64, n: bv64)
    requires l < 2 && n == Width(l) && v != 0 && v < n
    ensures LeftFields(l, v, Immr(n, v), Imms(n, v))
  {
    hide LeftFields, RightFields;
    if l == 1 { LeftFieldsX(v); } else { LeftFieldsW(v); }
  }

  lemma RightFieldsOf(l: bv32, v: bv64, n: bv64)
    requires l < 2 && n == Width(l) && v != 0 && v < n
    ensures RightFields(l, v, n - 1)
  {
    hide LeftFields, RightFields;
    if l == 1 { LeftFieldsX(v); } else { LeftFieldsW(v); }
  }

  lemma LslComputes(l: bv32, rev: bool, val: bv64, x: Reg, a: Reg, immr: bv64, imms: bv64)
    requires l < 2 && x < 31 && a < 31 && LeftFields(l, ShiftCount(l, val), immr, imms)
    ensures Computes([LslCode(l, x, a, immr, imms)], Shl, l, rev, val, x, a)
  {
    hide Decode, LslCode, Does, Computes, ShiftCount, LeftFields;
    ShlDoes(l, rev, val, x, a, immr, imms);
    LslWord(l, x, a, immr, imms);
    OneInstr(LslCode(l, x, a, immr, imms), Shl, l, rev, val, x, a);
  }

  lemma ShrComputes(op: Op, b: bv64, l: bv32, rev: bool, val: bv64, x: Reg, a: Reg, n: bv64, imms: bv64)
    requires (op == Shr || op == Sar) && b == (if op == Shr then 1 else 0)
    requires l < 2 && x < 31 && a < 31 && n == ShiftCount(l, val) && RightFields(l, n, imms)
    ensures Computes([ShrCode(b, l, x, a, n, imms)], op, l, rev, val, x, a)
  {
    hide Decode, ShrCode, Does, Computes, ShiftCount, RightFields;
    ShrDoes(op, l, rev, val, x, a, n, imms);
    ShrWord(op, b, l, x, a, n, imms);
    OneInstr(ShrCode(b, l, x, a, n, imms), op, l, rev, val, x, a);
  }

  /** arm64_gen_opic. It takes an operation on just when Folds says so; the code it then writes
      computes the operation, unless that is a shift by nothing into a register other than 0. */
  method GenOpic(op: Op, l: bv32, rev: bool, val: bv64, x: Reg, a: Reg) returns (ok: bool, code: seq<Word>)
    requires l < 2 && x < 31 && a < 30
    ensures ok <==> Folds(op, l, rev, val)
    ensures op == Plus || op == Minus ==> ok
    ensures op == And || op == Or ==> (ok <==> exists c :: DecodeField(c) == Some(Repeated(l, Sized(l, val))))
    ensures op == Xor ==>
      (ok <==> Sized(l, val) == Sized(l, 0xffff_ffff_ffff_ffff) ||
               exists c :: DecodeField(c) == Some(Repeated(l, Sized(l, val))))
    ensures op == Shl || op == Shr || op == Sar ==> (ok <==> !rev)
    ensures ok ==>
      (Computes(code, op, l, rev, val, x, a) <==>
         !(op == Shl || op == Shr || op == Sar) || ShiftCount(l, val) != 0 || x == 0)
    ensures ok && (op == Shl || op == Shr || op == Sar) && ShiftCount(l, val) == 0 ==> CopiesToX0(code, l, a)
    ensures op == Plus && IsShort(Unsigned(l, val)) ==> |code| == 1
    ensures op == Minus && !rev && IsShort(Unsigned(l, Neg(val))) ==> |code| == 1
    ensures op == Minus && rev && (Sized(l, val) == 0 || Sized(l, val) == AllOnes(l)) ==> |code| == 1
    ensures ok && op != Plus && op != Minus ==> |code| == 1
  {
    hide Computes, ShiftCount, DecodeField, Repeated, Sized, CopiesToX0, IsShort, Unsigned, Neg;
    AllOnesSized(l);
    ok, code := true, [];
    if op == Minus && !rev {
      AddsNegated(val);
      code := GenAdd(op, l, rev, val, Neg(val), x, a);
    } else if op == Plus {
      code := GenAdd(op, l, rev, val, val, x, a);
    } else if op == Minus {
      code := GenReverse(l, val, x, a);
    } else if IsShift(op) {
      ok, code := GenShift(op, l, rev, val, x, a);
    } else if op == OtherOp {
      ok := false;
    } else {
      ok, code := GenLogical(op, l, rev, val, x, a);
    }
  }

  lemma AllOnesSized(l: bv32)
    requires l < 2
    ensures Sized(l, 0xffff_ffff_ffff_ffff) == AllOnes(l)
  {}

  lemma AddsNegated(val: bv64)
    ensures Adds(Minus, false, val, Neg(val)) && Adds(Plus, true, val, val) && Adds(Plus, false, val, val)
  {
    hide Neg;
  }

  // The assembler's AND, ORR, EOR and ANDS of an immediate

  /** The word with the three parts of the field in place. */
  function PartsCode(opc: bv32, l: bv32, rd: Reg, rn: Reg, e: bv32): Word {
    0x1200_0000 | (opc << 29) | (l << 31) | (((e >> 12) & 1) << 22) | (((e >> 6) & 0x3f) << 16)
    | ((e & 0x3f) << 10) | (rn << 5) | rd
  }

  lemma FieldParts(opc: bv32, l: bv32, rd: Reg, rn: Reg, e: bv32)
    requires opc < 4 && l < 2 && e < 0x2000
    ensures Decode(PartsCode(opc, l, rd, rn, e)) == LogicalImm(l, opc, e, rn, rd)
  {}

  /** gen_logical_imm: the instruction word for the immediate, or none when it has no encoding. */
  method GenLogicalImm(opc: bv32, rd: Reg, rn: Reg, imm: bv64, l: bv32) returns (w: Option<Word>)
    requires opc < 4 && l < 2
    ensures w.None? <==> forall c :: DecodeField(c) != Some(Repeated(l, Sized(l, imm)))
    ensures w.Some? ==> exists field :: Decode(w.value) == LogicalImm(l, opc, field, rn, rd)
                                        && ImmMask(l, field) == Some(Repeated(l, Sized(l, imm)))
  {
    hide PartsCode, Decode, Sized, Repeated, DecodeField, Unencodable, ImmMask;
    var val := Repeated(l, Sized(l, imm));
    var enc := EncodeBimm64(val);
    if enc.None? {
      return None;
    }
    Encoded(enc.value, val);
    FieldForWidth(l, imm, enc.value);
    var e := enc.value as bv32;
    FieldParts(opc, l, rd, rn, e);
    return Some(PartsCode(opc, l, rd, rn, e));
  }
}
