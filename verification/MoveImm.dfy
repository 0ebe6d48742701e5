/** Loading a constant into a register (arm64_movi and arm64_movimm). */
module MoveImm {
  import opened Options
  import opened BitMasks
  import opened LogicalImm
  import opened A64

  /** What a MOVZ, a MOVN, or an ORR of an immediate with the zero register loads. */
  function MoveValue(i: Instr): Option<bv64> {
    match i
    case MoveWide(sf, opc, hw, imm, _) =>
      if (opc == 0 || opc == 2) && hw < (if sf == 1 then 4 else 2) then Some(Sized(sf, WideValue(opc, hw, imm, 0)))
      else None
    case LogicalImm(sf, opc, field, rn, _) =>
      if opc == 1 && rn == 31 && ImmMask(sf, field).Some? then Some(Sized(sf, ImmMask(sf, field).value)) else None
    case _ => None
  }

  lemma WideExecutes(sf: bv32, opc: bv32, hw: bv32, imm: bv64, rd: bv32, x: Regs)
    requires MoveValue(MoveWide(sf, opc, hw, imm, rd)).Some? && rd < 31
    ensures Exec(MoveWide(sf, opc, hw, imm, rd), x) == Some(x[X(rd) := MoveValue(MoveWide(sf, opc, hw, imm, rd)).value])
  {}

  lemma NotMovk(opc: bv32, hw: bv32, h: bv64, was: bv64)
    requires opc != 3
    ensures WideValue(opc, hw, h, was) == WideValue(opc, hw, h, 0)
  {}

  lemma MaskExecutes(sf: bv32, field: bv32, rd: bv32, x: Regs)
    requires ImmMask(sf, field).Some? && rd < 31
    ensures Exec(LogicalImm(sf, 1, field, 31, rd), x) == Some(x[X(rd) := Sized(sf, ImmMask(sf, field).value)])
  {}

  lemma MoveExecutes(i: Instr, x: Regs)
    requires MoveValue(i).Some? && Rd(i) < 31
    ensures Exec(i, x) == Some(x[X(Rd(i)) := MoveValue(i).value])
  {
    hide Exec, ImmMask, Sized;
    match i
    case MoveWide(sf, opc, hw, imm, rd) => WideExecutes(sf, opc, hw, imm, rd, x);
    case LogicalImm(sf, opc, field, rn, rd) => MaskExecutes(sf, field, rd, x);
    case _ =>
  }

  /** And every such instruction that executes is a move of what it leaves. */
  lemma MoveComplete(i: Instr, x: Regs, y: Regs)
    requires (i.MoveWide? && i.sf < 2 && (i.opc == 0 || i.opc == 2)) || (i.LogicalImm? && i.opc == 1 && i.rn == 31)
    requires Rd(i) < 31 && Exec(i, x) == Some(y)
    ensures MoveValue(i) == Some(y[X(Rd(i))])
  {
    hide ImmMask, Sized;
    match i
    case MoveWide(sf, opc, hw, imm, rd) =>
      NotMovk(opc, hw, imm, Read(x, rd));
    case LogicalImm(sf, opc, field, rn, rd) =>
      MaskExecutes(sf, field, rd, x);
    case _ =>
  }

  /** w is one move of x into register r. */
  predicate Moves(w: Word, r: bv32, x: bv64) {
    MoveValue(Decode(w)) == Some(x) && Rd(Decode(w)) == r
  }

  // The constants

  /** All bits but the 16 from n on are 0. */
  predicate ZeroBut(x: bv64, n: bv64)
    requires n < 64
  {
    x & !(0xffff << n) == 0
  }

  /** All bits but the 16 from n on are 1. */
  predicate OnesBut(x: bv64, n: bv64)
    requires n < 64
  {
    !(x | (0xffff << n)) == 0
  }

  /** The same of the low 32 bits, the high ones being 0. */
  predicate OnesButW(x: bv64, n: bv64)
    requires n == 0 || n == 16
  {
    x & !(0xffff << n) == 0xffff << (16 - n)
  }

  // The encodings

  lemma MovzDecodes(r: Reg, x: bv64)
    requires x < 0x1_0000
    ensures Decode(Trunc(0x5280_0000 | (r as bv64) | (x << 5))) == MoveWide(0, 2, 0, x, r)
    ensures Trunc(0x5280_0000 | (r as bv64) | (x << 5)) != 0
  {}

  lemma MovzLoads(r: Reg, x: bv64)
    requires ZeroBut(x, 0)
    ensures x < 0x1_0000 && MoveValue(MoveWide(0, 2, 0, x, r)) == Some(x)
  {}

  lemma Movz(r: Reg, x: bv64)
    requires ZeroBut(x, 0)
    ensures Moves(Trunc(0x5280_0000 | (r as bv64) | (x << 5)), r, x)
    ensures Trunc(0x5280_0000 | (r as bv64) | (x << 5)) != 0
  {
    hide Decode, Trunc, MoveValue, ZeroBut;
    MovzLoads(r, x);
    MovzDecodes(r, x);
  }

  lemma Movz16(r: Reg, x: bv64)
    requires ZeroBut(x, 16)
    ensures Moves(Trunc(0x5280_0000 | (1 << 21) | (r as bv64) | (x >> 11)), r, x)
    ensures Trunc(0x5280_0000 | (1 << 21) | (r as bv64) | (x >> 11)) != 0
  {}

  lemma Movz32(r: Reg, x: bv64)
    requires ZeroBut(x, 32)
    ensures Moves(Trunc(0xd280_0000 | (2 << 21) | (r as bv64) | (x >> 27)), r, x)
    ensures Trunc(0xd280_0000 | (2 << 21) | (r as bv64) | (x >> 27)) != 0
  {}

  lemma Movz48(r: Reg, x: bv64)
    requires ZeroBut(x, 48)
    ensures Moves(Trunc(0xd280_0000 | (3 << 21) | (r as bv64) | (x >> 43)), r, x)
    ensures Trunc(0xd280_0000 | (3 << 21) | (r as bv64) | (x >> 43)) != 0
  {}

  lemma MovnW(r: Reg, x: bv64)
    requires OnesButW(x, 0)
    ensures Moves(Trunc(0x1280_0000 | (r as bv64) | ((!x << 5) & 0x1f_ffe0)), r, x)
    ensures Trunc(0x1280_0000 | (r as bv64) | ((!x << 5) & 0x1f_ffe0)) != 0
  {}

  lemma MovnW16(r: Reg, x: bv64)
    requires OnesButW(x, 16)
    ensures Moves(Trunc(0x1280_0000 | (1 << 21) | (r as bv64) | ((!x >> 11) & 0x1f_ffe0)), r, x)
    ensures Trunc(0x1280_0000 | (1 << 21) | (r as bv64) | ((!x >> 11) & 0x1f_ffe0)) != 0
  {}

  lemma Movn(r: Reg, x: bv64)
    requires OnesBut(x, 0)
    ensures Moves(Trunc(0x9280_0000 | (r as bv64) | ((!x << 5) & 0x1f_ffe0)), r, x)
    ensures Trunc(0x9280_0000 | (r as bv64) | ((!x << 5) & 0x1f_ffe0)) != 0
  {}

  lemma Movn16(r: Reg, x: bv64)
    requires OnesBut(x, 16)
    ensures Moves(Trunc(0x9280_0000 | (1 << 21) | (r as bv64) | ((!x >> 11) & 0x1f_ffe0)), r, x)
    ensures Trunc(0x9280_0000 | (1 << 21) | (r as bv64) | ((!x >> 11) & 0x1f_ffe0)) != 0
  {}

  lemma Movn32(r: Reg, x: bv64)
    requires OnesBut(x, 32)
    ensures Moves(Trunc(0x9280_0000 | (2 << 21) | (r as bv64) | ((!x >> 27) & 0x1f_ffe0)), r, x)
    ensures Trunc(0x9280_0000 | (2 << 21) | (r as bv64) | ((!x >> 27) & 0x1f_ffe0)) != 0
  {}

  lemma Movn48(r: Reg, x: bv64)
    requires OnesBut(x, 48)
    ensures Moves(Trunc(0x9280_0000 | (3 << 21) | (r as bv64) | ((!x >> 43) & 0x1f_ffe0)), r, x)
    ensures Trunc(0x9280_0000 | (3 << 21) | (r as bv64) | ((!x >> 43) & 0x1f_ffe0)) != 0
  {}

  /** ORR (immediate) with the zero register, of a W and of an X register */
  function OrrW(r: Reg, field: bv64): Word {
    Trunc(0x3200_03e0 | (r as bv64) | (field << 10))
  }

  function OrrX(r: Reg, field: bv64): Word {
    Trunc(0x3200_03e0 | (1 << 31) | (r as bv64) | (field << 10))
  }

  lemma OrrWDecodes(r: Reg, field: bv64)
    requires field < 0x2000
    ensures OrrW(r, field) != 0 && Decode(OrrW(r, field)) == LogicalImm(0, 1, field as bv32, 31, r)
  {}

  lemma OrrXDecodes(r: Reg, field: bv64)
    requires field < 0x2000
    ensures OrrX(r, field) != 0 && Decode(OrrX(r, field)) == LogicalImm(1, 1, field as bv32, 31, r)
  {}

  lemma DoubleHalves(x: bv64)
    requires x >> 32 == 0
    ensures Doubled(x | (x << 32)) && (x | (x << 32)) & 0xffff_ffff == x
  {}

  lemma NarrowField(c: bv64)
    requires c < 0x2000 && (c >> 12) & 1 == 0
    ensures c < 0x1000 && (c as bv32) < 0x1000
  {}

  lemma FieldBack(field: bv64)
    requires field < 0x2000
    ensures (field as bv32) as bv64 == field
  {}

  lemma MoveOfField(sf: bv32, field: bv32, r: Reg, m: bv64)
    requires ImmMask(sf, field) == Some(m)
    ensures MoveValue(LogicalImm(sf, 1, field, 31, r)) == Some(Sized(sf, m))
  {}

  lemma RdOfField(sf: bv32, field: bv32, r: Reg)
    ensures Rd(LogicalImm(sf, 1, field, 31, r)) == r
  {}

  lemma OrrImmW(r: Reg, x: bv64, field: bv64)
    requires x >> 32 == 0 && field < 0x2000 && DecodeField(field) == Some(x | (x << 32))
    ensures Moves(OrrW(r, field), r, x) && OrrW(r, field) != 0
  {
    hide DecodeField, Decode, MoveValue, Rd, OrrW, Doubled;
    DoubleHalves(x);
    FieldBack(field);
    DoubledMask(field);
    NarrowField(field);
    MoveOfField(0, field as bv32, r, x | (x << 32));
    RdOfField(0, field as bv32, r);
    OrrWDecodes(r, field);
  }

  lemma OrrImmX(r: Reg, x: bv64, field: bv64)
    requires field < 0x2000 && DecodeField(field) == Some(x)
    ensures Moves(OrrX(r, field), r, x) && OrrX(r, field) != 0
  {
    hide DecodeField, Decode, MoveValue, Rd, OrrX;
    FieldBack(field);
    MoveOfField(1, field as bv32, r, x);
    RdOfField(1, field as bv32, r);
    OrrXDecodes(r, field);
  }

  // And no others

  /** The constants a move wide instruction can load. */
  predicate IsWide(x: bv64) {
    || ZeroBut(x, 0)
    || ZeroBut(x, 16)
    || ZeroBut(x, 32)
    || ZeroBut(x, 48)
    || OnesButW(x, 0)
    || OnesButW(x, 16)
    || OnesBut(x, 0)
    || OnesBut(x, 16)
    || OnesBut(x, 32)
    || OnesBut(x, 48)
  }

  lemma MovzWide0(sf: bv32, hw: bv32, imm: bv64)
    requires sf < 2 && hw == 0 && imm < 0x1_0000
    ensures ZeroBut(Sized(sf, WideValue(2, hw, imm, 0)), 0)
  {}

  lemma SizedHalf(sf: bv32, imm: bv64)
    requires imm < 0x1_0000
    ensures Sized(sf, imm << 16) == imm << 16 && ZeroBut(imm << 16, 16)
  {}

  lemma WideOne(hw: bv32, imm: bv64)
    requires hw == 1
    ensures WideValue(2, hw, imm, 0) == imm << 16
  {}

  lemma MovzWide1(sf: bv32, hw: bv32, imm: bv64)
    requires sf < 2 && hw == 1 && imm < 0x1_0000
    ensures ZeroBut(Sized(sf, WideValue(2, hw, imm, 0)), 16)
  {
    hide ZeroBut, Sized, WideValue;
    WideOne(hw, imm);
    SizedHalf(sf, imm);
  }

  lemma MovzWide2(sf: bv32, hw: bv32, imm: bv64)
    requires sf == 1 && hw == 2 && imm < 0x1_0000
    ensures ZeroBut(Sized(sf, WideValue(2, hw, imm, 0)), 32)
  {}

  lemma MovzWide3(sf: bv32, hw: bv32, imm: bv64)
    requires sf == 1 && hw == 3 && imm < 0x1_0000
    ensures ZeroBut(Sized(sf, WideValue(2, hw, imm, 0)), 48)
  {}

  lemma MovzWide(sf: bv32, hw: bv32, imm: bv64)
    requires sf < 2 && imm < 0x1_0000 && (hw < 2 || (hw < 4 && sf == 1))
    ensures ZeroBut(Sized(sf, WideValue(2, hw, imm, 0)), (hw as bv64) << 4)
  {
    hide ZeroBut, Sized, WideValue;
    HalfwordShift(hw);
    if hw == 0 {
      MovzWide0(sf, hw, imm);
    } else if hw == 1 {
      MovzWide1(sf, hw, imm);
    } else if hw == 2 {
      MovzWide2(sf, hw, imm);
    } else {
      MovzWide3(sf, hw, imm);
    }
  }

  lemma MovnWide(hw: bv32, imm: bv64)
    requires imm < 0x1_0000 && hw < 4
    ensures OnesBut(Sized(1, WideValue(0, hw, imm, 0)), (hw as bv64) << 4)
  {}

  lemma MovnWideW(hw: bv32, imm: bv64)
    requires imm < 0x1_0000 && hw < 2
    ensures OnesButW(Sized(0, WideValue(0, hw, imm, 0)), (hw as bv64) << 4)
  {}

  lemma HalfwordShift(hw: bv32)
    requires hw < 4
    ensures (hw as bv64) << 4 == if hw == 0 then 0 else if hw == 1 then 16 else if hw == 2 then 32 else 48
  {}

  lemma WideIsWide(sf: bv32, opc: bv32, hw: bv32, imm: bv64, rd: bv32, x: bv64)
    requires sf < 2 && imm < 0x1_0000 && MoveValue(MoveWide(sf, opc, hw, imm, rd)) == Some(x)
    ensures IsWide(x)
  {
    hide WideValue, Sized, ZeroBut, OnesBut, OnesButW;
    HalfwordShift(hw);
    if opc == 2 {
      MovzWide(sf, hw, imm);
    } else if sf == 1 {
      MovnWide(hw, imm);
    } else {
      MovnWideW(hw, imm);
    }
  }

  lemma WideFields(w: Word)
    ensures match Decode(w)
            case MoveWide(sf, _, _, imm, _) => sf < 2 && imm < 0x1_0000
            case LogicalImm(sf, _, field, _, _) => sf < 2 && field < 0x2000
            case _ => true
  {}

  lemma HalvesOf(m: bv64, x: bv64)
    requires Doubled(m) && m & 0xffff_ffff == x
    ensures x >> 32 == 0 && m == x | (x << 32)
  {}

  lemma NotWideField(f: bv64)
    requires f < 0x1000
    ensures (f >> 12) & 1 == 0
  {}

  lemma ExtendSmall(f: bv32)
    requires f < 0x1000
    ensures f as bv64 < 0x1000
  {}

  /** No single word moves x. */
  ghost predicate Unmovable(x: bv64) {
    forall w :: MoveValue(Decode(w)) != Some(x)
  }

  /** x is neither wide nor the mask of an X or of a W register. */
  ghost predicate IsHard(x: bv64) {
    !IsWide(x) && Unencodable(x) && (x >> 32 == 0 ==> Unencodable(x | (x << 32)))
  }

  lemma MaskNotHard(sf: bv32, field: bv32, m: bv64, x: bv64)
    requires sf < 2 && ImmMask(sf, field) == Some(m) && Sized(sf, m) == x
    ensures !IsHard(x)
  {
    hide DecodeField, IsWide, Doubled;
    if sf == 0 {
      ExtendSmall(field);
      NotWideField(field as bv64);
      DoubledMask(field as bv64);
      HalvesOf(m, x);
      assert !Unencodable(x | (x << 32));
    } else {
      assert !Unencodable(x);
    }
  }

  lemma HardUnmovable(x: bv64)
    requires IsHard(x)
    ensures Unmovable(x)
  {
    hide Decode, ImmMask, IsHard, WideValue, Sized;
    forall w ensures MoveValue(Decode(w)) != Some(x) {
      if MoveValue(Decode(w)) == Some(x) {
        WideFields(w);
        match Decode(w)
        case MoveWide(sf, opc, hw, imm, rd) =>
          WideIsWide(sf, opc, hw, imm, rd, x);
          WideNotHard(x);
        case LogicalImm(sf, opc, field, rn, rd) =>
          MaskNotHard(sf, field, ImmMask(sf, field).value, x);
      }
    }
  }

  lemma WideNotHard(x: bv64)
    requires IsWide(x)
    ensures !IsHard(x)
  {}

  // arm64_movi

  /** arm64_movi: a word that moves x into register r, or 0 when there is none. */
  method Movi(r: Reg, x: bv64) returns (w: Word)
    ensures w != 0 ==> Moves(w, r, x)
    ensures w == 0 ==> Unmovable(x)
  {
    hide Trunc, Moves, Unmovable, ZeroBut, OnesBut, OnesButW;
    if ZeroBut(x, 0) {
      Movz(r, x);
      w := Trunc(0x5280_0000 | (r as bv64) | (x << 5));
    } else if ZeroBut(x, 16) {
      Movz16(r, x);
      w := Trunc(0x5280_0000 | (1 << 21) | (r as bv64) | (x >> 11));
    } else if ZeroBut(x, 32) {
      Movz32(r, x);
      w := Trunc(0xd280_0000 | (2 << 21) | (r as bv64) | (x >> 27));
    } else if ZeroBut(x, 48) {
      Movz48(r, x);
      w := Trunc(0xd280_0000 | (3 << 21) | (r as bv64) | (x >> 43));
    } else if OnesButW(x, 0) {
      MovnW(r, x);
      w := Trunc(0x1280_0000 | (r as bv64) | ((!x << 5) & 0x1f_ffe0));
    } else if OnesButW(x, 16) {
      MovnW16(r, x);
      w := Trunc(0x1280_0000 | (1 << 21) | (r as bv64) | ((!x >> 11) & 0x1f_ffe0));
    } else if OnesBut(x, 0) {
      Movn(r, x);
      w := Trunc(0x9280_0000 | (r as bv64) | ((!x << 5) & 0x1f_ffe0));
    } else if OnesBut(x, 16) {
      Movn16(r, x);
      w := Trunc(0x9280_0000 | (1 << 21) | (r as bv64) | ((!x >> 11) & 0x1f_ffe0));
    } else if OnesBut(x, 32) {
      Movn32(r, x);
      w := Trunc(0x9280_0000 | (2 << 21) | (r as bv64) | ((!x >> 27) & 0x1f_ffe0));
    } else if OnesBut(x, 48) {
      Movn48(r, x);
      w := Trunc(0x9280_0000 | (3 << 21) | (r as bv64) | ((!x >> 43) & 0x1f_ffe0));
    } else {
      w := MoviLogical(r, x);
    }
  }

  /** The last two tries of arm64_movi: a W, then an X, logical immediate. */
  method MoviLogical(r: Reg, x: bv64) returns (w: Word)
    requires !IsWide(x)
    ensures w != 0 ==> Moves(w, r, x)
    ensures w == 0 ==> Unmovable(x)
  {
    hide OrrW, OrrX, Moves, Unmovable, Unencodable, DecodeField, IsWide;
    var e;
    if x >> 32 == 0 {
      e := EncodeBimm64(x | (x << 32));
      if e.Some? {
        OrrImmW(r, x, e.value);
        return OrrW(r, e.value);
      }
    }
    e := EncodeBimm64(x);
    if e.Some? {
      OrrImmX(r, x, e.value);
      return OrrX(r, e.value);
    }
    HardUnmovable(x);
    return 0;
  }

  // arm64_movimm

  /** 16 * k */
  function Shift(k: nat): bv64 {
    if k == 0 then 0 else if k == 1 then 16 else if k == 2 then 32 else 48
  }

  /** The halfword at bit 16 * k. */
  function Half(x: bv64, k: nat): bv64 {
    if k == 0 then x & 0xffff
    else if k == 1 then (x >> 16) & 0xffff
    else if k == 2 then (x >> 32) & 0xffff
    else x >> 48
  }

  /** How many of the first k halfwords are h. */
  function Count(x: bv64, h: bv64, k: nat): (n: nat)
    ensures n <= k
  {
    if k == 0 then 0 else Count(x, h, k - 1) + (if Half(x, k - 1) == h then 1 else 0)
  }

  /** The first k halfwords of x, then those of fill. */
  function Prefix(x: bv64, fill: bv64, k: nat): bv64 {
    if k == 0 then fill
    else if k == 1 then (x & 0xffff) | (fill & !0xffff)
    else if k == 2 then (x & 0xffff_ffff) | (fill & !0xffff_ffff)
    else if k == 3 then (x & 0xffff_ffff_ffff) | (fill & !0xffff_ffff_ffff)
    else x
  }

  /** Fill and x1 as arm64_movimm chooses them: to build from zeros or from ones. */
  predicate Base(x: bv64, fill: bv64, x1: bv64) {
    (fill == 0 && x1 == x) || (fill == 0xffff_ffff_ffff_ffff && x1 == !x)
  }

  lemma Skip0(x: bv64, fill: bv64, x1: bv64, k: nat)
    requires k == 0 && Base(x, fill, x1) && Half(x1, k) == 0
    ensures Prefix(x, fill, k + 1) == Prefix(x, fill, k)
  {}

  lemma FirstZ0(x: bv64, k: nat)
    requires k == 0 && Prefix(x, 0, k) == 0
    ensures WideValue(2, 0, Half(x, k), 0) == Prefix(x, 0, k + 1)
  {}

  lemma Next0(x: bv64, fill: bv64, k: nat)
    requires k == 0
    ensures WideValue(3, 0, Half(x, k), Prefix(x, fill, k)) == Prefix(x, fill, k + 1)
  {}

  lemma Skip1(x: bv64, fill: bv64, x1: bv64, k: nat)
    requires k == 1 && Base(x, fill, x1) && Half(x1, k) == 0
    ensures Prefix(x, fill, k + 1) == Prefix(x, fill, k)
  {}

  lemma FirstZ1(x: bv64, k: nat)
    requires k == 1 && Prefix(x, 0, k) == 0
    ensures WideValue(2, 1, Half(x, k), 0) == Prefix(x, 0, k + 1)
  {}

  lemma Next1(x: bv64, fill: bv64, k: nat)
    requires k == 1
    ensures WideValue(3, 1, Half(x, k), Prefix(x, fill, k)) == Prefix(x, fill, k + 1)
  {}

  lemma Skip2(x: bv64, fill: bv64, x1: bv64, k: nat)
    requires k == 2 && Base(x, fill, x1) && Half(x1, k) == 0
    ensures Prefix(x, fill, k + 1) == Prefix(x, fill, k)
  {}

  lemma FirstZ2(x: bv64, k: nat)
    requires k == 2 && Prefix(x, 0, k) == 0
    ensures WideValue(2, 2, Half(x, k), 0) == Prefix(x, 0, k + 1)
  {}

  lemma Next2(x: bv64, fill: bv64, k: nat)
    requires k == 2
    ensures WideValue(3, 2, Half(x, k), Prefix(x, fill, k)) == Prefix(x, fill, k + 1)
  {}

  lemma Skip3(x: bv64, fill: bv64, x1: bv64, k: nat)
    requires k == 3 && Base(x, fill, x1) && Half(x1, k) == 0
    ensures Prefix(x, fill, k + 1) == Prefix(x, fill, k)
  {}

  lemma FirstZ3(x: bv64, k: nat)
    requires k == 3 && Prefix(x, 0, k) == 0
    ensures WideValue(2, 3, Half(x, k), 0) == Prefix(x, 0, k + 1)
  {}

  lemma Next3(x: bv64, fill: bv64, k: nat)
    requires k == 3
    ensures WideValue(3, 3, Half(x, k), Prefix(x, fill, k)) == Prefix(x, fill, k + 1)
  {}

  const ONES: bv64 := 0xffff_ffff_ffff_ffff

  function WideBase(opc: bv64): bv64 {
    0x9280_0000 | (opc << 29)
  }

  function Hw(k: nat): bv32 {
    if k == 0 then 0 else if k == 1 then 1 else if k == 2 then 2 else 3
  }

  lemma HalfRange(x: bv64, k: nat)
    ensures Half(x, k) < 0x1_0000
  {}

  lemma WideWord(opc: bv64, r: Reg, h: bv64, k: nat)
    requires k < 4 && opc < 4 && h < 0x1_0000
    ensures Decode(Trunc(WideBase(opc) | (r as bv64) | (h << 5) | (Shift(k) << 17))) ==
      MoveWide(1, opc as bv32, Hw(k), h, r)
  {}

  lemma WideExec(opc: bv32, r: Reg, h: bv64, k: nat, s: Regs)
    requires k < 4 && r < 31 && (opc == 0 || opc == 2 || opc == 3)
    ensures Exec(MoveWide(1, opc, Hw(k), h, r), s) == Some(s[X(r) := WideValue(opc, Hw(k), h, s[X(r)])])
  {}

  /** The k-th halfword of a constant that starts out as fill is added by a MOVZ or a MOVN. */
  lemma FirstZ(x: bv64, k: nat)
    requires k < 4 && Prefix(x, 0, k) == 0
    ensures WideValue(2, Hw(k), Half(x, k), 0) == Prefix(x, 0, k + 1)
  {
    hide WideValue, Prefix, Half;
    if k == 0 {
      FirstZ0(x, k);
    } else if k == 1 {
      FirstZ1(x, k);
    } else if k == 2 {
      FirstZ2(x, k);
    } else {
      FirstZ3(x, k);
    }
  }

  lemma FirstN(x: bv64, k: nat)
    requires k < 4 && Prefix(x, ONES, k) == ONES
    ensures WideValue(0, Hw(k), Half(!x, k), 0) == Prefix(x, ONES, k + 1)
  {}

  /** And by a MOVK to what is there. */
  lemma Next(x: bv64, fill: bv64, k: nat)
    requires k < 4
    ensures WideValue(3, Hw(k), Half(x, k), Prefix(x, fill, k)) == Prefix(x, fill, k + 1)
  {
    hide WideValue, Prefix, Half;
    if k == 0 {
      Next0(x, fill, k);
    } else if k == 1 {
      Next1(x, fill, k);
    } else if k == 2 {
      Next2(x, fill, k);
    } else {
      Next3(x, fill, k);
    }
  }

  lemma Skip(x: bv64, fill: bv64, x1: bv64, k: nat)
    requires k < 4 && Base(x, fill, x1) && Half(x1, k) == 0
    ensures Prefix(x, fill, k + 1) == Prefix(x, fill, k)
  {
    hide Prefix, Half;
    if k == 0 {
      Skip0(x, fill, x1, k);
    } else if k == 1 {
      Skip1(x, fill, x1, k);
    } else if k == 2 {
      Skip2(x, fill, x1, k);
    } else {
      Skip3(x, fill, x1, k);
    }
  }

  lemma OneWord(w: Word, r: Reg, x: bv64)
    requires Moves(w, r, x) && r < 31
    ensures Sets([w], r, x)
  {
    hide Decode, MoveValue, Exec;
    forall s: Regs ensures Execute([w], s) == Some(s[X(r) := x]) {
      ExecuteSnoc([], w, s);
      assert [] + [w] == [w];
      MoveSets(w, r, x, s);
    }
  }

  lemma MoveSets(w: Word, r: Reg, x: bv64, s: Regs)
    requires Moves(w, r, x) && r < 31
    ensures Exec(Decode(w), s) == Some(s[X(r) := x])
  {
    hide Decode, MoveValue, Exec;
    MoveExecutes(Decode(w), s);
  }

  /** The word that arm64_movimm writes for halfword k. */
  function WideCode(opc: bv64, r: Reg, h: bv64, k: nat): Word {
    Trunc(WideBase(opc) | (r as bv64) | (h << 5) | (Shift(k) << 17))
  }

  lemma FirstSets(code: seq<Word>, opc: bv64, r: Reg, h: bv64, k: nat, v: bv64)
    requires code == [WideCode(opc, r, h, k)] && k < 4 && r < 31 && h < 0x1_0000
    requires (opc == 0 || opc == 2) && v == WideValue(opc as bv32, Hw(k), h, 0)
    ensures Sets(code, r, v)
  {
    hide Decode, Exec, WideBase, Trunc, WideValue, Shift;
    forall s: Regs ensures Execute(code, s) == Some(s[X(r) := v]) {
      ExecuteSnoc([], code[0], s);
      assert [] + [code[0]] == code;
      WideWord(opc, r, h, k);
      WideExec(opc as bv32, r, h, k, s);
      NotMovk(opc as bv32, Hw(k), h, s[X(r)]);
    }
  }

  lemma KeepExec(r: Reg, h: bv64, k: nat, s: Regs, v: bv64)
    requires k < 4 && r < 31 && h < 0x1_0000 && s[X(r)] == v
    ensures Exec(Decode(WideCode(3, r, h, k)), s) == Some(s[X(r) := WideValue(3, Hw(k), h, v)])
  {
    hide Decode, Exec, WideBase, Trunc, WideValue, Shift;
    WideWord(3, r, h, k);
    WideExec(3, r, h, k, s);
  }

  lemma NextSets(code: seq<Word>, r: Reg, h: bv64, k: nat, v: bv64)
    requires Sets(code, r, v) && k < 4 && r < 31 && h < 0x1_0000
    ensures Sets(code + [WideCode(3, r, h, k)], r, WideValue(3, Hw(k), h, v))
  {
    hide Decode, Exec, WideValue, WideCode;
    var w, u := WideCode(3, r, h, k), WideValue(3, Hw(k), h, v);
    forall s: Regs ensures Execute(code + [w], s) == Some(s[X(r) := u]) {
      assert Execute(code, s) == Some(s[X(r) := v]);
      ExecuteSnoc(code, w, s);
      KeepExec(r, h, k, s[X(r) := v], v);
      Overwrite(s, r, v, u);
    }
  }

  /** arm64_movimm: at most four words, which set register r to x and nothing else; one word if one can
      do it, else one for each halfword that is not all zeros, or not all ones if those are more. */
  method Movimm(r: Reg, x: bv64) returns (code: seq<Word>)
    requires r < 31
    ensures Sets(code, r, x)
    ensures if exists w :: MoveValue(Decode(w)) == Some(x) then |code| == 1
            else |code| == if Count(!x, 0, 4) > Count(x, 0, 4) then 4 - Count(!x, 0, 4) else 4 - Count(x, 0, 4)
    ensures 1 <= |code| <= 4
  {
    hide Sets, Moves, Unmovable, WideValue, Prefix, Half, WideCode, Count;
    var w := Movi(r, x);
    if w != 0 {
      OneWord(w, r, x);
      Movable(w, r, x);
      return [w];
    }
    NoMove(x);
    var z, m, i := 0, 0, 0;
    while i < 4
      invariant 0 <= i <= 4 && z == Count(x, 0, i) && m == Count(!x, 0, i)
    {
      CountNext(x, 0, i);
      CountNext(!x, 0, i);
      z := z + if Half(x, i) == 0 then 1 else 0;
      m := m + if Half(!x, i) == 0 then 1 else 0;
      i := i + 1;
    }
    code := Halfwords(r, x, if m > z then 0 else 2);
  }

  lemma NoMove(x: bv64)
    requires Unmovable(x)
    ensures !exists w :: MoveValue(Decode(w)) == Some(x)
  {
    hide MoveValue, Decode;
  }

  /** The halfwords of x that are h, one by one. */
  lemma HalvesCounted(x: bv64, h: bv64)
    ensures Count(x, h, 4) ==
      (if x & 0xffff == h then 1 else 0) + (if (x >> 16) & 0xffff == h then 1 else 0) +
      (if (x >> 32) & 0xffff == h then 1 else 0) + (if x >> 48 == h then 1 else 0)
  {
    assert Count(x, h, 2) == (if x & 0xffff == h then 1 else 0) + (if (x >> 16) & 0xffff == h then 1 else 0);
  }

  lemma CountNext(x: bv64, h: bv64, k: nat)
    ensures Count(x, h, k + 1) == Count(x, h, k) + (if Half(x, k) == h then 1 else 0)
  {}

  lemma Movable(w: Word, r: Reg, x: bv64)
    requires Moves(w, r, x)
    ensures !Unmovable(x) && exists w' :: MoveValue(Decode(w')) == Some(x)
  {
    hide Decode, MoveValue;
  }

  /** Halves to write when building from zeros (opc 2, MOVZ) or from ones (opc 0, MOVN). */
  function Away(x: bv64, opc: bv64): bv64 {
    if opc == 2 then x else !x
  }

  function Fill(opc: bv64): bv64 {
    if opc == 2 then 0 else ONES
  }

  method Halfwords(r: Reg, x: bv64, opc: bv64) returns (code: seq<Word>)
    requires r < 31 && (opc == 0 || opc == 2) && Unmovable(x)
    ensures Sets(code, r, x)
    ensures |code| == 4 - Count(Away(x, opc), 0, 4) > 0
  {
    hide Sets, Unmovable, WideValue, Prefix, Half, WideCode, Count, Away, Fill;
    var x1 := Away(x, opc);
    var i := 0;
    code := [];
    PrefixEnds(x, Fill(opc));
    while i < 4
      invariant 0 <= i <= 4 && code == []
      invariant Count(x1, 0, i) == i && Prefix(x, Fill(opc), i) == Fill(opc)
    {
      CountNext(x1, 0, i);
      if Half(x1, i) != 0 {
        code := [WideCode(opc, r, Half(x1, i), i)];
        FirstStep(code, x, opc, r, i);
        break;
      }
      SkipStep(x, opc, i);
      i := i + 1;
    }
    if i == 4 {
      FillMovable(opc, x);
      assert false;
    }
    i := i + 1;
    while i < 4
      invariant 1 <= i <= 4 && Sets(code, r, Prefix(x, Fill(opc), i))
      invariant |code| == i - Count(x1, 0, i) > 0
    {
      CountNext(x1, 0, i);
      if Half(x1, i) != 0 {
        Next(x, Fill(opc), i);
        HalfRange(x, i);
        NextSets(code, r, Half(x, i), i, Prefix(x, Fill(opc), i));
        code := code + [WideCode(3, r, Half(x, i), i)];
      } else {
        SkipStep(x, opc, i);
      }
      i := i + 1;
    }
  }

  lemma PrefixEnds(x: bv64, fill: bv64)
    ensures Prefix(x, fill, 0) == fill && Prefix(x, fill, 4) == x
    ensures Count(Away(x, 0), 0, 0) == Count(Away(x, 2), 0, 0) == 0
  {}

  lemma SkipStep(x: bv64, opc: bv64, k: nat)
    requires k < 4 && (opc == 0 || opc == 2) && Half(Away(x, opc), k) == 0
    ensures Prefix(x, Fill(opc), k + 1) == Prefix(x, Fill(opc), k)
  {
    hide Prefix, Half;
    Skip(x, Fill(opc), Away(x, opc), k);
  }

  lemma FirstStep(code: seq<Word>, x: bv64, opc: bv64, r: Reg, k: nat)
    requires k < 4 && r < 31 && (opc == 0 || opc == 2) && Prefix(x, Fill(opc), k) == Fill(opc)
    requires code == [WideCode(opc, r, Half(Away(x, opc), k), k)]
    ensures Sets(code, r, Prefix(x, Fill(opc), k + 1))
  {
    hide Prefix, Half, WideValue, WideCode, Sets;
    var h := Half(Away(x, opc), k);
    HalfRange(Away(x, opc), k);
    FirstSets(code, opc, r, h, k, WideValue(opc as bv32, Hw(k), h, 0));
    if opc == 2 { FirstZ(x, k); } else { FirstN(x, k); }
  }

  /** So a first halfword is always found. */
  lemma FillMovable(opc: bv64, x: bv64)
    requires x == Fill(opc)
    ensures !Unmovable(x)
  {
    hide Unmovable;
    if opc == 2 {
      Movz(0, x);
      Movable(Trunc(0x5280_0000 | (0 as bv64) | (x << 5)), 0, x);
    } else {
      Movn(0, x);
      Movable(Trunc(0x9280_0000 | (0 as bv64) | ((!x << 5) & 0x1f_ffe0)), 0, x);
    }
  }
}
