/** Reaching memory at a constant offset from a register (arm64_check_offset, arm64_ldrx, arm64_strx),
    and adding a constant to a register (arm64_add_offset, arm64_spoff). */
module AddressImm {
  import opened Options
  import opened A64
  import opened MoveImm

  // Loads and stores of general registers

  /** The address that a load or store goes to, 8 << size bits wide, with its opc and transfer register. */
  datatype Access = Access(addr: bv64, size: bv32, opc: bv32, rt: bv32)

  /** A 9-bit offset, signed. */
  function Simm9(w: Word): bv64 {
    SignExtend9(((w >> 12) & 0x1ff) as bv64)
  }

  function SignExtend9(v: bv64): bv64 {
    if v & 0x100 == 0 then v else v | 0xffff_ffff_ffff_fe00
  }

  /** A 12-bit offset in units of 1 << size bytes. */
  function Scaled12(w: Word, size: bv32): bv64 {
    var v := ((w >> 10) & 0xfff) as bv64;
    if size == 0 then v else if size == 1 then v << 1 else if size == 2 then v << 2 else v << 3
  }

  datatype Mode = Offset(v: bv64) | Index(rm: bv32) | NoMode

  /** How a load or store word forms its address: unsigned scaled, unscaled, or by register. */
  function ModeOf(w: Word): Mode {
    if w & 0x3f00_0000 == 0x3900_0000 then Offset(Scaled12(w, w >> 30))
    else if w & 0x3f20_0c00 == 0x3800_0000 then Offset(Simm9(w))
    else if w & 0x3f20_fc00 == 0x3820_6800 then Index((w >> 16) & 31)
    else NoMode
  }

  function AccessOf(w: Word, x: Regs): Option<Access> {
    var base := x[X((w >> 5) & 31)];
    match ModeOf(w)
    case Offset(v) => Some(Access(Add64(false, base, v), w >> 30, (w >> 22) & 3, w & 31))
    case Index(rm) => Some(Access(Add64(false, base, Read(x, rm)), w >> 30, (w >> 22) & 3, w & 31))
    case NoMode => None
  }

  /** All words but the last change x30 at most, and the last makes the access. */
  ghost predicate Reaches(code: seq<Word>, s: Regs, a: Access) {
    && |code| > 0
    && var t := Execute(code[..|code| - 1], s);
       t.Some? && AccessOf(code[|code| - 1], t.value) == Some(a) && forall g :: g != X(30) ==> t.value[g] == s[g]
  }

  /** From every state. */
  ghost predicate AlwaysReaches(code: seq<Word>, a: Access) {
    forall s: Regs :: Reaches(code, s, a)
  }

  // Offsets

  type Size = s: bv64 | s < 4

  function ScaledMask(sz: bv64): bv64
    requires sz < 64
  {
    0xfff << sz
  }

  predicate IsScaled(sz: bv64, off: bv64)
    requires sz < 64
  {
    off & !ScaledMask(sz) == 0
  }

  predicate IsUnscaled(off: bv64) {
    off < 256 || -off <= 256
  }

  /** One instruction can make the access. */
  predicate FitsOffset(sz: bv64, off: bv64)
    requires sz < 64
  {
    IsScaled(sz, off) || IsUnscaled(off)
  }

  function Keep(off: bv64, mask: bv64): bv64 {
    off & mask
  }

  function Drop(off: bv64, mask: bv64): bv64 {
    off & !mask
  }

  /** arm64_check_offset: the part of off for the symbol, or (invert) the part for the load or store. */
  function CheckOffset(invert: bool, sz: bv64, off: bv64): bv64
    requires sz < 64
  {
    if FitsOffset(sz, off) then (if invert then off else 0)
    else if Keep(off, ScaledMask(sz)) != 0 then
      (if invert then Keep(off, ScaledMask(sz)) else Drop(off, ScaledMask(sz)))
    else if Keep(off, 0x1ff) != 0 then (if invert then Keep(off, 0x1ff) else Drop(off, 0x1ff))
    else (if invert then 0 else off)
  }

  lemma PartsAdd(off: bv64, m: bv64)
    ensures Add64(false, Drop(off, m), Keep(off, m)) == off
  {}

  lemma NoneAdds(off: bv64)
    ensures Add64(false, 0, off) == off && Add64(false, off, 0) == off
  {}

  /** The two parts add up to the offset. */
  lemma CheckOffsetAdds(sz: bv64, off: bv64)
    requires sz <= 4
    ensures Add64(false, CheckOffset(false, sz, off), CheckOffset(true, sz, off)) == off
  {
    hide FitsOffset, ScaledMask, Keep, Drop, Add64;
    PartsAdd(off, ScaledMask(sz));
    PartsAdd(off, 0x1ff);
    NoneAdds(off);
  }

  /** And the second always fits one instruction. */
  lemma CheckOffsetFits(sz: bv64, off: bv64)
    requires sz <= 4
    ensures FitsOffset(sz, CheckOffset(true, sz, off))
  {
    if sz == 0 {} else if sz == 1 {} else if sz == 2 {} else if sz == 3 {}
  }

  lemma MaskIs(sz: bv64)
    requires sz <= 4
    ensures ScaledMask(sz) ==
      if sz == 0 then 0xfff else if sz == 1 then 0x1ffe else if sz == 2 then 0x3ffc
      else if sz == 3 then 0x7ff8 else 0xfff0
  {}

  lemma KeepIs(off: bv64, m: bv64)
    ensures Keep(off, m) == off & m
  {}

  /** What fits one instruction goes there whole; else the 12 bits m that a scaled offset has, or if they are zero
      the low 9 bits. */
  lemma CheckOffsetSplits(sz: bv64, off: bv64, m: bv64)
    requires sz <= 4
    requires m == if sz == 0 then 0xfff else if sz == 1 then 0x1ffe else if sz == 2 then 0x3ffc
                  else if sz == 3 then 0x7ff8 else 0xfff0
    ensures CheckOffset(true, sz, off) ==
      if FitsOffset(sz, off) then off else if off & m != 0 then off & m else off & 0x1ff
  {
    hide FitsOffset, ScaledMask, Keep, Drop;
    MaskIs(sz);
    KeepIs(off, m);
    KeepIs(off, 0x1ff);
  }

  lemma Fits0(off: bv64)
    ensures IsScaled(0, off) <==> off < 0x1000
  {}

  lemma Fits1(off: bv64)
    ensures IsScaled(1, off) <==> off & 1 == 0 && off < 0x2000
  {}

  lemma Fits2(off: bv64)
    ensures IsScaled(2, off) <==> off & 3 == 0 && off < 0x4000
  {}

  lemma Fits3(off: bv64)
    ensures IsScaled(3, off) <==> off & 7 == 0 && off < 0x8000
  {}

  lemma Fits4(off: bv64)
    ensures IsScaled(4, off) <==> off & 15 == 0 && off < 0x1_0000
  {}

  lemma FitsSmall(off: bv64)
    ensures IsUnscaled(off) <==> off < 256 || off >= 0xffff_ffff_ffff_ff00
  {}

  /** What fits: multiples of the access size below 4096 times it, and everything from -256 to 255. */
  lemma FitsExactly(sz: bv64, off: bv64)
    requires sz <= 4
    ensures FitsOffset(sz, off) <==>
      || off < 256 || off >= 0xffff_ffff_ffff_ff00
      || if sz == 0 then off < 0x1000
         else if sz == 1 then off & 1 == 0 && off < 0x2000
         else if sz == 2 then off & 3 == 0 && off < 0x4000
         else if sz == 3 then off & 7 == 0 && off < 0x8000
         else off & 15 == 0 && off < 0x1_0000
  {
    hide IsScaled, IsUnscaled;
    FitsSmall(off);
    if sz == 0 {
      Fits0(off);
    } else if sz == 1 {
      Fits1(off);
    } else if sz == 2 {
      Fits2(off);
    } else if sz == 3 {
      Fits3(off);
    } else {
      Fits4(off);
    }
  }

  /** ldr x3, [x4, #24]; ldrsb w3, [x4, #5]; stur w3, [x4, #-4]; ldr x3, [x4, x30]; ldur x3, [x4, #-8] */
  lemma KnownAccesses(x: Regs)
    ensures AccessOf(0xf940_0c83, x) == Some(Access(Add64(false, x[X(4)], 24), 3, 1, 3))
    ensures AccessOf(0x39c0_1483, x) == Some(Access(Add64(false, x[X(4)], 5), 0, 3, 3))
    ensures AccessOf(0xb81f_c083, x) == Some(Access(Add64(false, x[X(4)], 0xffff_ffff_ffff_fffc), 2, 0, 3))
    ensures AccessOf(0xf87e_6883, x) == Some(Access(Add64(false, x[X(4)], x[X(30)]), 3, 1, 3))
    ensures AccessOf(0xf85f_8083, x) == Some(Access(Add64(false, x[X(4)], 0xffff_ffff_ffff_fff8), 3, 1, 3))
    ensures Add64(false, 5, 7) == 12
  {
    var w1, w2, w3, w4, w5: Word := 0xf940_0c83, 0x39c0_1483, 0xb81f_c083, 0xf87e_6883, 0xf85f_8083;
    assert ModeOf(w1) == Offset(24) && ModeOf(w2) == Offset(5) && ModeOf(w3) == Offset(0xffff_ffff_ffff_fffc);
    assert ModeOf(w4) == Index(30) && ModeOf(w5) == Offset(0xffff_ffff_ffff_fff8);
    hide ModeOf, Add64;
  }

  /** Code that reaches an address does so with its last word, and the words before it change x30 at most. */
  lemma ReachesKeeps(code: seq<Word>, bas: Reg, off: bv64, size: bv32, opc: bv32, dst: Reg, s: Regs)
    requires ReachesOffset(code, bas, off, size, opc, dst)
    ensures code != [] && Execute(code[..|code| - 1], s).Some?
    ensures var t := Execute(code[..|code| - 1], s).value;
      && AccessOf(code[|code| - 1], t) == Some(Access(Add64(false, s[X(bas)], off), size, opc, dst))
      && forall g :: g != X(30) ==> t[g] == s[g]
  {
    hide AccessOf, Add64;
    assert Reaches(code, s, Access(Add64(false, s[X(bas)], off), size, opc, dst));
  }

  // The words

  function ScaledCode(base: bv64, sg: bv64, sz: Size, dst: Reg, bas: Reg, off: bv64): Word {
    Trunc(base | (dst as bv64) | ((bas as bv64) << 5) | (off << (10 - sz)) | (sg << 23) | (sz << 30))
  }

  function UnscaledCode(base: bv64, sg: bv64, sz: Size, dst: Reg, bas: Reg, off: bv64): Word {
    Trunc(base | (dst as bv64) | ((bas as bv64) << 5) | ((off & 511) << 12) | (sg << 23) | (sz << 30))
  }

  function IndexCode(base: bv64, opc: bv64, sz: Size, dst: Reg, bas: Reg): Word {
    Trunc(base | (dst as bv64) | ((bas as bv64) << 5) | (30 << 16) | (opc << 22) | (sz << 30))
  }

  function LoadOpc(sg: bv64): bv32 {
    if sg == 1 then 3 else 1
  }

  predicate IsWord(w: Word, size: bv32, opc: bv32, dst: Reg, bas: Reg, mode: Mode) {
    w >> 30 == size && (w >> 22) & 3 == opc && w & 31 == dst && (w >> 5) & 31 == bas && ModeOf(w) == mode
  }

  lemma ScaledLoad0(sg: bv64, sz: Size, dst: Reg, bas: Reg, off: bv64)
    requires sz == 0 && sg < 2 && IsScaled(sz, off)
    ensures IsWord(ScaledCode(0x3940_0000, sg, sz, dst, bas, off), 0, LoadOpc(sg), dst, bas, Offset(off))
  {}

  lemma ScaledLoad1(sg: bv64, sz: Size, dst: Reg, bas: Reg, off: bv64)
    requires sz == 1 && sg < 2 && IsScaled(sz, off)
    ensures IsWord(ScaledCode(0x3940_0000, sg, sz, dst, bas, off), 1, LoadOpc(sg), dst, bas, Offset(off))
  {}

  lemma ScaledLoad2(sg: bv64, sz: Size, dst: Reg, bas: Reg, off: bv64)
    requires sz == 2 && sg < 2 && IsScaled(sz, off)
    ensures IsWord(ScaledCode(0x3940_0000, sg, sz, dst, bas, off), 2, LoadOpc(sg), dst, bas, Offset(off))
  {}

  lemma ScaledLoad3(sg: bv64, sz: Size, dst: Reg, bas: Reg, off: bv64)
    requires sz == 3 && sg < 2 && IsScaled(sz, off)
    ensures IsWord(ScaledCode(0x3940_0000, sg, sz, dst, bas, off), 3, LoadOpc(sg), dst, bas, Offset(off))
  {}

  // Words for every size

  lemma ScaledLoad(sg: bv64, sz: Size, dst: Reg, bas: Reg, off: bv64)
    requires sg < 2 && IsScaled(sz, off)
    ensures IsWord(ScaledCode(0x3940_0000, sg, sz, dst, bas, off), sz as bv32, LoadOpc(sg), dst, bas, Offset(off))
  {
    hide ScaledCode, IsWord, IsScaled;
    if sz == 0 {
      ScaledLoad0(sg, sz, dst, bas, off);
    } else if sz == 1 {
      ScaledLoad1(sg, sz, dst, bas, off);
    } else if sz == 2 {
      ScaledLoad2(sg, sz, dst, bas, off);
    } else {
      ScaledLoad3(sg, sz, dst, bas, off);
    }
  }

  lemma NineBits(off: bv64)
    requires IsUnscaled(off)
    ensures SignExtend9(off & 511) == off
  {}

  lemma LoadFields(sg: bv64, sz: Size, dst: Reg, bas: Reg, off: bv64)
    requires sg < 2
    ensures var w := UnscaledCode(0x3840_0000, sg, sz, dst, bas, off);
      w >> 30 == sz as bv32 && (w >> 22) & 3 == LoadOpc(sg) && w & 31 == dst && (w >> 5) & 31 == bas
  {}

  lemma LoadMode(sg: bv64, sz: Size, dst: Reg, bas: Reg, off: bv64)
    requires sg < 2
    ensures var w := UnscaledCode(0x3840_0000, sg, sz, dst, bas, off);
      w & 0x3f00_0000 == 0x3800_0000 && w & 0x3f20_0c00 == 0x3800_0000 && ((w >> 12) & 0x1ff) as bv64 == off & 511
  {}

  lemma UnscaledMode(w: Word, off: bv64)
    requires w & 0x3f00_0000 == 0x3800_0000 && w & 0x3f20_0c00 == 0x3800_0000
    requires ((w >> 12) & 0x1ff) as bv64 == off & 511 && SignExtend9(off & 511) == off
    ensures ModeOf(w) == Offset(off)
  {}

  lemma UnscaledLoad(sg: bv64, sz: Size, dst: Reg, bas: Reg, off: bv64)
    requires sg < 2 && IsUnscaled(off)
    ensures IsWord(UnscaledCode(0x3840_0000, sg, sz, dst, bas, off), sz as bv32, LoadOpc(sg), dst, bas, Offset(off))
  {
    hide UnscaledCode, IsUnscaled, ModeOf, LoadOpc, SignExtend9;
    NineBits(off);
    LoadFields(sg, sz, dst, bas, off);
    LoadMode(sg, sz, dst, bas, off);
    UnscaledMode(UnscaledCode(0x3840_0000, sg, sz, dst, bas, off), off);
  }

  lemma IndexFields(sg: bv64, sz: Size, dst: Reg, bas: Reg)
    requires sg < 2
    ensures var w := IndexCode(0x3860_6800, sg + 1, sz, dst, bas);
      w >> 30 == sz as bv32 && (w >> 22) & 3 == LoadOpc(sg) && w & 31 == dst && (w >> 5) & 31 == bas
  {}

  lemma IndexMode(sg: bv64, sz: Size, dst: Reg, bas: Reg)
    requires sg < 2
    ensures var w := IndexCode(0x3860_6800, sg + 1, sz, dst, bas);
      w & 0x3f20_fc00 == 0x3820_6800 && (w >> 16) & 31 == 30
  {}

  lemma IndexedMode(w: Word)
    requires w & 0x3f20_fc00 == 0x3820_6800 && (w >> 16) & 31 == 30
    ensures ModeOf(w) == Index(30)
  {}

  lemma IndexLoad(sg: bv64, sz: Size, dst: Reg, bas: Reg)
    requires sg < 2
    ensures IsWord(IndexCode(0x3860_6800, sg + 1, sz, dst, bas), sz as bv32, LoadOpc(sg), dst, bas, Index(30))
  {
    hide IndexCode, ModeOf, LoadOpc;
    IndexFields(sg, sz, dst, bas);
    IndexMode(sg, sz, dst, bas);
    IndexedMode(IndexCode(0x3860_6800, sg + 1, sz, dst, bas));
  }

  lemma ScaledStore(sz: Size, dst: Reg, bas: Reg, off: bv64)
    requires IsScaled(sz, off)
    ensures IsWord(ScaledCode(0x3900_0000, 0, sz, dst, bas, off), sz as bv32, 0, dst, bas, Offset(off))
  {
    if sz == 0 {} else if sz == 1 {} else if sz == 2 {}
  }

  lemma StoreFields(sz: Size, dst: Reg, bas: Reg, off: bv64)
    ensures var w := UnscaledCode(0x3800_0000, 0, sz, dst, bas, off);
      w >> 30 == sz as bv32 && (w >> 22) & 3 == 0 && w & 31 == dst && (w >> 5) & 31 == bas
  {}

  lemma StoreMode(sz: Size, dst: Reg, bas: Reg, off: bv64)
    ensures var w := UnscaledCode(0x3800_0000, 0, sz, dst, bas, off);
      w & 0x3f00_0000 == 0x3800_0000 && w & 0x3f20_0c00 == 0x3800_0000 && ((w >> 12) & 0x1ff) as bv64 == off & 511
  {}

  lemma UnscaledStore(sz: Size, dst: Reg, bas: Reg, off: bv64)
    requires IsUnscaled(off)
    ensures IsWord(UnscaledCode(0x3800_0000, 0, sz, dst, bas, off), sz as bv32, 0, dst, bas, Offset(off))
  {
    hide UnscaledCode, IsUnscaled, ModeOf, SignExtend9;
    NineBits(off);
    StoreFields(sz, dst, bas, off);
    StoreMode(sz, dst, bas, off);
    UnscaledMode(UnscaledCode(0x3800_0000, 0, sz, dst, bas, off), off);
  }

  lemma IndexStore(sz: Size, dst: Reg, bas: Reg)
    ensures IsWord(IndexCode(0x3820_6800, 0, sz, dst, bas), sz as bv32, 0, dst, bas, Index(30))
  {}

  // The code

  /** From every state the code reaches register bas plus off, with the given size, opc and register. */
  ghost predicate ReachesOffset(code: seq<Word>, bas: Reg, off: bv64, size: bv32, opc: bv32, dst: Reg) {
    forall s: Regs :: Reaches(code, s, Access(Add64(false, s[X(bas)], off), size, opc, dst))
  }

  lemma AccessIs(w: Word, size: bv32, opc: bv32, dst: Reg, bas: Reg, mode: Mode, x: Regs, off: bv64)
    requires IsWord(w, size, opc, dst, bas, mode) && (mode == Offset(off) || (mode == Index(30) && x[X(30)] == off))
    ensures AccessOf(w, x) == Some(Access(Add64(false, x[X(bas)], off), size, opc, dst))
  {
    hide ModeOf, Add64;
  }

  lemma OneReaches(w: Word, size: bv32, opc: bv32, dst: Reg, bas: Reg, off: bv64)
    requires IsWord(w, size, opc, dst, bas, Offset(off))
    ensures ReachesOffset([w], bas, off, size, opc, dst)
  {
    hide IsWord, AccessOf, Add64;
    forall s: Regs ensures Reaches([w], s, Access(Add64(false, s[X(bas)], off), size, opc, dst)) {
      AccessIs(w, size, opc, dst, bas, Offset(off), s, off);
    }
  }

  lemma IndexReaches(code: seq<Word>, w: Word, size: bv32, opc: bv32, dst: Reg, bas: Reg, off: bv64)
    requires bas != 30 && Sets(code, 30, off) && IsWord(w, size, opc, dst, bas, Index(30))
    ensures ReachesOffset(code + [w], bas, off, size, opc, dst)
  {
    hide IsWord, AccessOf, Add64, Exec;
    forall s: Regs ensures Reaches(code + [w], s, Access(Add64(false, s[X(bas)], off), size, opc, dst)) {
      assert (code + [w])[..|code|] == code;
      assert Execute(code, s) == Some(s[X(30) := off]);
      var t: Regs := s[X(30) := off];
      assert t[X(bas)] == s[X(bas)] && t[X(30)] == off;
      AccessIs(w, size, opc, dst, bas, Index(30), t, off);
    }
  }

  /** When x30 is the base itself, the offset has overwritten it. */
  lemma IndexMisses(code: seq<Word>, w: Word, size: bv32, opc: bv32, dst: Reg, off: bv64)
    requires Sets(code, 30, off) && IsWord(w, size, opc, dst, 30, Index(30))
    ensures !ReachesOffset(code + [w], 30, off, size, opc, dst)
  {
    hide IsWord, AccessOf, Add64, Exec;
    var s: Regs := imap g: Gpr :: OneMoreIn(g, off);
    var t: Regs := s[X(30) := off];
    assert (code + [w])[..|code|] == code;
    assert Execute(code, s) == Some(t);
    AccessIs(w, size, opc, dst, 30, Index(30), t, off);
    SumsDiffer(off);
    assert !Reaches(code + [w], s, Access(Add64(false, s[X(30)], off), size, opc, dst));
  }

  /** It goes to twice the offset instead. */
  lemma IndexDoubles(code: seq<Word>, w: Word, size: bv32, opc: bv32, dst: Reg, off: bv64)
    requires Sets(code, 30, off) && IsWord(w, size, opc, dst, 30, Index(30))
    ensures AlwaysReaches(code + [w], Access(Add64(false, off, off), size, opc, dst))
  {
    hide IsWord, AccessOf, Add64, Exec;
    forall s: Regs ensures Reaches(code + [w], s, Access(Add64(false, off, off), size, opc, dst)) {
      var t: Regs := s[X(30) := off];
      assert (code + [w])[..|code|] == code;
      assert Execute(code, s) == Some(t);
      AccessIs(w, size, opc, dst, 30, Index(30), t, off);
    }
  }

  function OneMore(off: bv64): bv64 {
    off + 1
  }

  function OneMoreIn(g: Gpr, off: bv64): bv64 {
    if g == X(30) then OneMore(off) else 0
  }

  lemma SumsDiffer(off: bv64)
    ensures Add64(false, OneMore(off), off) != Add64(false, off, off)
  {}

  /** movz w30, #1, lsl #16; ldr x0, [x30, x30]: what is written for offset 0x10000 from base x30. */
  lemma BaseOverwritten()
    ensures !FitsOffset(3, 0x1_0000) && !ReachesOffset([0x52a0_003e, 0xf87e_6bc0], 30, 0x1_0000, 3, 1, 0)
    ensures IndexCode(0x3860_6800, 1, 3, 0, 30) == 0xf87e_6bc0 && Sets([0x52a0_003e], 30, 0x1_0000)
  {
    hide ReachesOffset, Sets;
    var mov: seq<Word>, w: Word := [0x52a0_003e], 0xf87e_6bc0;
    OneWord(0x52a0_003e, 30, 0x1_0000);
    IndexLoad(0, 3, 0, 30);
    IndexMisses(mov, w, 3, 1, 0, 0x1_0000);
    assert mov + [w] == [0x52a0_003e, 0xf87e_6bc0];
  }

  /** arm64_ldrx: one load when the offset fits; else the offset goes through x30, and the load is right
      exactly when that is not the base. */
  method Ldrx(signed: bool, sz: Size, dst: Reg, bas: Reg, off: bv64) returns (code: seq<Word>)
    ensures ReachesOffset(code, bas, off, sz as bv32, if signed && sz < 2 then 3 else 1, dst) <==>
      bas != 30 || FitsOffset(sz, off)
    ensures FitsOffset(sz, off) ==> |code| == 1
    ensures bas == 30 && !FitsOffset(sz, off) ==>
      AlwaysReaches(code, Access(Add64(false, off, off), sz as bv32, if signed && sz < 2 then 3 else 1, dst))
  {
    hide ScaledCode, UnscaledCode, IndexCode, IsWord, ReachesOffset, AlwaysReaches, Sets, IsScaled, IsUnscaled;
    var sg: bv64 := if sz >= 2 then 0 else if signed then 1 else 0;
    var w;
    if IsScaled(sz, off) {
      w := ScaledCode(0x3940_0000, sg, sz, dst, bas, off);
      ScaledLoad(sg, sz, dst, bas, off);
      OneReaches(w, sz as bv32, LoadOpc(sg), dst, bas, off);
      code := [w];
    } else if IsUnscaled(off) {
      w := UnscaledCode(0x3840_0000, sg, sz, dst, bas, off);
      UnscaledLoad(sg, sz, dst, bas, off);
      OneReaches(w, sz as bv32, LoadOpc(sg), dst, bas, off);
      code := [w];
    } else {
      code := Movimm(30, off);
      w := IndexCode(0x3860_6800, sg + 1, sz, dst, bas);
      IndexLoad(sg, sz, dst, bas);
      if bas == 30 {
        IndexMisses(code, w, sz as bv32, LoadOpc(sg), dst, off);
        IndexDoubles(code, w, sz as bv32, LoadOpc(sg), dst, off);
      } else {
        IndexReaches(code, w, sz as bv32, LoadOpc(sg), dst, bas, off);
      }
      code := code + [w];
    }
  }

  /** arm64_strx, likewise. */
  method Strx(sz: Size, dst: Reg, bas: Reg, off: bv64) returns (code: seq<Word>)
    ensures ReachesOffset(code, bas, off, sz as bv32, 0, dst) <==> bas != 30 || FitsOffset(sz, off)
    ensures FitsOffset(sz, off) ==> |code| == 1
    ensures bas == 30 && !FitsOffset(sz, off) ==>
      AlwaysReaches(code, Access(Add64(false, off, off), sz as bv32, 0, dst))
  {
    hide ScaledCode, UnscaledCode, IndexCode, IsWord, ReachesOffset, AlwaysReaches, Sets, IsScaled, IsUnscaled;
    var w;
    if IsScaled(sz, off) {
      w := ScaledCode(0x3900_0000, 0, sz, dst, bas, off);
      ScaledStore(sz, dst, bas, off);
      OneReaches(w, sz as bv32, 0, dst, bas, off);
      code := [w];
    } else if IsUnscaled(off) {
      w := UnscaledCode(0x3800_0000, 0, sz, dst, bas, off);
      UnscaledStore(sz, dst, bas, off);
      OneReaches(w, sz as bv32, 0, dst, bas, off);
      code := [w];
    } else {
      code := Movimm(30, off);
      w := IndexCode(0x3820_6800, 0, sz, dst, bas);
      IndexStore(sz, dst, bas);
      if bas == 30 {
        IndexMisses(code, w, sz as bv32, 0, dst, off);
        IndexDoubles(code, w, sz as bv32, 0, dst, off);
      } else {
        IndexReaches(code, w, sz as bv32, 0, dst, bas, off);
      }
      code := code + [w];
    }
  }

  lemma AddIs(a: bv64, b: bv64)
    ensures Add64(false, a, b) == a + b
  {}

  lemma AddAssociates(a: bv64, b: bv64, c: bv64)
    ensures Add64(false, a + b, c) == Add64(false, a, b + c)
  {}

  lemma TwoParts(a: bv64, b: bv64, c: bv64)
    ensures Add64(false, Add64(false, a, b), c) == Add64(false, a, Add64(false, b, c))
  {
    hide Add64;
    AddIs(a, b);
    AddIs(b, c);
    AddAssociates(a, b, c);
  }

  /** A load through x30 that holds a symbol plus the symbol's part of an offset: one instruction, which
      reaches the symbol plus the whole offset. */
  method LoadThroughX30(signed: bool, sz: Size, dst: Reg, off: bv64) returns (code: seq<Word>)
    ensures |code| == 1
    ensures forall s: Regs, sym: bv64 :: s[X(30)] == Add64(false, sym, CheckOffset(false, sz, off)) ==>
              Reaches(code, s, Access(Add64(false, sym, off), sz as bv32, if signed && sz < 2 then 3 else 1, dst))
  {
    hide FitsOffset, CheckOffset, Reaches, Add64;
    var part := CheckOffset(true, sz, off);
    CheckOffsetFits(sz, off);
    CheckOffsetAdds(sz, off);
    code := Ldrx(signed, sz, dst, 30, part);
    ghost var opc := if signed && sz < 2 then 3 else 1;
    forall s: Regs, sym: bv64 | s[X(30)] == Add64(false, sym, CheckOffset(false, sz, off))
      ensures Reaches(code, s, Access(Add64(false, sym, off), sz as bv32, opc, dst))
    {
      TwoParts(sym, CheckOffset(false, sz, off), part);
      assert Reaches(code, s, Access(Add64(false, s[X(30)], part), sz as bv32, opc, dst));
    }
  }

  // Adding a constant to a register, with the stack as a last resort

  datatype Address = At(a: bv64)

  /** Memory by the address of a doubleword. */
  type Memory = m: imap<Address, bv64> | forall a: Address :: a in m
    ghost witness imap a: Address :: 0

  datatype Machine = Machine(x: Regs, mem: Memory)

  /** STR (X register, pre-index) */
  function StorePre(m: Machine, rt: bv32, rn: bv32, offset: bv64): Machine {
    var a := Add64(false, m.x[X(rn)], offset);
    Machine(m.x[X(rn) := a], m.mem[At(a) := Read(m.x, rt)])
  }

  /** LDR (X register, post-index) */
  function LoadPost(m: Machine, rt: bv32, rn: bv32, offset: bv64): Machine {
    var a := m.x[X(rn)];
    m.(x := Write(m.x, rt, m.mem[At(a)])[X(rn) := Add64(false, a, offset)])
  }

  /** Those two, besides what Exec knows. */
  function Step(w: Word, m: Machine): Option<Machine> {
    var regs := Exec(Decode(w), m.x);
    if regs.Some? then Some(m.(x := regs.value))
    else if w & 0xffe0_0c00 == 0xf800_0c00 then Some(StorePre(m, w & 31, (w >> 5) & 31, Simm9(w)))
    else if w & 0xffe0_0c00 == 0xf840_0400 then Some(LoadPost(m, w & 31, (w >> 5) & 31, Simm9(w)))
    else None
  }

  function Steps(code: seq<Word>, m: Machine): Option<Machine> {
    if code == [] then Some(m)
    else
      match Steps(code[..|code| - 1], m)
      case None => None
      case Some(t) => Step(code[|code| - 1], t)
  }

  lemma StepsSnoc(code: seq<Word>, w: Word, m: Machine)
    ensures Steps(code + [w], m) == match Steps(code, m) case None => None case Some(t) => Step(w, t)
  {
    hide Step;
    assert (code + [w])[..|code|] == code;
  }

  lemma {:induction false} StepsAppend(a: seq<Word>, b: seq<Word>, m: Machine)
    ensures Steps(a + b, m) == match Steps(a, m) case None => None case Some(t) => Steps(b, t)
  {
    hide Step;
    if b == [] {
      assert a + b == a;
    } else {
      var c, w := b[..|b| - 1], b[|b| - 1];
      StepsAppend(a, c, m);
      assert a + b == (a + c) + [w] && b == c + [w];
      StepsSnoc(a + c, w, m);
    }
  }

  /** Code that Execute runs leaves memory alone. */
  lemma {:induction false} StepsExecute(code: seq<Word>, m: Machine)
    requires Execute(code, m.x).Some?
    ensures Steps(code, m) == Some(m.(x := Execute(code, m.x).value))
  {
    hide Exec, Decode, Add64, Simm9, Write, Read;
    if code != [] {
      StepsExecute(code[..|code| - 1], m);
    }
  }

  const MINUS_16: bv64 := 0xffff_ffff_ffff_fff0

  /** t is m with v added to register r, but for the doubleword below the stack pointer. */
  ghost predicate Added(t: Option<Machine>, m: Machine, r: bv32, v: bv64) {
    && t.Some? && t.value.x == m.x[X(r) := Add64(false, m.x[X(r)], v)]
    && forall a :: a != At(Add64(false, m.x[X(31)], MINUS_16)) ==> t.value.mem[a] == m.mem[a]
  }

  /** From every state the code adds v to register r. */
  ghost predicate AddsConst(code: seq<Word>, r: Reg, v: bv64) {
    forall m: Machine :: Added(Steps(code, m), m, r, v)
  }

  // One addition

  lemma AddImmStep(r: Reg, v: bv64)
    requires r < 31 && v <= 0xfff
    ensures Decode(AddCode(0, r, v)) == AddSubImm(1, 0, 0, v, r, r)
    ensures Decode(AddCode(1, r, v)) == AddSubImm(1, 0, 1, v, r, r)
  {}

  /** add xr, xr, #v and, with sh, #v, lsl #12 */
  function AddCode(sh: bv64, r: Reg, v: bv64): Word {
    Trunc(0x1100_0000 | (1 << 31) | (sh << 22) | ((r as bv64) << 5) | (r as bv64) | (v << 10))
  }

  lemma NothingAdded(r: Reg)
    ensures AddsConst([], r, 0)
  {
    forall m: Machine ensures Added(Steps([], m), m, r, 0) {
      NoneAdds(m.x[X(r)]);
    }
  }

  /** An addition after another. */
  lemma AddsNext(code: seq<Word>, u: bv64, w: Word, r: Reg, v: bv64)
    requires r < 31 && AddsConst(code, r, u)
    requires forall x: Regs :: Exec(Decode(w), x) == Some(x[X(r) := Add64(false, x[X(r)], v)])
    ensures AddsConst(code + [w], r, Add64(false, u, v))
  {
    hide Exec, Decode, Add64;
    forall m: Machine ensures Added(Steps(code + [w], m), m, r, Add64(false, u, v)) {
      assert Added(Steps(code, m), m, r, u);
      StepsSnoc(code, w, m);
      TwoParts(m.x[X(r)], u, v);
      Overwrite(m.x, r, Add64(false, m.x[X(r)], u), Add64(false, m.x[X(r)], Add64(false, u, v)));
    }
  }

  lemma AddImmExec(r: Reg, v: bv64, x: Regs)
    requires r < 31 && v <= 0xfff
    ensures Exec(Decode(AddCode(0, r, v)), x) == Some(x[X(r) := Add64(false, x[X(r)], v)])
    ensures Exec(Decode(AddCode(1, r, v)), x) == Some(x[X(r) := Add64(false, x[X(r)], v << 12)])
  {
    hide Exec, Decode, Add64, Add32, AddCode;
    AddImmStep(r, v);
    ExecAddImm(1, 0, v, r, r, x);
  }

  // The stack as scratch space

  lemma PushWord(t: Reg)
    ensures var w := 0xf800_0000 | 0x001f_0fe0 | t;
            Decode(w) == Other && w & 0xffe0_0c00 == 0xf800_0c00 && w & 31 == t && (w >> 5) & 31 == 31 &&
              Simm9(w) == MINUS_16
  {}

  lemma PopWord(t: Reg)
    ensures var w := 0xf840_0000 | 0x0001_07e0 | t;
            Decode(w) == Other && w & 0xffe0_0c00 == 0xf840_0400 && w & 31 == t && (w >> 5) & 31 == 31 && Simm9(w) == 16
  {}

  lemma AddRegFull(r: Reg, t: Reg)
    ensures Decode(0x0b00_0000 | (1 << 31) | (t << 16) | (r << 5) | r) == AddSubReg(1, 0, t, r, r)
  {}

  lemma Push(t: Reg, m: Machine)
    requires t < 31
    ensures Step(0xf800_0000 | 0x001f_0fe0 | t, m) == Some(StorePre(m, t, 31, MINUS_16))
  {
    hide Decode, Simm9, StorePre, LoadPost;
    PushWord(t);
  }

  lemma Pop(t: Reg, m: Machine)
    requires t < 31
    ensures Step(0xf840_0000 | 0x0001_07e0 | t, m) == Some(LoadPost(m, t, 31, 16))
  {
    hide Decode, Simm9, StorePre, LoadPost;
    PopWord(t);
  }

  /** str x3, [sp, #-16]! and ldr x3, [sp], #16 */
  lemma KnownSteps(m: Machine)
    ensures var sp := Add64(false, m.x[X(31)], 0xffff_ffff_ffff_fff0);
      Step(0xf81f_0fe3, m) == Some(Machine(m.x[X(31) := sp], m.mem[At(sp) := m.x[X(3)]]))
    ensures Step(0xf841_07e3, m) ==
      Some(Machine(m.x[X(3) := m.mem[At(m.x[X(31)])]][X(31) := Add64(false, m.x[X(31)], 16)], m.mem))
  {
    hide Step, Add64;
    Push(3, m);
    Pop(3, m);
  }

  /** Code that adds a constant does so from every state, and memory changes only where the stack was free. */
  lemma AddsKeeps(code: seq<Word>, r: Reg, v: bv64, m: Machine)
    requires AddsConst(code, r, v)
    ensures Steps(code, m).Some?
    ensures var t := Steps(code, m).value;
      && t.x == m.x[X(r) := Add64(false, m.x[X(r)], v)]
      && forall a :: a != At(Add64(false, m.x[X(31)], 0xffff_ffff_ffff_fff0)) ==> t.mem[a] == m.mem[a]
  {
    hide Step, Steps, Add64;
    assert Added(Steps(code, m), m, r, v);
  }

  lemma AddReg(r: Reg, t: Reg, m: Machine)
    requires r < 31 && t < 31
    ensures Step(0x0b00_0000 | (1 << 31) | (t << 16) | (r << 5) | r, m) ==
      Some(m.(x := m.x[X(r) := Add64(false, m.x[X(r)], m.x[X(t)])]))
  {
    hide Decode, Exec, Add64, Add32, Simm9, StorePre, LoadPost;
    AddRegFull(r, t);
    ExecAddReg(1, 0, t, r, r, m.x);
  }

  lemma BackUp(sp: bv64)
    ensures Add64(false, Add64(false, sp, MINUS_16), 16) == sp
  {
    hide Add64;
    AddIs(sp, MINUS_16);
    AddBack(sp);
  }

  lemma AddBack(sp: bv64)
    ensures Add64(false, sp + 0xffff_ffff_ffff_fff0, 16) == sp
  {}

  lemma Restore(x: Regs, r: Gpr, t: Gpr, sp: Gpr, a: bv64, v: bv64, f: bv64)
    requires r != t && r != sp && t != sp
    ensures x[sp := a][t := v][r := f][t := x[t]][sp := x[sp]] == x[r := f]
  {}

  /** Push t, load v into t, add t to r, pop t: r has grown by v, and all else is as before. */
  lemma ByStack(m: Machine, r: Reg, t: Reg, v: bv64, m1: Machine, m2: Machine, m3: Machine)
    requires r < 31 && t < 31 && r != t && m1 == StorePre(m, t, 31, MINUS_16) && m2 == m1.(x := Write(m1.x, t, v))
    requires m3 == m2.(x := Write(m2.x, r, Add64(false, m2.x[X(r)], m2.x[X(t)])))
    ensures Added(Some(LoadPost(m3, t, 31, 16)), m, r, v)
  {
    hide Add64;
    var sp, a, f := m.x[X(31)], Add64(false, m.x[X(31)], MINUS_16), Add64(false, m.x[X(r)], v);
    BackUp(sp);
    assert X(r) != X(t) && X(31) != X(r) && X(31) != X(t);
    Restore(m.x, X(r), X(t), X(31), a, v, f);
    assert m3.x == m.x[X(31) := a][X(t) := v][X(r) := f];
    assert m3.mem == m.mem[At(a) := m.x[X(t)]];
    assert m3.x[X(31)] == a;
  }

  /** The stack sequence after earlier additions. */
  lemma AddsByStack(code: seq<Word>, u: bv64, mov: seq<Word>, r: Reg, t: Reg, v: bv64)
    requires r < 31 && t < 31 && r != t && AddsConst(code, r, u) && Sets(mov, t, v)
    ensures AddsConst(code + [0xf800_0000 | 0x001f_0fe0 | t] + mov +
      [0x0b00_0000 | (1 << 31) | (t << 16) | (r << 5) | r]
                      + [0xf840_0000 | 0x0001_07e0 | t], r, Add64(false, u, v))
  {
    hide Step, Add64, StorePre, LoadPost;
    var push, add, pop := 0xf800_0000 | 0x001f_0fe0 | t, 0x0b00_0000 | (1 << 31) | (t << 16) | (r << 5) | r,
      0xf840_0000 | 0x0001_07e0 | t;
    var whole := code + [push] + mov + [add] + [pop];
    forall m: Machine ensures Added(Steps(whole, m), m, r, Add64(false, u, v)) {
      assert Added(Steps(code, m), m, r, u);
      var m0 := Steps(code, m).value;
      StackSteps(code, mov, push, add, pop, r, t, v, m, m0);
      TwoParts(m.x[X(r)], u, v);
      Overwrite(m.x, r, Add64(false, m.x[X(r)], u), Add64(false, m.x[X(r)], Add64(false, u, v)));
      assert m0.x[X(31)] == m.x[X(31)];
    }
  }

  lemma StackSteps(code: seq<Word>, mov: seq<Word>, push: Word, add: Word, pop: Word,
                   r: Reg, t: Reg, v: bv64, m: Machine, m0: Machine)
    requires r < 31 && t < 31 && r != t && Sets(mov, t, v) && Steps(code, m) == Some(m0)
    requires push == 0xf800_0000 | 0x001f_0fe0 | t && add == 0x0b00_0000 | (1 << 31) | (t << 16) | (r << 5) | r
    requires pop == 0xf840_0000 | 0x0001_07e0 | t
    ensures Added(Steps(code + [push] + mov + [add] + [pop], m), m0, r, v)
  {
    hide Step, Add64, StorePre, LoadPost, Added;
    StepsSnoc(code, push, m);
    Push(t, m0);
    var m1 := StorePre(m0, t, 31, MINUS_16);
    StepsAppend(code + [push], mov, m);
    assert Execute(mov, m1.x) == Some(m1.x[X(t) := v]);
    StepsExecute(mov, m1);
    var m2 := m1.(x := m1.x[X(t) := v]);
    StepsSnoc(code + [push] + mov, add, m);
    AddReg(r, t, m2);
    var m3 := m2.(x := m2.x[X(r) := Add64(false, m2.x[X(r)], m2.x[X(t)])]);
    StepsSnoc(code + [push] + mov + [add], pop, m);
    Pop(t, m3);
    ByStack(m0, r, t, v, m1, m2, m3);
  }

  // arm64_add_offset

  lemma AddsAre(code: seq<Word>, r: Reg, u: bv64, v: bv64)
    requires AddsConst(code, r, u) && u == v
    ensures AddsConst(code, r, v)
  {}

  lemma Low12(addend: bv64)
    ensures Add64(false, 0, addend & 0xfff) == addend & 0xfff && (addend & 0xfff) <= 0xfff
  {}

  lemma Next12(addend: bv64)
    ensures Add64(false, addend & 0xfff, ((addend >> 12) & 0xfff) << 12) == addend & 0xff_ffff
    ensures ((addend >> 12) & 0xfff) <= 0xfff
  {}

  lemma Rest(addend: bv64)
    ensures Add64(false, addend & 0xff_ffff, addend & !0xff_ffff) == addend
  {}

  lemma NoNext12(addend: bv64)
    requires addend <= 0xfff || addend & 0xff_f000 == 0
    ensures addend & 0xff_ffff == addend & 0xfff
  {}

  lemma NoRest(addend: bv64)
    requires addend <= 0xff_ffff
    ensures addend & 0xff_ffff == addend
  {}

  /** The part in bits 0 to 11. */
  method AddLow(r: Reg, addend: bv64) returns (code: seq<Word>)
    requires r < 31
    ensures AddsConst(code, r, addend & 0xfff) && |code| == if addend & 0xfff != 0 then 1 else 0
  {
    hide AddsConst, AddCode, Add64;
    code := [];
    NothingAdded(r);
    Low12(addend);
    if addend & 0xfff != 0 {
      forall x: Regs
        ensures Exec(Decode(AddCode(0, r, addend & 0xfff)), x) ==
          Some(x[X(r) := Add64(false, x[X(r)], addend & 0xfff)])
      {
        AddImmExec(r, addend & 0xfff, x);
      }
      AddsNext(code, 0, AddCode(0, r, addend & 0xfff), r, addend & 0xfff);
      code := code + [AddCode(0, r, addend & 0xfff)];
    } else {
      AddsAre(code, r, 0, addend & 0xfff);
    }
  }

  /** The part in bits 12 to 23. */
  method AddNext(r: Reg, addend: bv64, low: seq<Word>) returns (code: seq<Word>)
    requires r < 31 && AddsConst(low, r, addend & 0xfff)
    ensures AddsConst(code, r, addend & 0xff_ffff)
    ensures |code| == |low| + if addend & 0xff_f000 != 0 then 1 else 0
  {
    hide AddsConst, AddCode, Add64;
    code := low;
    Next12(addend);
    var v := (addend >> 12) & 0xfff;
    if addend & 0xff_f000 != 0 {
      forall x: Regs ensures Exec(Decode(AddCode(1, r, v)), x) == Some(x[X(r) := Add64(false, x[X(r)], v << 12)]) {
        AddImmExec(r, v, x);
      }
      AddsNext(code, addend & 0xfff, AddCode(1, r, v), r, v << 12);
      code := code + [AddCode(1, r, v)];
    } else {
      NoNext12(addend);
      AddsAre(code, r, addend & 0xfff, addend & 0xff_ffff);
    }
  }

  /** arm64_add_offset: for every constant the code adds it to register r, and leaves every other
      register as it was; memory may change only in the doubleword just below the stack pointer. */
  method AddOffset(r: Reg, addend: bv64) returns (code: seq<Word>)
    requires r < 31
    ensures AddsConst(code, r, addend)
    ensures addend == 0 ==> code == []
    ensures addend <= 0xff_ffff ==>
      |code| == (if addend & 0xfff != 0 then 1 else 0) + if addend & 0xff_f000 != 0 then 1 else 0
  {
    hide AddsConst, Add64, Sets;
    code := [];
    if addend == 0 {
      NothingAdded(r);
      return;
    }
    code := AddLow(r, addend);
    if addend <= 0xfff {
      NoNext12(addend);
      NoRestLow(addend);
      NoMiddle(addend);
      AddsAre(code, r, addend & 0xfff, addend);
      return;
    }
    code := AddNext(r, addend, code);
    if addend <= 0xff_ffff {
      NoRest(addend);
      AddsAre(code, r, addend & 0xff_ffff, addend);
      return;
    }
    var t: Reg := if r != 0 then 0 else 1;
    var mov := Movimm(t, addend & !0xff_ffff);
    Rest(addend);
    AddsByStack(code, addend & 0xff_ffff, mov, r, t, addend & !0xff_ffff);
    code := code + [0xf800_0000 | 0x001f_0fe0 | t] + mov + [0x0b00_0000 | (1 << 31) | (t << 16) | (r << 5) | r]
            + [0xf840_0000 | 0x0001_07e0 | t];
  }

  lemma NoMiddle(addend: bv64)
    requires addend <= 0xfff
    ensures addend & 0xff_f000 == 0
  {}

  lemma NoRestLow(addend: bv64)
    requires addend <= 0xfff
    ensures addend & 0xfff == addend
  {}

  // arm64_spoff

  /** ADD (immediate) of the stack pointer */
  function SpoffImm(reg: Reg, v: bv64): Word {
    Trunc(0x1100_0000 | (1 << 31) | (31 << 5) | (reg as bv64) | (v << 10))
  }

  lemma SpoffImmWord(reg: Reg, v: bv64)
    requires v <= 0xfff
    ensures Decode(SpoffImm(reg, v)) == AddSubImm(1, 0, 0, v, 31, reg)
  {}

  lemma SpoffRegWord(reg: Reg, sub: bv32)
    requires sub < 2
    ensures Decode(0x0b00_0000 | (1 << 31) | (30 << 16) | (31 << 5) | reg | (sub << 30)) ==
      AddSubReg(1, sub, 30, 31, reg)
  {}

  /** The code leaves the stack pointer plus off in register reg, and changes no other register but x30. */
  ghost predicate SetsFromSp(code: seq<Word>, reg: Reg, off: bv64) {
    forall s: Regs :: LeavesSum(Execute(code, s), s, reg, off)
  }

  ghost predicate LeavesSum(t: Option<Regs>, s: Regs, reg: bv32, off: bv64) {
    && t.Some? && t.value[X(reg)] == Add64(false, s[X(31)], off)
    && forall g :: g != X(reg) && g != X(30) ==> t.value[g] == s[g]
  }

  /** The absolute value of an offset and whether it is negative. */
  function OffsetSize(off: bv64): bv64 {
    if off >> 63 == 1 then -off else off
  }

  lemma OffsetSizeIs(off: bv64)
    ensures OffsetSize(off) == if off >= 0x8000_0000_0000_0000 then -off else off
  {}

  lemma SizeOfSmall(off: bv64)
    requires OffsetSize(off) < 4096
    ensures OffsetSize(off) <= 0xfff && (off < 4096 ==> OffsetSize(off) == off)
    ensures off >= 4096 ==> Add64(false, 1, OffsetSize(off)) != Add64(false, 1, off)
  {}

  lemma SizeOfLarge(off: bv64)
    requires OffsetSize(off) >= 4096
    ensures off >= 4096
  {}

  lemma LargeSum(off: bv64)
    ensures Add64(off >> 63 == 1, 0, OffsetSize(off)) == off && Add64(false, 1, off) != off
  {}

  /** What the code does to a state. */
  lemma SpoffSmall(w: Word, reg: Reg, off: bv64, s: Regs)
    requires reg < 31 && OffsetSize(off) < 4096 && Decode(w) == AddSubImm(1, 0, 0, OffsetSize(off), 31, reg)
    ensures Execute([w], s) == Some(s[X(reg) := Add64(false, s[X(31)], OffsetSize(off))])
  {
    hide Exec, Decode, Add64, Add32, OffsetSize;
    ExecuteSnoc([], w, s);
    assert [] + [w] == [w];
    ExecAddImm(1, 0, OffsetSize(off), 31, reg, s);
  }

  lemma SpoffLarge(mov: seq<Word>, w: Word, reg: Reg, off: bv64, sub: bv32, s: Regs)
    requires reg < 31 && Sets(mov, 30, OffsetSize(off)) && sub == (if off >> 63 == 1 then 1 else 0)
    requires Decode(w) == AddSubReg(1, sub, 30, 31, reg)
    ensures Execute(mov + [w], s) == Some(s[X(30) := OffsetSize(off)][X(reg) := off])
  {
    hide Exec, Decode, Add64, Add32, OffsetSize;
    assert Execute(mov, s) == Some(s[X(30) := OffsetSize(off)]);
    ExecuteSnoc(mov, w, s);
    var t: Regs := s[X(30) := OffsetSize(off)];
    ExecAddReg(1, sub, 30, 31, reg, t);
    LargeSum(off);
  }

  lemma SpoffSmallExact(w: Word, reg: Reg, off: bv64)
    requires reg < 31 && OffsetSize(off) < 4096 && Decode(w) == AddSubImm(1, 0, 0, OffsetSize(off), 31, reg)
    ensures SetsFromSp([w], reg, off) <==> off < 4096
  {
    hide Decode, OffsetSize, Add64, Execute;
    SizeOfSmall(off);
    if off < 4096 {
      forall s: Regs ensures LeavesSum(Execute([w], s), s, reg, off) {
        SpoffSmall(w, reg, off, s);
      }
    } else {
      var one: Regs := imap g: Gpr :: OneInSp(g);
      SpoffSmall(w, reg, off, one);
      assert !LeavesSum(Execute([w], one), one, reg, off);
    }
  }

  /** For offset -8 into register 0 the instruction written is add x0, sp, #8. */
  lemma SpoffNegative()
    ensures var w := SpoffImm(0, OffsetSize(0xffff_ffff_ffff_fff8));
      w == 0x9100_23e0 && Decode(w) == AddSubImm(1, 0, 0, 8, 31, 0) && !SetsFromSp([w], 0, 0xffff_ffff_ffff_fff8)
  {
    hide Decode, SetsFromSp;
    SpoffImmWord(0, 8);
    SpoffSmallExact(SpoffImm(0, 8), 0, 0xffff_ffff_ffff_fff8);
  }

  lemma SpoffLargeWrong(mov: seq<Word>, w: Word, reg: Reg, off: bv64, sub: bv32)
    requires reg < 31 && Sets(mov, 30, OffsetSize(off)) && sub == (if off >> 63 == 1 then 1 else 0)
    requires Decode(w) == AddSubReg(1, sub, 30, 31, reg)
    ensures !SetsFromSp(mov + [w], reg, off)
  {
    hide Decode, OffsetSize, Add64, Execute, Sets;
    var one: Regs := imap g: Gpr :: OneInSp(g);
    SpoffLarge(mov, w, reg, off, sub, one);
    LargeSum(off);
    assert one[X(31)] == 1;
    assert !LeavesSum(Execute(mov + [w], one), one, reg, off);
  }

  /** Where it is wrong, what is left in reg: the stack pointer plus the size of a small offset, or a large offset
      alone. */
  ghost predicate SpoffLeaves(code: seq<Word>, reg: Reg, off: bv64, v: bv64) {
    forall s: Regs :: Execute(code, s) ==
      Some(if v < 4096 then s[X(reg) := Add64(false, s[X(31)], v)] else s[X(30) := v][X(reg) := off])
  }

  lemma SmallLeaves(w: Word, reg: Reg, off: bv64)
    requires reg < 31 && OffsetSize(off) < 4096 && Decode(w) == AddSubImm(1, 0, 0, OffsetSize(off), 31, reg)
    ensures SpoffLeaves([w], reg, off, OffsetSize(off))
  {
    hide Decode, OffsetSize, Add64, Execute;
    forall s: Regs ensures Execute([w], s) == Some(s[X(reg) := Add64(false, s[X(31)], OffsetSize(off))]) {
      SpoffSmall(w, reg, off, s);
    }
  }

  lemma LargeLeaves(mov: seq<Word>, w: Word, reg: Reg, off: bv64, sub: bv32)
    requires reg < 31 && Sets(mov, 30, OffsetSize(off)) && sub == (if off >> 63 == 1 then 1 else 0)
    requires OffsetSize(off) >= 4096 && Decode(w) == AddSubReg(1, sub, 30, 31, reg)
    ensures SpoffLeaves(mov + [w], reg, off, OffsetSize(off))
  {
    hide Decode, OffsetSize, Add64, Execute, Sets;
    forall s: Regs ensures Execute(mov + [w], s) == Some(s[X(30) := OffsetSize(off)][X(reg) := off]) {
      SpoffLarge(mov, w, reg, off, sub, s);
    }
  }

  /** arm64_spoff. The code sets reg to the stack pointer plus off just when off is below 4096: a negative
      offset that is small is added instead of subtracted, and for larger ones register 31 of the
      instruction is the zero register and not the stack pointer. */
  method Spoff(reg: Reg, off: bv64) returns (code: seq<Word>)
    requires reg < 31
    ensures SetsFromSp(code, reg, off) <==> off < 4096
    ensures SpoffLeaves(code, reg, off, OffsetSize(off))
  {
    hide Decode, Trunc, OffsetSize, Sets, SetsFromSp, SpoffLeaves, Execute, Add64;
    var v := OffsetSize(off);
    if v < 4096 {
      SizeOfSmall(off);
      SpoffImmWord(reg, v);
      var w := SpoffImm(reg, v);
      SpoffSmallExact(w, reg, off);
      SmallLeaves(w, reg, off);
      code := [w];
    } else {
      SizeOfLarge(off);
      code := Movimm(30, v);
      var sub: bv32 := if off >> 63 == 1 then 1 else 0;
      SpoffRegWord(reg, sub);
      var w := 0x0b00_0000 | (1 << 31) | (30 << 16) | (31 << 5) | reg | (sub << 30);
      SpoffLargeWrong(code, w, reg, off, sub);
      LargeLeaves(code, w, reg, off, sub);
      code := code + [w];
    }
  }

  function OneInSp(g: Gpr): bv64 {
    if g == X(31) then 1 else 0
  }
}
