/** Lists of branches to be patched, threaded through the branch words in the code buffer: by their
    displacements in A32 (src/arm-gen.c), by plain offsets in A64 (src/arm64-gen.c). */
module JumpLists {
  import opened Options
  import opened Bits

  type Word = w: int | 0 <= w < 0x1_0000_0000

  const B24: int := 0x100_0000

  // A32 branches

  /** Division of C, toward zero. */
  function Quarter(x: int): int {
    if x >= 0 then x / 4 else -(-x / 4)
  }

  /** encbranch, none where it gives up */
  function EncBranch(pos: int, addr: int): Option<Word> {
    var d := Quarter(addr - (pos + 8));
    if d >= 0x100_0000 || d < -0x100_0000 then None else Some(0x0a00_0000 + d % B24)
  }

  /** encbranch encodes exactly the displacements of less than 64 MB, rounded toward zero to words. */
  lemma EncBranchExact(pos: int, addr: int)
    ensures var x := addr - pos - 8;
      && (EncBranch(pos, addr).Some? <==> -0x400_0003 <= x < 0x400_0000)
      && (EncBranch(pos, addr).Some? ==>
            EncBranch(pos, addr).value == 0xa00_0000 + (if x >= 0 then x / 4 else -(-x / 4)) % 0x100_0000)
  {}

  function SignExtend24(x: int): int {
    if x >= 0x80_0000 then x - B24 else x
  }

  /** decbranch of the word at pos */
  function DecBranch(w: Word, pos: int): int {
    SignExtend24(w % B24) * 4 + pos + 8
  }

  /** What the 24 bits of a branch can reach. */
  predicate IsNear(pos: int, addr: int) {
    (addr - pos) % 4 == 0 && -0x200_0000 <= addr - pos - 8 < 0x200_0000
  }

  lemma LowBits(d: int)
    ensures (0x0a00_0000 + d % B24) % B24 == d % B24
  {}

  /** decbranch undoes encbranch just for the displacements that 24 bits hold; the range that encbranch
      lets pass is twice as wide. */
  lemma EncDec(pos: int, addr: int, w: Word)
    requires EncBranch(pos, addr).Some? && w % B24 == EncBranch(pos, addr).value % B24
    ensures DecBranch(w, pos) == addr <==> IsNear(pos, addr)
  {}

  /** A branch of 32 MB and 8 bytes is written, and leads elsewhere. */
  lemma FarBranch()
    ensures EncBranch(0, 0x200_0008).Some? && DecBranch(EncBranch(0, 0x200_0008).value, 0) != 0x200_0008
  {}

  /** The word with its low 24 bits cleared, or e. */
  function Redirected(w: Word, e: Word): nat {
    Or(w / B24 * B24, e)
  }

  predicate IsBranch(w: Word) {
    w / B24 % 16 == 10
  }

  /** Only the displacement changes: the condition and the branch bits stay. */
  lemma RedirectedFields(w: Word, pos: int, addr: int)
    requires IsBranch(w) && EncBranch(pos, addr).Some?
    ensures var r := Redirected(w, EncBranch(pos, addr).value);
            r < 0x1_0000_0000 && r / B24 == w / B24 && r % B24 == EncBranch(pos, addr).value % B24
  {
    hide Pow2, Or;
    var hi, lo := w / B24, Quarter(addr - (pos + 8)) % B24;
    Pow24();
    OrShift(hi, 10, 24, lo);
    OrTen(hi);
    LowBits(Quarter(addr - (pos + 8)));
  }

  lemma Pow24()
    ensures Pow2(24) == B24
  {
    Pow2Of32();
    Pow2Sum(8, 16);
  }

  lemma OrTen(hi: nat)
    requires hi % 16 == 10
    ensures Or(hi, 10) == hi
  {
    hide Pow2;
    var k := hi / 16;
    assert hi == 16 * k + 10;
    assert Or(2 * k + 1, 1) == 2 * k + 1;
    assert Or(4 * k + 2, 2) == 4 * k + 2;
    assert Or(8 * k + 5, 5) == 8 * k + 5;
    assert Or(16 * k + 10, 10) == 16 * k + 10;
  }

  // Lists

  datatype Target = A32 | A64

  /** The offset of the next branch of a list, as the word at t tells it; 0 ends the list. */
  function Link(m: Target, w: Word, t: int): int {
    if m == A32 then DecBranch(w, t) else w
  }

  predicate InCode(code: seq<Word>, t: int) {
    t > 0 && t % 4 == 0 && t / 4 < |code|
  }

  function At(code: seq<Word>, t: int): Word
    requires InCode(code, t)
  {
    code[t / 4]
  }

  /** list holds the offsets of the branches of the list that starts at t. */
  predicate IsChain(m: Target, code: seq<Word>, t: int, list: seq<int>)
    decreases |list|
  {
    if t == 0 then list == []
    else
      && list != [] && list[0] == t && InCode(code, t) && (m == A32 ==> IsBranch(At(code, t)))
      && IsChain(m, code, Link(m, At(code, t), t), list[1..])
  }

  lemma {:induction false} ChainUnique(m: Target, code: seq<Word>, t: int, p: seq<int>, q: seq<int>)
    requires IsChain(m, code, t, p) && IsChain(m, code, t, q)
    ensures p == q
    decreases |p|
  {
    if t != 0 {
      ChainUnique(m, code, Link(m, At(code, t), t), p[1..], q[1..]);
      assert p == [t] + p[1..] && q == [t] + q[1..];
    }
  }

  /** From each member on, the rest of the list is its list. */
  lemma {:induction false} ChainSuffix(m: Target, code: seq<Word>, t: int, list: seq<int>, i: nat)
    requires IsChain(m, code, t, list) && i < |list|
    ensures IsChain(m, code, list[i], list[i..])
    decreases i
  {
    if i > 0 {
      ChainSuffix(m, code, Link(m, At(code, t), t), list[1..], i - 1);
      assert list[1..][i - 1..] == list[i..];
    } else {
      assert list[0..] == list;
    }
  }

  /** A list that ends has no branch twice. */
  lemma ChainDistinct(m: Target, code: seq<Word>, t: int, list: seq<int>)
    requires IsChain(m, code, t, list)
    ensures forall i, j :: 0 <= i < j < |list| ==> list[i] != list[j]
  {
    forall i, j | 0 <= i < j < |list| ensures list[i] != list[j] {
      if list[i] == list[j] {
        ChainSuffix(m, code, t, list, i);
        ChainSuffix(m, code, t, list, j);
        ChainUnique(m, code, list[i], list[i..], list[j..]);
      }
    }
  }

  /** Words outside a list do not matter to it. */
  lemma {:induction false} ChainFrame(m: Target, code: seq<Word>, other: seq<Word>, t: int, list: seq<int>)
    requires IsChain(m, code, t, list) && |other| == |code|
    requires forall p :: p in list && InCode(code, p) ==> At(other, p) == At(code, p)
    ensures IsChain(m, other, t, list)
    decreases |list|
  {
    if t != 0 {
      assert t in list;
      ChainFrame(m, code, other, Link(m, At(code, t), t), list[1..]);
    }
  }

  /** The part of a list up to where it has come to u, and what follows there. */
  lemma {:induction false} ChainSplice(m: Target, code: seq<Word>, t: int, p: seq<int>, u: int, q: seq<int>)
    requires p != [] && forall i :: 0 <= i < |p| ==> InCode(code, p[i]) && (m == A32 ==> IsBranch(At(code, p[i])))
    requires p[0] == t && t != 0 && forall i :: 0 <= i < |p| - 1 ==> Link(m, At(code, p[i]), p[i]) == p[i + 1]
    requires Link(m, At(code, p[|p| - 1]), p[|p| - 1]) == u && IsChain(m, code, u, q)
    ensures IsChain(m, code, t, p + q)
    decreases |p|
  {
    assert (p + q)[1..] == p[1..] + q;
    if |p| == 1 {
      assert p[1..] + q == q;
    } else {
      ChainSplice(m, code, p[1], p[1..], u, q);
    }
  }

  lemma {:induction false} ChainMembers(m: Target, code: seq<Word>, t: int, list: seq<int>)
    requires IsChain(m, code, t, list)
    ensures forall i :: 0 <= i < |list| ==> InCode(code, list[i]) && (m == A32 ==> IsBranch(At(code, list[i])))
    ensures forall i :: 0 <= i < |list| - 1 ==> Link(m, At(code, list[i]), list[i]) == list[i + 1]
    ensures list != [] ==> list[0] == t != 0 && Link(m, At(code, list[|list| - 1]), list[|list| - 1]) == 0
    decreases |list|
  {
    if t != 0 {
      var u := Link(m, At(code, t), t);
      ChainMembers(m, code, u, list[1..]);
      assert forall i :: 0 < i < |list| ==> list[i] == list[1..][i - 1];
    }
  }

  // Patching

  const NOP_A32: Word := 0xe1a0_0000
  const NOP_A64: Word := 0xd503_201f

  /** Control goes from the word at p to a. */
  predicate GoesTo(m: Target, w: Word, p: int, a: int) {
    if m == A32 then (w == NOP_A32 && a == p + 4) || (IsBranch(w) && DecBranch(w, p) == a)
    else (w == NOP_A64 && a == p + 4) || (w / 0x400_0000 == 5 && SignExtend26(w % 0x400_0000) * 4 + p == a)
  }

  function SignExtend26(x: int): int {
    if x >= 0x200_0000 then x - 0x400_0000 else x
  }

  /** The range test that gsym_addr makes before it writes a branch. */
  predicate Passes(m: Target, p: int, a: int) {
    a - p == 4 || if m == A32 then EncBranch(p, a).Some? else (a - p + 0x800_0000) % 0x1_0000_0000 < 0x1000_0000
  }

  /** What gsym_addr makes of the word at p. */
  function Patched(m: Target, w: Word, p: int, a: int): (r: nat)
    requires Passes(m, p, a) && (m == A32 ==> IsBranch(w))
    ensures r < 0x1_0000_0000
  {
    if m == A32 then
      if a == p + 4 then NOP_A32
      else
        RedirectedFields(w, p, a);
        Redirected(w, EncBranch(p, a).value)
    else
      if (a - p) % 0x1_0000_0000 == 4 then NOP_A64 else 0x1400_0000 + (a - p) % 0x1_0000_0000 / 4 % 0x400_0000
  }

  predicate Sound(m: Target, p: int, a: int) {
    a == p + 4 || (if m == A32 then IsNear(p, a) else (a - p) % 4 == 0)
  }

  /** Where some words lead: branches forward, to themselves and back, and the two that do nothing. */
  lemma KnownBranches(p: int, a: int)
    ensures GoesTo(A32, 0xea00_0000, p, a) <==> a == p + 8
    ensures GoesTo(A32, 0x0a00_0001, p, a) <==> a == p + 12
    ensures GoesTo(A32, 0xeaff_fffe, p, a) <==> a == p
    ensures GoesTo(A32, 0xea80_0000, p, a) <==> a == p + 8 - 0x200_0000
    ensures GoesTo(A32, 0xe1a0_0000, p, a) <==> a == p + 4
    ensures GoesTo(A64, 0x1400_0001, p, a) <==> a == p + 4
    ensures GoesTo(A64, 0x17ff_ffff, p, a) <==> a == p - 4
    ensures GoesTo(A64, 0x1600_0000, p, a) <==> a == p - 0x800_0000
    ensures GoesTo(A64, 0xd503_201f, p, a) <==> a == p + 4
  {}

  /** Lists of two branches, at 8 and 4: through displacements, and through plain offsets. */
  lemma KnownLists()
    ensures IsChain(A32, [0, 0xeaff_fffd, 0xeaff_fffd], 8, [8, 4]) && IsChain(A64, [0, 0, 4], 8, [8, 4])
  {
    assert DecBranch(0xeaff_fffd, 8) == 4 && DecBranch(0xeaff_fffd, 4) == 0;
    var code: seq<Word> := [0, 0xeaff_fffd, 0xeaff_fffd];
    assert [8, 4][1..] == [4] && [4][1..] == [];
    assert IsChain(A32, code, 0, []) && IsChain(A32, code, 4, [4]);
    var plain: seq<Word> := [0, 0, 4];
    assert IsChain(A64, plain, 0, []) && IsChain(A64, plain, 4, [4]);
  }

  /** The range test, by displacements. */
  lemma PassesExact(m: Target, p: int, a: int)
    requires 0 <= p < 0x8000_0000 && 0 <= a < 0x8000_0000
    ensures Passes(m, p, a) <==>
      if m == A32 then -0x400_0003 <= a - p - 8 < 0x400_0000 else -0x800_0000 <= a - p < 0x800_0000
  {
    hide EncBranch;
    EncBranchExact(p, a);
  }

  /** The word written: the old condition, or an unconditional branch in A64, with the displacement in words. */
  lemma PatchedExact(m: Target, w: Word, p: int, a: int)
    requires Passes(m, p, a) && (m == A32 ==> IsBranch(w)) && 0 <= p < 0x8000_0000 && 0 <= a < 0x8000_0000
    ensures var x := a - p - 8;
      Patched(m, w, p, a) ==
        if a == p + 4 then (if m == A32 then 0xe1a0_0000 else 0xd503_201f)
        else if m == A32 then w / 0x100_0000 * 0x100_0000 + (if x >= 0 then x / 4 else -(-x / 4)) % 0x100_0000
        else 0x1400_0000 + (if a >= p then (a - p) / 4 else (a - p + 0x1000_0000) / 4)
  {
    hide EncBranch, Redirected;
    if a != p + 4 && m == A32 {
      EncBranchExact(p, a);
      RedirectedFields(w, p, a);
    }
    if m == A64 {
      PassesA64(p, a);
      WordsOfA64(a - p);
    }
  }

  lemma WordsOfA64(d: int)
    requires -0x800_0000 <= d < 0x800_0000
    ensures d % 0x1_0000_0000 / 4 % 0x400_0000 == if d >= 0 then d / 4 else (d + 0x1000_0000) / 4
  {}

  lemma GoesA32(w: Word, p: int, a: int)
    requires Passes(A32, p, a) && IsBranch(w)
    ensures GoesTo(A32, Patched(A32, w, p, a), p, a) <==> Sound(A32, p, a)
    ensures a != p + 4 ==> Patched(A32, w, p, a) / B24 == w / B24
  {
    hide Redirected;
    if a != p + 4 {
      RedirectedFields(w, p, a);
      EncDec(p, a, Redirected(w, EncBranch(p, a).value));
    }
  }

  /** The 26 bits for a displacement in range stand for it just when it is aligned. */
  lemma Field26(d: int)
    requires -0x800_0000 <= d < 0x800_0000
    ensures SignExtend26(d % 0x1_0000_0000 / 4 % 0x400_0000) * 4 == d <==> d % 4 == 0
  {
    if d >= 0 { Field26Forward(d); } else { Field26Backward(d); }
  }

  lemma Field26Forward(d: int)
    requires 0 <= d < 0x800_0000
    ensures SignExtend26(d % 0x1_0000_0000 / 4 % 0x400_0000) * 4 == d <==> d % 4 == 0
  {
    UniqueQuotient(d / 0x1_0000_0000, d % 0x1_0000_0000, 0, d, 0x1_0000_0000);
    UniqueQuotient(d / 4 / 0x400_0000, d / 4 % 0x400_0000, 0, d / 4, 0x400_0000);
  }

  lemma Field26Backward(d: int)
    requires -0x800_0000 <= d < 0
    ensures SignExtend26(d % 0x1_0000_0000 / 4 % 0x400_0000) * 4 == d <==> d % 4 == 0
  {
    var u := d + 0x1_0000_0000;
    UniqueQuotient(d / 0x1_0000_0000, d % 0x1_0000_0000, -1, u, 0x1_0000_0000);
    UniqueQuotient(u / 4 / 0x400_0000, u / 4 % 0x400_0000, 15, u / 4 - 0x3c00_0000, 0x400_0000);
  }

  lemma PassesA64(p: int, a: int)
    requires Passes(A64, p, a) && 0 <= p < 0x8000_0000 && 0 <= a < 0x8000_0000
    ensures -0x800_0000 <= a - p < 0x800_0000 && ((a - p) % 0x1_0000_0000 == 4 <==> a == p + 4)
  {}

  lemma BranchParts(x: int)
    requires 0 <= x < 0x400_0000
    ensures (0x1400_0000 + x) / 0x400_0000 == 5 && (0x1400_0000 + x) % 0x400_0000 == x
  {}

  lemma GoesA64(w: Word, p: int, a: int)
    requires Passes(A64, p, a) && 0 <= p < 0x8000_0000 && 0 <= a < 0x8000_0000
    ensures GoesTo(A64, Patched(A64, w, p, a), p, a) <==> Sound(A64, p, a)
  {
    hide SignExtend26;
    PassesA64(p, a);
    Field26(a - p);
    BranchParts((a - p) % 0x1_0000_0000 / 4 % 0x400_0000);
  }

  /** A patched word leads to a just when the displacement is aligned and, in A32, near enough. */
  lemma PatchedGoes(m: Target, w: Word, p: int, a: int)
    requires Passes(m, p, a) && (m == A32 ==> IsBranch(w)) && 0 <= p < 0x8000_0000 && 0 <= a < 0x8000_0000
    ensures GoesTo(m, Patched(m, w, p, a), p, a) <==> Sound(m, p, a)
  {
    if m == A32 { GoesA32(w, p, a); } else { GoesA64(w, p, a); }
  }

  lemma ChainEmpty(m: Target, code: seq<Word>, t: int, list: seq<int>)
    requires IsChain(m, code, t, list)
    ensures t == 0 <==> list == []
  {}

  /** The body of the loop of gsym_addr: the new word for the branch w at p. */
  method PatchWord(m: Target, w: Word, p: int, a: int) returns (r: Option<Word>)
    requires m == A32 ==> IsBranch(w)
    ensures r.Some? <==> Passes(m, p, a)
    ensures r.Some? ==> r.value == Patched(m, w, p, a)
  {
    if m == A32 {
      if a == p + 4 {
        return Some(NOP_A32);
      }
      var e := EncBranch(p, a);
      if e.None? {
        return None;
      }
      RedirectedFields(w, p, a);
      return Some(Redirected(w, e.value));
    }
    var d := (a - p) % 0x1_0000_0000;
    if (d + 0x800_0000) % 0x1_0000_0000 >= 0x1000_0000 {
      return None;
    }
    return Some(if d == 4 then NOP_A64 else 0x1400_0000 + d / 4 % 0x400_0000);
  }

  /** The list holds offsets of branches. */
  predicate AreBranches(m: Target, code: seq<Word>, list: seq<int>) {
    forall k :: 0 <= k < |list| ==> IsBranchAt(m, code, list[k])
  }

  predicate IsBranchAt(m: Target, code: seq<Word>, p: int) {
    InCode(code, p) && (m == A32 ==> IsBranch(At(code, p)))
  }

  /** The first i branches of the list are patched, and no other word. */
  ghost predicate PatchedTo(m: Target, was: seq<Word>, now: seq<Word>, list: seq<int>, a: int, i: nat)
    requires |now| == |was| && i <= |list|
    requires AreBranches(m, was, list)
  {
    && (forall k :: i <= k < |list| ==> IsBranchAt(m, was, list[k]) && At(now, list[k]) == At(was, list[k]))
    && (forall k :: 0 <= k < i ==>
          && IsBranchAt(m, was, list[k]) && Passes(m, list[k], a)
          && At(now, list[k]) == Patched(m, At(was, list[k]), list[k], a))
    && (forall j :: 0 <= j < |was| && 4 * j !in list ==> now[j] == was[j])
  }

  lemma PatchedNext(m: Target, was: seq<Word>, now: seq<Word>, list: seq<int>, a: int, i: nat, w: Word)
    requires |now| == |was| && i < |list|
    requires AreBranches(m, was, list)
    requires forall j, k :: 0 <= j < k < |list| ==> list[j] != list[k]
    requires PatchedTo(m, was, now, list, a, i) && Passes(m, list[i], a)
    requires IsBranchAt(m, was, list[i]) && w == Patched(m, At(was, list[i]), list[i], a)
    ensures PatchedTo(m, was, now[list[i] / 4 := w], list, a, i + 1)
  {
    hide Passes, Patched, IsBranch;
    var p := list[i];
    assert 4 * (p / 4) == p;
    forall k | 0 <= k < |list| && k != i ensures IsBranchAt(m, was, list[k]) && list[k] / 4 != p / 4 {
      assert list[k] == 4 * (list[k] / 4);
    }
  }

  lemma PatchedAll(m: Target, was: seq<Word>, now: seq<Word>, list: seq<int>, a: int)
    requires |now| == |was| <= 0x2000_0000 && 0 <= a < 0x8000_0000
    requires AreBranches(m, was, list)
    requires PatchedTo(m, was, now, list, a, |list|)
    ensures forall p :: p in list ==>
      IsBranchAt(m, was, p) && Passes(m, p, a) && At(now, p) == Patched(m, At(was, p), p, a)
    ensures forall p :: p in list ==> (GoesTo(m, At(now, p), p, a) <==> Sound(m, p, a))
  {
    hide Patched, GoesTo, Passes, Sound, IsBranch;
    forall p | p in list
      ensures IsBranchAt(m, was, p) && Passes(m, p, a) && At(now, p) == Patched(m, At(was, p), p, a)
      ensures GoesTo(m, At(now, p), p, a) <==> Sound(m, p, a)
    {
      var k :| 0 <= k < |list| && list[k] == p;
      PatchedGoes(m, At(was, p), p, a);
    }
  }

  lemma AllPass(m: Target, code: seq<Word>, list: seq<int>, a: int)
    requires AreBranches(m, code, list) && |code| <= 0x2000_0000 && 0 <= a < 0x8000_0000
    ensures forall p :: p in list ==>
      (Passes(m, p, a) <==>
        if m == A32 then -0x400_0003 <= a - p - 8 < 0x400_0000 else -0x800_0000 <= a - p < 0x800_0000)
  {
    hide Passes, IsBranch;
    forall p | p in list
      ensures Passes(m, p, a) <==>
        if m == A32 then -0x400_0003 <= a - p - 8 < 0x400_0000 else -0x800_0000 <= a - p < 0x800_0000
    {
      var k :| 0 <= k < |list| && list[k] == p;
      assert IsBranchAt(m, code, list[k]);
      PassesExact(m, p, a);
    }
  }

  /** gsym_addr: every branch of the list is patched, and no other word; it gives up when one is out
      of the range that it tests. */
  method GsymAddr(m: Target, code: array<Word>, t0: int, a: int, ghost list: seq<int>) returns (ok: bool)
    requires IsChain(m, code[..], t0, list) && 0 <= a < 0x8000_0000 && code.Length <= 0x2000_0000
    modifies code
    ensures ok <==> forall p :: p in list ==>
      if m == A32 then -0x400_0003 <= a - p - 8 < 0x400_0000 else -0x800_0000 <= a - p < 0x800_0000
    ensures forall p :: p in list ==> IsBranchAt(m, old(code[..]), p) && InCode(code[..], p)
    ensures ok ==> forall p :: p in list ==>
      && InCode(old(code[..]), p) && Passes(m, p, a) && (m == A32 ==> IsBranch(At(old(code[..]), p)))
      && At(code[..], p) == Patched(m, At(old(code[..]), p), p, a)
    ensures ok ==> forall p :: p in list ==>
      (GoesTo(m, At(code[..], p), p, a) <==>
         a == p + 4 || ((a - p) % 4 == 0 && (m == A32 ==> -0x200_0000 <= a - p - 8 < 0x200_0000)))
    ensures forall i :: 0 <= i < code.Length && 4 * i !in list ==> code[i] == old(code[i])
  {
    hide IsChain, Patched, GoesTo, Passes, IsBranch, PatchedTo;
    ghost var was := code[..];
    ChainMembers(m, was, t0, list);
    ChainDistinct(m, was, t0, list);
    ChainEmpty(m, was, t0, list);
    PatchedNone(m, was, list, a);
    AllPass(m, was, list, a);
    var t := t0;
    ghost var i := 0;
    while t != 0
      invariant 0 <= i <= |list| && t == if i < |list| then list[i] else 0
      invariant PatchedTo(m, was, code[..], list, a, i)
      decreases |list| - i
    {
      PatchedRest(m, was, code[..], list, a, i);
      var lt := t;
      t := Link(m, code[lt / 4], lt);
      var w := PatchWord(m, code[lt / 4], lt, a);
      if w.None? {
        assert list[i] in list;
        return false;
      }
      PatchedNext(m, was, code[..], list, a, i, w.value);
      code[lt / 4] := w.value;
      i := i + 1;
    }
    PatchedRest(m, was, code[..], list, a, i);
    PatchedAll(m, was, code[..], list, a);
    ok := true;
  }

  lemma PatchedNone(m: Target, was: seq<Word>, list: seq<int>, a: int)
    requires AreBranches(m, was, list)
    ensures PatchedTo(m, was, was, list, a, 0)
  {}

  /** What is not patched yet, and what is not in the list. */
  lemma PatchedRest(m: Target, was: seq<Word>, now: seq<Word>, list: seq<int>, a: int, i: nat)
    requires |now| == |was| && i <= |list|
    requires AreBranches(m, was, list)
    requires PatchedTo(m, was, now, list, a, i)
    ensures i < |list| ==> IsBranchAt(m, was, list[i]) && At(now, list[i]) == At(was, list[i])
    ensures forall j :: 0 <= j < |was| && 4 * j !in list ==> now[j] == was[j]
  {}

  // Appending

  /** gjmp_append of A32: the last branch of list n is turned to t. The lists are joined just when that
      branch is near enough to t. */
  method GjmpAppendA32(code: array<Word>, n: int, t: int, ghost ln: seq<int>, ghost lt: seq<int>)
    returns (ok: bool, r: int)
    requires IsChain(A32, code[..], n, ln) && IsChain(A32, code[..], t, lt) && forall p :: p in ln ==> p !in lt
    modifies code
    ensures n == 0 ==> ok && r == t && code[..] == old(code[..])
    ensures n != 0 ==> (ok <==> -0x400_0003 <= t - ln[|ln| - 1] - 8 < 0x400_0000)
    ensures n != 0 && ok ==> r == n
    ensures n != 0 && ok ==>
      (IsChain(A32, code[..], r, ln + lt) <==>
         (t - ln[|ln| - 1]) % 4 == 0 && -0x200_0000 <= t - ln[|ln| - 1] - 8 < 0x200_0000)
    ensures forall i :: 0 <= i < code.Length && (n == 0 || 4 * i != ln[|ln| - 1]) ==> code[i] == old(code[i])
  {
    hide IsChain, Redirected, IsBranch, DecBranch, EncBranch;
    ghost var was := code[..];
    ChainMembers(A32, was, n, ln);
    ChainDistinct(A32, was, n, ln);
    ChainEmpty(A32, was, n, ln);
    ok, r := true, t;
    if n != 0 {
      var p, lp := n, n;
      ghost var i := 0;
      p := DecBranch(code[lp / 4], lp);
      while p != 0
        invariant 0 <= i < |ln| && lp == ln[i] && p == if i + 1 < |ln| then ln[i + 1] else 0
        decreases |ln| - i
      {
        lp := p;
        i := i + 1;
        p := DecBranch(code[lp / 4], lp);
      }
      var e := EncBranch(lp, t);
      EncBranchExact(lp, t);
      if e.None? {
        return false, t;
      }
      RedirectedWord(At(was, lp), lp, t);
      code[lp / 4] := Redirected(code[lp / 4], e.value);
      JoinedA32(was, code[..], n, t, ln, lt);
      r := n;
    }
  }

  lemma RedirectedWord(w: Word, p: int, t: int)
    requires IsBranch(w) && EncBranch(p, t).Some?
    ensures var x := Redirected(w, EncBranch(p, t).value);
      x < 0x1_0000_0000 && IsBranch(x) && (DecBranch(x, p) == t <==> IsNear(p, t))
  {
    hide Redirected;
    RedirectedFields(w, p, t);
    EncDec(p, t, Redirected(w, EncBranch(p, t).value));
  }

  lemma JoinedA32(was: seq<Word>, now: seq<Word>, n: int, t: int, ln: seq<int>, lt: seq<int>)
    requires IsChain(A32, was, n, ln) && IsChain(A32, was, t, lt) && n != 0 && ln != []
    requires forall p :: p in ln ==> p !in lt
    requires InCode(was, ln[|ln| - 1]) && |now| == |was| && now == was[ln[|ln| - 1] / 4 := now[ln[|ln| - 1] / 4]]
    requires EncBranch(ln[|ln| - 1], t).Some?
    requires now[ln[|ln| - 1] / 4] == Redirected(was[ln[|ln| - 1] / 4], EncBranch(ln[|ln| - 1], t).value)
    ensures IsChain(A32, now, n, ln + lt) <==> IsNear(ln[|ln| - 1], t)
  {
    hide IsChain, Redirected, IsBranch, DecBranch, EncBranch, IsNear;
    var lp := ln[|ln| - 1];
    ChainMembers(A32, was, n, ln);
    ChainDistinct(A32, was, n, ln);
    ChainMembers(A32, was, t, lt);
    RedirectedWord(was[lp / 4], lp, t);
    SameElsewhere(was, now, ln, lt);
    if IsNear(lp, t) {
      ChainFrame(A32, was, now, t, lt);
      ChainSplice(A32, now, n, ln, t, lt);
    } else if IsChain(A32, now, n, ln + lt) {
      ChainEmpty(A32, was, t, lt);
      NextIs(A32, now, n, t, ln, lt);
      assert false;
    }
  }

  lemma SameElsewhere(was: seq<Word>, now: seq<Word>, ln: seq<int>, lt: seq<int>)
    requires ln != [] && forall i, j :: 0 <= i < j < |ln| ==> ln[i] != ln[j]
    requires (forall p :: p in ln ==> p !in lt) && InCode(was, ln[|ln| - 1])
    requires forall i :: 0 <= i < |ln| ==> InCode(was, ln[i])
    requires |now| == |was| && now == was[ln[|ln| - 1] / 4 := now[ln[|ln| - 1] / 4]]
    ensures forall i :: 0 <= i < |ln| - 1 ==> InCode(was, ln[i]) && At(now, ln[i]) == At(was, ln[i])
    ensures forall p :: p in lt && InCode(was, p) ==> At(now, p) == At(was, p)
  {}

  /** In a joined list the last branch of the first leads to the second. */
  lemma {:induction false} NextIs(m: Target, code: seq<Word>, n: int, t: int, ln: seq<int>, lt: seq<int>)
    requires ln != [] && IsChain(m, code, n, ln + lt) && (t == 0 <==> lt == []) && (lt != [] ==> lt[0] == t)
    ensures var lp := ln[|ln| - 1]; InCode(code, lp) && Link(m, At(code, lp), lp) == t
    decreases |ln|
  {
    assert (ln + lt)[1..] == ln[1..] + lt;
    var u := Link(m, At(code, n), n);
    if |ln| == 1 {
      assert ln[1..] + lt == lt;
    } else {
      NextIs(m, code, u, t, ln[1..], lt);
    }
  }

  /** gjmp_append of A64: the last word of list n is made to hold t, and the lists are joined. */
  method GjmpAppendA64(code: array<Word>, n: int, t: int, ghost ln: seq<int>, ghost lt: seq<int>) returns (r: int)
    requires IsChain(A64, code[..], n, ln) && IsChain(A64, code[..], t, lt) && forall p :: p in ln ==> p !in lt
    requires 0 <= t < 0x1_0000_0000
    modifies code
    ensures IsChain(A64, code[..], r, ln + lt) && r == if n == 0 then t else n
    ensures forall i :: 0 <= i < code.Length && (n == 0 || 4 * i != ln[|ln| - 1]) ==> code[i] == old(code[i])
  {
    hide IsChain;
    ghost var was := code[..];
    ChainMembers(A64, was, n, ln);
    ChainDistinct(A64, was, n, ln);
    ChainEmpty(A64, was, n, ln);
    r := t;
    if n == 0 {
      assert ln + lt == lt;
    } else {
      var n1 := n;
      ghost var i := 0;
      var n2 := code[n1 / 4];
      while n2 != 0
        invariant 0 <= i < |ln| && n1 == ln[i] && n2 == if i + 1 < |ln| then ln[i + 1] else 0
        decreases |ln| - i
      {
        n1 := n2;
        i := i + 1;
        n2 := code[n1 / 4];
      }
      code[n1 / 4] := t;
      ChainMembers(A64, was, t, lt);
      SameElsewhere(was, code[..], ln, lt);
      ChainFrame(A64, was, code[..], t, lt);
      ChainSplice(A64, code[..], n, ln, t, lt);
      r := n;
    }
  }
}
