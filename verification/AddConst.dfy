/** Adding or subtracting any constant in at most four A32 instructions (stuff_const_harder), and moving
    the base of a load or store within reach (calcaddr). */
module AddConst {
  import opened Options
  import opened A32
  import opened StuffConst

  // The sixteen windows of eight bits

  function Ror2(x: bv32): bv32 {
    (x >> 2) | (x << 30)
  }

  /** a[i] of stuff_const_harder */
  function Win(i: nat): bv32 {
    if i == 0 then 0xff else Ror2(Win(i - 1))
  }

  function Masked(v: bv32, m: bv32): bv32 {
    v & m
  }

  lemma Ror2Apart(x: bv32, y: bv32)
    requires Masked(x, y) == 0
    ensures Masked(Ror2(x), Ror2(y)) == 0
  {}

  lemma {:induction false} WinApartFrom(i: nat, d: nat)
    requires Masked(Win(0), Win(d)) == 0
    ensures Masked(Win(i), Win(i + d)) == 0
  {
    hide Ror2, Masked;
    if i > 0 {
      WinApartFrom(i - 1, d);
      Ror2Apart(Win(i - 1), Win(i - 1 + d));
    }
  }

  function Table(i: nat): bv32 {
    if i == 0 then 0xff
    else if i == 1 then 0xc000_003f
    else if i == 2 then 0xf000_000f
    else if i == 3 then 0xfc00_0003
    else if i == 4 then 0xff00_0000
    else if i == 5 then 0x3fc0_0000
    else if i == 6 then 0xff0_0000
    else if i == 7 then 0x3fc_0000
    else if i == 8 then 0xff_0000
    else if i == 9 then 0x3f_c000
    else if i == 10 then 0xf_f000
    else if i == 11 then 0x3_fc00
    else if i == 12 then 0xff00
    else if i == 13 then 0x3fc0
    else if i == 14 then 0xff0
    else 0x3fc
  }

  function Twice(i: nat): bv32 {
    if i == 0 then 0
    else if i == 1 then 2
    else if i == 2 then 4
    else if i == 3 then 6
    else if i == 4 then 8
    else if i == 5 then 10
    else if i == 6 then 12
    else if i == 7 then 14
    else if i == 8 then 16
    else if i == 9 then 18
    else if i == 10 then 20
    else if i == 11 then 22
    else if i == 12 then 24
    else if i == 13 then 26
    else if i == 14 then 28
    else 30
  }

  lemma {:induction false} WinTable(i: nat)
    requires i < 16
    ensures Win(i) == Table(i)
  {}

  lemma TableFirst()
    ensures Table(0) == 0xff
  {}

  lemma TableApart(d: nat)
    requires 4 <= d <= 12
    ensures Masked(Table(0), Table(d)) == 0
  {}

  lemma WinApart(i: nat, j: nat)
    requires i + 4 <= j <= i + 12 && j < 16
    ensures Masked(Win(i), Win(j)) == 0
  {
    hide Table, Ror2, Masked, Win;
    WinTable(0);
    WinTable(j - i);
    TableApart(j - i);
    WinApartFrom(i, j - i);
  }

  lemma TableIsWindow(i: nat)
    requires 0 < i < 16
    ensures 0 < Twice(i) < 32 && Twice(i) & 1 == 0 && Window(Twice(i)) == Table(i)
  {}

  lemma RotatedIsModImm(c: bv32, i: bv32)
    requires 0 < i < 32 && i & 1 == 0 && c & !Window(i) == 0
    ensures IsModImm(c)
  {
    hide Window, IsModImm, RotatedImm, ExpandImm;
    RotatedExpands(c, i);
    IsModImmBy(RotatedImm(c, i), c);
  }

  lemma CutIsModImm(v: bv32, m: bv32, i: bv32)
    requires 0 < i < 32 && i & 1 == 0 && m == Window(i)
    ensures IsModImm(v & m)
  {
    hide Window, IsModImm;
    Cut(v, m);
    RotatedIsModImm(v & m, i);
  }

  lemma LowIsModImm(v: bv32, m: bv32)
    requires m == 0xff
    ensures IsModImm(v & m)
  {
    hide IsModImm;
    LowByte(v);
    SmallIsModImm(v & 0xff);
  }

  /** What is cut out by a window is a modified immediate. */
  lemma InWindow(v: bv32, i: nat, m: bv32)
    requires i < 16 && m == Win(i)
    ensures IsModImm(v & m)
  {
    hide Table, Win, Window, IsModImm, Twice;
    WinTable(i);
    if i == 0 {
      TableFirst();
      LowIsModImm(v, m);
    } else {
      TableIsWindow(i);
      CutIsModImm(v, m, Twice(i));
    }
  }

  lemma LowByte(v: bv32)
    ensures v & 0xff < 256
  {}

  lemma Cut(v: bv32, m: bv32)
    ensures (v & m) & !m == 0
  {}

  // Additions and subtractions

  /** ADD or SUB without flags */
  predicate IsAddSub(op: Word) {
    IsTemplate(op) && (Key(op) == 0x80_0000 || Key(op) == 0x40_0000)
  }

  predicate IsSub(op: Word) {
    Key(op) == 0x40_0000
  }

  function Plus(sub: bool, a: bv32, c: bv32): bv32 {
    if sub then a - c else a + c
  }

  function Rd(op: Word): bv32 {
    (op >> 12) & 15
  }

  function Rn(op: Word): bv32 {
    (op >> 16) & 15
  }

  /** The template with the result as its operand register. */
  function Again(op: Word): Word {
    (op & 0xfff0_ffff) | ((op & 0xf000) << 4)
  }

  /** The template with ADD and SUB swapped. */
  function Opposite(op: Word): Word {
    op ^ 0xc0_0000
  }

  lemma AgainFields(op: Word)
    requires IsAddSub(op)
    ensures IsAddSub(Again(op)) && IsSub(Again(op)) == IsSub(op) && Rd(Again(op)) == Rd(op) && Rn(Again(op)) == Rd(op)
    ensures Again(op) >> 28 == op >> 28
  {}

  lemma OppositeFields(op: Word)
    requires IsAddSub(op)
    ensures IsAddSub(Opposite(op)) && IsSub(Opposite(op)) == !IsSub(op) && Rd(Opposite(op)) == Rd(op)
    ensures Rn(Opposite(op)) == Rn(op)
    ensures Opposite(op) >> 28 == op >> 28 && Opposite(Again(op)) == Again(Opposite(op))
  {}

  /** The code adds (or subtracts) u to the operand register of op into its result register, and changes
      no other register. */
  ghost predicate Sums(code: seq<Word>, op: Word, u: bv32) {
    forall x: Regs :: Execute(code, x) == Some(x[R(Rd(op)) := Plus(IsSub(op), x[R(Rn(op))], u)])
  }

  /** op is ADD or SUB without flags, with rn in bits 16 to 19, rd in bits 12 to 15 and no operand yet. */
  lemma AddSubExact(op: Word)
    ensures IsAddSub(op) <==> op & 0xff0_0fff == 0x280_0000 || op & 0xff0_0fff == 0x240_0000
    ensures IsAddSub(op) ==> (IsSub(op) <==> op & 0xff0_0fff == 0x240_0000)
  {}

  lemma FieldsAre(op: Word, rn: bv32, rd: bv32)
    requires rn == (op >> 16) & 15 && rd == (op >> 12) & 15
    ensures Rd(op) == rd && Rn(op) == rn
  {}

  lemma PlusBy(sub: bool, a: bv32, u: bv32, v: bv32)
    requires v == if sub then a - u else a + u
    ensures Plus(sub, a, u) == v
  {}

  /** What Sums promises: from every state, a plus or minus u in rd, with a what rn held, and no other register
      changed. */
  lemma SumsMeans(code: seq<Word>, op: Word, u: bv32, x: Regs, rn: bv32, rd: bv32, a: bv32, v: bv32)
    requires Sums(code, op, u) && rn == (op >> 16) & 15 && rd == (op >> 12) & 15
    requires a == x[R(rn)] && v == if IsSub(op) then a - u else a + u
    ensures Execute(code, x) == Some(x[R(rd) := v])
  {
    hide Plus, Execute, IsSub, Rd, Rn;
    FieldsAre(op, rn, rd);
    PlusBy(IsSub(op), a, u, v);
    assert Execute(code, x) == Some(x[R(Rd(op)) := Plus(IsSub(op), x[R(Rn(op))], u)]);
  }

  lemma SameExec(w: Word, op: Word, c: bv32, x: Regs)
    requires Same(w, op, c)
    ensures Exec(Decode(w), x) == Exec(With(op, c), x)
  {
    hide Decode, Exec, With;
  }

  lemma WithAdds(op: Word, c: bv32)
    requires IsAddSub(op)
    ensures With(op, c) == DataImm(if IsSub(op) then SUB else ADD, 0, Rn(op), Rd(op), c)
  {}

  lemma AddExec(sub: bool, rn: bv32, rd: bv32, c: bv32, x: Regs)
    ensures Exec(DataImm(if sub then SUB else ADD, 0, rn, rd, c), x) == Some(x[R(rd) := Plus(sub, x[R(rn)], c)])
  {}

  lemma SameAdds(w: Word, op: Word, c: bv32, x: Regs)
    requires IsAddSub(op) && Same(w, op, c)
    ensures Exec(Decode(w), x) == Some(x[R(Rd(op)) := Plus(IsSub(op), x[R(Rn(op))], c)])
  {
    hide Decode, Exec, With, Same, IsAddSub, IsSub, Plus, Rd, Rn;
    SameExec(w, op, c, x);
    WithAdds(op, c);
    AddExec(IsSub(op), Rn(op), Rd(op), c, x);
  }

  lemma FirstSums(w: Word, op: Word, c: bv32)
    requires IsAddSub(op) && Same(w, op, c)
    ensures Sums([w], op, c)
  {
    hide Decode, Exec, Same, IsAddSub, Plus;
    forall x: Regs ensures Execute([w], x) == Some(x[R(Rd(op)) := Plus(IsSub(op), x[R(Rn(op))], c)]) {
      ExecuteSnoc([], w, x);
      assert [] + [w] == [w];
      SameAdds(w, op, c, x);
    }
  }

  lemma AddTwice(a: bv32, u: bv32, c: bv32)
    ensures Plus(false, a + u, c) == Plus(false, a, u + c) && Plus(true, a - u, c) == Plus(true, a, u + c)
  {}

  lemma PlusIs(a: bv32, u: bv32)
    ensures Plus(false, a, u) == a + u && Plus(true, a, u) == a - u
  {}

  lemma PlusTwice(sub: bool, a: bv32, u: bv32, c: bv32)
    ensures Plus(sub, Plus(sub, a, u), c) == Plus(sub, a, Plus(false, u, c))
  {
    hide Plus;
    PlusIs(a, u);
    PlusIs(u, c);
    AddTwice(a, u, c);
  }

  lemma TwoStores(x: Regs, r: CoreReg, a: bv32, b: bv32)
    ensures x[r := a][r] == a && x[r := a][r := b] == x[r := b]
  {}

  lemma NextExec(w: Word, op: Word, u: bv32, c: bv32, x: Regs, d: CoreReg, a: bv32)
    requires IsAddSub(op) && Same(w, Again(op), c) && d == R(Rd(op))
    ensures Exec(Decode(w), x[d := Plus(IsSub(op), a, u)]) == Some(x[d := Plus(IsSub(op), a, Plus(false, u, c))])
  {
    hide Decode, Exec, Same, IsAddSub, Plus, Again, IsSub, Rd, Rn;
    AgainFields(op);
    SameAdds(w, Again(op), c, x[d := Plus(IsSub(op), a, u)]);
    PlusTwice(IsSub(op), a, u, c);
    TwoStores(x, d, Plus(IsSub(op), a, u), Plus(IsSub(op), a, Plus(false, u, c)));
  }

  lemma NextSums(code: seq<Word>, w: Word, op: Word, u: bv32, c: bv32)
    requires IsAddSub(op) && Sums(code, op, u) && Same(w, Again(op), c)
    ensures Sums(code + [w], op, Plus(false, u, c))
  {
    hide Decode, Exec, Same, IsAddSub, Plus, Again, IsSub, Rd, Rn;
    forall x: Regs
      ensures Execute(code + [w], x) ==
        Some(x[R(Rd(op)) := Plus(IsSub(op), x[R(Rn(op))], Plus(false, u, c))])
    {
      assert Execute(code, x) == Some(x[R(Rd(op)) := Plus(IsSub(op), x[R(Rn(op))], u)]);
      ExecuteSnoc(code, w, x);
      NextExec(w, op, u, c, x, R(Rd(op)), x[R(Rn(op))]);
    }
  }

  // Splitting a constant over windows

  function Union(m: bv32, n: bv32): bv32 {
    m | n
  }

  lemma MaskedIs(v: bv32, m: bv32)
    ensures Masked(v, m) == v & m
  {}

  lemma MaskedUnionIs(v: bv32, m: bv32, n: bv32)
    ensures Masked(v, Union(m, n)) == v & (m | n)
  {}

  lemma PartsAdd(v: bv32, m: bv32, n: bv32)
    requires Masked(m, n) == 0
    ensures Plus(false, Masked(v, m), Masked(v, n)) == Masked(v, Union(m, n))
  {
    hide Plus, Masked, Union;
    MaskedIs(m, n);
    MaskedIs(v, m);
    MaskedIs(v, n);
    MaskedUnionIs(v, m, n);
    DisjointAdd(v, m, n);
  }

  lemma DisjointAdd(v: bv32, m: bv32, n: bv32)
    requires m & n == 0
    ensures Plus(false, v & m, v & n) == v & (m | n)
  {}

  lemma ApartFromBoth(m: bv32, n: bv32, p: bv32)
    requires Masked(m, p) == 0 && Masked(n, p) == 0
    ensures Masked(Union(m, n), p) == 0
  {}

  /** The bounds of the loops over two and over three windows. */
  predicate IsPair(i: nat, j: nat) {
    i < 12 && i + 4 <= j <= (if i < 4 then i + 12 else 15)
  }

  predicate IsTriple(i: nat, j: nat, k: nat) {
    i < 8 && i + 4 <= j < 12 && j + 4 <= k <= (if i < 4 then i + 12 else 15)
  }

  /** Windows i and j share no bit. */
  predicate Disjoint(i: nat, j: nat) {
    Masked(Win(i), Win(j)) == 0
  }

  lemma TableDisjoint(i: nat, j: nat)
    requires i < j < 16
    ensures Masked(Table(i), Table(j)) == 0 ==> IsPair(i, j)
  {}

  /** The loops go over just the disjoint pairs and triples. */
  lemma PairsDisjoint(i: nat, j: nat)
    requires i < j < 16
    ensures IsPair(i, j) <==> Disjoint(i, j)
  {
    hide Table, Ror2, Masked, Win;
    WinTable(i);
    WinTable(j);
    TableDisjoint(i, j);
    if IsPair(i, j) { WinApart(i, j); }
  }

  lemma TriplesDisjoint(i: nat, j: nat, k: nat)
    requires i < j < k < 16
    ensures IsTriple(i, j, k) <==> Disjoint(i, j) && Disjoint(i, k) && Disjoint(j, k)
  {
    hide Disjoint;
    PairsDisjoint(i, j);
    PairsDisjoint(i, k);
    PairsDisjoint(j, k);
  }

  predicate Covers(v: bv32, m: bv32) {
    v & m == v
  }

  predicate Two(v: bv32, i: nat, j: nat) {
    Covers(v, Union(Win(i), Win(j)))
  }

  predicate Three(v: bv32, i: nat, j: nat, k: nat) {
    Covers(v, Union(Union(Win(i), Win(j)), Win(k)))
  }

  /** Two, or three, disjoint windows cover v. */
  ghost predicate HasPair(v: bv32) {
    exists i: nat, j: nat :: i < j < 16 && Disjoint(i, j) && Two(v, i, j)
  }

  ghost predicate HasTriple(v: bv32) {
    exists i: nat, j: nat, k: nat ::
      i < j < k < 16 && Disjoint(i, j) && Disjoint(i, k) && Disjoint(j, k) && Three(v, i, j, k)
  }

  /** The windows lie 8 to 24 bits apart, and outside them v is zero. */
  lemma PairExact(v: bv32)
    ensures HasPair(v) <==>
      exists i: nat, j: nat :: i + 4 <= j <= i + 12 && j < 16 && Outside(v, Union(Table(i), Table(j))) == 0
  {
    hide Table, Ror2, Masked, Win, Covers, Union, Outside, Disjoint;
    forall i: nat, j: nat | i < j < 16
      ensures (Disjoint(i, j) <==> i + 4 <= j <= i + 12)
      ensures Two(v, i, j) <==> Outside(v, Union(Table(i), Table(j))) == 0
    {
      PairsDisjoint(i, j);
      WinTable(i);
      WinTable(j);
      CoversOutside(v, Union(Win(i), Win(j)));
    }
  }

  lemma TripleExact(v: bv32)
    ensures HasTriple(v) <==>
      exists i: nat, j: nat, k: nat :: i + 4 <= j && j + 4 <= k <= i + 12 && k < 16
        && Outside(v, Union(Union(Table(i), Table(j)), Table(k))) == 0
  {
    hide Table, Ror2, Masked, Win, Covers, Union, Outside, Disjoint;
    forall i: nat, j: nat | i < j < 16
      ensures Disjoint(i, j) <==> i + 4 <= j <= i + 12
    {
      PairsDisjoint(i, j);
    }
    forall i: nat, j: nat, k: nat | i < j < k < 16
      ensures Three(v, i, j, k) <==> Outside(v, Union(Union(Table(i), Table(j)), Table(k))) == 0
    {
      WinTable(i);
      WinTable(j);
      WinTable(k);
      CoversOutside(v, Union(Union(Win(i), Win(j)), Win(k)));
    }
  }

  function Outside(v: bv32, m: bv32): bv32 {
    v & !m
  }

  lemma CoversOutside(v: bv32, m: bv32)
    ensures Covers(v, m) <==> Outside(v, m) == 0
  {}

  type Windows = a: seq<bv32> | |a| == 16 && forall i :: 0 <= i < 16 ==> a[i] == Win(i)
    ghost witness seq(16, i requires i >= 0 => Win(i))

  method MakeWindows() returns (a: Windows)
  {
    hide Ror2;
    var b: seq<bv32> := [0xff];
    var i := 1;
    while i < 16
      invariant 1 <= i <= 16 && |b| == i && forall k :: 0 <= k < i ==> b[k] == Win(k)
    {
      b := b + [Ror2(b[i - 1])];
      i := i + 1;
    }
    a := b;
  }

  /** The search for two windows. */
  method FindPair(a: Windows, v: bv32) returns (found: bool, i: nat, j: nat)
    ensures found ==> IsPair(i, j) && Two(v, i, j)
    ensures found <==> HasPair(v)
  {
    hide Win, Covers, Union, Disjoint;
    i, j := 0, 0;
    while i < 12
      invariant i <= 12
      invariant forall p: nat, q: nat :: p < i && IsPair(p, q) ==> !Two(v, p, q)
    {
      j := if i < 4 then i + 12 else 15;
      while j >= i + 4
        invariant i + 3 <= j <= if i < 4 then i + 12 else 15
        invariant forall q: nat :: j < q && IsPair(i, q) ==> !Two(v, i, q)
      {
        if Covers(v, Union(a[i], a[j])) {
          PairsDisjoint(i, j);
          return true, i, j;
        }
        j := j - 1;
      }
      i := i + 1;
    }
    forall p: nat, q: nat | p < q < 16 && Disjoint(p, q) ensures !Two(v, p, q) { PairsDisjoint(p, q); }
    found := false;
  }

  /** The search for three. */
  method FindTriple(a: Windows, v: bv32) returns (found: bool, i: nat, j: nat, k: nat)
    ensures found ==> IsTriple(i, j, k) && Three(v, i, j, k)
    ensures found <==> HasTriple(v)
  {
    hide Win, Covers, Union, Disjoint;
    i, j, k := 0, 0, 0;
    while i < 8
      invariant i <= 8
      invariant forall p: nat, q: nat, r: nat :: p < i && IsTriple(p, q, r) ==> !Three(v, p, q, r)
    {
      j := i + 4;
      while j < 12
        invariant i + 4 <= j <= 12
        invariant forall q: nat, r: nat :: q < j && IsTriple(i, q, r) ==> !Three(v, i, q, r)
      {
        k := if i < 4 then i + 12 else 15;
        while k >= j + 4
          invariant k <= (if i < 4 then i + 12 else 15) && (j + 3 <= k || k == i + 12)
          invariant forall r: nat :: k < r && IsTriple(i, j, r) ==> !Three(v, i, j, r)
        {
          if Covers(v, Union(Union(a[i], a[j]), a[k])) {
            TriplesDisjoint(i, j, k);
            return true, i, j, k;
          }
          k := k - 1;
        }
        j := j + 1;
      }
      i := i + 1;
    }
    forall p: nat, q: nat, r: nat | p < q < r < 16 && Disjoint(p, q) && Disjoint(p, r) && Disjoint(q, r)
      ensures !Three(v, p, q, r)
    {
      TriplesDisjoint(p, q, r);
    }
    found := false;
  }

  // Writing the instructions

  /** The part of v in window i. */
  function Piece(v: bv32, i: nat): bv32 {
    Masked(v, Win(i))
  }

  lemma PieceEncodable(op: Word, v: bv32, i: nat)
    requires i < 16
    ensures Encodable(op, Piece(v, i))
  {
    hide Win, IsModImm, Key, HasSwap, SwapConst, IsNot;
    InWindow(v, i, Win(i));
  }

  lemma PieceIs(v: bv32, i: nat, m: bv32)
    requires m == Win(i)
    ensures v & m == Piece(v, i)
  {}

  /** The first piece, by the instruction op. */
  method FirstPiece(op: Word, v: bv32, i: nat, m: bv32) returns (code: seq<Word>)
    requires IsAddSub(op) && i < 16 && m == Win(i)
    ensures Sums(code, op, Piece(v, i)) && |code| == 1
  {
    hide IsAddSub, Encodable, Same, Sums, Win, Piece;
    IsTemplateOf(op);
    PieceEncodable(op, v, i);
    PieceIs(v, i, m);
    var w := StuffConst.StuffConst(op, v & m);
    FirstSums(w, op, v & m);
    return [w];
  }

  /** A further piece, added to the result. */
  method NextPiece(low: seq<Word>, op: Word, o2: Word, u: bv32, v: bv32, i: nat, m: bv32) returns (code: seq<Word>)
    requires IsAddSub(op) && o2 == Again(op) && i < 16 && m == Win(i) && Sums(low, op, u)
    ensures Sums(code, op, Plus(false, u, Piece(v, i))) && |code| == |low| + 1
  {
    hide IsAddSub, Encodable, Same, Sums, Win, Again, Plus, Piece;
    AgainIsAddSub(op);
    IsTemplateOf(o2);
    PieceEncodable(o2, v, i);
    PieceIs(v, i, m);
    var w := StuffConst.StuffConst(o2, v & m);
    NextSums(low, w, op, u, v & m);
    return low + [w];
  }

  lemma IsTemplateOf(op: Word)
    requires IsAddSub(op)
    ensures IsTemplate(op)
  {}

  lemma AgainIsAddSub(op: Word)
    requires IsAddSub(op)
    ensures IsAddSub(Again(op))
  {}

  lemma CoversIs(v: bv32, m: bv32)
    ensures Covers(v, m) <==> Masked(v, m) == v
  {}

  lemma TwoIs(v: bv32, i: nat, j: nat)
    ensures Two(v, i, j) <==> Masked(v, Union(Win(i), Win(j))) == v
  {
    hide Win, Covers, Masked, Union;
    CoversIs(v, Union(Win(i), Win(j)));
  }

  lemma ThreeIs(v: bv32, i: nat, j: nat, k: nat)
    ensures Three(v, i, j, k) <==> Masked(v, Union(Union(Win(i), Win(j)), Win(k))) == v
  {
    hide Win, Covers, Masked, Union;
    CoversIs(v, Union(Union(Win(i), Win(j)), Win(k)));
  }

  lemma TwoAdd(v: bv32, i: nat, j: nat)
    requires IsPair(i, j) && Two(v, i, j)
    ensures Plus(false, Piece(v, i), Piece(v, j)) == v
  {
    hide Win, Plus, Masked, Union, Two;
    WinApart(i, j);
    TwoIs(v, i, j);
    PartsAdd(v, Win(i), Win(j));
  }

  /** Two words for a pair of windows. */
  method Pair(a: Windows, op: Word, o2: Word, v: bv32, i: nat, j: nat) returns (code: seq<Word>)
    requires IsAddSub(op) && o2 == Again(op) && IsPair(i, j) && Two(v, i, j)
    ensures Sums(code, op, v) && |code| == 2
  {
    hide IsAddSub, Sums, Win, Again, Plus, Two, Piece;
    code := FirstPiece(op, v, i, a[i]);
    code := NextPiece(code, op, o2, Piece(v, i), v, j, a[j]);
    TwoAdd(v, i, j);
  }

  lemma ThreeAdd(v: bv32, i: nat, j: nat, k: nat)
    requires IsTriple(i, j, k) && Three(v, i, j, k)
    ensures Plus(false, Plus(false, Piece(v, i), Piece(v, j)), Piece(v, k)) == v
  {
    hide Win, Plus, Masked, Union, Three;
    WinApart(i, j);
    WinApart(i, k);
    WinApart(j, k);
    ThreeIs(v, i, j, k);
    PartsAdd(v, Win(i), Win(j));
    ApartFromBoth(Win(i), Win(j), Win(k));
    PartsAdd(v, Union(Win(i), Win(j)), Win(k));
  }

  /** Three words for a triple. */
  method Triple(a: Windows, op: Word, o2: Word, v: bv32, i: nat, j: nat, k: nat) returns (code: seq<Word>)
    requires IsAddSub(op) && o2 == Again(op) && IsTriple(i, j, k) && Three(v, i, j, k)
    ensures Sums(code, op, v) && |code| == 3
  {
    hide IsAddSub, Sums, Win, Again, Plus, Three, Piece;
    code := FirstPiece(op, v, i, a[i]);
    code := NextPiece(code, op, o2, Piece(v, i), v, j, a[j]);
    code := NextPiece(code, op, o2, Plus(false, Piece(v, i), Piece(v, j)), v, k, a[k]);
    ThreeAdd(v, i, j, k);
  }

  lemma FourAdd(v: bv32)
    ensures Plus(false, Plus(false, Plus(false, Piece(v, 0), Piece(v, 4)), Piece(v, 8)), Piece(v, 12)) == v
  {}

  /** Four words always do. */
  method Four(a: Windows, op: Word, o2: Word, v: bv32) returns (code: seq<Word>)
    requires IsAddSub(op) && o2 == Again(op)
    ensures Sums(code, op, v) && |code| == 4
  {
    hide IsAddSub, Sums, Win, Again, Plus, Piece;
    code := FirstPiece(op, v, 0, a[0]);
    code := NextPiece(code, op, o2, Piece(v, 0), v, 4, a[4]);
    code := NextPiece(code, op, o2, Plus(false, Piece(v, 0), Piece(v, 4)), v, 8, a[8]);
    code := NextPiece(code, op, o2, Plus(false, Plus(false, Piece(v, 0), Piece(v, 4)), Piece(v, 8)), v, 12, a[12]);
    FourAdd(v);
  }

  // The opposite operation

  lemma PlusNegated(a: bv32, v: bv32)
    ensures Plus(true, a, -v) == Plus(false, a, v) && Plus(false, a, -v) == Plus(true, a, v)
  {}

  lemma OppositeSums(code: seq<Word>, op: Word, no: Word, v: bv32)
    requires IsAddSub(op) && no == Opposite(op) && Sums(code, no, -v)
    ensures Sums(code, op, v)
  {
    hide IsAddSub, Opposite, Plus, Execute, IsSub, Rd, Rn;
    OppositeFields(op);
    forall x: Regs ensures Execute(code, x) == Some(x[R(Rd(op)) := Plus(IsSub(op), x[R(Rn(op))], v)]) {
      assert Execute(code, x) == Some(x[R(Rd(no)) := Plus(IsSub(no), x[R(Rn(no))], -v)]);
      PlusNegated(x[R(Rn(op))], v);
    }
  }

  /** stuff_const_harder: for every v, code of at most four words that adds (or subtracts) exactly v. */
  method StuffConstHarder(op: Word, v: bv32) returns (code: seq<Word>)
    requires IsAddSub(op)
    ensures Sums(code, op, v)
    ensures |code| == if Encodable(op, v) then 1
                      else if HasPair(v) || HasPair(-v) then 2
                      else if HasTriple(v) || HasTriple(-v) then 3
                      else 4
  {
    hide IsAddSub, Sums, Encodable, HasPair, HasTriple, Again, Opposite, Same, Two, Three;
    IsTemplateOf(op);
    var x := StuffConst.StuffConst(op, v);
    if x != 0 {
      FirstSums(x, op, v);
      return [x];
    }
    var a := MakeWindows();
    var o2, no := Again(op), Opposite(op);
    OppositeIs(op);
    var n2, nv := Opposite(o2), -v;
    var found, i, j, k;
    found, i, j := FindPair(a, v);
    if found {
      code := Pair(a, op, o2, v, i, j);
      return;
    }
    found, i, j := FindPair(a, nv);
    if found {
      code := Pair(a, no, n2, nv, i, j);
      OppositeSums(code, op, no, v);
      return;
    }
    found, i, j, k := FindTriple(a, v);
    if found {
      code := Triple(a, op, o2, v, i, j, k);
      return;
    }
    found, i, j, k := FindTriple(a, nv);
    if found {
      code := Triple(a, no, n2, nv, i, j, k);
      OppositeSums(code, op, no, v);
      return;
    }
    code := Four(a, op, o2, v);
  }

  lemma OppositeIs(op: Word)
    requires IsAddSub(op)
    ensures IsAddSub(Opposite(op)) && Opposite(Again(op)) == Again(Opposite(op))
  {}

  // calcaddr

  /** Subtract from the base if sub, else add. */
  function Address(sub: bool, base: bv32, off: bv32): bv32 {
    Plus(sub, base, off)
  }

  /** The template that forms lr from the base: ADD or SUB lr, base, #0. */
  function BaseOp(sub: bool, base: Reg): Word {
    (if sub then 0xe240_e000 else 0xe280_e000) | (base << 16)
  }

  lemma BaseOpIs(sub: bool, base: Reg)
    ensures IsAddSub(BaseOp(sub, base)) && IsSub(BaseOp(sub, base)) == sub && Rd(BaseOp(sub, base)) == 14
    ensures Rn(BaseOp(sub, base)) == base
  {}

  /** The pairs of largest offset and shift that load and store use. */
  predicate IsReach(maxoff: bv32, shift: bv32) {
    (maxoff == 4095 && shift == 0) || (maxoff == 255 && shift == 0) || (maxoff == 1020 && shift == 2)
  }

  predicate InReach(off: bv32, maxoff: bv32, shift: bv32)
    requires shift < 32
  {
    off <= maxoff && off & ((1 << shift) - 1) == 0
  }

  /** From every state the code leaves in register b2 an address from which off2 leads to the same place
      as off led to from register base before; and it changes lr at most. */
  ghost predicate Reaches(code: seq<Word>, base: Reg, off: bv32, sub: bool, b2: Reg, off2: bv32, sub2: bool) {
    forall x: Regs :: ReachesFrom(Execute(code, x), x, base, off, sub, b2, off2, sub2)
  }

  ghost predicate ReachesFrom(t: Option<Regs>, x: Regs, base: bv32, off: bv32, sub: bool,
                              b2: bv32, off2: bv32, sub2: bool)
  {
    && t.Some? && Address(sub2, t.value[R(b2)], off2) == Address(sub, x[R(base)], off)
    && forall g :: g != R(14) ==> t.value[g] == x[g]
  }

  lemma Split(sub: bool, a: bv32, off: bv32, high: bv32, low: bv32)
    requires Plus(false, high, low) == off
    ensures Plus(sub, Plus(sub, a, high), low) == Plus(sub, a, off)
  {
    hide Plus;
    PlusTwice(sub, a, high, low);
  }

  lemma OvershootIs(a: bv32, off: bv32, high: bv32)
    ensures Plus(true, a + high, high - off) == Plus(false, a, off)
    ensures Plus(false, a - high, high - off) == Plus(true, a, off)
  {}

  lemma Overshoot(sub: bool, a: bv32, off: bv32, high: bv32)
    ensures Plus(!sub, Plus(sub, a, high), Plus(true, high, off)) == Plus(sub, a, off)
  {
    hide Plus;
    PlusIs(high, off);
    OvershootIs(a, off, high);
    PlusIs(a, high);
  }

  function High(off: bv32, maxoff: bv32): bv32 {
    off & !maxoff
  }

  function Low(off: bv32, maxoff: bv32): bv32 {
    off & maxoff
  }

  function Up(off: bv32, maxoff: bv32): bv32 {
    (off + maxoff) & !maxoff
  }

  function Back(off: bv32, maxoff: bv32): bv32 {
    Up(off, maxoff) - off
  }

  lemma Parts(off: bv32, maxoff: bv32, shift: bv32)
    requires IsReach(maxoff, shift)
    ensures Plus(false, High(off, maxoff), Low(off, maxoff)) == off
  {}

  lemma LowInReach(off: bv32, maxoff: bv32, shift: bv32)
    requires IsReach(maxoff, shift)
    ensures InReach(Low(off, maxoff), maxoff, shift)
  {}

  lemma BackInReach(off: bv32, maxoff: bv32, shift: bv32)
    requires IsReach(maxoff, shift)
    ensures InReach(Back(off, maxoff), maxoff, shift)
  {
    if maxoff == 4095 { Back4095(off); } else if maxoff == 255 { Back255(off); } else { Back1020(off); }
  }

  lemma Back4095(off: bv32)
    ensures ((off + 4095) & !4095) - off <= 4095
  {}

  lemma Back255(off: bv32)
    ensures ((off + 255) & !255) - off <= 255
  {}

  lemma Back1020(off: bv32)
    ensures InReach(((off + 1020) & !1020) - off, 1020, 2)
  {}

  lemma SumsAt(code: seq<Word>, op: Word, u: bv32, x: Regs)
    requires Sums(code, op, u)
    ensures Execute(code, x) == Some(x[R(Rd(op)) := Plus(IsSub(op), x[R(Rn(op))], u)])
  {
    hide Execute, Plus, IsSub, Rd, Rn;
  }

  /** lr holds v, and nothing else is changed. */
  lemma StoredReaches(x: Regs, v: bv32, base: Reg, off: bv32, sub: bool, off2: bv32, sub2: bool)
    requires Plus(sub2, v, off2) == Plus(sub, x[R(base)], off)
    ensures ReachesFrom(Some(x[R(14) := v]), x, base, off, sub, 14, off2, sub2)
  {
    hide Plus;
  }

  /** Code that puts base plus or minus high into lr leaves low to go. */
  lemma SumsReach(code: seq<Word>, base: Reg, sub: bool, off: bv32, high: bv32, low: bv32)
    requires Sums(code, BaseOp(sub, base), high) && Plus(false, high, low) == off
    ensures Reaches(code, base, off, sub, 14, low, sub)
  {
    hide Plus, BaseOp, Execute, IsSub, Rd, Rn, Sums, ReachesFrom;
    BaseOpIs(sub, base);
    forall x: Regs ensures ReachesFrom(Execute(code, x), x, base, off, sub, 14, low, sub) {
      SumsAt(code, BaseOp(sub, base), high, x);
      Split(sub, x[R(base)], off, high, low);
      StoredReaches(x, Plus(sub, x[R(base)], high), base, off, sub, low, sub);
    }
  }

  lemma SumsOvershoot(code: seq<Word>, base: Reg, sub: bool, off: bv32, high: bv32, back: bv32)
    requires Sums(code, BaseOp(sub, base), high) && back == Plus(true, high, off)
    ensures Reaches(code, base, off, sub, 14, back, !sub)
  {
    hide Plus, BaseOp, Execute, IsSub, Rd, Rn, Sums, ReachesFrom;
    BaseOpIs(sub, base);
    forall x: Regs ensures ReachesFrom(Execute(code, x), x, base, off, sub, 14, back, !sub) {
      SumsAt(code, BaseOp(sub, base), high, x);
      Overshoot(sub, x[R(base)], off, high);
      StoredReaches(x, Plus(sub, x[R(base)], high), base, off, sub, back, !sub);
    }
  }

  lemma NothingToDo(base: Reg, sub: bool, off: bv32)
    ensures Reaches([], base, off, sub, base, off, sub)
  {}

  lemma AlreadyInReach(off: bv32, maxoff: bv32, shift: bv32)
    requires IsReach(maxoff, shift)
    ensures InReach(off, maxoff, shift) <==> !(off > maxoff || off & ((1 << shift) - 1) != 0)
  {}

  lemma HighReaches(code: seq<Word>, base: Reg, sub: bool, off: bv32, maxoff: bv32, shift: bv32)
    requires IsReach(maxoff, shift) && Sums(code, BaseOp(sub, base), High(off, maxoff))
    ensures Reaches(code, base, off, sub, 14, Low(off, maxoff), sub) && InReach(Low(off, maxoff), maxoff, shift)
  {
    hide Reaches, InReach, Sums, BaseOp, High, Low, Plus;
    Parts(off, maxoff, shift);
    LowInReach(off, maxoff, shift);
    SumsReach(code, base, sub, off, High(off, maxoff), Low(off, maxoff));
  }

  lemma BackIs(off: bv32, maxoff: bv32)
    ensures Back(off, maxoff) == Plus(true, Up(off, maxoff), off)
  {}

  lemma UpReaches(code: seq<Word>, base: Reg, sub: bool, off: bv32, maxoff: bv32, shift: bv32)
    requires IsReach(maxoff, shift) && Sums(code, BaseOp(sub, base), Up(off, maxoff))
    ensures Reaches(code, base, off, sub, 14, Back(off, maxoff), !sub) && InReach(Back(off, maxoff), maxoff, shift)
  {
    hide Reaches, InReach, Sums, BaseOp, Up, Back, Plus;
    BackInReach(off, maxoff, shift);
    BackIs(off, maxoff);
    SumsOvershoot(code, base, sub, off, Up(off, maxoff), Back(off, maxoff));
  }

  lemma BaseOpAdds(sub: bool, base: Reg)
    ensures IsAddSub(BaseOp(sub, base))
  {}

  lemma InReachIs(off: bv32, maxoff: bv32, shift: bv32)
    requires IsReach(maxoff, shift)
    ensures InReach(off, maxoff, shift) <==>
      || (off <= 4095 && maxoff == 4095) || (off <= 255 && maxoff == 255)
      || (off <= 1020 && off & 3 == 0 && maxoff == 1020)
  {}

  /** What Reaches promises, with b in the base, b2 in the new base, and where the two offsets lead from them. */
  lemma ReachesMeans(code: seq<Word>, base: Reg, off: bv32, sub: bool, r2: Reg, off2: bv32, sub2: bool,
                     x: Regs, b: bv32, b2: bv32, place: bv32, place2: bv32)
    requires Reaches(code, base, off, sub, r2, off2, sub2) && b == x[R(base)]
    requires place == if sub then b - off else b + off
    requires Execute(code, x).Some? ==> b2 == Execute(code, x).value[R(r2)]
    requires place2 == if sub2 then b2 - off2 else b2 + off2
    ensures Execute(code, x).Some? && forall g :: g != R(14) ==> Execute(code, x).value[g] == x[g]
    ensures place2 == place
  {
    hide Execute, Plus;
    assert ReachesFrom(Execute(code, x), x, base, off, sub, r2, off2, sub2);
    PlusBy(sub, b, off, place);
    PlusBy(sub2, b2, off2, place2);
  }

  /** calcaddr: the address stays the same and the offset comes within reach, on every path. */
  method CalcAddr(base: Reg, off: bv32, sub: bool, maxoff: bv32, shift: bv32)
    returns (code: seq<Word>, b2: Reg, off2: bv32, sub2: bool)
    requires IsReach(maxoff, shift) && off < 0x8000_0000
    ensures Reaches(code, base, off, sub, b2, off2, sub2)
    ensures InReach(off2, maxoff, shift) && |code| <= 4
    ensures InReach(off, maxoff, shift) ==> code == [] && b2 == base && off2 == off && sub2 == sub
  {
    hide Reaches, InReach, Sums, BaseOp, Same, Encodable, IsAddSub, High, Low, Up, Back;
    code, b2, off2, sub2 := [], base, off, sub;
    AlreadyInReach(off, maxoff, shift);
    if off > maxoff || off & ((1 << shift) - 1) != 0 {
      var x := BaseOp(sub, base);
      BaseOpAdds(sub, base);
      IsTemplateOf(x);
      b2 := 14;
      var y := StuffConst.StuffConst(x, High(off, maxoff));
      if y != 0 {
        FirstSums(y, x, High(off, maxoff));
        HighReaches([y], base, sub, off, maxoff, shift);
        return [y], b2, Low(off, maxoff), sub;
      }
      y := StuffConst.StuffConst(x, Up(off, maxoff));
      if y != 0 {
        FirstSums(y, x, Up(off, maxoff));
        UpReaches([y], base, sub, off, maxoff, shift);
        return [y], b2, Back(off, maxoff), !sub;
      }
      code := StuffConstHarder(x, High(off, maxoff));
      HighReaches(code, base, sub, off, maxoff, shift);
      off2 := Low(off, maxoff);
    } else {
      NothingToDo(base, sub, off);
    }
  }
}
