/** Where arguments go under the AArch64 procedure call standard (arm64_pcs_aux; the letters and
    numbers of the stages are those of section 5.4.2 of IHI 0055B). */
module Arguments {
  import opened Bits

  datatype Kind = Integer | Pointer | Float | Double | LongDouble | Struct

  /** An argument type: size and 1 << alignBits as type_size gives them, hfa members if it is a
      homogeneous floating-point aggregate. */
  datatype Arg = Arg(kind: Kind, size: nat, alignBits: nat, hfa: nat)
  {
    predicate Valid() {
      && size > 0 && hfa <= 4 && (hfa > 0 ==> kind == Struct)
      && match kind
         case Integer => size == 1 || size == 2 || size == 4 || size == 8 || size == 16
         case Float => size == 4
         case Double => size == 8
         case LongDouble => size == 16
         case _ => true
    }

    predicate IsFloat() {
      kind == Float || kind == Double || kind == LongDouble
    }

    function Size(): nat {
      if kind == Pointer then 8 else size
    }

    function Align(): (a: nat)
      ensures a > 0
    {
      Pow2Positive(alignBits);
      if kind == Pointer then 8 else Pow2(alignBits)
    }

    /** Passed by a pointer to a copy. */
    predicate ByReference() {
      hfa == 0 && Size() > 16
    }

    /** Competes for vector registers, and else for general ones. */
    predicate InVector() {
      hfa > 0 || IsFloat()
    }

    /** Vector registers that it takes. */
    function Lanes(): nat {
      if hfa > 0 then hfa else 1
    }

    /** Doublewords that the argument, or the pointer to it, takes. */
    function Doublewords(): nat {
      if ByReference() then 1 else (Size() + 7) / 8
    }
  }

  /** Registers first to first + count - 1, or bytes offset to offset + size - 1 of the argument area. */
  datatype Place = General(first: nat, count: nat) | Vector(first: nat, count: nat) | Stack(offset: nat, size: nat)

  /** What the number a[i] says about the place of an argument. */
  function PlaceOf(arg: Arg, code: nat): Place {
    if code < 16 then General(code / 2, arg.Doublewords())
    else if code < 32 then Vector(code / 2 - 8, arg.Lanes())
    else Stack(code - code % 2 - 32, 8 * arg.Doublewords())
  }

  predicate Apart(p: Place, q: Place) {
    match (p, q)
    case (General(f, m), General(g, n)) => f + m <= g || g + n <= f
    case (Vector(f, m), Vector(g, n)) => f + m <= g || g + n <= f
    case (Stack(f, m), Stack(g, n)) => f + m <= g || g + n <= f
    case _ => true
  }

  predicate Aligned(n: nat, arg: Arg) {
    n % arg.Align() == 0
  }

  /** A place the standard allows for the argument, in an argument area of stack bytes. */
  predicate Allowed(arg: Arg, code: nat, stack: nat) {
    match PlaceOf(arg, code)
    case General(first, count) =>
      && !arg.InVector() && first + count <= 8 && (code % 2 == 1 <==> arg.ByReference())
      && (!arg.ByReference() && arg.Align() == 16 && arg.Size() > 8 ==> first % 2 == 0)
    case Vector(first, count) => arg.InVector() && first + count <= 8 && code % 2 == 0
    case Stack(offset, size) =>
      && offset % 8 == 0 && offset + size <= stack && (code % 2 == 1 <==> arg.ByReference())
      && (!arg.ByReference() && !(arg.kind == Float || arg.kind == Double) ==> Aligned(offset + 32, arg))
  }

  /** Places side by side, and one reaching into the other. */
  lemma KnownPlaces()
    ensures Apart(General(2, 2), General(4, 1)) && Apart(General(4, 1), General(2, 2))
    ensures Apart(General(2, 2), Vector(2, 1))
    ensures !Apart(General(2, 2), General(3, 1)) && !Apart(General(3, 1), General(2, 2))
    ensures Apart(Vector(0, 4), Vector(4, 1)) && !Apart(Vector(0, 4), Vector(3, 1))
    ensures !Apart(Vector(3, 1), Vector(0, 4))
    ensures Apart(Vector(4, 1), Vector(0, 4)) && Apart(Stack(0, 16), Stack(16, 8)) && Apart(Stack(16, 8), Stack(0, 16))
    ensures !Apart(Stack(0, 16), Stack(8, 8)) && !Apart(Stack(8, 8), Stack(0, 16))
  {}

  /** What is allowed lies in the registers of its class, or in the argument area. */
  lemma AllowedMeans(arg: Arg, code: nat, stack: nat)
    requires Allowed(arg, code, stack)
    ensures code < 16 ==> code / 2 + arg.Doublewords() <= 8 && !(arg.hfa > 0 || arg.IsFloat())
    ensures 16 <= code < 32 ==> code / 2 - 8 + arg.Lanes() <= 8 && (arg.hfa > 0 || arg.IsFloat())
    ensures code >= 32 ==> code % 8 <= 1 && code - code % 2 - 32 + 8 * arg.Doublewords() <= stack
    ensures code < 16 || code >= 32 ==> (code % 2 == 1 <==> arg.ByReference())
  {}

  predicate OnStack(arg: Arg, code: nat) {
    PlaceOf(arg, code).Stack?
  }

  /** n rounded up to a multiple of a: (n + a - 1) & -a for a power of two a. */
  function RoundUp(n: nat, a: nat): nat
    requires a > 0
  {
    if n % a == 0 then n else n - n % a + a
  }

  lemma MultipleMod(q: nat, a: nat)
    requires a > 0
    ensures q * a % a == 0
  {
    UniqueQuotient(q, 0, (q * a) / a, (q * a) % a, a);
  }

  lemma RoundUpIs(n: nat, a: nat)
    requires a > 0
    ensures n <= RoundUp(n, a) < n + a && RoundUp(n, a) % a == 0
  {
    var q, r := n / a, n % a;
    assert n == q * a + r;
    if r != 0 {
      NextMultiple(n, a, q, r);
      MultipleMod(q + 1, a);
    }
  }

  lemma NextMultiple(n: nat, a: nat, q: nat, r: nat)
    requires a > 0 && n == q * a + r && r == n % a && 0 < r < a
    ensures RoundUp(n, a) == (q + 1) * a
  {
    assert (q + 1) * a == q * a + a;
  }

  lemma Pow2Small()
    ensures Pow2(0) == 1 && Pow2(1) == 2 && Pow2(2) == 4 && Pow2(3) == 8
    ensures Pow2(4) == 16 && Pow2(5) == 32 && Pow2(6) == 64
  {
    assert Pow2(2) == 4 && Pow2(4) == 16;
  }

  /** Rounding a multiple of 8 up to any power of two gives a multiple of 8. */
  lemma RoundUpEights(n: nat, bits: nat)
    requires n % 8 == 0
    ensures Pow2(bits) > 0 && RoundUp(n, Pow2(bits)) % 8 == 0
  {
    hide Pow2, RoundUp;
    Pow2Positive(bits);
    Pow2Small();
    if bits >= 3 {
      RoundUpIs(n, Pow2(bits));
      Pow2Sum(bits - 3, 3);
      EightDivides(RoundUp(n, Pow2(bits)), Pow2(bits), Pow2(bits - 3));
    } else {
      EightStays(n, Pow2(bits));
    }
  }

  lemma EightStays(n: nat, a: nat)
    requires n % 8 == 0 && (a == 1 || a == 2 || a == 4)
    ensures RoundUp(n, a) == n
  {
    var q := n / 8;
    UniqueQuotient(n / 4, n % 4, 2 * q, 0, 4);
    UniqueQuotient(n / 2, n % 2, 4 * q, 0, 2);
  }

  lemma EightDivides(r: nat, p: nat, k: nat)
    requires p == k * 8 && p > 0 && r % p == 0
    ensures r % 8 == 0
  {
    var q := r / p;
    assert r == q * p;
    assert q * p == (q * k) * 8;
    MultipleMod(q * k, 8);
  }

  /** The next general register, vector register and stack offset. */
  datatype Next = Next(nx: nat, nv: nat, ns: nat)
  {
    predicate Valid() {
      nx <= 8 && nv <= 8 && ns >= 32 && ns % 8 == 0
    }
  }

  predicate EndsBy(p: Place, s: Next) {
    match p
    case General(f, n) => f + n <= s.nx
    case Vector(f, n) => f + n <= s.nv
    case Stack(f, n) => f + n + 32 <= s.ns
  }

  predicate BeginsAfter(p: Place, s: Next) {
    match p
    case General(f, n) => s.nx <= f
    case Vector(f, n) => s.nv <= f
    case Stack(f, n) => s.ns <= f + 32
  }

  // Where the standard puts an argument

  /** The first general register that the argument can have: those aligned to 16 bytes start at an even one. */
  function FirstGeneral(arg: Arg, s: Next): nat {
    if !arg.ByReference() && arg.Align() == 16 && (arg.kind == Struct || arg.Size() > 8) then (s.nx + 1) / 2 * 2
    else s.nx
  }

  /** There are registers left for all of it. */
  predicate Fits(arg: Arg, s: Next) {
    if arg.InVector() then s.nv + arg.Lanes() <= 8 else FirstGeneral(arg, s) + arg.Doublewords() <= 8
  }

  /** The first stack offset that the argument can have. */
  function FirstOffset(arg: Arg, s: Next): nat {
    if arg.ByReference() || arg.kind == Float || arg.kind == Double then s.ns else RoundUp(s.ns, arg.Align())
  }

  /** The next registers if they are enough, else the next bytes of the stack. */
  function Home(arg: Arg, s: Next): Place
    requires s.Valid()
  {
    if !Fits(arg, s) then
      FirstOffsetIs(arg, s);
      Stack(FirstOffset(arg, s) - 32, 8 * arg.Doublewords())
    else if arg.InVector() then Vector(s.nv, arg.Lanes())
    else General(FirstGeneral(arg, s), arg.Doublewords())
  }

  /** What is left then. Once one argument goes to the stack, so do all later ones of its class. */
  function After(arg: Arg, s: Next): Next {
    var end := FirstOffset(arg, s) + 8 * arg.Doublewords();
    if arg.InVector() then
      if Fits(arg, s) then s.(nv := s.nv + arg.Lanes()) else s.(nv := 8, ns := end)
    else
      if Fits(arg, s) then s.(nx := FirstGeneral(arg, s) + arg.Doublewords()) else s.(nx := 8, ns := end)
  }

  lemma FirstOffsetIs(arg: Arg, s: Next)
    ensures s.ns <= FirstOffset(arg, s)
  {
    RoundUpIs(s.ns, arg.Align());
  }

  /** The argument went from the free space of s to the used space of t, to where it belongs. */
  predicate Took(arg: Arg, code: nat, s: Next, t: Next)
    requires s.Valid()
  {
    && PlaceOf(arg, code) == Home(arg, s) && t == After(arg, s)
    && t.Valid() && s.nx <= t.nx && s.nv <= t.nv && s.ns <= t.ns
    && BeginsAfter(PlaceOf(arg, code), s) && EndsBy(PlaceOf(arg, code), t) && Allowed(arg, code, t.ns - 32)
    && (OnStack(arg, code) ==> if arg.InVector() then t.nv == 8 else t.nx == 8)
    && ((if arg.InVector() then s.nv == 8 else s.nx == 8) ==> OnStack(arg, code))
  }

  lemma TookGeneral(arg: Arg, first: nat, s: Next, nx: nat)
    requires arg.Valid() && s.Valid() && !arg.InVector() && s.nx < 8
    requires first == FirstGeneral(arg, s) && nx == first + arg.Doublewords() <= 8
    ensures Took(arg, first * 2 + (if arg.ByReference() then 1 else 0), s, Next(nx, s.nv, s.ns))
  {}

  lemma TookVector(arg: Arg, s: Next, nv: nat)
    requires arg.Valid() && s.Valid() && arg.InVector() && nv == s.nv + arg.Lanes() <= 8
    ensures Took(arg, 16 + s.nv * 2, s, Next(s.nx, nv, s.ns))
  {}

  lemma LowBit(k: nat, bit: nat)
    requires bit < 2
    ensures (2 * k + bit) % 2 == bit
  {
    var n := 2 * k + bit;
    UniqueQuotient(k, bit, n / 2, n % 2, 2);
  }

  lemma StackPlace(arg: Arg, ns: nat, bit: nat)
    requires ns >= 32 && ns % 8 == 0 && bit < 2
    ensures PlaceOf(arg, ns + bit) == Stack(ns - 32, 8 * arg.Doublewords()) && (ns + bit) % 2 == bit
  {
    var k := ns / 8;
    assert ns == 2 * (4 * k);
    LowBit(4 * k, bit);
    StackPlaceOf(arg, ns + bit, bit);
  }

  lemma StackPlaceOf(arg: Arg, code: nat, bit: nat)
    requires code >= 32 && code % 2 == bit
    ensures PlaceOf(arg, code) == Stack(code - bit - 32, 8 * arg.Doublewords())
  {}

  lemma LessFour(ns: nat)
    requires ns >= 32 && ns % 8 == 0
    ensures (ns - 32) % 8 == 0
  {}

  lemma EightMore(ns: nat, d: nat)
    requires ns % 8 == 0
    ensures (ns + 8 * d) % 8 == 0
  {}

  lemma TookStack(arg: Arg, s: Next, ns: nat, nx: nat, nv: nat)
    requires arg.Valid() && s.Valid() && !Fits(arg, s) && ns == FirstOffset(arg, s) && s.ns <= ns && ns % 8 == 0
    requires if arg.InVector() then nv == 8 && nx == s.nx else nx == 8 && nv == s.nv
    requires !arg.ByReference() && !(arg.kind == Float || arg.kind == Double) ==> Aligned(ns, arg)
    ensures Took(arg, ns + (if arg.ByReference() then 1 else 0), s, Next(nx, nv, ns + 8 * arg.Doublewords()))
  {
    hide Pow2, Aligned, PlaceOf, Fits, FirstOffset, FirstGeneral, RoundUp, Arg.Doublewords;
    LessFour(ns);
    EightMore(ns, arg.Doublewords());
    StackPlace(arg, ns, if arg.ByReference() then 1 else 0);
  }

  lemma RoundUpSmall(nx: nat, size: nat, ns: nat)
    requires nx <= 8 && ns % 8 == 0
    ensures RoundUp(nx, 2) == (nx + 1) / 2 * 2
    ensures RoundUp(size, 8) == 8 * ((size + 7) / 8) && RoundUp(ns, 8) == ns
  {}

  method AlignedUp(ns: nat, arg: Arg) returns (r: nat)
    requires ns % 8 == 0
    ensures r == RoundUp(ns, arg.Align()) && ns <= r && r % 8 == 0 && Aligned(r, arg)
  {
    r := RoundUp(ns, arg.Align());
    RoundUpIs(ns, arg.Align());
    RoundUpEights(ns, if arg.kind == Pointer then 3 else arg.alignBits);
    Pow2Small();
  }

  /** Stages C.1 to C.6, for an argument that competes for vector registers. */
  method PlaceVector(arg: Arg, s: Next) returns (code: nat, t: Next)
    requires arg.Valid() && s.Valid() && arg.InVector()
    ensures Took(arg, code, s, t)
  {
    hide Took, Pow2, Aligned, RoundUp;
    RoundUpSmall(s.nx, arg.Size(), s.ns);
    var nv, ns, size := s.nv, s.ns, arg.Size();
    if arg.IsFloat() && nv < 8 {
      TookVector(arg, s, nv + 1);
      return 16 + nv * 2, Next(s.nx, nv + 1, ns);
    }
    if arg.hfa > 0 && nv + arg.hfa <= 8 {
      TookVector(arg, s, nv + arg.hfa);
      return 16 + nv * 2, Next(s.nx, nv + arg.hfa, ns);
    }
    if arg.hfa > 0 {
      nv := 8;
      size := RoundUp(size, 8);
    }
    if arg.hfa > 0 || arg.kind == LongDouble {
      ns := RoundUp(ns, 8);
      ns := AlignedUp(ns, arg);
    }
    if arg.kind == Float {
      size := 8;
    }
    TookStack(arg, s, ns, s.nx, nv);
    return ns, Next(s.nx, nv, ns + size);
  }

  /** Stages C.7 to C.15, for any other that is not passed by a pointer. */
  method PlaceGeneral(arg: Arg, s: Next) returns (code: nat, t: Next)
    requires arg.Valid() && s.Valid() && !arg.InVector() && !arg.ByReference()
    ensures Took(arg, code, s, t)
  {
    hide Took, Pow2, Aligned, RoundUp;
    RoundUpSmall(s.nx, arg.Size(), s.ns);
    var nx, ns := s.nx, s.ns;
    var size := if arg.kind == Struct then RoundUp(arg.Size(), 8) else arg.Size();
    if arg.kind != Struct && size <= 8 && nx < 8 {
      TookGeneral(arg, nx, s, nx + 1);
      return nx * 2, Next(nx + 1, s.nv, ns);
    }
    if arg.Align() == 16 {
      nx := RoundUp(nx, 2);
    }
    if arg.kind != Struct && size == 16 && nx < 7 {
      TookGeneral(arg, nx, s, nx + 2);
      return nx * 2, Next(nx + 2, s.nv, ns);
    }
    if arg.kind == Struct && size <= (8 - nx) * 8 {
      TookGeneral(arg, nx, s, nx + (size + 7) / 8);
      return nx * 2, Next(nx + (size + 7) / 8, s.nv, ns);
    }
    ns := RoundUp(ns, 8);
    ns := AlignedUp(ns, arg);
    TookStack(arg, s, ns, 8, s.nv);
    if arg.kind == Struct {
      return ns, Next(8, s.nv, ns + size);
    }
    if size < 8 {
      size := 8;
    }
    return ns, Next(8, s.nv, ns + size);
  }

  /** One turn of the loop of arm64_pcs_aux. */
  method PlaceArg(arg: Arg, s: Next) returns (code: nat, t: Next)
    requires arg.Valid() && s.Valid()
    ensures Took(arg, code, s, t)
  {
    hide Took, Pow2, Aligned, RoundUp;
    if !arg.ByReference() {
      if arg.InVector() {
        code, t := PlaceVector(arg, s);
      } else {
        code, t := PlaceGeneral(arg, s);
      }
      return;
    }
    if s.nx < 8 {
      TookGeneral(arg, s.nx, s, s.nx + 1);
      return s.nx * 2 + 1, Next(s.nx + 1, s.nv, s.ns);
    }
    RoundUpSmall(s.nx, arg.Size(), s.ns);
    var ns := RoundUp(s.ns, 8);
    TookStack(arg, s, ns, s.nx, s.nv);
    return ns + 1, Next(s.nx, s.nv, ns + 8);
  }

  // What that comes to, in numbers

  /** A pointer to a copy takes the next general register, and else the next doubleword of the stack. */
  lemma PointerPlaced(arg: Arg, code: nat, s: Next, t: Next)
    requires arg.Valid() && s.Valid() && Took(arg, code, s, t)
    requires arg.hfa == 0 && arg.kind != Pointer && arg.size > 16
    ensures s.nx < 8 ==> code == 2 * s.nx + 1 && t == Next(s.nx + 1, s.nv, s.ns)
    ensures s.nx == 8 ==> code == s.ns + 1 && t == Next(8, s.nv, s.ns + 8)
  {
    hide Pow2, RoundUp, Aligned;
  }

  /** A floating-point number takes the next vector register; else it goes to the stack, a long double
      where that is aligned for it. */
  lemma FloatPlaced(arg: Arg, code: nat, s: Next, t: Next)
    requires arg.Valid() && s.Valid() && Took(arg, code, s, t)
    requires arg.kind == Float || arg.kind == Double || arg.kind == LongDouble
    ensures s.nv < 8 ==> code == 16 + 2 * s.nv && t == Next(s.nx, s.nv + 1, s.ns)
    ensures s.nv == 8 && arg.kind != LongDouble ==> code == s.ns && t == Next(s.nx, 8, s.ns + 8)
    ensures s.nv == 8 && arg.kind == LongDouble ==>
      code % 8 == 0 && code % Pow2(arg.alignBits) == 0 && s.ns <= code < s.ns + Pow2(arg.alignBits)
      && t == Next(s.nx, 8, code + 16)
  {
    hide Pow2, RoundUp;
    RoundUpIs(s.ns, arg.Align());
    if !Fits(arg, s) { OnTheStack(arg, code, s, t); }
  }

  /** A homogeneous aggregate takes as many vector registers as it has members, all or none. */
  lemma AggregatePlaced(arg: Arg, code: nat, s: Next, t: Next)
    requires arg.Valid() && s.Valid() && Took(arg, code, s, t) && arg.hfa > 0
    ensures s.nv + arg.hfa <= 8 ==> code == 16 + 2 * s.nv && t == Next(s.nx, s.nv + arg.hfa, s.ns)
    ensures s.nv + arg.hfa > 8 ==>
      code % 8 == 0 && code % Pow2(arg.alignBits) == 0 && s.ns <= code < s.ns + Pow2(arg.alignBits)
      && t == Next(s.nx, 8, code + (arg.size + 7) / 8 * 8)
  {
    hide Pow2, RoundUp;
    RoundUpIs(s.ns, arg.Align());
    if !Fits(arg, s) { OnTheStack(arg, code, s, t); }
  }

  /** Everything else takes general registers, all or none: the next ones, but from an even one on if it is longer
      than a doubleword or a struct, and aligned to 16 bytes. */
  lemma GeneralPlaced(arg: Arg, code: nat, s: Next, t: Next)
    requires arg.Valid() && s.Valid() && Took(arg, code, s, t)
    requires arg.hfa == 0 && (arg.kind == Integer || arg.kind == Pointer || (arg.kind == Struct && arg.size <= 16))
    ensures var size := if arg.kind == Pointer then 8 else arg.size;
            var align := if arg.kind == Pointer then 8 else Pow2(arg.alignBits);
            var words := if size <= 8 then 1 else 2;
            var first := if align == 16 && (arg.kind == Struct || size > 8) && s.nx % 2 == 1 then s.nx + 1 else s.nx;
            if first + words <= 8 then code == 2 * first && t == Next(first + words, s.nv, s.ns)
            else
              && code % 8 == 0 && code % align == 0 && s.ns <= code < s.ns + align
              && t == Next(8, s.nv, code + 8 * words)
  {
    hide Took;
    GeneralFirst(arg, s);
    if Fits(arg, s) { InGeneral(arg, code, s, t); } else { BelowGeneral(arg, code, s, t); }
  }

  lemma GeneralFirst(arg: Arg, s: Next)
    requires arg.Valid() && arg.hfa == 0 && (arg.kind == Integer || arg.kind == Pointer || arg.kind == Struct)
    requires arg.kind == Struct ==> arg.size <= 16
    ensures var size := if arg.kind == Pointer then 8 else arg.size;
            var align := if arg.kind == Pointer then 8 else Pow2(arg.alignBits);
            && !arg.InVector() && !arg.ByReference() && arg.Align() == align
            && arg.Doublewords() == (if size <= 8 then 1 else 2)
            && FirstGeneral(arg, s) ==
               if align == 16 && (arg.kind == Struct || size > 8) && s.nx % 2 == 1 then s.nx + 1 else s.nx
  {
    hide Pow2;
  }

  lemma InGeneral(arg: Arg, code: nat, s: Next, t: Next)
    requires arg.Valid() && s.Valid() && Took(arg, code, s, t) && !arg.InVector() && !arg.ByReference() && Fits(arg, s)
    ensures code == 2 * FirstGeneral(arg, s)
    ensures t == Next(FirstGeneral(arg, s) + arg.Doublewords(), s.nv, s.ns)
  {
    hide Pow2, RoundUp, FirstGeneral, Arg.Doublewords;
  }

  lemma BelowGeneral(arg: Arg, code: nat, s: Next, t: Next)
    requires arg.Valid() && s.Valid() && Took(arg, code, s, t) && !arg.InVector() && !arg.ByReference() && !Fits(arg, s)
    ensures code % 8 == 0 && code % arg.Align() == 0 && s.ns <= code < s.ns + arg.Align()
    ensures t == Next(8, s.nv, code + 8 * arg.Doublewords())
  {
    hide Pow2, RoundUp, FirstGeneral, Fits, Arg.Doublewords;
    OnTheStack(arg, code, s, t);
    RoundUpIs(s.ns, arg.Align());
  }

  lemma OnTheStack(arg: Arg, code: nat, s: Next, t: Next)
    requires arg.Valid() && s.Valid() && Took(arg, code, s, t) && !arg.ByReference() && !Fits(arg, s)
    ensures code == FirstOffset(arg, s) && code % 8 == 0 && t.ns == code + 8 * arg.Doublewords()
  {
    hide Pow2, RoundUp, FirstOffset, Fits, Aligned;
    FirstOffsetIs(arg, s);
  }

  lemma FirstCode(arg: Arg, code: nat, t: Next)
    requires arg.Valid() && Took(arg, code, Next(0, 0, 32), t)
    ensures code == 0 || code == 1 || code == 16
  {}

  // All arguments

  /** The registers and the stack that the first i arguments leave. */
  function Before(args: seq<Arg>, i: nat): Next
    requires i <= |args|
  {
    if i == 0 then Next(0, 0, 32) else After(args[i - 1], Before(args, i - 1))
  }

  /** The first n numbers are the places where the standard puts the arguments, each after the ones before it. */
  predicate AtHome(args: seq<Arg>, a: seq<nat>, n: nat)
    requires n <= |args| && n <= |a|
  {
    forall i :: 0 <= i < n ==> IsHome(args[i], a[i], Before(args, i), Before(args, i + 1))
  }

  predicate IsHome(arg: Arg, code: nat, s: Next, t: Next) {
    s.Valid() && Took(arg, code, s, t)
  }

  /** The first argument finds all registers free. */
  lemma AllFree(args: seq<Arg>)
    ensures Before(args, 0) == Next(0, 0, 32)
  {}

  /** If the earlier of two arguments of a class is on the stack, so is the later. */
  predicate StackStays(arg: Arg, code: nat, arg': Arg, code': nat) {
    OnStack(arg, code) && arg.InVector() == arg'.InVector() ==> OnStack(arg', code')
  }

  /** The place is in the used space of s, and if it is on the stack no register of its class is left. */
  predicate Used(arg: Arg, code: nat, s: Next)
    requires s.Valid()
  {
    && EndsBy(PlaceOf(arg, code), s) && Allowed(arg, code, s.ns - 32)
    && (OnStack(arg, code) ==> if arg.InVector() then s.nv == 8 else s.nx == 8)
  }

  /** The first n numbers are places in the used space of s, apart from each other; and once an argument
      of either class is on the stack so are all later ones of that class. */
  predicate LaidOut(args: seq<Arg>, a: seq<nat>, n: nat, s: Next)
    requires n <= |args| && n <= |a|
  {
    && s.Valid()
    && (forall i :: 0 <= i < n ==> Used(args[i], a[i], s))
    && (forall i, j :: 0 <= i < j < n ==> Apart(PlaceOf(args[i], a[i]), PlaceOf(args[j], a[j])))
    && (forall i, j :: 0 <= i < j < n ==> StackStays(args[i], a[i], args[j], a[j]))
  }

  lemma ApartByOrder(p: Place, q: Place, s: Next)
    requires EndsBy(p, s) && BeginsAfter(q, s)
    ensures Apart(p, q)
  {}

  lemma StillUsed(arg: Arg, code: nat, s: Next, t: Next)
    requires s.Valid() && t.Valid() && s.nx <= t.nx && s.nv <= t.nv && s.ns <= t.ns && Used(arg, code, s)
    ensures Used(arg, code, t)
  {}

  lemma TookUses(arg: Arg, code: nat, s: Next, t: Next)
    requires s.Valid() && Took(arg, code, s, t)
    ensures t.Valid() && s.nx <= t.nx && s.nv <= t.nv && s.ns <= t.ns
    ensures Used(arg, code, t) && BeginsAfter(PlaceOf(arg, code), s)
    ensures IsHome(arg, code, s, t) && t == After(arg, s)
  {}

  /** An argument placed after another one. */
  lemma TookLater(arg: Arg, code: nat, arg': Arg, code': nat, s: Next, t: Next)
    requires s.Valid() && Used(arg, code, s) && Took(arg', code', s, t)
    ensures Apart(PlaceOf(arg, code), PlaceOf(arg', code')) && StackStays(arg, code, arg', code')
  {
    hide Apart, PlaceOf, EndsBy, BeginsAfter, Allowed, OnStack, Home, After;
    ApartByOrder(PlaceOf(arg, code), PlaceOf(arg', code'), s);
  }

  lemma LaidOutNext(args: seq<Arg>, a: seq<nat>, b: seq<nat>, n: nat, s: Next, t: Next)
    requires n < |args| && n < |a| && |b| == |a| && b[..n] == a[..n]
    requires LaidOut(args, a, n, s) && Took(args[n], b[n], s, t)
    ensures LaidOut(args, b, n + 1, t)
  {
    hide Apart, Used, Took, StackStays, PlaceOf, Home, After, IsHome;
    TookUses(args[n], b[n], s, t);
    forall i | 0 <= i < n
      ensures b[i] == a[i] && Used(args[i], b[i], t)
      ensures Apart(PlaceOf(args[i], b[i]), PlaceOf(args[n], b[n])) && StackStays(args[i], b[i], args[n], b[n])
    {
      assert b[..n][i] == a[..n][i];
      StillUsed(args[i], a[i], s, t);
      TookLater(args[i], a[i], args[n], b[n], s, t);
    }
  }

  lemma AtHomeNext(args: seq<Arg>, a: seq<nat>, b: seq<nat>, n: nat, s: Next, t: Next)
    requires n < |args| && n < |a| && |b| == |a| && b[..n] == a[..n] && s.Valid() && s == Before(args, n)
    requires AtHome(args, a, n) && Took(args[n], b[n], s, t)
    ensures AtHome(args, b, n + 1) && t == Before(args, n + 1)
  {
    hide Took, PlaceOf, Home, After, IsHome;
    TookUses(args[n], b[n], s, t);
    forall i | 0 <= i < n ensures IsHome(args[i], b[i], Before(args, i), Before(args, i + 1)) {
      assert b[..n][i] == a[..n][i];
    }
  }

  /** arm64_pcs_aux without a change of registers for variadic arguments (ELF): fills a and returns the
      size of the argument area. Every argument gets the registers left for it if they are enough. */
  method PcsAux(args: seq<Arg>, a: array<nat>) returns (stack: nat)
    requires a.Length >= |args| && forall arg :: arg in args ==> arg.Valid()
    modifies a
    ensures AtHome(args, a[..], |args|) && stack == Before(args, |args|).ns - 32 && stack % 8 == 0
    ensures forall i :: 0 <= i < |args| ==> Allowed(args[i], a[i], stack)
    ensures forall i, j :: 0 <= i < j < |args| ==> Apart(PlaceOf(args[i], a[i]), PlaceOf(args[j], a[j]))
    ensures forall i, j :: 0 <= i < j < |args| ==> StackStays(args[i], a[i], args[j], a[j])
    ensures |args| == 1 ==> a[0] == 0 || a[0] == 1 || a[0] == 16
    ensures a[|args|..] == old(a[|args|..])
  {
    hide Apart, PlaceOf, EndsBy, Allowed, OnStack, Took, StackStays, LaidOut, AtHome, Before;
    var s := Next(0, 0, 32);
    var i := 0;
    AtStart(args, a[..]);
    while i < |args|
      invariant 0 <= i <= |args| && s.Valid() && s == Before(args, i)
      invariant LaidOut(args, a[..], i, s) && AtHome(args, a[..], i)
      invariant i == 0 ==> s == Next(0, 0, 32)
      invariant i == 1 ==> a[0] == 0 || a[0] == 1 || a[0] == 16
      invariant a[|args|..] == old(a[|args|..])
    {
      ghost var before, s0 := a[..], s;
      a[i], s := PlaceArg(args[i], s);
      if i == 0 { FirstCode(args[0], a[0], s); }
      LaidOutNext(args, before, a[..], i, s0, s);
      AtHomeNext(args, before, a[..], i, s0, s);
      TookUses(args[i], a[i], s0, s);
      i := i + 1;
    }
    stack := s.ns - 32;
    LaidOutAll(args, a[..], s);
  }

  lemma AtStart(args: seq<Arg>, a: seq<nat>)
    ensures LaidOut(args, a, 0, Next(0, 0, 32)) && AtHome(args, a, 0) && Before(args, 0) == Next(0, 0, 32)
  {}

  lemma LaidOutAll(args: seq<Arg>, a: seq<nat>, s: Next)
    requires |args| <= |a| && LaidOut(args, a, |args|, s)
    ensures s.Valid() && forall i :: 0 <= i < |args| ==> Allowed(args[i], a[i], s.ns - 32)
    ensures forall i, j :: 0 <= i < j < |args| ==> Apart(PlaceOf(args[i], a[i]), PlaceOf(args[j], a[j]))
    ensures forall i, j :: 0 <= i < j < |args| ==> StackStays(args[i], a[i], args[j], a[j])
  {
    hide Apart, PlaceOf, EndsBy, Allowed, OnStack, StackStays;
  }

  /** A slot is aligned for its argument as long as the alignment is at most 32; the stack pointer's
      own slot number starts from 32. */
  lemma SlotAligned(arg: Arg, offset: nat)
    requires Aligned(offset + 32, arg)
    ensures offset % arg.Align() == 0 <==> arg.Align() <= 32
  {
    hide Pow2;
    var bits := if arg.kind == Pointer then 3 else arg.alignBits;
    Pow2Small();
    if bits <= 5 {
      Divides32(bits);
      SumsDivisible(offset, Pow2(bits), 32 / Pow2(bits));
    } else {
      Pow2Monotone(6, bits);
      NotBoth(offset, Pow2(bits));
    }
  }

  lemma Divides32(bits: nat)
    requires bits <= 5
    ensures 0 < Pow2(bits) <= 32 && 32 / Pow2(bits) * Pow2(bits) == 32
  {
    hide Pow2;
    Pow2Small();
  }

  lemma SumsDivisible(n: nat, a: nat, k: nat)
    requires a > 0 && k * a == 32 && (n + 32) % a == 0
    ensures n % a == 0
  {
    var p := (n + 32) / a;
    assert n + 32 == p * a;
    assert n == (p - k) * a;
    if p < k { MulLe(p - k, -1, a); }
    MultipleMod(p - k, a);
  }

  lemma NotBoth(n: nat, a: nat)
    requires a > 32 && (n + 32) % a == 0
    ensures n % a != 0
  {
    if n % a == 0 {
      var q, p := n / a, (n + 32) / a;
      assert n == q * a && n + 32 == p * a;
      assert (p - q) * a == 32;
      if p - q >= 1 { MulLe(1, p - q, a); } else { MulLe(p - q, 0, a); }
    }
  }

  /** f(int, struct of two longs): after the int in X0 the struct is put in X1 and X2, and if it is aligned
      to 16 bytes in X2 and X3. */
  lemma StructAfterInt(code: nat, t: Next)
    ensures Took(Arg(Integer, 4, 2, 0), code, Next(0, 0, 32), t) ==> code == 0 && t == Next(1, 0, 32)
    ensures Took(Arg(Struct, 16, 3, 0), code, Next(1, 0, 32), t) ==> code == 2 && t == Next(3, 0, 32)
    ensures Took(Arg(Struct, 16, 4, 0), code, Next(1, 0, 32), t) ==> code == 4 && t == Next(4, 0, 32)
  {
    hide Pow2, Took;
    Pow2Small();
    var one, pair, wide := Arg(Integer, 4, 2, 0), Arg(Struct, 16, 3, 0), Arg(Struct, 16, 4, 0);
    if Took(one, code, Next(0, 0, 32), t) { GeneralPlaced(one, code, Next(0, 0, 32), t); }
    if Took(pair, code, Next(1, 0, 32), t) { GeneralPlaced(pair, code, Next(1, 0, 32), t); }
    if Took(wide, code, Next(1, 0, 32), t) { GeneralPlaced(wide, code, Next(1, 0, 32), t); }
  }

  /** A struct of four long doubles that is aligned to 64 bytes, as the third argument of its kind, is put
      32 bytes into the argument area. */
  lemma SlotMisaligned()
    ensures var arg := Arg(Struct, 64, 6, 4); var args := [arg, arg, arg];
      && arg.Valid() && Before(args, 2).Valid() && Home(arg, Before(args, 2)) == Stack(32, 64)
      && arg.Align() == 64
  {
    hide Pow2;
    Pow2Small();
    var arg := Arg(Struct, 64, 6, 4);
    var args := [arg, arg, arg];
    assert Before(args, 1) == Next(0, 4, 32) && Before(args, 2) == Next(0, 8, 32);
    assert RoundUp(32, 64) == 64;
  }
}
