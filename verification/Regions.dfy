/** Address regions, the two search keys of the region index, and what a pointer
    check means on a plain set of regions. */
module Regions {
  import opened Options
  import opened Words

  datatype Kind = NoKind | Malloc

  /** The data of a tree node: everything but its two links. */
  datatype Region = Region(start: Word, size: Word, kind: Kind, invalid: bool) {
    /** Positive size, and the end does not wrap. */
    predicate WellFormed() {
      0 < size && start + size < W
    }

    predicate Contains(a: Word) {
      start <= a < start + size
    }

    predicate EndsAt(a: Word) {
      a == start + size
    }
  }

  predicate Before(a: Region, b: Region) {
    a.start + a.size <= b.start
  }

  /** The region index is searched with "contains addr" or with "ends at addr". */
  datatype Key = Containing(addr: Word) | EndingAt(addr: Word)

  /** compare and compare_end: negative, zero or positive as the key lies below, in or above g. */
  function Compare(k: Key, g: Region): int {
    var end := Add(g.start, g.size);
    match k
    case Containing(a) => if a < g.start then -1 else if a >= end then 1 else 0
    case EndingAt(a) => if a < end then -1 else if a > end then 1 else 0
  }

  lemma CompareMeaning(k: Key, g: Region)
    requires g.WellFormed()
    ensures Compare(k, g) == 0 <==> if k.Containing? then g.Contains(k.addr) else g.EndsAt(k.addr)
  {}

  /** Along disjoint regions in ascending order a key meets "above", at most one "in", then "below". */
  lemma CompareMonotone(k: Key, a: Region, b: Region)
    requires a.WellFormed() && b.WellFormed() && Before(a, b)
    ensures Compare(k, a) <= 0 ==> Compare(k, b) < 0
    ensures Compare(k, b) >= 0 ==> Compare(k, a) > 0
  {}

  /** Well-formed and pairwise disjoint. */
  ghost predicate Disjoint(regs: set<Region>) {
    && (forall g <- regs :: g.WellFormed())
    && (forall g <- regs, h <- regs :: g == h || Before(g, h) || Before(h, g))
  }

  ghost predicate Covered(regs: set<Region>, addr: Word) {
    exists g <- regs :: g.Contains(addr)
  }

  /** g can join the set without touching any region in it. */
  ghost predicate Clear(regs: set<Region>, g: Region) {
    g.WellFormed() && forall h <- regs :: Before(g, h) || Before(h, g)
  }

  /** The start of the region is covered, so that nothing is inserted, or all of it is clear. */
  ghost predicate Insertable(regs: set<Region>, addr: Word, size: Word) {
    Covered(regs, addr) || Clear(regs, Region(addr, size, NoKind, false))
  }

  ghost function Inserted(regs: set<Region>, addr: Word, size: Word): set<Region> {
    if Covered(regs, addr) then regs else regs + {Region(addr, size, NoKind, false)}
  }

  ghost function Removed(regs: set<Region>, addr: Word): set<Region> {
    set g | g in regs && g.start != addr
  }

  /** Insertion adds the region unless its start is covered, removal takes what starts at the address. */
  lemma MembersChange(regs: set<Region>, addr: Word, size: Word, g: Region)
    ensures g in Inserted(regs, addr, size) <==>
      g in regs || (g == Region(addr, size, NoKind, false) && forall c <- regs :: !(c.start <= addr < c.start + c.size))
    ensures g in Removed(regs, addr) <==> g in regs && g.start != addr
  {}

  // What a pointer check means

  /** The region a pointer belongs to: the one containing it, else the one ending at it. */
  ghost function Owner(regs: set<Region>, p: Word): Option<Region> {
    if g :| g in regs && g.Contains(p) then Some(g)
    else if g :| g in regs && g.EndsAt(p) then Some(g)
    else None
  }

  lemma OwnerIsUnique(regs: set<Region>, p: Word, g: Region)
    requires Disjoint(regs) && g in regs
    requires g.Contains(p) || (g.EndsAt(p) && !Covered(regs, p))
    ensures Owner(regs, p) == Some(g)
  {}

  datatype Report = Quiet | NotFound | Outside(region: Region)

  /** The test shared by pointer addition (n == 0) and access of n bytes: the sum wraps. */
  predicate Rejects(g: Region, p: Word, offset: Word, n: Word) {
    g.invalid || Add(Add(Sub(p, g.start), offset), n) > g.size
  }

  /** What a check of n bytes at p + offset reports, from the set of regions alone. */
  ghost function Verdict(regs: set<Region>, p: Word, offset: Word, n: Word): Report {
    if regs == {} then Quiet
    else match Owner(regs, p)
      case Some(g) => if Rejects(g, p, offset, n) then Outside(g) else Quiet
      case None => NotFound
  }

  /** What a check of the sum p + offset reports: nothing is known of sums with NULL. */
  ghost function SumVerdict(regs: set<Region>, p: Word, offset: Word): Report {
    match Verdict(regs, p, offset, 0)
    case NotFound => if p == 0 then Quiet else NotFound
    case v => v
  }

  /** What is reported for a pointer into g, or just past its end and into no region: that the sum, wrapped,
      leaves the region, or that g is gone. */
  lemma SumIsChecked(regs: set<Region>, p: Word, offset: Word, g: Region)
    requires Disjoint(regs) && g in regs && g.start <= p <= g.start + g.size
    requires p == g.start + g.size ==> forall h <- regs :: !(h.start <= p < h.start + h.size)
    ensures SumVerdict(regs, p, offset) ==
      if g.invalid || !(g.start <= Add(p, offset) <= g.start + g.size) then Outside(g) else Quiet
  {
    OwnerIsUnique(regs, p, g);
    AddCheckExact(g.(invalid := false), p, offset);
  }

  /** Likewise for an access: that its end leaves the region. */
  lemma AccessIsChecked(regs: set<Region>, p: Word, offset: Word, n: Word, g: Region)
    requires Disjoint(regs) && g in regs && g.start <= p <= g.start + g.size
    requires p == g.start + g.size ==> forall h <- regs :: !(h.start <= p < h.start + h.size)
    ensures Verdict(regs, p, offset, n) ==
      if g.invalid || !(g.start <= Add(Add(p, offset), n) <= g.start + g.size) then Outside(g) else Quiet
  {
    OwnerIsUnique(regs, p, g);
    AccessCheckExact(g.(invalid := false), p, offset, n);
  }

  /** Other pointers are not found, unless nothing is tracked yet; NULL passes in sums. */
  lemma StrangerIsChecked(regs: set<Region>, p: Word, offset: Word, n: Word)
    requires forall g <- regs :: !(g.start <= p <= g.start + g.size)
    ensures Verdict(regs, p, offset, n) == if regs == {} then Quiet else NotFound
    ensures SumVerdict(regs, p, offset) == if regs == {} || p == 0 then Quiet else NotFound
  {}

  /** Where a region of 8 bytes at 4096 begins and ends, and what may stand beside it. */
  lemma Edges()
    ensures var g := Region(4096, 8, NoKind, false);
      && !g.Contains(4095) && g.Contains(4096) && g.Contains(4103) && !g.Contains(4104)
      && g.EndsAt(4104) && !g.EndsAt(4103)
      && Before(g, Region(4104, 1, NoKind, false)) && !Before(g, Region(4103, 1, NoKind, false))
      && Disjoint({g, Region(4104, 1, NoKind, false)}) && !Disjoint({g, Region(4103, 1, NoKind, false)})
      && !Region(4096, 0, NoKind, false).WellFormed()
      && Region(0xffff_ffff_ffff_0000, 0xffff, NoKind, false).WellFormed()
      && !Region(0xffff_ffff_ffff_0000, 0x1_0000, NoKind, false).WellFormed()
      && Add(0xffff_ffff_ffff_ffff, 3) == 2 && Sub(2, 3) == 0xffff_ffff_ffff_ffff
  {
    var g, near, on := Region(4096, 8, NoKind, false), Region(4104, 1, NoKind, false), Region(4103, 1, NoKind, false);
    assert g in {g, near} && near in {g, near} && g in {g, on} && on in {g, on};
  }

  /** [target, target + n) lies inside g; the one-past-the-end pointer is inside for n == 0. */
  predicate Inside(g: Region, target: Word, n: Word) {
    g.start <= target && target + n <= g.start + g.size
  }

  /** Pointer addition is rejected exactly when the sum leaves [start, start + size]. */
  lemma AddCheckExact(g: Region, p: Word, offset: Word)
    requires g.WellFormed() && !g.invalid
    ensures Rejects(g, p, offset, 0) <==> !Inside(g, Add(p, offset), 0)
  {}

  /** Only where the access ends is looked at: it is rejected exactly when its end, wrapped, lies outside
      [start, start + size]. */
  lemma AccessCheckExact(g: Region, p: Word, offset: Word, n: Word)
    requires g.WellFormed() && !g.invalid
    ensures Rejects(g, p, offset, n) <==> !(g.start <= Add(Add(p, offset), n) <= g.start + g.size)
  {}

  /** The access starts below g, or above it and wraps around, and ends in it. */
  predicate Straddles(g: Region, target: Word, n: Word) {
    !(g.start <= target <= g.start + g.size) && g.start <= Add(target, n) <= g.start + g.size
  }

  /** It starts in g, runs past its end, around all the other addresses and back into g. */
  predicate Circles(g: Region, target: Word, n: Word) {
    g.start <= target <= g.start + g.size && g.start <= target + n - W
  }

  /** So an access that leaves the region passes exactly if it straddles its start or circles around. */
  lemma AccessCheckMeaning(g: Region, p: Word, offset: Word, n: Word)
    requires g.WellFormed() && !g.invalid
    ensures var target := Add(p, offset);
      Rejects(g, p, offset, n) <==> !Inside(g, target, n) && !Straddles(g, target, n) && !Circles(g, target, n)
    ensures var target := Add(p, offset);
      (Straddles(g, target, n) ==> !(g.start <= target <= g.start + g.size)) &&
      (Circles(g, target, n) ==> g.start <= target <= g.start + g.size && !Inside(g, target, n))
  {}

  /** A concrete straddle that passes: 4 bytes read 2 bytes below an 8-byte region. */
  lemma StraddlePasses()
    ensures var g := Region(4096, 8, NoKind, false);
      !Rejects(g, 4096, W - 2, 4) && !Inside(g, Add(4096, W - 2), 4)
  {}
}
