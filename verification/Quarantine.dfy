/** The ring of freed blocks as a machine on plain values, and what every run of it keeps. */
module Quarantine {
  import opened Bits
  import opened Options
  import opened Words
  import opened Regions

  const SLOTS: nat := 100

  /** The region set, the ring of quarantined addresses (0 for an empty slot) and its cursor. */
  datatype Heap = Heap(regs: set<Region>, ring: Ring, next: Slot)

  type Ring = s: seq<Word> | |s| == SLOTS witness seq(SLOTS, i => 0)

  type Slot = i: nat | i < SLOTS

  /** The slot the i-th successful free goes to. */
  function SlotOf(i: nat): Slot {
    i % 100
  }

  datatype FreeOutcome = Ignored | Untracked | DoubleFree | Quarantined

  ghost function Starting(regs: set<Region>, a: Word): Option<Region> {
    if g :| g in regs && g.start == a then Some(g) else None
  }

  /** __bound_malloc once the allocator has answered p. */
  ghost function MallocStep(h: Heap, p: Word, size: Word): Heap {
    if p == 0 then h
    else
      var regs := Inserted(h.regs, p, if size != 0 then size else 1);
      match Starting(regs, p)
      case Some(g) => h.(regs := regs - {g} + {g.(kind := Malloc)})
      case None => h.(regs := regs)
  }

  /** __bound_free: the new heap, the address handed on to the allocator (0 for none), the outcome. */
  ghost function FreeStep(h: Heap, p: Word): (Heap, Word, FreeOutcome)
  {
    if p == 0 || h.regs == {} then (h, 0, Ignored)
    else match Starting(h.regs, p)
      case None => (h, p, Untracked)
      case Some(g) =>
        if g.invalid then (h, 0, DoubleFree)
        else
          var marked := h.regs - {g} + {g.(invalid := true)};
          var evicted := h.ring[h.next];
          var regs := if evicted != 0 then Removed(marked, evicted) else marked;
          (Heap(regs, h.ring[h.next := p], SlotOf(h.next + 1)), evicted, Quarantined)
  }

  lemma MallocAdds(h: Heap, p: Word, size: Word)
    requires Disjoint(h.regs) && p != 0 && !Covered(h.regs, p)
    ensures MallocStep(h, p, size) == h.(regs := h.regs + {Region(p, if size == 0 then 1 else size, Malloc, false)})
    ensures forall c <- h.regs :: c.start != p
  {
    var size' := if size == 0 then 1 else size;
    assert forall c <- h.regs :: c.start == p ==> c.Contains(p);
    assert Starting(h.regs + {Region(p, size', NoKind, false)}, p) == Some(Region(p, size', NoKind, false));
  }

  lemma MallocMarks(h: Heap, p: Word, size: Word, c: Region)
    requires Disjoint(h.regs) && p != 0 && c in h.regs && c.start == p
    ensures MallocStep(h, p, size) == h.(regs := h.regs - {c} + {Region(p, c.size, Malloc, c.invalid)})
    ensures Covered(h.regs, p) && forall g <- h.regs :: g.start == p ==> g == c
  {
    assert c.Contains(p) && Starting(h.regs, p) == Some(c);
  }

  /** A malloc that is answered adds a region of the size asked for, of one byte for none, or marks the one that
      starts there already; all other regions stay, and the ring does not move. */
  lemma MallocExact(h: Heap, p: Word, size: Word)
    requires Disjoint(h.regs) && p != 0
    ensures var h' := MallocStep(h, p, size); var covered := exists c <- h.regs :: c.start <= p < c.start + c.size;
      && h'.ring == h.ring && h'.next == h.next
      && forall g :: g in h'.regs <==>
           || (g in h.regs && g.start != p)
           || (covered && exists c <- h.regs :: c.start == p && g == Region(p, c.size, Malloc, c.invalid))
           || (!covered && g == Region(p, if size == 0 then 1 else size, Malloc, false))
  {
    hide Disjoint;
    assert Covered(h.regs, p) <==> exists c <- h.regs :: c.start <= p < c.start + c.size;
    if !Covered(h.regs, p) {
      hide MallocStep;
      MallocAdds(h, p, size);
    } else if c :| c in h.regs && c.start == p {
      hide MallocStep;
      MallocMarks(h, p, size, c);
    }
  }

  /** A free that succeeds marks its region, puts the address into the slot of the ring under the cursor, moves the
      cursor round the hundred slots, and gives back what was in the slot, with its region. */
  lemma FreeExact(h: Heap, p: Word, g: Region)
    requires Disjoint(h.regs) && p != 0 && g in h.regs && g.start == p && !g.invalid
    ensures var (h', release, outcome) := FreeStep(h, p);
      && outcome == Quarantined && release == h.ring[h.next] && |h.ring| == 100
      && h'.ring == h.ring[h.next := p] && h'.next == (if h.next == 99 then 0 else h.next + 1)
      && forall r :: r in h'.regs <==>
           && (release == 0 || r.start != release)
           && (r == Region(p, g.size, g.kind, true) || (r in h.regs && r.start != p))
  {
    assert Starting(h.regs, p) == Some(g);
  }

  // Runs

  /** NewRegion and DropRegion stand for regions outside the heap: locals, statics, alloca. */
  datatype Event =
    | MallocCall(ptr: Word, size: Word)
    | FreeCall(ptr: Word)
    | NewRegion(ptr: Word, size: Word)
    | DropRegion(ptr: Word)
    | SumCheck(ptr: Word, offset: Word)
    | AccessCheck(ptr: Word, offset: Word, width: Word)

  /** The heap; the outstanding blocks (start to length), of which the foreign ones have been freed without
      being answers of malloc; and the history: answers of malloc, foreign blocks, addresses freed with success,
      addresses given back out of the ring, addresses handed straight on to the allocator because no region
      starts there, all that was handed to the allocator, and what the checks reported. */
  datatype World = World(heap: Heap, blocks: map<Word, nat>, foreign: set<Word>,
                         allocs: seq<Word>, adopted: seq<Word>, frees: seq<Word>,
                         released: seq<Word>, stray: seq<Word>, handed: seq<Word>, reports: seq<Report>)

  const START := World(Heap({}, seq(SLOTS, i => 0), 0), map[], {}, [], [], [], [], [], [], [])

  predicate Apart(a: Word, m: nat, b: Word, n: nat) {
    a + m <= b || b + n <= a
  }

  /** [a, a + n) is memory nobody uses. */
  ghost predicate Unused(w: World, a: Word, n: nat) {
    && (forall b <- w.blocks :: Apart(a, n, b, w.blocks[b]))
    && (forall g <- w.heap.regs :: Apart(a, n, g.start, g.size))
  }

  /** The allocator answers NULL or an unused block of size + 1 bytes, and survives what it is handed; the
      program frees and checks what it likes, and only regions that are no blocks are dropped. */
  ghost predicate Enabled(w: World, e: Event) {
    match e
    case MallocCall(p, size) => p != 0 ==> p + size + 1 < W && Unused(w, p, size + 1)
    case NewRegion(p, size) => 0 < size && p + size < W && Unused(w, p, size)
    case DropRegion(p) => p !in w.blocks
    case _ => true
  }

  /** A region that is freed is a block from then on. */
  ghost function Adopt(w: World, p: Word): World {
    match Starting(w.heap.regs, p)
    case Some(g) =>
      if p in w.blocks then w
      else w.(blocks := w.blocks[p := g.size], foreign := w.foreign + {p}, adopted := w.adopted + [p])
    case None => w
  }

  ghost function Next(w: World, e: Event): World
  {
    match e
    case MallocCall(p, size) =>
      if p == 0 then w
      else w.(heap := MallocStep(w.heap, p, size), blocks := w.blocks[p := size + 1], allocs := w.allocs + [p])
    case FreeCall(p) => AfterFree(w, p)
    case NewRegion(p, size) => w.(heap := w.heap.(regs := Inserted(w.heap.regs, p, size)))
    case DropRegion(p) => w.(heap := w.heap.(regs := Removed(w.heap.regs, p)))
    case SumCheck(p, offset) => w.(reports := w.reports + [SumVerdict(w.heap.regs, p, offset)])
    case AccessCheck(p, offset, n) => w.(reports := w.reports + [Verdict(w.heap.regs, p, offset, n)])
  }

  ghost function AfterFree(w: World, p: Word): World {
    var (h, release, outcome) := FreeStep(w.heap, p);
    var handed := if release != 0 then w.handed + [release] else w.handed;
    match outcome
    case Quarantined =>
      var a := Adopt(w, p);
      a.(heap := h, blocks := a.blocks - {release}, foreign := a.foreign - {release}, frees := w.frees + [p],
         released := if release != 0 then w.released + [release] else w.released, handed := handed)
    case Untracked => w.(stray := w.stray + [release], handed := handed)
    case _ => w
  }

  /** What each call adds to the history: a malloc its answer, a block; a free of a region its address, a foreign block
      if it was none yet, and what the ring gives back, which ceases to be a block; a free of anything else a stray. */
  lemma HistoryGrows(w: World, p: Word, size: Word, g: Region)
    requires Disjoint(w.heap.regs) && p != 0
    ensures Next(w, MallocCall(p, size)) ==
      w.(heap := MallocStep(w.heap, p, size), blocks := w.blocks[p := size + 1], allocs := w.allocs + [p])
    ensures g in w.heap.regs && g.start == p && !g.invalid ==>
      var t, out := Next(w, FreeCall(p)), w.heap.ring[w.heap.next];
      && t.frees == w.frees + [p] && t.blocks.Keys == w.blocks.Keys + {p} - {out}
      && t.foreign == w.foreign + (if p in w.blocks then {} else {p}) - {out}
      && t.adopted == w.adopted + (if p in w.blocks then [] else [p])
      && t.released == w.released + (if out == 0 then [] else [out])
      && t.handed == w.handed + (if out == 0 then [] else [out])
      && t.stray == w.stray && t.allocs == w.allocs && t.reports == w.reports
    ensures w.heap.regs != {} && (forall h <- w.heap.regs :: h.start != p) ==>
      Next(w, FreeCall(p)) == w.(stray := w.stray + [p], handed := w.handed + [p])
  {
    if g in w.heap.regs && g.start == p {
      assert Starting(w.heap.regs, p) == Some(g);
    }
  }

  /** After all events, whatever they are. */
  ghost function After(w: World, es: seq<Event>): World
    decreases |es|
  {
    if es == [] then w else After(Next(w, es[0]), es[1..])
  }

  ghost predicate Run(w: World, es: seq<Event>, w': World)
    decreases |es|
  {
    if es == [] then w == w'
    else Enabled(w, es[0]) && Run(Next(w, es[0]), es[1..], w')
  }

  // What every run keeps

  /** How many successful frees have already left the ring. */
  function Gone(w: World): nat {
    if |w.frees| <= SLOTS then 0 else |w.frees| - SLOTS
  }

  /** Regions and blocks agree, and no two of them overlap. */
  ghost predicate Heaped(regs: set<Region>, blocks: map<Word, nat>) {
    && Disjoint(regs) && 0 !in blocks
    && (forall b <- blocks :: exists g <- regs :: g.start == b)
    && (forall g <- regs :: g.start in blocks ==> g.size <= blocks[g.start])
    && (forall g <- regs :: g.start !in blocks ==> forall b <- blocks :: Apart(g.start, g.size, b, blocks[b]))
    && (forall a <- blocks, b <- blocks :: a == b || Apart(a, blocks[a], b, blocks[b]))
  }

  /** The ring holds the last hundred successful frees, each in its own slot; the earlier
      ones, and only they, have been given back, in the order they were freed. */
  ghost predicate Ringed(w: World) {
    && w.heap.next == SlotOf(|w.frees|)
    && (forall j :: Gone(w) <= j < |w.frees| ==> w.heap.ring[SlotOf(j)] == w.frees[j])
    && (forall i :: |w.frees| <= i < SLOTS ==> w.heap.ring[i] == 0)
    && w.released == w.frees[..Gone(w)]
  }

  /** The frees still in the ring are distinct blocks, and they are the invalid regions. */
  ghost predicate Held(regs: set<Region>, blocks: map<Word, nat>, pending: seq<Word>) {
    && (forall p <- pending :: p in blocks)
    && (forall i, j :: 0 <= i < j < |pending| ==> pending[i] != pending[j])
    && (forall g <- regs :: g.invalid <==> g.start in pending)
  }

  function Pending(w: World): seq<Word> {
    w.frees[Gone(w)..]
  }

  /** Every block is still out or was given back once. */
  ghost predicate Counted(w: World) {
    && multiset(w.allocs) + multiset(w.adopted) == multiset(w.released) + multiset(w.blocks.Keys)
    && multiset(w.handed) == multiset(w.released) + multiset(w.stray) && w.foreign <= w.blocks.Keys
  }

  /** What no event whatever can break: the ring, and that every invalid region is in it. */
  ghost predicate Steady(w: World) {
    && Ringed(w) && (forall f <- w.frees :: f != 0)
    && forall g <- w.heap.regs :: g.invalid ==> g.start in Pending(w)
  }

  ghost predicate Inv(w: World) {
    && Heaped(w.heap.regs, w.blocks) && Steady(w)
    && Held(w.heap.regs, w.blocks, Pending(w)) && Counted(w)
  }

  lemma StartInv()
    ensures Inv(START)
  {}

  lemma StartingIsUnique(regs: set<Region>, g: Region)
    requires Disjoint(regs) && g in regs
    ensures Starting(regs, g.start) == Some(g)
  {}

  /** A region placed in unused memory touches no other. */
  lemma FreshClear(w: World, n: nat, g: Region)
    requires Heaped(w.heap.regs, w.blocks) && Unused(w, g.start, n) && 0 < g.size <= n && g.start + n < W
    ensures Clear(w.heap.regs, g) && Disjoint(w.heap.regs + {g}) && !Covered(w.heap.regs, g.start)
    ensures g.start !in w.blocks && forall h <- w.heap.regs :: h.start != g.start
  {}

  lemma MallocValue(w: World, p: Word, size: Word)
    requires Heaped(w.heap.regs, w.blocks) && p != 0 && Enabled(w, MallocCall(p, size))
    ensures var g := Region(p, if size != 0 then size else 1, Malloc, false);
      MallocStep(w.heap, p, size) == w.heap.(regs := w.heap.regs + {g})
  {
    var g := Region(p, if size != 0 then size else 1, NoKind, false);
    FreshClear(w, size + 1, g);
    StartingIsUnique(w.heap.regs + {g}, g);
  }

  lemma GrowHeaped(regs: set<Region>, blocks: map<Word, nat>, g: Region, n: nat)
    requires Heaped(regs, blocks) && Disjoint(regs + {g}) && 0 < g.size <= n && g.start != 0
    requires g.start !in blocks && forall h <- regs :: h.start != g.start
    requires forall b <- blocks :: Apart(g.start, n, b, blocks[b])
    requires forall h <- regs :: Apart(g.start, n, h.start, h.size)
    ensures Heaped(regs + {g}, blocks[g.start := n])
  {
    hide Disjoint;
    var blocks' := blocks[g.start := n];
    forall b <- blocks' ensures exists h <- regs + {g} :: h.start == b {
      if b == g.start {
        assert g in regs + {g};
      } else {
        var h :| h in regs && h.start == b;
        assert h in regs + {g};
      }
    }
  }

  lemma MallocHeaped(w: World, p: Word, size: Word)
    requires Heaped(w.heap.regs, w.blocks) && p != 0 && Enabled(w, MallocCall(p, size))
    ensures Heaped(AfterMalloc(w, p, size).heap.regs, AfterMalloc(w, p, size).blocks)
  {
    hide Disjoint, Clear, Covered, Heaped;
    var g := Region(p, if size != 0 then size else 1, Malloc, false);
    FreshClear(w, size + 1, g);
    GrowHeaped(w.heap.regs, w.blocks, g, size + 1);
  }

  lemma MallocHeld(w: World, p: Word, size: Word)
    requires Heaped(w.heap.regs, w.blocks) && Held(w.heap.regs, w.blocks, Pending(w)) && p != 0
    requires Enabled(w, MallocCall(p, size))
    ensures var w' := AfterMalloc(w, p, size); Held(w'.heap.regs, w'.blocks, Pending(w'))
  {
    FreshClear(w, size + 1, Region(p, if size != 0 then size else 1, Malloc, false));
    assert p !in Pending(w);
  }

  lemma MallocCounted(w: World, p: Word, size: Word)
    requires Heaped(w.heap.regs, w.blocks) && Counted(w) && p != 0 && Enabled(w, MallocCall(p, size))
    ensures Counted(AfterMalloc(w, p, size))
  {
    FreshClear(w, size + 1, Region(p, if size != 0 then size else 1, Malloc, false));
    KeysWith(w.blocks, p, size + 1);
    assert multiset(w.allocs + [p]) == multiset(w.allocs) + multiset{p};
    BothMore(multiset(w.allocs), multiset(w.adopted), multiset(w.released), multiset(w.blocks.Keys), multiset{p});
  }

  lemma BothMore(a: multiset<Word>, b: multiset<Word>, c: multiset<Word>, d: multiset<Word>, m: multiset<Word>)
    requires a + b == c + d
    ensures (a + m) + b == c + (d + m) && a + (b + m) == c + (d + m)
  {
    assert (a + m) + b == (a + b) + m && a + (b + m) == (a + b) + m && c + (d + m) == (c + d) + m;
  }

  lemma KeysWith(blocks: map<Word, nat>, p: Word, n: nat)
    requires p !in blocks
    ensures multiset(blocks[p := n].Keys) == multiset(blocks.Keys) + multiset{p}
  {
    assert blocks[p := n].Keys == blocks.Keys + {p};
  }

  /** Next for a malloc that was answered, with the step worked out. */
  ghost function AfterMalloc(w: World, p: Word, size: Word): World {
    w.(heap := w.heap.(regs := w.heap.regs + {Region(p, if size != 0 then size else 1, Malloc, false)}),
       blocks := w.blocks[p := size + 1], allocs := w.allocs + [p])
  }

  lemma MallocKeeps(w: World, p: Word, size: Word)
    requires Inv(w) && p != 0 && Enabled(w, MallocCall(p, size))
    ensures Inv(Next(w, MallocCall(p, size)))
  {
    hide Heaped, Held, Counted, Steady, MallocStep, Unused;
    SteadyNext(w, MallocCall(p, size));
    MallocValue(w, p, size);
    MallocHeaped(w, p, size);
    MallocHeld(w, p, size);
    MallocCounted(w, p, size);
  }

  lemma NewHeaped(regs: set<Region>, blocks: map<Word, nat>, g: Region)
    requires Heaped(regs, blocks) && Disjoint(regs + {g})
    requires g.start !in blocks && forall b <- blocks :: Apart(g.start, g.size, b, blocks[b])
    ensures Heaped(regs + {g}, blocks)
  {
    hide Disjoint;
    forall b <- blocks ensures exists h <- regs + {g} :: h.start == b {
      var h :| h in regs && h.start == b;
      assert h in regs + {g};
    }
  }

  lemma NewKeeps(w: World, p: Word, size: Word)
    requires Inv(w) && Enabled(w, NewRegion(p, size))
    ensures Inv(Next(w, NewRegion(p, size)))
  {
    hide Disjoint, Clear, Heaped, Steady, Counted;
    var g := Region(p, size, NoKind, false);
    FreshClear(w, size, g);
    NewHeaped(w.heap.regs, w.blocks, g);
    SteadyNext(w, NewRegion(p, size));
    KeepRing(w, w.heap.regs + {g});
  }

  lemma DropHeaped(regs: set<Region>, blocks: map<Word, nat>, p: Word)
    requires Heaped(regs, blocks) && p !in blocks
    ensures Heaped(Removed(regs, p), blocks)
  {
    forall b <- blocks ensures exists h <- Removed(regs, p) :: h.start == b {
      var h :| h in regs && h.start == b;
      assert h in Removed(regs, p);
    }
  }

  lemma DropKeeps(w: World, p: Word)
    requires Inv(w) && Enabled(w, DropRegion(p))
    ensures Inv(Next(w, DropRegion(p)))
  {
    hide Heaped, Steady, Counted;
    DropHeaped(w.heap.regs, w.blocks, p);
    SteadyNext(w, DropRegion(p));
    KeepRing(w, Removed(w.heap.regs, p));
  }

  /** The counts do not look at the regions. */
  lemma KeepRing(w: World, regs: set<Region>)
    ensures var w' := w.(heap := w.heap.(regs := regs));
      (Counted(w) ==> Counted(w')) && Pending(w') == Pending(w)
  {}

  // Free

  lemma FreeFinds(w: World, p: Word) returns (g: Region)
    requires Heaped(w.heap.regs, w.blocks) && p in w.blocks
    ensures g in w.heap.regs && g.start == p && Starting(w.heap.regs, p) == Some(g)
  {
    g :| g in w.heap.regs && g.start == p;
    StartingIsUnique(w.heap.regs, g);
  }

  ghost function Mark(regs: set<Region>, g: Region): set<Region> {
    regs - {g} + {g.(invalid := true)}
  }

  lemma MarkHeaped(regs: set<Region>, blocks: map<Word, nat>, g: Region)
    requires Heaped(regs, blocks) && g in regs
    ensures Heaped(Mark(regs, g), blocks)
  {
    forall b <- blocks ensures exists h <- Mark(regs, g) :: h.start == b {
      if b == g.start {
        assert g.(invalid := true) in Mark(regs, g);
      } else {
        var h :| h in regs && h.start == b;
        assert h in Mark(regs, g);
      }
    }
  }

  lemma MarkHeld(regs: set<Region>, blocks: map<Word, nat>, pending: seq<Word>, g: Region)
    requires Disjoint(regs) && Held(regs, blocks, pending) && g in regs && !g.invalid && g.start in blocks
    ensures Held(Mark(regs, g), blocks, pending + [g.start])
  {
    assert g.start !in pending;
  }

  lemma ReleaseHeaped(regs: set<Region>, blocks: map<Word, nat>, e: Word)
    requires Heaped(regs, blocks)
    ensures Heaped(Removed(regs, e), blocks - {e})
  {
    forall b <- blocks - {e} ensures exists h <- Removed(regs, e) :: h.start == b {
      var h :| h in regs && h.start == b;
      assert h in Removed(regs, e);
    }
  }

  lemma ReleaseHeld(regs: set<Region>, blocks: map<Word, nat>, pending: seq<Word>)
    requires pending != [] && Held(regs, blocks, pending)
    ensures Held(Removed(regs, pending[0]), blocks - {pending[0]}, pending[1..])
  {
    var e, rest := pending[0], pending[1..];
    assert pending == [e] + rest;
    assert e !in rest;
  }

  lemma SlotsDiffer(i: nat, j: nat)
    requires i < j < i + SLOTS
    ensures SlotOf(i) != SlotOf(j)
  {}

  lemma SlotIs(i: nat, q: nat, r: Slot)
    requires i == q * 100 + r
    ensures SlotOf(i) == r
  {
    UniqueQuotient(i / 100, i % 100, q, r, 100);
  }

  lemma SlotAgain(i: nat)
    ensures SlotOf(i + SLOTS) == SlotOf(i) && SlotOf(SlotOf(i) + 1) == SlotOf(i + 1)
    ensures i < SLOTS ==> SlotOf(i) == i
  {
    var q, r := i / 100, SlotOf(i);
    assert i == q * 100 + r;
    SlotIs(i + SLOTS, q + 1, r);
    if r + 1 < SLOTS {
      SlotIs(r + 1, 0, r + 1);
      SlotIs(i + 1, q, r + 1);
    } else {
      SlotIs(i + 1, q + 1, 0);
    }
  }

  /** The slot under the cursor holds the free of a hundred frees ago, if there was one. */
  lemma CursorSlot(w: World)
    requires Ringed(w)
    ensures w.heap.ring[w.heap.next] == if |w.frees| < SLOTS then 0 else w.frees[|w.frees| - SLOTS]
  {
    if |w.frees| >= SLOTS { SlotAgain(|w.frees| - SLOTS); }
  }

  /** w' is w after a successful free of p, as far as the ring is concerned. */
  ghost predicate Advanced(w: World, w': World, p: Word) {
    && w'.heap.ring == w.heap.ring[w.heap.next := p] && w'.heap.next == SlotOf(w.heap.next + 1)
    && w'.frees == w.frees + [p]
    && w'.released == if |w.frees| < SLOTS then w.released else w.released + [w.frees[|w.frees| - SLOTS]]
  }

  lemma FreeHands(w: World, p: Word)
    ensures var (h, release, outcome) := FreeStep(w.heap, p);
      && AfterFree(w, p).heap == h && AfterFree(w, p).reports == w.reports
      && AfterFree(w, p).handed == w.handed + if release != 0 then [release] else []
  {}

  lemma StepAdvances(h: Heap, p: Word)
    requires FreeStep(h, p).2 == Quarantined
    ensures FreeStep(h, p).0.ring == h.ring[h.next := p] && FreeStep(h, p).0.next == SlotOf(h.next + 1)
    ensures FreeStep(h, p).1 == h.ring[h.next] && p != 0
  {
    hide SlotOf, Starting, Removed;
  }

  lemma FreeAdvances(w: World, p: Word)
    requires Steady(w) && FreeStep(w.heap, p).2 == Quarantined
    ensures Advanced(w, AfterFree(w, p), p) && p != 0
  {
    hide SlotOf, Steady, Adopt, FreeStep;
    StepAdvances(w.heap, p);
    SlotFilled(w);
  }

  /** A free of a hundred frees ago is no NULL. */
  lemma SlotFilled(w: World)
    requires Steady(w)
    ensures w.heap.ring[w.heap.next] == if |w.frees| < SLOTS then 0 else w.frees[|w.frees| - SLOTS]
    ensures w.heap.ring[w.heap.next] == 0 <==> |w.frees| < SLOTS
  {
    hide SlotOf;
    CursorSlot(w);
    if |w.frees| >= SLOTS { assert w.frees[|w.frees| - SLOTS] in w.frees; }
  }

  lemma AdvancedFilled(w: World, w': World, p: Word, j: nat)
    requires Ringed(w) && Advanced(w, w', p) && Gone(w') <= j < |w'.frees|
    ensures w'.heap.ring[SlotOf(j)] == w'.frees[j]
  {
    hide SlotOf, Pending;
    if j < |w.frees| { SlotsDiffer(j, |w.frees|); }
  }

  lemma AdvancedEmpty(w: World, w': World, p: Word, i: nat)
    requires Ringed(w) && Advanced(w, w', p) && |w'.frees| <= i < SLOTS
    ensures w'.heap.ring[i] == 0
  {
    hide SlotOf, Pending;
    SlotAgain(|w.frees|);
  }

  lemma AdvancedRinged(w: World, w': World, p: Word)
    requires Ringed(w) && Advanced(w, w', p)
    ensures Ringed(w')
  {
    hide SlotOf, Pending;
    forall j | Gone(w') <= j < |w'.frees| ensures w'.heap.ring[SlotOf(j)] == w'.frees[j] {
      AdvancedFilled(w, w', p, j);
    }
    forall i | |w'.frees| <= i < SLOTS ensures w'.heap.ring[i] == 0 { AdvancedEmpty(w, w', p, i); }
    SlotAgain(|w.frees|);
    ReleasedNext(w.frees, p);
  }

  lemma ReleasedNext(frees: seq<Word>, p: Word)
    ensures |frees| >= SLOTS ==> var i := |frees| - SLOTS; (frees + [p])[..i + 1] == frees[..i] + [frees[i]]
  {}

  lemma AdvancedPending(w: World, w': World, p: Word)
    requires w'.frees == w.frees + [p]
    ensures Pending(w') == if |w.frees| < SLOTS then Pending(w) + [p] else (Pending(w) + [p])[1..]
    ensures |w.frees| >= SLOTS ==> (Pending(w) + [p])[0] == w.frees[|w.frees| - SLOTS]
  {
    var i := Gone(w);
    if |w.frees| < SLOTS {
      assert w.frees[0..] + [p] == w'.frees[0..];
    } else {
      assert w.frees[i..] == [w.frees[i]] + w.frees[i + 1..];
      assert w'.frees[i + 1..] == w.frees[i + 1..] + [p];
    }
  }

  /** The regions after a successful free. */
  lemma FreedRegs(w: World, p: Word)
    requires Steady(w) && FreeStep(w.heap, p).2 == Quarantined
    ensures var g, n := Starting(w.heap.regs, p), |w.frees|;
      && g.Some? && g.value in w.heap.regs && g.value.start == p
      && AfterFree(w, p).heap.regs ==
         if n < SLOTS then Mark(w.heap.regs, g.value) else Removed(Mark(w.heap.regs, g.value), w.frees[n - SLOTS])
  {
    hide SlotOf, Removed;
    SlotFilled(w);
  }

  lemma FreeSteady(w: World, p: Word)
    requires Steady(w) && FreeStep(w.heap, p).2 == Quarantined
    ensures Steady(AfterFree(w, p))
  {
    hide AfterFree, Ringed, SlotOf, Mark, Removed, Pending, FreeStep, Starting;
    var w', all := AfterFree(w, p), Pending(w) + [p];
    FreeAdvances(w, p);
    AdvancedRinged(w, w', p);
    AdvancedPending(w, w', p);
    FreedRegs(w, p);
    var marked := Mark(w.heap.regs, Starting(w.heap.regs, p).value);
    MarkPending(w.heap.regs, Pending(w), Starting(w.heap.regs, p).value);
    if |w.frees| >= SLOTS { ReleasePending(marked, all); }
    assert forall f <- w'.frees :: f in w.frees || f == p;
  }

  lemma MarkPending(regs: set<Region>, pending: seq<Word>, g: Region)
    requires forall h <- regs :: h.invalid ==> h.start in pending
    ensures forall h <- Mark(regs, g) :: h.invalid ==> h.start in pending + [g.start]
  {}

  lemma ReleasePending(regs: set<Region>, pending: seq<Word>)
    requires pending != [] && forall h <- regs :: h.invalid ==> h.start in pending
    ensures forall h <- Removed(regs, pending[0]) :: h.invalid ==> h.start in pending[1..]
  {
    assert pending == [pending[0]] + pending[1..];
  }

  /** Every event keeps the ring, on every state of the heap. */
  lemma SteadyNext(w: World, e: Event)
    requires Steady(w)
    ensures Steady(Next(w, e))
  {
    hide Ringed, SlotOf;
    if e.FreeCall? && FreeStep(w.heap, e.ptr).2 == Quarantined {
      FreeSteady(w, e.ptr);
    } else {
      SameRing(w, Next(w, e));
    }
  }

  lemma SameRing(w: World, w': World)
    requires w'.heap.ring == w.heap.ring && w'.heap.next == w.heap.next
    requires w'.frees == w.frees && w'.released == w.released
    ensures Ringed(w) ==> Ringed(w')
    ensures Pending(w') == Pending(w)
  {}

  lemma {:induction false} SteadyAfter(w: World, es: seq<Event>)
    requires Steady(w)
    ensures Steady(After(w, es)) && w.frees <= After(w, es).frees
    decreases |es|
  {
    hide Steady;
    if es != [] {
      SteadyNext(w, es[0]);
      SteadyAfter(Next(w, es[0]), es[1..]);
      assert w.frees <= Next(w, es[0]).frees;
    }
  }

  lemma RegionsApart(w: World)
    requires Inv(w)
    ensures Disjoint(w.heap.regs) && 0 !in w.blocks
  {}

  /** What the slot under the cursor holds is a block. */
  lemma Evicts(w: World)
    requires Inv(w)
    ensures w.heap.ring[w.heap.next] == if |w.frees| < SLOTS then 0 else w.frees[|w.frees| - SLOTS]
    ensures |w.frees| >= SLOTS ==> w.frees[|w.frees| - SLOTS] in w.blocks && w.frees[|w.frees| - SLOTS] != 0
  {
    hide Disjoint, SlotOf;
    CursorSlot(w);
    if |w.frees| >= SLOTS { assert w.frees[|w.frees| - SLOTS] == Pending(w)[0]; }
  }

  /** What a free that succeeds makes of a block, with the step worked out. */
  ghost function Freed(w: World, g: Region): World {
    var n, marked := |w.frees|, Mark(w.heap.regs, g);
    var ring, next := w.heap.ring[w.heap.next := g.start], SlotOf(w.heap.next + 1);
    if n < SLOTS then w.(heap := Heap(marked, ring, next), frees := w.frees + [g.start])
    else
      var e := w.frees[n - SLOTS];
      w.(heap := Heap(Removed(marked, e), ring, next), blocks := w.blocks - {e}, foreign := w.foreign - {e},
         frees := w.frees + [g.start], released := w.released + [e], handed := w.handed + [e])
  }

  lemma StepValue(w: World, g: Region)
    requires Inv(w) && g in w.heap.regs && !g.invalid && g.start in w.blocks
    ensures FreeStep(w.heap, g.start) ==
      (Freed(w, g).heap, if |w.frees| < SLOTS then 0 else w.frees[|w.frees| - SLOTS], Quarantined)
    ensures |w.frees| >= SLOTS ==> w.frees[|w.frees| - SLOTS] != 0
  {
    hide SlotOf, Heaped, Held, Steady, Counted, Removed, Starting, Pending, Disjoint;
    RegionsApart(w);
    StartingIsUnique(w.heap.regs, g);
    Evicts(w);
  }

  lemma FreeValue(w: World, g: Region)
    requires Inv(w) && g in w.heap.regs && !g.invalid && g.start in w.blocks
    ensures FreeStep(w.heap, g.start).2 == Quarantined && AfterFree(w, g.start) == Freed(w, g)
  {
    hide SlotOf, Heaped, Held, Steady, Counted, Removed, Starting, Pending, FreeStep, Disjoint, Mark;
    RegionsApart(w);
    StepValue(w, g);
    ForeignBlocks(w);
    StartingIsUnique(w.heap.regs, g);
    assert |w.frees| < SLOTS ==> w.blocks - {0} == w.blocks && w.foreign - {0} == w.foreign;
  }

  lemma ForeignBlocks(w: World)
    requires Inv(w)
    ensures w.foreign <= w.blocks.Keys
  {}

  lemma FreeHeaped(w: World, g: Region)
    requires Heaped(w.heap.regs, w.blocks) && g in w.heap.regs
    ensures var w' := Freed(w, g); Heaped(w'.heap.regs, w'.blocks)
  {
    hide Heaped, Mark, Removed;
    MarkHeaped(w.heap.regs, w.blocks, g);
    if |w.frees| >= SLOTS {
      ReleaseHeaped(Mark(w.heap.regs, g), w.blocks, w.frees[|w.frees| - SLOTS]);
    }
  }

  lemma FreeHeld(w: World, g: Region)
    requires Heaped(w.heap.regs, w.blocks) && Held(w.heap.regs, w.blocks, Pending(w))
    requires g in w.heap.regs && !g.invalid && g.start in w.blocks
    ensures var w' := Freed(w, g); Held(w'.heap.regs, w'.blocks, Pending(w'))
  {
    hide Held, Mark, Removed;
    MarkHeld(w.heap.regs, w.blocks, Pending(w), g);
    var all := Pending(w) + [g.start];
    if |w.frees| < SLOTS {
      assert Pending(Freed(w, g)) == all;
    } else {
      ReleaseHeld(Mark(w.heap.regs, g), w.blocks, all);
      assert Pending(Freed(w, g)) == all[1..];
    }
  }

  lemma FreeCounted(w: World, g: Region)
    requires Held(w.heap.regs, w.blocks, Pending(w)) && Counted(w)
    ensures Counted(Freed(w, g))
  {
    hide Mark, Removed, SlotOf;
    if |w.frees| >= SLOTS {
      var e := w.frees[|w.frees| - SLOTS];
      assert e == Pending(w)[0];
      KeysWithout(w.blocks, e);
      assert multiset(w.released + [e]) == multiset(w.released) + multiset{e};
      assert multiset(w.handed + [e]) == multiset(w.handed) + multiset{e};
    }
  }

  lemma KeysWithout(blocks: map<Word, nat>, e: Word)
    requires e in blocks
    ensures multiset(blocks.Keys) == multiset((blocks - {e}).Keys) + multiset{e}
  {
    assert (blocks - {e}).Keys == blocks.Keys - {e};
  }

  /** A free of a quarantined or NULL address changes nothing. */
  lemma IdleFree(w: World, p: Word)
    requires Inv(w) && (p == 0 || p in Pending(w))
    ensures FreeStep(w.heap, p).0 == w.heap && FreeStep(w.heap, p).1 == 0
    ensures p != 0 ==> FreeStep(w.heap, p).2 == DoubleFree
    ensures AfterFree(w, p) == w
  {
    if p != 0 {
      var g := FreeFinds(w, p);
    }
  }

  lemma NoneStarting(regs: set<Region>, a: Word)
    requires forall g <- regs :: g.start != a
    ensures Starting(regs, a) == None
  {}

  /** A free of an address where no region starts leaves everything as it is, but for the allocator. */
  lemma StrayFree(w: World, p: Word)
    requires Inv(w) && p != 0 && forall g <- w.heap.regs :: g.start != p
    ensures AfterFree(w, p) ==
      if w.heap.regs == {} then w else w.(stray := w.stray + [p], handed := w.handed + [p])
  {
    NoneStarting(w.heap.regs, p);
  }

  lemma StrayKeeps(w: World, p: Word)
    requires Inv(w)
    ensures Inv(w.(stray := w.stray + [p], handed := w.handed + [p]))
  {
    hide Heaped, Held, Steady;
    var w' := w.(stray := w.stray + [p], handed := w.handed + [p]);
    SameRing(w, w');
    assert Steady(w') by { AlsoSteady(w, w'); }
    assert Counted(w') by { StrayCounted(w, p); }
  }

  lemma AlsoSteady(w: World, w': World)
    requires Steady(w) && w'.heap == w.heap && w'.frees == w.frees && w'.released == w.released
    ensures Steady(w') && Pending(w') == Pending(w)
  {}

  lemma StrayCounted(w: World, p: Word)
    requires Counted(w)
    ensures Counted(w.(stray := w.stray + [p], handed := w.handed + [p]))
  {}

  /** The free of a block that is not in quarantine. */
  lemma FreeBlock(w: World, p: Word)
    requires Inv(w) && p in w.blocks && p !in Pending(w)
    ensures FreeStep(w.heap, p).2 == Quarantined && Inv(AfterFree(w, p))
  {
    hide Steady, Counted, AfterFree, SlotOf;
    var g := FreeFinds(w, p);
    FreeValue(w, g);
    FreeSteady(w, p);
    FreeHeaped(w, g);
    FreeHeld(w, g);
    FreeCounted(w, g);
  }

  /** The free of a region that is no block is the free of a block. */
  lemma AdoptKeeps(w: World, g: Region)
    requires Inv(w) && g in w.heap.regs && g.start != 0 && g.start !in w.blocks
    ensures var a := Adopt(w, g.start);
      && Inv(a) && g.start in a.blocks && g.start !in Pending(a) && AfterFree(w, g.start) == AfterFree(a, g.start)
  {
    hide Steady, Counted, Heaped, Held, AfterFree, SlotOf;
    var a := Adopt(w, g.start);
    RegionsApart(w);
    StartingIsUnique(w.heap.regs, g);
    NotPending(w, g);
    AlsoSteady(w, a);
    AdoptHeaped(w.heap.regs, w.blocks, g);
    AdoptHeld(w.heap.regs, w.blocks, Pending(w), g);
    AdoptCounted(w, g);
    AdoptedOnce(w, g);
  }

  lemma NotPending(w: World, g: Region)
    requires Inv(w) && g in w.heap.regs && g.start !in w.blocks
    ensures g.start !in Pending(w) && !g.invalid
  {
    hide Steady, Counted, Heaped;
  }

  lemma AdoptHeaped(regs: set<Region>, blocks: map<Word, nat>, g: Region)
    requires Heaped(regs, blocks) && g in regs && g.start != 0 && g.start !in blocks
    ensures Heaped(regs, blocks[g.start := g.size])
  {
    hide Disjoint;
    OthersApart(regs, g);
    assert forall b <- blocks :: Apart(g.start, g.size, b, blocks[b]);
  }

  lemma OthersApart(regs: set<Region>, g: Region)
    requires Disjoint(regs) && g in regs
    ensures forall h <- regs :: h == g || (h.start != g.start && Apart(h.start, h.size, g.start, g.size))
  {}

  lemma AdoptHeld(regs: set<Region>, blocks: map<Word, nat>, pending: seq<Word>, g: Region)
    requires Held(regs, blocks, pending)
    ensures Held(regs, blocks[g.start := g.size], pending)
  {}

  lemma AdoptCounted(w: World, g: Region)
    requires Counted(w) && Starting(w.heap.regs, g.start) == Some(g) && g.start !in w.blocks
    ensures Counted(Adopt(w, g.start))
  {
    KeysWith(w.blocks, g.start, g.size);
    var p := multiset{g.start};
    assert multiset(w.adopted + [g.start]) == multiset(w.adopted) + p;
    BothMore(multiset(w.allocs), multiset(w.adopted), multiset(w.released), multiset(w.blocks.Keys), p);
  }

  lemma AdoptedOnce(w: World, g: Region)
    requires Starting(w.heap.regs, g.start) == Some(g) && g.start != 0 && !g.invalid && w.heap.regs != {}
    ensures AfterFree(w, g.start) == AfterFree(Adopt(w, g.start), g.start)
  {
    hide SlotOf;
  }

  /** No free whatever breaks the invariant. */
  lemma FreeKeeps(w: World, p: Word)
    requires Inv(w)
    ensures Inv(AfterFree(w, p))
  {
    hide Inv, AfterFree;
    if p == 0 || p in Pending(w) {
      IdleFree(w, p);
    } else if p in w.blocks {
      FreeBlock(w, p);
    } else if g :| g in w.heap.regs && g.start == p {
      AdoptKeeps(w, g);
      FreeBlock(Adopt(w, p), p);
    } else {
      StrayFree(w, p);
      StrayKeeps(w, p);
    }
  }

  /** The end of a region that is a block is all that can break it there. */
  lemma DropExact(w: World, p: Word)
    requires Inv(w)
    ensures Inv(Next(w, DropRegion(p))) <==> p !in w.blocks
  {
    hide Steady, Counted, Held;
    if p !in w.blocks {
      DropKeeps(w, p);
    }
  }

  /** A local at 4096 is freed and then ends: its address stays in the ring, with no region. */
  lemma LocalFreed()
    ensures var w := After(START, [NewRegion(4096, 8), FreeCall(4096), DropRegion(4096)]);
      !Inv(w) && 4096 in w.heap.ring && w.heap.regs == {}
  {
    hide Inv, AfterFree, SlotOf;
    var es := [NewRegion(4096, 8), FreeCall(4096), DropRegion(4096)];
    var w := Next(START, es[0]);
    StartInv();
    NewKeeps(START, 4096, 8);
    var g := Region(4096, 8, NoKind, false);
    assert w.heap.regs == {g};
    NothingFreed(w, g);
    var w1 := Next(w, es[1]);
    FreeKeeps(w, 4096);
    assert 4096 in w1.blocks && w1.heap.regs == {g.(invalid := true)} && w1.heap.ring[0] == 4096;
    DropExact(w1, 4096);
    var w2 := Next(w1, es[2]);
    assert es[1..][1..] == [es[2]] && es[1..][0] == es[1] && [es[2]][1..] == [];
    assert After(START, es) == w2;
  }

  /** The first successful free. */
  lemma NothingFreed(w: World, g: Region)
    requires Inv(w) && w.frees == [] && w.heap.next == 0 && w.blocks == map[] && w.heap.regs == {g} && g.start != 0
    ensures var w' := AfterFree(w, g.start);
      g.start in w'.blocks && w'.heap.regs == {g.(invalid := true)} && w'.heap.ring[0] == g.start
  {
    hide SlotOf;
    RegionsApart(w);
    NotPending(w, g);
    AdoptKeeps(w, g);
    FreeValue(Adopt(w, g.start), g);
  }

  lemma StepKeeps(w: World, e: Event)
    requires Inv(w) && Enabled(w, e)
    ensures Inv(Next(w, e))
  {
    match e
    case MallocCall(p, size) => if p != 0 { MallocKeeps(w, p, size); }
    case FreeCall(p) => FreeKeeps(w, p);
    case NewRegion(p, size) => NewKeeps(w, p, size);
    case DropRegion(p) => DropKeeps(w, p);
    case _ => AlsoSteady(w, Next(w, e));
  }

  /** The invariant holds after every run. */
  lemma {:induction false} RunKeeps(w: World, es: seq<Event>, w': World)
    requires Inv(w) && Run(w, es, w')
    ensures Inv(w')
    decreases |es|
  {
    if es != [] {
      StepKeeps(w, es[0]);
      RunKeeps(Next(w, es[0]), es[1..], w');
    }
  }

  // What the runs mean

  lemma RingIsPending(w: World, a: Word)
    requires Ringed(w) && 0 !in Pending(w)
    ensures a != 0 ==> (a in w.heap.ring <==> a in Pending(w))
  {
    hide SlotOf;
    if a != 0 && a in w.heap.ring {
      var i: Slot :| w.heap.ring[i] == a;
      var k := Occupant(w, i);
      assert Pending(w)[k - Gone(w)] == a;
    }
    if k :| 0 <= k < |Pending(w)| && Pending(w)[k] == a {
      assert w.heap.ring[SlotOf(Gone(w) + k)] == a;
    }
  }

  lemma RingDistinct(w: World, i: Slot, j: Slot)
    requires Ringed(w) && forall k, m :: 0 <= k < m < |Pending(w)| ==> Pending(w)[k] != Pending(w)[m]
    ensures w.heap.ring[i] == w.heap.ring[j] != 0 ==> i == j
  {
    hide SlotOf;
    if w.heap.ring[i] == w.heap.ring[j] != 0 {
      var k := Occupant(w, i);
      var m := Occupant(w, j);
      assert Pending(w)[k - Gone(w)] == Pending(w)[m - Gone(w)];
    }
  }

  /** In every reachable world the invalid regions are exactly the non-NULL ring entries,
      and no address is in the ring twice. */
  lemma InvalidIffInRing(es: seq<Event>, w: World)
    requires Run(START, es, w)
    ensures forall a: Word :: a != 0 ==>
      (a in w.heap.ring <==> exists g <- w.heap.regs :: g.start == a && g.invalid)
    ensures forall i: Slot, j: Slot :: w.heap.ring[i] == w.heap.ring[j] != 0 ==> i == j
  {
    hide Ringed, Counted, SlotOf, Pending;
    StartInv();
    RunKeeps(START, es, w);
    forall a: Word | a != 0
      ensures a in w.heap.ring <==> exists g <- w.heap.regs :: g.start == a && g.invalid
    {
      RingIsPending(w, a);
      if a in Pending(w) { var g := FreeFinds(w, a); }
    }
    forall i: Slot, j: Slot ensures w.heap.ring[i] == w.heap.ring[j] != 0 ==> i == j {
      RingDistinct(w, i, j);
    }
  }

  /** The free that a filled slot holds. */
  lemma Occupant(w: World, i: Slot) returns (k: nat)
    requires Ringed(w) && w.heap.ring[i] != 0
    ensures Gone(w) <= k < |w.frees| && SlotOf(k) == i && w.heap.ring[i] == w.frees[k]
  {
    hide SlotOf;
    var n := |w.frees|;
    if n <= SLOTS {
      k := i;
      SlotIs(i, 0, i);
    } else {
      var q := (n - 1 - i) / 100;
      k := q * 100 + i;
      SlotIs(k, q, i);
    }
  }

  /** While an address sits in the ring, freeing it again changes nothing, and a check through any pointer
      that belongs to its block is rejected, whatever the offset and width. */
  lemma PendingIsDead(w: World, p: Word)
    requires Inv(w) && p in Pending(w)
    ensures FreeStep(w.heap, p) == (w.heap, 0, DoubleFree)
    ensures exists g <- w.heap.regs :: g.start == p && forall q: Word, off: Word, n: Word ::
      g.start <= q < g.start + g.size || (g.EndsAt(q) && !Covered(w.heap.regs, q)) ==>
        Verdict(w.heap.regs, q, off, n) == Outside(g)
  {
    IdleFree(w, p);
    var g := FreeFinds(w, p);
    RegionsApart(w);
    forall q: Word, off: Word, n: Word | g.start <= q < g.start + g.size || (g.EndsAt(q) && !Covered(w.heap.regs, q))
      ensures Verdict(w.heap.regs, q, off, n) == Outside(g)
    {
      AccessIsChecked(w.heap.regs, q, off, n, g);
    }
  }

  /** On every run whatever, regions are only invalid while their address is in the ring. */
  lemma InvalidIsHeld(es: seq<Event>)
    ensures var w := After(START, es); forall g <- w.heap.regs :: g.invalid ==> g.start in w.heap.ring
  {
    hide Ringed, SlotOf, Next;
    StartInv();
    SteadyAfter(START, es);
    var w := After(START, es);
    forall g <- w.heap.regs | g.invalid ensures g.start in w.heap.ring {
      HeldInRing(w, g.start);
    }
  }

  lemma HeldInRing(w: World, a: Word)
    requires Ringed(w) && a in Pending(w)
    ensures a in w.heap.ring
  {
    hide SlotOf;
    var k :| 0 <= k < |Pending(w)| && Pending(w)[k] == a;
    assert w.heap.ring[SlotOf(Gone(w) + k)] == a;
  }

  /** On every run whatever, an address freed with success as the k-th is given back exactly when a hundred
      more frees have succeeded; until then it is in the ring. */
  lemma FreedUntilHundredMore(es: seq<Event>, p: Word, es': seq<Event>)
    requires FreeStep(After(START, es).heap, p).2 == Quarantined
    ensures var w := After(START, es); var w', k := After(Next(w, FreeCall(p)), es'), |w.frees|;
      && k < |w'.frees| && w'.frees[k] == p
      && (k < |w'.released| <==> k + 100 < |w'.frees|)
      && (k < |w'.released| ==> w'.released[k] == p)
      && (|w'.frees| <= k + 100 ==> p in w'.heap.ring)
  {
    hide AfterFree, FreeStep, After, SlotOf;
    var w, k := After(START, es), |After(START, es).frees|;
    StartInv();
    SteadyAfter(START, es);
    FreeAdvances(w, p);
    var w1 := Next(w, FreeCall(p));
    SteadyNext(w, FreeCall(p));
    SteadyAfter(w1, es');
    var w' := After(w1, es');
    assert w1.frees[k] == p;
    if |w'.frees| <= k + SLOTS {
      assert Pending(w')[k - Gone(w')] == p;
      HeldInRing(w', p);
    }
  }

  /** What becomes of a free. */
  lemma OutcomeExact(es: seq<Event>, w: World, p: Word)
    requires Run(START, es, w)
    ensures var starts := exists g <- w.heap.regs :: g.start == p;
      FreeStep(w.heap, p).2 ==
        if p == 0 || w.heap.regs == {} then Ignored
        else if !starts then Untracked
        else if p in w.heap.ring then DoubleFree
        else Quarantined
  {
    hide Counted, SlotOf;
    StartInv();
    RunKeeps(START, es, w);
    if p != 0 {
      RingIsPending(w, p);
      if g :| g in w.heap.regs && g.start == p {
        StartingIsUnique(w.heap.regs, g);
      } else {
        NoneStarting(w.heap.regs, p);
      }
    }
  }

  /** What a free hands to the allocator is nothing, or a block that malloc handed out and that is still out,
      exactly if nothing is freed, or a region starts at the address, and the slot it takes holds no foreign block. */
  lemma HandsBackBlocks(es: seq<Event>, w: World, p: Word)
    requires Run(START, es, w)
    ensures var release := FreeStep(w.heap, p).1;
      (release == 0 || (release in w.blocks && release !in w.foreign)) <==>
        p == 0 || w.heap.regs == {} ||
        exists g <- w.heap.regs :: g.start == p && (g.invalid || w.heap.ring[w.heap.next] !in w.foreign)
  {
    StartInv();
    RunKeeps(START, es, w);
    HandsBack(w, p);
  }

  lemma HandsBack(w: World, p: Word)
    requires Inv(w)
    ensures var release := FreeStep(w.heap, p).1;
      (release == 0 || (release in w.blocks && release !in w.foreign)) <==>
        p == 0 || w.heap.regs == {} ||
        exists g <- w.heap.regs :: g.start == p && (g.invalid || w.heap.ring[w.heap.next] !in w.foreign)
  {
    hide SlotOf, Heaped, Held, Steady, Counted, Removed;
    RegionsApart(w);
    ForeignBlocks(w);
    if p != 0 && w.heap.regs != {} {
      if g :| g in w.heap.regs && g.start == p {
        StartingIsUnique(w.heap.regs, g);
        Evicts(w);
      } else {
        NoneStarting(w.heap.regs, p);
        NoBlock(w, p);
      }
    }
  }

  lemma NoBlock(w: World, p: Word)
    requires Inv(w) && forall g <- w.heap.regs :: g.start != p
    ensures p !in w.blocks
  {
    hide Held, Counted, Ringed, Disjoint;
  }

  /** With a local in the index, the free of an address that malloc never answered reaches the allocator. */
  lemma StrayReaches()
    ensures exists w :: Run(START, [NewRegion(4096, 8), FreeCall(8192)], w) && w.handed == [8192]
  {
    var es := [NewRegion(4096, 8), FreeCall(8192)];
    var w1 := Next(START, es[0]);
    assert w1.heap.regs == {Region(4096, 8, NoKind, false)};
    NoneStarting(w1.heap.regs, 8192);
    var w := Next(w1, es[1]);
    assert es[1..] == [es[1]] && es[1..][1..] == [];
    assert Run(w, [], w) && Run(w1, es[1..], w) && Run(START, es, w);
  }

  /** Every address has left the ring as often as it became a block, by malloc or by being freed, except that
      it may still be out. So the allocator gets it back no more often than it was asked for it exactly if its
      strays and its frees as a foreign block are at most one while it is out, and else none. */
  lemma GivenBackOncePerMalloc(es: seq<Event>, w: World)
    requires Run(START, es, w)
    ensures forall a: Word :: multiset(w.allocs)[a] + multiset(w.adopted)[a] == multiset(w.released)[a] + Out(w, a)
    ensures forall a: Word ::
      multiset(w.handed)[a] <= multiset(w.allocs)[a] <==> multiset(w.stray)[a] + multiset(w.adopted)[a] <= Out(w, a)
  {
    hide Heaped, Held, Steady;
    StartInv();
    RunKeeps(START, es, w);
    forall a: Word
      ensures multiset(w.allocs)[a] + multiset(w.adopted)[a] == multiset(w.released)[a] + Out(w, a)
      ensures multiset(w.handed)[a] == multiset(w.released)[a] + multiset(w.stray)[a]
    {
      Balance(w, a);
    }
  }

  /** 1 for an outstanding block */
  function Out(w: World, a: Word): nat {
    if a in w.blocks then 1 else 0
  }

  lemma Balance(w: World, a: Word)
    requires Counted(w)
    ensures multiset(w.allocs)[a] + multiset(w.adopted)[a] == multiset(w.released)[a] + Out(w, a)
    ensures multiset(w.handed)[a] == multiset(w.released)[a] + multiset(w.stray)[a]
  {
    assert (multiset(w.allocs) + multiset(w.adopted))[a] == (multiset(w.released) + multiset(w.blocks.Keys))[a];
  }
}
