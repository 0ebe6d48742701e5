/** The entry points of lib/bcheck.c over the splayed region index. Every contract speaks of
    the set of regions only: no result depends on the shape the tree has been splayed into. */
module BoundsChecker {
  import opened Options
  import opened Words
  import opened Regions
  import opened SplayTree
  import opened RegionIndex
  import opened Frames
  import opened Quarantine

  const INVALID_POINTER: Word := W - 2

  /** The node the longjmp cleanup looks for: any whose region starts in [lo, hi]. */
  method FindIn(tree: Node?, lo: Word, hi: Word, ghost s0: Shape) returns (t: Node?)
    requires Rep(tree, s0) && Search(s0)
    ensures t == null ==> forall g <- Regs(s0) :: !(lo <= g.start <= hi)
    ensures t != null ==> t in Nodes(s0) && t.region in Regs(s0) && lo <= t.region.start <= hi
  {
    t := tree;
    ghost var s := s0;
    while t != null && (t.region.start < lo || t.region.start > hi)
      invariant Rep(t, s) && Search(s) && Nodes(s) <= Nodes(s0) && Regs(s) <= Regs(s0)
      invariant Abandoned(Regs(s0), lo, hi) <= Regs(s)
      decreases s
    {
      if t.region.start < lo {
        t, s := t.right, s.right;
      } else {
        t, s := t.left, s.left;
      }
    }
  }

  /** The unsigned difference tells where a pointer lies relative to a region. */
  lemma DifferenceLocates(p: Word, g: Region)
    requires g.WellFormed()
    ensures Sub(p, g.start) < g.size <==> g.Contains(p)
    ensures Sub(p, g.start) == g.size <==> g.EndsAt(p)
  {}

  lemma RootHit(p: Word, s: Shape)
    requires Search(s) && s.Branch? && s.region.Contains(p)
    ensures Owner(Regs(s), p) == Some(s.region)
  {}

  lemma RootEnds(p: Word, s: Shape)
    requires Search(s) && s.Branch? && Cloven(EndingAt(p), s) && !Covered(Regs(s), p)
    ensures Owner(Regs(s), p) == if s.region.EndsAt(p) then Some(s.region) else None
    ensures !s.region.Contains(p)
  {}

  lemma SumReports(regs: set<Region>, p: Word, offset: Word)
    requires Disjoint(regs)
    ensures forall g <- regs :: g.start <= p < g.start + g.size || (p == g.start + g.size && !Covered(regs, p)) ==>
      SumVerdict(regs, p, offset) ==
        if g.invalid || !(g.start <= Add(p, offset) <= g.start + g.size) then Outside(g) else Quiet
    ensures (forall g <- regs :: !(g.start <= p <= g.start + g.size)) ==>
      SumVerdict(regs, p, offset) == if regs == {} || p == 0 then Quiet else NotFound
  {
    hide SumVerdict, Disjoint;
    forall g <- regs | g.start <= p < g.start + g.size || (p == g.start + g.size && !Covered(regs, p))
      ensures SumVerdict(regs, p, offset) ==
        if g.invalid || !(g.start <= Add(p, offset) <= g.start + g.size) then Outside(g) else Quiet
    {
      SumIsChecked(regs, p, offset, g);
    }
    if forall g <- regs :: !(g.start <= p <= g.start + g.size) { StrangerIsChecked(regs, p, offset, 0); }
  }

  lemma AccessReports(regs: set<Region>, p: Word, offset: Word, n: Word)
    requires Disjoint(regs)
    ensures forall g <- regs :: g.start <= p < g.start + g.size || (p == g.start + g.size && !Covered(regs, p)) ==>
      Verdict(regs, p, offset, n) ==
        if g.invalid || !(g.start <= Add(Add(p, offset), n) <= g.start + g.size) then Outside(g) else Quiet
    ensures (forall g <- regs :: !(g.start <= p <= g.start + g.size)) ==>
      Verdict(regs, p, offset, n) == if regs == {} then Quiet else NotFound
  {
    hide Verdict, Disjoint;
    forall g <- regs | g.start <= p < g.start + g.size || (p == g.start + g.size && !Covered(regs, p))
      ensures Verdict(regs, p, offset, n) ==
        if g.invalid || !(g.start <= Add(Add(p, offset), n) <= g.start + g.size) then Outside(g) else Quiet
    {
      AccessIsChecked(regs, p, offset, n, g);
    }
    if forall g <- regs :: !(g.start <= p <= g.start + g.size) { StrangerIsChecked(regs, p, offset, n); }
  }

  class Checker {
    const index: Index
    const ring: array<Word>
    var next: nat
    var noChecking: int
    var neverFatal: int
    var inited: bool
    var allocas: seq<Alloca>
    var jumps: seq<Jump>

    ghost predicate Formed()
      reads this`next, index, index.Owned(), ring
    {
      index.Formed() && ring.Length == SLOTS && next < SLOTS
    }

    /** And the regions are disjoint and can be searched. */
    ghost predicate Valid()
      reads this`next, index, index.Owned(), ring
    {
      Formed() && index.Valid()
    }

    ghost function State(): Heap
      requires Formed()
      reads this`next, index, index.Owned(), ring
    {
      Heap(index.Regions(), ring[..], next)
    }

    /** Start-up is over and checking is not switched off. */
    predicate Checking()
      reads this`inited, this`noChecking
    {
      inited && noChecking == 0
    }

    constructor ()
      ensures fresh(index) && fresh(ring) && index.Owned() == {}
      ensures Valid() && State() == START.heap && allocas == [] && jumps == [] && Checking()
      ensures inited && noChecking == 0 && neverFatal == 0
      ensures index.Regions() == {} && next == 0 && ring.Length == 100 && forall i :: 0 <= i < 100 ==> ring[i] == 0
    {
      index := new Index();
      ring := new Word[SLOTS](i => 0);
      next, noChecking, neverFatal, inited, allocas, jumps := 0, 0, 0, true, [], [];
    }

    /** The lookup shared by all pointer checks: the root if it holds p, else a splay for the
        region containing p, else a splay for the one ending at p. */
    method Locate(p: Word) returns (addr: Word)
      requires Valid() && index.tree != null
      modifies index`tree, index`shape, Nodes(index.shape)`left, Nodes(index.shape)`right
      ensures Valid() && State() == old(State()) && index.tree != null && index.Owned() == old(index.Owned())
      ensures match Owner(index.Regions(), p)
        case Some(g) => index.tree.region == g && addr == Sub(p, g.start) <= g.size
        case None => addr > index.tree.region.size
    {
      hide Search, Cloven, Proper, Order, Owner, Covered;
      SearchWellFormed(index.shape);
      RootIsRegion(index.shape);
      addr := Sub(p, index.tree.region.start);
      DifferenceLocates(p, index.tree.region);
      if addr >= index.tree.region.size {
        index.Seek(Containing(p));
        RootIsRegion(index.shape);
        RootCovers(p, index.shape);
        addr := Sub(p, index.tree.region.start);
        DifferenceLocates(p, index.tree.region);
      }
      if addr >= index.tree.region.size {
        index.Seek(EndingAt(p));
        RootIsRegion(index.shape);
        RootEnds(p, index.shape);
        addr := Sub(p, index.tree.region.start);
        DifferenceLocates(p, index.tree.region);
      } else {
        RootHit(p, index.shape);
      }
    }

    /** __bound_ptr_add */
    method PtrAdd(p: Word, offset: Word) returns (r: Word, report: Report)
      requires Valid()
      modifies index`tree, index`shape, Nodes(index.shape)`left, Nodes(index.shape)`right
      ensures Valid() && State() == old(State()) && index.Owned() == old(index.Owned())
      ensures report == if noChecking != 0 then Quiet else SumVerdict(index.Regions(), p, offset)
      ensures noChecking == 0 ==> forall g <- index.Regions() ::
        g.start <= p < g.start + g.size || (p == g.start + g.size && !Covered(index.Regions(), p)) ==>
          report == if g.invalid || !(g.start <= Add(p, offset) <= g.start + g.size) then Outside(g) else Quiet
      ensures noChecking == 0 && (forall g <- index.Regions() :: !(g.start <= p <= g.start + g.size)) ==>
        report == if index.Regions() == {} || p == 0 then Quiet else NotFound
      ensures r == if report.Outside? && neverFatal <= 0 then 0xffff_ffff_ffff_fffe else Add(p, offset)
    {
      hide Search, Disjoint;
      SearchDisjoint(index.shape);
      SumReports(index.Regions(), p, offset);
      r, report := Add(p, offset), Quiet;
      if noChecking != 0 { return; }
      EmptyIsNull();
      if index.tree != null {
        var addr := Locate(p);
        var g := index.tree.region;
        if addr <= g.size {
          if g.invalid || Add(addr, offset) > g.size {
            report := Outside(g);
            if neverFatal <= 0 {
              r := INVALID_POINTER;
            }
          }
        } else if p != 0 {
          report := NotFound;
        }
      }
    }

    /** __bound_ptr_indirN for N = dsize; a fault is fatal when neverFatal is 0. */
    method PtrIndir(p: Word, offset: Word, dsize: Word) returns (r: Word, report: Report, fault: bool)
      requires Valid()
      modifies index`tree, index`shape, Nodes(index.shape)`left, Nodes(index.shape)`right
      ensures Valid() && State() == old(State()) && index.Owned() == old(index.Owned())
      ensures report == if noChecking != 0 then Quiet else Verdict(index.Regions(), p, offset, dsize)
      ensures noChecking == 0 ==> forall g <- index.Regions() ::
        g.start <= p < g.start + g.size || (p == g.start + g.size && !Covered(index.Regions(), p)) ==>
          report == if g.invalid || !(g.start <= Add(Add(p, offset), dsize) <= g.start + g.size) then Outside(g)
                    else Quiet
      ensures noChecking == 0 && (forall g <- index.Regions() :: !(g.start <= p <= g.start + g.size)) ==>
        report == if index.Regions() == {} then Quiet else NotFound
      ensures r == Add(p, offset) && (fault <==> report.Outside? && neverFatal <= 0)
    {
      hide Search, Disjoint;
      SearchDisjoint(index.shape);
      AccessReports(index.Regions(), p, offset, dsize);
      r, report, fault := Add(p, offset), Quiet, false;
      if noChecking != 0 { return; }
      EmptyIsNull();
      if index.tree != null {
        var addr := Locate(p);
        var g := index.tree.region;
        if addr <= g.size {
          if g.invalid || Add(Add(addr, offset), dsize) > g.size {
            report, fault := Outside(g), neverFatal <= 0;
          }
        } else {
          report := NotFound;
        }
      }
    }

    lemma EmptyIsNull()
      requires Valid()
      ensures index.tree == null <==> index.Regions() == {}
    {}

    /** __bound_local_new, fp being the caller's frame address */
    method LocalNew(table: seq<Local>, fp: Word)
      requires Valid()
      modifies index, index.Owned()
      ensures Formed() && ring[..] == old(ring[..])
      ensures Valid() <==> noChecking != 0 || AllInsertable(old(index.Regions()), table, fp)
      ensures noChecking != 0 ==> index.Regions() == old(index.Regions())
      ensures noChecking == 0 && Valid() ==> index.Regions() == AddLocals(old(index.Regions()), table, fp)
      ensures old(index.Regions()) <= index.Regions() <= old(index.Regions()) + LocalRegions(table, fp)
      ensures fresh(index.Owned() - old(index.Owned())) && old(index.Owned()) <= index.Owned()
    {
      hide Search, Proper, Rep, FreeList, Order, Covered, Inserted, Insertable;
      if noChecking != 0 { return; }
      ghost var regs := index.Regions();
      var i := 0;
      while i < |table|
        invariant 0 <= i <= |table| && Formed() && ring[..] == old(ring[..])
        invariant fresh(index.Owned() - old(index.Owned())) && old(index.Owned()) <= index.Owned()
        invariant regs <= index.Regions() <= regs + LocalRegions(table, fp)
        invariant AllInsertable(regs, table, fp) <==> Valid() && AllInsertable(index.Regions(), table[i..], fp)
        invariant Valid() ==> AddLocals(index.Regions(), table[i..], fp) == AddLocals(regs, table, fp)
      {
        assert table[i..][0] == table[i] && table[i..][1..] == table[i + 1..];
        ghost var added := index.Insert(Add(table[i].offset, fp), table[i].size);
        assert Region(Add(table[i].offset, fp), table[i].size, NoKind, false) in LocalRegions(table, fp);
        NodesAllocated(index.shape);
        i := i + 1;
      }
    }

    /** __bound_local_delete */
    method LocalDelete(table: seq<Local>, fp: Word)
      requires Valid()
      modifies this`allocas, this`jumps, index, index.Owned()
      ensures Valid() && ring[..] == old(ring[..]) && index.Owned() == old(index.Owned())
      ensures noChecking != 0 ==>
        index.Regions() == old(index.Regions()) && allocas == old(allocas) && jumps == old(jumps)
      ensures noChecking == 0 ==>
        && index.Regions() == Without(old(index.Regions()), Starts(table, fp) + FrameStarts(old(allocas), fp))
        && allocas == DropFrame(old(allocas), fp) && jumps == DropFrameJumps(old(jumps), fp)
      ensures noChecking == 0 ==> forall g ::
        g in index.Regions() <==> g in old(index.Regions()) && (forall l <- table :: Add(l.offset, fp) != g.start) &&
                                  (forall a <- old(allocas) :: a.fp == fp ==> a.p != g.start)
    {
      hide Search, Proper, Rep, FreeList, Order;
      if noChecking != 0 { return; }
      DropLocals(table, fp);
      DropAllocas(fp);
      NodesAllocated(index.shape);
      DropJumps(fp);
    }

    method DropLocals(table: seq<Local>, fp: Word)
      requires Valid()
      modifies index, index.Owned()
      ensures Valid() && index.Owned() == old(index.Owned())
      ensures index.Regions() == Without(old(index.Regions()), Starts(table, fp))
    {
      hide Search, Proper, Rep, FreeList, Order, Removed;
      ghost var regs := index.Regions();
      var i := 0;
      while i < |table|
        invariant 0 <= i <= |table| && Valid() && index.Owned() == old(index.Owned())
        invariant index.Regions() == Without(regs, Starts(table[..i], fp))
      {
        var a := Add(table[i].offset, fp);
        StartsSnoc(table, i, fp);
        RemovedFrom(regs, Starts(table[..i], fp), a);
        index.Delete(a);
        i := i + 1;
      }
      assert table[..i] == table;
    }

    method DropAllocas(fp: Word)
      requires Valid()
      modifies this`allocas, index, index.Owned()
      ensures Valid() && index.Owned() == old(index.Owned())
      ensures index.Regions() == Without(old(index.Regions()), FrameStarts(old(allocas), fp))
      ensures allocas == DropFrame(old(allocas), fp)
    {
      hide Search, Proper, Rep, FreeList, Order, Removed, RemoveAt, DropFrame, FrameStarts;
      ghost var list, regs := allocas, index.Regions();
      ghost var done, kept, todo := [], [], allocas;
      var cur := 0;
      NoFrames(fp);
      while cur < |allocas|
        invariant Valid() && index.Owned() == old(index.Owned())
        invariant list == done + todo && allocas == kept + todo && cur == |kept|
        invariant kept == DropFrame(done, fp) && index.Regions() == Without(regs, FrameStarts(done, fp))
        decreases |todo|
      {
        var a := allocas[cur];
        ghost var rest := todo[1..];
        assert todo == [a] + rest;
        FrameStep(list, done, kept, a, rest, fp);
        if a.fp == fp {
          RemovedFrom(regs, FrameStarts(done, fp), a.p);
          allocas := RemoveAt(allocas, cur);
          index.Delete(a.p);
        } else {
          kept, cur := kept + [a], cur + 1;
        }
        done, todo := done + [a], rest;
      }
      assert done == list;
    }

    method DropJumps(fp: Word)
      modifies this`jumps
      ensures jumps == DropFrameJumps(old(jumps), fp)
    {
      hide RemoveAt, DropFrameJumps;
      ghost var list := jumps;
      ghost var done, kept, todo := [], [], jumps;
      var cur := 0;
      FrameJumps([], [], Jump(0, 0, 0, 0), fp);
      while cur < |jumps|
        invariant list == done + todo && jumps == kept + todo && cur == |kept|
        invariant kept == DropFrameJumps(done, fp)
        decreases |todo|
      {
        var j := jumps[cur];
        ghost var rest := todo[1..];
        assert todo == [j] + rest;
        JumpStep(list, done, kept, j, rest, fp);
        if j.fp == fp {
          jumps := RemoveAt(jumps, cur);
        } else {
          kept, cur := kept + [j], cur + 1;
        }
        done, todo := done + [j], rest;
      }
      assert done == list;
    }

    /** The cleanup of __bound_long_jump; startFp is its own frame address. */
    method LongJump(env: Word, tid: int, startFp: Word)
      requires Valid()
      modifies this`allocas, this`jumps, index, index.Owned()
      ensures Valid() && ring[..] == old(ring[..]) && index.Owned() == old(index.Owned())
      ensures var i := Target(old(jumps), env, tid);
        if noChecking != 0 || i == |old(jumps)|
        then index.Regions() == old(index.Regions()) && allocas == old(allocas) && jumps == old(jumps)
        else
          var regs, gone := old(index.Regions()), Abandoned(old(index.Regions()), startFp, old(jumps)[i].endFp);
          && index.Regions() == regs - gone
          && allocas == Purge(old(allocas), set g | g in gone :: g.start)
          && jumps == OtherThreads(old(jumps)[..i], tid) + old(jumps)[i..]
      ensures noChecking == 0 ==>
        forall i :: 0 <= i < |old(jumps)| && old(jumps)[i].penv == env && old(jumps)[i].tid == tid &&
                    (forall k :: 0 <= k < i ==> !(old(jumps)[k].penv == env && old(jumps)[k].tid == tid)) ==>
          && index.Regions() <= old(index.Regions())
          && forall g <- old(index.Regions()) ::
               g in index.Regions() <==> !(startFp <= g.start <= old(jumps)[i].endFp)
    {
      if noChecking != 0 { return; }
      forall i | 0 <= i < |jumps| && jumps[i].penv == env && jumps[i].tid == tid &&
                 forall k :: 0 <= k < i ==> !(jumps[k].penv == env && jumps[k].tid == tid)
        ensures i == Target(jumps, env, tid)
      {
        FirstIsTarget(jumps, env, tid, i);
      }
      var jl := 0;
      while jl < |jumps| && !IsTarget(jumps[jl], env, tid)
        invariant 0 <= jl <= |jumps| && forall k :: 0 <= k < jl ==> !IsTarget(jumps[k], env, tid)
      {
        jl := jl + 1;
      }
      assert jl == Target(jumps, env, tid);
      if jl < |jumps| {
        var endFp := jumps[jl].endFp;
        NodesAllocated(index.shape);
        DropOwnJumps(env, tid);
        DropRegions(startFp, endFp);
      }
    }

    /** From the head of the list up to the target, the records of this thread go. */
    method DropOwnJumps(env: Word, tid: int)
      requires Target(jumps, env, tid) < |jumps|
      modifies this`jumps
      ensures var i := Target(old(jumps), env, tid);
        jumps == OtherThreads(old(jumps)[..i], tid) + old(jumps)[i..]
    {
      hide RemoveAt, OtherThreads, Walk, Target, IsTarget;
      ghost var list := jumps;
      ghost var done, kept, todo := [], [], jumps;
      var cur := 0;
      WalkStarts(list, env, tid);
      WalkHere(list, done, kept, todo, env, tid);
      while !IsTarget(jumps[cur], env, tid)
        invariant Walk(list, done, kept, todo, env, tid) && todo != []
        invariant jumps == kept + todo && cur == |kept| && jumps[cur] == todo[0]
        decreases |todo|
      {
        ghost var j := todo[0];
        WalkOn(list, done, kept, todo, env, tid);
        if jumps[cur].tid == tid {
          jumps := RemoveAt(jumps, cur);
        } else {
          kept, cur := kept + [j], cur + 1;
        }
        done, todo := done + [j], todo[1..];
        WalkHere(list, done, kept, todo, env, tid);
      }
      WalkHere(list, done, kept, todo, env, tid);
    }

    method DropRegions(lo: Word, hi: Word)
      requires Valid()
      modifies this`allocas, index, index.Owned()
      ensures Valid() && index.Owned() == old(index.Owned())
      ensures var gone := Abandoned(old(index.Regions()), lo, hi);
        && index.Regions() == old(index.Regions()) - gone
        && allocas == Purge(old(allocas), set g | g in gone :: g.start)
    {
      hide Search, Proper, Rep, FreeList, Removed, Purge;
      ghost var regs, list := index.Regions(), allocas;
      ghost var ps := {};
      PurgeNothing(list);
      while true
        invariant Valid() && index.Owned() == old(index.Owned())
        invariant index.Regions() == Without(regs, ps)
        invariant ps <= set g | g in Abandoned(regs, lo, hi) :: g.start
        invariant allocas == Purge(list, ps) && ring[..] == old(ring[..]) && next == old(next)
        decreases index.Regions()
      {
        NodesAllocated(index.shape);
        var t := FindIn(index.tree, lo, hi, index.shape);
        if t == null {
          AllAbandoned(regs, ps, lo, hi);
          break;
        }
        var a := t.region.start;
        StillThere(regs, ps, lo, hi, t.region);
        PurgeOneMore(list, ps, a);
        RemovedFrom(regs, ps, a);
        DropRegion(a);
        ps := ps + {a};
      }
    }

    /** The alloca record of a region goes first, then the region. */
    method DropRegion(a: Word)
      requires Valid()
      modifies this`allocas, index, index.Owned()
      ensures Valid() && index.Owned() == old(index.Owned())
      ensures index.Regions() == Removed(old(index.Regions()), a)
      ensures allocas == RemoveFirst(old(allocas), a)
    {
      NodesAllocated(index.shape);
      DropRecord(a);
      index.Delete(a);
    }

    method DropRecord(p: Word)
      modifies this`allocas
      ensures allocas == RemoveFirst(old(allocas), p)
    {
      var cur := 0;
      while cur < |allocas| && allocas[cur].p != p
        invariant 0 <= cur <= |allocas| && allocas == old(allocas)
        invariant forall k :: 0 <= k < cur ==> allocas[k].p != p
      {
        cur := cur + 1;
      }
      RemoveFirstAt(allocas, p, cur);
      if cur < |allocas| {
        allocas := allocas[..cur] + allocas[cur + 1..];
      }
    }

    /** __bound_malloc, ptr being what the allocator answers for size + 1 bytes. It is the abstract step
        whatever ptr is; the index can be searched afterwards exactly if the block is clear of the regions. */
    method BoundMalloc(size: Word, ptr: Word)
      requires Valid()
      modifies index, index.Owned()
      ensures Formed()
      ensures Valid() <==>
        ptr == 0 || !(inited && noChecking == 0) ||
        old(Insertable(index.Regions(), ptr, if size != 0 then size else 1))
      ensures State() == if inited && noChecking == 0 then MallocStep(old(State()), ptr, size) else old(State())
      ensures fresh(index.Owned() - old(index.Owned())) && old(index.Owned()) <= index.Owned()
    {
      hide Search, Proper, Rep, FreeList, Order, Starting, Inserted, Insertable, Covered;
      SearchDisjoint(index.shape);
      if Checking() {
        if ptr != 0 {
          ghost var regs := index.Regions();
          ghost var added := index.Insert(ptr, if size != 0 then size else Add(size, 1));
          index.BranchIsRoot();
          RootIsRegion(index.shape);
          InsertedStarts(regs, index.tree.region, ptr, if size != 0 then size else 1);
          if index.tree != null && index.tree.region.start == ptr {
            index.MarkRoot(Malloc, index.tree.region.invalid);
          }
        }
      }
    }

    /** __bound_free: release is the argument of the allocator's free (0 for NULL or no call) */
    method BoundFree(ptr: Word) returns (release: Word, error: bool)
      requires Valid()
      modifies this`next, ring, index, index.Owned()
      ensures Valid() && index.Owned() == old(index.Owned())
      ensures inited && noChecking == 0 ==>
        (State(), release) == (FreeStep(old(State()), ptr).0, FreeStep(old(State()), ptr).1)
        && (error <==> FreeStep(old(State()), ptr).2 == DoubleFree)
      ensures !(inited && noChecking == 0) ==>
        State() == old(State()) && !error && release == if old(index.Regions()) == {} then 0 else ptr
    {
      hide Search, Proper, FreeList, Order, Starting, Removed;
      release, error := 0, false;
      EmptyIsNull();
      if ptr == 0 || index.tree == null { return; }
      release := ptr;
      if Checking() {
        index.Seek(Containing(ptr));
        EmptyIsNull();
        RootOwnsStart(index.shape, ptr);
        if index.tree.region.start == ptr {
          if index.tree.region.invalid {
            return 0, true;
          }
          release := Retain(ptr);
        }
      }
    }

    /** One event, in a world whose heap this is: release is what goes to the allocator. */
    method Step(e: Event, ghost w: World) returns (release: Word, report: Option<Report>)
      requires Valid() && Checking() && State() == w.heap && Inv(w) && Enabled(w, e)
      modifies this`next, ring, index, index.Owned()
      ensures Valid() && State() == Next(w, e).heap && fresh(index.Owned() - old(index.Owned()))
      ensures Next(w, e).handed == w.handed + if release != 0 then [release] else []
      ensures Next(w, e).reports == w.reports + if report.Some? then [report.value] else []
    {
      hide Inv, Unused, Inserted, FreeStep, Verdict, SumVerdict, Starting;
      release, report := 0, None;
      match e
      case MallocCall(p, size) =>
        if p != 0 { UnusedInsertable(w, p, if size != 0 then size else 1, size + 1); }
        BoundMalloc(size, p);
      case FreeCall(p) =>
        var error: bool;
        release, error := BoundFree(p);
        FreeHands(w, p);
      case NewRegion(p, size) =>
        UnusedInsertable(w, p, size, size);
        ghost var added := index.Insert(p, size);
      case DropRegion(p) =>
        index.Delete(p);
      case SumCheck(p, offset) =>
        var r: Word, v := PtrAdd(p, offset);
        report := Some(v);
      case AccessCheck(p, offset, n) =>
        var r: Word, v, fault := PtrIndir(p, offset, n);
        report := Some(v);
    }

    /** The root block is marked and takes the slot under the cursor; what was there goes. */
    method Retain(ptr: Word) returns (p: Word)
      requires Valid() && index.tree != null
      modifies this`next, ring, index, index.Owned()
      ensures Valid() && index.Owned() == old(index.Owned())
      ensures var h, g := old(State()), old(index.tree.region);
        var marked := h.regs - {g} + {g.(invalid := true)};
        && p == h.ring[h.next]
        && State() == Heap(if p != 0 then Removed(marked, p) else marked, h.ring[h.next := ptr], SlotOf(h.next + 1))
    {
      hide Search, Proper, FreeList, Removed, Order, Regs;
      SearchRootOnce(index.shape);
      index.MarkRoot(index.tree.region.kind, true);
      p := ring[next];
      ring[next] := ptr;
      next := SlotOf(next + 1);
      if p != 0 {
        index.Delete(p);
      }
    }
  }

  /** What the allocator answers, or a new region, is clear of all others. */
  lemma UnusedInsertable(w: World, p: Word, size: Word, n: nat)
    requires Inv(w) && Unused(w, p, n) && 0 < size <= n && p + n < W
    ensures Insertable(w.heap.regs, p, size)
  {
    hide Held, Counted, Steady;
    FreshClear(w, n, Region(p, size, NoKind, false));
  }

  /** All events of a run on one checker: it agrees with the abstract machine to the end, in what it hands to
      the allocator and in what its checks report. */
  method Replay(es: seq<Event>, ghost w': World) returns (c: Checker, handed: seq<Word>, reports: seq<Report>)
    requires Run(START, es, w')
    ensures fresh(c) && c.Valid() && c.State() == w'.heap && handed == w'.handed && reports == w'.reports
  {
    hide Inv, Enabled, Next, Rep, Search, Proper, FreeList;
    c := new Checker();
    handed, reports := [], [];
    ghost var w := START;
    StartInv();
    var i := 0;
    assert es[0..] == es;
    while i < |es|
      invariant 0 <= i <= |es| && Inv(w) && Run(w, es[i..], w')
      invariant fresh(c) && fresh(c.index) && fresh(c.ring) && fresh(c.index.Owned())
      invariant c.Valid() && c.Checking() && c.State() == w.heap && handed == w.handed && reports == w.reports
    {
      assert es[i..][0] == es[i] && es[i..][1..] == es[i + 1..];
      ghost var owned := c.index.Owned();
      NodesAllocated(c.index.shape);
      var release, report := c.Step(es[i], w);
      NodesAllocated(c.index.shape);
      assert forall n <- c.index.Owned() :: n in c.index.Owned() - owned || n in owned;
      if release != 0 { handed := handed + [release]; }
      if report.Some? { reports := reports + [report.value]; }
      StepKeeps(w, es[i]);
      w := Next(w, es[i]);
      i := i + 1;
    }
  }

  /** After an insertion the region at the root is the one that starts at the address, if any does. */
  lemma InsertedStarts(regs: set<Region>, root: Region, a: Word, size: Word)
    requires Disjoint(regs) && root in Inserted(regs, a, size)
    requires if Covered(regs, a) then root.Contains(a) else root == Region(a, size, NoKind, false)
    ensures Starting(Inserted(regs, a, size), a) == if root.start == a then Some(root) else None
  {}

  lemma RootOwnsStart(s: Shape, a: Word)
    requires Search(s) && s.Branch? && Cloven(Containing(a), s)
    ensures Starting(Regs(s), a) == if s.region.start == a then Some(s.region) else None
  {
    SearchDisjoint(s);
    RootIsRegion(s);
    RootStarts(a, s);
  }
}
