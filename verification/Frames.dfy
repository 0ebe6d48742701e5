/** What leaving a function, or jumping out of several, takes away: on plain values. */
module Frames {
  import opened Words
  import opened Regions

  datatype Local = Local(offset: Word, size: Word)
  datatype Alloca = Alloca(fp: Word, p: Word, size: Word)
  datatype Jump = Jump(penv: Word, fp: Word, endFp: Word, tid: int)

  // The table of locals of a frame

  ghost function AddLocals(regs: set<Region>, table: seq<Local>, fp: Word): set<Region>
    decreases |table|
  {
    if table == [] then regs
    else AddLocals(Inserted(regs, Add(table[0].offset, fp), table[0].size), table[1..], fp)
  }

  /** Each entry in turn can be inserted and leaves the regions disjoint. */
  ghost predicate AllInsertable(regs: set<Region>, table: seq<Local>, fp: Word)
    decreases |table|
  {
    table == [] ||
    var a := Add(table[0].offset, fp);
    && Insertable(regs, a, table[0].size)
    && AllInsertable(Inserted(regs, a, table[0].size), table[1..], fp)
  }

  function LocalRegions(table: seq<Local>, fp: Word): set<Region> {
    set l | l in table :: Region(Add(l.offset, fp), l.size, NoKind, false)
  }

  function Starts(table: seq<Local>, fp: Word): set<Word> {
    set l | l in table :: Add(l.offset, fp)
  }

  lemma StartsSnoc(table: seq<Local>, i: nat, fp: Word)
    requires i < |table|
    ensures Starts(table[..i + 1], fp) == Starts(table[..i], fp) + {Add(table[i].offset, fp)}
  {}

  ghost function Without(regs: set<Region>, starts: set<Word>): set<Region> {
    set g | g in regs && g.start !in starts
  }

  lemma RemovedFrom(regs: set<Region>, starts: set<Word>, a: Word)
    ensures Removed(Without(regs, starts), a) == Without(regs, starts + {a})
  {}

  /** Entering a frame adds one local after the other. */
  lemma {:induction false} LocalsInTurn(regs: set<Region>, a: seq<Local>, b: seq<Local>, l: Local, fp: Word)
    ensures AddLocals(regs, [], fp) == regs && AddLocals(regs, [l], fp) == Inserted(regs, Add(l.offset, fp), l.size)
    ensures AddLocals(regs, a + b, fp) == AddLocals(AddLocals(regs, a, fp), b, fp)
    decreases |a|
  {
    assert [l][1..] == [];
    if a == [] {
      assert a + b == b;
    } else {
      LocalsInTurn(Inserted(regs, Add(a[0].offset, fp), a[0].size), a[1..], b, l, fp);
      assert (a + b)[1..] == a[1..] + b;
    }
  }

  lemma {:induction false} AddedStart(regs: set<Region>, table: seq<Local>, fp: Word)
    ensures regs <= AddLocals(regs, table, fp)
    ensures forall g <- AddLocals(regs, table, fp) :: g in regs || g.start in Starts(table, fp)
    decreases |table|
  {
    if table != [] {
      AddedStart(Inserted(regs, Add(table[0].offset, fp), table[0].size), table[1..], fp);
      assert table == [table[0]] + table[1..];
      assert Add(table[0].offset, fp) in Starts(table, fp) && Starts(table[1..], fp) <= Starts(table, fp);
    }
  }

  /** Leaving a frame undoes entering it exactly if no region that was there before starts where a local does. */
  lemma LeaveUndoesEnter(regs: set<Region>, table: seq<Local>, fp: Word)
    ensures Without(AddLocals(regs, table, fp), Starts(table, fp)) == regs <==>
      forall g <- regs :: g.start !in Starts(table, fp)
  {
    AddedStart(regs, table, fp);
    if forall g <- regs :: g.start !in Starts(table, fp) {
      assert Without(AddLocals(regs, table, fp), Starts(table, fp)) == regs;
    }
  }

  /** A local at 4096, where a region starts already, is not added, but the region goes with it. */
  lemma LeaveTakesMore()
    ensures var regs, table := {Region(4096, 8, Malloc, false)}, [Local(96, 4)];
      AddLocals(regs, table, 4000) == regs && Without(AddLocals(regs, table, 4000), Starts(table, 4000)) == {}
  {
    var g, l := Region(4096, 8, Malloc, false), Local(96, 4);
    assert g.Contains(4096) && Covered({g}, 4096);
    assert [l][1..] == [] && l in [l];
  }

  // Records of alloca and setjmp

  /** Unlinking the element at i. */
  function RemoveAt<T>(list: seq<T>, i: nat): seq<T>
    requires i < |list|
  {
    list[..i] + list[i + 1..]
  }

  lemma RemoveMiddle<T>(a: seq<T>, x: T, b: seq<T>)
    ensures (a + [x] + b)[|a|] == x && RemoveAt(a + [x] + b, |a|) == a + b
  {}

  function DropFrame(list: seq<Alloca>, fp: Word): seq<Alloca> {
    if list == [] then []
    else if list[0].fp == fp then DropFrame(list[1..], fp)
    else [list[0]] + DropFrame(list[1..], fp)
  }

  function FrameStarts(list: seq<Alloca>, fp: Word): set<Word> {
    set a | a in list && a.fp == fp :: a.p
  }

  /** Leaving a frame takes just its records out of either list; the others stay in their order. */
  lemma {:induction false} FrameRecords(a: seq<Alloca>, b: seq<Alloca>, x: Alloca, fp: Word)
    ensures DropFrame([], fp) == [] && DropFrame([x], fp) == if x.fp == fp then [] else [x]
    ensures DropFrame(a + b, fp) == DropFrame(a, fp) + DropFrame(b, fp)
    decreases |a|
  {
    if a == [] {
      assert a + b == b;
    } else {
      FrameRecords(a[1..], b, x, fp);
      assert (a + b)[1..] == a[1..] + b;
    }
  }

  lemma {:induction false} FrameJumps(a: seq<Jump>, b: seq<Jump>, x: Jump, fp: Word)
    ensures DropFrameJumps([], fp) == [] && DropFrameJumps([x], fp) == if x.fp == fp then [] else [x]
    ensures DropFrameJumps(a + b, fp) == DropFrameJumps(a, fp) + DropFrameJumps(b, fp)
    decreases |a|
  {
    if a == [] {
      assert a + b == b;
    } else {
      FrameJumps(a[1..], b, x, fp);
      assert (a + b)[1..] == a[1..] + b;
    }
  }

  /** And longjmp just the records of its thread. */
  lemma {:induction false} ThreadRecords(a: seq<Jump>, b: seq<Jump>, x: Jump, tid: int)
    ensures OtherThreads([], tid) == [] && OtherThreads([x], tid) == if x.tid == tid then [] else [x]
    ensures OtherThreads(a + b, tid) == OtherThreads(a, tid) + OtherThreads(b, tid)
    decreases |a|
  {
    if a == [] {
      assert a + b == b;
    } else {
      ThreadRecords(a[1..], b, x, tid);
      assert (a + b)[1..] == a[1..] + b;
    }
  }

  lemma NoFrames(fp: Word)
    ensures DropFrame([], fp) == [] && FrameStarts([], fp) == {}
  {}

  /** One turn of the walk over the alloca records: done is behind it, kept is what is left of that. */
  lemma FrameStep(list: seq<Alloca>, done: seq<Alloca>, kept: seq<Alloca>, a: Alloca, rest: seq<Alloca>, fp: Word)
    requires list == done + ([a] + rest) && kept == DropFrame(done, fp)
    ensures list == (done + [a]) + rest
    ensures RemoveAt(kept + ([a] + rest), |kept|) == kept + rest
    ensures kept + ([a] + rest) == (kept + [a]) + rest
    ensures DropFrame(done + [a], fp) == if a.fp == fp then kept else kept + [a]
    ensures FrameStarts(done + [a], fp) == FrameStarts(done, fp) + if a.fp == fp then {a.p} else {}
  {
    hide DropFrame, RemoveAt;
    FrameRecords(done, [a], a, fp);
    RemoveMiddle(kept, a, rest);
    assert kept + ([a] + rest) == kept + [a] + rest;
  }

  function DropFrameJumps(list: seq<Jump>, fp: Word): seq<Jump> {
    if list == [] then []
    else if list[0].fp == fp then DropFrameJumps(list[1..], fp)
    else [list[0]] + DropFrameJumps(list[1..], fp)
  }

  lemma JumpStep(list: seq<Jump>, done: seq<Jump>, kept: seq<Jump>, j: Jump, rest: seq<Jump>, fp: Word)
    requires list == done + ([j] + rest) && kept == DropFrameJumps(done, fp)
    ensures list == (done + [j]) + rest
    ensures RemoveAt(kept + ([j] + rest), |kept|) == kept + rest
    ensures kept + ([j] + rest) == (kept + [j]) + rest
    ensures DropFrameJumps(done + [j], fp) == if j.fp == fp then kept else kept + [j]
  {
    hide DropFrameJumps, RemoveAt;
    FrameJumps(done, [j], j, fp);
    RemoveMiddle(kept, j, rest);
    assert kept + ([j] + rest) == kept + [j] + rest;
  }

  function OtherThreads(list: seq<Jump>, tid: int): seq<Jump> {
    if list == [] then []
    else if list[0].tid == tid then OtherThreads(list[1..], tid)
    else [list[0]] + OtherThreads(list[1..], tid)
  }

  lemma ThreadsStep(list: seq<Jump>, done: seq<Jump>, kept: seq<Jump>, j: Jump, rest: seq<Jump>, tid: int)
    requires list == done + ([j] + rest) && kept == OtherThreads(done, tid)
    ensures list == (done + [j]) + rest
    ensures RemoveAt(kept + ([j] + rest), |kept|) == kept + rest
    ensures kept + ([j] + rest) == (kept + [j]) + rest
    ensures OtherThreads(done + [j], tid) == if j.tid == tid then kept else kept + [j]
  {
    ThreadRecords(done, [j], j, tid);
    RemoveMiddle(kept, j, rest);
    assert kept + ([j] + rest) == kept + [j] + rest;
  }

  predicate IsTarget(j: Jump, env: Word, tid: int) {
    j.penv == env && j.tid == tid
  }

  /** Where longjmp lands: the first record of this thread for env. */
  function Target(list: seq<Jump>, env: Word, tid: int): (i: nat)
    ensures i <= |list|
    ensures i < |list| ==> IsTarget(list[i], env, tid)
    ensures forall k :: 0 <= k < i ==> !IsTarget(list[k], env, tid)
  {
    if list == [] || IsTarget(list[0], env, tid) then 0 else 1 + Target(list[1..], env, tid)
  }

  lemma FirstIsTarget(list: seq<Jump>, env: Word, tid: int, i: nat)
    requires i < |list| && list[i].penv == env && list[i].tid == tid
    requires forall k :: 0 <= k < i ==> !(list[k].penv == env && list[k].tid == tid)
    ensures Target(list, env, tid) == i
  {
    assert IsTarget(list[i], env, tid);
  }

  /** On the way to the target: done is behind, kept is what is left of it, todo lies ahead. */
  predicate Walk(list: seq<Jump>, done: seq<Jump>, kept: seq<Jump>, todo: seq<Jump>, env: Word, tid: int) {
    && list == done + todo && |done| <= Target(list, env, tid) < |list| && kept == OtherThreads(done, tid)
  }

  lemma WalkStarts(list: seq<Jump>, env: Word, tid: int)
    requires Target(list, env, tid) < |list|
    ensures Walk(list, [], [], list, env, tid)
  {
    assert list == [] + list;
  }

  lemma WalkHere(list: seq<Jump>, done: seq<Jump>, kept: seq<Jump>, todo: seq<Jump>, env: Word, tid: int)
    requires Walk(list, done, kept, todo, env, tid)
    ensures todo != [] && (kept + todo)[|kept|] == todo[0]
    ensures IsTarget(todo[0], env, tid) ==>
      kept + todo == OtherThreads(list[..Target(list, env, tid)], tid) + list[Target(list, env, tid)..]
  {
    hide OtherThreads;
    var i := Target(list, env, tid);
    assert todo[0] == list[|done|];
    if IsTarget(todo[0], env, tid) {
      assert list[..i] == done && list[i..] == todo;
    }
  }

  lemma WalkOn(list: seq<Jump>, done: seq<Jump>, kept: seq<Jump>, todo: seq<Jump>, env: Word, tid: int)
    requires Walk(list, done, kept, todo, env, tid) && todo != [] && !IsTarget(todo[0], env, tid)
    ensures var j, rest := todo[0], todo[1..];
      var left := if j.tid == tid then kept else kept + [j];
      Walk(list, done + [j], left, rest, env, tid)
      && left + rest == if j.tid == tid then RemoveAt(kept + todo, |kept|) else kept + todo
  {
    hide OtherThreads, RemoveAt;
    var j, rest := todo[0], todo[1..];
    assert todo == [j] + rest && j == list[|done|];
    ThreadsStep(list, done, kept, j, rest, tid);
  }

  /** The regions of the frames that longjmp abandons. */
  ghost function Abandoned(regs: set<Region>, lo: Word, hi: Word): set<Region> {
    set g | g in regs && lo <= g.start <= hi
  }

  /** Regions below, at and above the two ends of the range from 7000 to 8000. */
  lemma RangeEnds()
    ensures var at := (a: Word) => Region(a, 1, NoKind, false);
      Abandoned({at(6999), at(7000), at(8000), at(8001)}, 7000, 8000) == {at(7000), at(8000)}
  {}

  /** A region found in the range has not been taken yet, and taking it shrinks the set. */
  lemma StillThere(regs: set<Region>, starts: set<Word>, lo: Word, hi: Word, g: Region)
    requires g in Abandoned(Without(regs, starts), lo, hi)
    ensures g in Abandoned(regs, lo, hi) && g.start !in starts
    ensures Without(regs, starts + {g.start}) < Without(regs, starts)
  {}

  /** When nothing more starts in the range, what is left is all the rest. */
  lemma AllAbandoned(regs: set<Region>, starts: set<Word>, lo: Word, hi: Word)
    requires starts <= set g | g in Abandoned(regs, lo, hi) :: g.start
    requires Abandoned(Without(regs, starts), lo, hi) == {}
    ensures Without(regs, starts) == regs - Abandoned(regs, lo, hi)
    ensures starts == set g | g in Abandoned(regs, lo, hi) :: g.start
  {
    forall g <- Abandoned(regs, lo, hi) ensures g.start in starts {
      assert g in Without(regs, starts) ==> g in Abandoned(Without(regs, starts), lo, hi);
    }
  }

  function RemoveFirst(list: seq<Alloca>, p: Word): seq<Alloca> {
    if list == [] then []
    else if list[0].p == p then list[1..]
    else [list[0]] + RemoveFirst(list[1..], p)
  }

  lemma {:induction false} RemoveFirstAt(list: seq<Alloca>, p: Word, i: nat)
    requires i <= |list| && forall k :: 0 <= k < i ==> list[k].p != p
    requires i < |list| ==> list[i].p == p
    ensures RemoveFirst(list, p) == if i < |list| then list[..i] + list[i + 1..] else list
    decreases i
  {
    if i > 0 {
      var rest := list[1..];
      RemoveFirstAt(rest, p, i - 1);
      if i < |list| {
        assert list[..i] == [list[0]] + rest[..i - 1] && list[i + 1..] == rest[i..];
      }
    }
  }

  /** The first record of every address in ps is taken out. */
  function Purge(list: seq<Alloca>, ps: set<Word>): seq<Alloca> {
    if list == [] then []
    else if list[0].p in ps then Purge(list[1..], ps - {list[0].p})
    else [list[0]] + Purge(list[1..], ps)
  }

  /** Taking the records out one address at a time, in any order, purges them all. */
  lemma {:induction false} PurgeOneMore(list: seq<Alloca>, ps: set<Word>, p: Word)
    requires p !in ps
    ensures RemoveFirst(Purge(list, ps), p) == Purge(list, ps + {p})
    decreases |list|
  {
    if list != [] {
      var a, rest := list[0], list[1..];
      if a.p in ps {
        PurgeOneMore(rest, ps - {a.p}, p);
        assert ps - {a.p} + {p} == ps + {p} - {a.p};
      } else if a.p == p {
        assert ps + {p} - {p} == ps;
        assert ([a] + Purge(rest, ps))[1..] == Purge(rest, ps);
      } else {
        PurgeOneMore(rest, ps, p);
        assert ([a] + Purge(rest, ps))[1..] == Purge(rest, ps);
      }
    }
  }

  lemma {:induction false} PurgeNothing(list: seq<Alloca>)
    ensures Purge(list, {}) == list
    decreases |list|
  {
    if list != [] { PurgeNothing(list[1..]); }
  }

  /** When no address is recorded twice, exactly the records of ps disappear. */
  lemma {:induction false} PurgeExact(list: seq<Alloca>, ps: set<Word>)
    requires forall i, j :: 0 <= i < j < |list| ==> list[i].p != list[j].p
    ensures forall a :: a in Purge(list, ps) <==> a in list && a.p !in ps
    decreases |list|
  {
    if list != [] {
      var a, rest := list[0], list[1..];
      assert list == [a] + rest;
      assert forall b <- rest :: b.p != a.p;
      PurgeExact(rest, if a.p in ps then ps - {a.p} else ps);
    }
  }
}
