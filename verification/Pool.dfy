/** The pool of fixed-size slots with a free list threaded through the slots (lib/tcc-pool.h). */
module Pool {
  import opened Bits

  /** A block from the heap: a header of two words and then the slots, the first filled of them handed out. */
  datatype Chunk = Chunk(base: int, filled: nat)

  const HEADER: int := 16

  /** Address of slot i of a block. */
  function SlotAt(base: int, i: nat, size: nat): int {
    base + HEADER + i * size
  }

  function Bytes(size: nat, n: nat): nat {
    16 + size * n
  }

  predicate Apart(b: int, c: int, bytes: nat) {
    b + bytes <= c || c + bytes <= b
  }

  /** Two blocks of one slot of 8 bytes, side by side and too close. */
  lemma KnownBlocks()
    ensures HEADER == 16 && Bytes(8, 1) == 24 && Bytes(16, 64) == 1040
    ensures Apart(0x1000, 0x1018, 24) && Apart(0x1018, 0x1000, 24)
    ensures !Apart(0x1000, 0x1017, 24) && !Apart(0x1017, 0x1000, 24)
  {}

  ghost predicate IsSlot(chunks: seq<Chunk>, size: nat, s: int) {
    exists k, i: nat :: 0 <= k < |chunks| && i < chunks[k].filled && s == SlotAt(chunks[k].base, i, size)
  }

  function Filled(chunks: seq<Chunk>): nat {
    if chunks == [] then 0 else chunks[0].filled + Filled(chunks[1..])
  }

  /** The words stored in the free slots link them into the list that starts at head. */
  predicate Linked(mem: map<int, int>, head: int, free: seq<int>)
    decreases |free|
  {
    if free == [] then head == 0 else head == free[0] && head in mem && Linked(mem, mem[head], free[1..])
  }

  lemma {:induction false} LinkedFrame(a: map<int, int>, b: map<int, int>, head: int, free: seq<int>)
    requires Linked(a, head, free) && forall s :: s in free && s in a ==> s in b && b[s] == a[s]
    ensures Linked(b, head, free)
    decreases |free|
  {
    if free != [] {
      assert head in free;
      LinkedFrame(a, b, a[head], free[1..]);
    }
  }

  // Slots of a block lie in the block, and apart from each other

  lemma SlotInBlock(base: int, i: nat, size: nat, n: nat)
    requires i < n && size > 0
    ensures base + HEADER <= SlotAt(base, i, size) && SlotAt(base, i, size) + size <= base + Bytes(size, n)
  {
    assert (i + 1) * size <= n * size by { MulLe(i + 1, n, size); }
  }

  lemma SlotsOfBlock(base: int, i: nat, j: nat, size: nat)
    requires i < j && size > 0
    ensures SlotAt(base, i, size) + size <= SlotAt(base, j, size)
  {
    MulLe(i + 1, j, size);
  }

  ghost predicate Blocks(chunks: seq<Chunk>, size: nat, n: nat) {
    && (forall k :: 0 <= k < |chunks| ==> chunks[k].base > 0 && chunks[k].filled <= n)
    && (forall k :: 0 < k < |chunks| ==> chunks[k].filled == n)
    && (forall j, k :: 0 <= j < k < |chunks| ==> Apart(chunks[j].base, chunks[k].base, Bytes(size, n)))
  }

  /** No two slots that were handed out overlap. */
  lemma SlotsApart(chunks: seq<Chunk>, size: nat, n: nat, s: int, t: int)
    requires Blocks(chunks, size, n) && size > 0 && IsSlot(chunks, size, s) && IsSlot(chunks, size, t) && s != t
    ensures s + size <= t || t + size <= s
  {
    var k, i: nat :| 0 <= k < |chunks| && i < chunks[k].filled && s == SlotAt(chunks[k].base, i, size);
    var l, j: nat :| 0 <= l < |chunks| && j < chunks[l].filled && t == SlotAt(chunks[l].base, j, size);
    SlotInBlock(chunks[k].base, i, size, n);
    SlotInBlock(chunks[l].base, j, size, n);
    if k == l {
      if i < j { SlotsOfBlock(chunks[k].base, i, j, size); } else { SlotsOfBlock(chunks[k].base, j, i, size); }
    } else if k < l {
      assert Apart(chunks[k].base, chunks[l].base, Bytes(size, n));
    } else {
      assert Apart(chunks[l].base, chunks[k].base, Bytes(size, n));
    }
  }

  lemma SlotPositive(chunks: seq<Chunk>, size: nat, n: nat, s: int)
    requires Blocks(chunks, size, n) && size > 0 && IsSlot(chunks, size, s)
    ensures s > 0
  {}

  /** A slot lies behind the two header words of its block, before the end of the block, and in no other block. */
  lemma SlotInOneBlock(chunks: seq<Chunk>, size: nat, n: nat, s: int)
    requires Blocks(chunks, size, n) && size > 0 && IsSlot(chunks, size, s)
    ensures forall c <- chunks :: s + size <= c.base || c.base + 16 <= s
    ensures exists c <- chunks :: c.base + 16 <= s && s + size <= c.base + 16 + n * size
  {
    var k, i: nat :| 0 <= k < |chunks| && i < chunks[k].filled && s == SlotAt(chunks[k].base, i, size);
    SlotInBlock(chunks[k].base, i, size, n);
    forall c <- chunks ensures s + size <= c.base || c.base + 16 <= s {
      var l :| 0 <= l < |chunks| && chunks[l] == c;
      if l < k {
        assert Apart(chunks[l].base, chunks[k].base, Bytes(size, n));
      } else if k < l {
        assert Apart(chunks[k].base, chunks[l].base, Bytes(size, n));
      }
    }
    assert chunks[k] in chunks;
  }

  /** Where slot i of a block lies, and what a block takes. */
  lemma SlotAddress(base: int, i: nat, size: nat, n: nat)
    ensures SlotAt(base, i, size) == base + 16 + i * size && Bytes(size, n) == 16 + n * size
  {}

  /** The next slot of the current block is none that was handed out before. */
  lemma NextIsNew(chunks: seq<Chunk>, size: nat, n: nat)
    requires Blocks(chunks, size, n) && size > 0 && chunks != [] && chunks[0].filled < n
    ensures !IsSlot(chunks, size, SlotAt(chunks[0].base, chunks[0].filled, size))
  {
    var s := SlotAt(chunks[0].base, chunks[0].filled, size);
    SlotInBlock(chunks[0].base, chunks[0].filled, size, n);
    forall k, i: nat | 0 <= k < |chunks| && i < chunks[k].filled ensures s != SlotAt(chunks[k].base, i, size) {
      SlotInBlock(chunks[k].base, i, size, n);
      if k == 0 {
        SlotsOfBlock(chunks[0].base, i, chunks[0].filled, size);
      } else {
        assert Apart(chunks[0].base, chunks[k].base, Bytes(size, n));
      }
    }
  }

  function Bumped(chunks: seq<Chunk>): seq<Chunk>
    requires chunks != []
  {
    [Chunk(chunks[0].base, chunks[0].filled + 1)] + chunks[1..]
  }

  lemma BumpedAt(chunks: seq<Chunk>, k: int)
    requires chunks != [] && 0 <= k < |chunks|
    ensures Bumped(chunks)[k].base == chunks[k].base
    ensures Bumped(chunks)[k].filled == chunks[k].filled + if k == 0 then 1 else 0
  {}

  lemma BumpedHas(chunks: seq<Chunk>, size: nat, s: int)
    requires chunks != [] && (IsSlot(chunks, size, s) || s == SlotAt(chunks[0].base, chunks[0].filled, size))
    ensures IsSlot(Bumped(chunks), size, s)
  {
    hide SlotAt, Bumped;
    BumpedAt(chunks, 0);
    BumpedLength(chunks);
    if IsSlot(chunks, size, s) {
      var k, i: nat :| 0 <= k < |chunks| && i < chunks[k].filled && s == SlotAt(chunks[k].base, i, size);
      BumpedAt(chunks, k);
    }
  }

  lemma BumpedOnly(chunks: seq<Chunk>, size: nat, s: int)
    requires chunks != [] && IsSlot(Bumped(chunks), size, s)
    ensures IsSlot(chunks, size, s) || s == SlotAt(chunks[0].base, chunks[0].filled, size)
  {}

  lemma BumpedLength(chunks: seq<Chunk>)
    requires chunks != []
    ensures |Bumped(chunks)| == |chunks| && Filled(Bumped(chunks)) == Filled(chunks) + 1
  {}

  lemma BumpedSlots(chunks: seq<Chunk>, size: nat, s: int)
    requires chunks != []
    ensures IsSlot(Bumped(chunks), size, s) <==>
      IsSlot(chunks, size, s) || s == SlotAt(chunks[0].base, chunks[0].filled, size)
    ensures Filled(Bumped(chunks)) == Filled(chunks) + 1
  {
    hide SlotAt, Bumped, IsSlot;
    BumpedLength(chunks);
    if IsSlot(chunks, size, s) || s == SlotAt(chunks[0].base, chunks[0].filled, size) { BumpedHas(chunks, size, s); }
    if IsSlot(Bumped(chunks), size, s) { BumpedOnly(chunks, size, s); }
  }

  lemma GrownSlots(chunks: seq<Chunk>, base: int, size: nat, s: int)
    ensures IsSlot([Chunk(base, 0)] + chunks, size, s) <==> IsSlot(chunks, size, s)
    ensures Filled([Chunk(base, 0)] + chunks) == Filled(chunks)
  {
    hide SlotAt;
    var grown := [Chunk(base, 0)] + chunks;
    assert grown[1..] == chunks;
    if IsSlot(chunks, size, s) {
      var k, i: nat :| 0 <= k < |chunks| && i < chunks[k].filled && s == SlotAt(chunks[k].base, i, size);
      assert grown[k + 1] == chunks[k];
    }
    if IsSlot(grown, size, s) {
      var k, i: nat :| 0 <= k < |grown| && i < grown[k].filled && s == SlotAt(grown[k].base, i, size);
      assert grown[k] == chunks[k - 1];
    }
  }

  class TccPool {
    const slotSize: nat
    const perChunk: nat
    var cap: nat
    var live: nat
    /** All blocks, the newest first: cur is the first. */
    var chunks: seq<Chunk>
    var freeList: int
    /** The first word of each slot. */
    var mem: map<int, int>

    /** Slots in use, and the free list. */
    ghost var used: set<int>
    ghost var free: seq<int>

    ghost predicate Valid()
      reads this
    {
      && slotSize >= 8 && slotSize % 8 == 0 && perChunk > 0
      && Blocks(chunks, slotSize, perChunk) && cap == perChunk * |chunks|
      && Linked(mem, freeList, free)
      && (forall i, j :: 0 <= i < j < |free| ==> free[i] != free[j])
      && (forall s :: s in free ==> s !in used)
      && (forall s :: s in used || s in free <==> IsSlot(chunks, slotSize, s))
      && live == |used| && live + |free| == Filled(chunks)
    }

    /** tcc_pool_new */
    constructor (size: nat, n: nat)
      ensures Valid() && used == {} && free == [] && chunks == []
      ensures size <= slotSize && (slotSize < size + 8 || slotSize == 8) && perChunk == if n == 0 then 64 else n
    {
      var s := (size + 7) / 8 * 8;
      slotSize := if s < 8 then 8 else s;
      perChunk := if n == 0 then 64 else n;
      cap, live, chunks, freeList, mem := 0, 0, [], 0, map[];
      used, free := {}, [];
    }

    /** The slot at the head of the free list. */
    method Reuse() returns (s: int)
      requires Valid() && freeList != 0
      modifies this
      ensures Valid() && chunks == old(chunks) && cap == old(cap) && mem == old(mem)
      ensures s !in old(used) && used == old(used) + {s} && IsSlot(chunks, slotSize, s)
      ensures old(free) != [] && s == old(free)[0] && free == old(free)[1..]
    {
      hide Blocks, IsSlot, Filled;
      s := freeList;
      assert free != [] && s == free[0] && s in free;
      freeList := mem[s];
      live := live + 1;
      used := used + {s};
      free := free[1..];
      assert forall t :: t in old(free) <==> t == s || t in free;
    }

    /** pool_grow */
    method Grow(block: int)
      requires Valid() && block > 0 && (chunks != [] ==> chunks[0].filled == perChunk)
      requires forall c :: c in chunks ==> Apart(block, c.base, Bytes(slotSize, perChunk))
      modifies this
      ensures Valid() && used == old(used) && free == old(free) && chunks == [Chunk(block, 0)] + old(chunks)
      ensures mem == old(mem)
    {
      hide IsSlot, Filled, Apart, Linked;
      forall s: int ensures IsSlot([Chunk(block, 0)] + chunks, slotSize, s) <==> IsSlot(chunks, slotSize, s) {
        GrownSlots(chunks, block, slotSize, s);
      }
      GrownSlots(chunks, block, slotSize, 0);
      GrownBlocks(chunks, block, slotSize, perChunk);
      chunks := [Chunk(block, 0)] + chunks;
      cap := cap + perChunk;
      MulNext(perChunk, |old(chunks)|);
    }

    /** The next slot of the current block. */
    method Bump() returns (s: int)
      requires Valid() && chunks != [] && chunks[0].filled < perChunk
      modifies this
      ensures Valid() && free == old(free) && |chunks| == |old(chunks)| && chunks[1..] == old(chunks)[1..]
      ensures mem == old(mem)
      ensures s !in old(used) && used == old(used) + {s} && IsSlot(chunks, slotSize, s)
      ensures s == chunks[0].base + 16 + old(chunks)[0].filled * slotSize && chunks[0].base == old(chunks)[0].base
    {
      hide IsSlot, Filled, Linked, SlotAt, Blocks;
      SlotAddress(chunks[0].base, chunks[0].filled, slotSize, perChunk);
      BumpedAt(chunks, 0);
      s := SlotAt(chunks[0].base, chunks[0].filled, slotSize);
      NextIsNew(chunks, slotSize, perChunk);
      forall t: int ensures IsSlot(Bumped(chunks), slotSize, t) <==> IsSlot(chunks, slotSize, t) || t == s {
        BumpedSlots(chunks, slotSize, t);
      }
      BumpedSlots(chunks, slotSize, s);
      BumpedBlocks(chunks, slotSize, perChunk);
      chunks := Bumped(chunks);
      live := live + 1;
      used := used + {s};
    }

    /** tcc_pool_alloc, where block is what malloc returns if it comes to that, or 0: the slot is none in use
        and apart from all in use, the one freed last if there is one, and nothing is written. The pool grows only
        when every slot it has is in use. */
    method Alloc(block: int) returns (s: int)
      requires Valid() && block >= 0
      requires block != 0 ==> forall c :: c in chunks ==> Apart(block, c.base, Bytes(slotSize, perChunk))
      modifies this
      ensures Valid() && mem == old(mem)
      ensures s == 0 ==> block == 0 && used == old(used) && chunks == old(chunks) && old(live) == old(cap)
      ensures s != 0 ==> s !in old(used) && used == old(used) + {s} && IsSlot(chunks, slotSize, s)
      ensures s != 0 ==> forall t :: t in old(used) ==> s + slotSize <= t || t + slotSize <= s
      ensures if old(free) == [] then free == []
              else s == old(free)[0] && free == old(free)[1..] && chunks == old(chunks)
      ensures s != 0 ==> forall c <- chunks :: s + slotSize <= c.base || c.base + 16 <= s
      ensures s != 0 ==> exists c <- chunks :: c.base + 16 <= s && s + slotSize <= c.base + 16 + perChunk * slotSize
      ensures |chunks| != |old(chunks)| ==>
        old(live) == old(cap) && |chunks| == |old(chunks)| + 1 && chunks[0].base == block && s == block + 16
      ensures s != 0 && old(free) == [] && |chunks| == |old(chunks)| ==>
        chunks != [] && s == chunks[0].base + 16 + old(chunks)[0].filled * slotSize
    {
      hide Linked, IsSlot, Blocks, Apart;
      if freeList != 0 {
        s := Reuse();
      } else {
        NothingFree();
        if chunks == [] || chunks[0].filled == perChunk {
          AllUsed(chunks, slotSize, perChunk);
          if block == 0 {
            return 0;
          }
          Grow(block);
          HeadOf(block, old(chunks));
        }
        HeadNotFull(chunks, slotSize, perChunk);
        s := Bump();
      }
      Separate(s, old(used));
      SlotInOneBlock(chunks, slotSize, perChunk, s);
    }

    lemma NothingFree()
      requires Valid() && freeList == 0
      ensures free == []
    {
      hide IsSlot, Blocks, Filled;
      if free != [] {
        assert free[0] in free;
        SlotPositive(chunks, slotSize, perChunk, free[0]);
      }
    }

    /** Slots in use do not overlap. */
    lemma Separate(s: int, others: set<int>)
      requires Valid() && IsSlot(chunks, slotSize, s) && s !in others && others <= used
      ensures s > 0 && forall t :: t in others ==> s + slotSize <= t || t + slotSize <= s
    {
      hide IsSlot, Blocks, Linked, Filled;
      SlotPositive(chunks, slotSize, perChunk, s);
      forall t | t in others ensures s + slotSize <= t || t + slotSize <= s {
        SlotsApart(chunks, slotSize, perChunk, s, t);
      }
    }

    /** tcc_pool_free of a slot in use, or of nothing. */
    method Free(s: int)
      requires Valid() && (s == 0 || s in used)
      modifies this
      ensures Valid() && chunks == old(chunks) && cap == old(cap)
      ensures mem == if s == 0 then old(mem) else old(mem)[s := old(freeList)]
      ensures if s == 0 then used == old(used) && free == old(free)
              else used == old(used) - {s} && free == [s] + old(free)
    {
      hide Blocks, IsSlot, Filled;
      if s == 0 {
        return;
      }
      LinkedFrame(mem, mem[s := freeList], freeList, free);
      mem := mem[s := freeList];
      freeList := s;
      live := live - 1;
      used := used - {s};
      free := [s] + free;
      assert free[1..] == old(free);
      assert Linked(mem, freeList, free);
    }

    /** The program writes to a slot in use: the free list is not in its way. */
    method Write(s: int, v: int)
      requires Valid() && s in used
      modifies this`mem
      ensures Valid() && used == old(used) && free == old(free) && chunks == old(chunks) && mem == old(mem)[s := v]
    {
      hide Blocks, IsSlot, Filled;
      LinkedFrame(mem, mem[s := v], freeList, free);
      mem := mem[s := v];
    }
  }

  lemma MulNext(n: nat, k: nat)
    ensures n * (k + 1) == n * k + n
  {}

  lemma GrownBlocks(chunks: seq<Chunk>, block: int, size: nat, n: nat)
    requires Blocks(chunks, size, n) && block > 0 && (chunks != [] ==> chunks[0].filled == n)
    requires forall c :: c in chunks ==> Apart(block, c.base, Bytes(size, n))
    ensures Blocks([Chunk(block, 0)] + chunks, size, n)
  {}

  lemma BumpedBlocks(chunks: seq<Chunk>, size: nat, n: nat)
    requires Blocks(chunks, size, n) && chunks != [] && chunks[0].filled < n
    ensures Blocks(Bumped(chunks), size, n)
  {}

  /** With the current block full, every slot there is has been handed out. */
  lemma {:induction false} AllUsed(chunks: seq<Chunk>, size: nat, n: nat)
    requires Blocks(chunks, size, n) && (chunks == [] || chunks[0].filled == n)
    ensures Filled(chunks) == n * |chunks|
  {
    hide Apart, Bytes;
    if chunks != [] {
      AllUsed(chunks[1..], size, n);
      MulNext(n, |chunks| - 1);
    }
  }

  lemma HeadOf(block: int, chunks: seq<Chunk>)
    ensures ([Chunk(block, 0)] + chunks)[0] == Chunk(block, 0)
  {}

  lemma HeadNotFull(chunks: seq<Chunk>, size: nat, n: nat)
    requires Blocks(chunks, size, n) && chunks != [] && chunks[0].filled != n
    ensures chunks[0].filled < n
  {}
}
