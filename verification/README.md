# Models of the bounds checker runtime, the ARM back ends and the pool

Dafny models of the parts of the compiler and its runtime library where the code is furthest from
what it is for, with proofs that it does it.

* `SplayTree`, `RegionIndex`, `BoundsChecker` model the region index of `lib/bcheck.c` as linked nodes
  that are rewired in place. An abstract tree and two trees with a hole follow the pointers; the
  contracts of the entry points speak of the set of regions only (`Regions`, `Frames`).
  `Quarantine` is the ring of freed blocks as a machine over whole runs of a program, and
  `BoundsChecker.Replay` makes the calls of such a run on the linked nodes and the ring array.
* `Division` is the 64-by-64 division of `lib/libtcc1.c` out of 32-bit limbs.
* `BitMasks`, `LogicalImm`, `A64`, `MoveImm`, `OperandImm`, `AddressImm` model constants in the A64 back
  end: the logical-immediate encoder against the decoder of the Arm ARM (DDI 0487, pseudocode chapter
  J1), and an evaluator for the instruction words that the code generator emits. `Arguments` is the
  placement of arguments (section 5.4.2 of IHI 0055B).
* `A32`, `StuffConst`, `AddConst` do the same for A32 (sections A5.2 and A8.8 of DDI 0406C).
* `JumpLists` are the lists of branches to patch, in both back ends.
* `LinkA64` and `LinkArm` are the bit fields of relocations and linkage tables (section 4.6 of IHI 0056B).
* `Pool` is the intrusive free-list pool of `lib/tcc-pool.h`.

`Bits`, `Words` and `Options` are shared vocabulary. Instruction words and 64-bit machine words of the
back ends are bit-vectors; addresses, limbs and sizes elsewhere are integers with wrap-around written
out. In the bit-vector modules a fact is proved on plain expressions first and then carried over to
the named functions, with everything else hidden.

What the contracts say of machine words rests on a few evaluators and predicates. The lemmas called `Known...`,
with `A64.Register31`, `A32.ExecStores` and `Regions.Edges`, fix these on concrete words and edges from the
manuals; those called `...Means` and `...Keeps`, such as `OperandImm.ComputesKeeps` and `AddConst.SumsMeans`,
write out what a predicate over all states promises, and short ones like `LinkA64.AlignedIs` and
`AddConst.AddSubExact` what a test of bits does.

## What does not hold

Where the code falls short of what it is for, the model keeps the code and says exactly when it is right.

* A checked access that begins below a region and ends in it is accepted, and so is one that circles
  around all addresses (`Regions.AccessCheckMeaning`, `Regions.StraddlePasses`).
* An inserted region that overlaps another one past its start leaves an index that cannot be searched
  (`RegionIndex.Index.Insert`, `BoundsChecker.Checker.BoundMalloc`, `BoundsChecker.Checker.LocalNew`,
  `RegionIndex.OverlapPlanted`).
* Leaving a frame takes away a region that was there before, if it starts where a local does
  (`Frames.LeaveUndoesEnter`, `Frames.LeaveTakesMore`).
* A free of an address where no region starts, such as a second free after the block has left the ring,
  goes straight to the allocator, and a free of a local goes through the ring to it
  (`Quarantine.HandsBackBlocks`, `Quarantine.StrayReaches`). An address then reaches the allocator at most once
  per malloc exactly if it has at most one such free while it is out and else none
  (`Quarantine.GivenBackOncePerMalloc`).
* A local that was freed and ends leaves its address in the ring (`Quarantine.DropExact`,
  `Quarantine.LocalFreed`).
* A shift by a zero count is written to register 0 instead of the target (`OperandImm.GenShift`,
  `OperandImm.ZeroShiftElsewhere`).
* A load or store with base x30 and an offset that needs x30 goes elsewhere (`AddressImm.Ldrx`,
  `AddressImm.BaseOverwritten`); the code generator splits such offsets before (`AddressImm.LoadThroughX30`).
* The comment on `arm64_check_offset` has its two values the other way round; the model follows the code and its
  callers (`AddressImm.CheckOffsetSplits`).
* `arm64_spoff` is right exactly for offsets from 0 to 4095 (`AddressImm.Spoff`, `AddressImm.SpoffNegative`).
* `encbranch` lets displacements pass that 24 bits cannot hold (`JumpLists.EncDec`, `JumpLists.FarBranch`).
* Relocation of the low 12 bits of an address that is not aligned for the load or store passes and is
  wrong (`LinkA64.RelocExact`, `LinkA64.Misaligned`).
* A Thumb call into ARM code is not checked for range (`LinkArm.RelocateThumb`, `LinkArm.FarCall`), and goes
  wrong if its addend leads off a word boundary (`LinkArm.UnevenCall`).
* A Thumb jump into ARM code is sent to the offset of its stub in the section and not to its address
  (`LinkArm.StubByOffset`).
* A linkage table entry with a Thumb stub in front jumps through the wrong slot: the offset is computed
  before the stub is skipped (`LinkArm.EntryJumps`, `LinkArm.StubMisses`).
* Alignments above 32 are not those of the stack slots (`Arguments.SlotAligned`, `Arguments.SlotMisaligned`).

## Model

| member | source | states |
|---|---|---|
| `Regions.CompareMeaning` | lib/bcheck.c:2411-2412 | The comparison of `splay` is zero exactly when the region contains the key, that of `splay_end` exactly when it ends there |
| `Regions.CompareMonotone` | lib/bcheck.c:2411-2465 | Along disjoint regions in ascending order either comparison goes from above through at most one match to below |
| `Regions.OwnerIsUnique` | lib/bcheck.c:585-604 | In a disjoint set the region that contains a pointer, or else the one that ends at it, is the only candidate a check can pick |
| `Regions.AddCheckExact` | lib/bcheck.c:595-604 | A pointer sum is rejected exactly when it leaves start..start+size, for every pointer and every wrapped offset |
| `Regions.AccessCheckExact` | lib/bcheck.c:646-661 | For every region, pointer, wrapped offset and width an access is rejected exactly when its end, wrapped, lies outside start..start+size |
| `Regions.AccessCheckMeaning` | lib/bcheck.c:646-661 | So the accesses that leave the region and pass are exactly those that begin outside and end in it, and those that circle around all addresses |
| `Regions.StraddlePasses` | lib/bcheck.c:646-661 | A concrete access of that family: 4 bytes read 2 bytes below an 8-byte region pass |
| `Regions.SumIsChecked` | lib/bcheck.c:595-604 | What is reported for a sum of a pointer into a region or just past its end: outside exactly if the region is gone or the wrapped sum leaves it, for every set of regions |
| `Regions.AccessIsChecked` | lib/bcheck.c:646-661 | Likewise for an access of n bytes: exactly if the wrapped end of it leaves the region |
| `Regions.StrangerIsChecked` | lib/bcheck.c:605-612 | Other pointers are not found, but for NULL in sums, and unless no region is known |
| `Regions.MembersChange` | lib/bcheck.c:2517-2592 | Which regions there are after an insertion and after a removal |
| `SplayTree.SearchIsAscending` | lib/bcheck.c:2414-2463 | A tree is a search tree of disjoint regions exactly when its in-order sequence ascends |
| `SplayTree.OrderFixesKeys` | lib/bcheck.c:2414-2463 | Whatever keeps the in-order sequence keeps the region set and searchability, so splaying is invisible to lookups |
| `SplayTree.CutRotateRight` | lib/bcheck.c:2431-2436 | A right rotation in the middle keeps the three-way cut of the tree around the key |
| `SplayTree.CutRotateLeft` | lib/bcheck.c:2443-2448 | Likewise a left rotation |
| `SplayTree.CutLink` | lib/bcheck.c:2437-2455 | Handing the top of the middle to the left or right tree keeps the cut, on the side the comparison says |
| `SplayTree.AssembledSplayed` | lib/bcheck.c:2456-2460 | Reassembling the three parts gives the old nodes in the old order, and from a search tree one under a root that parts the keys |
| `SplayTree.RootDecides` | lib/bcheck.c:2414-2515 | After a splay the root matches the key exactly when any region does, and it is the only one |
| `SplayTree.SeekLeft` | lib/bcheck.c:2428-2439 | One turn of the loop at a node above the key: either the middle shrinks or it ends with an empty left subtree; if the key lies below the left child too the two are turned around first and the search goes on two nodes down; the pointers keep spelling out the cut |
| `SplayTree.SeekRight` | lib/bcheck.c:2440-2451 | The same at a node below the key |
| `SplayTree.Splay` | lib/bcheck.c:2414-2515 | `splay` and `splay_end` on any tree of linked nodes terminate, write only child links of the tree, keep nodes, regions, order and acyclicity; a search tree stays one and gets a root that parts the keys |
| `RegionIndex.PlantedSearch` | lib/bcheck.c:2517-2564 | Insertion looks at the start address only; the result is a tree of disjoint regions exactly when the old one was and the new region touches none |
| `RegionIndex.OverlapPlanted` | lib/bcheck.c:2517-2564 | A concrete insertion: ten bytes from 4090 beside a region at 4096 leave no such tree |
| `RegionIndex.JoinHasNoRight` | lib/bcheck.c:2575-2582 | Splaying the left subtree at the deleted key yields a root without right child, so that hanging the right subtree there loses nothing |
| `RegionIndex.JoinedFacts` | lib/bcheck.c:2575-2582 | The join has all nodes and regions but the deleted one, in the same order |
| `RegionIndex.Index.constructor` | lib/bcheck.c:361-364 | The empty index owns no node and holds no region |
| `RegionIndex.Index.TakeNode` | lib/bcheck.c:2531-2541 | A node comes off the list of recycled nodes if there is one and is new otherwise |
| `RegionIndex.Index.Insert` | lib/bcheck.c:2517-2564 | For every address, size and tree `splay_insert` terminates and adds the one region or nothing; in a search tree it adds it exactly unless its start is covered; order of the others and the nodes owned are kept; the result is a search tree of disjoint regions exactly when the old one was and the start was covered or the region touches none |
| `RegionIndex.Index.Delete` | lib/bcheck.c:2566-2592 | `splay_delete` removes exactly the region that starts at the address, if any, and its node moves to the recycling list; owned nodes are never lost |
| `BoundsChecker.Checker.Locate` | lib/bcheck.c:585-595 | Root shortcut, splay and end splay together find the owner of the pointer in the region set, whatever shape the tree had, with the same nodes |
| `BoundsChecker.Checker.PtrAdd` | lib/bcheck.c:573-618 | For every region that holds the pointer: outside is reported exactly if the region is gone or pointer plus offset, wrapped, leaves start..start+size, and the pointer returned is then the invalid one; a pointer in no region is not found, but for NULL or before any region is known; the regions stay |
| `BoundsChecker.Checker.PtrIndir` | lib/bcheck.c:622-674 | The same for the checked accesses, with the access width added to the sum |
| `Frames.LocalsInTurn` | lib/bcheck.c:700-718 | Entering a frame adds the locals of the table one after the other |
| `Frames.FrameRecords` | lib/bcheck.c:746-766 | Leaving a frame takes out of the alloca records just those of the frame, and keeps the order of the others |
| `Frames.FrameJumps` | lib/bcheck.c:767-787 | And likewise the setjmp records |
| `Frames.ThreadRecords` | lib/bcheck.c:934-949 | What longjmp takes ahead of its target are just the records of its thread, the others in order |
| `Frames.LeaveUndoesEnter` | lib/bcheck.c:700-745 | For every set of regions and every table, leaving a frame restores the set from before it was entered exactly if no region of that set starts where a local does |
| `Frames.LeaveTakesMore` | lib/bcheck.c:700-745 | A concrete frame: a local that starts where a region does is not added, but the region goes when the frame is left |
| `Frames.StillThere` | lib/bcheck.c:950-981 | Each round of the longjmp loop finds a region not yet taken and makes the set strictly smaller, so the loop ends |
| `Frames.AllAbandoned` | lib/bcheck.c:950-981 | When the loop finds no region in range, exactly those starting in the range are gone |
| `Frames.PurgeOneMore` | lib/bcheck.c:962-978 | The records unlinked do not depend on the order in which the tree gives up its regions |
| `Frames.PurgeExact` | lib/bcheck.c:962-978 | With no address recorded twice exactly the matching alloca records disappear |
| `Frames.RangeEnds` | lib/bcheck.c:955-961 | Of regions just below, at and just above both ends of [7000, 8000] the two at the ends go |
| `Frames.FirstIsTarget` | lib/bcheck.c:926-928 | The first record with this thread and buffer is the target, whatever comes after it |
| `Frames.ThreadsStep` | lib/bcheck.c:934-949 | One step of the walk over `jmp_list` keeps the records of other threads and drops this thread's |
| `Frames.Target` | lib/bcheck.c:926-928 | The record that longjmp stops at is the first of this thread for the buffer |
| `BoundsChecker.FindIn` | lib/bcheck.c:955-961 | The descent finds a region starting at or above the one bound and at or below the other, exactly when there is one |
| `BoundsChecker.Checker.constructor` | lib/bcheck.c:357-376 | A new checker owns no node and no region, checks, reports fatally, and has a ring of a hundred empty slots |
| `BoundsChecker.Checker.LocalNew` | lib/bcheck.c:700-718 | Entering a frame with any table adds its locals to the region set; the index can be searched afterwards exactly if each local, when its turn comes, is covered or clear, and in any case it loses no region and gains none but locals |
| `BoundsChecker.Checker.LocalDelete` | lib/bcheck.c:730-789 | Exactly the regions go that start at a local of the table or at an alloca of the frame, and the records of the frame from both lists; the nodes owned are the same |
| `BoundsChecker.Checker.LongJump` | lib/bcheck.c:914-990 | A region goes exactly if it starts from start_fp to the end_fp of the target record, both included, and its alloca records with it; from `jmp_list` exactly this thread's records ahead of the target; without a target nothing changes |
| `BoundsChecker.Checker.BoundMalloc` | lib/bcheck.c:1759-1798 | On the class, for every answer of the allocator, `__bound_malloc` is the step of the abstract heap; the index can be searched afterwards exactly if the block is covered or clear |
| `BoundsChecker.Checker.BoundFree` | lib/bcheck.c:1882-1921 | On the class with its splayed tree and ring array, `__bound_free` is the step of the abstract heap, with the same address handed on and the same double-free error |
| `BoundsChecker.Checker.Step` | lib/bcheck.c:573-1921 | One call on the class is one step of the abstract heap, with the nodes it gains new |
| `BoundsChecker.Replay` | lib/bcheck.c:573-1921 | For every run of the abstract heap, the same calls made one after the other on one checker end in the same regions and ring, hand the same addresses to the allocator in the same order, and report the same at every check |
| `Quarantine.StartInv` | lib/bcheck.c:357-361 | The heap invariant holds at the start |
| `Quarantine.StepKeeps` | lib/bcheck.c:1759-1921 | Every malloc, every free of any address whatever, every check and every start and end of a region that is no block keeps the invariant |
| `Quarantine.RunKeeps` | lib/bcheck.c:1759-1921 | So it holds after every run of such events |
| `Quarantine.DropExact` | lib/bcheck.c:730-745 | And the end of a region keeps it exactly if no block starts there, malloc's or a freed one |
| `Quarantine.LocalFreed` | lib/bcheck.c:1882-1921 | A concrete run: a local at 4096 is created, freed and ends; its address stays in the ring with no region to it |
| `Quarantine.MallocExact` | lib/bcheck.c:1759-1798 | What a malloc that is answered does to each region: it adds one of the size asked for, one byte for none, or marks the one that starts there; the ring does not move |
| `Quarantine.FreeExact` | lib/bcheck.c:1882-1921 | What a free that succeeds does: the region is marked, the address goes into the slot under the cursor, the cursor moves on around the hundred slots, and what was in the slot is given back with its region |
| `Quarantine.HistoryGrows` | lib/bcheck.c:1759-1921 | What a malloc, a free of a region and a free of anything else add to the history that the results about runs speak of |
| `Quarantine.InvalidIffInRing` | lib/bcheck.c:1898-1916 | After every such run the invalid regions are exactly the non-NULL ring entries, and no address is in the ring twice |
| `Quarantine.InvalidIsHeld` | lib/bcheck.c:1898-1916 | After every sequence of events without exception, invalid regions are in the ring |
| `Quarantine.OutcomeExact` | lib/bcheck.c:1887-1916 | What becomes of a free after every such run: ignored, handed straight on, double free or quarantined, by NULL, regions and ring alone |
| `Quarantine.PendingIsDead` | lib/bcheck.c:1901-1907 | A second free of a quarantined block changes neither regions nor ring, and every check through a pointer into the block or just past its end is rejected |
| `Quarantine.FreedUntilHundredMore` | lib/bcheck.c:1910-1920 | In every sequence of events without exception the address freed with success as the k-th is given back exactly when 100 more frees have succeeded, and is in the ring until then |
| `Quarantine.GivenBackOncePerMalloc` | lib/bcheck.c:1759-1921 | After every such run each address has left the ring as often as malloc handed it out or it was freed without that, less one if it is still out; the allocator gets it at most as often as malloc handed it out exactly if such frees and strays are at most one while it is out and else none |
| `Quarantine.HandsBackBlocks` | lib/bcheck.c:1896-1920 | After every such run, for every address freed: what the allocator gets is nothing or an outstanding answer of malloc exactly if the address is NULL, there are no regions, or a region starts at it and it is invalid or the slot it takes holds no foreign address |
| `Quarantine.StrayReaches` | lib/bcheck.c:1896-1920 | A concrete run: with a local in the index, the free of an address malloc never answered reaches the allocator |
| `Division.UDivQrnnd` | lib/libtcc1.c:127-133 | The hardware divide: with high word below the divisor quotient and remainder fit one word |
| `Division.CountLeadingZeros` | lib/libtcc1.c:134-139 | The bit count that normalises a divisor |
| `Division.EstimateOffByOne` | lib/libtcc1.c:320-340 | After normalisation the quotient estimate is the quotient or one more |
| `Division.DivideNormalized` | lib/libtcc1.c:320-352 | So one correction step is enough: the result is the exact quotient, and the shifted-back remainder is exact |
| `Division.UDivWide` | lib/libtcc1.c:269-353 | Divisors of two words: quotient and remainder on all paths |
| `Division.UDivModDi4` | lib/libtcc1.c:144-358 | For every n and every nonzero d the quotient is returned and the remainder stored; a zero divisor reaches the deliberate trap |
| `Division.TruncLaw` | lib/libtcc1.c:362-405 | Truncated division: quotient and remainder recompose the dividend and the remainder takes its sign |
| `Division.DivDi3` | lib/libtcc1.c:362-383 | `__divdi3` is division toward zero modulo 2^64, also for the most negative number |
| `Division.ModDi3` | lib/libtcc1.c:385-405 | `__moddi3` is its remainder |
| `Division.UDivDi3` | lib/libtcc1.c:407-410 | Unsigned quotient |
| `Division.UModDi3` | lib/libtcc1.c:412-418 | Unsigned remainder |
| `BitMasks.RotatedWraps` | src/arm64-gen.c:130-177 | A rotated run that reaches bit 0 is the complement of a run that does not |
| `BitMasks.RotatedInside` | src/arm64-gen.c:130-177 | And one that does not is such a run |
| `BitMasks.RunPeriod` | src/arm64-gen.c:140-155 | A run has no shorter period than its element, so the search for the period finds the element size |
| `BitMasks.DecodedRun` | src/arm64-gen.c:130-177 | Every decodable field stands for a run or the complement of one |
| `BitMasks.FieldPlain` | src/arm64-gen.c:130-177 | A field of element size e, s + 1 ones and rotation r stands for that run, repeated |
| `BitMasks.FieldTurned` | src/arm64-gen.c:130-177 | And if the run turns around the end, for the complement of one that does not |
| `BitMasks.NoField` | src/arm64-gen.c:130-177 | The fields that stand for nothing: all ones, and element size 1 |
| `BitMasks.DoubledMask` | src/arm64-gen.c:209-210 | The N bit is set exactly for the masks whose halves differ, so a W form never needs it |
| `LogicalImm.StripZeros` | src/arm64-gen.c:157-163 | The six halving steps shift out exactly the trailing zeros |
| `LogicalImm.StripOnes` | src/arm64-gen.c:165-171 | And exactly the trailing ones |
| `LogicalImm.FoundRun` | src/arm64-gen.c:157-173 | What the two counts describe is the input |
| `LogicalImm.RunFound` | src/arm64-gen.c:157-173 | And a run is always found |
| `LogicalImm.EncodeBimm64` | src/arm64-gen.c:130-177 | Sound and complete: a field returned decodes to the input, and none is returned exactly when no field decodes to it |
| `OperandImm.GenLogicalImm` | src/arm64-asm.c:685-714 | The assembler's word decodes to the operation with exactly the immediate, and there is an error exactly when none is encodable |
| `MoveImm.MoveExecutes` | src/arm64-gen.c:179-214 | What a single move word loads is what executing it leaves in its register |
| `MoveImm.MoveComplete` | src/arm64-gen.c:179-214 | Every MOVZ, MOVN or ORR immediate of the zero register that executes is such a move |
| `MoveImm.HardUnmovable` | src/arm64-gen.c:179-214 | A constant that fails all tests of `arm64_movi` is loaded by no MOVZ, MOVN or ORR immediate at all |
| `MoveImm.Movi` | src/arm64-gen.c:179-214 | A nonzero word loads exactly x into r; zero is returned only when no single word could |
| `MoveImm.FillMovable` | src/arm64-gen.c:235-240 | So the search for a first halfword never fails |
| `MoveImm.HalvesCounted` | src/arm64-gen.c:216-245 | The halfwords counted are those of x, one by one |
| `MoveImm.Movimm` | src/arm64-gen.c:216-245 | For every x the code sets r to x and nothing else, in one word if any MOVZ, MOVN or ORR immediate loads it and else in 4 less the larger number of all-zero or all-one halfwords |
| `OperandImm.GenOpic` | src/arm64-gen.c:1777-1854 | Which operations are taken on, and that the code computes the 32- or 64-bit result with only x30 as scratch, except a zero shift count into a register other than 0; one word does for shifts, bitwise operations and short constants |
| `OperandImm.GenAdd` | src/arm64-gen.c:1780-1801 | Addition, and subtraction of a constant by adding its negation, on immediate, shifted and register forms |
| `OperandImm.GenReverse` | src/arm64-gen.c:1803-1812 | Constant minus register on the negate, not and subtract paths |
| `OperandImm.GenLogical` | src/arm64-gen.c:1814-1829 | The bitwise operations; refusal exactly for unencodable masks |
| `OperandImm.GenShift` | src/arm64-gen.c:1831-1851 | Shifts by nonzero counts; for a zero count right exactly when the target is register 0 |
| `OperandImm.ZeroShiftElsewhere` | src/arm64-gen.c:1838-1842 | The code for a zero count fails for every other target register |
| `AddressImm.CheckOffsetAdds` | src/arm64-gen.c:301-315 | The part for the symbol and the part for the access add up to the offset |
| `AddressImm.CheckOffsetFits` | src/arm64-gen.c:301-315 | The part for the access always fits one instruction |
| `AddressImm.FitsExactly` | src/arm64-gen.c:301-315 | What fits one instruction: multiples of the access size below 4096 of them, and -256 to 255 |
| `AddressImm.CheckOffsetSplits` | src/arm64-gen.c:301-315 | The part for the access is all of an offset that fits, else its bits under the scaled mask, and else its low nine bits |
| `AddressImm.Ldrx` | src/arm64-gen.c:317-334 | The load reaches base plus offset with the right width, extension and register, changing at most x30, exactly if the base is not x30 or the offset fits one instruction; where it is not right it reaches twice the offset |
| `AddressImm.Strx` | src/arm64-gen.c:435-450 | The store likewise |
| `AddressImm.BaseOverwritten` | src/arm64-gen.c:317-334 | A concrete load: base x30 and offset 0x10000 |
| `AddressImm.LoadThroughX30` | src/arm64-gen.c:543-560 | Split offset and load together reach symbol plus offset in one instruction, never clobbering the x30 base |
| `AddressImm.AddOffset` | src/arm64-gen.c:471-494 | For every addend the code adds it and leaves all other registers, with memory changed at most just below the stack pointer; one word does for 12 bits, two for 24 |
| `AddressImm.Spoff` | src/arm64-gen.c:286-298 | The code yields stack pointer plus offset exactly for offsets below 4096; for others it leaves the stack pointer plus the size of the offset, or the offset alone |
| `AddressImm.SpoffLargeWrong` | src/arm64-gen.c:294-297 | From 4096 on it never does, for any offset and register |
| `AddressImm.SpoffSmallExact` | src/arm64-gen.c:289-293 | Below that in magnitude it does exactly for the non-negative offsets |
| `AddressImm.SpoffNegative` | src/arm64-gen.c:289-293 | A concrete offset: for -8 the word written is an addition of 8 |
| `Arguments.PlaceArg` | src/arm64-gen.c:867-990 | One argument: it gets the next registers of its class, a pair aligned to 16 bytes an even one, exactly when those that are left hold all of it, and else the next stack offset that is aligned for it; its place is free and allowed for its type |
| `Arguments.GeneralPlaced` | src/arm64-gen.c:945-989 | Where an integer, pointer or struct of at most 16 bytes goes: from the next general register on, skipping one only for 16-byte alignment and an odd number, if they hold all of it; else to the next aligned doublewords of the stack, and no general register is left |
| `Arguments.PointerPlaced` | src/arm64-gen.c:891-904 | A struct of more than 16 bytes goes by pointer, in the next general register or doubleword |
| `Arguments.FloatPlaced` | src/arm64-gen.c:909-943 | A floating-point number goes to the next vector register, or to the stack, a long double aligned |
| `Arguments.AggregatePlaced` | src/arm64-gen.c:915-943 | A homogeneous aggregate takes a vector register for each member, all or none |
| `Arguments.StructAfterInt` | src/arm64-gen.c:945-967 | A concrete call: after an int a struct of two longs is in X1 and X2, and one aligned to 16 bytes in X2 and X3 |
| `Arguments.PcsAux` | src/arm64-gen.c:861-993 | All arguments: each is where the standard puts it after the ones before it, places are pairwise disjoint, in range and aligned, inside the returned total; once a class is on the stack no later argument of it gets a register; a return value is in X0, V0 or by pointer |
| `Arguments.SlotAligned` | src/arm64-gen.c:972-974 | Stack slots are aligned for their type exactly up to an alignment of 32 |
| `Arguments.SlotMisaligned` | src/arm64-gen.c:972-974 | A concrete call: the third struct of four long doubles aligned to 64 is put at offset 32 |
| `StuffConst.NotModImm` | src/arm-gen.c:301-307 | When no even rotation puts c into eight bits, c is no modified immediate |
| `StuffConst.ModImmExact` | src/arm-gen.c:299-308 | The modified immediates are what fits in one of the sixteen windows of eight bits |
| `StuffConst.TryConst` | src/arm-gen.c:299-308 | An instruction with operand exactly c is found exactly when c is a modified immediate |
| `StuffConst.SwapComputes` | src/arm-gen.c:266-296 | ADD/SUB, MOV/MVN and AND/BIC with the negated or complemented constant compute the same |
| `StuffConst.StuffConst` | src/arm-gen.c:261-312 | The instruction returned does what the template does with c, on the same condition; 0 exactly when neither c, its swapped form nor the all-ones forms fit |
| `StuffConst.EncodableExact` | src/arm-gen.c:261-312 | Which constants that are, by opcode: also the negation for ADD and SUB, the complement for MOV, MVN, AND and BIC, and all ones for EOR, AND and ORR |
| `StuffConst.MovEncodable` | src/arm-gen.c:273-278 | For MOV that is: c or its complement is a modified immediate |
| `AddConst.WinApart` | src/arm-gen.c:324-332 | The windows that are combined never share a bit |
| `AddConst.InWindow` | src/arm-gen.c:324-334 | What a window cuts out of a constant is a modified immediate |
| `AddConst.PairsDisjoint` | src/arm-gen.c:328-329 | The loops over two windows go over exactly the pairs that share no bit |
| `AddConst.TriplesDisjoint` | src/arm-gen.c:344-346 | And over three windows over exactly the disjoint triples |
| `AddConst.FindPair` | src/arm-gen.c:328-335 | Two windows are found exactly when any two disjoint windows cover the constant |
| `AddConst.FindTriple` | src/arm-gen.c:344-353 | Three likewise |
| `AddConst.PairExact` | src/arm-gen.c:324-335 | A constant has a pair exactly if it is zero outside two windows that lie 8 to 24 bits apart |
| `AddConst.TripleExact` | src/arm-gen.c:324-353 | And a triple if outside three such windows |
| `AddConst.StuffConstHarder` | src/arm-gen.c:315-369 | For every v the code adds or subtracts exactly v and changes no other register: in one word if v can be encoded, in two if v or -v has a pair, in three if one has a triple, and else in four |
| `AddConst.CalcAddr` | src/arm-gen.c:437-462 | On every path base and offset still give the same address, and the offset is within reach and a multiple of the unit; an offset that is so already takes no code |
| `JumpLists.EncDec` | src/arm-gen.c:371-390 | `decbranch` undoes `encbranch` exactly for aligned displacements of 24 bits |
| `JumpLists.EncBranchExact` | src/arm-gen.c:371-381 | Displacements from -64 MB - 3 to 64 MB - 1 are encoded, rounded toward zero to words, and no others |
| `JumpLists.FarBranch` | src/arm-gen.c:375-381 | A displacement that passes the test of `encbranch` and is decoded to another address |
| `JumpLists.ChainDistinct` | src/arm-gen.c:393-408 | A list that ends has no branch twice, so walking it terminates |
| `JumpLists.PatchedGoes` | src/arm-gen.c:393-408 | A patched word leads to the target exactly for aligned and, in A32, near targets |
| `JumpLists.PassesExact` | src/arm64-gen.c:248-261 | The range test in displacements: below 64 MB from the program counter in A32, below 128 MB from the branch in A64 |
| `JumpLists.PatchedExact` | src/arm64-gen.c:248-261 | The word written: the displacement in words under the old condition, a no-op for the next word |
| `JumpLists.GsymAddr` | src/arm64-gen.c:248-261 | Every branch of the list and no other word is patched, conditions kept, exactly when all displacements are in range, from -64 MB - 3 to 64 MB - 1 in A32 and from -128 MB to 128 MB - 1 in A64; otherwise it gives up |
| `JumpLists.GjmpAppendA32` | src/arm-gen.c:1587-1602 | The two lists are joined exactly when the displacement of the last branch is from -64 MB - 3 to 64 MB - 1; one word changes |
| `JumpLists.GjmpAppendA64` | src/arm64-gen.c:1692-1704 | The two lists are joined; one word changes |
| `LinkA64.Jump26Exact` | src/arm64-link.c:316-343 | JUMP26 and CALL26: the range test passes exactly when the word written decodes to the displacement |
| `LinkA64.Cond19Exact` | src/arm64-link.c:292-303 | CONDBR19 likewise, with the other bits of the word kept |
| `LinkA64.Test14Exact` | src/arm64-link.c:304-315 | TSTBR14 likewise |
| `LinkA64.Jump26Complete` | src/arm64-link.c:316-343 | Every displacement that has an encoding passes |
| `LinkA64.Cond19Complete` | src/arm64-link.c:292-303 | The same for CONDBR19 |
| `LinkA64.Test14Complete` | src/arm64-link.c:304-315 | The same for TSTBR14 |
| `LinkA64.Range26` | src/arm64-link.c:316-324 | The test for 26 bits passes multiples of 4 from -2^27 to 2^27 - 4 |
| `LinkA64.Range19` | src/arm64-link.c:298-300 | For 19 bits from -2^20 to 2^20 - 4 |
| `LinkA64.Range14` | src/arm64-link.c:310-312 | For 14 bits from -2^15 to 2^15 - 4 |
| `LinkA64.AdrpExact` | src/arm64-link.c:248-270 | ADRP: the test passes exactly when the immediate decodes to the page distance |
| `LinkA64.AdrpComplete` | src/arm64-link.c:248-270 | Every page distance that has an encoding passes |
| `LinkA64.RangePages` | src/arm64-link.c:248-266 | The test for pages passes -2^20 to 2^20 - 1 |
| `LinkA64.Lo12Exact` | src/arm64-link.c:271-291 | The low 12 bits are exact exactly for addresses aligned for the access |
| `LinkA64.Lo12Rounds` | src/arm64-link.c:271-291 | For others the address is rounded down to the unit |
| `LinkA64.PairReaches` | src/arm64-link.c:248-291 | ADRP and the instruction after it reach exactly the value |
| `LinkA64.GotLo12Exact` | src/arm64-link.c:354-359 | LD64_GOT_LO12_NC is exact exactly when the three bits it keeps are zero |
| `LinkA64.RelocExact` | src/arm64-link.c:248-343 | For all these types the relocated word reaches the value exactly when the test passes and, for a load or store, the value is aligned for the access |
| `LinkA64.Relocate` | src/arm64-link.c:248-343 | The same of the word in the section, which is written even where the test fails, with the low 12 bits never refused; no other word or bit changes |
| `LinkA64.FieldsWritten` | src/arm64-link.c:248-343 | The field written, also where the test fails: the low bits of the distance in words or pages |
| `LinkA64.Misaligned` | src/arm64-link.c:271-291 | A concrete value: an 8-byte load from 12 passes and gets the bytes at 8 |
| `LinkA64.PltLoads` | src/arm64-link.c:139-147 | The address words of an entry load its slot into x17 and its address into x16 |
| `LinkA64.RelocatePlt` | src/arm64-link.c:122-162 | Header and every entry are written, and success means every page distance fits |
| `LinkA64.EntryJumps` | src/arm64-link.c:149-162 | A written entry whose page distance fits loads its own slot and branches there through x17 |
| `LinkA64.EntryRange` | src/arm64-link.c:153-158 | The test of an entry passes distances of -2^20 to 2^20 - 1 pages from the entry to its slot |
| `LinkA64.HeaderJumps` | src/arm64-link.c:132-149 | The header whose distance fits loads the third slot of the table and branches there through x17, exactly if its second word is not the first of a page, which the 8-byte alignment of the section rules out |
| `LinkArm.ThumbExact` | src/arm-link.c:306-318 | Decoding undoes encoding exactly for displacements of 25 bits |
| `LinkArm.ThumbBack` | src/arm-link.c:241-254 | Encoding undoes decoding |
| `LinkArm.EncodedField` | src/arm-link.c:306-318 | Written and read again, every displacement keeps its bits 1 to 24 |
| `LinkArm.ThumbRange` | src/arm-link.c:301-304 | The range is from -2^24 to 2^24 - 1 |
| `LinkArm.StubsExact` | src/arm-link.c:257-288 | A stub is needed for a jump to an even address outside the table; the target is then the offset behind the section, plus 1, and what is added are the two words bx pc, nop and b |
| `LinkArm.RelocateThumb` | src/arm-link.c:241-319 | For every branch and target the branch written has the wanted displacement exactly when that is in range, and then leads to the target plus its addend, with BLX exactly if that begins a word; the test is exact for Thumb targets, for ARM targets it checks alignment only; a jump into ARM code gets a stub |
| `LinkArm.FarCall` | src/arm-link.c:296-304 | A call with addend 0 to ARM code 32 MB away that passes the test and goes elsewhere |
| `LinkArm.UnevenCall` | src/arm-link.c:290-304 | A call into ARM code whose addend leads off a word boundary: it passes and goes elsewhere |
| `LinkArm.StubByOffset` | src/arm-link.c:273-282 | A jump sent to a stub has the displacement of the stub exactly if the section starts at 0, with a concrete input where it does not |
| `LinkArm.SlotReached` | src/arm-link.c:153-157 | The offset computed for an entry leads from its program counter to its slot |
| `LinkArm.PartsSum` | src/arm-link.c:160-163 | The three rotated additions and the load offset add up to it |
| `LinkArm.HeaderReached` | src/arm-link.c:153-154 | The header finds the offset table |
| `LinkArm.RelocatePlt` | src/arm-link.c:142-166 | In a table of entries with and without Thumb stubs every entry is written for the offset computed at its beginning, and the stubs stay |
| `LinkArm.EntryLoads` | src/arm-link.c:160-163 | The four words decode to additions and a load that jump through the program counter plus the offset |
| `LinkArm.EntryFinds` | src/arm-link.c:157-164 | Which place a written entry jumps through: the offset in its second word, with a stub in front four bytes beyond the offset in its first |
| `LinkArm.EntryJumps` | src/arm-link.c:127-164 | A written entry jumps through its own slot exactly if it has no stub in front, or the word before its slot offset happens to be four less |
| `LinkArm.StubMisses` | src/arm-link.c:127-164 | A concrete table: an entry with a stub and slot 12 jumps through 4 |
| `Pool.SlotsApart` | lib/tcc-pool.h:102-104 | Slots handed out never overlap, within a block or across blocks |
| `Pool.SlotInOneBlock` | lib/tcc-pool.h:102-104 | A slot lies behind the 16 bytes of the header of its block and before the end of the block, and in no other block |
| `Pool.TccPool.constructor` | lib/tcc-pool.h:50-67 | A new pool is empty; a slot holds the size asked for, rounded up to words, and a block the number asked for or 64 |
| `Pool.TccPool.Grow` | lib/tcc-pool.h:70-82 | Growing keeps every slot and adds the capacity of one block |
| `Pool.TccPool.Alloc` | lib/tcc-pool.h:84-107 | The slot returned is in no use and apart from all in use, the one freed last if there is one, else the next behind the 16 bytes of the header of the newest block; no slot is written; the pool grows, or fails, only when every slot it has is in use |
| `Pool.TccPool.Free` | lib/tcc-pool.h:109-116 | The slot heads the free list and leaves the slots in use; only its own first word is written |
| `Pool.TccPool.Write` | lib/tcc-pool.h:92-93 | Writing to slots in use does not disturb the free list |

## Left out

- Semaphores, signals, fork and the other locks of the bounds checker: each entry point is modelled as one step.
- Statics, argv, errno and the checked string functions: they use the same insertion, deletion and checks.
- `__bound_new_region` with its test for overlapping records, and realloc, calloc and memalign.
- The initial pool that `__bound_malloc` serves before start-up, and the exit when the checker itself runs out of memory.
- malloc of the largest size_t, where size + 1 wraps to 0: the allocator is taken to answer size + 1 bytes.
- memtrack totals, fill patterns, counters and messages.
- The alloca and setjmp lists are sequences, so unlinking by pointer is modelled as removal by position.
- The data of a tree node is one value and its links are two fields; the C code keeps them side by side.
- Quarantine.StepKeeps: the allocator is taken to answer unused memory and to survive what is handed to it; the end of a region whose start is an outstanding block is excluded, and Quarantine.DropExact shows that this is all that has to be.
- Weak undefined symbols of Thumb branches, and names and symbols of the stubs.
- Vector loads and stores of A64, loads of small structs, and symbols and thread-local storage.
- A64 instructions that set flags, and the carry of A32: the evaluators stop there instead.
- Zero-size arguments, variadic rules of other systems, and the classification of types that precedes the placement.
- Division by the variant that needs no normalisation, and the assembler form of the divide itself.
- Other relocation types: plain sums of words.
- The blocks of the pool are a sequence of base addresses; destroying the pool and the caller that frees a slot twice.
- The value stack, sections and symbol tables: instructions are appended to a sequence that is returned.
- Assembler parsers, other back ends, debug formats.
