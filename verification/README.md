# Verified models of the kernel's core algorithms

This project models the hardest algorithms of the kernel tree in Dafny and proves what they are for: the
allocators (boot-time regions, buddy pages, slab objects, per-cpu areas), the trees that name things (IDR radix
tree, red-black tree, resource tree), the lock-free list, list sorting, CRC-32, decimal conversion, and the build
tool that strips preprocessor conditionals. Code that changes state step by step is an imperative Dafny method or a
class; each such method is proved against a function or a predicate, and the laws are lemmas about that function.

`dafny verify dfyconfig.toml` checks everything. No file needs another project.

## How it is organised

| files | models | main results |
|---|---|---|
| `Preprocessor`, `Unifdef*` | scripts/unifdef.c: the table-driven line machine (10 states, 33 actions) and the expression evaluator | stripping preserves meaning for every truth assignment; it accepts exactly the well-nested files; a second run with the same symbols changes nothing; both stacks of the machine are a function of the open groups' directives; answers of the evaluator are sound, and a literal may be used freely exactly when it is below 2^31 or nothing is ever answered |
| `Crc32*` | lib/crc32.c, lib/gen_crc32table.c | slicing-by-8 with the generated tables computes the bit-at-a-time CRC for every buffer, alignment and seed; the multiplication is a commutative ring; the logarithmic shift is feeding zeros; CRCs of pieces combine |
| `Llist` | lib/llist.c | every interleaving of adders and one remover behaves like an atomic stack; a failed compare-and-swap means another call succeeded |
| `Buddy*` | mm/page_alloc.c | over every run free blocks stay aligned, disjoint and fully coalesced and no page is lost or shared; which pages are free determines the block layout; a free undoes an allocation |
| `Memblock*` | mm/memblock.c | the region table is the canonical form of an address map; add, remove and flag changes act pointwise on the map; the two-cursor iterators yield exactly the free memory; allocation takes the highest usable address, fails exactly when there is none or the table is full, and blocks never overlap |
| `Idr*` | lib/radix-tree.c, lib/idr.c | any run answers every call as a plain table does: the smallest unused id of the range, or an error exactly when there is none |
| `Percpu*`, `Alignment` | mm/percpu.c, lib/bitmap.c | block hints stay exact through allocation and free; what is read off the hints is there, so the search for an area stays in the map and succeeds; an area is the first aligned fit; the boundary map always recovers the length of a live area |
| `Slub*` | mm/slub.c | in every state of every run each object is in exactly one place (a page freelist, a cpu freelist, or handed out); allocation fails exactly when no object is at hand and there is no memory; bulk free returns every object exactly once |
| `ListSort*` | lib/list_sort.c | the in-place bottom-up merge sort relinks the ring into its one stable sorted arrangement, back links included |
| `Decimal*` | lib/vsprintf.c, lib/kstrtox.c | both printers print exactly the digits; the multiply-and-shift divisions are exact up to their stated bounds and wrong at them; parsing accepts exactly the numerals; printing then parsing is the identity |
| `Rb*` | lib/rbtree.c, include/linux/rbtree_augmented.h | linking with the insertion fix-up, and the whole of erasure (unlinking, successor, fix-up), on a memory of linked records, end in a red-black tree with exactly the right nodes in the right order; height bound; in-order successor |
| `Resource*` | kernel/resource.c | in every state of every run of requests, insertions, adjustments, releases, removals, allocations and moves, at any depth, the tree is ordered and nested and holds exactly what was put in and not taken out; each call succeeds exactly when it should; remove undoes insert; the 64-bit search is right except for two exactly described families of requests |

`Options` and `Numbers` hold what several of them share.

Machine widths are explicit where they matter (`bv32` registers, wrap at 2^32 and 2^64, truncation to `int`).
Values that come from outside the code (which pages are corrupted, which memory a new slab gets, what the compare
function answers) are parameters, so every statement is about all of them.

## What the code does that its comments do not say

- scripts/unifdef.c:463-466: a directive that is not on one line is refused wherever printing would switch at it,
  except an undecided `#elif` after a false `#if`: the text before it was dropped, and it is printed.
  `UnifdefDodgy.DodgyNeverSwitches` gives the exact condition, `UnifdefDodgy.SwitchHappens` a file on which it
  happens.
- scripts/unifdef.c:445-454: comments are to be left alone in a group opened by an ignored symbol up to its `#elif`.
  With -e, an ignored `#if` that is not on one line and whose first `#elif` is true keeps them so up to its third.
  `UnifdefIgnore.IgnoringIsExact` gives the exact condition, `UnifdefIgnore.LingeringHappens` a file on which it
  happens.
- scripts/unifdef.c:853-859: a literal is cut to an `int`. `UnifdefEvalProofs.LiteralRange` proves, for all
  options and symbols, that a literal may be used freely beside numbers that fit an `int` if and only if it is
  below 2^31 or the options leave everything unanswered (-K, no -k, no symbols).
- scripts/unifdef.c:463-466: with -e a decided condition on a directive that is not on one line is left behind.
  `UnifdefIdempotence.OutputIsUndecided` says that nothing else decided is, and
  `UnifdefIdempotence.LeftBehindIsPrinted` is an instance that would go if it were read on one line.
- lib/idr.c:42-43: with `max` below the base the subtraction wraps and an id above `max` is handed out.
  `IdrApi.AllocInRange` proves the promise holds if and only if the base is at most `max`;
  `IdrApi.WrapHandsOutAboveMax` is an instance.
- lib/idr.c:113-131: with a negative start the cyclic form never goes round, because the retry compares unsigned
  numbers. `IdrRuns.CyclicGoesRound` gives the exact condition, `IdrRuns.NegativeStartStops` an instance.
- mm/page_alloc.c:858-918: the loop over the per-cpu lists ends if and only if the list holds at least as many pages
  as are asked for (`BuddyProgram.DrainEnds`); this is the precondition of `BuddyProgram.Zone.FreePcppagesBulk`, and
  the invariant that `BuddySystem.RunKeeps` proves makes its caller meet it.
- mm/page_alloc.c:667-753: with `pageblock_order` equal to `MAX_ORDER - 1` the second merging pass never runs, and
  the model has one merging loop.
- mm/memblock.c:175-265: where two reserved regions touch inside memory, the iterator yields an empty range between
  them. `MemblockIter.EmptyRangesExactly` gives the exact condition for empty ranges,
  `MemblockIter.EmptyRangeHappens` an instance; `MemblockIter.WalkInOrder` therefore says start <= end.
- mm/percpu.c:955-996: the search window may pass the end of the map, and then an area outside the map can be
  found. `PercpuChunk.StaysExact` proves when exactly it stays inside, `PercpuChunk.LeavesTheMap` is an instance
  where it does not, and `PercpuFit.AllocFrom` proves that with the offsets its callers pass it always does.
- mm/page_alloc.c:929-971: the check before a single page is freed looks at nothing (`BuddySystem.PrepareExact`);
  a corrupted page is dropped when it leaves the per-cpu list.
- kernel/resource.c:517-531: size 0 asked of an empty tree over all 64-bit addresses is granted all of them, since
  the end wraps to the last address. `ResourceFind.WrapsAreCaught` proves that this is the one wrap that goes
  through, `ResourceFind.AllocateExact` what becomes of it, `ResourceFind.NothingIsEverything` is an instance.
- kernel/resource.c:500-503: where the first child covers a tree that ends at the last 64-bit address, its end plus
  1 is 0 and the search answers a place that is taken. `ResourceFind.FindExact` gives the exact condition,
  `ResourceFind.FullAnswersZero` an instance; allocation is still right, because the request refuses the place.
- kernel/resource.c:825-860: a new size of 0 is accepted and leaves a resource that ends before it starts.
  `ResourceInsert.AdjustExact` proves that the tree stays well formed exactly for other sizes;
  `ResourceInsert.AdjustToNothing` is an instance.
- lib/kstrtox.c:86-104: a digit run that overflows is reported as out of range even when junk follows it;
  `DecimalParse.Kstrtoull` states this exactly, `DecimalParse.JunkAfterOverflow` for every such number and junk.

## Model

| member | source | states |
|---|---|---|
| Preprocessor.RejectedStaysRejected | scripts/unifdef.c:458-502 | reference preprocessor: a prefix that is not well nested cannot be repaired by what follows |
| UnifdefPreservation.TiedLive | scripts/unifdef.c:417-456 | where the machine prints, input and output agree on what is kept; where it drops, the input is skipped anyway |
| UnifdefPreservation.StepKeeps | scripts/unifdef.c:417-502 | every table step that does not stop keeps the tie between the input read, the output written and the state stack, for all actions and states |
| UnifdefTheorems.ConsumeKeeps | scripts/unifdef.c:583-596 | the tie holds after every prefix of every run |
| UnifdefTheorems.MeaningPreserved | scripts/unifdef.c:583-596 | a finished run has read a well-nested file and written a well-nested file that selects exactly the same text, for every truth assignment that agrees with what was decided |
| UnifdefTheorems.ConsumeNeverFinishes | scripts/unifdef.c:458-502 | only end of file ends a run normally |
| UnifdefTheorems.StopsForCause | scripts/unifdef.c:458-547 | a run stops only because the reference rejects the line, a directive is not on one line, or nesting is too deep; the internal-error exits are never taken |
| UnifdefTheorems.AcceptsExactlyWellNested | scripts/unifdef.c:458-502 | with every directive on one line, a run succeeds if and only if the file is well nested with fewer than MAXDEPTH open groups |
| UnifdefIdempotence.PassesThrough | scripts/unifdef.c:458-502 | a well-nested file whose lines carry no condition, an undecided one, or with -e one not on one line, is reproduced line for line |
| UnifdefIdempotence.SecondRunIsIdentity | scripts/unifdef.c:583-596 | the output of a run, classified again with the same symbols, is reproduced line for line by a second run |
| UnifdefIdempotence.PrintsOnlyUndecided | scripts/unifdef.c:417-456 | a step prints at most the condition of its input line, and only if it was undecided or, with -e, not on one line |
| UnifdefIdempotence.OutputIsUndecided | scripts/unifdef.c:583-596 | every condition in the output is one the input left undecided, except with -e those on directives not on one line |
| UnifdefIdempotence.LeftBehindIsPrinted | scripts/unifdef.c:458-502 | an instance of that exception: printed as it is, gone if it were on one line |
| UnifdefDodgy.DodgyNeverSwitches | scripts/unifdef.c:458-502 | a directive not on one line is let through without a switch of printing if and only if it is not the one unguarded case |
| UnifdefDodgy.SwitchHappens | scripts/unifdef.c:463-466 | the unguarded case happens: a concrete three-line file |
| UnifdefIgnore.StacksFromGroups | scripts/unifdef.c:417-518 | in every state of every run, with -e or without, the state stack and the ignore stack are what the directives of the open groups make them |
| UnifdefIgnore.IgnoringIsExact | scripts/unifdef.c:504-518 | comments are left alone in a group exactly while it or one around it was opened by an ignored symbol and has not reached an elif, if and only if no open group lingers by itself: an ignored #if not on one line, in printed text, followed by a true #elif and at most one more; without -e none does |
| UnifdefIgnore.LingeringHappens | scripts/unifdef.c:445-454 | with -e one does: a concrete two-line file |
| UnifdefProgram.Unifdef.Perform | scripts/unifdef.c:417-456 | the action, on the stack arrays in place, takes the machine to the state the specification gives |
| UnifdefProgram.Unifdef.Process | scripts/unifdef.c:583-596 | the driver loop computes the specified run |
| UnifdefEval.RunUnary | scripts/unifdef.c:824-907 | the recursive operand reader computes the specified evaluation |
| UnifdefEval.RunTable | scripts/unifdef.c:912-944 | the operator loop computes the specified evaluation of its precedence row |
| UnifdefEval.RunClassify | scripts/unifdef.c:951-962 | ifeval() gives the specified classification |
| UnifdefEvalProofs.ReadsBack | scripts/unifdef.c:912-944 | on the tokens of any expression, followed by anything that may follow it, the parser has that expression's value in hand and stands right after it |
| UnifdefEvalProofs.ReadsOperand | scripts/unifdef.c:912-944 | the same with the row's loop run to its end |
| UnifdefEvalProofs.AcceptsOnlyExpressions | scripts/unifdef.c:824-944 | conversely, whatever is accepted is the token string of some expression and the answer is its three-valued value |
| UnifdefEvalProofs.KnownIsExact | scripts/unifdef.c:746-777 | a known value is the value C computes whatever the unknown symbols turn out to be |
| UnifdefEvalProofs.AnswersAreSound | scripts/unifdef.c:951-962 | TRUE only if every completion of the unknown symbols is non-zero, FALSE only if every completion is zero |
| UnifdefEvalProofs.ConstantRange | scripts/unifdef.c:853-859 | with -k, a literal may be used freely in constant expressions if and only if it is below 2^31 |
| UnifdefEvalProofs.LiteralRange | scripts/unifdef.c:853-859 | with whatever options, in expressions with symbols too, a literal may be used freely if and only if it is below 2^31 or the options leave everything unanswered |
| UnifdefEvalProofs.WitnessLies | scripts/unifdef.c:853-859 | for each larger literal, an expression answered wrongly |
| UnifdefEvalProofs.DoubtedLies | scripts/unifdef.c:746-777 | without -K, a larger literal beside an unknown symbol is answered wrongly |
| UnifdefEvalProofs.BackedLies | scripts/unifdef.c:746-777 | with any symbol given, a larger literal beside it is answered wrongly |
| UnifdefEvalProofs.MuteAnswersNothing | scripts/unifdef.c:951-962 | with -K, without -k and without symbols, every line is answered unknown |
| UnifdefEvalProofs.StrictKnowsExactly | scripts/unifdef.c:746-777 | with -K, unknown exactly when an unknown symbol is mentioned |
| UnifdefEvalProofs.LaxRefinesStrict | scripts/unifdef.c:746-777 | dropping -K only turns unknown into an answer |
| Crc32.StepsLinear | lib/crc32.c:141-178 | any number of register steps is linear over xor |
| Crc32.CrcAffine | lib/crc32.c:141-178 | feeding a buffer is affine in the seed |
| Crc32.CrcConcat | lib/crc32.c:141-178 | the CRC of a concatenation is the CRC of the second part seeded with that of the first |
| Crc32Shift.MultiplyCommutes | lib/crc32.c:210-222 | the multiplication loop is commutative |
| Crc32Shift.MultiplyAssociates | lib/crc32.c:210-222 | and associative |
| Crc32Shift.MultiplyPower | lib/crc32.c:210-222 | multiplying by x^k is k steps of the register |
| Crc32Shift.SquarePower | lib/crc32.c:236-264 | squaring x^k gives x^2k |
| Crc32Shift.RunMultiply | lib/crc32.c:210-222 | the loop computes that multiplication |
| Crc32Shift.RunShift | lib/crc32.c:236-264 | a logarithmic number of multiplications does what 8*len register steps do |
| Crc32Shift.ZerosAreSteps | lib/crc32.c:226-264 | stepping the register is feeding zero bytes |
| Crc32Shift.CombineLaw | lib/crc32.c:226-264 | crc(A+B) is crc(A) shifted over the length of B, plus crc(B) from zero |
| Crc32Shift.CombineCrc | lib/crc32.c:226-264 | the code that combines two CRCs returns the CRC of the concatenation |
| Crc32Tables.Sarwate | lib/crc32.c:52-127 | eight register steps are one lookup and a shift, for every register |
| Crc32Tables.FillFirstRow | lib/gen_crc32table.c:37-57 | filling by doubling strides makes entry i the register after byte i |
| Crc32Tables.InitTables | lib/gen_crc32table.c:37-57 | row j, entry i is the register after byte i and j zero bytes |
| Crc32Body.FourBytes | lib/crc32.c:52-127 | a little-endian word xored in and 32 steps are four bytes fed one by one |
| Crc32Body.SliceIsSteps | lib/crc32.c:52-127 | four lookups of a word are 8(r+1) register steps |
| Crc32Body.RunBody | lib/crc32.c:52-127 | alignment prologue, eight-byte loop and tail compute the bit-at-a-time CRC for every buffer, address and seed |
| Crc32Body.RunBits | lib/crc32.c:141-178 | the single-bit build computes the reference CRC |
| Crc32Body.RunSlicing | lib/crc32.c:141-178 | the slicing-by-8 build, tables included, computes the same |
| Llist.StepKeeps | lib/llist.c:38-80 | every atomic step of any thread keeps the invariant: the chain from the head is the stack the log replays to |
| Llist.CmpxchgDelKeeps | lib/llist.c:64-80 | a successful removal installs the right successor although entries may have come in front of it since it was read |
| Llist.Linearizable | lib/llist.c:38-80 | every interleaving replays as an atomic stack, memory holds exactly that stack, and no node is lost, duplicated or returned twice |
| Llist.NothingLost | lib/llist.c:38-80 | added nodes are removed nodes plus what is in the list, as multisets |
| Llist.AddTakesEffect | lib/llist.c:38-48 | the caller is told whether the list was empty at the instant its batch went in |
| Llist.DelTakesEffect | lib/llist.c:64-80 | the newest entry is returned and exactly it is gone |
| Llist.FailureMeansProgress | lib/llist.c:38-80 | a failed compare-and-swap means some other call succeeded since the head was read |
| Llist.ReversedTwice | lib/llist.c:89-101 | reversing twice is the identity |
| Llist.Links.ReverseOrder | lib/llist.c:89-101 | the in-place loop reverses the chain and touches no other node |
| BuddyMath.BuddyIsSibling | mm/internal.h:31-35 | flipping bit o of an aligned page number gives the other half of the block above |
| BuddyMath.MergedPages | mm/page_alloc.c:667-753 | the pages of the merged block are those of the two buddies |
| BuddyBlocks.Covered | mm/page_alloc.c:667-753 | in a coalesced zone an aligned run of free pages lies inside a single free block |
| BuddyBlocks.Canonical | mm/page_alloc.c:667-753 | which pages are free determines the set of free blocks |
| BuddyZone.ExpandSplits | mm/page_alloc.c:203-227 | splitting keeps the lower half in hand and frees exactly the rest |
| BuddyZone.RmqueueTakes | mm/page_alloc.c:233-255 | what is returned was entirely free and is not any more, nothing else changes, and it fails exactly when no block is large enough |
| BuddyZone.MergeAbsorbs | mm/page_alloc.c:667-753 | the merging loop loses no page and ends only when no buddy is free |
| BuddyZone.FreeOneGives | mm/page_alloc.c:667-753 | exactly the given block becomes free, in coalesced form, counters right |
| BuddyZone.FreeUndoesAlloc | mm/page_alloc.c:203-255 | freeing what was just allocated restores the very same blocks |
| BuddyProgram.Zone.Expand | mm/page_alloc.c:203-227 | the loop on the free lists in place computes the specified split |
| BuddyProgram.Zone.RmqueueSmallest | mm/page_alloc.c:233-255 | the search loop takes the specified block or leaves the zone alone |
| BuddyProgram.Zone.FreeOnePage | mm/page_alloc.c:667-753 | merging loop and head-or-tail insertion compute the specified zone |
| BuddyProgram.Zone.RmqueueBulk | mm/page_alloc.c:321-352 | the refill loop takes up to n pages, dropping corrupted ones |
| BuddyProgram.DrainTail | mm/page_alloc.c:858-918 | pages leave the list at its tail in batches, count of them in all |
| BuddyProgram.DrainEnds | mm/page_alloc.c:867-906 | the loop ends if and only if the list holds at least count pages |
| BuddyProgram.Zone.FreePcppagesBulk | mm/page_alloc.c:858-918 | exactly the oldest count pages go back to the zone, in order, corrupted ones dropped |
| BuddySystem.BulkSplits | mm/page_alloc.c:321-352 | refilling moves pages from zone to list and loses none |
| BuddySystem.AllocPageKeeps | mm/page_alloc.c:355-408 | a single-page allocation keeps every page in exactly one place |
| BuddySystem.AllocBlockKeeps | mm/page_alloc.c:426-472 | so does a larger allocation, also when blocks with corrupted pages are dropped on the way |
| BuddySystem.PrepareExact | mm/page_alloc.c:929-971 | the check before freeing fails for a larger block exactly when one of its pages is corrupted, for a single page never |
| BuddySystem.FreePageKeeps | mm/page_alloc.c:986-1022 | so does a single-page free, with or without draining the list; corrupted pages are dropped as they leave it |
| BuddySystem.FreeBlockKeeps | mm/page_alloc.c:973-984 | so does a larger free |
| BuddySystem.RunKeeps | mm/page_alloc.c:594-1036 | over every run: blocks aligned, disjoint, coalesced, counters equal list lengths, every managed page in exactly one place |
| BuddySystem.BootOk | mm/page_alloc.c:1080-1104 | the state at boot, all memory with the boot code, satisfies the invariant |
| BuddySystem.LayoutIsHistoryFree | mm/page_alloc.c:667-753 | two histories that leave the same pages free leave the same blocks |
| MemblockRegions.Canonical | mm/memblock.c:118-141 | two minimal tables with the same address map are equal |
| MemblockRegions.MergeMakesTable | mm/memblock.c:118-141 | merging keeps map and total and makes the table minimal |
| MemblockOps.AddKeeps | mm/memblock.c:602-683 | adding changes exactly the absent addresses of the range, existing ones keep their attributes, the table stays minimal |
| MemblockOps.IsolatedSame | mm/memblock.c:736-795 | cutting at the borders changes no address and leaves no region across a border |
| MemblockOps.RemoveKeeps | mm/memblock.c:816-830 | removing clears exactly the range; the table is minimal although nothing is merged |
| MemblockOps.EditKeeps | mm/memblock.c:871-890 | changing attributes acts pointwise on the range, minimal again |
| MemblockOps.RemoveUndoesAdd | mm/memblock.c:602-830 | adding an absent range and removing it gives the same table back |
| MemblockOps.AddsCommute | mm/memblock.c:602-683 | two additions with equal attributes commute whatever they overlap |
| MemblockProgram.MemblockType.MergeRegions | mm/memblock.c:118-141 | the in-place loop computes the merged table |
| MemblockProgram.MemblockType.CountNew | mm/memblock.c:602-683 | the first round counts exactly the regions the second inserts |
| MemblockProgram.MemblockType.InsertNew | mm/memblock.c:602-683 | the second round inserts exactly the gaps, the total kept right |
| MemblockProgram.MemblockType.AddRange | mm/memblock.c:602-683 | succeeds exactly when the array has room for the pieces; then the map changes as specified, else nothing does |
| MemblockProgram.MemblockType.IsolateRange | mm/memblock.c:736-795 | cuts the table and returns the indices of exactly the regions inside, or fails and changes nothing |
| MemblockProgram.MemblockType.RemoveRegion | mm/memblock.c:797-814 | one region less, or the single empty dummy |
| MemblockProgram.MemblockType.RemoveRange | mm/memblock.c:816-830 | succeeds exactly when there is room to cut, then exactly the range is gone |
| MemblockProgram.MemblockType.EditRange | mm/memblock.c:871-890 | same for attribute changes |
| MemblockIter.WalkIsAllFree | mm/memblock.c:175-265 | two cursors moving only forwards yield what comparing all pairs yields, in the same order |
| MemblockIter.WalkYieldsFree | mm/memblock.c:175-265 | an address is yielded if and only if it is wanted memory and not taken |
| MemblockIter.WalkInOrder | mm/memblock.c:175-265 | ranges come out ascending, disjoint, each inside one region |
| MemblockIter.EmptyRangesExactly | mm/memblock.c:175-265 | no range is empty if and only if no two taken regions touch strictly inside a wanted one and no wanted region is empty strictly inside a gap |
| MemblockIter.EmptyRangeHappens | mm/memblock.c:175-265 | an instance: two reserved regions that touch |
| MemblockIter.WalkRevIsWalkReversed | mm/memblock.c:267-360 | the reverse iterator yields the forward one's ranges backwards |
| MemblockIter.NextMemRange | mm/memblock.c:175-265 | the nested loops compute the next range and cursors |
| MemblockIter.NextMemRangeRev | mm/memblock.c:267-360 | same in reverse |
| MemblockAlloc.TopDownIsHighest | mm/memblock.c:381-402 | the highest aligned fit of all ranges, 0 only if nothing fits |
| MemblockAlloc.FindTopDown | mm/memblock.c:381-402 | the search loop over the reverse iterator computes it |
| MemblockAlloc.UsableIsYielded | mm/memblock.c:267-360 | an address usable for the request, in memory minus reserved, fits one of the ranges the iterator yields |
| MemblockAlloc.YieldedIsUsable | mm/memblock.c:267-360 | and conversely |
| MemblockAlloc.FoundIsHighest | mm/memblock.c:381-402 | over memory minus reserved, the search finds the highest aligned address within one region with nothing reserved, 0 exactly when there is none |
| MemblockAlloc.FoundIsFree | mm/memblock.c:427-476 | what is found is aligned, within the limits and entirely free |
| MemblockAlloc.SearchIsBest | mm/memblock.c:427-476 | the same for the call as a whole, which leaves out the first page |
| MemblockAlloc.AllocTakesFree | mm/memblock.c:954-978 | allocation fails exactly when no address is usable or the reserved table has no room for the best one; otherwise it takes the highest usable address, within the limits, was free wanted memory, reserved afterwards, and nothing else changes |
| MemblockAlloc.BlocksAreDisjoint | mm/memblock.c:954-978 | all blocks of a run are pairwise disjoint and reserved |
| IdrTree.PutStores | lib/radix-tree.c:605-652 | descending and storing adds one index, tags and counts right at every level |
| IdrTree.DelRemoves | lib/radix-tree.c:1359-1375 | deleting, with empty nodes freed on the way up, drops one index, tags and counts right |
| IdrTree.FreeMeansTag | lib/radix-tree.c:940-954 | an unused index shows in the free tags of every node above it |
| IdrSearch.NodeSearched | lib/radix-tree.c:1466-1536 | the tag-guided descent finds the first unused index of a subtree or proves there is none |
| IdrSearch.SlotSearched | lib/radix-tree.c:1466-1536 | so does entering a slot without looking at its tag, as the code does after climbing |
| IdrRoot.ExtendOk | lib/radix-tree.c:415-469 | growing covers the index and changes no lookup |
| IdrRoot.ShrinkOk | lib/radix-tree.c:475-548 | shrinking changes no lookup and leaves the tree of least height |
| IdrRoot.StoreAdds | lib/radix-tree.c:415-652 | storing adds exactly one index |
| IdrRoot.DeleteDrops | lib/radix-tree.c:550-587 | deleting drops exactly one |
| IdrRoot.GetFreeIsLeast | lib/radix-tree.c:1466-1536 | the smallest unused index from start to max, none exactly when all are used |
| IdrProgram.Walk | lib/radix-tree.c:1466-1536 | the loop that goes down, skips by tags and climbs with its path finds it in the tree |
| IdrProgram.FindFree | lib/radix-tree.c:1466-1536 | so does the whole function, with growth and the restart past a full tree |
| IdrApi.AllocTakesLeast | lib/idr.c:31-54 | the smallest unused id of the range is taken and only it changes |
| IdrApi.AllocInRange | lib/idr.c:31-54 | an id is handed out exactly when the range has one, if and only if the base is at most max |
| IdrApi.WrapHandsOutAboveMax | lib/idr.c:31-54 | an instance of the wrap |
| IdrApi.FindReads | lib/idr.c:166-169 | lookup reads what was stored, NULL otherwise |
| IdrApi.RemoveForgets | lib/idr.c:147-150 | removal returns and forgets one id, no other changes |
| IdrRuns.ScanFinds | lib/idr.c:31-54 | reference scan: the least id not in the table |
| IdrRuns.CyclicAgrees | lib/idr.c:113-131 | the two-step cyclic search agrees with the table's, for negative starts too |
| IdrRuns.CyclicGoesRound | lib/idr.c:113-131 | the cyclic form keeps its promise to go round if and only if the start is not negative, an id is left in front, or none is left at all |
| IdrRuns.NegativeStartStops | lib/idr.c:113-131 | an instance where it does not |
| IdrRuns.StepAgrees | lib/idr.c:31-169 | every call answers as the table does |
| IdrRuns.RunIsTable | lib/idr.c:31-169 | any run from an empty IDR gives the table's answers |
| Alignment.AlignUpLeast | lib/bitmap.c:290-313 | masking gives the least aligned number from x on |
| PercpuBits.FindZeroArea | lib/bitmap.c:290-313 | the first aligned run of free bits, or a number past the end exactly when there is none |
| PercpuBits.FillBack | mm/percpu.c:1006-1032 | clearing what was set gives the map back |
| PercpuBlock.RunFound | mm/percpu.c:766-837 | the hint-or-scan shortcut finds the ends of the free run around what was freed |
| PercpuBlock.FreeKeepsExact | mm/percpu.c:601-620 | a free keeps longest run, its start, left and right edges exact and first free a lower bound |
| PercpuBlock.TakeKeepsExact | mm/percpu.c:657-737 | an allocation away from the longest run keeps all hints exact without a scan |
| PercpuBlock.RefreshHint | mm/percpu.c:630-645 | the scan from first free rebuilds exact hints |
| PercpuChunk.StartBlock | mm/percpu.c:657-737 | the block an area starts in ends with exact hints |
| PercpuChunk.EndBlock | mm/percpu.c:657-737 | so does the block it ends in; one filled to its last unit is exact once the clearing of filled blocks has zeroed its runs |
| PercpuChunk.LiveAdd | mm/percpu.c:955-996 | setting bits and bounds adds one live area and disturbs none |
| PercpuChunk.LiveDrop | mm/percpu.c:1006-1032 | clearing drops one and disturbs none |
| PercpuChunk.BoundEnds | mm/percpu.c:1006-1032 | the next boundary bit after a live area's start is its end |
| PercpuChunk.Chunk.constructor | mm/percpu.c:1034-1045 | a new chunk is all free with exact hints |
| PercpuChunk.Chunk.UpdateHintAlloc | mm/percpu.c:657-737 | all blocks exact after an allocation, whatever blocks it spans |
| PercpuChunk.Chunk.UpdateHintFree | mm/percpu.c:766-837 | all blocks exact after a free |
| PercpuChunk.StaysExact | mm/percpu.c:955-996 | the area found lies in the map if and only if the map has a fit in the window or the window has none at all |
| PercpuChunk.LeavesTheMap | mm/percpu.c:955-996 | an instance: with every unit taken and free memory behind the map, the area found is behind the map |
| PercpuChunk.Chunk.AllocArea | mm/percpu.c:955-996 | the first aligned fit of the window becomes live; -1 exactly when there is none, and then nothing changed |
| PercpuChunk.Chunk.FreeArea | mm/percpu.c:1006-1032 | the area, its length read from the boundary map, is free again and no other changes |
| PercpuFit.TailGoesOn | mm/percpu.c:359-406 | a free run up to the end of a block goes on for the next block's left edge |
| PercpuFit.UnalignedShows | mm/percpu.c:359-406 | a free run long enough for an unaligned request shows in the hints, within one block or across several |
| PercpuFit.NoneBeforeNext | mm/percpu.c:359-406 | a block passed over showed no place, alone or with the blocks before it |
| PercpuFit.NextFitRegion | mm/percpu.c:359-406 | a region returned holds an aligned fit; one is returned if and only if some block's longest run after alignment, or an aligned right edge with whole blocks and a left edge, is long enough; for an unaligned request from the first free unit, exactly when the map has a free run that long |
| PercpuFit.PassedOverHappens | mm/percpu.c:359-406 | a map with an aligned fit that is passed over |
| PercpuFit.IsPopulated | mm/percpu.c:867-882 | true exactly when every page of the region is populated; else the search resumes right behind missing pages of the region |
| PercpuFit.GoesOnBehind | mm/percpu.c:919-927 | resuming behind missing pages skips no place whose pages are all populated |
| PercpuFit.FindBlockFit | mm/percpu.c:903-934 | the offset returned starts a region with a fit, its pages populated where asked for; none exactly when the chunk's summary has no room or no blocks, populated where asked for, show a place; an unaligned request is turned away only by the summary or for want of a usable free run |
| PercpuFit.AllocFrom | mm/percpu.c:1355-1370 | fails exactly when no offset to search from is found; else the search stays in the map and the first fit from there is one live area more, its pages populated where asked for |
| SlubState.ExactlyOnePlace | mm/slub.c:970-1313 | the three places an object can be are exclusive and exhaustive |
| SlubOps.StepKeeps | mm/slub.c:970-1313 | a step on one page and one cpu that leaves those in order leaves the cache in order |
| SlubSteps.PopKeeps | mm/slub.c:1086-1171 | taking the first object of the cpu freelist keeps the invariant |
| SlubSteps.RefillKeeps | mm/slub.c:927-949 | so does taking over the page's freelist |
| SlubSteps.DeactivateKeeps | mm/slub.c:669-805 | so does giving a cpu slab back, onto the list, off it, or discarded |
| SlubSteps.AcquireKeeps | mm/slub.c:492-530 | so does freezing a listed page |
| SlubSteps.NewSlabKeeps | mm/slub.c:355-418 | so does a new slab |
| SlubSteps.PushCpuKeeps | mm/slub.c:1330-1368 | so does the fast free |
| SlubSteps.PushPageKeeps | mm/slub.c:1201-1313 | so does the slow free, with its moves on and off the partial list |
| SlubSteps.UnusedIsFree | mm/slub.c:669-805 | a page with nothing in use has every object on its freelist, so discarding it loses none |
| SlubSteps.RunKeeps | mm/slub.c:669-1497 | in every state of every run each object is in exactly one place and handed-out objects belong to slabs that still exist |
| SlubProgram.Cache.DrainFreelist | mm/slub.c:669-805 | stage one gives back all but the last object, in reverse |
| SlubProgram.Cache.DeactivateSlab | mm/slub.c:669-805 | both stages compute the specified state |
| SlubProgram.Cache.GetPartialNode | mm/slub.c:549-593 | takes the first listed page of the node, or changes nothing exactly when there is none |
| SlubProgram.Cache.NewSlabObjects | mm/slub.c:881-915 | a partial slab, else a new one; fails exactly when the node lists no slab and there is no memory |
| SlubProgram.Cache.SlabAlloc | mm/slub.c:970-1057 | hands out an object nobody has; fails exactly when neither the cpu's slab nor the node's list has one and there is no memory; takes no new slab while one is at hand |
| SlubProgram.Cache.Alloc | mm/slub.c:1086-1171 | the same with the fast path |
| SlubProgram.Cache.SlabFree | mm/slub.c:1201-1313 | computes the specified page and list |
| SlubProgram.Cache.Free | mm/slub.c:1330-1368 | exactly the given objects stop being handed out |
| SlubProgram.Cache.FlushCpuSlab | mm/slub.c:819-840 | the cpu ends without a slab, its objects back on the page |
| SlubBulk.BuildDetached | mm/slub.c:1411-1480 | takes the last entry's page-mates, looking past at most two strangers, and marks exactly those done |
| SlubBulk.TookGiven | mm/slub.c:1411-1480 | what was taken and what is left partition what was given |
| SlubBulk.FreeBulk | mm/slub.c:1483-1497 | every object of the array is given back exactly once |
| ListSortSpec.MergedSame | lib/list_sort.c:17-37 | merging loses and adds no node |
| ListSortSpec.MergedSorted | lib/list_sort.c:17-37 | merging stably sorted lists, the first one earlier, is stably sorted |
| ListSortSpec.StableUnique | lib/list_sort.c:102-144 | a list has one stable arrangement |
| ListSort.Merge | lib/list_sort.c:17-37 | the relinking loop leaves the merged chain and touches no other node |
| ListSort.MergeAndRestore | lib/list_sort.c:46-86 | the last merge also leaves correct back links and a closed ring |
| ListSortProgram.Carry | lib/list_sort.c:102-144 | merging into the bins like a binary counter keeps every bin sorted and bins in order |
| ListSortProgram.PutNode | lib/list_sort.c:102-144 | one input node is carried in; the bins hold exactly the input read so far |
| ListSortProgram.Finish | lib/list_sort.c:102-144 | merging the bins gives the sorted ring |
| ListSortProgram.SortList | lib/list_sort.c:102-144 | the ring is relinked into the stable sorted arrangement of the same nodes |
| DecimalDigits.DigitsValue | lib/vsprintf.c:118-126 | the digits of a number are worth it, all below ten, no leading zero |
| DecimalDigits.DigitsJoin | lib/vsprintf.c:226-236 | digits of a number are the padded low ones and those of the rest |
| DecimalDigits.Tenth32Exact | lib/vsprintf.c:177-203 | the multiply-and-shift tenth is exact below 1073741829 and wrong there |
| DecimalDigits.Tenth16Exact | lib/vsprintf.c:127-170 | same for 16-bit tenths, bound 16389 |
| DecimalDigits.Tenth15Exact | lib/vsprintf.c:127-203 | same for the 15-bit shift |
| DecimalDigits.Tenth11Exact | lib/vsprintf.c:243-254 | same for the 11-bit shift, bound 1029 |
| DecimalDigits.TenThousandthExact | lib/vsprintf.c:263-270 | same for the division by 10000, bound 1128869999 |
| DecimalPrint.PutDecFull9 | lib/vsprintf.c:127-170 | nine digits, zero padded |
| DecimalPrint.PutDecTrunc8 | lib/vsprintf.c:177-203 | the digits without padding, stopping early |
| DecimalPrint.PutDec9 | lib/vsprintf.c:226-236 | the digits of any number |
| DecimalPrint.PutDecFull4 | lib/vsprintf.c:243-254 | four digits, zero padded |
| DecimalPrint.PutDecHelper4 | lib/vsprintf.c:263-270 | four digits and the exact quotient |
| DecimalPrint.Regroup | lib/vsprintf.c:277-307 | the constants regroup four 16-bit parts in units of 10000 |
| DecimalPrint.LargestAsked | lib/vsprintf.c:277-307 | the helper is never asked beyond its exact range, and how close it comes |
| DecimalPrint.PutDec4 | lib/vsprintf.c:277-307 | the 32-bit build prints the digits of every 64-bit number, leading zeros dropped |
| DecimalPrint.PrintBoth | lib/vsprintf.c:226-307 | both builds print every 64-bit number alike |
| DecimalParse.Accumulate | lib/kstrtox.c:47-84 | overflow is noticed exactly although it is looked for only from 2^60 on |
| DecimalParse.ParseInteger | lib/kstrtox.c:47-84 | the longest digit run, its value, and overflow exactly when it does not fit |
| DecimalParse.Kstrtoull | lib/kstrtox.c:86-127 | accepts exactly the numerals of the (detected) base; out of range exactly when the digit run does not fit |
| DecimalParse.JunkAfterOverflow | lib/kstrtox.c:86-104 | any number that does not fit, followed by any junk, is no numeral and reported as out of range |
| DecimalParse.NumToStr | lib/vsprintf.c:317-335 | writes the decimal text if it fits and nothing behind it, else nothing at all |
| DecimalParse.DecimalReads | lib/kstrtox.c:47-84 | the decimal text of n reads as n |
| DecimalParse.RoundTrip | lib/vsprintf.c:317-335 | printing and parsing a 64-bit number gives it back |
| RbTree.PlugRedBlack | lib/rbtree.c:95-235 | a balanced subtree in a fitting context is a red-black tree |
| RbTree.FlippedBal | lib/rbtree.c:131-153 | after the colour flip the grandparent's subtree is balanced, one black higher at its parent |
| RbTree.RotatedBal | lib/rbtree.c:181-197 | after the outer rotation it is balanced |
| RbTree.DoubleRotatedBal | lib/rbtree.c:154-197 | after both rotations it is balanced |
| RbTree.DoubleRotatedSame | lib/rbtree.c:154-197 | same nodes in the same order |
| RbInsertSteps.FlipNext | lib/rbtree.c:131-153 | the colour writes in memory lead from one insertion state to the next, two levels up |
| RbInsertSteps.RotateNext | lib/rbtree.c:181-197 | the pointer writes of the outer rotation end in a red-black tree |
| RbInsertSteps.TwiceNext | lib/rbtree.c:154-197 | the pointer writes of both rotations do |
| RbErase.LiftedShort | lib/rbtree.c:257-275 | a red sibling is rotated away and the same side is short one level lower |
| RbErase.JoinedBal | lib/rbtree.c:276-306 | recolouring the sibling ends the work or moves the shortage up |
| RbErase.ShiftedBal | lib/rbtree.c:345-366 | rotating a red outer nephew up ends it |
| RbErase.TwiceShiftedBal | lib/rbtree.c:307-366 | rotating a red inner nephew up twice ends it |
| RbEraseSteps.LiftNext | lib/rbtree.c:257-275 | the pointer writes do so in memory |
| RbEraseSteps.JoinNext | lib/rbtree.c:276-306 | the colour writes do so in memory |
| RbEraseSteps.ShiftNext | lib/rbtree.c:345-366 | the pointer writes do so in memory |
| RbEraseSteps.TwiceShiftNext | lib/rbtree.c:307-366 | the pointer writes do so in memory |
| RbRoot.Root.InsertColor | lib/rbtree.c:95-235 | from a red node hung into a red-black tree to a red-black tree with the same nodes in the same order, every record right |
| RbRoot.Root.EraseColor | lib/rbtree.c:241-422 | from a tree one black node short under a parent to a red-black tree with the same nodes in the same order |
| RbUnlink.Removed | include/linux/rbtree_augmented.h:163-269 | a node with at most one child taken out of a red-black tree leaves one, or one that is short of a black node just where it was |
| RbUnlink.OneUnlinked | include/linux/rbtree_augmented.h:176-200 | case 1: the pointer writes take the node out in memory |
| RbUnlink.Spliced | include/linux/rbtree_augmented.h:201-262 | cases 2 and 3: the pointer writes put the successor in the node's place in memory |
| RbUnlink.SplicedOrder | include/linux/rbtree_augmented.h:201-262 | the order is then that of the tree without the node |
| RbUnlink.UnlinkedBy | include/linux/rbtree_augmented.h:163-269 | the fix-up is asked for exactly when a black node without children went, and then its starting state is reached |
| RbRoot.Root.Insert | lib/rbtree.c:448-451 | linking at a free place and the fix-up together: a red-black tree with the new node just there in the order |
| RbRoot.Root.EraseSingle | include/linux/rbtree_augmented.h:176-200 | case 1 as it runs |
| RbRoot.Root.FindSuccessor | include/linux/rbtree_augmented.h:201-243 | the loop down the left links finds the node that comes next in the order, and the one above it |
| RbRoot.Root.EraseSplice | include/linux/rbtree_augmented.h:201-262 | cases 2 and 3 as they run |
| RbRoot.Root.Erase | lib/rbtree.c:453-460 | erasure as a whole: a red-black tree again, the other nodes in the same order, every record right |
| RbFacts.SeenFrom | lib/rbtree.c:95-235 | a red-black tree seen from any of its subtrees |
| RbFacts.LinkReady | lib/rbtree.c:448-451 | hanging a red node at a NULL child makes the state insertion starts from |
| RbFacts.HeightBound | lib/rbtree.c:25-42 | the height is at most twice the logarithm of the number of nodes in the order plus one |
| RbFacts.OrderAround | lib/rbtree.c:519-548 | the order of a tree around any of its subtrees |
| RbFacts.Next | lib/rbtree.c:519-548 | the following node in order, NULL after the last |
| ResourceTree.ScanIs | kernel/resource.c:113-139 | the scan ends in the one gap, or at the first overlap |
| ResourceTree.FindPlace | kernel/resource.c:113-139 | the list walk computes it |
| ResourceTree.RequestIs | kernel/resource.c:113-139 | a request succeeds exactly when the range lies in the parent and meets no child; then there is that one child more |
| ResourceTree.ReleaseValid | kernel/resource.c:141-168 | releasing keeps the tree ordered, children kept or dropped |
| ResourceInsert.FindRun | kernel/resource.c:673-720 | the second loop accepts exactly a run of children that are all covered |
| ResourceInsert.InsertValid | kernel/resource.c:673-720 | inserting with adoption keeps the tree ordered and nested |
| ResourceInsert.InsertExact | kernel/resource.c:673-720 | it succeeds exactly when the range lies in the tree and cuts no resource anywhere in it |
| ResourceInsert.RemoveUndoesInsert | kernel/resource.c:815-823 | removing gives the tree back whatever was adopted |
| ResourceInsert.RemoveValid | kernel/resource.c:815-823 | removing keeps the tree ordered and nested |
| ResourceInsert.AdjustExact | kernel/resource.c:825-860 | a new range is accepted exactly when it stays in the parent, between all siblings and around all children; the tree stays well formed exactly when the range is not empty |
| ResourceInsert.AdjustToNothing | kernel/resource.c:825-860 | an instance: size 0 is accepted and leaves a resource that ends before it starts |
| ResourceInsert.AdjustRootExact | kernel/resource.c:825-860 | without a parent, accepted exactly when around all children |
| ResourceRuns.DoAtKeeps | kernel/resource.c:113-860 | any of the calls on any resource of the tree, however deep, keeps the tree ordered and nested and its range |
| ResourceRuns.RunValid | kernel/resource.c:113-860 | in every state of every run of calls the tree is ordered and nested |
| ResourceRuns.DoBalanced | kernel/resource.c:113-860 | no call loses, duplicates or invents a resource |
| ResourceRuns.RunBalanced | kernel/resource.c:113-860 | at any time the tree holds exactly what it held at first and what was added, less what was taken out |
| ResourceSplit.RestIsNext | kernel/resource.c:883-942 | while an upper part waits, the lower part is never refused, so nothing waiting is dropped |
| ResourceSplit.ReserveWithSplit | kernel/resource.c:883-942 | afterwards every address of the range belongs to a child; old children untouched, new ones within the range |
| ResourceSplit.ReserveRegion | kernel/resource.c:944-971 | the same for a clipped range; outside altogether nothing changes |
| ResourceFind.WrapsAreCaught | kernel/resource.c:487-541 | the 64-bit arithmetic with its checks finds what unbounded arithmetic finds, if and only if the request is not for size 0 in the gap that is the whole space |
| ResourceFind.FindResource | kernel/resource.c:487-541 | the loop over the children, in 64-bit arithmetic, computes the specified search |
| ResourceFind.FindExact | kernel/resource.c:487-541 | the search answers the lowest suitable place, the moved child's range counted as free, and none exactly when there is none, if and only if the request is not of two described families; what it answers for those |
| ResourceFind.FoundCanBeRequested | kernel/resource.c:613-646 | what was found is never refused |
| ResourceFind.AllocateResource | kernel/resource.c:613-646 | find and request compute the specified allocation |
| ResourceFind.AllocateExact | kernel/resource.c:613-646 | allocation succeeds exactly when there is room, at the lowest place, one child more, if and only if the request is not for nothing in an empty tree over all addresses; that one is granted everything |
| ResourceFind.NothingIsEverything | kernel/resource.c:517-531 | an instance of that |
| ResourceFind.FullAnswersZero | kernel/resource.c:500-503 | an instance of a taken place answered, and refused by the request |
| ResourceFind.RelocateKeeps | kernel/resource.c:563-599 | growing, shrinking or moving a child to a free place keeps the tree, and the second request never fails |
| ResourceFind.ReallocateResource | kernel/resource.c:563-599 | find, release and request compute the specified move |
| ResourceFind.ReallocateExact | kernel/resource.c:563-599 | the child ends at the lowest place the others leave free, unless its children would not be covered; no room exactly when there is no such place, with the same one exception |

## Left out

- scripts/unifdef.c: the character level (comment and line-continuation scanning, symbol table lookup by text, keyword editing of the line, symbol listing with -s, reading and writing of files): a line comes classified, and skipping of macro arguments works on tokens.
- UnifdefTheorems.AcceptsExactlyWellNested: is about files whose directives are each on one line; directives spread over several lines are covered by `UnifdefTheorems.StopsForCause` and `UnifdefDodgy.DodgyNeverSwitches`.
- UnifdefProgram.Unifdef.Process: starts from a fresh machine, as the program does for its one file.
- lib/crc32.c: the big-endian variant mirrors the little-endian one; the builds that take 1, 2, 4, 8 or 32 bits at a time compute the same remainder with fewer or smaller tables.
- lib/llist.c: memory ordering weaker than sequential consistency; several threads removing at once, which its comment forbids.
- mm/page_alloc.c: NUMA zone lists, watermarks, migration types, page flags other than the buddy marker, locking and interrupts; several zones are several instances of the model.
- BuddyProgram.Zone.FreePcppagesBulk: requires count at most the list's length, since the loop does not end otherwise; one migration type has one list.
- mm/memblock.c: doubling of the region array (a full array is an error, as before resizing is allowed), bottom-up search, memory limits, dumping, node splitting.
- lib/radix-tree.c: node allocation failure, read-copy-update, tags other than the free tag, iteration, gang lookup; the tree is a value, and the search loop is a method over it. lib/idr.c: ID bitmaps (ida).
- IdrRuns.RunIsTable: calls keep the caller's obligations: arguments of the C types, and the base at most the range's end (`IdrApi.AllocInRange` is what happens otherwise).
- mm/percpu.c: the chunk's own summary of its longest run (a parameter, which may turn requests away), chunk slots, populating of pages, first-chunk layout.
- PercpuChunk.Chunk.AllocArea: requires the exact condition for the area to lie in the map, since the code does not check; `PercpuFit.AllocFrom` shows that it is met.
- PercpuFit.NextFitRegion: promises exactly what the hints show; an aligned request may be passed over although the map has a fit, as the comment at mm/percpu.c:890-897 says (`PercpuFit.PassedOverHappens`). No unaligned one is.
- mm/slub.c: debugging paths, per-cpu partial lists, transaction ids; each of the model's steps is one successful compare-and-swap or one section under the node lock, so failed attempts that retry are not steps; sizes and orders of slabs.
- SlubProgram.Cache.Alloc: which of the free objects is handed out is not part of the promise, only that nobody has it.
- lib/list_sort.c: the periodic callback on long merges; lists beyond 2^20 nodes go to the last bin as in the code.
- ListSortProgram.SortList: requires the compare function to be a total preorder, as the function demands of its callers.
- lib/vsprintf.c: format strings, widths, flags, bases other than ten, pointer formats. lib/kstrtox.c: signed and narrower variants.
- DecimalParse.ParseInteger: the digit count and the overflow flag are two results; strings of 2^31 digits, whose count would collide with the flag bit, are not told apart from shorter ones.
- DecimalPrint.PutDecFull9: requires q below 10^9 and DecimalPrint.PutDecHelper4 x below its exact bound, as their callers ensure.
- lib/rbtree.c: the search for the insertion point (it is the caller's); augmented callbacks, cached leftmost, replacement, post-order. The two mirrored halves of each fix-up are one branch with the side as a parameter.
- kernel/resource.c: locking, muxed and busy regions, iomem walking, alignment callbacks beyond a power of two; child and sibling links are a sequence, so pointer updates are not modelled.
- Everything else in the tree: boot and architecture code, the scheduler, drivers, headers, and the remaining scripts set up or drive hardware and processes, which these models do not touch.
