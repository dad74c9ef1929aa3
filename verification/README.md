# Verified model of uC/LIB

uC/LIB is the runtime library of this firmware: a memory-pool allocator and
octet operations (`USER/uC-LIB/lib_mem.c`), macros for data words in either
octet order (`USER/uC-LIB/lib_mem.h`), and a string library
(`USER/uC-LIB/lib_str.c`). All of them work on one octet-addressed memory with
32-bit addresses that wrap, whose address 0 is NULL. The model keeps this
machine: words are 32 bits wide, every sum, difference and product is cut to
its width, and a range may run past the top of memory.

`dafny verify dfyconfig.toml` checks the whole project.

## How it is put together

- `Machine`: words, octets, memory, 32-bit codecs. `Arith`: three facts about
  remainders.
- `MemVal`, `MemOps`: the macros of lib_mem.h, and Mem_Clr, Mem_Set, Mem_Copy
  and Mem_Cmp on an array of 2^32 octets. The native octet order is a
  parameter. The loops reach memory through four methods, each of which has to
  be told the buffer its access lies in, and for words wants a multiple of 4.
- `Segments`, `BlockCheck`: the bump allocator of a segment against the
  predictor that Mem_PoolCreate trusts, and the address check of
  Mem_PoolBlkFree against the addresses that were carved.
- `PoolRecord`, `PoolTable`: MEM_POOL, and the calls as functions from state to
  state. `PoolLib`: the calls as the source writes them, a class with records
  linked by pointers and loops over lists and memory. Each method is proved to
  compute the function of `PoolTable` for every numeric input.
- `PoolLinks`, `PoolSearch`, `PoolMemory`, `PoolCarving`: the two-dimensional
  list, the segment search, the pointer tables in memory, and what the size
  checks promise about the allocations behind them.
- `PoolSafety`, `PoolCreation`, `PoolRuns`: the invariant of the pool table,
  that each call keeps it, and what follows for whole runs in which clients
  also store to the blocks they hold and to memory of their own. `held` is a history variable: the blocks
  handed out and not taken back. `PoolClient`: every call on the linked records
  is a step of such a run, so what is proved of runs holds of the records.
- `PoolErrors`, `PoolLimits`, `PoolShortfalls`: what error returns mean, and what
  happens beyond the limits that the invariant needs, with inputs.
- `Strings`: lib_str.c. A string that reaches the top of memory ends there.
  `Peek` and `Poke`, through which memory is read and written, require an address
  other than NULL, so each method is also a proof that NULL is not dereferenced,
  and each loop ends because its distance to the top shrinks. Str_Char_Last is
  the exception: of a string that runs to the top it reads the octet at NULL, and
  its contract says what comes of that. Whether CPU_CHAR is signed is a parameter.

## Reading the source

- CPU_ADDR, CPU_SIZE_T, CPU_ALIGN and pointers are taken to be 32 bits wide and
  CPU_CHAR 8; `cpu.h`, which defines them, is not part of this model.
- The pool functions and the argument checks are modelled as enabled, although
  both are off by default (`USER/uC-LIB/lib_mem.h:128-147`). Mem_Copy is the C
  body; `USER/ucCos_App/app_cfg.h:91` selects an assembly version in this build.
- The comments at `USER/uC-LIB/lib_mem.c:935` and `:945` are exchanged: the
  first branch enters a pool in a segment that exists, the second adds a segment.
- `USER/uC-LIB/lib_str.c:829-870` bounds the search of Str_Char_N by `len_max`
  characters; the code also looks at the character behind them. The model
  follows the code.
- Str_Cmp_N can report a difference behind its bound when the n-th character
  lies in the last octet of memory. The model follows the code.
- Errors and required octets, which the source stores through pointers, are
  results. MEM_POOL records are objects and take up no octets of the memory.
- `Creatable` names what Mem_PoolCreate needs of its caller for the invariant: a
  record that is not linked, and limits on a request that passes the checks.
  What is lost without each of these limits:
  - at most 65535 blocks, as BlkIx is 16 bits wide (`PoolLimits.FreshPoolRefusesIff`,
    `PoolShortfalls.FreshPoolAccepts`);
  - fewer than 2^30, so that the pointer table has a 32-bit size
    (`PoolCarving.TableSizeExactIff`, `PoolLimits.TableVanishes`);
  - an exact size below 2^32 for all that the call allocates
    (`Segments.PredictorExactIff`, `PoolErrors.FailureAtomicIff`, `PoolLimits.TableAtNullIff`,
    `PoolErrors.HeapShortfallIff`, `PoolErrors.BlocksShortfallIff`);
  - the heap asked for by a NULL base and not by its own base and size
    (`PoolLimits.HeapByAddressIff`, `PoolErrors.FailureAtomicIff`,
    `PoolErrors.HeapByAddressShortfallIff`);
  - a dedicated segment that does not run past the top of memory
    (`PoolSearch.WrappedOverlapIff`);
  - an alignment under which padding can be told from blocks
    (`BlockCheck.CheckExactIff`, `PoolSafety.FreeExactIff`), any that divides 2^32;
  - a block that together with its alignment is at most 2^32 octets
    (`BlockCheck.StrideVanishesIff`).

## Model

| member | source | states |
|---|---|---|
| `Machine.GetAfterSet32` | USER/uC-LIB/lib_mem.h:507-541 | Decoding with MEM_VAL_GET_INT32U what MEM_VAL_SET_INT32U of the same order encoded gives the value back, at every address including one that wraps past the top |
| `Machine.SetOfGet32` | USER/uC-LIB/lib_mem.h:414-448 | Encoding the value just decoded from a place changes no octet of memory |
| `Machine.Set32Frame` | USER/uC-LIB/lib_mem.h:512-527 | A 32-bit encode changes no octet outside its four |
| `Machine.SameWord` | USER/uC-LIB/lib_mem.h:419-434 | Two words of either order are equal exactly when their four octets are |
| `Machine.Weights32` | USER/uC-LIB/lib_mem.h:414-448 | What each octet weighs in MEM_VAL_GET_INT32U: divided by 256^k and cut to 8 bits the little-endian value is octet k, and the big-endian value is octet 3 - k |
| `Machine.StoredOctets32` | USER/uC-LIB/lib_mem.h:507-541 | The octets that MEM_VAL_SET_INT32U of either order leaves are those digits of the value to the base 256 |
| `Machine.WordOrder` | USER/uC-LIB/lib_mem.h:414-434 | Big-endian values are ordered as their octet sequences are lexicographically from the lowest address up, little-endian ones from the highest address down |
| `MemVal.Codec16` | USER/uC-LIB/lib_mem.h:416-430 | Both round trips of the 16-bit macros, in both orders, at every address |
| `MemVal.Weights16` | USER/uC-LIB/lib_mem.h:416-430 | What each octet weighs in MEM_VAL_GET_INT16U of either order |
| `MemVal.StoredOctets16` | USER/uC-LIB/lib_mem.h:509-523 | The octets that MEM_VAL_SET_INT16U of either order leaves |
| `MemVal.HalfOrder` | USER/uC-LIB/lib_mem.h:416-430 | 16-bit values are ordered as their octet sequences are, from the end that the order names |
| `MemVal.ValSet16` | USER/uC-LIB/lib_mem.h:509-523 | After MEM_VAL_SET_INT16U of either order each of the two octets is the digit of the value to the base 256 that the order puts there, decoding in that order gives the value, and no other octet has changed |
| `MemVal.ValSet32` | USER/uC-LIB/lib_mem.h:512-527 | The same for MEM_VAL_SET_INT32U and its four octets |
| `MemVal.ValCopyGet16` | USER/uC-LIB/lib_mem.h:605-668 | For any pair of addresses: each octet of the copy is the source octet that the two orders ask for, as it was, or as already overwritten where it lies among the octets stored before; no other octet changes; at a safe distance a native read of the copy is GET of the source |
| `MemVal.ValCopyGet32` | USER/uC-LIB/lib_mem.h:605-668 | The same for the four octets of MEM_VAL_COPY_GET_INT32U |
| `MemVal.CopyDecodesIffSafe32` | USER/uC-LIB/lib_mem.h:605-668 | COPY_GET followed by a native read is GET, for every memory, if and only if the distance of the two addresses is one of those the condition names: the macros promise any address to any address and overlaps break that |
| `MemVal.CopyDecodesIffSafe16` | USER/uC-LIB/lib_mem.h:605-668 | The same for 16 bits: only a distance of 1 (equal orders) or 0 (opposite orders) breaks it |
| `MemVal.CopyGet32Octets` | USER/uC-LIB/lib_mem.h:605-668 | Between words that share no octet the copy moves each octet to the place the order asks for and changes nothing else |
| `MemVal.CopySetUndoesCopyGet32` | USER/uC-LIB/lib_mem.h:720-740 | COPY_SET puts back every octet of a field that COPY_GET read out, whatever was written to the field in between, and leaves the rest of memory alone |
| `MemVal.CopySetUndoesCopyGet16` | USER/uC-LIB/lib_mem.h:720-740 | The same for 16-bit fields |
| `MemOps.MemSet` | USER/uC-LIB/lib_mem.c:253-304 | Exactly the octets in [pmem, pmem+size) become the value and no other octet changes, for every alignment, size and wrap of the range; every store is inside the buffer, every word store at a multiple of 4; a NULL buffer changes nothing |
| `MemOps.MemClr` | USER/uC-LIB/lib_mem.c:209-215 | The same with the value 0 |
| `MemOps.MemCopy` | USER/uC-LIB/lib_mem.c:347-410 | Memory ends up as after the plain loop that copies one octet at a time from the lowest address, for every pair of addresses and every size, overlapping buffers included; loads are inside the source buffer and stores inside the destination, word accesses aligned |
| `MemOps.AlignedWordMove` | USER/uC-LIB/lib_mem.c:389-398 | Why the word loop may stand for four octet steps: two aligned words are the same word or share no octet |
| `MemOps.CopyForwardRepeats` | USER/uC-LIB/lib_mem.c:347-410 | A closed form for what the forward copy leaves at every address: an overlapping destination repeats the first octets of the source with the distance as its period |
| `MemOps.CopyDeliversIff` | USER/uC-LIB/lib_mem.c:347-410 | The destination receives the original source octets, in every memory, if and only if it does not start strictly inside the source |
| `MemOps.MemCmp` | USER/uC-LIB/lib_mem.c:457-542 | Returns yes if and only if the size is 0, or neither buffer is NULL and all octets agree, although it scans from the end in octets, words and octets |
| `MemOps.CompareWord` | USER/uC-LIB/lib_mem.c:518-527 | A word step of the comparison loads one word of each buffer, aligned and wholly inside that buffer (LoadWord demands both), and finds them equal if and only if their eight octets agree in pairs |
| `MemOps.CompareOctet` | USER/uC-LIB/lib_mem.c:497-539 | An octet step loads one octet of each buffer, inside it |
| `Segments.SegAllocSound` | USER/uC-LIB/lib_mem.c:1394-1440 | One allocation either takes its alignment gap and its octets off the front of the segment, and accounts for them, or fails and changes nothing |
| `Segments.CalcTotSizeWraps` | USER/uC-LIB/lib_mem.c:1264-1292 | The 32-bit prediction is the exact size of the request modulo 2^32, whatever wraps on the way |
| `Segments.RunFits` | USER/uC-LIB/lib_mem.c:916-930 | When the exact size fits, the allocation loop gives every block, one stride apart from the first aligned address, and consumes exactly the predicted octets |
| `Segments.RunSucceedsIff` | USER/uC-LIB/lib_mem.c:916-930 | The loop gives n aligned blocks, disjoint and inside the segment, if and only if the exact size is at most the remaining octets |
| `Segments.PredictorExactIff` | USER/uC-LIB/lib_mem.c:1264-1292 | "The loop succeeds iff the prediction is at most SegSizeRem" holds if and only if the exact size has a 32-bit value or its 32-bit remainder is too large as well |
| `Segments.PredictorWraps` | USER/uC-LIB/lib_mem.c:1264-1292 | The input that makes the condition necessary: two blocks of half the address space are predicted as 0 octets, and the loop places none |
| `Segments.ShortfallIsLeast` | USER/uC-LIB/lib_mem.c:883-911 | Extending a segment by some octets makes its loop succeed if and only if they are at least the exact size less what remains |
| `Segments.RunKeepsSegment` | USER/uC-LIB/lib_mem.c:1394-1440 | Whether or not the loop gets to its end, what it carved is aligned, disjoint and in the part newly consumed, the front of the segment has not moved back, and carved plus remaining octets are still the whole; segments may end at the top of the address space, where the next address wraps to 0 |
| `BlockCheck.ValidFromFirst` | USER/uC-LIB/lib_mem.c:1321-1368 | From the first aligned address on, Mem_PoolBlkIsValidAddr accepts the block addresses and nothing else |
| `BlockCheck.ValidInPadding` | USER/uC-LIB/lib_mem.c:1350-1365 | In the leading padding, where the unsigned difference wraps, it accepts exactly the octet that lies (2^32 mod stride) in front of the first block |
| `BlockCheck.CheckExactIff` | USER/uC-LIB/lib_mem.c:1321-1368 | It accepts exactly the addresses the pool was carved into, for all 2^32 addresses, if and only if that octet is not in the padding |
| `BlockCheck.DividingAlignRejects` | USER/uC-LIB/lib_mem.c:1337-1365 | Every alignment that divides 2^32 meets this condition |
| `BlockCheck.PaddingAccepted` | USER/uC-LIB/lib_mem.c:1337-1365 | An alignment of 3 does not: a padding octet is accepted as a block |
| `BlockCheck.StrideVanishesIff` | USER/uC-LIB/lib_mem.c:1353-1365 | The check divides by 0 if and only if a block and its padding fill the whole address space |
| `PoolSearch.SearchFrom` | USER/uC-LIB/lib_mem.c:830-866 | On an ascending table without overlaps, for a range up to the top of memory, the search stops with a segment that is identical to the range, or at the place where the range fits between its neighbours, or because the range meets a segment and is none |
| `PoolSearch.OverlapIff` | USER/uC-LIB/lib_mem.c:830-866 | For a range up to the top of memory an overlap is reported if and only if the range has an octet in common with some segment and is identical to none |
| `PoolSearch.WrappedSearch` | USER/uC-LIB/lib_mem.c:830-866 | For a range that runs past the top, one is reported if and only if its last octet, which has wrapped, lies in a segment |
| `PoolSearch.WrappedOverlapIff` | USER/uC-LIB/lib_mem.c:830-866 | So for such a range the report is right if and only if it meets no segment or one that holds its last octet |
| `PoolSearch.WrappedRangeSlips` | USER/uC-LIB/lib_mem.c:830-866 | A range of all octets but one passes as free of the only segment |
| `PoolMemory.StoreTableReads` | USER/uC-LIB/lib_mem.c:916-930 | The words the loop stores in the pointer table read back in order, and no octet outside the table changes |
| `PoolMemory.PushExtendsStack` | USER/uC-LIB/lib_mem.c:1149-1150 | The store of Mem_PoolBlkFree appends one entry to the free stack and touches no octet outside the table |
| `PoolMemory.PopShortensStack` | USER/uC-LIB/lib_mem.c:1046-1058 | What Mem_PoolBlkGet hands out is the last entry of the free stack |
| `PoolLinks.ShareKeepsLinked` | USER/uC-LIB/lib_mem.c:935-943 | Entering a record behind the head of a column keeps the two-dimensional list well formed: no record twice, each pool in the column of its own segment |
| `PoolLinks.InsertKeepsLinked` | USER/uC-LIB/lib_mem.c:945-959 | So does inserting a record as a new head |
| `PoolCarving.CarvesAsPlanned` | USER/uC-LIB/lib_mem.c:916-930 | Once the size checks have passed, table and blocks are carved exactly where and as large as the checks assumed, so the NULL branch inside the loop is not reached |
| `PoolCarving.TableSizeExactIff` | USER/uC-LIB/lib_mem.c:798-808 | The size predicted for a pointer table is its size if and only if it has fewer than 2^30 entries |
| `PoolSafety.GetSucceedsIff` | USER/uC-LIB/lib_mem.c:1013-1061 | For every record: Mem_PoolBlkGet succeeds if and only if the record is a pool of the table, the size is at most BlkSize and some block of the pool is not handed out, and reports INVALID_POOL if and only if it is no such pool; on success it returns a block of the pool that nobody holds, on an error it changes nothing and returns NULL |
| `PoolSafety.FreeSucceedsIff` | USER/uC-LIB/lib_mem.c:1096-1155 | For every record and every address, Mem_PoolBlkFree succeeds if and only if the record is a pool of the table and the address one of its blocks that is handed out at the moment (NULL, foreign, misaligned and doubly freed addresses are all refused), and on an error changes nothing |
| `PoolSafety.FreeExactIff` | USER/uC-LIB/lib_mem.c:1130-1150 | For a pool with a block out: Mem_PoolBlkFree takes, of all addresses but NULL, exactly the blocks that are out, if and only if the address check turns padding away |
| `PoolSafety.GetKeepsInv` | USER/uC-LIB/lib_mem.c:1013-1061 | Mem_PoolBlkGet, called with anything, keeps the invariant of the whole table: segments ascending and disjoint, regions of all pools disjoint, and every free stack duplicate-free and a partition of the blocks together with those handed out |
| `PoolSafety.FreeKeepsInv` | USER/uC-LIB/lib_mem.c:1096-1155 | So does Mem_PoolBlkFree, called with anything |
| `PoolCreation.CreateKeepsInv` | USER/uC-LIB/lib_mem.c:692-977 | So does Mem_PoolCreate with a fresh record and a request that the checks refuse, whatever it asks for, or that is within the limits |
| `PoolCreation.ErrorsAreAtomic` | USER/uC-LIB/lib_mem.c:725-928 | Unless sizes wrap (SizesOk), a call either leaves the entire state as it was and reports an error, or goes through; it never stops half-way |
| `PoolCreation.SuccessIsCreated` | USER/uC-LIB/lib_mem.c:916-971 | When the checks pass, the call succeeds and its state is the one with the carved segments, the filled table and the linked record |
| `PoolCreation.CreatedAsAsked` | USER/uC-LIB/lib_mem.c:797-971 | Whatever wraps, success adds one pool and leaves the others: it has the block size, number and alignment asked for, with the number cut to 16 bits as its index, and lies in the heap, or in the segment that has the base and size asked for |
| `PoolCreation.NoAlignIsOne` | USER/uC-LIB/lib_mem.c:775-777 | A request with an alignment of 0 ends in every respect as the one with 1 |
| `PoolRuns.InitialInv` | USER/uC-LIB/lib_mem.c:157-183 | Mem_Init establishes the invariant for any heap of real memory |
| `PoolRuns.RunKeepsInv` | USER/uC-LIB/lib_mem.c:157-1155 | Every run keeps it in which records are created once, with requests that are refused or within the limits, get and free are called with anything, and clients store anywhere but in pointer tables |
| `PoolRuns.OutstandingBlockSound` | USER/uC-LIB/lib_mem.c:922-971 | In every such state an outstanding block is aligned as requested, lies in the carved part of its segment and has no octet in common with any pointer table |
| `PoolRuns.OutstandingBlocksApart` | USER/uC-LIB/lib_mem.c:922-971 | ... and two outstanding blocks, of one pool or of two, share no octet |
| `PoolRuns.NoTwoClientsShareMemory` | USER/uC-LIB/lib_mem.c:157-1155 | From Mem_Init on, after any sequence of calls, an octet that lies in two outstanding blocks forces them to be the same block of the same pool |
| `PoolRuns.OnlyTheHolderWrites` | USER/uC-LIB/lib_mem.c:157-1155 | An octet of a block that is out changes only when the holder of that block writes it: no call changes it, nor any store of a client to a block of its own or to memory that is in no block and no table |
| `PoolRuns.BlocksConserved` | USER/uC-LIB/lib_mem.c:1046-1154 | Blocks handed out plus BlkIx is BlkNbr in every reachable state |
| `PoolRuns.GetErrorIs` | USER/uC-LIB/lib_mem.c:1023-1060 | In every reachable state, for every record, the error of Mem_PoolBlkGet says whether the record is no pool, or the size too large, or all blocks are out; an index beyond the number of blocks is never reported |
| `PoolRuns.FreeErrorIs` | USER/uC-LIB/lib_mem.c:1109-1154 | In every reachable state, for every record and address, that of Mem_PoolBlkFree says whether the address is NULL, or the record no pool, or nothing is out, or this address is not |
| `PoolRuns.FreeUndoesGet` | USER/uC-LIB/lib_mem.c:1046-1154 | A block given back at once restores the whole state, the octets of the pointer table included |
| `PoolRuns.GetUndoesFree` | USER/uC-LIB/lib_mem.c:1046-1154 | A block just given back is the next one handed out, and then the segments and all indices are as before |
| `PoolRuns.SegmentsOnlyAdvance` | USER/uC-LIB/lib_mem.c:1424-1435 | Over every run a segment keeps base and size, its carved part never shrinks, and carved plus remaining octets stay SegSizeTot; SegAddrNextAvail is the end of the carved part, which is 0 when that is the top of memory |
| `PoolErrors.CreateSucceedsIff` | USER/uC-LIB/lib_mem.c:692-977 | Unless sizes wrap, Mem_PoolCreate succeeds if and only if the arguments are good, the range clashes with no segment, and the allocation of the table and of every block can be met |
| `PoolErrors.CreateErrorIs` | USER/uC-LIB/lib_mem.c:725-928 | Unless sizes wrap, each error is reported if and only if its cause is there and none of those before it: a segment size of 0 with a base, no blocks, blocks of no octets, an overlap, a heap that cannot hold the table (and blocks), a segment that cannot hold the blocks |
| `PoolErrors.ArgumentErrors` | USER/uC-LIB/lib_mem.c:725-783 | For every table, the empty one included, and every request whether sizes wrap or not: INVALID_SEG_SIZE, INVALID_BLK_NBR, INVALID_BLK_SIZE and HEAP_NOT_FOUND are each reported if and only if their own argument is bad and those checked before it are good; they change nothing; only HEAP_EMPTY and SEG_EMPTY give a number of octets |
| `PoolErrors.AbandonedIs` | USER/uC-LIB/lib_mem.c:916-930 | A call that fails with the state changed reports SEG_EMPTY and no octets |
| `PoolErrors.HeapShortfallIff` | USER/uC-LIB/lib_mem.c:811-822 | When Mem_PoolCreate returns HEAP_EMPTY for a pool on the heap: among all extensions of the heap those that can give the table and all blocks are those by the octets returned or more, if and only if there are fewer than 2^30 blocks and the exact size has a 32-bit value, or no extension by so many octets fits below the top of memory |
| `PoolErrors.TableShortfallIff` | USER/uC-LIB/lib_mem.c:883-893 | When it returns HEAP_EMPTY for dedicated memory: the same for the table alone, if and only if there are fewer than 2^30 blocks or no such extension fits |
| `PoolErrors.BlocksShortfallIff` | USER/uC-LIB/lib_mem.c:895-911 | When it returns SEG_EMPTY with a number of octets, for any segment but the heap: the same for the blocks, if and only if their exact size has a 32-bit value or no such extension fits |
| `PoolErrors.HeapByAddressShortfallIff` | USER/uC-LIB/lib_mem.c:876-930 | For the heap asked for by its own base and size, whose table and blocks come from the same segment: HEAP_EMPTY counts the table alone and SEG_EMPTY the blocks alone, so that the octets are the least for both if and only if it is SEG_EMPTY for fewer than 2^30 blocks of a 32-bit size whose first aligned address lies behind the table anyway, or no such extension fits |
| `PoolShortfalls.HeapNumberTooSmall` | USER/uC-LIB/lib_mem.c:811-822 | A family of requests with sizes that wrap for which the octets of HEAP_EMPTY are too few |
| `PoolShortfalls.HeapNumberHappens` | USER/uC-LIB/lib_mem.c:811-822 | ... and one of them |
| `PoolShortfalls.BlocksNumberTooSmall` | USER/uC-LIB/lib_mem.c:895-911 | The same for SEG_EMPTY |
| `PoolShortfalls.BlocksNumberHappens` | USER/uC-LIB/lib_mem.c:895-911 | ... and one of them |
| `PoolShortfalls.ByAddressNumberTooSmall` | USER/uC-LIB/lib_mem.c:895-930 | The heap asked for by its own base and size: with the four octets reported the block would fit, but not the table too, and no size wraps |
| `PoolShortfalls.ByAddressNumberHappens` | USER/uC-LIB/lib_mem.c:895-930 | ... on a heap of 256 octets |
| `PoolErrors.FailureAtomicIff` | USER/uC-LIB/lib_mem.c:725-928 | Mem_PoolCreate fails and leaves the state changed if and only if the request leaks: it passes the checks, and then blocks from the heap do not fit behind the table (or, if the table took nothing, at all), or blocks from another segment have a size beyond 32 bits and either the table took octets or the blocks left a trace |
| `PoolErrors.HeapPlanWraps` | USER/uC-LIB/lib_mem.c:797-822 | For a pool on the heap by a NULL base that passed the check with room for the table, the blocks do not fit behind it if and only if the exact size of both has no 32-bit value |
| `PoolErrors.FullRunFits` | USER/uC-LIB/lib_mem.c:922-928 | The loop runs to its end if and only if the exact size fits, so its NULL branch means exactly that it did not |
| `PoolLimits.RunsExist` | USER/uC-LIB/lib_mem.c:157-1061 | The statements about runs are not vacuous: from Mem_Init on, a pool is created on the heap and its block handed out |
| `PoolLimits.LeakHappens` | USER/uC-LIB/lib_mem.c:916-928 | A request that fails half-way: the call returns SEG_EMPTY and the heap has lost the table |
| `PoolLimits.HalvesLeak` | USER/uC-LIB/lib_mem.c:895-928 | ... and so does any request for two blocks of half the address space in a new segment |
| `PoolLimits.IndexHoldsAllIff` | USER/uC-LIB/lib_mem.c:963-971 | A new pool offers all its blocks if and only if their number fits the 16-bit BlkIx |
| `PoolLimits.FreshPoolRefusesIff` | USER/uC-LIB/lib_mem.c:963-971 | Mem_PoolBlkFree refuses every address of a pool that has just been created if and only if the number of its blocks fits the 16-bit BlkIx; beyond, it accepts a block that was never handed out |
| `PoolShortfalls.FreshPoolAccepts` | USER/uC-LIB/lib_mem.c:963-971 | Of 65537 blocks of one octet on a heap of 1 MiB, none handed out, Mem_PoolBlkFree takes one |
| `PoolLimits.TableWholeIff` | USER/uC-LIB/lib_mem.c:916-920 | The heap gives up as many octets as the pointer table has if and only if it has fewer than 2^30 entries |
| `PoolLimits.TableVanishes` | USER/uC-LIB/lib_mem.c:916-920 | A table of 2^30 entries gets no octets at all from a word-aligned heap |
| `PoolLimits.VanishedTablePasses` | USER/uC-LIB/lib_mem.c:797-822 | ... and the checks let such a request pass |
| `PoolLimits.TableAtNullIff` | USER/uC-LIB/lib_mem.c:797-822 | A created pool has its table at NULL if and only if the heap had no room for the table and the sum of the sizes wrapped |
| `PoolLimits.NullTableHappens` | USER/uC-LIB/lib_mem.c:797-822 | A request to which that happens |
| `PoolLimits.HeapByAddressIff` | USER/uC-LIB/lib_mem.c:834-841 | A dedicated segment that is the heap's own base and size is taken for the heap; the blocks then lie where the record says if and only if the table ends before the first aligned address |
| `PoolLimits.HeapByAddressBreaks` | USER/uC-LIB/lib_mem.c:834-911 | The smallest such call: it succeeds, and the address check refuses the only block of the pool |
| `PoolLimits.OneBlockLeaks` | USER/uC-LIB/lib_mem.c:834-928 | A heap asked for by its own base and size for one block that fits, though not beside the table: SEG_EMPTY with 0 octets required, and the heap has lost the table, with no size wrapping |
| `PoolLimits.HeapByAddressLeaks` | USER/uC-LIB/lib_mem.c:834-928 | The same on a heap of 256 octets |
| `PoolLib.SegAllocate` | USER/uC-LIB/lib_mem.c:1394-1440 | The record is updated as the segment algebra says, for all inputs |
| `PoolLib.CarveBlocks` | USER/uC-LIB/lib_mem.c:922-930 | The loop carves the blocks of the specification from the record and leaves the table of exactly these blocks in memory |
| `PoolLib.LinkBelow` | USER/uC-LIB/lib_mem.c:935-943 | The pointer assignments for a shared segment turn the doubly linked column into the one with the record second, and touch three records |
| `PoolLib.LinkBetween` | USER/uC-LIB/lib_mem.c:945-959 | Those for a new segment turn the doubly linked head list into the one with the record at its place |
| `PoolLib.MemLib.Init` | USER/uC-LIB/lib_mem.c:157-183 | The record of the heap becomes the only segment of the table, with all its octets remaining, and reads as a heap |
| `PoolLib.MemLib.FindSegment` | USER/uC-LIB/lib_mem.c:830-866 | Walking SegNextPtr ends, and at the verdict of the search on the abstract table, with the two neighbour pointers that belong to it |
| `PoolLib.MemLib.PlanAllocation` | USER/uC-LIB/lib_mem.c:725-912 | Checks, search and predictions reach the decision of the specification and report its octets |
| `PoolLib.MemLib.CarvePool` | USER/uC-LIB/lib_mem.c:916-930 | Table and blocks come from the segments that the decision names |
| `PoolLib.MemLib.PoolCreate` | USER/uC-LIB/lib_mem.c:692-977 | On records linked by pointers, for a record that is not linked and every numeric input, the new table, the error and the octets are those of the abstract call, and all links stay consistent; NULL and each bad argument have their own error; after success the record reads as a pool with what was asked for, after any error as no pool |
| `PoolLib.MemLib.ClearRecord` | USER/uC-LIB/lib_mem.c:731-750 | Clearing the record, which comes first, leaves the table consistent if and only if the record is neither one of its pools nor the heap |
| `PoolLib.MemLib.BlkGet` | USER/uC-LIB/lib_mem.c:1013-1061 | The same for Mem_PoolBlkGet: by what the record held before the call, NULL, a type other than pool, a size too large, an index of 0 and one past the number of blocks each have their own error, which returns NULL and changes nothing; otherwise the call succeeds |
| `PoolLib.MemLib.BlkFree` | USER/uC-LIB/lib_mem.c:1096-1155 | The same for Mem_PoolBlkFree: NULL_PTR if and only if the record or the address is NULL, else INVALID_POOL if and only if the type is another, else POOL_FULL if and only if the index has reached the number of blocks; an error changes nothing |
| `PoolLib.MemLib.OnFreeStack` | USER/uC-LIB/lib_mem.c:1140-1146 | The loop over the pointer table finds the address if and only if it is on the free stack |
| `PoolClient.Start` | USER/uC-LIB/lib_mem.c:157-183 | After Mem_Init the linked records are where every run begins |
| `PoolClient.Perform` | USER/uC-LIB/lib_mem.c:692-1155 | Every call on the linked records, made as a client may make it, is one step of a run, so that all statements about runs hold of them |
| `PoolClient.TableShape` | USER/uC-LIB/lib_mem.c:935-959 | In every state that calls have reached from Mem_Init, pointer by pointer: Mem_PoolTbl is the only record without predecessor and has the lowest base, neighbours point at each other, and every step along SegNextPtr goes up past the segment it leaves (hence no cycle) |
| `PoolClient.SegmentsApart` | USER/uC-LIB/lib_mem.c:830-874 | In every such state no two segments of the linked table share an octet, and SegAddrNextAvail is where the carved part of its segment ends |
| `Strings.StrLen` | USER/uC-LIB/lib_str.c:141-154 | The octets counted are not 0, and the next one is, or is past the top of memory; NULL counts as empty |
| `Strings.StrCopy` | USER/uC-LIB/lib_str.c:195-226 | Terminates without touching NULL for every memory; the new memory is that of the copy loop, a NULL argument changes nothing |
| `Strings.StrCopyN` | USER/uC-LIB/lib_str.c:274-315 | The same with the bound, and a bound of 0 changes nothing |
| `Strings.StrCat` | USER/uC-LIB/lib_str.c:359-398 | The same from the end of the destination string, unless that runs to the top |
| `Strings.StrCatN` | USER/uC-LIB/lib_str.c:449-498 | The same with the bound |
| `Strings.CopyExact` | USER/uC-LIB/lib_str.c:272-315 | Copying writes the first min(n, length) characters (as far as memory goes) and one NUL, and nothing else, and the destination then reads as that prefix of the source, when no character is written to where the loop still reads |
| `Strings.RunsOn` | USER/uC-LIB/lib_str.c:213-222 | A destination inside the source string makes the loop overwrite the NUL it waits for: it goes on with a repetition up to its bound or the top |
| `Strings.CopyDeliversIff` | USER/uC-LIB/lib_str.c:195-226 | With room for the string, Str_Copy delivers the source if and only if the destination starts neither inside it nor at its NUL, or the room ends at the very top and the string repeats at that distance |
| `Strings.CopyNDeliversIff` | USER/uC-LIB/lib_str.c:274-315 | With room for them, Str_Copy_N delivers the first characters if and only if the same holds, or its bound ends the loop and these characters repeat at the distance, as they do when the destination lies behind them |
| `Strings.CopyThenCompare` | USER/uC-LIB/lib_str.c:195-226 | After Str_Copy between separate buffers Str_Cmp of the two returns 0 |
| `Strings.CatKeepsPrefix` | USER/uC-LIB/lib_str.c:375-394 | Whatever overlaps, concatenation keeps the characters the destination had |
| `Strings.CatExact` | USER/uC-LIB/lib_str.c:449-498 | Str_Cat and Str_Cat_N yield the concatenation with the first min(n, length) characters, and write only these and one NUL |
| `Strings.CatDeliversIff` | USER/uC-LIB/lib_str.c:359-398 | With room for it, Str_Cat yields the concatenation if and only if the destination does not end inside the string appended (so not when a string is appended to itself), with the same exception at the top |
| `Strings.CatNDeliversIff` | USER/uC-LIB/lib_str.c:449-498 | The same for Str_Cat_N, from the end of the destination string |
| `Strings.StrCmp` | USER/uC-LIB/lib_str.c:561-617 | For every memory and both pointers, NULL included, the result is 0 for equal strings, and else the difference of the octets at the first position where the strings differ, with a virtual NUL past the end or the top of memory; in a build with signed characters octets count as the numbers in -128..127 that are congruent to them modulo 256 |
| `Strings.CmpValAt` | USER/uC-LIB/lib_str.c:561-617 | The same of the comparison value as a function of two strings: in unsigned builds it is negative if and only if the first string has the smaller octet where they first differ |
| `Strings.ComparesDecides` | USER/uC-LIB/lib_str.c:512-617 | Any two strings have exactly one value that is right in this sense |
| `Strings.CmpZeroIff` | USER/uC-LIB/lib_str.c:512-617 | It is 0 if and only if the strings are equal |
| `Strings.CmpAntisymmetric` | USER/uC-LIB/lib_str.c:512-617 | Exchanging the strings negates it |
| `Strings.CmpTransitive` | USER/uC-LIB/lib_str.c:512-617 | Its sign orders strings transitively; with the two lemmas above a total order |
| `Strings.CmpFits` | USER/uC-LIB/lib_str.c:561-617 | It always fits the 16 bits of the result |
| `Strings.StrCmpN` | USER/uC-LIB/lib_str.c:688-757 | The same of the characters within the bound, or of the whole strings when one has its n-th character in the last octet of memory |
| `Strings.CmpNBoundIff` | USER/uC-LIB/lib_str.c:688-757 | It is the comparison of the first n characters, if and only if no string has its n-th character in the last octet of memory, or the first n differ, or the strings are equal |
| `Strings.StrChar` | USER/uC-LIB/lib_str.c:797-823 | The first occurrence of the character in the string or its NUL, NULL if and only if there is none |
| `Strings.StrCharN` | USER/uC-LIB/lib_str.c:873-908 | The same for the first len_max + 1 octets: the last test reads index len_max |
| `Strings.CharNBoundIff` | USER/uC-LIB/lib_str.c:829-870 | That agrees with a search of len_max octets if and only if the character does not first occur at index len_max |
| `Strings.StrCharLast` | USER/uC-LIB/lib_str.c:949-975 | The last occurrence of the character in the string or its NUL, if and only if the string ends below the top, or the octet at NULL, which is read otherwise, is another one, or the string does not have the character; else NULL |
| `Strings.LineOfText` | USER/uC-LIB/lib_str.c:797-823 | The octets these searches look at are the characters of the string and its NUL, which is missing only at the top |
| `Strings.StrStr` | USER/uC-LIB/lib_str.c:1020-1066 | The smallest index at which the search string occurs, NULL if and only if there is none; an empty one gives the end of the string; a search string that runs to the top matches only at the end |
| `Strings.TopSearchIff` | USER/uC-LIB/lib_str.c:1020-1066 | In that last case the first occurrence is still found if and only if there is none or it ends the string |

## Left out

- Str_FmtNbr_32: floating-point formatting, compiled out by `USER/ucCos_App/app_cfg.h:92`.
- The assembly version of Mem_Copy: it is not part of this model.
- Critical sections and interrupts: each call is one atomic step.
- The 8-bit macros and MEM_VAL_COPY_xx: a single octet move, or the native copy again.
- Alignment of Mem_PoolSegAlloc's argument 0: its one caller passes at least 1.
- PoolLib.MemLib.PoolCreate: requires a record that is not linked, nor the heap; MemLib.ClearRecord says that clearing one of these breaks the table, and what the call then does to the broken lists is not modelled.
- PoolLib.MemLib.BlkGet: requires that a record whose type reads as a pool is one that the table links; one that was never created, and happens to read so, is not modelled.
- PoolLib.MemLib.BlkFree: requires the same, and that the address check, if it is reached, does not divide by 0; what the CPU would do is not part of this model.
- PoolSafety.FreeKeepsInv: holds for any client; that no client stores into a pointer table is an assumption of the runs.
- PoolRuns.OnlyTheHolderWrites: that a client does not store into a block that another one holds is an assumption of the runs, too.
- PoolCreation.CreateKeepsInv: says nothing of requests beyond the limits that pass the checks; PoolErrors, PoolLimits and PoolShortfalls say what then fails.
- PoolErrors.FailureAtomicIff: for a block that together with its alignment is at most 2^32 octets, and a dedicated segment that ends at the top of memory at the latest.
- PoolErrors.BlocksShortfallIff: for a dedicated segment that ends at the top of memory at the latest.
- PoolErrors.CreateSucceedsIff: for sizes that do not wrap (PoolCarving.SizesOk), as are PoolErrors.CreateErrorIs and PoolCreation.ErrorsAreAtomic; FailureAtomicIff goes beyond.
- PoolLimits.HeapByAddressIff: for a block that together with its alignment is at most 2^32 octets.
- Strings.StrStr: an empty search string in a string that runs to the top gives the address past the top, which is NULL.
- Device drivers, lwIP, uC/OS-II tasks and the web page: not part of uC/LIB.
