/** What the limits on a request are for: requests beyond them that
    Mem_PoolCreate accepts, or abandons half-way, and exactly what then fails;
    and a run of requests within them. */
module PoolLimits {
  import opened Machine
  import opened Segments
  import opened BlockCheck
  import opened PoolRecord
  import opened PoolTable
  import opened PoolSearch
  import opened PoolCarving
  import opened PoolSafety
  import opened PoolCreation
  import opened PoolErrors
  import opened PoolMemory
  import opened PoolRuns

  // ----------------------------------------------------- the 16-bit index

  /** A new pool offers all its blocks exactly when their number fits the index. */
  lemma IndexHoldsAllIff(st: State, k: MemPool, r: Req)
    requires Linked(st) && Create(st, k, r).1 == ErrNone
    ensures var next := Create(st, k, r).0;
            && k in next.pools && next.pools[k].blkNbr == r.nbr
            && (|FreeStack(next.cpu, next.mem, next.pools[k])| == r.nbr <==> r.nbr <= 0xFFFF)
  {
    hide Linked, Decide, Carve, AfterCarving, TableEntry;
  }

  lemma NewRecordIs(st: State, k: MemPool, r: Req)
    requires Carvable(st, k, r) && Decide(st, r).Go?
    ensures var plan, next := Decide(st, r), Create(st, k, r).0;
            var c := Carve(st, r, plan.place, plan.seg);
            && Create(st, k, r).1 == ErrNone
            && k in next.pools && next.pools[k] == NewPool(k, r, plan, c.table)
            && next.cpu == st.cpu && next.mem == StoreTable(st.cpu, st.mem, c.table, c.blocks)
  {
    ReadyToLink(st, k, r);
    SuccessIsCreated(st, k, r);
    hide Linked, SegsOk, SizesOk, Create, Decide, Carve, StoreTable, Ready, NewPool;
    var plan := Decide(st, r);
    CreatedPools(st, k, r, plan, Carve(st, r, plan.place, plan.seg));
    hide Created;
  }

  /** The body of the pool, and the first entries of its table, when a record is new. */
  lemma NewBody(st: State, k: MemPool, r: Req, plan: Plan, c: Carving, m: Mem)
    requires Ready(st, k, r, plan, c) && m == StoreTable(st.cpu, st.mem, c.table, c.blocks)
    ensures BodyOk(plan.start, r.nbr, r.size, AlignOf(r))
    ensures plan.total == TotSize(plan.start, r.nbr, r.size, AlignOf(r)) && plan.start + plan.total <= ADDR_SPACE
    ensures forall i :: 0 <= i < r.nbr ==>
              TableEntry(st.cpu, m, c.table, i) == BlockAt(plan.start, r.size, AlignOf(r), i)
  {
    hide CarvedAsPlanned, SegsOk, FitsAt, StoreTable, TableEntry, BlockAt, TotSize, AlignOf;
    CarvedFronts(st, k, r, plan, c);
    TableRoom(st, k, r, plan, c);
    StoreTableReads(st.cpu, st.mem, c.table, c.blocks);
  }

  /** Mem_PoolBlkFree refuses every address of a pool that has just been created exactly
      when the index can count its blocks. Beyond that the index is too low from the
      start, and a block that was never handed out, and is not on the stack, is taken. */
  lemma FreshPoolRefusesIff(st: State, k: MemPool, r: Req)
    requires Carvable(st, k, r) && Decide(st, r).Go?
    ensures var next := Create(st, k, r).0;
            && Create(st, k, r).1 == ErrNone && k in next.pools && (forall b: Word :: Checkable(next, k, b))
            && ((forall b: Word :: BlkFree(next, k, b).1 != ErrNone) <==> r.nbr <= 0xFFFF)
  {
    NewRecordIs(st, k, r);
    ReadyToLink(st, k, r);
    var plan, next := Decide(st, r), Create(st, k, r).0;
    var c := Carve(st, r, plan.place, plan.seg);
    NewBody(st, k, r, plan, c, next.mem);
    assert 1 <= r.nbr && r.size >= 1 && r.size + AlignOf(r) <= ADDR_SPACE;
    hide Carvable, Create, Decide, Carve, Ready, StoreTable, Linked, SegsOk, SizesOk;
    RefusesIff(next, k, r, plan, c.table);
  }

  lemma RefusesIff(st: State, k: MemPool, r: Req, plan: Plan, table: Word)
    requires plan.Go? && k in st.pools && st.pools[k] == NewPool(k, r, plan, table)
    requires BodyOk(plan.start, r.nbr, r.size, AlignOf(r))
    requires plan.total == TotSize(plan.start, r.nbr, r.size, AlignOf(r)) && plan.start + plan.total <= ADDR_SPACE
    requires forall i :: 0 <= i < r.nbr ==>
              TableEntry(st.cpu, st.mem, table, i) == BlockAt(plan.start, r.size, AlignOf(r), i)
    ensures forall b: Word :: Checkable(st, k, b)
    ensures (forall b: Word :: BlkFree(st, k, b).1 != ErrNone) <==> r.nbr <= 0xFFFF
  {
    StrideOf(plan.start, r.nbr, r.size, AlignOf(r));
    hide BodyOk, TotSize, BlockAt, TableEntry, Stride, CheckedStride, BlkFree, AlignOf, Checkable;
    NewPoolDivides(st, k, r, plan, table);
    if r.nbr <= 0xFFFF {
      FullRefuses(st, k, r, plan, table);
    } else {
      var b := TakenUnowned(st, k, r, plan, table);
    }
  }

  lemma StrideOf(start: Word, nbr: nat, size: Word, align: Word)
    requires BodyOk(start, nbr, size, align)
    ensures CheckedStride(size, align) != 0
  {
    hide TotSize, Stride;
    StrideBounds(size, align);
  }

  lemma NewPoolDivides(st: State, k: MemPool, r: Req, plan: Plan, table: Word)
    requires plan.Go? && k in st.pools && st.pools[k] == NewPool(k, r, plan, table)
    requires CheckedStride(r.size, AlignOf(r)) != 0
    ensures forall b: Word :: Checkable(st, k, b)
  {
    hide AlignOf, CheckedStride, Wrap;
  }

  lemma FullRefuses(st: State, k: MemPool, r: Req, plan: Plan, table: Word)
    requires plan.Go? && k in st.pools && st.pools[k] == NewPool(k, r, plan, table) && r.nbr <= 0xFFFF
    requires forall b: Word :: Checkable(st, k, b)
    ensures forall b: Word :: BlkFree(st, k, b).1 != ErrNone
  {
    hide AlignOf, CheckedStride, Wrap, IsValidAddr, FreeStack, Set32, Checkable;
  }

  lemma AcceptedInPool(p: Pool, i: nat, b: Word)
    requires BodyOk(p.start, p.blkNbr, p.blkSize, p.align) && i < p.blkNbr
    requires p.end == p.start + TotSize(p.start, p.blkNbr, p.blkSize, p.align) - 1
    requires b == BlockAt(p.start, p.blkSize, p.align, i)
    ensures CheckedStride(p.blkSize, p.align) != 0 && b != NULL
    ensures IsValidAddr(p.start, p.end, p.blkSize, p.align, b)
  {
    hide TotSize, IsValidAddr, Stride, BlockAt;
    assert 1 <= p.start && p.blkSize >= 1;
    StrideBounds(p.blkSize, p.align);
    BlockIsAccepted(p.start, p.blkNbr, p.blkSize, p.align, i, b);
    BlockPositive(p.start, p.blkSize, p.align, i);
  }

  /** The block in front of which the index stands is no entry below it. */
  lemma TakenUnowned(st: State, k: MemPool, r: Req, plan: Plan, table: Word) returns (b: Word)
    requires plan.Go? && k in st.pools && st.pools[k] == NewPool(k, r, plan, table)
    requires BodyOk(plan.start, r.nbr, r.size, AlignOf(r)) && r.nbr > 0xFFFF
    requires plan.total == TotSize(plan.start, r.nbr, r.size, AlignOf(r)) && plan.start + plan.total <= ADDR_SPACE
    requires forall i :: 0 <= i < r.nbr ==>
              TableEntry(st.cpu, st.mem, table, i) == BlockAt(plan.start, r.size, AlignOf(r), i)
    ensures Checkable(st, k, b) && BlkFree(st, k, b).1 == ErrNone
  {
    var pool, align := st.pools[k], AlignOf(r);
    var ix := pool.blkIx;
    assert 1 <= plan.start && r.size >= 1;
    hide TotSize, TableEntry, IsValidAddr, Set32, Stride, AlignOf, BodyOk, BlockAt, Wrap;
    TotalSmall(plan.start, r.nbr, r.size, align);
    WrapSmall(plan.start + plan.total - 1);
    StrideBounds(r.size, align);
    b := TableEntry(st.cpu, st.mem, table, ix);
    AcceptedInPool(pool, ix, b);
    forall i | 0 <= i < ix
      ensures TableEntry(st.cpu, st.mem, table, i) != b
    {
      BlocksApart(plan.start, r.size, align, i, ix);
    }
    NotStacked(st, pool, b);
  }

  lemma NotStacked(st: State, pool: Pool, b: Word)
    requires forall i :: 0 <= i < pool.blkIx ==> TableEntry(st.cpu, st.mem, pool.ptrs, i) != b
    ensures b !in FreeStack(st.cpu, st.mem, pool)
  {
    hide TableEntry;
  }

  // ------------------------------------------------------ the size of the table

  /** The heap gives up as many octets as the table has exactly below 2^30 entries. */
  lemma TableWholeIff(st: State, r: Req)
    requires st.heap in st.segs && SegOk(st.segs[st.heap]) && r.nbr >= 1
    requires AllocTable(st, r).1 != NULL
    ensures var heap := st.segs[st.heap];
            Front(AllocTable(st, r).0) == Front(heap) + AlignGap(heap.next, 4) + 4 * r.nbr <==> r.nbr < 0x4000_0000
  {
    hide AlignGap, SegOk, Wrap;
    var heap := st.segs[st.heap];
    TableTot(heap.next, r.nbr);
  }

  lemma TableTot(next: Word, nbr: Word)
    requires nbr >= 1
    ensures Wrap(AlignGap(next, 4) + Wrap(4 * nbr)) == AlignGap(next, 4) + 4 * nbr <==> nbr < 0x4000_0000
  {
    hide CalcTotSize, AlignGap, Wrap;
    TableSizeExactIff(next, nbr);
  }

  /** A table of 2^30 entries gets no octets at all from a word-aligned heap. */
  lemma TableVanishes(st: State, r: Req, next: Word)
    requires st.heap in st.segs && r.nbr == 0x4000_0000
    requires next == st.segs[st.heap].next && AlignGap(next, 4) == 0
    ensures TableSize(st, r) == 0 && AllocTable(st, r) == (st.segs[st.heap], next)
  {
    hide CalcTotSize, AlignGap, Wrap, SegAlloc;
    FourTimes(r.nbr);
    TableSizeExactIff(next, r.nbr);
    WrapSmall(0);
    NothingAllocated(st.segs[st.heap], Wrap(4 * r.nbr), 4);
  }

  lemma FourTimes(n: Word)
    requires n == 0x4000_0000
    ensures Wrap(4 * n) == 0
  {
  }

  lemma NothingAllocated(s: Seg, size: Word, align: Word)
    requires align >= 1 && AlignGap(s.next, align) == 0 && size == 0
    ensures SegAlloc(s, size, align) == (s, s.next)
  {
    hide AlignGap, Wrap;
    WrapSmall(0);
    WrapSmall(s.next);
  }

  /** The checks let such a request pass when its blocks, too, have a size that wraps to 0. */
  lemma VanishedTablePasses(st: State, r: Req, next: Word)
    requires Linked(st) && st.heads != [] && st.heap in st.segs
    requires r.base == NULL && r.nbr == 0x4000_0000 && r.size == r.align == 4
    requires next == st.segs[st.heap].next && AlignGap(next, 4) == 0
    ensures Decide(st, r).Go? && AllocTable(st, r) == (st.segs[st.heap], next)
  {
    hide Linked, Decide, TableSize, PlanOnHeap, TotSize, AllocTable, Wrap, AlignOf, AlignGap;
    TableVanishes(st, r, next);
    NullDecides(st, r);
    AlignGiven(r);
    WrapSmall(next);
    TotalOfWords(next, r.nbr, r.size);
    HeapCheck(st, r, next, TotSize(next, r.nbr, r.size, r.size));
  }

  lemma AlignGiven(r: Req)
    requires r.align >= 1
    ensures AlignOf(r) == r.align
  {
  }

  lemma TotalOfWords(start: Word, nbr: Word, word: Word)
    requires word == 4 && nbr == 0x4000_0000 && AlignGap(start, word) == 0
    ensures TotSize(start, nbr, word, word) == ADDR_SPACE && Wrap(TotSize(start, nbr, word, word)) == 0
  {
    hide Stride, AlignGap;
    TableStride();
  }

  /** A new pool has its table at NULL exactly when the heap had no room for the table,
      and the call went on because the sum of the sizes had wrapped. */
  lemma TableAtNullIff(st: State, k: MemPool, r: Req)
    requires TableOk(st) && r.nbr < 0x4000_0000 && Create(st, k, r).1 == ErrNone
    ensures st.heap in st.segs && k in Create(st, k, r).0.pools
    ensures Create(st, k, r).0.pools[k].ptrs == NULL <==> TableSize(st, r) > st.segs[st.heap].rem
  {
    hide TableOk, Linked, SegsOk, SegOk, TableSize, AllocTable;
    HeapOk(st);
    CreatedTable(st, k, r);
    FrontIsNext(st.segs[st.heap]);
    if TableSize(st, r) > st.segs[st.heap].rem {
      TableRefused(st, r);
    } else {
      TableCarved(st, r);
      TableTaken(st, r);
    }
  }

  lemma CreatedTable(st: State, k: MemPool, r: Req)
    requires TableOk(st) && Create(st, k, r).1 == ErrNone
    ensures st.heap in st.segs && r.nbr >= 1 && k in Create(st, k, r).0.pools
    ensures Create(st, k, r).0.pools[k].ptrs == AllocTable(st, r).1
  {
    hide Linked, SegsOk, Decide, AllocTable, AllocRun, AfterCarving;
    HeapOk(st);
  }

  /** Some 870 million blocks of one octet from a heap of 848 MiB: the table alone takes four
      times as much, yet the call succeeds, with the table at NULL. */
  lemma NullTableHappens(st: State, k: MemPool, r: Req, heap: Seg, one: Word)
    requires TableOk(st) && st.heap in st.segs && heap == st.segs[st.heap]
    requires AlignGap(heap.next, 4) == 0 && heap.rem == 0x3500_0000
    requires r.base == NULL && r.nbr == 0x3400_0000 && r.size == one == 1 && AlignOf(r) == one
    ensures Create(st, k, r).1 == ErrNone && k in Create(st, k, r).0.pools
    ensures Create(st, k, r).0.pools[k].ptrs == NULL
  {
    hide Linked, SegsOk, SegOk, CalcTotSize, TotSize, AlignGap;
    hide AllocTable, AllocRun, AlignOf, Wrap, Create, Decide, PlanOnHeap;
    HeapOk(st);
    TableSizeExact(heap.next, r.nbr);
    var start := Wrap(heap.next + TableSize(st, r));
    TotalOfOctets(start, r.nbr, one);
    TotalOfOctets(heap.next, r.nbr, one);
    HeapCheck(st, r, start, 5 * r.nbr);
    FiveTimes(r.nbr);
    NullDecides(st, r);
    NullMeansHeap(st, r);
    HeapCallEnds(st, k, r);
    TableRefused(st, r);
    FullRunFits(heap, r.nbr, r.size, one);
    GoEnds(st, k, r);
    CarvedOnHeap(st, r);
    TableAtNullIff(st, k, r);
  }

  lemma CarvedOnHeap(st: State, r: Req)
    requires TableOk(st) && Decide(st, r).Go? && Decide(st, r).place == Share(st.heap) && st.heap in st.segs
    ensures Carve(st, r, Decide(st, r).place, Decide(st, r).seg).blocks
            == AllocRun(AllocTable(st, r).0, r.nbr, r.size, AlignOf(r)).1
  {
    hide Linked, SegsOk, Decide, AllocTable, AllocRun, AlignOf;
  }

  lemma TotalOfOctets(addr: Word, n: Word, one: Word)
    requires n >= 1 && one == 1
    ensures TotSize(addr, n, one, one) == n
  {
    hide AlignGap;
    GapOfOne(addr, one);
    GapOfOne(one, one);
  }

  lemma GapOfOne(a: Word, one: Word)
    requires one == 1
    ensures AlignGap(a, one) == 0
  {
  }

  lemma FiveTimes(n: Word)
    requires n == 0x3400_0000
    ensures Wrap(5 * n) == 0x0400_0000
  {
  }

  // ------------------------------------------ the heap asked for by address

  /** A dedicated segment that is the heap's own base and size is taken for the
      heap, but the record is computed as if no table had been carved in front
      of the blocks. The blocks lie where the record says exactly when the table
      ends before the first aligned address. */
  lemma HeapByAddressIff(st: State, k: MemPool, r: Req)
    requires TableOk(st) && r.size + AlignOf(r) <= ADDR_SPACE
    requires Identical(r.base, r.memSize, st.segs[st.heap])
    requires Create(st, k, r).1 == ErrNone
    ensures Decide(st, r).Go? && Decide(st, r).place == Share(st.heap)
    ensures var plan, heap := Decide(st, r), st.segs[st.heap];
            var blocks := Carve(st, r, plan.place, plan.seg).blocks;
            && |blocks| == r.nbr && heap.next + TableSize(st, r) < ADDR_SPACE
            && ((forall i :: 0 <= i < r.nbr ==> blocks[i] == BlockAt(plan.start, r.size, AlignOf(r), i))
                <==> heap.next + AlignGap(heap.next, AlignOf(r))
                     == heap.next + TableSize(st, r) + AlignGap(heap.next + TableSize(st, r), AlignOf(r)))
  {
    hide Linked, SegsOk, SegOk, Search, Create, Decide, Carve, CalcTotSize, AllocRun, AlignGap, AllocTable;
    hide TableSize, AlignOf, BlockAt, Wrap;
    HeapOk(st);
    FrontIsNext(st.segs[st.heap]);
    IdenticalFound(st.heads, st.segs, r.base, r.memSize, st.heap);
    HeapByAddressGoes(st, k, r);
    HeapByAddressPlan(st, r);
    var plan, heap := Decide(st, r), st.segs[st.heap];
    TableTaken(st, r);
    BlocksBehindTable(AllocTable(st, r).0, heap, TableSize(st, r), r.nbr, r.size, AlignOf(r));
  }

  lemma HeapByAddressGoes(st: State, k: MemPool, r: Req)
    requires Linked(st) && st.heads != [] && Create(st, k, r).1 == ErrNone && r.base != NULL
    requires Search(st.heads, st.segs, r.base, r.memSize, 0) == Share(st.heap)
    ensures Decide(st, r).Go? && st.heap in st.segs
    ensures var plan := Decide(st, r);
            && plan.place == Share(st.heap) && plan.start == st.segs[st.heap].next
            && Carve(st, r, plan.place, plan.seg).blocks == AllocRun(AllocTable(st, r).0, r.nbr, r.size, AlignOf(r)).1
            && |Carve(st, r, plan.place, plan.seg).blocks| == r.nbr
  {
    hide Linked, Search, AfterCarving, Link, CalcTotSize, AllocRun, TableSize, AlignOf, AllocTable, NewPool;
    HeadsHaveSegments(st);
  }

  /** Blocks carved behind a table of `size` octets lie as without it exactly when the
      first one does. */
  lemma BlocksBehindTable(from: Seg, heap: Seg, size: Word, nbr: Word, blkSize: Word, align: Word)
    requires SegOk(heap) && Advanced(heap, from, size) && from.next == Wrap(heap.next + size)
    requires nbr >= 1 && blkSize >= 1 && align >= 1 && blkSize + align <= ADDR_SPACE
    requires |AllocRun(from, nbr, blkSize, align).1| == nbr
    ensures var blocks := AllocRun(from, nbr, blkSize, align).1;
            && heap.next + size < ADDR_SPACE
            && ((forall i :: 0 <= i < nbr ==> blocks[i] == BlockAt(heap.next, blkSize, align, i))
                <==> heap.next + AlignGap(heap.next, align) == heap.next + size + AlignGap(heap.next + size, align))
  {
    hide AllocRun, AlignGap, TotSize, SegOk, Advanced, Wrap, BlockAt;
    AdvancedIsOk(heap, from, size);
    FullRunFits(from, nbr, blkSize, align);
    TotalSmall(from.next, nbr, blkSize, align);
    NextBehind(heap, from, size);
    RunFits(from, nbr, blkSize, align);
    SameRow(AllocRun(from, nbr, blkSize, align).1, from.next, heap.next, blkSize, align);
  }

  lemma AdvancedIsOk(s: Seg, t: Seg, n: int)
    requires Advanced(s, t, n)
    ensures SegOk(t) && t.rem == s.rem - n
  {
    hide SegOk;
  }

  lemma NextBehind(s: Seg, t: Seg, n: Word)
    requires SegOk(s) && Advanced(s, t, n) && t.rem >= 1
    ensures t.next == s.next + n < ADDR_SPACE
  {
    hide SegOk, Wrap;
    FrontIsNext(s);
    FrontIsNext(t);
  }

  /** Blocks one stride apart lie as from another address exactly when the first one does. */
  lemma SameRow(blocks: seq<Word>, a: Word, b: Word, size: Word, align: Word)
    requires align >= 1 && |blocks| >= 1
    requires forall i :: 0 <= i < |blocks| ==> blocks[i] == BlockAt(a, size, align, i)
    ensures (forall i :: 0 <= i < |blocks| ==> blocks[i] == BlockAt(b, size, align, i))
            <==> a + AlignGap(a, align) == b + AlignGap(b, align)
  {
    hide AlignGap, Stride;
    assert blocks[0] == a + AlignGap(a, align);
  }

  /** The heap asked for by its address, for one block that it has room for but not
      beside the table: nothing wraps, the call returns SEG_EMPTY without saying how
      many octets are missing, and the heap has lost the table. */
  lemma OneBlockLeaks(st: State, k: MemPool, r: Req, heap: Seg, one: Word)
    requires TableOk(st)
    requires st.heap in st.segs && heap == st.segs[st.heap] && Identical(r.base, r.memSize, heap)
    requires r.nbr == 1 && one == 1 == AlignOf(r) && AlignGap(heap.next, 4) == 0
    requires 1 <= r.size <= heap.rem < r.size + 4 && heap.rem >= 4
    ensures Leaks(st, r)
    ensures Create(st, k, r).1 == ErrSegEmpty && Create(st, k, r).2 == 0 && Create(st, k, r).0 != st
  {
    HeapOk(st);
    IdenticalFound(st.heads, st.segs, r.base, r.memSize, st.heap);
    FrontIsNext(heap);
    hide TotSize, CalcTotSize, AlignGap, Wrap, AlignOf, Linked, SegsOk, Search;
    TableSizeExact(heap.next, r.nbr);
    OneBlock(heap.next, r.nbr, r.size, one);
    OneBlock(Wrap(heap.next + 4), r.nbr, r.size, one);
    assert TableSize(st, r) == 4;
    ByAddressDecides(st, r);
    hide Decide, Create, TableSize, SegOk;
    FailureAtomicIff(st, k, r);
    EndsSegEmpty(st, k, r);
  }

  lemma ByAddressDecides(st: State, r: Req)
    requires Linked(st) && st.heads != [] && Search(st.heads, st.segs, r.base, r.memSize, 0) == Share(st.heap)
    requires r.base != NULL && r.memSize >= 1 && r.nbr >= 1 && r.size >= 1
    ensures st.heap in st.segs && Decide(st, r) == PlanOnSegment(st, r, Share(st.heap), st.segs[st.heap])
  {
    hide Linked, Search, PlanOnSegment, PlanOnHeap;
    HeadsHaveSegments(st);
  }

  lemma OneBlock(addr: Word, n: Word, size: Word, one: Word)
    requires n == 1 && one == 1
    ensures TotSize(addr, n, size, one) == size == CalcTotSize(addr, n, size, one)
  {
    hide AlignGap, CalcTotSize, Wrap;
    GapOfOne(addr, one);
    GapOfOne(size, one);
    CalcTotSizeWraps(addr, n, size, one);
    WrapSmall(size);
  }

  /** A heap of 256 octets, and one block of that size. */
  lemma HeapByAddressLeaks(cpu: Endian, mem: Mem, heap: MemPool, k: MemPool)
    requires k != heap
    ensures var st := Initial(cpu, mem, heap, 0x2000_0000, 0x100);
            var r := Req(0x2000_0000, 0x100, 1, 0x100, 1);
            && Linked(st) && st.heads != [] && Leaks(st, r)
            && Create(st, k, r).1 == ErrSegEmpty && Create(st, k, r).2 == 0 && Create(st, k, r).0 != st
  {
    var st, next: Word := Initial(cpu, mem, heap, 0x2000_0000, 0x100), 0x2000_0000;
    var r := Req(0x2000_0000, 0x100, 1, 0x100, 1);
    assert AlignGap(next, 4) == 0 && AlignOf(r) == 1;
    InitialOk(cpu, mem, heap, 0x2000_0000, 0x100);
    hide Initial, Linked, SegsOk, AlignGap, AlignOf, Leaks, Create;
    OneBlockLeaks(st, k, r, st.segs[heap], 1);
  }

  lemma EndsSegEmpty(st: State, k: MemPool, r: Req)
    requires Linked(st) && Decide(st, r).Go? && Create(st, k, r).1 != ErrNone
    ensures Create(st, k, r).1 == ErrSegEmpty && Create(st, k, r).2 == 0
  {
    hide Linked, Decide, Carve, AfterCarving, Link;
  }

  /** A word-aligned segment gives a one-entry table and one word behind it. */
  lemma TwoWords(heap: Seg, n: Word, word: Word)
    requires SegOk(heap) && Multiple(heap.next, 4) && heap.rem >= 8 && n == 1 && word == 4
    ensures CalcTotSize(heap.next, n, word, word) == 4
    ensures SegAlloc(heap, word, word).1 == heap.next
    ensures AllocRun(SegAlloc(heap, word, word).0, n, word, word).1 == [heap.next + 4]
  {
    hide AlignGap, Multiple, SegAlloc, SegOk, AllocRun, CalcTotSize, Wrap;
    FrontIsNext(heap);
    NoGap(heap.next);
    TableSizeExact(heap.next, n);
    WordAllocated(heap, word);
    OneWordRun(SegAlloc(heap, word, word).0, n, word);
  }

  lemma WordAllocated(heap: Seg, word: Word)
    requires word >= 1 && heap.next + heap.rem <= ADDR_SPACE && heap.rem > word
    requires AlignGap(heap.next, word) == 0 && SegOk(heap)
    ensures SegOk(SegAlloc(heap, word, word).0)
    ensures SegAlloc(heap, word, word) == (Seg(heap.base, heap.tot, heap.next + word, heap.rem - word), heap.next)
  {
    hide AlignGap, SegAlloc, Wrap, SegOk;
    FrontIsNext(heap);
    SegAllocSound(heap, word, word);
    WrapSmall(heap.next + word);
  }

  lemma OneWordRun(rest: Seg, n: Word, word: Word)
    requires word >= 1 && SegOk(rest) && AlignGap(rest.next, word) == 0 && rest.rem >= word && n == 1
    ensures AllocRun(rest, n, word, word).1 == [rest.next]
  {
    hide AlignGap, SegAlloc, AllocRun, SegOk, TotSize, Stride;
    TotSizeStep(rest.next, n, word, word);
    RunFits(rest, n, word, word);
  }

  lemma NoGap(a: Word)
    requires Multiple(a, 4) && a + 4 < ADDR_SPACE
    ensures AlignGap(a, 4) == 0 && AlignGap(a + 4, 4) == 0
  {
  }

  lemma InitialOk(cpu: Endian, mem: Mem, heap: MemPool, base: Word, size: Word)
    requires base >= 1 && size >= 1 && base + size <= ADDR_SPACE
    ensures var st := Initial(cpu, mem, heap, base, size);
            && Linked(st) && st.heads == [heap] && SegsOk(st.heads, st.segs)
            && st.heap == heap && heap in st.segs && st.segs[heap] == Seg(base, size, base, size)
  {
    hide Linked, SegsOk, PoolsOk, Separate, Partitioned;
    InitialInv(cpu, mem, heap, base, size);
  }

  lemma WordByAddressDecided(st: State, r: Req)
    requires TableOk(st)
    requires r == Req(st.segs[st.heap].base, st.segs[st.heap].tot, 1, 4, 4)
    requires var heap := st.segs[st.heap]; SegOk(heap) && Multiple(heap.next, 4) && heap.rem >= 8
    ensures Decide(st, r) == Go(Share(st.heap), st.segs[st.heap], st.segs[st.heap].next, 4)
  {
    IdenticalFound(st.heads, st.segs, r.base, r.memSize, st.heap);
    TwoWords(st.segs[st.heap], r.nbr, r.size);
    hide Linked, Search, AllocRun, SegAlloc, CalcTotSize, Multiple, SegsOk;
    assert Decide(st, r) == PlanOnSegment(st, r, Share(st.heap), st.segs[st.heap]);
  }

  lemma WordByAddressCarved(st: State, r: Req)
    requires st.heap in st.segs && r.nbr == 1 && r.size == 4 && r.align == 4
    requires var heap := st.segs[st.heap]; SegOk(heap) && Multiple(heap.next, 4) && heap.rem >= 8
    ensures Carve(st, r, Share(st.heap), st.segs[st.heap]).blocks == [st.segs[st.heap].next + 4]
  {
    hide AllocRun, SegAlloc, CalcTotSize, Multiple, AlignGap;
    TwoWords(st.segs[st.heap], r.nbr, r.size);
    assert AllocTable(st, r) == SegAlloc(st.segs[st.heap], r.size, r.size);
  }

  lemma CarvedIsCreated(st: State, k: MemPool, r: Req)
    requires Linked(st) && Decide(st, r).Go?
    requires |Carve(st, r, Decide(st, r).place, Decide(st, r).seg).blocks| == r.nbr
    ensures Create(st, k, r).1 == ErrNone
  {
    hide Decide, Linked, AfterCarving, Link, Carve;
  }

  /** The smallest case: one block of 4 octets, asked for at the heap's address.
      The table takes the first word, so the block lies behind the recorded end,
      and the check that Mem_PoolBlkFree makes turns the pool's only block away. */
  lemma HeapByAddressBreaks(cpu: Endian, mem: Mem, heap: MemPool, k: MemPool)
    requires k != heap
    ensures var st := Initial(cpu, mem, heap, 0x2000_0000, 0x100);
            var r := Req(0x2000_0000, 0x100, 1, 4, 4);
            && Linked(st) && Decide(st, r) == Go(Share(heap), st.segs[heap], 0x2000_0000, 4)
            && Carve(st, r, Share(heap), st.segs[heap]).blocks == [0x2000_0004]
            && Create(st, k, r).1 == ErrNone
    ensures CheckedStride(4, 4) != 0 && !IsValidAddr(0x2000_0000, 0x2000_0003, 4, 4, 0x2000_0004)
  {
    hide Initial, Linked, Decide, Carve, Create, SegsOk, Stride;
    TableStride();
    InitialOk(cpu, mem, heap, 0x2000_0000, 0x100);
    var st, r := Initial(cpu, mem, heap, 0x2000_0000, 0x100), Req(0x2000_0000, 0x100, 1, 4, 4);
    WordByAddressDecided(st, r);
    WordByAddressCarved(st, r);
    CarvedIsCreated(st, k, r);
  }

  // ------------------------------------------------ a request within them

  /** A word from a word-aligned heap: table and block are one word each. */
  lemma WordSize(a: Word, n: Word, word: Word)
    requires Multiple(a, 4) && a + 4 < ADDR_SPACE && n == 1 && word == 4
    ensures CalcTotSize(a, n, word, word) == 4 && TotSize(a, n, word, word) == 4
  {
    hide AlignGap, Multiple, Stride, CalcTotSize;
    NoGap(a);
    TableSizeExact(a, n);
    TotSizeStep(a, n, word, word);
  }

  lemma WordPlanned(st: State, r: Req, next: Word)
    requires st.heap in st.segs && r.base == NULL
    requires st.segs[st.heap].next == next && next + 8 < ADDR_SPACE && st.segs[st.heap].rem >= 8
    requires TableSize(st, r) == 4
    requires CalcTotSize(next + 4, r.nbr, r.size, AlignOf(r)) == TotSize(next + 4, r.nbr, r.size, AlignOf(r)) == 4
    ensures PlanOnHeap(st, r) == Go(Share(st.heap), st.segs[st.heap], next + 4, 4)
    ensures ExactSize(st, r, PlanOnHeap(st, r)) == 8
  {
    hide CalcTotSize, TotSize, TableSize, AlignOf, Wrap;
    WrapSmall(next + 4);
    WrapSmall(8);
  }

  /** A request to the heap whose plan goes ahead with small sizes is within the limits. */
  lemma HeapCreatable(st: State, k: MemPool, r: Req, plan: Plan)
    requires TableOk(st) && k !in st.pools && k != st.heap
    requires r.base == NULL && 1 <= r.nbr <= 0xFFFF && r.size >= 1 && r.size + AlignOf(r) <= ADDR_SPACE
    requires st.heap in st.segs && plan == PlanOnHeap(st, r) && plan.Go?
    requires ExactSize(st, r, plan) < ADDR_SPACE && PaddingRejected(plan.start, r.size, AlignOf(r))
    ensures Creatable(st, k, r) && Decide(st, r) == plan
  {
    hide PlanOnHeap, ExactSize, PaddingRejected, Linked, SegsOk, Decide;
    NullDecides(st, r);
  }

  lemma WordCreatable(st: State, k: MemPool, r: Req, heap: Seg)
    requires st.heap in st.segs && st.segs[st.heap] == heap
    requires TableOk(st) && k !in st.pools && k != st.heap
    requires r.base == NULL && r.nbr == 1 && r.size == r.align == 4
    requires heap.next == 0x2000_0000 && heap.rem >= 8
    ensures Creatable(st, k, r) && Decide(st, r).Go?
  {
    hide PlanOnHeap, ExactSize, PaddingRejected, Linked, SegsOk, Decide, CalcTotSize, TotSize;
    WordSize(heap.next, r.nbr, r.size);
    WordSize(heap.next + 4, r.nbr, r.size);
    WordPlanned(st, r, heap.next);
    DividingAlignRejects(heap.next + 4, r.size, r.align);
    HeapCreatable(st, k, r, PlanOnHeap(st, r));
  }

  /** A new pool has its blocks to give. */
  lemma NewPoolGives(st: State, k: MemPool, r: Req, plan: Plan, table: Word)
    requires plan.Go? && k in st.pools && st.pools[k] == NewPool(k, r, plan, table) && 1 <= r.nbr <= 0xFFFF
    ensures BlkGet(st, k, r.size).2 == ErrNone
    ensures k in BlkGet(st, k, r.size).0.pools && BlkGet(st, k, r.size).0.pools[k].blkSize == r.size
  {
    hide TableEntry;
  }

  /** Runs are not vacuous: from Mem_Init on, a pool is created on the heap and its
      block is handed out. */
  lemma RunsExist(cpu: Endian, mem: Mem, heap: MemPool, k: MemPool) returns (end: World, b: Word)
    requires k != heap
    ensures RunsTo(World(Initial(cpu, mem, heap, 0x2000_0000, 0x100), map[]),
                   [OpCreate(k, Req(NULL, 0, 1, 4, 4)), OpGet(k, 4)], end)
    ensures InHeldBlock(end, k, b, b)
  {
    hide Inv, Linked, SegsOk, Creatable, SizesOk, Decide, TableEntry, Create, Carve, NewPool, BlkGet;
    var w := World(Initial(cpu, mem, heap, 0x2000_0000, 0x100), map[]);
    var create, get := OpCreate(k, Req(NULL, 0, 1, 4, 4)), OpGet(k, 4);
    InitialOk(cpu, mem, heap, 0x2000_0000, 0x100);
    InitialInv(cpu, mem, heap, 0x2000_0000, 0x100);
    WordCreatable(w.st, k, create.r, w.st.segs[heap]);
    CreateKeepsInv(w, k, create.r);
    CreatedRecord(w, k, create.r);
    var next, plan := AfterCreate(w, k, create.r), Decide(w.st, create.r);
    hide AfterCreate;
    FirstBlock(next, k, create.r, plan, Carve(w.st, create.r, plan.place, plan.seg).table);
    b := BlkGet(next.st, k, 4).1;
    end := AfterGet(next, k, 4);
    assert RunsTo(end, [], end);
    assert RunsTo(next, [get], end);
  }

  lemma GoSizes(st: State, r: Req)
    requires Linked(st) && Decide(st, r).Go?
    ensures r.nbr >= 1 && r.size >= 1
  {
    hide Linked, Decide;
  }

  lemma CreatedRecord(w: World, k: MemPool, r: Req)
    requires Creatable(w.st, k, r) && Decide(w.st, r).Go?
    ensures var plan, next := Decide(w.st, r), AfterCreate(w, k, r);
            && k in next.held && k in next.st.pools && 1 <= r.nbr <= 0xFFFF && r.size >= 1
            && next.st.pools[k] == NewPool(k, r, plan, Carve(w.st, r, plan.place, plan.seg).table)
  {
    hide Linked, SegsOk, SizesOk, Decide, Create, Carve, NewPool, PaddingRejected;
    NewRecordIs(w.st, k, r);
    GoSizes(w.st, r);
  }

  lemma FirstBlock(w: World, k: MemPool, r: Req, plan: Plan, table: Word)
    requires plan.Go? && k in w.held && k in w.st.pools && w.st.pools[k] == NewPool(k, r, plan, table)
    requires 1 <= r.nbr <= 0xFFFF && r.size >= 1
    ensures var b := BlkGet(w.st, k, r.size).1; InHeldBlock(AfterGet(w, k, r.size), k, b, b)
  {
    hide BlkGet, NewPool;
    NewPoolGives(w.st, k, r, plan, table);
  }

  // ---------------------------------------------------- sizes that wrap

  /** Two blocks of half the address space: a total of 2^32 octets is predicted
      as 0, the table is carved, no block fits, and the call fails with the heap changed. */
  lemma HalvesLeak(st: State, k: MemPool, r: Req, at: nat)
    requires TableOk(st) && st.heap in st.segs && TableSize(st, r) <= st.segs[st.heap].rem
    requires r.base != NULL && r.memSize >= 1 && r.base + r.memSize <= ADDR_SPACE
    requires Search(st.heads, st.segs, r.base, r.memSize, 0) == Insert(at)
    requires r.nbr == 2 && r.size == 0x8000_0000 && r.align == 1
    ensures Leaks(st, r) && Create(st, k, r).1 == ErrSegEmpty && Create(st, k, r).0 != st
  {
    hide Linked, SegsOk, SegOk, TotSize, Create, Search, TableSize, AlignOf, Decide, ExactSize;
    HeapOk(st);
    HeadsHaveSegments(st);
    AlignGiven(r);
    HalvesWrap(r.base, r.nbr, r.size, r.align);
    HalvesDecide(st, r, at);
    TableTakesSome(st, r);
    ExactOfInsert(st, r, Decide(st, r));
    hide TableOk;
    FailureAtomicIff(st, k, r);
    EndsSegEmpty(st, k, r);
  }

  lemma HalvesDecide(st: State, r: Req, at: nat)
    requires Linked(st) && st.heads != [] && forall h :: h in st.heads ==> h in st.segs
    requires st.heap in st.segs && TableSize(st, r) <= st.segs[st.heap].rem
    requires r.base != NULL && r.memSize >= 1 && r.nbr >= 1 && r.size >= 1
    requires Search(st.heads, st.segs, r.base, r.memSize, 0) == Insert(at)
    requires CalcTotSize(r.base, r.nbr, r.size, AlignOf(r)) == 0
    ensures Decide(st, r) == Go(Insert(at), Seg(r.base, r.memSize, r.base, r.memSize), r.base, 0)
  {
    hide Linked, Search, TableSize, CalcTotSize, AlignOf, Decide;
    SegmentDecides(st, r, Insert(at));
  }

  lemma TableTakesSome(st: State, r: Req)
    requires st.heap in st.segs && 1 <= r.nbr < 0x4000_0000
    ensures TableSize(st, r) > 0
  {
    hide CalcTotSize, AlignGap;
    TableSizeExact(st.segs[st.heap].next, r.nbr);
  }

  lemma ExactOfInsert(st: State, r: Req, plan: Plan)
    requires plan.Go? && st.heap in st.segs && r.base != NULL
    ensures ExactSize(st, r, plan) == TotSize(plan.start, r.nbr, r.size, AlignOf(r))
  {
    hide TotSize, AlignOf;
  }

  lemma HalvesWrap(addr: Word, n: Word, size: Word, one: Word)
    requires n == 2 && size == 0x8000_0000 && one == 1
    ensures TotSize(addr, n, size, one) == ADDR_SPACE && CalcTotSize(addr, n, size, one) == 0
  {
    hide AlignGap, CalcTotSize;
    GapOfOne(addr, one);
    GapOfOne(size, one);
    CalcTotSizeWraps(addr, n, size, one);
  }

  lemma LeakHappens(cpu: Endian, mem: Mem, heap: MemPool, k: MemPool)
    requires k != heap
    ensures var st := Initial(cpu, mem, heap, 0x2000_0000, 0x1_0000);
            var r := Req(0x3000_0000, 0x1000, 2, 0x8000_0000, 1);
            && Linked(st) && st.heads != [] && Leaks(st, r)
            && Create(st, k, r).1 == ErrSegEmpty && Create(st, k, r).0 != st
  {
    InitialOk(cpu, mem, heap, 0x2000_0000, 0x1_0000);
    var st := Initial(cpu, mem, heap, 0x2000_0000, 0x1_0000);
    var r, next: Word := Req(0x3000_0000, 0x1000, 2, 0x8000_0000, 1), 0x2000_0000;
    assert AlignGap(next, 4) == 0;
    hide Initial, Linked, SegsOk, CalcTotSize, AlignGap, Create, Leaks;
    assert Search(st.heads, st.segs, r.base, r.memSize, 0) == Insert(1);
    hide Search;
    TableSizeExact(next, r.nbr);
    HalvesLeak(st, k, r, 1);
  }
}
