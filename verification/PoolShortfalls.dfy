/** Requests for which the octets that Mem_PoolCreate reports are too few, and one whose
    pool takes back what it never gave: the inputs behind the conditions of PoolErrors
    and PoolLimits. */
module PoolShortfalls {
  import opened Machine
  import opened Segments
  import opened PoolRecord
  import opened PoolTable
  import opened PoolSearch
  import opened PoolCarving
  import opened PoolSafety
  import opened PoolCreation
  import opened PoolErrors
  import opened PoolLimits

  lemma Refused(st: State, k: MemPool, r: Req)
    requires Linked(st) && Decide(st, r).Refuse?
    ensures Create(st, k, r) == (st, Decide(st, r).err, Decide(st, r).octets)
  {
    hide Linked, Decide;
  }

  // ------------------------------------------------------- sizes that wrap

  lemma TwoHuge(addr: Word, n: Word, size: Word, one: Word)
    requires n == 2 && size == 0x8000_0100 && one == 1
    ensures TotSize(addr, n, size, one) == 0x1_0000_0200 && CalcTotSize(addr, n, size, one) == 0x200
  {
    hide AlignGap, CalcTotSize;
    GapOfOne(addr, one);
    GapOfOne(size, one);
    CalcTotSizeWraps(addr, n, size, one);
  }

  lemma WrapHuge(n: int)
    requires n == 0x1_0000_0208
    ensures Wrap(n) == 0x208
  {
  }

  /** HEAP_EMPTY for two blocks of just over half the address space: 264 octets are
      reported, and with 264 octets more the heap is as short as before. */
  lemma HeapNumberTooSmall(st: State, k: MemPool, r: Req, heap: Seg)
    requires TableOk(st) && st.heap in st.segs && heap == st.segs[st.heap] && SegOk(heap)
    requires AlignGap(heap.next, 4) == 0 && heap.rem == 0x100 && heap.base + heap.tot + 0x108 <= ADDR_SPACE
    requires r.base == NULL && r.nbr == 2 && r.size == 0x8000_0100 && r.align == 1
    ensures Create(st, k, r).1 == ErrHeapEmpty && Create(st, k, r).2 == 0x108
    ensures !HeapMeets(Extended(heap, 0x108), r)
  {
    hide Linked, SegsOk, SegOk, Create, Decide, PlanOnHeap, TotSize, CalcTotSize, Wrap, AlignOf, HeapMeets, AlignGap;
    AlignGiven(r);
    TableSizeExact(heap.next, r.nbr);
    var size: Word := TableSize(st, r);
    var start := Wrap(heap.next + size);
    TwoHuge(start, r.nbr, r.size, r.align);
    WrapHuge(size + TotSize(start, r.nbr, r.size, r.align));
    HeapCheck(st, r, start, size + TotSize(start, r.nbr, r.size, r.align));
    NullDecides(st, r);
    Refused(st, k, r);
    HeapMeetsIff(heap, r, 0x108, size, start);
  }

  lemma HeapNumberHappens(cpu: Endian, mem: Mem, heap: MemPool, k: MemPool)
    ensures var st := Initial(cpu, mem, heap, 0x2000_0000, 0x100);
            var r := Req(NULL, 0, 2, 0x8000_0100, 1);
            && Linked(st) && heap in st.segs && SegOk(st.segs[heap])
            && Create(st, k, r).1 == ErrHeapEmpty && Create(st, k, r).2 == 0x108
            && !HeapMeets(Extended(st.segs[heap], 0x108), r)
  {
    var st, r := Initial(cpu, mem, heap, 0x2000_0000, 0x100), Req(NULL, 0, 2, 0x8000_0100, 1);
    InitialOk(cpu, mem, heap, 0x2000_0000, 0x100);
    assert AlignGap(st.segs[heap].next, 4) == 0 && SegOk(st.segs[heap]);
    hide Initial, Linked, SegsOk, SegOk, Create, HeapMeets, AlignGap;
    HeapNumberTooSmall(st, k, r, st.segs[heap]);
  }

  /** SEG_EMPTY for the same blocks in a new segment of 256 octets: as many more are
      reported, and with them the segment is as short as before. */
  lemma BlocksNumberTooSmall(st: State, k: MemPool, r: Req, at: nat, seg: Seg)
    requires TableOk(st) && st.heap in st.segs && TableSize(st, r) <= st.segs[st.heap].rem
    requires r.base != NULL && r.memSize == 0x100 && r.base + 0x200 <= ADDR_SPACE
    requires Search(st.heads, st.segs, r.base, r.memSize, 0) == Insert(at)
    requires seg == Seg(r.base, r.memSize, r.base, r.memSize)
    requires r.nbr == 2 && r.size == 0x8000_0100 && r.align == 1
    ensures SegOk(seg) && Create(st, k, r).1 == ErrSegEmpty && Create(st, k, r).2 == 0x100
    ensures !RunSucceeds(Extended(seg, 0x100), r.nbr, r.size, AlignOf(r))
  {
    NewSegOk(seg);
    hide Linked, SegsOk, SegOk, Create, Decide, TotSize, CalcTotSize, AlignOf, RunSucceeds, Search, TableSize;
    HeadsHaveSegments(st);
    AlignGiven(r);
    TwoHuge(r.base, r.nbr, r.size, r.align);
    SegmentDecides(st, r, Insert(at));
    Refused(st, k, r);
    ExtendedOk(seg, 0x100);
    RunSucceedsIff(Extended(seg, 0x100), r.nbr, r.size, r.align);
  }

  lemma NewSegOk(seg: Seg)
    requires seg.base >= 1 && seg.base + seg.tot <= ADDR_SPACE && seg.next == seg.base && seg.rem == seg.tot
    ensures SegOk(seg)
  {
    hide Wrap;
    WrapSmall(seg.base);
  }

  lemma BlocksNumberHappens(cpu: Endian, mem: Mem, heap: MemPool, k: MemPool)
    ensures var st, seg := Initial(cpu, mem, heap, 0x2000_0000, 0x1000), Seg(0x3000_0000, 0x100, 0x3000_0000, 0x100);
            var r := Req(0x3000_0000, 0x100, 2, 0x8000_0100, 1);
            && Linked(st) && SegOk(seg)
            && Create(st, k, r).1 == ErrSegEmpty && Create(st, k, r).2 == 0x100
            && !RunSucceeds(Extended(seg, 0x100), r.nbr, r.size, AlignOf(r))
  {
    var st, seg := Initial(cpu, mem, heap, 0x2000_0000, 0x1000), Seg(0x3000_0000, 0x100, 0x3000_0000, 0x100);
    var r := Req(0x3000_0000, 0x100, 2, 0x8000_0100, 1);
    InitialOk(cpu, mem, heap, 0x2000_0000, 0x1000);
    var next := st.segs[heap].next;
    assert AlignGap(next, 4) == 0;
    hide Initial, Linked, SegsOk, CalcTotSize, AlignGap, Create, RunSucceeds, AlignOf, SegOk;
    assert Search(st.heads, st.segs, r.base, r.memSize, 0) == Insert(1);
    hide Search;
    TableSizeExact(next, r.nbr);
    BlocksNumberTooSmall(st, k, r, 1, seg);
  }

  // ------------------------------------------ the heap asked for by address

  /** One block of four octets more than the heap has, asked for at the heap's address:
      four octets are reported, with which the block would fit, but not the table too. */
  lemma ByAddressNumberTooSmall(st: State, k: MemPool, r: Req, heap: Seg, one: Word)
    requires TableOk(st) && st.heap in st.segs && heap == st.segs[st.heap] && SegOk(heap)
    requires Identical(r.base, r.memSize, heap) && heap.tot >= 1
    requires AlignGap(heap.next, 4) == 0 && heap.rem >= 4 && heap.base + heap.tot + 4 <= ADDR_SPACE
    requires r.nbr == 1 && r.size == heap.rem + 4 && r.align == one == 1
    ensures Create(st, k, r).1 == ErrSegEmpty && Create(st, k, r).2 == 4
    ensures RunSucceeds(Extended(heap, 4), r.nbr, r.size, AlignOf(r)) && !HeapMeets(Extended(heap, 4), r)
  {
    hide Linked, SegsOk, SegOk, Create, Decide, TotSize;
    hide CalcTotSize, Wrap, AlignOf, HeapMeets, RunSucceeds, AlignGap, Search;
    HeapOk(st);
    AlignGiven(r);
    FrontIsNext(heap);
    TableSizeExact(heap.next, r.nbr);
    var size: Word := TableSize(st, r);
    OneBlock(heap.next, r.nbr, r.size, one);
    OneBlock(Wrap(heap.next + size), r.nbr, r.size, one);
    IdenticalFound(st.heads, st.segs, r.base, r.memSize, st.heap);
    ByAddressDecides(st, r);
    Refused(st, k, r);
    ExtendedOk(heap, 4);
    RunSucceedsIff(Extended(heap, 4), r.nbr, r.size, one);
    HeapMeetsIff(heap, r, 4, size, Wrap(heap.next + size));
  }

  lemma ByAddressNumberHappens(cpu: Endian, mem: Mem, heap: MemPool, k: MemPool)
    ensures var st := Initial(cpu, mem, heap, 0x2000_0000, 0x100);
            var r := Req(0x2000_0000, 0x100, 1, 0x104, 1);
            && Linked(st) && heap in st.segs && SegOk(st.segs[heap])
            && Create(st, k, r).1 == ErrSegEmpty && Create(st, k, r).2 == 4
            && RunSucceeds(Extended(st.segs[heap], 4), r.nbr, r.size, AlignOf(r))
            && !HeapMeets(Extended(st.segs[heap], 4), r)
  {
    var st, r := Initial(cpu, mem, heap, 0x2000_0000, 0x100), Req(0x2000_0000, 0x100, 1, 0x104, 1);
    InitialOk(cpu, mem, heap, 0x2000_0000, 0x100);
    assert AlignGap(st.segs[heap].next, 4) == 0 && SegOk(st.segs[heap]);
    hide Initial, Linked, SegsOk, SegOk, Create, HeapMeets, AlignGap, RunSucceeds, AlignOf;
    ByAddressNumberTooSmall(st, k, r, st.segs[heap], 1);
  }

  // ------------------------------------------------- more blocks than the index counts

  /** 65537 octets as blocks of a heap of 1 MiB. */
  lemma ManyCarvable(st: State, k: MemPool, r: Req, heap: Seg)
    requires TableOk(st) && st.heap in st.segs && heap == st.segs[st.heap] && k !in st.pools && k != st.heap
    requires AlignGap(heap.next, 4) == 0 && heap.rem == 0x10_0000 && SegOk(heap)
    requires r.base == NULL && r.nbr == 65537 && r.size == r.align == 1
    ensures Carvable(st, k, r) && Decide(st, r).Go?
  {
    hide Linked, SegsOk, SegOk, Decide, PlanOnHeap, TotSize, CalcTotSize, Wrap, AlignOf, AlignGap;
    AlignGiven(r);
    TableSizeExact(heap.next, r.nbr);
    var start := Wrap(heap.next + TableSize(st, r));
    TotalOfOctets(start, r.nbr, r.align);
    HeapCheck(st, r, start, TableSize(st, r) + TotSize(start, r.nbr, r.size, r.align));
    NullDecides(st, r);
  }

  /** Nothing of the new pool has been handed out, and Mem_PoolBlkFree takes a block of it. */
  lemma FreshPoolAccepts(cpu: Endian, mem: Mem, heap: MemPool, k: MemPool) returns (b: Word)
    requires k != heap
    ensures var w := World(Initial(cpu, mem, heap, 0x2000_0000, 0x10_0000), map[]);
            var r := Req(NULL, 0, 65537, 1, 1);
            && Linked(w.st) && Create(w.st, k, r).1 == ErrNone
            && k in AfterCreate(w, k, r).held && AfterCreate(w, k, r).held[k] == {}
            && Checkable(AfterCreate(w, k, r).st, k, b)
            && BlkFree(AfterCreate(w, k, r).st, k, b).1 == ErrNone
  {
    var st, r := Initial(cpu, mem, heap, 0x2000_0000, 0x10_0000), Req(NULL, 0, 65537, 1, 1);
    InitialOk(cpu, mem, heap, 0x2000_0000, 0x10_0000);
    assert AlignGap(st.segs[heap].next, 4) == 0 && SegOk(st.segs[heap]) && k !in st.pools;
    hide Initial, Linked, SegsOk, SegOk, AlignGap, Create, Carvable, Decide, BlkFree, Checkable;
    ManyCarvable(st, k, r, st.segs[heap]);
    FreshPoolRefusesIff(st, k, r);
    b :| BlkFree(Create(st, k, r).0, k, b).1 == ErrNone;
  }
}
