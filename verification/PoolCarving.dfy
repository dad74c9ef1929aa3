/** Mem_PoolCreate between its checks and the linking: what the checks promise
    about the allocations that follow. */
module PoolCarving {
  import opened Machine
  import opened Segments
  import opened BlockCheck
  import opened PoolRecord
  import opened PoolTable
  import opened PoolSearch

  /** The size predicted for a pointer table is its size exactly when the table has fewer than 2^30 entries. */
  lemma TableSizeExactIff(next: Word, nbr: Word)
    requires nbr >= 1
    ensures CalcTotSize(next, nbr, 4, 4) == AlignGap(next, 4) + 4 * nbr <==> nbr < 0x4000_0000
    ensures CalcTotSize(next, nbr, 4, 4) == Wrap(AlignGap(next, 4) + Wrap(4 * nbr))
  {
    hide AlignGap, Stride, CalcTotSize, Multiple;
    TableStride();
    CalcTotSizeWraps(next, nbr, 4, 4);
  }

  lemma TableSizeExact(next: Word, nbr: Word)
    requires 1 <= nbr < 0x4000_0000
    ensures CalcTotSize(next, nbr, 4, 4) == AlignGap(next, 4) + 4 * nbr
  {
    hide AlignGap, CalcTotSize, Wrap, Multiple;
    TableSizeExactIff(next, nbr);
  }

  lemma TableStride()
    ensures Stride(4, 4) == 4
  {
  }

  /** The octets the blocks take, and on the heap the table in front of them. */
  function ExactSize(st: State, r: Req, plan: Plan): int
    requires plan.Go? && st.heap in st.segs
  {
    TotSize(plan.start, r.nbr, r.size, AlignOf(r)) + if r.base == NULL then TableSize(st, r) else 0
  }

  /** Sizes have 32-bit values, a segment is memory that exists, and the heap is
      asked for by a NULL base, not by its own address. */
  predicate SizesOk(st: State, r: Req)
    requires Linked(st) && st.heads != []
  {
    var plan := Decide(st, r);
    && r.nbr < 0x4000_0000
    && r.size + AlignOf(r) <= ADDR_SPACE
    && (r.base != NULL ==> r.base + r.memSize <= ADDR_SPACE && !Identical(r.base, r.memSize, st.segs[st.heap]))
    && (plan.Go? ==> ExactSize(st, r, plan) < ADDR_SPACE)
  }

  /** What a caller has to see to: sizes, an index of 16 bits that counts the free
      blocks, and padding that can be told from blocks. */
  predicate WithinLimits(st: State, r: Req)
    requires Linked(st) && st.heads != []
  {
    var plan := Decide(st, r);
    && SizesOk(st, r) && r.nbr <= 0xFFFF
    && (plan.Go? ==> PaddingRejected(plan.start, r.size, AlignOf(r)))
  }

  /** Segment `t` is `s` with `n` more octets carved off the front. */
  predicate Advanced(s: Seg, t: Seg, n: int) {
    t.base == s.base && t.tot == s.tot && t.rem == s.rem - n && SegOk(t)
  }

  lemma AdvancedFront(s: Seg, t: Seg, n: int)
    requires SegOk(s) && Advanced(s, t, n) && n >= 1
    ensures SegOk(t) && s.base <= s.next == Front(s) && Front(t) == s.next + n <= ADDR_SPACE
  {
    FrontIsNext(s);
  }

  ghost predicate CarvedAsPlanned(st: State, r: Req, plan: Plan, c: Carving)
    requires plan.Go? && st.heap in st.segs
  {
    var heap, from := st.segs[st.heap], BlockSeg(st, r, plan.place, plan.seg);
    var gap := AlignGap(heap.next, 4);
    var heapAfterTable := if plan.place == Share(st.heap) then from else c.heapSeg;
    && c.table == heap.next + gap && c.table % 4 == 0
    && Advanced(heap, heapAfterTable, gap + 4 * r.nbr)
    && SegOk(from) && from.rem >= 1 && from.next == plan.start
    && plan.total == TotSize(plan.start, r.nbr, r.size, AlignOf(r))
    && Advanced(from, c.seg, plan.total)
    && |c.blocks| == r.nbr
    && (forall i :: 0 <= i < r.nbr ==> c.blocks[i] == BlockAt(plan.start, r.size, AlignOf(r), i))
    && (plan.place == Share(st.heap) ==> c.heapSeg == c.seg)
  }

  lemma TableCarved(st: State, r: Req)
    requires st.heap in st.segs && SegOk(st.segs[st.heap]) && 1 <= r.nbr < 0x4000_0000
    requires TableSize(st, r) <= st.segs[st.heap].rem
    ensures var heap := st.segs[st.heap];
            var (after, table) := AllocTable(st, r);
            && table == heap.next + AlignGap(heap.next, 4) && table % 4 == 0
            && TableSize(st, r) == AlignGap(heap.next, 4) + 4 * r.nbr
            && Advanced(heap, after, TableSize(st, r))
  {
    hide AlignGap, SegAlloc, SegOk, CalcTotSize, Wrap, Multiple;
    var heap := st.segs[st.heap];
    TableSizeExact(heap.next, r.nbr);
    WrapSmall(4 * r.nbr);
    TableStart(heap.next);
    SegAllocSound(heap, 4 * r.nbr, 4);
  }

  lemma TableStart(next: Word)
    ensures (next + AlignGap(next, 4)) % 4 == 0
  {
    assert Multiple(next + AlignGap(next, 4), 4);
  }

  /** The blocks of a request that fits lie one stride apart from the front of the segment on. */
  lemma BlocksCarvedFrom(from: Seg, nbr: nat, size: Word, align: Word)
    requires SegOk(from) && nbr >= 1 && size >= 1 && align >= 1
    requires TotSize(from.next, nbr, size, align) <= from.rem
    ensures var (after, blocks) := AllocRun(from, nbr, size, align);
            && Advanced(from, after, TotSize(from.next, nbr, size, align)) && from.rem >= 1
            && |blocks| == nbr
            && (forall i :: 0 <= i < nbr ==> blocks[i] == BlockAt(from.next, size, align, i))
  {
    hide TotSize, BlockAt, AlignGap;
    RunFits(from, nbr, size, align);
    TotSizeStep(from.next, nbr, size, align);
  }

  /** On the heap the blocks begin right behind the table. */
  lemma PlanOnHeapExact(st: State, r: Req)
    requires st.heap in st.segs && SegOk(st.segs[st.heap])
    requires 1 <= r.nbr < 0x4000_0000 && r.size >= 1 && r.base == NULL
    requires var plan := PlanOnHeap(st, r); plan.Go? && ExactSize(st, r, plan) < ADDR_SPACE
    ensures var plan, heap := PlanOnHeap(st, r), st.segs[st.heap];
            && plan.start == heap.next + TableSize(st, r)
            && plan.total == TotSize(plan.start, r.nbr, r.size, AlignOf(r))
            && TableSize(st, r) + plan.total <= heap.rem
  {
    hide CalcTotSize, TotSize, TableSize, AlignGap, AlignOf, Wrap;
    var heap, plan := st.segs[st.heap], PlanOnHeap(st, r);
    CalcTotSizeWraps(plan.start, r.nbr, r.size, AlignOf(r));
    TotSizeStep(plan.start, r.nbr, r.size, AlignOf(r));
    WrapSmall(TotSize(plan.start, r.nbr, r.size, AlignOf(r)));
    WrapSmall(TableSize(st, r) + plan.total);
    FrontIsNext(heap);
    assert heap.next + heap.rem <= ADDR_SPACE;
    WrapSmall(heap.next + TableSize(st, r));
  }

  lemma PlanOnSegmentExact(st: State, r: Req, place: Place, seg: Seg)
    requires st.heap in st.segs && SegOk(seg)
    requires r.nbr >= 1 && r.size >= 1 && r.base != NULL
    requires var plan := PlanOnSegment(st, r, place, seg); plan.Go? && ExactSize(st, r, plan) < ADDR_SPACE
    ensures var plan := PlanOnSegment(st, r, place, seg);
            && plan.start == seg.next
            && plan.total == TotSize(plan.start, r.nbr, r.size, AlignOf(r)) <= seg.rem
            && TableSize(st, r) <= st.segs[st.heap].rem
  {
    hide CalcTotSize, TotSize, AlignGap, Wrap;
    CalcTotSizeWraps(seg.next, r.nbr, r.size, AlignOf(r));
    TotSizeStep(seg.next, r.nbr, r.size, AlignOf(r));
    WrapSmall(TotSize(seg.next, r.nbr, r.size, AlignOf(r)));
  }

  /** Where a plan that goes ahead places the blocks. */
  lemma DecidedPlace(st: State, r: Req)
    requires Linked(st) && SegsOk(st.heads, st.segs) && Decide(st, r).Go?
    requires r.base != NULL ==> r.base + r.memSize <= ADDR_SPACE && !Identical(r.base, r.memSize, st.segs[st.heap])
    ensures var plan := Decide(st, r);
            if r.base == NULL then plan == PlanOnHeap(st, r)
            else
              && plan == PlanOnSegment(st, r, plan.place, plan.seg) && SegOk(plan.seg)
              && plan.place != Share(st.heap)
              && (plan.place.Share? ==> plan.seg == st.segs[plan.place.head])
              && (plan.place.Insert? ==> plan.seg == Seg(r.base, r.memSize, r.base, r.memSize)
                                         && FitsAt(st.heads, st.segs, r.base, r.memSize, plan.place.at))
  {
    hide Linked, SegOk, Decide, PlanOnHeap, FitsAt, PlanOnSegment, Search;
    GoArguments(st, r);
    if r.base != NULL {
      SearchFrom(st.heads, st.segs, r.base, r.memSize, 0);
      SegmentOfPlan(st, r);
      NewSegOk(r);
    }
  }

  lemma GoArguments(st: State, r: Req)
    requires Linked(st) && Decide(st, r).Go?
    ensures st.heap in st.heads && st.heap in st.segs && (r.base != NULL ==> r.memSize >= 1)
    ensures r.base == NULL ==> Decide(st, r) == PlanOnHeap(st, r)
  {
    hide PlanOnHeap, PlanOnSegment, Search;
  }

  lemma SegmentOfPlan(st: State, r: Req)
    requires Linked(st) && Decide(st, r).Go? && r.base != NULL
    ensures st.heap in st.segs && forall h :: h in st.heads ==> h in st.segs
    ensures var plan := Decide(st, r);
            && plan.place == Search(st.heads, st.segs, r.base, r.memSize, 0)
            && plan == PlanOnSegment(st, r, plan.place, plan.seg)
            && (plan.place.Insert? ==> plan.seg == Seg(r.base, r.memSize, r.base, r.memSize))
  {
    hide PlanOnHeap, Search, CalcTotSize, AlignOf;
  }

  lemma NewSegOk(r: Req)
    requires r.base != NULL && r.memSize >= 1 && r.base + r.memSize <= ADDR_SPACE
    ensures SegOk(Seg(r.base, r.memSize, r.base, r.memSize))
  {
  }

  /** What `CarvedAsPlanned` says, put together from the table and the run of blocks. */
  lemma PlanMet(st: State, r: Req, plan: Plan)
    requires st.heap in st.segs && SegOk(st.segs[st.heap]) && 1 <= r.nbr < 0x4000_0000 && r.size >= 1
    requires plan.Go? && TableSize(st, r) <= st.segs[st.heap].rem
    requires var from := BlockSeg(st, r, plan.place, plan.seg);
             && SegOk(from) && from.next == plan.start
             && plan.total == TotSize(plan.start, r.nbr, r.size, AlignOf(r)) <= from.rem
    ensures CarvedAsPlanned(st, r, plan, Carve(st, r, plan.place, plan.seg))
  {
    hide TotSize, AlignGap, BlockAt, CalcTotSize, TableSize, AllocTable, AllocRun, SegOk, AlignOf;
    TableCarved(st, r);
    BlocksCarvedFrom(BlockSeg(st, r, plan.place, plan.seg), r.nbr, r.size, AlignOf(r));
  }

  lemma CarvesOnHeap(st: State, r: Req)
    requires st.heap in st.segs && SegOk(st.segs[st.heap])
    requires 1 <= r.nbr < 0x4000_0000 && r.size >= 1 && r.base == NULL
    requires var plan := PlanOnHeap(st, r); plan.Go? && ExactSize(st, r, plan) < ADDR_SPACE
    ensures CarvedAsPlanned(st, r, PlanOnHeap(st, r), Carve(st, r, Share(st.heap), st.segs[st.heap]))
  {
    hide TotSize, AlignGap, BlockAt, CalcTotSize, TableSize, AllocTable, AllocRun, CarvedAsPlanned, Carve, AlignOf;
    PlanOnHeapExact(st, r);
    var plan, from := PlanOnHeap(st, r), AllocTable(st, r).0;
    hide PlanOnHeap;
    TotSizeStep(plan.start, r.nbr, r.size, AlignOf(r));
    TableCarved(st, r);
    FrontIsNext(from);
    AdvancedFront(st.segs[st.heap], from, TableSize(st, r));
    hide SegOk, Wrap;
    PlanMet(st, r, plan);
  }

  lemma CarvesOnSegment(st: State, r: Req, place: Place, seg: Seg)
    requires st.heap in st.segs && SegOk(st.segs[st.heap]) && SegOk(seg) && place != Share(st.heap)
    requires 1 <= r.nbr < 0x4000_0000 && r.size >= 1 && r.base != NULL
    requires var plan := PlanOnSegment(st, r, place, seg); plan.Go? && ExactSize(st, r, plan) < ADDR_SPACE
    ensures CarvedAsPlanned(st, r, PlanOnSegment(st, r, place, seg), Carve(st, r, place, seg))
  {
    hide TotSize, AlignGap, BlockAt, CalcTotSize, TableSize, AllocTable, AllocRun, CarvedAsPlanned, Carve, SegOk;
    PlanOnSegmentExact(st, r, place, seg);
    var plan := PlanOnSegment(st, r, place, seg);
    hide PlanOnSegment;
    PlanMet(st, r, plan);
  }

  /** Within the limits the checks are exact: no allocation that follows them fails. */
  lemma CarvesAsPlanned(st: State, r: Req)
    requires TableOk(st)
    requires SizesOk(st, r) && Decide(st, r).Go?
    ensures var plan := Decide(st, r);
            CarvedAsPlanned(st, r, plan, Carve(st, r, plan.place, plan.seg))
  {
    var plan := Decide(st, r);
    DecidedPlace(st, r);
    hide Decide, SegsOk, Linked, CarvedAsPlanned, Carve, ExactSize, PlanOnHeap, PlanOnSegment, FitsAt;
    if r.base == NULL {
      CarvesOnHeap(st, r);
    } else {
      CarvesOnSegment(st, r, plan.place, plan.seg);
    }
  }
}
