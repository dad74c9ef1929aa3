/** The error returns of Mem_PoolCreate: what the reported octets mean, when a
    failed call leaves no trace, and what the limits of a request are for. */
module PoolErrors {
  import opened Machine
  import opened Segments
  import opened BlockCheck
  import opened PoolRecord
  import opened PoolTable
  import opened PoolSearch
  import opened PoolCarving
  import opened PoolSafety
  import opened PoolCreation
  import Arith

  // ------------------------------------------------------ octets required

  /** Segment `s` with `extra` more octets at its end. */
  function Extended(s: Seg, extra: Word): Seg
    requires SegOk(s) && s.base + s.tot + extra <= ADDR_SPACE
  {
    Seg(s.base, s.tot + extra, s.next, s.rem + extra)
  }

  lemma ExtendedOk(s: Seg, extra: Word)
    requires SegOk(s) && s.base + s.tot + extra <= ADDR_SPACE
    ensures SegOk(Extended(s, extra))
  {
    hide Wrap;
  }

  /** The heap can give an address, and octets for all the entries of the table. */
  predicate TableFits(heap: Seg, r: Req) {
    var (after, table) := SegAlloc(heap, Wrap(4 * r.nbr), 4);
    table != NULL && heap.rem - after.rem >= 4 * r.nbr
  }

  /** The heap can give the table and then all the blocks. */
  predicate HeapMeets(heap: Seg, r: Req) {
    TableFits(heap, r) && RunSucceeds(SegAlloc(heap, Wrap(4 * r.nbr), 4).0, r.nbr, r.size, AlignOf(r))
  }

  lemma TableFitsIff(heap: Seg, r: Req)
    requires SegOk(heap) && r.nbr >= 1
    ensures var size := CalcTotSize(heap.next, r.nbr, 4, 4);
            && (TableFits(heap, r) <==> r.nbr < 0x4000_0000 && size <= heap.rem)
            && (TableFits(heap, r) ==> size >= 1 && Advanced(heap, SegAlloc(heap, Wrap(4 * r.nbr), 4).0, size))
  {
    hide AlignGap, SegAlloc, CalcTotSize, Wrap, SegOk;
    FrontIsNext(heap);
    if r.nbr < 0x4000_0000 {
      TableSizeExact(heap.next, r.nbr);
      WrapSmall(4 * r.nbr);
      SegAllocSound(heap, 4 * r.nbr, 4);
    } else {
      var (after, table) := SegAlloc(heap, Wrap(4 * r.nbr), 4);
      assert after.rem >= 0 && heap.rem < 4 * r.nbr;
    }
  }

  /** No extension of the segment by so many octets ends at the top of memory or below. */
  predicate OutOfReach(s: Seg, octets: Word) {
    s.base + s.tot + octets > ADDR_SPACE
  }

  /** Of all extensions of the heap the table fits exactly in those by `octets` or more. */
  ghost predicate TableLeast(heap: Seg, r: Req, octets: Word)
    requires SegOk(heap)
  {
    forall extra: Word :: heap.base + heap.tot + extra <= ADDR_SPACE ==>
      (TableFits(Extended(heap, extra), r) <==> extra >= octets)
  }

  /** The same for blocks in their segment... */
  ghost predicate BlocksLeast(seg: Seg, r: Req, octets: Word)
    requires SegOk(seg) && r.size >= 1
  {
    forall extra: Word :: seg.base + seg.tot + extra <= ADDR_SPACE ==>
      (RunSucceeds(Extended(seg, extra), r.nbr, r.size, AlignOf(r)) <==> extra >= octets)
  }

  /** ... and for a table and blocks in the heap. */
  ghost predicate HeapLeast(heap: Seg, r: Req, octets: Word)
    requires SegOk(heap) && r.size >= 1
  {
    forall extra: Word :: heap.base + heap.tot + extra <= ADDR_SPACE ==>
      (HeapMeets(Extended(heap, extra), r) <==> extra >= octets)
  }

  /** HEAP_EMPTY for a pool in dedicated memory: the octets returned are the least with
      which the heap could have held the pointer table. */
  lemma TableShortfallIff(st: State, k: MemPool, r: Req)
    requires TableOk(st) && r.base != NULL && Create(st, k, r).1 == ErrHeapEmpty
    ensures st.heap in st.segs && SegOk(st.segs[st.heap])
    ensures var heap, octets := st.segs[st.heap], Create(st, k, r).2;
            TableLeast(heap, r, octets) <==> r.nbr < 0x4000_0000 || OutOfReach(heap, octets)
  {
    hide Linked, SegsOk, SegOk, Create, Decide, CalcTotSize, TableFits, TableLeast;
    HeapOk(st);
    GoodArguments(st, k, r);
    RefusalIs(st, k, r);
    TableLeastIff(st.segs[st.heap], r, Create(st, k, r).2);
  }

  lemma TableLeastIff(heap: Seg, r: Req, octets: Word)
    requires SegOk(heap) && r.nbr >= 1 && octets + heap.rem == CalcTotSize(heap.next, r.nbr, 4, 4)
    ensures TableLeast(heap, r, octets) <==> r.nbr < 0x4000_0000 || OutOfReach(heap, octets)
  {
    hide SegOk, TableFits, CalcTotSize;
    forall extra: Word | heap.base + heap.tot + extra <= ADDR_SPACE
      ensures TableFits(Extended(heap, extra), r) <==> r.nbr < 0x4000_0000 && extra >= octets
    {
      ExtendedOk(heap, extra);
      TableFitsIff(Extended(heap, extra), r);
    }
    if !OutOfReach(heap, octets) {
      assert TableFits(Extended(heap, octets), r) <==> r.nbr < 0x4000_0000;
    }
  }

  /** A refusal of the checks for memory, in terms of what the call returns. */
  lemma RefusalIs(st: State, k: MemPool, r: Req)
    requires Linked(st) && st.heads != [] && r.nbr >= 1
    requires Create(st, k, r).1 == ErrHeapEmpty || (Create(st, k, r).1 == ErrSegEmpty && Create(st, k, r).2 > 0)
    ensures st.heap in st.segs && r.size >= 1 && Decide(st, r) == Refuse(Create(st, k, r).1, Create(st, k, r).2)
    ensures r.base == NULL ==> Decide(st, r) == PlanOnHeap(st, r)
    ensures r.base != NULL ==>
              var place := Search(st.heads, st.segs, r.base, r.memSize, 0);
              && r.memSize >= 1 && (place.Share? ==> place.head in st.segs)
              && Decide(st, r) == PlanOnSegment(st, r, place, PlaceSeg(st, r, place))
  {
    hide Linked, PlanOnHeap, PlanOnSegment, Search, Carve, AfterCarving, Link;
    HeadsHaveSegments(st);
  }

  lemma HeadsHaveSegments(st: State)
    requires Linked(st) && st.heads != []
    ensures st.heap in st.segs && forall h :: h in st.heads ==> h in st.segs
  {
  }

  /** The check of the heap in terms of the exact sizes of the table and the blocks. */
  lemma HeapCheck(st: State, r: Req, start: Word, exact: int)
    requires st.heap in st.segs && r.nbr >= 1 && start == Wrap(st.segs[st.heap].next + TableSize(st, r))
    requires exact == TableSize(st, r) + TotSize(start, r.nbr, r.size, AlignOf(r))
    ensures var both, heap := Wrap(exact), st.segs[st.heap];
            && (PlanOnHeap(st, r).Refuse? <==> both > heap.rem)
            && (PlanOnHeap(st, r).Refuse? ==> PlanOnHeap(st, r) == Refuse(ErrHeapEmpty, both - heap.rem))
            && (PlanOnHeap(st, r).Go? ==> PlanOnHeap(st, r).start == start)
    ensures exact < ADDR_SPACE ==> Wrap(exact) == exact
  {
    hide TableSize, CalcTotSize, TotSize, AlignOf, Wrap;
    CalcTotSizeWraps(start, r.nbr, r.size, AlignOf(r));
    TotalSmall(start, r.nbr, r.size, AlignOf(r));
    WrapInner(TableSize(st, r), TotSize(start, r.nbr, r.size, AlignOf(r)));
    if exact < ADDR_SPACE {
      WrapSmall(exact);
    }
  }

  lemma WrapInner(x: int, y: int)
    ensures Wrap(x + Wrap(y)) == Wrap(x + y)
  {
  }

  /** SEG_EMPTY from the checks, for any segment but the heap: the octets returned are the
      least with which it could have held the blocks. */
  lemma BlocksShortfallIff(st: State, k: MemPool, r: Req, place: Place, seg: Seg)
    requires TableOk(st) && r.base != NULL && r.base + r.memSize <= ADDR_SPACE
    requires Create(st, k, r).1 == ErrSegEmpty && Create(st, k, r).2 > 0
    requires !Identical(r.base, r.memSize, st.segs[st.heap])
    requires place == Search(st.heads, st.segs, r.base, r.memSize, 0)
    requires (place.Share? ==> place.head in st.segs) && seg == PlaceSeg(st, r, place)
    ensures SegOk(seg) && r.nbr >= 1 && r.size >= 1
    ensures var octets := Create(st, k, r).2;
            BlocksLeast(seg, r, octets)
            <==> TotSize(seg.next, r.nbr, r.size, AlignOf(r)) < ADDR_SPACE || OutOfReach(seg, octets)
  {
    hide Linked, SegsOk, Search, Create, Decide, TotSize;
    hide RunSucceeds, AlignOf, SegOk, PlanOnHeap, PlanOnSegment, BlocksLeast;
    HeadsHaveSegments(st);
    SegEmptyIs(st, k, r);
    PlaceSegOk(st, r);
    var octets := Create(st, k, r).2;
    BlocksMissing(st, r, place, seg, octets);
    BlocksLeastIff(seg, r, octets, TotSize(seg.next, r.nbr, r.size, AlignOf(r)));
  }

  /** What the checks found when SEG_EMPTY comes with a number of octets. */
  lemma SegEmptyIs(st: State, k: MemPool, r: Req)
    requires TableOk(st) && Create(st, k, r).1 == ErrSegEmpty && Create(st, k, r).2 > 0
    ensures st.heap in st.segs && r.nbr >= 1 && r.size >= 1 && r.base != NULL && r.memSize >= 1
    ensures var place := Search(st.heads, st.segs, r.base, r.memSize, 0);
            && (place.Share? ==> place.head in st.segs)
            && PlanOnSegment(st, r, place, PlaceSeg(st, r, place)) == Refuse(ErrSegEmpty, Create(st, k, r).2)
  {
    hide Linked, SegsOk, Search, Create, Decide, PlanOnHeap, PlanOnSegment;
    GoodArguments(st, k, r);
    RefusalIs(st, k, r);
    NeverSegEmptyOnHeap(st, r);
  }

  lemma GoodArguments(st: State, k: MemPool, r: Req)
    requires Linked(st) && (Create(st, k, r).1 == ErrHeapEmpty || Create(st, k, r).1 == ErrSegEmpty)
    ensures r.nbr >= 1 && r.size >= 1 && (r.base != NULL ==> r.memSize >= 1)
  {
    hide Linked, Search, PlanOnHeap, PlanOnSegment, Carve, AfterCarving, Link;
  }

  lemma BlocksMissing(st: State, r: Req, place: Place, seg: Seg, octets: Word)
    requires st.heap in st.segs && r.nbr >= 1 && r.size >= 1
    requires PlanOnSegment(st, r, place, seg) == Refuse(ErrSegEmpty, octets)
    ensures octets + seg.rem == Wrap(TotSize(seg.next, r.nbr, r.size, AlignOf(r)))
    ensures TableSize(st, r) <= st.segs[st.heap].rem
  {
    hide CalcTotSize, TotSize, Wrap, AlignOf, TableSize;
    CalcTotSizeWraps(seg.next, r.nbr, r.size, AlignOf(r));
  }

  lemma BlocksLeastIff(seg: Seg, r: Req, octets: Word, tot: int)
    requires SegOk(seg) && r.nbr >= 1 && r.size >= 1 && octets + seg.rem == Wrap(tot)
    requires tot == TotSize(seg.next, r.nbr, r.size, AlignOf(r))
    ensures BlocksLeast(seg, r, octets) <==> tot < ADDR_SPACE || OutOfReach(seg, octets)
  {
    hide SegOk, RunSucceeds, TotSize, Wrap, AlignOf;
    FrontIsNext(seg);
    TotalSmall(seg.next, r.nbr, r.size, AlignOf(r));
    forall extra: Word | seg.base + seg.tot + extra <= ADDR_SPACE
      ensures RunSucceeds(Extended(seg, extra), r.nbr, r.size, AlignOf(r)) <==> tot <= seg.rem + extra
    {
      ExtendedOk(seg, extra);
      RunSucceedsIff(Extended(seg, extra), r.nbr, r.size, AlignOf(r));
    }
    if !OutOfReach(seg, octets) {
      assert RunSucceeds(Extended(seg, octets), r.nbr, r.size, AlignOf(r)) <==> tot <= seg.rem + octets;
    }
  }

  lemma NeverSegEmptyOnHeap(st: State, r: Req)
    requires st.heap in st.segs
    ensures PlanOnHeap(st, r).Refuse? ==> PlanOnHeap(st, r).err == ErrHeapEmpty
  {
    hide CalcTotSize, Wrap;
  }

  /** HEAP_EMPTY for a pool on the heap: the octets returned are the least with which the
      heap could have held the table and the blocks together. */
  lemma HeapShortfallIff(st: State, k: MemPool, r: Req)
    requires TableOk(st) && r.base == NULL && Create(st, k, r).1 == ErrHeapEmpty
    ensures st.heap in st.segs && SegOk(st.segs[st.heap]) && r.nbr >= 1 && r.size >= 1
    ensures var heap, octets := st.segs[st.heap], Create(st, k, r).2;
            var start := Wrap(heap.next + TableSize(st, r));
            HeapLeast(heap, r, octets) <==>
            || (r.nbr < 0x4000_0000 && TableSize(st, r) + TotSize(start, r.nbr, r.size, AlignOf(r)) < ADDR_SPACE)
            || OutOfReach(heap, octets)
  {
    hide TableOk, Linked, SegsOk, SegOk, Create, Decide, PlanOnHeap, CalcTotSize, TotSize, Wrap, AlignOf, HeapLeast;
    HeapOk(st);
    TableOkLinked(st);
    GoodArguments(st, k, r);
    RefusalIs(st, k, r);
    var heap, size := st.segs[st.heap], TableSize(st, r);
    var start := Wrap(heap.next + size);
    var exact := size + TotSize(start, r.nbr, r.size, AlignOf(r));
    HeapCheck(st, r, start, exact);
    HeapLeastIff(heap, r, Create(st, k, r).2, size, start, exact);
  }

  /** What is missing behind the table, and what is reported, agree or do not. */
  lemma HeapLeastIff(heap: Seg, r: Req, octets: Word, size: Word, start: Word, exact: int)
    requires SegOk(heap) && r.nbr >= 1 && r.size >= 1 && octets >= 1
    requires size == CalcTotSize(heap.next, r.nbr, 4, 4) && start == Wrap(heap.next + size)
    requires exact == size + TotSize(start, r.nbr, r.size, AlignOf(r))
    requires exact >= octets + heap.rem || exact > heap.rem + ADDR_SPACE - heap.base - heap.tot
    ensures HeapLeast(heap, r, octets) <==>
            (r.nbr < 0x4000_0000 && exact == octets + heap.rem) || OutOfReach(heap, octets)
  {
    hide SegOk, HeapMeets, CalcTotSize, TotSize, Wrap, AlignOf;
    FrontIsNext(heap);
    forall extra: Word | heap.base + heap.tot + extra <= ADDR_SPACE
      ensures HeapMeets(Extended(heap, extra), r) <==> r.nbr < 0x4000_0000 && exact <= heap.rem + extra
    {
      HeapMeetsIff(heap, r, extra, size, start);
    }
    if !OutOfReach(heap, octets) {
      assert HeapMeets(Extended(heap, octets), r) <==> r.nbr < 0x4000_0000 && exact <= heap.rem + octets;
    }
  }

  /** The heap asked for by its own base and size: table and blocks have to come from it,
      but HEAP_EMPTY counts the table alone, and SEG_EMPTY the blocks alone. The octets
      are the least for both only if the blocks lie as without the table. */
  lemma HeapByAddressShortfallIff(st: State, k: MemPool, r: Req)
    requires TableOk(st) && r.base != NULL && Identical(r.base, r.memSize, st.segs[st.heap])
    requires Create(st, k, r).1 == ErrHeapEmpty || (Create(st, k, r).1 == ErrSegEmpty && Create(st, k, r).2 > 0)
    ensures st.heap in st.segs && SegOk(st.segs[st.heap]) && r.nbr >= 1 && r.size >= 1
    ensures var heap, octets, size := st.segs[st.heap], Create(st, k, r).2, TableSize(st, r);
            HeapLeast(heap, r, octets) <==>
            || (&& Create(st, k, r).1 == ErrSegEmpty && r.nbr < 0x4000_0000
                && TotSize(heap.next, r.nbr, r.size, AlignOf(r)) < ADDR_SPACE
                && AlignGap(heap.next, AlignOf(r)) == size + AlignGap(Wrap(heap.next + size), AlignOf(r)))
            || OutOfReach(heap, octets)
  {
    hide Linked, SegsOk, SegOk, Create, Decide, PlanOnHeap;
    hide CalcTotSize, TotSize, Wrap, AlignOf, HeapLeast, Search, AlignGap;
    HeapOk(st);
    GoodArguments(st, k, r);
    RefusalIs(st, k, r);
    var heap, size, octets := st.segs[st.heap], TableSize(st, r), Create(st, k, r).2;
    FrontIsNext(heap);
    IdenticalFound(st.heads, st.segs, r.base, r.memSize, st.heap);
    TableAndBlocks(st, r, Create(st, k, r).1, octets);
    var start := Wrap(heap.next + size);
    HeapLeastIff(heap, r, octets, size, start, size + TotSize(start, r.nbr, r.size, AlignOf(r)));
  }

  /** The two counts against what table and blocks need together. */
  lemma TableAndBlocks(st: State, r: Req, err: Err, octets: Word)
    requires st.heap in st.segs && SegOk(st.segs[st.heap]) && r.nbr >= 1 && r.size >= 1
    requires PlanOnSegment(st, r, Share(st.heap), st.segs[st.heap]) == Refuse(err, octets)
    ensures var heap, size, align := st.segs[st.heap], TableSize(st, r), AlignOf(r);
            var start, tot := Wrap(heap.next + size), TotSize(heap.next, r.nbr, r.size, align);
            var exact := size + TotSize(start, r.nbr, r.size, align);
            && octets >= 1 && (err == ErrHeapEmpty || err == ErrSegEmpty)
            && (exact >= octets + heap.rem || exact > heap.rem + ADDR_SPACE - heap.base - heap.tot)
            && (err == ErrHeapEmpty ==> exact > octets + heap.rem)
            && (err == ErrSegEmpty ==>
                  (exact == octets + heap.rem && !OutOfReach(heap, octets) <==>
                   && tot < ADDR_SPACE && AlignGap(heap.next, align) == size + AlignGap(start, align)
                   && !OutOfReach(heap, octets)))
  {
    hide CalcTotSize, TotSize, Wrap, AlignOf, TableSize, SegOk, AlignGap;
    var heap, size, align := st.segs[st.heap], TableSize(st, r), AlignOf(r);
    var start := Wrap(heap.next + size);
    FrontIsNext(heap);
    CalcTotSizeWraps(heap.next, r.nbr, r.size, align);
    TotalSmall(start, r.nbr, r.size, align);
    if err == ErrSegEmpty {
      TotBehind(heap, size, r.nbr, r.size, align, octets);
    }
  }

  /** A count of blocks alone, against one of blocks behind `size` octets. */
  lemma TotBehind(heap: Seg, size: Word, n: Word, blkSize: Word, align: Word, octets: Word)
    requires SegOk(heap) && n >= 1 && blkSize >= 1 && align >= 1 && size <= heap.rem && octets >= 1
    requires octets + heap.rem == Wrap(TotSize(heap.next, n, blkSize, align))
    ensures var start, tot := Wrap(heap.next + size), TotSize(heap.next, n, blkSize, align);
            var exact := size + TotSize(start, n, blkSize, align);
            && (exact >= octets + heap.rem || exact > heap.rem + ADDR_SPACE - heap.base - heap.tot)
            && (!OutOfReach(heap, octets) ==>
                  (exact == octets + heap.rem <==>
                   tot < ADDR_SPACE && AlignGap(heap.next, align) == size + AlignGap(start, align)))
  {
    hide TotSize, Wrap, SegOk, AlignGap;
    FrontIsNext(heap);
    TotalSmall(heap.next, n, blkSize, align);
    var start := Wrap(heap.next + size);
    TotDiffers(heap.next, start, n, blkSize, align);
    TotalSmall(start, n, blkSize, align);
    var tot, exact := TotSize(heap.next, n, blkSize, align), size + TotSize(start, n, blkSize, align);
    assert exact - tot == size + AlignGap(start, align) - AlignGap(heap.next, align);
    if heap.next + size < ADDR_SPACE {
      WrapSmall(heap.next + size);
      AlignMonotone(heap.next, start, align);
    }
  }

  lemma TotDiffers(a: Word, b: Word, n: nat, size: Word, align: Word)
    requires align >= 1
    ensures TotSize(b, n, size, align) - AlignGap(b, align) == TotSize(a, n, size, align) - AlignGap(a, align)
  {
    hide AlignGap, Stride;
  }

  /** The next aligned address does not fall when the address rises. */
  lemma AlignMonotone(a: Word, b: Word, align: Word)
    requires align >= 1 && a <= b
    ensures a + AlignGap(a, align) <= b + AlignGap(b, align)
  {
    var x, y := a + AlignGap(a, align), b + AlignGap(b, align);
    assert Multiple(x, align) && Multiple(y, align);
    assert x - y < align;
    hide AlignGap;
    if x > y {
      assert x - y == (x / align - y / align) * align;
      Arith.MulGrows(x / align - y / align, align);
    }
  }

  lemma TableOkLinked(st: State)
    requires TableOk(st)
    ensures Linked(st) && st.heads != []
  {
  }

  lemma HeapMeetsIff(heap: Seg, r: Req, extra: Word, size: Word, start: Word)
    requires SegOk(heap) && heap.base + heap.tot + extra <= ADDR_SPACE && r.nbr >= 1 && r.size >= 1
    requires size == CalcTotSize(heap.next, r.nbr, 4, 4) && start == Wrap(heap.next + size)
    ensures HeapMeets(Extended(heap, extra), r) <==>
            r.nbr < 0x4000_0000 && size + TotSize(start, r.nbr, r.size, AlignOf(r)) <= heap.rem + extra
  {
    hide CalcTotSize, TotSize, RunSucceeds, AlignOf, SegAlloc, AlignGap;
    var wider := Extended(heap, extra);
    ExtendedOk(heap, extra);
    TableFitsIff(wider, r);
    TotalSmall(start, r.nbr, r.size, AlignOf(r));
    if TableFits(wider, r) {
      var after := SegAlloc(wider, Wrap(4 * r.nbr), 4).0;
      AdvancedFront(wider, after, size);
      hide Wrap;
      RunSucceedsIff(after, r.nbr, r.size, AlignOf(r));
    }
  }

  // ---------------------------------------------------------------- success

  lemma HeapMeetsNowIff(heap: Seg, r: Req, size: Word, start: Word)
    requires SegOk(heap) && 1 <= r.nbr < 0x4000_0000 && r.size >= 1
    requires size == CalcTotSize(heap.next, r.nbr, 4, 4) && start == Wrap(heap.next + size)
    ensures HeapMeets(heap, r) <==> size + TotSize(start, r.nbr, r.size, AlignOf(r)) <= heap.rem
  {
    hide CalcTotSize, TotSize, HeapMeets, AlignOf, Wrap;
    assert Extended(heap, 0) == heap;
    HeapMeetsIff(heap, r, 0, size, start);
  }

  lemma HeapPlanIff(st: State, r: Req)
    requires st.heap in st.segs && SegOk(st.segs[st.heap]) && r.base == NULL
    requires 1 <= r.nbr < 0x4000_0000 && r.size >= 1
    requires PlanOnHeap(st, r).Go? ==> ExactSize(st, r, PlanOnHeap(st, r)) < ADDR_SPACE
    ensures PlanOnHeap(st, r).Go? <==> HeapMeets(st.segs[st.heap], r)
  {
    hide PlanOnHeap, CalcTotSize, TotSize, HeapMeets, Wrap, AlignOf, SegOk;
    var heap, size := st.segs[st.heap], TableSize(st, r);
    var start := Wrap(heap.next + size);
    HeapCheck(st, r, start, size + TotSize(start, r.nbr, r.size, AlignOf(r)));
    HeapMeetsNowIff(heap, r, size, start);
  }

  lemma SegmentPlanIff(st: State, r: Req, place: Place, seg: Seg)
    requires st.heap in st.segs && SegOk(st.segs[st.heap]) && SegOk(seg)
    requires 1 <= r.nbr < 0x4000_0000 && r.size >= 1 && r.base != NULL
    requires var plan := PlanOnSegment(st, r, place, seg); plan.Go? ==> ExactSize(st, r, plan) < ADDR_SPACE
    ensures PlanOnSegment(st, r, place, seg).Go? <==>
            TableFits(st.segs[st.heap], r) && RunSucceeds(seg, r.nbr, r.size, AlignOf(r))
  {
    hide CalcTotSize, TotSize, RunSucceeds, Wrap, AlignGap, SegAlloc;
    TableFitsIff(st.segs[st.heap], r);
    RunSucceedsIff(seg, r.nbr, r.size, AlignOf(r));
    CalcTotSizeWraps(seg.next, r.nbr, r.size, AlignOf(r));
    TotalSmall(seg.next, r.nbr, r.size, AlignOf(r));
  }

  /** The segment a place stands for. */
  function PlaceSeg(st: State, r: Req, place: Place): Seg
    requires place.Share? ==> place.head in st.segs
  {
    if place.Share? then st.segs[place.head] else Seg(r.base, r.memSize, r.base, r.memSize)
  }

  /** The memory that the request names can hold the table and all the blocks. */
  predicate MemorySuffices(st: State, r: Req)
    requires Linked(st) && st.heads != []
  {
    var heap := st.segs[st.heap];
    if r.base == NULL then HeapMeets(heap, r)
    else
      var place := Search(st.heads, st.segs, r.base, r.memSize, 0);
      && !place.Overlap? && TableFits(heap, r)
      && RunSucceeds(PlaceSeg(st, r, place), r.nbr, r.size, AlignOf(r))
  }

  lemma NullDecides(st: State, r: Req)
    requires Linked(st) && st.heads != [] && r.base == NULL && r.nbr >= 1 && r.size >= 1
    ensures st.heap in st.segs && Decide(st, r) == PlanOnHeap(st, r)
  {
    hide PlanOnHeap, PlanOnSegment, Search;
    HeadsHaveSegments(st);
  }

  lemma DecidesOnHeapIff(st: State, r: Req)
    requires TableOk(st) && SizesOk(st, r) && r.base == NULL && r.nbr >= 1 && r.size >= 1
    ensures Decide(st, r).Go? <==> MemorySuffices(st, r)
  {
    hide Linked, SegsOk, SegOk, Decide, PlanOnHeap, HeapMeets, ExactSize, AlignOf;
    HeapOk(st);
    NullDecides(st, r);
    HeapPlanIff(st, r);
  }

  lemma SegmentDecides(st: State, r: Req, place: Place)
    requires Linked(st) && st.heads != [] && r.base != NULL && r.memSize >= 1 && r.nbr >= 1 && r.size >= 1
    requires forall h :: h in st.heads ==> h in st.segs
    requires place == Search(st.heads, st.segs, r.base, r.memSize, 0)
    ensures st.heap in st.segs && (place.Share? ==> place.head in st.segs)
    ensures place.Overlap? ==> !Decide(st, r).Go?
    ensures !place.Overlap? ==> Decide(st, r) == PlanOnSegment(st, r, place, PlaceSeg(st, r, place))
  {
    HeadsHaveSegments(st);
    hide Linked, PlanOnHeap, PlanOnSegment, Search;
  }

  lemma DecidesOnSegmentIff(st: State, r: Req)
    requires TableOk(st) && SizesOk(st, r) && r.base != NULL && r.memSize >= 1 && r.nbr >= 1 && r.size >= 1
    ensures Decide(st, r).Go? <==> MemorySuffices(st, r)
  {
    hide Linked, SegsOk, SegOk, Decide, PlanOnSegment, TableFits, RunSucceeds, ExactSize, AlignOf, Search, Identical;
    HeapOk(st);
    HeadsHaveSegments(st);
    PlaceSegOk(st, r);
    var place := Search(st.heads, st.segs, r.base, r.memSize, 0);
    SegmentDecides(st, r, place);
    if !place.Overlap? {
      SegmentPlanIff(st, r, place, PlaceSeg(st, r, place));
    }
  }

  /** Unless sizes wrap, Mem_PoolCreate succeeds exactly when the arguments are
      good and the allocations that follow can all be met. */
  lemma CreateSucceedsIff(st: State, k: MemPool, r: Req)
    requires TableOk(st) && SizesOk(st, r)
    ensures Create(st, k, r).1 == ErrNone <==>
            r.nbr >= 1 && r.size >= 1 && (r.base != NULL ==> r.memSize >= 1) && MemorySuffices(st, r)
  {
    hide Linked, SegsOk, SizesOk, Decide, MemorySuffices, Create;
    ErrorsAreAtomic(st, k, r);
    if ArgError(st, r) != ErrNone {
      RefusedByArguments(st, k, r);
    } else if r.base == NULL {
      DecidesOnHeapIff(st, r);
    } else {
      DecidesOnSegmentIff(st, r);
    }
  }

  /** Some octet of the range belongs to a segment, and no segment is the range. */
  ghost predicate Clashes(st: State, r: Req)
    requires Linked(st)
  {
    && Meets(st.heads, st.segs, r.base, r.memSize)
    && (forall h :: h in st.heads ==> !Identical(r.base, r.memSize, st.segs[h]))
  }

  /** What Mem_PoolCreate has to report for good arguments: an overlap before a
      lack of heap, and that before a lack of segment. */
  ghost function DueError(st: State, r: Req): Err
    requires Linked(st) && st.heads != []
  {
    var heap := st.segs[st.heap];
    if r.base == NULL then if HeapMeets(heap, r) then ErrNone else ErrHeapEmpty
    else if Clashes(st, r) then ErrInvalidSegOverlap
    else if !TableFits(heap, r) then ErrHeapEmpty
    else
      var seg := PlaceSeg(st, r, Search(st.heads, st.segs, r.base, r.memSize, 0));
      if RunSucceeds(seg, r.nbr, r.size, AlignOf(r)) then ErrNone else ErrSegEmpty
  }

  /** Unless sizes wrap, the error says exactly what is wrong. */
  lemma CreateErrorIs(st: State, k: MemPool, r: Req)
    requires TableOk(st) && SizesOk(st, r)
    ensures Create(st, k, r).1 ==
            if r.base != NULL && r.memSize == 0 then ErrInvalidSegSize
            else if r.nbr == 0 then ErrInvalidBlkNbr
            else if r.size == 0 then ErrInvalidBlkSize
            else DueError(st, r)
  {
    hide SegsOk, Linked, HeapMeets, TableFits, RunSucceeds, Search, Create, ExactSize, Clashes, DueError;
    if ArgError(st, r) == ErrNone {
      CreateSucceedsIff(st, k, r);
      DecidedError(st, k, r);
      ErrorsAreAtomic(st, k, r);
      DueErrorIs(st, r);
    } else {
      RefusedByArguments(st, k, r);
    }
  }

  /** For every table, the empty one included, and every request: which argument is reported
      as bad, and when the table, and that nothing has changed then. */
  lemma ArgumentErrors(st: State, k: MemPool, r: Req)
    requires Linked(st)
    ensures var (next, err, octets) := Create(st, k, r);
            && (err == ErrInvalidSegSize <==> r.base != NULL && r.memSize == 0)
            && (err == ErrInvalidBlkNbr <==> (r.base == NULL || r.memSize >= 1) && r.nbr == 0)
            && (err == ErrInvalidBlkSize <==> (r.base == NULL || r.memSize >= 1) && r.nbr >= 1 && r.size == 0)
            && (err == ErrHeapNotFound <==>
                (r.base == NULL || r.memSize >= 1) && r.nbr >= 1 && r.size >= 1 && st.heads == [])
            && (err in {ErrInvalidSegSize, ErrInvalidBlkNbr, ErrInvalidBlkSize, ErrHeapNotFound} ==> next == st)
            && (err !in {ErrHeapEmpty, ErrSegEmpty} ==> octets == 0)
            && err in {ErrNone, ErrInvalidSegSize, ErrInvalidBlkNbr, ErrInvalidBlkSize, ErrHeapNotFound,
                       ErrInvalidSegOverlap, ErrHeapEmpty, ErrSegEmpty}
  {
    hide Linked, Create, Decide;
    CreateEnds(st, k, r);
    if ArgError(st, r) == ErrNone {
      GoodRefusal(st, r);
    } else {
      RefusedByArguments(st, k, r);
    }
  }

  /** A call that fails with the state changed says SEG_EMPTY and gives no number of octets. */
  lemma AbandonedIs(st: State, k: MemPool, r: Req)
    requires Linked(st)
    ensures var (next, err, octets) := Create(st, k, r);
            err != ErrNone && next != st ==> err == ErrSegEmpty && octets == 0
  {
    hide Create, Decide, Linked;
    CreateEnds(st, k, r);
  }

  /** How a call can end. */
  lemma CreateEnds(st: State, k: MemPool, r: Req)
    requires Linked(st)
    ensures Decide(st, r).Refuse? ==> Create(st, k, r) == (st, Decide(st, r).err, Decide(st, r).octets)
    ensures Decide(st, r).Go? ==> Create(st, k, r).1 in {ErrNone, ErrSegEmpty} && Create(st, k, r).2 == 0
  {
    hide Linked, Decide, Carve, AfterCarving, Link, NewPool;
  }

  /** Good arguments are refused for lack of memory or for an overlap. */
  lemma GoodRefusal(st: State, r: Req)
    requires Linked(st) && ArgError(st, r) == ErrNone
    ensures Decide(st, r).Refuse? ==> Decide(st, r).err in {ErrInvalidSegOverlap, ErrHeapEmpty, ErrSegEmpty}
    ensures Decide(st, r).Refuse? && Decide(st, r).err == ErrInvalidSegOverlap ==> Decide(st, r).octets == 0
  {
    hide Linked, CalcTotSize, Search, AlignOf;
  }

  lemma RefusedByArguments(st: State, k: MemPool, r: Req)
    requires Linked(st) && ArgError(st, r) != ErrNone
    ensures Create(st, k, r) == (st, ArgError(st, r), 0)
  {
    hide ArgError, Linked;
  }

  lemma DueErrorIs(st: State, r: Req)
    requires TableOk(st) && ArgError(st, r) == ErrNone
    requires r.base + r.memSize <= ADDR_SPACE || r.base == NULL
    ensures DueError(st, r) == ErrNone <==> MemorySuffices(st, r)
    ensures DueError(st, r) != ErrNone && r.base == NULL ==> DueError(st, r) == ErrHeapEmpty
    ensures DueError(st, r) != ErrNone && r.base != NULL ==>
              DueError(st, r) == if Search(st.heads, st.segs, r.base, r.memSize, 0).Overlap? then ErrInvalidSegOverlap
                                 else if TableFits(st.segs[st.heap], r) then ErrSegEmpty else ErrHeapEmpty
  {
    hide SegsOk, Linked, HeapMeets, TableFits, RunSucceeds, Search, Intersects;
    HeapOk(st);
    if r.base != NULL {
      OverlapIff(st.heads, st.segs, r.base, r.memSize);
    }
  }

  lemma PlaceSegOk(st: State, r: Req)
    requires Linked(st) && SegsOk(st.heads, st.segs)
    requires r.base != NULL && r.memSize >= 1 && r.base + r.memSize <= ADDR_SPACE
    ensures SegOk(PlaceSeg(st, r, Search(st.heads, st.segs, r.base, r.memSize, 0)))
  {
    hide Search;
  }

  /** Which error a refusal carries: by the table alone when memory is dedicated. */
  lemma DecidedError(st: State, k: MemPool, r: Req)
    requires Linked(st) && SegsOk(st.heads, st.segs) && r.nbr < 0x4000_0000 && ArgError(st, r) == ErrNone
    ensures Decide(st, r).Refuse? ==> Create(st, k, r).1 == Decide(st, r).err
    ensures Decide(st, r).Refuse? && r.base == NULL ==> Decide(st, r).err == ErrHeapEmpty
    ensures Decide(st, r).Refuse? && r.base != NULL ==>
              Decide(st, r).err == if Search(st.heads, st.segs, r.base, r.memSize, 0).Overlap? then ErrInvalidSegOverlap
                                   else if TableFits(st.segs[st.heap], r) then ErrSegEmpty else ErrHeapEmpty
  {
    hide SegsOk, Linked, Search, TableFits, Carve, AfterCarving, Link, CalcTotSize;
    HeapOk(st);
    TableFitsIff(st.segs[st.heap], r);
  }

  // ------------------------------------------------------ failure atomicity

  lemma {:induction false} RunStuck(s: Seg, n: nat, size: Word, align: Word)
    requires align >= 1 && SegAlloc(s, size, align) == (s, NULL)
    ensures AllocRun(s, n, size, align) == (s, [])
  {
    hide SegAlloc;
    if n > 0 {
      RunStuck(s, n - 1, size, align);
    }
  }

  lemma {:induction false} RunMoves(s: Seg, n: nat, size: Word, align: Word)
    requires SegOk(s) && size >= 1 && align >= 1 && size + align <= ADDR_SPACE && n >= 1
    requires AlignGap(s.next, align) + size <= s.rem
    ensures AllocRun(s, n, size, align).0.rem < s.rem
  {
    hide AlignGap, SegAlloc, Multiple, Carved;
    var s1 := AllocRun(s, n - 1, size, align).0;
    RunKeepsSegment(s, n - 1, size, align);
    SegAllocSound(s1, size, align);
    if n > 1 {
      RunMoves(s, n - 1, size, align);
    } else {
      assert s1 == s;
    }
  }

  /** The loop gets to its end exactly when the segment has what it needs. */
  lemma FullRunFits(s: Seg, n: nat, size: Word, align: Word)
    requires SegOk(s) && size >= 1 && align >= 1 && size + align <= ADDR_SPACE && n >= 1
    ensures |AllocRun(s, n, size, align).1| == n <==> TotSize(s.next, n, size, align) <= s.rem
  {
    hide AlignGap, TotSize, SegAlloc, AllocRun, Carved, Wrap;
    RunSucceedsIff(s, n, size, align);
    RunKeepsSegment(s, n, size, align);
    FrontIsNext(s);
    var (after, blocks) := AllocRun(s, n, size, align);
    CarvedFromNext(blocks, size, align, s, Front(after));
  }

  lemma CarvedFromNext(blocks: seq<Word>, size: Word, align: Word, s: Seg, hi: int)
    requires SegOk(s) && size >= 1 && align >= 1 && hi <= s.base + s.tot && Carved(blocks, size, align, Front(s), hi)
    ensures Carved(blocks, size, align, s.next, s.next + s.rem)
  {
    FrontIsNext(s);
    CarvedRoom(blocks, size, align, Front(s), hi);
    if s.next == Front(s) {
      CarvedWiden(blocks, size, align, s.next, hi, s.next + s.rem);
    }
  }

  lemma CarvedRoom(blocks: seq<Word>, size: Word, align: Word, lo: int, hi: int)
    requires align >= 1 && Carved(blocks, size, align, lo, hi)
    ensures blocks != [] ==> lo + size <= hi
  {
    if blocks != [] {
      assert lo <= blocks[0] && blocks[0] + size <= hi;
    }
  }

  /** The requests that Mem_PoolCreate gives up half-way, so that what it has taken by then
      is lost. Blocks from the heap do not fit behind the table, or, when the heap gives
      the table no octets, in the heap as it was. In any other segment the size of the
      blocks has no 32-bit value, and the table has taken some octets, or a block has. */
  predicate Leaks(st: State, r: Req)
    requires Linked(st) && st.heads != []
  {
    var plan, heap, size := Decide(st, r), st.segs[st.heap], TableSize(st, r);
    && plan.Go?
    && if plan.place == Share(st.heap) then
         if size == 0 || size > heap.rem then SomeFit(heap, r) else ShortBehind(heap, size, r)
       else ExactSize(st, r, plan) >= ADDR_SPACE && (size > 0 || BlocksTell(st, r, plan))
  }

  /** The blocks of an abandoned call have moved a segment of the table, or their
      addresses, stored where no octets belong to a table, have changed memory. */
  predicate BlocksTell(st: State, r: Req, plan: Plan)
    requires plan.Go? && st.heap in st.segs
  {
    if plan.place.Share? then AlignGap(plan.seg.next, AlignOf(r)) + r.size <= plan.seg.rem
    else
      var blocks := AllocRun(plan.seg, r.nbr, r.size, AlignOf(r)).1;
      StoreTable(st.cpu, st.mem, AllocTable(st, r).1, blocks) != st.mem
  }

  /** A first block fits in the segment, but not all of them. */
  predicate SomeFit(s: Seg, r: Req) {
    && AlignGap(s.next, AlignOf(r)) + r.size <= s.rem
    && TotSize(s.next, r.nbr, r.size, AlignOf(r)) > s.rem
  }

  /** The blocks do not fit in what `size` octets leave of the segment. */
  predicate ShortBehind(s: Seg, size: Word, r: Req) {
    TotSize(Wrap(s.next + size), r.nbr, r.size, AlignOf(r)) > s.rem - size
  }

  predicate Changed(st: State, k: MemPool, r: Req)
    requires Linked(st)
  {
    Create(st, k, r).1 != ErrNone && Create(st, k, r).0 != st
  }

  lemma TotalSmall(addr: Word, nbr: Word, size: Word, align: Word)
    requires align >= 1 && nbr >= 1
    ensures size <= TotSize(addr, nbr, size, align)
    ensures TotSize(addr, nbr, size, align) < ADDR_SPACE ==>
              Wrap(TotSize(addr, nbr, size, align)) == TotSize(addr, nbr, size, align)
  {
    hide AlignGap, TotSize;
    TotSizeStep(addr, nbr, size, align);
  }

  /** How a call that has passed the checks can end. */
  lemma GoEnds(st: State, k: MemPool, r: Req)
    requires Linked(st) && st.heads != [] && Decide(st, r).Go?
    ensures var plan := Decide(st, r);
            var c := Carve(st, r, plan.place, plan.seg);
            && (Create(st, k, r).1 == ErrNone <==> |c.blocks| == r.nbr)
            && (|c.blocks| != r.nbr ==> Create(st, k, r).0 == AfterCarving(st, plan.place, c))
  {
    hide Decide, Linked, AfterCarving, Link, AllocTable, NewPool;
  }

  /** What is left of the heap tells whether an abandoned call has changed the state. */
  lemma HeapTellsChange(st: State, place: Place, c: Carving)
    requires st.heap in st.segs && (place.Share? ==> place.head in st.segs)
    requires place == Share(st.heap) ==> c.seg == c.heapSeg
    ensures c.heapSeg != st.segs[st.heap] ==> AfterCarving(st, place, c) != st
    ensures c.heapSeg == st.segs[st.heap] && place == Share(st.heap) && c.blocks == [] ==>
              AfterCarving(st, place, c) == st
  {
    assert AfterCarving(st, place, c).segs[st.heap] == c.heapSeg;
    assert c.heapSeg == st.segs[st.heap] && place == Share(st.heap) ==> AfterCarving(st, place, c).segs == st.segs;
  }

  /** The same for an abandoned call whose table has taken nothing. */
  lemma BlocksTellChange(st: State, r: Req, plan: Plan)
    requires st.heap in st.segs && plan.Go? && plan.place != Share(st.heap) && !plan.place.Overlap?
    requires plan.place.Share? ==> plan.place.head in st.segs && plan.seg == st.segs[plan.place.head]
    requires SegOk(plan.seg) && r.nbr >= 1 && r.size >= 1 && r.size + AlignOf(r) <= ADDR_SPACE
    requires Carve(st, r, plan.place, plan.seg).heapSeg == st.segs[st.heap]
    ensures AfterCarving(st, plan.place, Carve(st, r, plan.place, plan.seg)) != st <==> BlocksTell(st, r, plan)
  {
    hide SegOk, AllocTable, AllocRun, AlignOf, AlignGap, SegAlloc, StoreTable;
    var seg, align := plan.seg, AlignOf(r);
    var (after, blocks) := AllocRun(seg, r.nbr, r.size, align);
    StoreNothing(st.cpu, st.mem, AllocTable(st, r).1);
    SegAllocSound(seg, r.size, align);
    if plan.place.Share? {
      if AlignGap(seg.next, align) + r.size <= seg.rem {
        RunMoves(seg, r.nbr, r.size, align);
        assert AfterCarving(st, plan.place, Carve(st, r, plan.place, seg)).segs[plan.place.head] == after;
      } else {
        RunStuck(seg, r.nbr, r.size, align);
        assert AfterCarving(st, plan.place, Carve(st, r, plan.place, seg)).segs == st.segs;
      }
    } else {
      assert AfterCarving(st, plan.place, Carve(st, r, plan.place, seg)).segs == st.segs;
    }
  }

  lemma StoreNothing(cpu: Endian, m: Mem, ptrs: Word)
    ensures StoreTable(cpu, m, ptrs, []) == m
  {
  }

  lemma LeakOnSegment(st: State, k: MemPool, r: Req)
    requires TableOk(st) && Decide(st, r).Go? && r.size + AlignOf(r) <= ADDR_SPACE
    requires r.base != NULL && r.base + r.memSize <= ADDR_SPACE && !Identical(r.base, r.memSize, st.segs[st.heap])
    ensures Decide(st, r).place != Share(st.heap) && st.heap in st.segs
    ensures Changed(st, k, r) <==> ExactSize(st, r, Decide(st, r)) >= ADDR_SPACE
                                   && (TableSize(st, r) > 0 || BlocksTell(st, r, Decide(st, r)))
  {
    hide Decide, Linked, SegsOk, FitsAt, AfterCarving, Create, BlocksTell;
    hide CalcTotSize, TotSize, AllocTable, AllocRun, SegOk, Wrap, AlignOf, TableSize;
    HeapOk(st);
    DecidedPlace(st, r);
    var plan := Decide(st, r);
    GoEnds(st, k, r);
    var c := Carve(st, r, plan.place, plan.seg);
    HeapTellsChange(st, plan.place, c);
    SegmentTotal(st, r, plan.place, plan.seg);
    TableTaken(st, r);
    FullRunFits(plan.seg, r.nbr, r.size, AlignOf(r));
    if TableSize(st, r) == 0 {
      BlocksTellChange(st, r, plan);
    }
  }

  /** A size that passed the check of a segment does not fit exactly when it has wrapped. */
  lemma SegmentTotal(st: State, r: Req, place: Place, seg: Seg)
    requires st.heap in st.segs && r.nbr >= 1 && PlanOnSegment(st, r, place, seg).Go?
    ensures TableSize(st, r) <= st.segs[st.heap].rem
    ensures TotSize(seg.next, r.nbr, r.size, AlignOf(r)) > seg.rem
            <==> TotSize(seg.next, r.nbr, r.size, AlignOf(r)) >= ADDR_SPACE
  {
    hide CalcTotSize, TotSize, Wrap, AlignOf, TableSize;
    CalcTotSizeWraps(seg.next, r.nbr, r.size, AlignOf(r));
    TotalSmall(seg.next, r.nbr, r.size, AlignOf(r));
  }

  /** A table that passed its check takes the octets that were predicted. */
  lemma TableTaken(st: State, r: Req)
    requires st.heap in st.segs && SegOk(st.segs[st.heap]) && r.nbr >= 1
    requires TableSize(st, r) <= st.segs[st.heap].rem
    ensures var heap, from := st.segs[st.heap], AllocTable(st, r).0;
            && Advanced(heap, from, TableSize(st, r)) && (from == heap <==> TableSize(st, r) == 0)
            && from.next == Wrap(heap.next + TableSize(st, r))
  {
    hide CalcTotSize, AlignGap, Wrap, SegOk;
    var heap := st.segs[st.heap];
    TableSizeExactIff(heap.next, r.nbr);
    TableSum(heap.next, Wrap(4 * r.nbr), r.nbr);
    FrontIsNext(heap);
    FrontMoves(heap, TableSize(st, r));
  }

  lemma TableSum(next: Word, entries: Word, nbr: Word)
    requires entries == Wrap(4 * nbr)
    ensures Wrap(AlignGap(next, 4) + entries) == AlignGap(next, 4) + entries
  {
    assert entries % 4 == 0;
    assert AlignGap(next, 4) < 4;
    hide AlignGap, Wrap;
    WrapSmall(AlignGap(next, 4) + entries);
  }

  /** A segment with `n` more octets taken is sound. */
  lemma FrontMoves(s: Seg, n: Word)
    requires SegOk(s) && n <= s.rem
    ensures SegOk(Seg(s.base, s.tot, Wrap(s.next + n), s.rem - n))
    ensures n == 0 ==> Wrap(s.next + n) == s.next
  {
    FrontIsNext(s);
    WrapSmall(s.next);
  }

  /** How a call that carves blocks from the heap can end. */
  lemma HeapCallEnds(st: State, k: MemPool, r: Req)
    requires TableOk(st) && Decide(st, r).Go? && Decide(st, r).place == Share(st.heap)
    ensures st.heap in st.segs && SegOk(st.segs[st.heap]) && r.nbr >= 1 && r.size >= 1
    ensures var (after, blocks) := AllocRun(AllocTable(st, r).0, r.nbr, r.size, AlignOf(r));
            && (|blocks| == r.nbr ==> !Changed(st, k, r))
            && (|blocks| != r.nbr && after != st.segs[st.heap] ==> Changed(st, k, r))
            && (|blocks| != r.nbr && after == st.segs[st.heap] && blocks == [] ==> !Changed(st, k, r))
  {
    hide Decide, Linked, SegsOk, AfterCarving, Create, AllocTable, AllocRun, SegOk, AlignOf;
    HeapOk(st);
    GoEnds(st, k, r);
    var plan := Decide(st, r);
    HeapTellsChange(st, plan.place, Carve(st, r, plan.place, plan.seg));
  }

  /** For blocks on the heap: with the table carved in front of them, whoever asked. */
  lemma LeakBehindTable(st: State, k: MemPool, r: Req)
    requires TableOk(st) && Decide(st, r).Go? && Decide(st, r).place == Share(st.heap)
    requires r.size + AlignOf(r) <= ADDR_SPACE && 0 < TableSize(st, r) <= st.segs[st.heap].rem
    ensures Changed(st, k, r) <==> ShortBehind(st.segs[st.heap], TableSize(st, r), r)
  {
    hide TableOk, Decide, Linked, SegsOk, Changed, TableSize;
    hide TotSize, AllocTable, AllocRun, SegOk, Wrap, AlignOf, Carved;
    HeapCallEnds(st, k, r);
    TableTaken(st, r);
    var from := AllocTable(st, r).0;
    FullRunFits(from, r.nbr, r.size, AlignOf(r));
    RunKeepsSegment(from, r.nbr, r.size, AlignOf(r));
  }

  /** A table that passed its check only because a size wrapped takes nothing: it is too
      large for the heap, and then at NULL, or its own size has wrapped to 0. The
      blocks are carved in its place. */
  lemma LeakWithoutTable(st: State, k: MemPool, r: Req)
    requires TableOk(st) && Decide(st, r).Go? && Decide(st, r).place == Share(st.heap)
    requires r.size + AlignOf(r) <= ADDR_SPACE && (TableSize(st, r) == 0 || TableSize(st, r) > st.segs[st.heap].rem)
    ensures Changed(st, k, r) <==> SomeFit(st.segs[st.heap], r)
  {
    hide TableOk, Decide, Linked, SegsOk, Changed, TableSize;
    hide TotSize, AllocTable, AllocRun, SegOk, AlignOf, AlignGap, SegAlloc;
    HeapCallEnds(st, k, r);
    if TableSize(st, r) == 0 {
      TableTaken(st, r);
    } else {
      TableRefused(st, r);
    }
    var heap, align := st.segs[st.heap], AlignOf(r);
    FullRunFits(heap, r.nbr, r.size, align);
    SegAllocSound(heap, r.size, align);
    if AlignGap(heap.next, align) + r.size <= heap.rem {
      RunMoves(heap, r.nbr, r.size, align);
    } else {
      RunStuck(heap, r.nbr, r.size, align);
    }
  }

  lemma TableRefused(st: State, r: Req)
    requires st.heap in st.segs && r.nbr >= 1 && TableSize(st, r) > st.segs[st.heap].rem
    ensures AllocTable(st, r) == (st.segs[st.heap], NULL)
  {
    hide CalcTotSize, AlignGap, Wrap;
    TableSizeExactIff(st.segs[st.heap].next, r.nbr);
  }

  lemma HeapByAddressPlan(st: State, r: Req)
    requires TableOk(st) && Decide(st, r).Go?
    requires r.base != NULL && Identical(r.base, r.memSize, st.segs[st.heap])
    ensures Decide(st, r).place == Share(st.heap) && TableSize(st, r) <= st.segs[st.heap].rem
  {
    hide SegsOk, Search, CalcTotSize, Identical;
    IdenticalFound(st.heads, st.segs, r.base, r.memSize, st.heap);
  }

  /** A pool on the heap by a NULL base: the 32-bit size of table and blocks passed the
      check, so the blocks do not fit behind the table exactly when the exact size of
      both has no 32-bit value. */
  lemma HeapPlanWraps(st: State, r: Req)
    requires TableOk(st) && Decide(st, r).Go? && r.base == NULL
    requires TableSize(st, r) <= st.segs[st.heap].rem
    ensures var plan, heap, size := Decide(st, r), st.segs[st.heap], TableSize(st, r);
            && plan.place == Share(st.heap)
            && (ShortBehind(heap, size, r) <==> ExactSize(st, r, plan) >= ADDR_SPACE)
  {
    hide TableOk, Decide, Linked, SegsOk, PlanOnHeap, TableSize, TotSize, Wrap, AlignOf, SegOk;
    HeapOk(st);
    TableOkLinked(st);
    NullMeansHeap(st, r);
    var start := Wrap(st.segs[st.heap].next + TableSize(st, r));
    HeapCheck(st, r, start, TableSize(st, r) + TotSize(start, r.nbr, r.size, AlignOf(r)));
  }

  /** Mem_PoolCreate fails and leaves the segments, the links, the pools or memory
      changed exactly when the request leaks. */
  lemma FailureAtomicIff(st: State, k: MemPool, r: Req)
    requires TableOk(st) && r.size + AlignOf(r) <= ADDR_SPACE
    requires r.base != NULL ==> r.base + r.memSize <= ADDR_SPACE
    ensures Changed(st, k, r) <==> Leaks(st, r)
  {
    hide SegsOk, Linked, Changed, Decide, TableSize, ExactSize, SomeFit, ShortBehind, AlignOf, SegOk, BlocksTell;
    HeapOk(st);
    if !Decide(st, r).Go? {
      RefusedUnchanged(st, k, r);
    } else if r.base != NULL && !Identical(r.base, r.memSize, st.segs[st.heap]) {
      LeakOnSegment(st, k, r);
    } else {
      BlocksOnHeap(st, r);
      if TableSize(st, r) == 0 || TableSize(st, r) > st.segs[st.heap].rem {
        LeakWithoutTable(st, k, r);
      } else {
        LeakBehindTable(st, k, r);
      }
    }
  }

  lemma BlocksOnHeap(st: State, r: Req)
    requires TableOk(st) && Decide(st, r).Go?
    requires r.base == NULL || Identical(r.base, r.memSize, st.segs[st.heap])
    ensures Decide(st, r).place == Share(st.heap)
  {
    hide TableOk, Linked, SegsOk, Decide, Identical;
    TableOkLinked(st);
    if r.base == NULL {
      NullMeansHeap(st, r);
    } else {
      HeapByAddressPlan(st, r);
    }
  }

  lemma RefusedUnchanged(st: State, k: MemPool, r: Req)
    requires Linked(st) && !Decide(st, r).Go?
    ensures !Changed(st, k, r)
  {
    hide Linked, Decide;
  }

  lemma NullMeansHeap(st: State, r: Req)
    requires Linked(st) && st.heads != [] && Decide(st, r).Go? && r.base == NULL
    ensures st.heap in st.segs && r.nbr >= 1 && r.size >= 1
    ensures Decide(st, r) == PlanOnHeap(st, r) && Decide(st, r).place == Share(st.heap)
  {
    hide Linked, PlanOnHeap, PlanOnSegment, Search;
    HeadsHaveSegments(st);
  }
}
