/** Mem_PoolCreate keeps the invariant: what it carves was free before. */
module PoolCreation {
  import opened Machine
  import opened Segments
  import opened BlockCheck
  import opened PoolRecord
  import opened PoolTable
  import opened PoolSearch
  import opened PoolMemory
  import opened PoolCarving
  import opened PoolLinks
  import opened PoolSafety

  predicate Grown(s: Seg, t: Seg) {
    SegOk(t) && t.base == s.base && t.tot == s.tot && t.rem <= s.rem
  }

  // -------------------------------------------------------- the segments

  lemma GrownSegsOk(heads: seq<MemPool>, segs: map<MemPool, Seg>, next: map<MemPool, Seg>)
    requires SegsOk(heads, segs)
    requires forall h :: h in heads ==> h in next && Grown(segs[h], next[h])
    ensures SegsOk(heads, next)
  {
    forall i, j | 0 <= i < j < |heads|
      ensures next[heads[i]].base + next[heads[i]].tot <= next[heads[j]].base
    {
      assert Grown(segs[heads[i]], next[heads[i]]) && Grown(segs[heads[j]], next[heads[j]]);
    }
  }

  lemma InsertedSegsOk(heads: seq<MemPool>, segs: map<MemPool, Seg>, k: MemPool, seg: Seg, at: nat)
    requires SegsOk(heads, segs) && k !in heads && at <= |heads|
    requires SegOk(seg) && seg.tot >= 1 && FitsAt(heads, segs, seg.base, seg.tot, at)
    ensures SegsOk(InsertAt(heads, at, k), segs[k := seg])
  {
    var next, wider := InsertAt(heads, at, k), segs[k := seg];
    InsertAtMembers(heads, at, k);
    hide InsertAt, SegOk;
    forall i | 0 <= i < |heads|
      ensures wider[heads[i]] == segs[heads[i]]
    {
      assert heads[i] in heads;
    }
    forall i, j | 0 <= i < j < |next|
      ensures wider[next[i]].base + wider[next[i]].tot <= wider[next[j]].base
    {
      InsertedAt(heads, at, k, i);
      InsertedAt(heads, at, k, j);
    }
  }

  lemma InsertedAt(heads: seq<MemPool>, at: nat, k: MemPool, i: nat)
    requires at <= |heads| && i <= |heads|
    ensures |InsertAt(heads, at, k)| == |heads| + 1
    ensures InsertAt(heads, at, k)[i] == if i < at then heads[i] else if i == at then k else heads[i - 1]
  {
  }

  /** Regions of different segments share no octet. */
  lemma OtherSegment(heads: seq<MemPool>, segs: map<MemPool, Seg>, g: MemPool, h: MemPool,
                     lo1: int, n1: int, lo2: int, n2: int)
    requires SegsOk(heads, segs) && g in heads && h in heads && g != h
    requires InSegment(lo1, n1, segs[g]) && InSegment(lo2, n2, segs[h])
    ensures Apart(lo1, n1, lo2, n2)
  {
    var i :| 0 <= i < |heads| && heads[i] == g;
    var j :| 0 <= j < |heads| && heads[j] == h;
    assert SegOk(segs[g]) && SegOk(segs[h]);
    if i < j {
      assert segs[heads[i]].base + segs[heads[i]].tot <= segs[heads[j]].base;
    } else {
      assert segs[heads[j]].base + segs[heads[j]].tot <= segs[heads[i]].base;
    }
  }

  // --------------------------------------------------------- the new pool

  /** The regions of the new pool `k` lie where nothing was carved before. */
  ghost predicate NewRegions(st: State, next: State, k: MemPool)
    requires k in next.pools
  {
    var added := next.pools[k];
    && st.heap in st.segs && next.heap == st.heap && added.seg in next.segs
    && (forall h :: h in st.segs ==> h in next.segs && Grown(st.segs[h], next.segs[h]))
    && Front(st.segs[st.heap]) <= added.ptrs
    && (added.seg in st.segs ==> Front(st.segs[added.seg]) <= added.start)
    && (added.seg == st.heap ==> added.ptrs + 4 * added.blkNbr <= added.start)
  }

  lemma PoolOkGrown(p: Pool, heap: Seg, seg: Seg, heap': Seg, seg': Seg)
    requires PoolOk(p, heap, seg) && Grown(heap, heap') && Grown(seg, seg')
    ensures PoolOk(p, heap', seg')
  {
    hide BodyOk, PaddingRejected, TotSize;
  }

  lemma PoolRegions(p: Pool, heap: Seg, seg: Seg)
    requires PoolOk(p, heap, seg)
    ensures InSegment(p.start, p.poolSize, seg) && InSegment(p.ptrs, 4 * p.blkNbr, heap)
  {
  }

  /** The new regions are clear of those of an old pool. */
  lemma NewPoolApart(st: State, next: State, k: MemPool, q: MemPool)
    requires Linked(next) && SegsOk(next.heads, next.segs) && PoolsOk(st) && PoolsOk(next)
    requires k in next.pools && NewRegions(st, next, k)
    requires q in st.pools && q in next.pools && next.pools[q] == st.pools[q]
    ensures TablesApart(next.pools[k], st.pools[q]) && BodiesApart(next.pools[k], st.pools[q])
    ensures TableOffBody(next.pools[k], st.pools[q]) && TableOffBody(st.pools[q], next.pools[k])
  {
    hide PoolOk, SegsOk;
    var p, o := next.pools[k], st.pools[q];
    PoolRegions(p, next.segs[next.heap], next.segs[p.seg]);
    PoolRegions(o, next.segs[next.heap], next.segs[o.seg]);
    PoolRegions(o, st.segs[st.heap], st.segs[o.seg]);
    if o.seg != p.seg {
      OtherSegment(next.heads, next.segs, p.seg, o.seg, p.start, p.poolSize, o.start, o.poolSize);
    }
    if o.seg != st.heap {
      OtherSegment(next.heads, next.segs, next.heap, o.seg, p.ptrs, 4 * p.blkNbr, o.start, o.poolSize);
    }
    if p.seg != st.heap {
      OtherSegment(next.heads, next.segs, next.heap, p.seg, o.ptrs, 4 * o.blkNbr, p.start, p.poolSize);
    }
  }

  lemma NewPoolOffItself(st: State, next: State, k: MemPool)
    requires Linked(next) && SegsOk(next.heads, next.segs) && PoolsOk(next)
    requires k in next.pools && NewRegions(st, next, k)
    ensures TableOffBody(next.pools[k], next.pools[k])
  {
    hide PoolOk, SegsOk;
    var p := next.pools[k];
    PoolRegions(p, next.segs[next.heap], next.segs[p.seg]);
    if p.seg != st.heap {
      OtherSegment(next.heads, next.segs, next.heap, p.seg, p.ptrs, 4 * p.blkNbr, p.start, p.poolSize);
    }
  }

  lemma SeparateWithNew(st: State, next: State, k: MemPool)
    requires Separate(st.pools) && PoolsOk(st) && PoolsOk(next)
    requires Linked(next) && SegsOk(next.heads, next.segs)
    requires k in next.pools && k !in st.pools && next.pools == st.pools[k := next.pools[k]]
    requires NewRegions(st, next, k)
    ensures Separate(next.pools)
  {
    hide TablesApart, BodiesApart, TableOffBody, PoolsOk, NewRegions, SegsOk, Linked;
    NewPoolOffItself(st, next, k);
    forall q | q in st.pools
      ensures TablesApart(next.pools[k], st.pools[q]) && BodiesApart(next.pools[k], st.pools[q])
      ensures TablesApart(st.pools[q], next.pools[k]) && BodiesApart(st.pools[q], next.pools[k])
      ensures TableOffBody(next.pools[k], st.pools[q]) && TableOffBody(st.pools[q], next.pools[k])
    {
      NewPoolApart(st, next, k, q);
      ApartSymmetric(next.pools[k], st.pools[q]);
    }
  }

  lemma ApartSymmetric(p: Pool, q: Pool)
    ensures TablesApart(p, q) <==> TablesApart(q, p)
    ensures BodiesApart(p, q) <==> BodiesApart(q, p)
  {
  }

  /** A fresh pool: every block is on the stack and none is held. */
  lemma FreshPartition(p: Pool, blocks: seq<Word>)
    requires BodyOk(p.start, p.blkNbr, p.blkSize, p.align) && |blocks| == p.blkNbr
    requires forall i :: 0 <= i < |blocks| ==> blocks[i] == BlockAt(p.start, p.blkSize, p.align, i)
    ensures Partition(blocks, {}, p)
  {
    hide BlockAt, TotSize;
    forall i, j | 0 <= i < j < |blocks|
      ensures blocks[i] != blocks[j]
    {
      StrideBounds(p.blkSize, p.align);
      BlocksApart(p.start, p.blkSize, p.align, i, j);
    }
    forall b: Word | IsBlockOf(p, b)
      ensures b in blocks
    {
      var i :| 0 <= i < p.blkNbr && b == BlockAt(p.start, p.blkSize, p.align, i);
      assert blocks[i] == b;
    }
  }

  // -------------------------------------------------- Mem_PoolCreate as a whole

  /** A record that is not linked, and sizes that do not wrap if the checks let the
      request pass: enough for the call to end well. */
  ghost predicate Carvable(st: State, k: MemPool, r: Req) {
    && TableOk(st)
    && k !in st.pools && k != st.heap
    && (Decide(st, r).Go? ==> SizesOk(st, r))
  }

  /** A request that the checks refuse may be any; one that passes has to be within the limits. */
  ghost predicate Creatable(st: State, k: MemPool, r: Req) {
    Carvable(st, k, r) && (Decide(st, r).Go? ==> WithinLimits(st, r))
  }

  /** The index counts the blocks, and the address check tells them from padding. */
  predicate Countable(r: Req, plan: Plan)
    requires plan.Go?
  {
    r.nbr <= 0xFFFF && (r.size >= 1 ==> PaddingRejected(plan.start, r.size, AlignOf(r)))
  }

  /** What is known when the blocks are carved and the record is about to be linked. */
  ghost predicate Ready(st: State, k: MemPool, r: Req, plan: Plan, c: Carving) {
    && HeadsLinked(st) && st.heads != [] && SegsOk(st.heads, st.segs) && k !in st.heads && k != st.heap
    && 1 <= r.nbr < 0x4000_0000 && r.size >= 1 && r.size + AlignOf(r) <= ADDR_SPACE
    && plan.Go? && CarvedAsPlanned(st, r, plan, c)
    && (match plan.place
        case Share(h) => h in st.heads && plan.seg == st.segs[h]
        case Insert(at) =>
          at <= |st.heads| && plan.seg.tot >= 1 && FitsAt(st.heads, st.segs, plan.seg.base, plan.seg.tot, at)
        case Overlap => false)
  }

  lemma ReadyToLink(st: State, k: MemPool, r: Req)
    requires Carvable(st, k, r) && Decide(st, r).Go?
    ensures Ready(st, k, r, Decide(st, r), Carve(st, r, Decide(st, r).place, Decide(st, r).seg))
  {
    FreshIsNoHead(st, k);
    CarvesAsPlanned(st, r);
    DecidedPlace(st, r);
    assert HeadsLinked(st) && st.heap in st.segs;
    hide CarvedAsPlanned, FitsAt, SegsOk, Carve, PlanOnSegment, PlanOnHeap;
    hide Decide, Linked, ExactSize, HeadsLinked;
    RequestSizes(st, r);
  }

  lemma RequestSizes(st: State, r: Req)
    requires Linked(st) && Decide(st, r).Go?
    ensures r.base != NULL ==> r.memSize >= 1
  {
    hide PlanOnHeap, PlanOnSegment, Search;
  }

  /** The state a successful call leaves. */
  function Created(st: State, k: MemPool, r: Req, plan: Plan, c: Carving): State
    requires plan.Go? && !plan.place.Overlap?
    requires plan.place.Share? ==> plan.place.head in st.cols && |st.cols[plan.place.head]| >= 1
    requires plan.place.Insert? ==> plan.place.at <= |st.heads|
  {
    Link(AfterCarving(st, plan.place, c), k, plan.place, c.seg, NewPool(k, r, plan, c.table))
  }

  lemma SharedColumnExists(st: State, place: Place)
    requires Linked(st) && place.Share? && place.head in st.heads
    ensures place.head in st.cols && |st.cols[place.head]| >= 1
  {
    assert ColumnLinked(st, place.head);
  }

  lemma NewPoolOk(st: State, k: MemPool, r: Req, plan: Plan, c: Carving)
    requires Ready(st, k, r, plan, c) && Countable(r, plan)
    ensures PoolOk(NewPool(k, r, plan, c.table), c.heapSeg, c.seg)
  {
    hide SegsOk, FitsAt, PaddingRejected, TotSize, CarvedAsPlanned, SegOk, NewPool, AlignOf;
    CarvedFronts(st, k, r, plan, c);
    NewPoolFields(k, r, plan, c.table);
  }

  lemma NewPoolFields(k: MemPool, r: Req, plan: Plan, table: Word)
    requires plan.Go? && 1 <= r.nbr <= 0xFFFF && 1 <= plan.start + plan.total <= ADDR_SPACE
    ensures var p := NewPool(k, r, plan, table);
            && p.start == plan.start && p.poolSize == plan.total && p.end == plan.start + plan.total - 1
            && p.ptrs == table && p.align == AlignOf(r) && p.blkSize == r.size && p.blkNbr == p.blkIx == r.nbr
  {
    hide Wrap, AlignOf;
    WrapSmall(plan.start + plan.total - 1);
  }

  /** Where the carved regions lie, as plain numbers. */
  lemma CarvedFronts(st: State, k: MemPool, r: Req, plan: Plan, c: Carving)
    requires Ready(st, k, r, plan, c)
    ensures var heap := st.segs[st.heap];
            && SegOk(c.heapSeg) && SegOk(c.seg)
            && c.heapSeg.base == heap.base && c.heapSeg.tot == heap.tot && 1 <= heap.base <= Front(heap)
            && Front(heap) <= c.table && c.table + 4 * r.nbr <= Front(c.heapSeg) <= ADDR_SPACE
            && (plan.place == Share(st.heap) ==> c.heapSeg == c.seg && c.table + 4 * r.nbr <= plan.start)
    ensures c.seg.base <= plan.start && plan.start + plan.total == Front(c.seg) <= ADDR_SPACE && 1 <= plan.start
    ensures plan.total == TotSize(plan.start, r.nbr, r.size, AlignOf(r)) >= 1
    ensures plan.place != Share(st.heap) ==>
              c.seg.base == plan.seg.base && c.seg.tot == plan.seg.tot && Front(plan.seg) == plan.start
  {
    var heap, from := st.segs[st.heap], BlockSeg(st, r, plan.place, plan.seg);
    assert SegOk(heap);
    TotSizeStep(plan.start, r.nbr, r.size, AlignOf(r));
    hide SegsOk, FitsAt, AlignGap, TotSize, BlockAt, AllocTable, Wrap;
    var gap := AlignGap(heap.next, 4);
    var heapAfterTable := if plan.place == Share(st.heap) then from else c.heapSeg;
    AdvancedFront(heap, heapAfterTable, gap + 4 * r.nbr);
    AdvancedFront(from, c.seg, plan.total);
  }

  /** The heap and the segment of the blocks have grown. */
  lemma CarvingGrows(st: State, k: MemPool, r: Req, plan: Plan, c: Carving)
    requires Ready(st, k, r, plan, c)
    ensures Grown(st.segs[st.heap], c.heapSeg)
    ensures plan.place.Share? ==> Grown(st.segs[plan.place.head], c.seg)
    ensures plan.place.Insert? ==> SegOk(c.seg) && c.seg.base == plan.seg.base && c.seg.tot == plan.seg.tot
    ensures plan.place == Share(st.heap) ==> c.heapSeg == c.seg
    ensures Front(st.segs[st.heap]) <= c.table
    ensures plan.place.Share? ==> Front(st.segs[plan.place.head]) <= plan.start
    ensures plan.place == Share(st.heap) ==> c.table + 4 * r.nbr <= plan.start
  {
    hide SegsOk, FitsAt, TotSize, CarvedAsPlanned, SegOk;
    CarvedFronts(st, k, r, plan, c);
    if plan.place == Share(st.heap) {
      assert c.heapSeg == c.seg;
    }
  }

  lemma CarvedSegsOk(st: State, place: Place, c: Carving)
    requires HeadsLinked(st) && st.heads != [] && SegsOk(st.heads, st.segs)
    requires st.heap in st.segs && Grown(st.segs[st.heap], c.heapSeg)
    requires place.Share? ==> place.head in st.segs && Grown(st.segs[place.head], c.seg)
    requires place == Share(st.heap) ==> c.heapSeg == c.seg
    requires place.Insert? ==> FitsAt(st.heads, st.segs, c.seg.base, c.seg.tot, place.at)
    ensures var carved := AfterCarving(st, place, c);
            && SegsOk(st.heads, carved.segs)
            && (place.Insert? ==> FitsAt(st.heads, carved.segs, c.seg.base, c.seg.tot, place.at))
            && (forall h :: h in st.segs ==> h in carved.segs && Grown(st.segs[h], carved.segs[h]))
  {
    assert forall h :: h in st.segs ==> SegOk(st.segs[h]);
    hide SegOk, SegsOk, FitsAt, Grown;
    var carved := AfterCarving(st, place, c);
    CarvedSegsGrow(st, place, c);
    GrownSegsOk(st.heads, st.segs, carved.segs);
    if place.Insert? {
      FitsAtGrown(st.heads, st.segs, carved.segs, c.seg.base, c.seg.tot, place.at);
    }
  }

  lemma CreatedSegsOk(st: State, k: MemPool, r: Req, plan: Plan, c: Carving)
    requires Ready(st, k, r, plan, c) && Linked(st)
    ensures plan.place.Share? ==> plan.place.head in st.cols && |st.cols[plan.place.head]| >= 1
    ensures var next := Created(st, k, r, plan, c);
            && SegsOk(next.heads, next.segs)
            && next.segs[next.heap] == c.heapSeg
            && NewPool(k, r, plan, c.table).seg in next.segs && next.segs[NewPool(k, r, plan, c.table).seg] == c.seg
            && (forall h :: h in st.segs ==> h in next.segs && Grown(st.segs[h], next.segs[h]))
  {
    hide CarvedAsPlanned, Linked, SegOk, SegsOk, FitsAt, Grown, InsertAt, StoreTable;
    CarvingGrows(st, k, r, plan, c);
    CarvedSegsOk(st, plan.place, c);
    if plan.place.Share? {
      SharedColumnExists(st, plan.place);
    } else {
      InsertedSegsOk(st.heads, AfterCarving(st, plan.place, c).segs, k, c.seg, plan.place.at);
    }
  }

  lemma CarvedSegsGrow(st: State, place: Place, c: Carving)
    requires forall h :: h in st.segs ==> SegOk(st.segs[h])
    requires st.heap in st.segs && Grown(st.segs[st.heap], c.heapSeg)
    requires place.Share? ==> place.head in st.segs && Grown(st.segs[place.head], c.seg)
    requires place == Share(st.heap) ==> c.heapSeg == c.seg
    ensures var carved := AfterCarving(st, place, c);
            carved.segs.Keys == st.segs.Keys && (forall h :: h in st.segs ==> Grown(st.segs[h], carved.segs[h]))
  {
    hide StoreTable;
  }

  lemma FitsAtGrown(heads: seq<MemPool>, segs: map<MemPool, Seg>, next: map<MemPool, Seg>,
                    base: Word, size: Word, at: nat)
    requires SegsOk(heads, segs) && SegsOk(heads, next) && FitsAt(heads, segs, base, size, at)
    requires forall h :: h in heads ==> h in next && Grown(segs[h], next[h])
    ensures FitsAt(heads, next, base, size, at)
  {
    hide SegOk;
    forall j | 0 <= j < |heads|
      ensures next[heads[j]].base == segs[heads[j]].base && next[heads[j]].tot == segs[heads[j]].tot
    {
      assert heads[j] in heads;
    }
  }

  lemma CreatedLinked(st: State, k: MemPool, r: Req, plan: Plan, c: Carving)
    requires Ready(st, k, r, plan, c) && Linked(st) && k !in st.pools
    ensures plan.place.Share? ==> plan.place.head in st.cols && |st.cols[plan.place.head]| >= 1
    ensures Linked(Created(st, k, r, plan, c))
  {
    hide CarvedAsPlanned, SegsOk, FitsAt, Linked, StoreTable;
    CarvingKeepsLinked(st, plan.place, c);
    var carved, pool := AfterCarving(st, plan.place, c), NewPool(k, r, plan, c.table);
    match plan.place
    case Share(h) =>
      SharedColumnExists(st, plan.place);
      ShareKeepsLinked(carved, k, h, c.seg, pool);
    case Insert(at) =>
      InsertKeepsLinked(carved, k, at, c.seg, pool);
  }

  /** The new pool is there, the others are as they were, and memory has changed in its table alone. */
  lemma CreatedPools(st: State, k: MemPool, r: Req, plan: Plan, c: Carving)
    requires Ready(st, k, r, plan, c) && Linked(st)
    ensures plan.place.Share? ==> plan.place.head in st.cols && |st.cols[plan.place.head]| >= 1
    ensures var next := Created(st, k, r, plan, c);
            && next.pools == st.pools[k := NewPool(k, r, plan, c.table)]
            && next.heap == st.heap && next.cpu == st.cpu
            && next.mem == StoreTable(st.cpu, st.mem, c.table, c.blocks)
  {
    hide CarvedAsPlanned, SegsOk, FitsAt, Linked, StoreTable;
    if plan.place.Share? {
      SharedColumnExists(st, plan.place);
    }
  }

  lemma PoolsOkWithNew(st: State, next: State, k: MemPool)
    requires PoolsOk(st) && k in next.pools && next.pools == st.pools[k := next.pools[k]] && next.heap == st.heap
    requires forall h :: h in st.segs ==> h in next.segs && Grown(st.segs[h], next.segs[h])
    requires next.heap in next.segs && next.pools[k].seg in next.segs
    requires PoolOk(next.pools[k], next.segs[next.heap], next.segs[next.pools[k].seg])
    ensures PoolsOk(next)
  {
    hide PoolOk, Grown;
    forall q | q in next.pools
      ensures next.pools[q].seg in next.segs
      ensures PoolOk(next.pools[q], next.segs[next.heap], next.segs[next.pools[q].seg])
    {
      if q != k {
        var h := st.pools[q].seg;
        PoolOkGrown(st.pools[q], st.segs[st.heap], st.segs[h], next.segs[next.heap], next.segs[h]);
      }
    }
  }

  lemma CreatedPoolsOk(st: State, k: MemPool, r: Req, plan: Plan, c: Carving)
    requires Ready(st, k, r, plan, c) && Countable(r, plan) && Linked(st) && PoolsOk(st)
    ensures plan.place.Share? ==> plan.place.head in st.cols && |st.cols[plan.place.head]| >= 1
    ensures PoolsOk(Created(st, k, r, plan, c))
  {
    CreatedPools(st, k, r, plan, c);
    CreatedSegsOk(st, k, r, plan, c);
    NewPoolOk(st, k, r, plan, c);
    hide Ready, Countable, Linked, Created, PoolsOk, PoolOk, Grown, SegsOk, NewPool, StoreTable;
    PoolsOkWithNew(st, Created(st, k, r, plan, c), k);
  }

  lemma CreatedRegions(st: State, k: MemPool, r: Req, plan: Plan, c: Carving)
    requires Ready(st, k, r, plan, c) && Linked(st)
    ensures plan.place.Share? ==> plan.place.head in st.cols && |st.cols[plan.place.head]| >= 1
    ensures NewRegions(st, Created(st, k, r, plan, c), k)
  {
    hide Linked, Created, CarvedAsPlanned, Grown, SegsOk, SegOk, StoreTable, FitsAt;
    CreatedPools(st, k, r, plan, c);
    CreatedSegsOk(st, k, r, plan, c);
    CarvingGrows(st, k, r, plan, c);
  }

  /** Tables of earlier pools lie below the new table, so storing it leaves their stacks alone. */
  lemma OldStackSame(w: World, k: MemPool, r: Req, plan: Plan, c: Carving, q: MemPool)
    requires Inv(w) && Ready(w.st, k, r, plan, c) && q in w.st.pools
    ensures FreeStack(w.st.cpu, StoreTable(w.st.cpu, w.st.mem, c.table, c.blocks), w.st.pools[q])
            == FreeStack(w.st.cpu, w.st.mem, w.st.pools[q])
  {
    hide Inv, Ready, PoolOk, Partition, FreeStack, StoreTable;
    PoolFacts(w, q);
    var pool := w.st.pools[q];
    AlignPositive(pool, w.st.segs[w.st.heap], w.st.segs[pool.seg]);
    PoolRegions(pool, w.st.segs[w.st.heap], w.st.segs[pool.seg]);
    CarvingGrows(w.st, k, r, plan, c);
    TableRoom(w.st, k, r, plan, c);
    StoreTableReads(w.st.cpu, w.st.mem, c.table, c.blocks);
    StackSame(w.st.cpu, StoreTable(w.st.cpu, w.st.mem, c.table, c.blocks), w.st.mem, pool);
  }

  lemma TableRoom(st: State, k: MemPool, r: Req, plan: Plan, c: Carving)
    requires Ready(st, k, r, plan, c)
    ensures |c.blocks| == r.nbr && c.table + 4 * |c.blocks| <= ADDR_SPACE
    ensures forall i :: 0 <= i < r.nbr ==> c.blocks[i] == BlockAt(plan.start, r.size, AlignOf(r), i)
  {
    hide SegsOk, FitsAt, AlignGap, TotSize, BlockAt, AllocTable, SegOk, Advanced;
    CarvedFronts(st, k, r, plan, c);
  }

  lemma NewPartition(st: State, k: MemPool, r: Req, plan: Plan, c: Carving)
    requires Ready(st, k, r, plan, c) && Countable(r, plan)
    ensures var pool := NewPool(k, r, plan, c.table);
            && pool.align >= 1
            && Partition(FreeStack(st.cpu, StoreTable(st.cpu, st.mem, c.table, c.blocks), pool), {}, pool)
  {
    hide Ready, PaddingRejected, PoolOk, Partition, FreeStack, StoreTable, NewPool, BodyOk, BlockAt, AlignOf, TotSize;
    ReadyCounts(st, k, r, plan, c);
    var pool := NewPool(k, r, plan, c.table);
    CarvedFronts(st, k, r, plan, c);
    NewPoolFields(k, r, plan, c.table);
    NewPoolOk(st, k, r, plan, c);
    AlignPositive(pool, c.heapSeg, c.seg);
    TableRoom(st, k, r, plan, c);
    NewTableIsStack(st.cpu, st.mem, pool, c.blocks);
    FreshPartition(pool, c.blocks);
  }

  lemma ReadyCounts(st: State, k: MemPool, r: Req, plan: Plan, c: Carving)
    requires Ready(st, k, r, plan, c)
    ensures 1 <= r.nbr < 0x4000_0000 && r.size >= 1 && plan.Go? && st.heap in st.segs
  {
    hide SegsOk, FitsAt, CarvedAsPlanned;
  }

  lemma PartitionedWithNew(w: World, next: State, k: MemPool)
    requires Inv(w) && PoolsOk(next) && k in next.pools && next.pools == w.st.pools[k := next.pools[k]]
    requires forall q :: q in w.st.pools ==> FreeStack(next.cpu, next.mem, w.st.pools[q])
                                             == FreeStack(w.st.cpu, w.st.mem, w.st.pools[q])
    requires next.pools[k].align >= 1 && Partition(FreeStack(next.cpu, next.mem, next.pools[k]), {}, next.pools[k])
    ensures Partitioned(World(next, w.held[k := {}]))
  {
    hide PoolOk, Partition, FreeStack, Inv;
    forall q | q in w.st.pools
      ensures q in w.held && w.st.pools[q].align >= 1
      ensures Partition(FreeStack(next.cpu, next.mem, w.st.pools[q]), w.held[q], w.st.pools[q])
    {
      PoolFacts(w, q);
      AlignPositive(w.st.pools[q], w.st.segs[w.st.heap], w.st.segs[w.st.pools[q].seg]);
    }
  }

  lemma CreatedPartitioned(w: World, k: MemPool, r: Req, plan: Plan, c: Carving)
    requires Inv(w) && Ready(w.st, k, r, plan, c) && Countable(r, plan)
    ensures plan.place.Share? ==> plan.place.head in w.st.cols && |w.st.cols[plan.place.head]| >= 1
    ensures PoolsOk(Created(w.st, k, r, plan, c))
    ensures Partitioned(World(Created(w.st, k, r, plan, c), w.held[k := {}]))
  {
    CreatedPools(w.st, k, r, plan, c);
    CreatedPoolsOk(w.st, k, r, plan, c);
    NewPartition(w.st, k, r, plan, c);
    hide Ready, Countable, Created, PoolOk, PoolsOk, Partition, Partitioned, FreeStack, StoreTable, NewPool, Inv;
    forall q | q in w.st.pools
      ensures FreeStack(w.st.cpu, StoreTable(w.st.cpu, w.st.mem, c.table, c.blocks), w.st.pools[q])
              == FreeStack(w.st.cpu, w.st.mem, w.st.pools[q])
    {
      OldStackSame(w, k, r, plan, c, q);
    }
    PartitionedWithNew(w, Created(w.st, k, r, plan, c), k);
  }

  lemma CreatedInv(w: World, k: MemPool, r: Req, plan: Plan, c: Carving)
    requires Inv(w) && Ready(w.st, k, r, plan, c) && Countable(r, plan) && k !in w.st.pools
    ensures plan.place.Share? ==> plan.place.head in w.st.cols && |w.st.cols[plan.place.head]| >= 1
    ensures Inv(World(Created(w.st, k, r, plan, c), w.held[k := {}]))
  {
    CreatedLinked(w.st, k, r, plan, c);
    CreatedSegsOk(w.st, k, r, plan, c);
    CreatedPools(w.st, k, r, plan, c);
    CreatedRegions(w.st, k, r, plan, c);
    CreatedPartitioned(w, k, r, plan, c);
    var next := Created(w.st, k, r, plan, c);
    hide Ready, Countable, Created, PoolsOk, Partitioned, Linked, SegsOk, NewRegions, Separate, NewPool, StoreTable;
    SeparateWithNew(w.st, next, k);
    HeadsNonEmpty(next, k);
  }

  lemma HeadsNonEmpty(st: State, k: MemPool)
    requires Linked(st) && k in st.pools
    ensures st.heads != []
  {
    assert PoolLinked(st, k);
    assert st.pools[k].seg in st.heads;
  }

  /** The client's side of Mem_PoolCreate: nothing of a new pool is held. */
  function AfterCreate(w: World, k: MemPool, r: Req): World
    requires Linked(w.st)
  {
    var (st, err, octets) := Create(w.st, k, r);
    World(st, if err == ErrNone then w.held[k := {}] else w.held)
  }

  /** Sizes that do not wrap suffice for a request that passes the checks to succeed:
      the error return in the middle of the allocation loop is never taken. So
      every error leaves the table, the heap and all pools as they were. */
  lemma ErrorsAreAtomic(st: State, k: MemPool, r: Req)
    requires TableOk(st) && (Decide(st, r).Go? ==> SizesOk(st, r))
    ensures var (next, err, octets) := Create(st, k, r);
            && (err == ErrNone <==> Decide(st, r).Go?)
            && (err != ErrNone ==> next == st)
            && (err == ErrNone ==> octets == 0)
  {
    hide Carve, SizesOk, Linked, SegsOk, AfterCarving, Link, Decide, NewPool, SegOk, Advanced, TotSize, BlockAt;
    if Decide(st, r).Go? {
      CarvesAsPlanned(st, r);
      HeapOk(st);
    }
  }

  lemma SuccessIsCreated(st: State, k: MemPool, r: Req)
    requires Carvable(st, k, r) && Decide(st, r).Go?
    ensures var plan := Decide(st, r);
            var c := Carve(st, r, plan.place, plan.seg);
            && (plan.place.Share? ==> plan.place.head in st.cols && |st.cols[plan.place.head]| >= 1)
            && Create(st, k, r) == (Created(st, k, r, plan, c), ErrNone, 0)
  {
    ReadyToLink(st, k, r);
    var plan := Decide(st, r);
    var c := Carve(st, r, plan.place, plan.seg);
    TableRoom(st, k, r, plan, c);
    if plan.place.Share? {
      SharedColumnExists(st, plan.place);
    }
    hide Ready, Carve, SizesOk, Linked, SegsOk, AfterCarving, Link, Decide;
  }

  lemma {:induction false} RunKeepsPlace(s: Seg, n: nat, size: Word, align: Word)
    requires align >= 1
    ensures var t := AllocRun(s, n, size, align).0; t.base == s.base && t.tot == s.tot
  {
    hide AlignGap, Wrap;
    if n > 0 {
      RunKeepsPlace(s, n - 1, size, align);
    }
  }

  /** Whatever wraps: a successful call adds one pool, with the block size, number and alignment
      that were asked for, in the heap or in the segment with the base and size that were asked for;
      its index is the number cut to 16 bits. */
  lemma CreatedAsAsked(st: State, k: MemPool, r: Req)
    requires Linked(st) && Create(st, k, r).1 == ErrNone
    ensures var next := Create(st, k, r).0;
            && next.pools.Keys == st.pools.Keys + {k} && next.heap == st.heap && st.heap in st.segs
            && (forall q :: q in st.pools && q != k ==> next.pools[q] == st.pools[q])
            && next.pools[k].blkSize == r.size && next.pools[k].blkNbr == r.nbr
            && next.pools[k].align == (if r.align == 0 then 1 else r.align)
            && next.pools[k].blkIx <= 0xFFFF && (r.nbr - next.pools[k].blkIx) % 0x1_0000 == 0
            && (r.base == NULL ==> next.pools[k].seg == st.heap)
            && next.pools[k].seg in next.segs
            && next.segs[next.pools[k].seg].base == (if r.base == NULL then st.segs[st.heap].base else r.base)
            && next.segs[next.pools[k].seg].tot == (if r.base == NULL then st.segs[st.heap].tot else r.memSize)
  {
    hide Linked, Decide, Carve, Create, Created;
    HeapLinked(st);
    SuccessLinks(st, k, r);
    DecidedSegment(st, r);
    var plan := Decide(st, r);
    var c := Carve(st, r, plan.place, plan.seg);
    CarvingKeepsPlace(st, r, plan.place, plan.seg);
    CreatedEntries(st, k, r, plan, c);
  }

  lemma SuccessLinks(st: State, k: MemPool, r: Req)
    requires Linked(st) && Create(st, k, r).1 == ErrNone
    ensures var plan := Decide(st, r);
            && st.heads != [] && st.heap in st.segs && plan.Go? && !plan.place.Overlap?
            && (plan.place.Share? ==> plan.place.head in st.cols && |st.cols[plan.place.head]| >= 1)
            && (plan.place.Insert? ==> plan.place.at <= |st.heads|)
            && Create(st, k, r).0 == Created(st, k, r, plan, Carve(st, r, plan.place, plan.seg))
  {
    hide Linked, Decide, Carve, AfterCarving, NewPool;
    HeapLinked(st);
    var plan := Decide(st, r);
    if plan.Go? && plan.place.Share? {
      SharedColumnExists(st, plan.place);
    }
  }

  lemma CarvingKeepsPlace(st: State, r: Req, place: Place, seg: Seg)
    requires st.heap in st.segs && (place == Share(st.heap) ==> seg == st.segs[st.heap])
    ensures var c := Carve(st, r, place, seg);
            c.seg.base == seg.base && c.seg.tot == seg.tot
  {
    hide AllocRun, AllocTable;
    TableKeepsPlace(st, r);
    RunKeepsPlace(BlockSeg(st, r, place, seg), r.nbr, r.size, AlignOf(r));
  }

  lemma CreatedEntries(st: State, k: MemPool, r: Req, plan: Plan, c: Carving)
    requires plan.Go? && !plan.place.Overlap?
    requires plan.place.Share? ==> plan.place.head in st.cols && |st.cols[plan.place.head]| >= 1
    requires plan.place.Insert? ==> plan.place.at <= |st.heads|
    ensures var next := Created(st, k, r, plan, c);
            && next.pools == st.pools[k := NewPool(k, r, plan, c.table)] && next.heap == st.heap
            && next.pools[k].blkSize == r.size && next.pools[k].blkNbr == r.nbr
            && next.pools[k].align == (if r.align == 0 then 1 else r.align)
            && next.pools[k].blkIx <= 0xFFFF && (r.nbr - next.pools[k].blkIx) % 0x1_0000 == 0
            && next.pools[k].seg == (if plan.place.Share? then plan.place.head else k)
            && next.pools[k].seg in next.segs && next.segs[next.pools[k].seg] == c.seg
  {
    hide StoreTable, Wrap, InsertAt;
  }

  lemma HeapLinked(st: State)
    requires Linked(st)
    ensures st.heads != [] ==> st.heap in st.segs
  {
  }

  lemma TableKeepsPlace(st: State, r: Req)
    requires st.heap in st.segs
    ensures var t, heap := AllocTable(st, r).0, st.segs[st.heap]; t.base == heap.base && t.tot == heap.tot
  {
    hide AlignGap, Wrap;
  }

  lemma DecidedSegment(st: State, r: Req)
    requires Linked(st) && st.heap in st.segs
    ensures var plan := Decide(st, r);
            plan.Go? ==>
              && !plan.place.Overlap? && (plan.place.Share? ==> plan.place.head in st.segs)
              && (r.base == NULL ==> plan.place == Share(st.heap))
              && plan.seg.base == (if r.base == NULL then st.segs[st.heap].base else r.base)
              && plan.seg.tot == (if r.base == NULL then st.segs[st.heap].tot else r.memSize)
  {
    hide CalcTotSize, Wrap, AlignOf, TestedOverlap;
    if r.base != NULL && st.heads != [] {
      SharedIsIdentical(st.heads, st.segs, r.base, r.memSize, 0);
    }
  }

  lemma {:induction false} SharedIsIdentical(heads: seq<MemPool>, segs: map<MemPool, Seg>, base: Word, memSize: Word,
                                             i: nat)
    requires i <= |heads| && forall h :: h in heads ==> h in segs
    ensures var place := Search(heads, segs, base, memSize, i);
            place.Share? ==> segs[place.head].base == base && segs[place.head].tot == memSize
    decreases |heads| - i
  {
    if i < |heads| {
      SharedIsIdentical(heads, segs, base, memSize, i + 1);
    }
  }

  /** An alignment of 0 asks for what 1 asks for. */
  lemma NoAlignIsOne(st: State, k: MemPool, r: Req)
    requires Linked(st) && r.align == 0
    ensures Create(st, k, r) == Create(st, k, r.(align := 1))
  {
    var one := r.(align := 1);
    assert AlignOf(one) == AlignOf(r);
    hide Linked, AlignOf, Decide, Carve, AfterCarving, Link, NewPool;
    SameDecision(st, r, one);
    var plan := Decide(st, r);
    if plan.Go? {
      SameCarving(st, r, one, plan.place, plan.seg);
      SamePool(k, r, one, plan, Carve(st, r, plan.place, plan.seg).table);
    }
  }

  lemma SameDecision(st: State, r: Req, q: Req)
    requires Linked(st) && q == r.(align := q.align) && AlignOf(q) == AlignOf(r)
    ensures Decide(st, q) == Decide(st, r)
    ensures Decide(st, r).Go? ==> st.heap in st.segs
  {
    HeapLinked(st);
    assert forall h :: h in st.heads ==> h in st.segs;
    hide Linked, AlignOf, Search, PlanOnHeap, PlanOnSegment;
    if st.heads != [] {
      SamePlanOnHeap(st, r, q);
      if r.base != NULL {
        var place := Search(st.heads, st.segs, r.base, r.memSize, 0);
        var seg := if place.Share? then st.segs[place.head] else Seg(r.base, r.memSize, r.base, r.memSize);
        SamePlanOnSegment(st, r, q, place, seg);
      }
    }
  }

  lemma SamePlanOnHeap(st: State, r: Req, q: Req)
    requires st.heap in st.segs && q == r.(align := q.align) && AlignOf(q) == AlignOf(r)
    ensures PlanOnHeap(st, q) == PlanOnHeap(st, r)
  {
    hide AlignOf, CalcTotSize, Wrap;
  }

  lemma SamePlanOnSegment(st: State, r: Req, q: Req, place: Place, seg: Seg)
    requires st.heap in st.segs && q == r.(align := q.align) && AlignOf(q) == AlignOf(r)
    ensures PlanOnSegment(st, q, place, seg) == PlanOnSegment(st, r, place, seg)
  {
    hide AlignOf, CalcTotSize;
  }

  lemma SameCarving(st: State, r: Req, q: Req, place: Place, seg: Seg)
    requires st.heap in st.segs && q == r.(align := q.align) && AlignOf(q) == AlignOf(r)
    ensures Carve(st, q, place, seg) == Carve(st, r, place, seg)
  {
    hide AlignOf, AllocRun, SegAlloc;
  }

  lemma SamePool(k: MemPool, r: Req, q: Req, plan: Plan, table: Word)
    requires plan.Go? && q == r.(align := q.align) && AlignOf(q) == AlignOf(r)
    ensures NewPool(k, q, plan, table) == NewPool(k, r, plan, table)
  {
    hide AlignOf, Wrap;
  }

  lemma CreateKeepsInv(w: World, k: MemPool, r: Req)
    requires Inv(w) && Creatable(w.st, k, r)
    ensures Inv(AfterCreate(w, k, r))
  {
    ErrorsAreAtomic(w.st, k, r);
    if Decide(w.st, r).Go? {
      ReadyToLink(w.st, k, r);
      SuccessIsCreated(w.st, k, r);
      var plan := Decide(w.st, r);
      CreatedInv(w, k, r, plan, Carve(w.st, r, plan.place, plan.seg));
      hide Inv, Ready, Carve, Linked, SegsOk, SizesOk, Created, Create, Decide, PaddingRejected;
    }
  }
}
