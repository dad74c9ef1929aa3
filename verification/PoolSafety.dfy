/** The invariant of the pool table, and that every call keeps it. */
module PoolSafety {
  import opened Machine
  import opened Segments
  import opened BlockCheck
  import opened PoolRecord
  import opened PoolTable
  import opened PoolSearch
  import opened PoolMemory
  import opened PoolCarving
  import opened PoolLinks

  /** `held[p]` records the history: the blocks of pool `p` that were handed out and not yet taken back. */
  datatype World = World(st: State, held: map<MemPool, set<Word>>)

  predicate InSegment(lo: int, n: int, s: Seg) {
    s.base <= lo && lo + n <= Front(s)
  }

  predicate Apart(lo1: int, n1: int, lo2: int, n2: int) {
    lo1 + n1 <= lo2 || lo2 + n2 <= lo1
  }

  predicate IsBlockOf(p: Pool, b: int)
    requires p.align >= 1
  {
    IsBlock(p.start, p.blkNbr, p.blkSize, p.align, b)
  }

  /** A pool lies in what its segment and the heap have carved, and its record tells the truth. */
  predicate PoolOk(p: Pool, heap: Seg, seg: Seg) {
    && 1 <= p.blkNbr <= 0xFFFF && p.blkIx <= p.blkNbr
    && BodyOk(p.start, p.blkNbr, p.blkSize, p.align)
    && p.poolSize == TotSize(p.start, p.blkNbr, p.blkSize, p.align)
    && p.end == p.start + p.poolSize - 1
    && PaddingRejected(p.start, p.blkSize, p.align)
    && InSegment(p.start, p.poolSize, seg)
    && InSegment(p.ptrs, 4 * p.blkNbr, heap)
  }

  predicate TablesApart(p: Pool, q: Pool) {
    Apart(p.ptrs, 4 * p.blkNbr, q.ptrs, 4 * q.blkNbr)
  }

  predicate BodiesApart(p: Pool, q: Pool) {
    Apart(p.start, p.poolSize, q.start, q.poolSize)
  }

  predicate TableOffBody(p: Pool, q: Pool) {
    Apart(p.ptrs, 4 * p.blkNbr, q.start, q.poolSize)
  }

  /** No two regions that were carved share an octet. */
  ghost predicate Separate(pools: map<MemPool, Pool>) {
    && (forall p, q :: p in pools && q in pools && p != q ==>
          TablesApart(pools[p], pools[q]) && BodiesApart(pools[p], pools[q]))
    && (forall p, q :: p in pools && q in pools ==> TableOffBody(pools[p], pools[q]))
  }

  /** The free stack has no duplicates, and it and the held set partition the pool's blocks. */
  ghost predicate Partition(stack: seq<Word>, held: set<Word>, p: Pool)
    requires p.align >= 1
  {
    && (forall i, j :: 0 <= i < j < |stack| ==> stack[i] != stack[j])
    && (forall b :: b in stack ==> b !in held && IsBlockOf(p, b))
    && (forall b :: b in held ==> IsBlockOf(p, b))
    && (forall b: Word :: IsBlockOf(p, b) ==> b in stack || b in held)
  }

  ghost predicate PoolsOk(st: State) {
    forall p :: p in st.pools ==> st.pools[p].seg in st.segs && st.heap in st.segs
                                  && PoolOk(st.pools[p], st.segs[st.heap], st.segs[st.pools[p].seg])
  }

  ghost predicate Partitioned(w: World)
    requires PoolsOk(w.st)
  {
    forall p :: p in w.st.pools ==>
      p in w.held && Partition(FreeStack(w.st.cpu, w.st.mem, w.st.pools[p]), w.held[p], w.st.pools[p])
  }

  ghost predicate Inv(w: World) {
    && TableOk(w.st)
    && PoolsOk(w.st)
    && Separate(w.st.pools)
    && Partitioned(w)
  }

  /** What the invariant says of one pool. */
  lemma PoolFacts(w: World, p: MemPool)
    requires Inv(w) && p in w.st.pools
    ensures var pool := w.st.pools[p];
            && w.st.heap in w.st.segs && pool.seg in w.st.segs
            && PoolOk(pool, w.st.segs[w.st.heap], w.st.segs[pool.seg])
            && pool.ptrs + 4 * pool.blkNbr <= ADDR_SPACE
            && p in w.held && Partition(FreeStack(w.st.cpu, w.st.mem, pool), w.held[p], pool)
  {
    hide PoolOk, Partition, FreeStack;
    HeapOk(w.st);
    TableInMemory(w.st.pools[p], w.st.segs[w.st.heap], w.st.segs[w.st.pools[p].seg]);
  }

  lemma HeapOk(st: State)
    requires TableOk(st)
    ensures st.heap in st.heads && st.heap in st.segs && SegOk(st.segs[st.heap])
  {
  }

  lemma TableInMemory(p: Pool, heap: Seg, seg: Seg)
    requires PoolOk(p, heap, seg) && SegOk(heap)
    ensures p.ptrs + 4 * p.blkNbr <= ADDR_SPACE
  {
    hide BodyOk, PaddingRejected, TotSize;
  }

  // ---------------------------------------------------- one pool changes

  lemma PoolOkAtIndex(p: Pool, ix: Word, heap: Seg, seg: Seg)
    requires PoolOk(p, heap, seg) && ix <= p.blkNbr
    ensures PoolOk(p.(blkIx := ix), heap, seg)
  {
    hide BodyOk, PaddingRejected, TotSize;
  }

  lemma SeparateAtIndex(pools: map<MemPool, Pool>, p: MemPool, ix: Word)
    requires Separate(pools) && p in pools
    ensures Separate(pools[p := pools[p].(blkIx := ix)])
  {
    var next := pools[p := pools[p].(blkIx := ix)];
    forall q, r | q in next && r in next
      ensures q != r ==> TablesApart(next[q], next[r]) && BodiesApart(next[q], next[r])
      ensures TableOffBody(next[q], next[r])
    {
      assert TableOffBody(pools[q], pools[r]);
      assert q != r ==> TablesApart(pools[q], pools[r]) && BodiesApart(pools[q], pools[r]);
    }
  }

  function WithIndex(st: State, p: MemPool, ix: Word, m: Mem): State
    requires p in st.pools
  {
    st.(mem := m, pools := st.pools[p := st.pools[p].(blkIx := ix)])
  }

  /** Replacing a pool's index and stack, with memory changed in its own table
      at most, leaves all that the invariant says of the other pools. */
  lemma StackStep(w: World, p: MemPool, ix: Word, m: Mem, h: set<Word>)
    requires Inv(w) && p in w.st.pools && ix <= w.st.pools[p].blkNbr && w.st.pools[p].align >= 1
    requires AgreeOff(m, w.st.mem, w.st.pools[p].ptrs, w.st.pools[p].ptrs + 4 * w.st.pools[p].blkNbr)
    requires Partition(FreeStack(w.st.cpu, m, w.st.pools[p].(blkIx := ix)), h, w.st.pools[p].(blkIx := ix))
    ensures Inv(World(WithIndex(w.st, p, ix, m), w.held[p := h]))
  {
    hide Linked, SegsOk, PoolOk, Separate, Partition, FreeStack, AgreeOff;
    SameLinks(w.st, WithIndex(w.st, p, ix, m));
    SeparateAtIndex(w.st.pools, p, ix);
    StackStepPools(w, p, ix, m);
    StackStepPartitions(w, p, ix, m, h);
  }

  lemma StackStepPools(w: World, p: MemPool, ix: Word, m: Mem)
    requires Inv(w) && p in w.st.pools && ix <= w.st.pools[p].blkNbr
    ensures PoolsOk(WithIndex(w.st, p, ix, m))
  {
    hide Inv, PoolOk, Partition, FreeStack;
    var st, next := w.st, WithIndex(w.st, p, ix, m);
    forall q | q in next.pools
      ensures st.heap in st.segs && next.pools[q].seg in st.segs
      ensures PoolOk(next.pools[q], st.segs[st.heap], st.segs[next.pools[q].seg])
    {
      PoolFacts(w, q);
      if q == p {
        PoolOkAtIndex(st.pools[q], ix, st.segs[st.heap], st.segs[st.pools[q].seg]);
      }
    }
  }

  lemma StackStepPartitions(w: World, p: MemPool, ix: Word, m: Mem, h: set<Word>)
    requires Inv(w) && p in w.st.pools && w.st.pools[p].align >= 1
    requires AgreeOff(m, w.st.mem, w.st.pools[p].ptrs, w.st.pools[p].ptrs + 4 * w.st.pools[p].blkNbr)
    requires Partition(FreeStack(w.st.cpu, m, w.st.pools[p].(blkIx := ix)), h, w.st.pools[p].(blkIx := ix))
    requires PoolsOk(WithIndex(w.st, p, ix, m))
    ensures Partitioned(World(WithIndex(w.st, p, ix, m), w.held[p := h]))
  {
    hide Inv, Partition, FreeStack, PoolOk, AgreeOff;
    forall q | q in w.st.pools && q != p
      ensures q in w.held && w.st.pools[q].align >= 1
      ensures Partition(FreeStack(w.st.cpu, m, w.st.pools[q]), w.held[q], w.st.pools[q])
    {
      OtherStackSame(w, p, q, m);
      PoolFacts(w, q);
      AlignPositive(w.st.pools[q], w.st.segs[w.st.heap], w.st.segs[w.st.pools[q].seg]);
    }
  }

  lemma AlignPositive(p: Pool, heap: Seg, seg: Seg)
    requires PoolOk(p, heap, seg)
    ensures p.align >= 1 && p.blkIx <= p.blkNbr <= 0xFFFF
    ensures BodyOk(p.start, p.blkNbr, p.blkSize, p.align)
  {
  }

  lemma OtherStackSame(w: World, p: MemPool, q: MemPool, m: Mem)
    requires Inv(w) && p in w.st.pools && q in w.st.pools && p != q
    requires AgreeOff(m, w.st.mem, w.st.pools[p].ptrs, w.st.pools[p].ptrs + 4 * w.st.pools[p].blkNbr)
    ensures FreeStack(w.st.cpu, m, w.st.pools[q]) == FreeStack(w.st.cpu, w.st.mem, w.st.pools[q])
  {
    hide FreeStack, Partition, SegsOk, PoolOk, Linked;
    PoolFacts(w, q);
    AlignPositive(w.st.pools[q], w.st.segs[w.st.heap], w.st.segs[w.st.pools[q].seg]);
    assert TablesApart(w.st.pools[p], w.st.pools[q]);
    StackSame(w.st.cpu, m, w.st.mem, w.st.pools[q]);
  }

  // ------------------------------------------------------- Mem_PoolBlkGet

  lemma PartitionAfterPop(stack: seq<Word>, b: Word, held: set<Word>, p: Pool)
    requires p.align >= 1 && Partition(stack + [b], held, p)
    ensures b !in held && Partition(stack, held + {b}, p)
  {
    hide IsBlockOf;
    var whole := stack + [b];
    assert whole[|stack|] == b;
    assert forall i :: 0 <= i < |stack| ==> whole[i] == stack[i];
    assert forall x :: x in stack ==> x in whole;
  }

  lemma PartitionAfterPush(stack: seq<Word>, b: Word, held: set<Word>, p: Pool)
    requires p.align >= 1 && b in held && Partition(stack, held, p)
    ensures Partition(stack + [b], held - {b}, p)
  {
    hide IsBlockOf;
    var whole := stack + [b];
    assert forall x :: x in stack ==> x in whole;
    assert whole[|stack|] == b;
  }

  /** The client's side of a call that hands out a block. */
  function AfterGet(w: World, p: MemPool, size: Word): World {
    var (st, blk, err) := BlkGet(w.st, p, size);
    World(st, if err == ErrNone && p in w.held then w.held[p := w.held[p] + {blk}] else w.held)
  }

  lemma GetKeepsInv(w: World, p: MemPool, size: Word)
    requires Inv(w)
    ensures Inv(AfterGet(w, p, size))
  {
    hide Inv, PoolOk, Partition, FreeStack, TableEntry;
    var (st, blk, err) := BlkGet(w.st, p, size);
    if err == ErrNone {
      var pool := w.st.pools[p];
      PoolFacts(w, p);
      AlignPositive(pool, w.st.segs[w.st.heap], w.st.segs[pool.seg]);
      var less := pool.(blkIx := pool.blkIx - 1);
      PopShortensStack(w.st.cpu, w.st.mem, pool);
      PartitionAfterPop(FreeStack(w.st.cpu, w.st.mem, less), blk, w.held[p], pool);
      PartitionIgnoresIndex(FreeStack(w.st.cpu, w.st.mem, less), w.held[p] + {blk}, pool, less);
      StackStep(w, p, pool.blkIx - 1, w.st.mem, w.held[p] + {blk});
    }
  }

  lemma PartitionIgnoresIndex(stack: seq<Word>, held: set<Word>, p: Pool, q: Pool)
    requires p.align >= 1 && q == p.(blkIx := q.blkIx) && Partition(stack, held, p)
    ensures Partition(stack, held, q)
  {
  }

  /** Mem_PoolBlkGet, with any record, succeeds exactly when that is a pool of the table, the
      size fits and a block is left, and then hands out a block of the pool that nobody holds. */
  lemma GetSucceedsIff(w: World, p: MemPool, size: Word)
    requires Inv(w)
    ensures p in w.st.pools ==> w.st.pools[p].align >= 1 && p in w.held
    ensures var (st, blk, err) := BlkGet(w.st, p, size);
            && (err == ErrNone <==> p in w.st.pools && size <= w.st.pools[p].blkSize
                                    && exists b: Word :: IsBlockOf(w.st.pools[p], b) && b !in w.held[p])
            && (err == ErrInvalidPool <==> p !in w.st.pools)
            && (err == ErrNone ==> IsBlockOf(w.st.pools[p], blk) && blk !in w.held[p] && blk != NULL)
            && (err != ErrNone ==> st == w.st && blk == NULL)
  {
    hide Inv, PoolOk, BodyOk, TableEntry, IsBlockOf;
    if p in w.st.pools {
      var pool := w.st.pools[p];
      PoolFacts(w, p);
      AlignPositive(pool, w.st.segs[w.st.heap], w.st.segs[pool.seg]);
      var (st, blk, err) := BlkGet(w.st, p, size);
      var stack := FreeStack(w.st.cpu, w.st.mem, pool);
      if pool.blkIx >= 1 {
        var top := stack[pool.blkIx - 1];
        assert top in stack;
        assert IsBlockOf(pool, top) && top !in w.held[p];
        BlockNotNull(pool, top);
      }
    }
  }

  lemma BlockNotNull(p: Pool, b: Word)
    requires BodyOk(p.start, p.blkNbr, p.blkSize, p.align) && IsBlockOf(p, b)
    ensures b != NULL
  {
    hide AlignGap, TotSize;
    var i :| 0 <= i < p.blkNbr && b == BlockAt(p.start, p.blkSize, p.align, i);
    BlockPositive(p.start, p.blkSize, p.align, i);
  }

  // ------------------------------------------------------ Mem_PoolBlkFree

  lemma PoolCheckable(w: World, p: MemPool)
    requires Inv(w)
    ensures forall b: Word :: Checkable(w.st, p, b)
    ensures p in w.st.pools ==>
              w.st.pools[p].align >= 1 && CheckedStride(w.st.pools[p].blkSize, w.st.pools[p].align) != 0
    ensures p in w.st.pools ==> forall b: Word ::
              var pool := w.st.pools[p];
              IsValidAddr(pool.start, pool.end, pool.blkSize, pool.align, b) <==> IsBlockOf(pool, b)
  {
    hide Inv, PaddingRejected, TotSize, Partition, IsValidAddr, IsBlock;
    if p in w.st.pools {
      var pool := w.st.pools[p];
      PoolFacts(w, p);
      CheckExactIff(pool.start, pool.blkNbr, pool.blkSize, pool.align);
    }
  }

  function AfterFree(w: World, p: MemPool, blk: Word): World
    requires Checkable(w.st, p, blk)
  {
    var (st, err) := BlkFree(w.st, p, blk);
    World(st, if err == ErrNone && p in w.held then w.held[p := w.held[p] - {blk}] else w.held)
  }

  /** Mem_PoolBlkFree, with any record and any address, succeeds exactly when the record is a
      pool of the table and the address a block of it that is handed out at the moment. */
  lemma FreeSucceedsIff(w: World, p: MemPool, blk: Word)
    requires Inv(w)
    ensures Checkable(w.st, p, blk) && (p in w.st.pools ==> p in w.held)
    ensures BlkFree(w.st, p, blk).1 == ErrNone <==> p in w.st.pools && blk in w.held[p]
    ensures BlkFree(w.st, p, blk).1 != ErrNone ==> BlkFree(w.st, p, blk).0 == w.st
  {
    hide Inv, PoolOk, BodyOk, TableEntry, IsValidAddr, IsBlockOf, CheckedStride;
    PoolCheckable(w, p);
    if p in w.st.pools {
      var pool := w.st.pools[p];
      PoolFacts(w, p);
      AlignPositive(pool, w.st.segs[w.st.heap], w.st.segs[pool.seg]);
      var stack := FreeStack(w.st.cpu, w.st.mem, pool);
      if blk in w.held[p] {
        BlockNotNull(pool, blk);
        if pool.blkIx >= pool.blkNbr {
          FullStackHoldsAll(stack, w.held[p], pool, blk);
        }
      }
    }
  }

  /** What the alignment is for: with a block out, Mem_PoolBlkFree tells the blocks that
      are out from all other addresses exactly when padding is turned away. */
  lemma FreeExactIff(st: State, p: MemPool, held: set<Word>)
    requires p in st.pools && held != {}
    requires var pool := st.pools[p];
             && BodyOk(pool.start, pool.blkNbr, pool.blkSize, pool.align)
             && pool.end == BodyEnd(pool.start, pool.blkNbr, pool.blkSize, pool.align)
             && Partition(FreeStack(st.cpu, st.mem, pool), held, pool)
    ensures st.pools[p].align >= 1 && st.pools[p].blkSize >= 1 && forall b: Word :: Checkable(st, p, b)
    ensures (forall b: Word :: b != NULL ==> (BlkFree(st, p, b).1 == ErrNone <==> b in held))
            <==> PaddingRejected(st.pools[p].start, st.pools[p].blkSize, st.pools[p].align)
  {
    hide BodyOk, BodyEnd, PaddingRejected, IsValidAddr, TableEntry;
    hide Partition, FreeStack, BlkFree, Checkable, CheckedStride;
    var pool := st.pools[p];
    BodyPositive(pool.start, pool.blkNbr, pool.blkSize, pool.align);
    CheckExactIff(pool.start, pool.blkNbr, pool.blkSize, pool.align);
    AlwaysCheckable(st, p);
    if PaddingRejected(pool.start, pool.blkSize, pool.align) {
      forall b: Word | b != NULL
        ensures BlkFree(st, p, b).1 == ErrNone <==> b in held
      {
        FreeTakes(st, p, held, b);
      }
    } else {
      var b := PaddingTaken(pool.start, pool.blkNbr, pool.blkSize, pool.align);
      FreeTakes(st, p, held, b);
    }
  }

  lemma BodyPositive(start: Word, nbr: nat, size: Word, align: Word)
    requires BodyOk(start, nbr, size, align)
    ensures nbr >= 1 && size >= 1 && align >= 1
  {
    hide TotSize;
  }

  lemma AlwaysCheckable(st: State, p: MemPool)
    requires p in st.pools && st.pools[p].align >= 1 && CheckedStride(st.pools[p].blkSize, st.pools[p].align) != 0
    ensures forall b: Word :: Checkable(st, p, b)
  {
    hide CheckedStride;
  }

  /** With a block out, an address is taken when it passes the check and is not on the stack. */
  lemma FreeTakes(st: State, p: MemPool, held: set<Word>, b: Word)
    requires p in st.pools && held != {} && b != NULL && Checkable(st, p, b)
    requires var pool := st.pools[p];
             && pool.align >= 1 && CheckedStride(pool.blkSize, pool.align) != 0
             && Partition(FreeStack(st.cpu, st.mem, pool), held, pool)
    ensures var pool := st.pools[p];
            var valid := IsValidAddr(pool.start, pool.end, pool.blkSize, pool.align, b);
            && (BlkFree(st, p, b).1 == ErrNone <==> valid && b !in FreeStack(st.cpu, st.mem, pool))
            && ((valid <==> IsBlockOf(pool, b)) ==> (BlkFree(st, p, b).1 == ErrNone <==> b in held))
            && (valid && !IsBlockOf(pool, b) ==> BlkFree(st, p, b).1 == ErrNone && b !in held)
  {
    hide IsValidAddr, TableEntry, CheckedStride, IsBlock, Set32, Wrap;
    var pool := st.pools[p];
    var h :| h in held;
    FullStackHoldsAll(FreeStack(st.cpu, st.mem, pool), held, pool, h);
  }

  /** Counting: a full stack leaves nothing to be held. */
  lemma FullStackHoldsAll(stack: seq<Word>, held: set<Word>, p: Pool, b: Word)
    requires p.align >= 1 && Partition(stack, held, p) && b in held
    ensures |stack| < p.blkNbr
  {
    hide IsBlockOf;
    BlocksCount(p, p.blkNbr);
    DistinctCount(stack);
    forall x | x in Elements(stack) + {b}
      ensures x in Blocks(p, p.blkNbr)
    {
      assert IsBlockOf(p, x);
      InBlocks(p, x);
    }
    assert b !in Elements(stack);
    hide Blocks, Elements;
    SubsetCount(Elements(stack) + {b}, Blocks(p, p.blkNbr));
  }

  function Blocks(p: Pool, n: nat): set<int>
    requires p.align >= 1
  {
    set i | 0 <= i < n :: BlockAt(p.start, p.blkSize, p.align, i)
  }

  lemma InBlocks(p: Pool, x: int)
    requires p.align >= 1 && IsBlockOf(p, x)
    ensures x in Blocks(p, p.blkNbr)
  {
    hide BlockAt;
  }

  lemma {:induction false} BlocksCount(p: Pool, n: nat)
    requires p.align >= 1
    ensures |Blocks(p, n)| <= n
  {
    hide BlockAt;
    if n > 0 {
      BlocksCount(p, n - 1);
      assert Blocks(p, n) == Blocks(p, n - 1) + {BlockAt(p.start, p.blkSize, p.align, n - 1)};
    }
  }

  function Elements(s: seq<int>): set<int> {
    set x | x in s
  }

  lemma {:induction false} DistinctCount(s: seq<int>)
    requires forall i, j :: 0 <= i < j < |s| ==> s[i] != s[j]
    ensures |Elements(s)| == |s|
  {
    if s != [] {
      var k := |s| - 1;
      DistinctCount(s[..k]);
      assert s[k] !in s[..k];
      assert Elements(s) == Elements(s[..k]) + {s[k]};
    }
  }

  lemma SubsetCount(a: set<int>, b: set<int>)
    requires a <= b
    ensures |a| <= |b|
  {
    assert b == a + (b - a);
  }

  lemma FreeEffect(st: State, p: MemPool, blk: Word)
    requires Checkable(st, p, blk) && BlkFree(st, p, blk).1 == ErrNone
    ensures p in st.pools && st.pools[p].blkIx < st.pools[p].blkNbr && blk != NULL
    ensures var pool := st.pools[p];
            BlkFree(st, p, blk).0 == WithIndex(st, p, (pool.blkIx + 1) % 0x1_0000,
                                               Set32(st.cpu, st.mem, Wrap(pool.ptrs + 4 * pool.blkIx), blk))
  {
    hide Set32, Wrap, IsValidAddr, FreeStack, CheckedStride;
  }

  lemma FreeKeepsInv(w: World, p: MemPool, blk: Word)
    requires Inv(w) && Checkable(w.st, p, blk)
    ensures Inv(AfterFree(w, p, blk))
  {
    hide Inv, Checkable, BlkFree, WithIndex, Set32, Wrap;
    var err := BlkFree(w.st, p, blk).1;
    if err == ErrNone {
      FreeEffect(w.st, p, blk);
      FreeSucceedsIff(w, p, blk);
      PoolFacts(w, p);
      hide PoolOk, Partition, FreeStack;
      PushStep(w, p, blk);
    } else {
      FreeRefused(w.st, p, blk);
    }
  }

  lemma FreeRefused(st: State, p: MemPool, blk: Word)
    requires Checkable(st, p, blk) && BlkFree(st, p, blk).1 != ErrNone
    ensures BlkFree(st, p, blk).0 == st
  {
    hide Set32, Wrap, IsValidAddr, FreeStack, CheckedStride;
  }

  /** A held block pushed back on the stack of its pool. */
  lemma PushStep(w: World, p: MemPool, blk: Word)
    requires Inv(w) && p in w.st.pools && p in w.held && blk in w.held[p]
    requires w.st.pools[p].blkIx < w.st.pools[p].blkNbr
    ensures var st, pool := w.st, w.st.pools[p];
            var m := Set32(st.cpu, st.mem, Wrap(pool.ptrs + 4 * pool.blkIx), blk);
            && pool.blkIx + 1 == (pool.blkIx + 1) % 0x1_0000
            && Inv(World(WithIndex(st, p, pool.blkIx + 1, m), w.held[p := w.held[p] - {blk}]))
  {
    hide Inv, Set32, Wrap, WithIndex, PoolOk, Partition, FreeStack, AgreeOff;
    PoolFacts(w, p);
    var pool := w.st.pools[p];
    AlignPositive(pool, w.st.segs[w.st.heap], w.st.segs[pool.seg]);
    var more := pool.(blkIx := pool.blkIx + 1);
    var m := Set32(w.st.cpu, w.st.mem, Wrap(pool.ptrs + 4 * pool.blkIx), blk);
    PushExtendsStack(w.st.cpu, w.st.mem, pool, blk);
    PartitionAfterPush(FreeStack(w.st.cpu, w.st.mem, pool), blk, w.held[p], pool);
    PartitionIgnoresIndex(FreeStack(w.st.cpu, m, more), w.held[p] - {blk}, pool, more);
    StackStep(w, p, pool.blkIx + 1, m, w.held[p] - {blk});
  }
}
