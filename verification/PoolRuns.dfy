/** Whole runs: Mem_Init, then any calls of any clients, who may also write to the
    blocks they hold and to all memory that is neither theirs nor the library's. */
module PoolRuns {
  import opened Machine
  import opened Segments
  import opened BlockCheck
  import opened PoolRecord
  import opened PoolTable
  import opened PoolSearch
  import opened PoolMemory
  import opened PoolCarving
  import opened PoolSafety
  import opened PoolCreation
  import PoolLinks

  datatype Op =
    | OpCreate(k: MemPool, r: Req)
    | OpGet(p: MemPool, size: Word)
    | OpFree(p: MemPool, blk: Word)
    | OpWrite(p: MemPool, blk: Word, offset: Word, v: Octet)
    | OpStore(a: Word, v: Octet)

  /** Octet `x` belongs to the block at `b`, which pool `p` has handed out. */
  predicate InHeldBlock(w: World, p: MemPool, b: Word, x: int) {
    p in w.st.pools && p in w.held && b in w.held[p] && b <= x < b + w.st.pools[p].blkSize
  }

  ghost predicate OffTables(st: State, a: Word) {
    forall q :: q in st.pools ==> !(st.pools[q].ptrs <= a < st.pools[q].ptrs + 4 * st.pools[q].blkNbr)
  }

  ghost predicate InNoHeldBlock(w: World, a: Word) {
    forall p, b :: p in w.held && b in w.held[p] ==> !InHeldBlock(w, p, b, a)
  }

  /** Get and free may be called with anything. A record is created once, with a
      request that is refused or within the limits. A client writes to blocks it
      holds, and stores anywhere else but in pointer tables and blocks of others. */
  ghost predicate Enabled(w: World, op: Op) {
    match op
    case OpCreate(k, r) => Creatable(w.st, k, r)
    case OpGet(p, size) => true
    case OpFree(p, blk) => Checkable(w.st, p, blk)
    case OpWrite(p, blk, offset, v) => InHeldBlock(w, p, blk, blk + offset) && blk + offset < ADDR_SPACE
    case OpStore(a, v) => OffTables(w.st, a) && InNoHeldBlock(w, a)
  }

  ghost function Step(w: World, op: Op): World
    requires Enabled(w, op)
  {
    match op
    case OpCreate(k, r) => AfterCreate(w, k, r)
    case OpGet(p, size) => AfterGet(w, p, size)
    case OpFree(p, blk) => AfterFree(w, p, blk)
    case OpWrite(p, blk, offset, v) => w.(st := w.st.(mem := w.st.mem[blk + offset := v]))
    case OpStore(a, v) => w.(st := w.st.(mem := w.st.mem[a := v]))
  }

  ghost predicate RunsTo(w: World, ops: seq<Op>, end: World)
    decreases |ops|
  {
    if ops == [] then end == w
    else Enabled(w, ops[0]) && RunsTo(Step(w, ops[0]), ops[1..], end)
  }

  lemma InitialInv(cpu: Endian, mem: Mem, heap: MemPool, base: Word, size: Word)
    requires base >= 1 && size >= 1 && base + size <= ADDR_SPACE
    ensures Inv(World(Initial(cpu, mem, heap, base, size), map[]))
  {
    hide Linked;
    PoolLinks.InitialLinked(cpu, mem, heap, base, size);
  }

  // ------------------------------------------------------ where blocks lie

  lemma BlockInBody(p: Pool, b: Word)
    requires BodyOk(p.start, p.blkNbr, p.blkSize, p.align) && IsBlockOf(p, b)
    requires p.poolSize == TotSize(p.start, p.blkNbr, p.blkSize, p.align)
    ensures p.start <= b && b + p.blkSize <= p.start + p.poolSize
    ensures Multiple(b, p.align)
  {
    hide AlignGap, TotSize, Multiple;
    var i :| 0 <= i < p.blkNbr && b == BlockAt(p.start, p.blkSize, p.align, i);
    BlockPositive(p.start, p.blkSize, p.align, i);
    BlockAligned(p.start, p.blkSize, p.align, i);
    BodyBounds(p.start, p.blkNbr, p.blkSize, p.align);
    if i < p.blkNbr - 1 {
      BlocksApart(p.start, p.blkSize, p.align, i, p.blkNbr - 1);
    }
  }

  lemma BlocksOfPoolApart(p: Pool, a: Word, b: Word)
    requires BodyOk(p.start, p.blkNbr, p.blkSize, p.align) && IsBlockOf(p, a) && IsBlockOf(p, b) && a != b
    ensures Apart(a, p.blkSize, b, p.blkSize)
  {
    hide AlignGap, TotSize, BlockAt;
    var i :| 0 <= i < p.blkNbr && a == BlockAt(p.start, p.blkSize, p.align, i);
    var j :| 0 <= j < p.blkNbr && b == BlockAt(p.start, p.blkSize, p.align, j);
    if i < j {
      BlocksApart(p.start, p.blkSize, p.align, i, j);
    } else if j < i {
      BlocksApart(p.start, p.blkSize, p.align, j, i);
    }
  }

  lemma HeldBlock(w: World, p: MemPool, b: Word)
    requires Inv(w) && p in w.st.pools && p in w.held && b in w.held[p]
    ensures var pool := w.st.pools[p];
            && BodyOk(pool.start, pool.blkNbr, pool.blkSize, pool.align) && IsBlockOf(pool, b)
            && pool.start <= b && b + pool.blkSize <= pool.start + pool.poolSize && Multiple(b, pool.align)
  {
    hide Inv, TotSize, PaddingRejected, IsBlockOf, FreeStack;
    PoolFacts(w, p);
    BlockInBody(w.st.pools[p], b);
  }

  /** An outstanding block is aligned as requested, lies in the carved part of
      its segment, and meets no pointer table. */
  lemma OutstandingBlockSound(w: World, p: MemPool, b: Word)
    requires Inv(w) && p in w.st.pools && p in w.held && b in w.held[p]
    ensures w.st.pools[p].align >= 1 && w.st.pools[p].seg in w.st.segs && b != NULL
    ensures Multiple(b, w.st.pools[p].align)
    ensures InSegment(b, w.st.pools[p].blkSize, w.st.segs[w.st.pools[p].seg])
    ensures forall q :: q in w.st.pools ==>
              Apart(w.st.pools[q].ptrs, 4 * w.st.pools[q].blkNbr, b, w.st.pools[p].blkSize)
  {
    HeldBlock(w, p, b);
    PoolFacts(w, p);
    forall q | q in w.st.pools
      ensures Apart(w.st.pools[q].ptrs, 4 * w.st.pools[q].blkNbr, b, w.st.pools[p].blkSize)
    {
      assert TableOffBody(w.st.pools[q], w.st.pools[p]);
    }
  }

  /** Two outstanding blocks, of the same pool or of different pools, never share an octet. */
  lemma OutstandingBlocksApart(w: World, p: MemPool, a: Word, q: MemPool, b: Word)
    requires Inv(w) && p in w.st.pools && q in w.st.pools && p in w.held && q in w.held
    requires a in w.held[p] && b in w.held[q] && (p != q || a != b)
    ensures Apart(a, w.st.pools[p].blkSize, b, w.st.pools[q].blkSize)
  {
    HeldBlock(w, p, a);
    HeldBlock(w, q, b);
    if p == q {
      BlocksOfPoolApart(w.st.pools[p], a, b);
    } else {
      assert BodiesApart(w.st.pools[p], w.st.pools[q]);
    }
  }

  // -------------------------------------------------------- client writes

  /** A store to any octet outside the pointer tables, by whomever. */
  lemma StoreKeepsInv(w: World, a: Word, v: Octet)
    requires Inv(w) && OffTables(w.st, a)
    ensures Inv(w.(st := w.st.(mem := w.st.mem[a := v])))
  {
    hide Inv, PoolOk, Partition, FreeStack;
    var m := w.st.mem[a := v];
    forall q | q in w.st.pools
      ensures FreeStack(w.st.cpu, m, w.st.pools[q]) == FreeStack(w.st.cpu, w.st.mem, w.st.pools[q])
    {
      PoolFacts(w, q);
      AlignPositive(w.st.pools[q], w.st.segs[w.st.heap], w.st.segs[w.st.pools[q].seg]);
      StackSame(w.st.cpu, m, w.st.mem, w.st.pools[q]);
    }
    SameLinksAndPools(w, m);
  }

  /** A client writing inside a block it holds reaches no pointer table. */
  lemma WriteKeepsInv(w: World, p: MemPool, blk: Word, offset: Word, v: Octet)
    requires Inv(w) && Enabled(w, OpWrite(p, blk, offset, v))
    ensures Inv(Step(w, OpWrite(p, blk, offset, v)))
  {
    hide Inv, Multiple, InSegment;
    OutstandingBlockSound(w, p, blk);
    StoreKeepsInv(w, blk + offset, v);
  }

  lemma SameLinksAndPools(w: World, m: Mem)
    requires Inv(w)
    requires forall q :: q in w.st.pools ==>
               FreeStack(w.st.cpu, m, w.st.pools[q]) == FreeStack(w.st.cpu, w.st.mem, w.st.pools[q])
    ensures Inv(w.(st := w.st.(mem := m)))
  {
    hide SegsOk, PoolOk, Partition, FreeStack, Separate;
    var next := w.st.(mem := m);
    PoolLinks.SameLinks(w.st, next);
    hide Linked;
  }

  // ------------------------------------------------------------- all runs

  lemma StepKeepsInv(w: World, op: Op)
    requires Inv(w) && Enabled(w, op)
    ensures Inv(Step(w, op))
  {
    hide Inv, AfterCreate, AfterGet, AfterFree, Creatable, Checkable, InHeldBlock, OffTables, InNoHeldBlock;
    match op
    case OpCreate(k, r) => CreateKeepsInv(w, k, r);
    case OpGet(p, size) => GetKeepsInv(w, p, size);
    case OpFree(p, blk) => FreeKeepsInv(w, p, blk);
    case OpWrite(p, blk, offset, v) => WriteKeepsInv(w, p, blk, offset, v);
    case OpStore(a, v) => StoreKeepsInv(w, a, v);
  }

  lemma {:induction false} RunKeepsInv(w: World, ops: seq<Op>, end: World)
    requires Inv(w) && RunsTo(w, ops, end)
    ensures Inv(end)
    decreases |ops|
  {
    hide Inv, Step, Enabled;
    if ops != [] {
      StepKeepsInv(w, ops[0]);
      RunKeepsInv(Step(w, ops[0]), ops[1..], end);
    }
  }

  /** From Mem_Init on, however the calls are interleaved, no two blocks that
      are out at the same time share an octet. */
  lemma NoTwoClientsShareMemory(cpu: Endian, mem: Mem, heap: MemPool, base: Word, size: Word, ops: seq<Op>, end: World,
                                p: MemPool, a: Word, q: MemPool, b: Word, x: Word)
    requires base >= 1 && size >= 1 && base + size <= ADDR_SPACE
    requires RunsTo(World(Initial(cpu, mem, heap, base, size), map[]), ops, end)
    requires InHeldBlock(end, p, a, x) && InHeldBlock(end, q, b, x)
    ensures p == q && a == b
  {
    hide RunsTo, Inv;
    var w := World(Initial(cpu, mem, heap, base, size), map[]);
    InitialInv(cpu, mem, heap, base, size);
    hide Initial;
    RunKeepsInv(w, ops, end);
    if p != q || a != b {
      OutstandingBlocksApart(end, p, a, q, b);
    }
  }

  // ------------------------------------------------- segments only advance

  lemma CreateAdvances(w: World, k: MemPool, r: Req, h: MemPool)
    requires Inv(w) && Creatable(w.st, k, r) && h in w.st.segs
    ensures h in AfterCreate(w, k, r).st.segs && Grown(w.st.segs[h], AfterCreate(w, k, r).st.segs[h])
  {
    hide Inv, Linked, SegsOk, WithinLimits, SizesOk, Create, Created, Decide, Carve, Grown;
    HeapOk(w.st);
    GrownReflexive(w, h);
    ErrorsAreAtomic(w.st, k, r);
    if Decide(w.st, r).Go? {
      ReadyToLink(w.st, k, r);
      var plan := Decide(w.st, r);
      var c := Carve(w.st, r, plan.place, plan.seg);
      hide Ready;
      CreatedSegsOk(w.st, k, r, plan, c);
      SuccessIsCreated(w.st, k, r);
    }
  }

  lemma GetAndFreeKeepSegments(w: World, p: MemPool, size: Word, blk: Word)
    ensures AfterGet(w, p, size).st.segs == w.st.segs && AfterGet(w, p, size).st.mem == w.st.mem
    ensures Checkable(w.st, p, blk) ==> AfterFree(w, p, blk).st.segs == w.st.segs
  {
    hide FreeStack, IsValidAddr, CheckedStride, TableEntry, Set32, Wrap;
  }

  lemma StepAdvances(w: World, op: Op, h: MemPool)
    requires Inv(w) && Enabled(w, op) && h in w.st.segs
    ensures h in Step(w, op).st.segs && Grown(w.st.segs[h], Step(w, op).st.segs[h])
  {
    hide Inv, Creatable, AfterCreate, AfterGet, AfterFree, Grown, InHeldBlock, Checkable;
    GrownReflexive(w, h);
    match op
    case OpCreate(k, r) => CreateAdvances(w, k, r, h);
    case OpGet(p, size) => GetAndFreeKeepSegments(w, p, size, 0);
    case OpFree(p, blk) => GetAndFreeKeepSegments(w, p, 0, blk);
    case OpWrite(p, blk, offset, v) =>
    case OpStore(a, v) =>
  }

  lemma GrownReflexive(w: World, h: MemPool)
    requires Inv(w) && h in w.st.segs
    ensures Grown(w.st.segs[h], w.st.segs[h])
  {
    assert SegOk(w.st.segs[h]);
  }

  lemma GrownTransitive(s: Seg, t: Seg, u: Seg)
    requires Grown(s, t) && Grown(t, u)
    ensures Grown(s, u)
  {
  }

  /** Over any run every segment stays where it is, its next free address never
      moves back, and carved plus remaining octets are its size. */
  lemma {:induction false} SegmentsOnlyAdvance(w: World, ops: seq<Op>, end: World, h: MemPool)
    requires Inv(w) && RunsTo(w, ops, end) && h in w.st.segs
    ensures h in end.st.segs && Grown(w.st.segs[h], end.st.segs[h])
    decreases |ops|
  {
    if ops == [] {
      GrownReflexive(w, h);
    } else {
      hide Inv, Step, Enabled, Grown;
      var next := Step(w, ops[0]);
      StepKeepsInv(w, ops[0]);
      StepAdvances(w, ops[0], h);
      SegmentsOnlyAdvance(next, ops[1..], end, h);
      GrownTransitive(w.st.segs[h], next.st.segs[h], end.st.segs[h]);
    }
  }

  // ------------------------------------------- blocks belong to their holder

  lemma FreeKeepsBlock(w: World, p: MemPool, blk: Word, q: MemPool, b: Word, x: Word)
    requires Inv(w) && Checkable(w.st, p, blk) && InHeldBlock(w, q, b, x)
    ensures AfterFree(w, p, blk).st.mem[x] == w.st.mem[x]
  {
    hide Inv, PoolOk, Partition, FreeStack, BodyOk, Set32, Wrap, Multiple, InSegment, IsValidAddr, CheckedStride;
    if BlkFree(w.st, p, blk).1 == ErrNone {
      FreeEffect(w.st, p, blk);
      PoolFacts(w, p);
      OutstandingBlockSound(w, q, b);
      var pool := w.st.pools[p];
      AlignPositive(pool, w.st.segs[w.st.heap], w.st.segs[pool.seg]);
      assert Apart(pool.ptrs, 4 * pool.blkNbr, b, w.st.pools[q].blkSize);
      hide BlkFree;
      PushExtendsStack(w.st.cpu, w.st.mem, pool, blk);
    }
  }

  /** A successful create changes memory in the new pool's table alone. */
  lemma CreateWritesItsTable(w: World, k: MemPool, r: Req)
    requires Inv(w) && Creatable(w.st, k, r) && Decide(w.st, r).Go?
    ensures var next := AfterCreate(w, k, r).st;
            && k in next.pools && (forall q :: q in w.st.pools ==> q in next.pools && next.pools[q] == w.st.pools[q])
            && AgreeOff(next.mem, w.st.mem, next.pools[k].ptrs, next.pools[k].ptrs + 4 * next.pools[k].blkNbr)
  {
    hide Inv, Linked, SegsOk, WithinLimits, SizesOk, Create, Decide, Carve, StoreTable, Ready, AgreeOff;
    hide Created;
    HeapOk(w.st);
    ReadyToLink(w.st, k, r);
    SuccessIsCreated(w.st, k, r);
    var plan := Decide(w.st, r);
    var c := Carve(w.st, r, plan.place, plan.seg);
    CreatedPools(w.st, k, r, plan, c);
    TableRoom(w.st, k, r, plan, c);
    StoreTableReads(w.st.cpu, w.st.mem, c.table, c.blocks);
  }

  lemma CreateKeepsBlock(w: World, k: MemPool, r: Req, q: MemPool, b: Word, x: Word)
    requires Inv(w) && Creatable(w.st, k, r) && InHeldBlock(w, q, b, x)
    ensures AfterCreate(w, k, r).st.mem[x] == w.st.mem[x]
  {
    ErrorsAreAtomic(w.st, k, r);
    HeldBlock(w, q, b);
    if Decide(w.st, r).Go? {
      CreateWritesItsTable(w, k, r);
      CreateKeepsInv(w, k, r);
      hide Inv, Creatable, AfterCreate, BodyOk, IsBlockOf, Multiple;
      NewTableOffBody(AfterCreate(w, k, r), k, q);
    }
  }

  lemma NewTableOffBody(w: World, k: MemPool, q: MemPool)
    requires Inv(w) && k in w.st.pools && q in w.st.pools
    ensures TableOffBody(w.st.pools[k], w.st.pools[q])
  {
    hide Linked, SegsOk, PoolsOk, Partitioned, TableOffBody, TablesApart, BodiesApart;
  }

  /** Whatever call comes next, by whomever, an octet of a block that is out
      changes only when the holder of that block writes it. */
  lemma OnlyTheHolderWrites(w: World, op: Op, q: MemPool, b: Word, x: Word)
    requires Inv(w) && Enabled(w, op) && InHeldBlock(w, q, b, x)
    requires !(op.OpWrite? && op.p == q && op.blk == b)
    ensures Step(w, op).st.mem[x] == w.st.mem[x]
  {
    hide Inv, Creatable, Checkable, AfterCreate, AfterFree;
    match op
    case OpCreate(k, r) => CreateKeepsBlock(w, k, r, q, b, x);
    case OpGet(p, size) =>
    case OpFree(p, blk) => FreeKeepsBlock(w, p, blk, q, b, x);
    case OpWrite(p, blk, offset, v) => OutstandingBlocksApart(w, p, blk, q, b);
    case OpStore(a, v) =>
  }

  // ---------------------------------------------------------- conservation

  /** Blocks handed out plus blocks on the stack are all the blocks of the pool. */
  lemma BlocksConserved(w: World, p: MemPool)
    requires Inv(w) && p in w.st.pools
    ensures p in w.held && |w.held[p]| + w.st.pools[p].blkIx == w.st.pools[p].blkNbr
  {
    hide Inv, PoolOk, BodyOk;
    var pool := w.st.pools[p];
    PoolFacts(w, p);
    AlignPositive(pool, w.st.segs[w.st.heap], w.st.segs[pool.seg]);
    var stack := FreeStack(w.st.cpu, w.st.mem, pool);
    PartitionCount(stack, w.held[p], pool);
  }

  /** The error of Mem_PoolBlkGet for any record, by what clients know: which records are
      pools, sizes and what is out. */
  lemma GetErrorIs(w: World, p: MemPool, size: Word)
    requires Inv(w)
    ensures p in w.st.pools ==> p in w.held
    ensures BlkGet(w.st, p, size).2 ==
            if p !in w.st.pools then ErrInvalidPool
            else if size > w.st.pools[p].blkSize then ErrInvalidBlkSize
            else if |w.held[p]| == w.st.pools[p].blkNbr then ErrNoneAvail
            else ErrNone
  {
    hide Inv, TableEntry, Partition, FreeStack, BodyOk;
    if p in w.st.pools {
      BlocksConserved(w, p);
      PoolFacts(w, p);
    }
  }

  /** The error of Mem_PoolBlkFree for any record and any address. */
  lemma FreeErrorIs(w: World, p: MemPool, blk: Word)
    requires Inv(w)
    ensures Checkable(w.st, p, blk) && (p in w.st.pools ==> p in w.held)
    ensures BlkFree(w.st, p, blk).1 ==
            if blk == NULL then ErrNullPtr
            else if p !in w.st.pools then ErrInvalidPool
            else if w.held[p] == {} then ErrPoolFull
            else if blk in w.held[p] then ErrNone
            else ErrInvalidAddr
  {
    hide Inv, FreeStack, IsValidAddr, CheckedStride, Set32, Wrap;
    FreeSucceedsIff(w, p, blk);
    if p in w.st.pools {
      BlocksConserved(w, p);
      if w.held[p] != {} {
        assert |w.held[p]| > 0;
      }
    }
  }

  lemma GetEffect(st: State, p: MemPool, size: Word)
    requires BlkGet(st, p, size).2 == ErrNone
    ensures p in st.pools && 1 <= st.pools[p].blkIx <= st.pools[p].blkNbr
    ensures var ix := st.pools[p].blkIx - 1;
            BlkGet(st, p, size).0 == WithIndex(st, p, ix, st.mem)
            && BlkGet(st, p, size).1 == TableEntry(st.cpu, st.mem, st.pools[p].ptrs, ix)
  {
    hide TableEntry;
  }

  lemma GivesTop(st: State, p: MemPool, size: Word)
    requires p in st.pools && 1 <= st.pools[p].blkIx <= st.pools[p].blkNbr && size <= st.pools[p].blkSize
    ensures BlkGet(st, p, size).2 == ErrNone
  {
    hide TableEntry;
  }

  /** Setting an index twice; the second setting stays, and the first index is no change. */
  lemma IndexTwice(st: State, p: MemPool, ix: Word, m: Mem, n: Mem)
    requires p in st.pools
    ensures p in WithIndex(st, p, ix, m).pools && WithIndex(st, p, ix, m).cpu == st.cpu
    ensures WithIndex(st, p, ix, m).mem == m && WithIndex(st, p, ix, m).pools[p] == st.pools[p].(blkIx := ix)
    ensures WithIndex(WithIndex(st, p, ix, m), p, st.pools[p].blkIx, n) == st.(mem := n)
  {
    assert st.pools[p := st.pools[p]] == st.pools;
  }

  /** Giving a block back at once restores the whole state: table, index and memory. */
  lemma FreeUndoesGet(w: World, p: MemPool, size: Word)
    requires Inv(w) && BlkGet(w.st, p, size).2 == ErrNone
    ensures var (st, blk, err) := BlkGet(w.st, p, size);
            Checkable(st, p, blk) && BlkFree(st, p, blk) == (w.st, ErrNone)
  {
    hide Inv, PoolOk, Partition, FreeStack, TableEntry, Set32, IsBlockOf, Wrap, WithIndex, BlkGet, BlkFree, Checkable;
    GetEffect(w.st, p, size);
    var pool := w.st.pools[p];
    PoolFacts(w, p);
    AlignPositive(pool, w.st.segs[w.st.heap], w.st.segs[pool.seg]);
    GetKeepsInv(w, p, size);
    var (st, blk, err) := BlkGet(w.st, p, size);
    FreeSucceedsIff(AfterGet(w, p, size), p, blk);
    IndexTwice(w.st, p, pool.blkIx - 1, w.st.mem, w.st.mem);
    FreeEffect(st, p, blk);
    StoreOfEntry(st.cpu, st.mem, pool.ptrs, pool.blkIx - 1);
  }

  lemma StoreOfEntry(cpu: Endian, m: Mem, ptrs: Word, i: int)
    ensures Set32(cpu, m, Wrap(ptrs + 4 * i), TableEntry(cpu, m, ptrs, i)) == m
  {
    hide Set32, Get32, Wrap;
    SetOfGet32(cpu, m, Wrap(ptrs + 4 * i));
  }

  /** A block that was just given back is the next to be handed out, and then the table
      and its indices are again what they were. */
  lemma GetUndoesFree(w: World, p: MemPool, blk: Word, size: Word)
    requires Inv(w) && p in w.st.pools && p in w.held && blk in w.held[p] && size <= w.st.pools[p].blkSize
    ensures Checkable(w.st, p, blk)
    ensures var st := BlkFree(w.st, p, blk).0; BlkGet(st, p, size) == (w.st.(mem := st.mem), blk, ErrNone)
  {
    hide Inv, PoolOk, Partition, FreeStack, TableEntry, Set32, IsBlockOf, Wrap, WithIndex, BlkGet, BlkFree, Checkable;
    FreeSucceedsIff(w, p, blk);
    FreeEffect(w.st, p, blk);
    var pool := w.st.pools[p];
    PoolFacts(w, p);
    AlignPositive(pool, w.st.segs[w.st.heap], w.st.segs[pool.seg]);
    StoreEntry(w.st.cpu, w.st.mem, pool.ptrs, pool.blkIx, blk);
    var st, m := BlkFree(w.st, p, blk).0, Set32(w.st.cpu, w.st.mem, Wrap(pool.ptrs + 4 * pool.blkIx), blk);
    assert (pool.blkIx + 1) % 0x1_0000 == pool.blkIx + 1;
    IndexTwice(w.st, p, pool.blkIx + 1, m, m);
    GivesTop(st, p, size);
    GetEffect(st, p, size);
  }

  lemma PartitionCount(stack: seq<Word>, held: set<Word>, p: Pool)
    requires BodyOk(p.start, p.blkNbr, p.blkSize, p.align) && Partition(stack, held, p)
    ensures |held| + |stack| == p.blkNbr
  {
    hide IsBlockOf, AlignGap, TotSize;
    BodyBounds(p.start, p.blkNbr, p.blkSize, p.align);
    var out: set<int> := set b | b in held;
    AsIntegers(held, out);
    assert out !! Elements(stack);
    forall x: int
      ensures x in out + Elements(stack) <==> x in Blocks(p, p.blkNbr)
    {
      BlockMembers(p, x);
      if x in out + Elements(stack) {
        assert IsBlockOf(p, x);
      }
    }
    assert out + Elements(stack) == Blocks(p, p.blkNbr);
    DistinctCount(stack);
    AllBlocksCount(p, p.blkNbr);
  }

  lemma {:induction false} AsIntegers(s: set<Word>, t: set<int>)
    requires t == set b | b in s
    ensures |t| == |s|
  {
    if s != {} {
      var b :| b in s;
      AsIntegers(s - {b}, t - {b});
    }
  }

  lemma BlockMembers(p: Pool, x: int)
    requires BodyOk(p.start, p.blkNbr, p.blkSize, p.align)
    ensures x in Blocks(p, p.blkNbr) <==> IsBlockOf(p, x)
    ensures IsBlockOf(p, x) ==> 0 <= x < ADDR_SPACE
  {
    hide BlockAt, TotSize;
    if IsBlockOf(p, x) {
      InBlocks(p, x);
      var i :| 0 <= i < p.blkNbr && x == BlockAt(p.start, p.blkSize, p.align, i);
      BlockPositive(p.start, p.blkSize, p.align, i);
      BodyBounds(p.start, p.blkNbr, p.blkSize, p.align);
      if i < p.blkNbr - 1 {
        BlocksApart(p.start, p.blkSize, p.align, i, p.blkNbr - 1);
      }
    }
  }

  lemma {:induction false} AllBlocksCount(p: Pool, n: nat)
    requires p.align >= 1 && p.blkSize >= 1
    ensures |Blocks(p, n)| == n
  {
    if n > 0 {
      AllBlocksCount(p, n - 1);
      var last := BlockAt(p.start, p.blkSize, p.align, n - 1);
      StrideBounds(p.blkSize, p.align);
      hide BlockAt, Stride;
      forall i | 0 <= i < n - 1
        ensures BlockAt(p.start, p.blkSize, p.align, i) != last
      {
        BlocksApart(p.start, p.blkSize, p.align, i, n - 1);
      }
      assert last !in Blocks(p, n - 1);
      assert Blocks(p, n) == Blocks(p, n - 1) + {last};
    }
  }
}
