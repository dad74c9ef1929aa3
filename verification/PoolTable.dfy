/** The memory-pool calls of lib_mem.c as functions on values: the pool table,
    its segments, and the memory in which the pointer tables and the blocks lie.
    Arithmetic is cut to the source's widths; nothing is assumed of the sizes. */
module PoolTable {
  import opened Machine
  import opened Segments
  import opened BlockCheck
  import opened PoolRecord

  /** The pool part of a record. `seg` is the head of the column it is linked in. */
  datatype Pool = Pool(seg: MemPool, start: Word, end: Word, poolSize: Word, ptrs: Word,
                       align: Word, blkSize: Word, blkNbr: Word, blkIx: Word)

  /** `heads` is the horizontal list from Mem_PoolTbl on, `cols[h]` the vertical
      list below head `h`; Mem_PoolHeap is `heap`. Before Mem_Init nothing is linked. */
  datatype State = State(cpu: Endian, mem: Mem, heap: MemPool, heads: seq<MemPool>,
                         segs: map<MemPool, Seg>, cols: map<MemPool, seq<MemPool>>, pools: map<MemPool, Pool>)

  /** The horizontal list: no head twice, and the heads carry the segments. */
  ghost predicate HeadsLinked(st: State) {
    && (st.heads != [] ==> st.heap in st.heads)
    && (forall i, j :: 0 <= i < j < |st.heads| ==> st.heads[i] != st.heads[j])
    && (forall h :: h in st.heads ==> h in st.segs && h in st.cols)
    && (forall h :: h in st.segs ==> h in st.heads)
    && (forall h :: h in st.cols ==> h in st.heads)
  }

  /** A vertical list: its head first, no record twice, and pools of this column only. */
  ghost predicate ColumnLinked(st: State, h: MemPool)
    requires h in st.cols
  {
    var col := st.cols[h];
    && |col| >= 1 && col[0] == h
    && (forall i :: 0 <= i < |col| && !(h == st.heap && i == 0) ==> col[i] in st.pools && st.pools[col[i]].seg == h)
    && (forall i, j :: 0 <= i < j < |col| ==> col[i] != col[j])
  }

  ghost predicate PoolLinked(st: State, p: MemPool)
    requires p in st.pools
  {
    p != st.heap && st.pools[p].seg in st.cols && p in st.cols[st.pools[p].seg]
  }

  ghost predicate Linked(st: State) {
    && HeadsLinked(st)
    && (forall h :: h in st.cols ==> ColumnLinked(st, h))
    && (forall p :: p in st.pools ==> PoolLinked(st, p))
  }

  /** The state Mem_Init leaves. */
  function Initial(cpu: Endian, mem: Mem, heap: MemPool, base: Word, size: Word): State {
    State(cpu, mem, heap, [heap], map[heap := Seg(base, size, base, size)], map[heap := [heap]], map[])
  }

  // ------------------------------------------------------ the pointer table

  /** PoolPtrs[i], a native word in memory. */
  function TableEntry(cpu: Endian, m: Mem, ptrs: Word, i: int): Word {
    Get32(cpu, m, Wrap(ptrs + 4 * i))
  }

  /** PoolPtrs[0..BlkIx), the stack of free blocks. */
  function FreeStack(cpu: Endian, m: Mem, p: Pool): (s: seq<Word>)
    ensures |s| == p.blkIx
  {
    seq(p.blkIx, i => TableEntry(cpu, m, p.ptrs, i))
  }

  /** The memory once `blocks` are stored one after the other as a table at `ptrs`. */
  function StoreTable(cpu: Endian, m: Mem, ptrs: Word, blocks: seq<Word>): Mem {
    if blocks == [] then m
    else
      var n := |blocks| - 1;
      Set32(cpu, StoreTable(cpu, m, ptrs, blocks[..n]), Wrap(ptrs + 4 * n), blocks[n])
  }

  // --------------------------------------------------------- Mem_PoolCreate

  datatype Req = Req(base: Word, memSize: Word, nbr: Word, size: Word, align: Word)

  /** The alignment in force: 0 stands for 1. */
  function AlignOf(r: Req): (a: Word)
    ensures a >= 1
  {
    if r.align < 1 then 1 else r.align
  }

  function ArgError(st: State, r: Req): Err {
    if r.base != NULL && r.memSize < 1 then ErrInvalidSegSize
    else if r.nbr < 1 then ErrInvalidBlkNbr
    else if r.size < 1 then ErrInvalidBlkSize
    else if st.heads == [] then ErrHeapNotFound
    else ErrNone
  }

  /** Where the search of the segment list ends: at the segment with the same
      base and size, at the place for a new segment, or at a segment it overlaps. */
  datatype Place = Share(head: MemPool) | Insert(at: nat) | Overlap

  predicate TestedOverlap(base: Word, last: Word, segBase: Word, segLast: Word) {
    || (base <= segBase && last >= segBase)
    || (base >= segBase && last <= segLast)
    || (base <= segLast && last >= segLast)
  }

  function Search(heads: seq<MemPool>, segs: map<MemPool, Seg>, base: Word, memSize: Word, i: nat): (place: Place)
    requires i <= |heads|
    requires forall h :: h in heads ==> h in segs
    ensures place.Insert? ==> i <= place.at <= |heads|
    ensures place.Share? ==> place.head in heads
    decreases |heads| - i
  {
    if i == |heads| then Insert(i)
    else
      var s := segs[heads[i]];
      if base == s.base && memSize == s.tot then Share(heads[i])
      else
        var last, segLast := Wrap(base + memSize - 1), Wrap(s.base + s.tot - 1);
        if last < s.base then Insert(i)
        else if TestedOverlap(base, last, s.base, segLast) then Overlap
        else Search(heads, segs, base, memSize, i + 1)
  }

  /** The verdict of the checks that precede any allocation. */
  datatype Plan = Refuse(err: Err, octets: Word) | Go(place: Place, seg: Seg, start: Word, total: Word)

  function TableSize(st: State, r: Req): Word
    requires st.heap in st.segs
  {
    CalcTotSize(st.segs[st.heap].next, r.nbr, 4, 4)
  }

  function PlanOnHeap(st: State, r: Req): (plan: Plan)
    requires st.heap in st.segs
    ensures plan.Go? ==> plan.place == Share(st.heap) && plan.seg == st.segs[st.heap]
  {
    var heap := st.segs[st.heap];
    var start := Wrap(heap.next + TableSize(st, r));
    var total := CalcTotSize(start, r.nbr, r.size, AlignOf(r));
    var both := Wrap(TableSize(st, r) + total);
    if both > heap.rem then Refuse(ErrHeapEmpty, both - heap.rem)
    else Go(Share(st.heap), heap, start, total)
  }

  function PlanOnSegment(st: State, r: Req, place: Place, seg: Seg): (plan: Plan)
    requires st.heap in st.segs
    ensures plan.Go? ==> plan.place == place && plan.seg == seg && plan.start == seg.next
  {
    var heap := st.segs[st.heap];
    var total := CalcTotSize(seg.next, r.nbr, r.size, AlignOf(r));
    if TableSize(st, r) > heap.rem then Refuse(ErrHeapEmpty, TableSize(st, r) - heap.rem)
    else if total > seg.rem then Refuse(ErrSegEmpty, total - seg.rem)
    else Go(place, seg, seg.next, total)
  }

  function Decide(st: State, r: Req): (plan: Plan)
    requires Linked(st)
    ensures plan.Refuse? ==> plan.err != ErrNone
    ensures plan.Go? ==> r.nbr >= 1 && r.size >= 1 && st.heads != [] && !plan.place.Overlap?
    ensures plan.Go? && plan.place.Insert? ==> plan.place.at <= |st.heads|
    ensures plan.Go? && plan.place.Share? ==> plan.place.head in st.heads && plan.place.head in st.segs
                                              && plan.seg == st.segs[plan.place.head]
  {
    var e := ArgError(st, r);
    if e != ErrNone then Refuse(e, 0)
    else if r.base == NULL then PlanOnHeap(st, r)
    else
      var place := Search(st.heads, st.segs, r.base, r.memSize, 0);
      match place
      case Overlap => Refuse(ErrInvalidSegOverlap, 0)
      case Share(h) => PlanOnSegment(st, r, place, st.segs[h])
      case Insert(_) => PlanOnSegment(st, r, place, Seg(r.base, r.memSize, r.base, r.memSize))
  }

  /** The pointer table is always carved from the heap, in front of the blocks. */
  function AllocTable(st: State, r: Req): (Seg, Word)
    requires st.heap in st.segs
  {
    SegAlloc(st.segs[st.heap], Wrap(4 * r.nbr), 4)
  }

  /** The segment as the block loop finds it: the heap has lost the table by then. */
  function BlockSeg(st: State, r: Req, place: Place, seg: Seg): Seg
    requires st.heap in st.segs
  {
    if place == Share(st.heap) then AllocTable(st, r).0 else seg
  }

  datatype Carving = Carving(table: Word, blocks: seq<Word>, heapSeg: Seg, seg: Seg)

  function Carve(st: State, r: Req, place: Place, seg: Seg): Carving
    requires st.heap in st.segs
  {
    var (heapSeg, table) := AllocTable(st, r);
    var (after, blocks) := AllocRun(BlockSeg(st, r, place, seg), r.nbr, r.size, AlignOf(r));
    Carving(table, blocks, if place == Share(st.heap) then after else heapSeg, after)
  }

  /** The state when carving is over and nothing is linked yet. */
  function AfterCarving(st: State, place: Place, c: Carving): State {
    var segs := st.segs[st.heap := c.heapSeg];
    st.(mem := StoreTable(st.cpu, st.mem, c.table, c.blocks),
        segs := if place.Share? then segs[place.head := c.seg] else segs)
  }

  function NewPool(k: MemPool, r: Req, plan: Plan, table: Word): Pool
    requires plan.Go?
  {
    Pool(if plan.place.Share? then plan.place.head else k, plan.start, Wrap(plan.start + plan.total - 1), plan.total,
         table, AlignOf(r), r.size, r.nbr, r.nbr % 0x1_0000)
  }

  function InsertAt<T>(s: seq<T>, at: nat, x: T): (t: seq<T>)
    requires at <= |s|
    ensures |t| == |s| + 1
    ensures forall i :: 0 <= i < |t| ==> t[i] == if i < at then s[i] else if i == at then x else s[i - 1]
  {
    s[..at] + [x] + s[at..]
  }

  /** Record `k` linked: second in the column it shares, or a head of its own. */
  function Link(st: State, k: MemPool, place: Place, seg: Seg, pool: Pool): State
    requires place.Share? ==> place.head in st.cols && |st.cols[place.head]| >= 1
    requires place.Insert? ==> place.at <= |st.heads|
    requires !place.Overlap?
  {
    match place
    case Share(h) =>
      st.(cols := st.cols[h := [st.cols[h][0], k] + st.cols[h][1..]], pools := st.pools[k := pool])
    case Insert(i) =>
      st.(heads := InsertAt(st.heads, i, k), segs := st.segs[k := seg],
          cols := st.cols[k := [k]], pools := st.pools[k := pool])
  }

  /** Mem_PoolCreate: the new state, the error code and the octets reported. */
  function Create(st: State, k: MemPool, r: Req): (State, Err, Word)
    requires Linked(st)
  {
    var plan := Decide(st, r);
    if plan.Refuse? then (st, plan.err, plan.octets)
    else
      var c := Carve(st, r, plan.place, plan.seg);
      var carved := AfterCarving(st, plan.place, c);
      if |c.blocks| < r.nbr then (carved, ErrSegEmpty, 0)
      else (Link(carved, k, plan.place, c.seg, NewPool(k, r, plan, c.table)), ErrNone, 0)
  }

  // ----------------------------------------- Mem_PoolBlkGet, Mem_PoolBlkFree

  function BlkGet(st: State, p: MemPool, size: Word): (State, Word, Err) {
    if p !in st.pools then (st, NULL, ErrInvalidPool)
    else
      var pool := st.pools[p];
      if size > pool.blkSize then (st, NULL, ErrInvalidBlkSize)
      else if pool.blkIx < 1 then (st, NULL, ErrNoneAvail)
      else if pool.blkIx > pool.blkNbr then (st, NULL, ErrInvalidBlkIx)
      else (st.(pools := st.pools[p := pool.(blkIx := pool.blkIx - 1)]),
            TableEntry(st.cpu, st.mem, pool.ptrs, pool.blkIx - 1), ErrNone)
  }

  /** An address that gets as far as the address check, and lies in the body, is
      divided by the stride, which must not have wrapped to 0. */
  predicate Checkable(st: State, p: MemPool, blk: Word) {
    && p in st.pools && blk != NULL
    && st.pools[p].blkIx < st.pools[p].blkNbr && st.pools[p].start <= blk <= st.pools[p].end
    ==> st.pools[p].align >= 1 && CheckedStride(st.pools[p].blkSize, st.pools[p].align) != 0
  }

  function BlkFree(st: State, p: MemPool, blk: Word): (State, Err)
    requires Checkable(st, p, blk)
  {
    if blk == NULL then (st, ErrNullPtr)
    else if p !in st.pools then (st, ErrInvalidPool)
    else
      var pool := st.pools[p];
      if pool.blkIx >= pool.blkNbr then (st, ErrPoolFull)
      else if !IsValidAddr(pool.start, pool.end, pool.blkSize, pool.align, blk) then (st, ErrInvalidAddr)
      else if blk in FreeStack(st.cpu, st.mem, pool) then (st, ErrInvalidAddr)
      else (st.(mem := Set32(st.cpu, st.mem, Wrap(pool.ptrs + 4 * pool.blkIx), blk),
                pools := st.pools[p := pool.(blkIx := (pool.blkIx + 1) % 0x1_0000)]), ErrNone)
  }
}
