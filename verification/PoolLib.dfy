/** lib_mem.c's pool functions on MEM_POOL records linked by pointers, proved to
    compute the functions of PoolTable on every input. */
module PoolLib {
  import opened Machine
  import opened Segments
  import opened BlockCheck
  import opened PoolRecord
  import opened PoolTable
  import opened PoolSearch
  import Creation = PoolCreation
  import opened PoolErrors
  import Links = PoolLinks
  import MemOps

  /** The segment part of a record. */
  function SegOf(p: MemPool): Seg
    reads p`segAddr, p`segSizeTot, p`segAddrNextAvail, p`segSizeRem
  {
    Seg(p.segAddr, p.segSizeTot, p.segAddrNextAvail, p.segSizeRem)
  }

  /** The pool part of a record; the column it is in cannot be read off the record. */
  ghost predicate IsRecordOf(p: MemPool, pool: Pool)
    reads p`poolType, p`poolAddrStart, p`poolAddrEnd, p`poolSize, p`poolPtrs, p`blkAlign, p`blkSize, p`blkNbr, p`blkIx
  {
    && p.poolType == TypePool
    && p.poolAddrStart == pool.start && p.poolAddrEnd == pool.end && p.poolSize == pool.poolSize
    && p.poolPtrs == pool.ptrs && p.blkAlign == pool.align && p.blkSize == pool.blkSize
    && p.blkNbr == pool.blkNbr && p.blkIx == pool.blkIx
  }

  function Before(s: seq<MemPool>, i: int): MemPool?
    requires 0 <= i < |s|
  {
    if i == 0 then null else s[i - 1]
  }

  function After(s: seq<MemPool>, i: int): MemPool?
    requires 0 <= i < |s|
  {
    if i + 1 < |s| then s[i + 1] else null
  }

  ghost predicate SegLinks(p: MemPool, prev: MemPool?, next: MemPool?)
    reads p`segPrev, p`segNext
  {
    p.segPrev == prev && p.segNext == next
  }

  ghost predicate PoolLinks(p: MemPool, prev: MemPool?, next: MemPool?)
    reads p`poolPrev, p`poolNext
  {
    p.poolPrev == prev && p.poolNext == next
  }

  ghost predicate SegmentsHold(heads: seq<MemPool>, segs: map<MemPool, Seg>)
    reads (set h | h in heads)`segAddr, (set h | h in heads)`segSizeTot
    reads (set h | h in heads)`segAddrNextAvail, (set h | h in heads)`segSizeRem
  {
    forall h :: h in heads ==> h in segs && SegOf(h) == segs[h]
  }

  ghost predicate PoolsHold(pools: map<MemPool, Pool>)
    reads pools.Keys`poolType, pools.Keys`poolAddrStart, pools.Keys`poolAddrEnd, pools.Keys`poolSize
    reads pools.Keys`poolPtrs, pools.Keys`blkAlign, pools.Keys`blkSize, pools.Keys`blkNbr, pools.Keys`blkIx
  {
    forall p :: p in pools ==> IsRecordOf(p, pools[p]) && pools[p].ptrs % 4 == 0
  }

  /** The pointers of the heads spell out the horizontal list. */
  ghost predicate HeadsListed(heads: seq<MemPool>)
    reads (set h | h in heads)`segPrev, (set h | h in heads)`segNext
  {
    forall i :: 0 <= i < |heads| ==> SegLinks(heads[i], Before(heads, i), After(heads, i))
  }

  /** The pointers of a column's records spell out the vertical list. */
  ghost predicate ColumnListed(col: seq<MemPool>)
    reads (set p | p in col)`poolPrev, (set p | p in col)`poolNext
  {
    forall i :: 0 <= i < |col| ==> PoolLinks(col[i], Before(col, i), After(col, i))
  }

  ghost predicate ColumnsListed(cols: map<MemPool, seq<MemPool>>)
    reads (set h, p | h in cols && p in cols[h] :: p)`poolPrev, (set h, p | h in cols && p in cols[h] :: p)`poolNext
  {
    forall h :: h in cols ==> ColumnListed(cols[h])
  }

  ghost predicate Distinct(s: seq<MemPool>) {
    forall i, j :: 0 <= i < j < |s| ==> s[i] != s[j]
  }

  /** Links `k` below the head of a column. */
  method LinkBelow(k: MemPool, h: MemPool, ghost col: seq<MemPool>)
    requires |col| >= 1 && col[0] == h && k !in col && Distinct(col) && ColumnListed(col)
    modifies k`poolPrev, k`poolNext, h`poolNext, (if |col| > 1 then {col[1]} else {})`poolPrev
    ensures ColumnListed([h, k] + col[1..])
  {
    assert PoolLinks(col[0], null, After(col, 0));
    var next := h.poolNext;
    k.poolPrev, k.poolNext := h, next;
    h.poolNext := k;
    if next != null {
      next.poolPrev := k;
    }
    ghost var wider := [h, k] + col[1..];
    forall i | 2 <= i < |wider|
      ensures PoolLinks(wider[i], Before(wider, i), After(wider, i))
    {
      assert wider[i] == col[i - 1] && old(PoolLinks(col[i - 1], Before(col, i - 1), After(col, i - 1)));
    }
  }

  /** Links `k` into the horizontal list between `prev` and `next`. */
  method LinkBetween(k: MemPool, prev: MemPool?, next: MemPool?, ghost heads: seq<MemPool>, ghost at: nat)
    requires at <= |heads| && k !in heads && Distinct(heads) && HeadsListed(heads)
    requires prev == (if at == 0 then null else heads[at - 1])
    requires next == (if at < |heads| then heads[at] else null)
    modifies k`segPrev, k`segNext
    modifies (if prev == null then {} else {prev})`segNext, (if next == null then {} else {next})`segPrev
    ensures HeadsListed(InsertAt(heads, at, k))
  {
    hide InsertAt;
    k.segPrev, k.segNext := prev, next;
    if prev != null {
      prev.segNext := k;
    }
    if next != null {
      next.segPrev := k;
    }
    ghost var wider := InsertAt(heads, at, k);
    Neighbours(heads, at, k, at);
    assert SegLinks(k, Before(wider, at), After(wider, at));
    forall i | 0 <= i < |heads|
      ensures var j := if i < at then i else i + 1; SegLinks(heads[i], Before(wider, j), After(wider, j))
    {
      assert old(SegLinks(heads[i], Before(heads, i), After(heads, i)));
      Neighbours(heads, at, k, if i < at then i else i + 1);
    }
    ListedEverywhere(heads, at, k);
  }

  /** What stands at `j` of the longer list, and on either side of it. */
  lemma Neighbours(heads: seq<MemPool>, at: nat, k: MemPool, j: int)
    requires at <= |heads| && 0 <= j <= |heads|
    ensures var wider := InsertAt(heads, at, k);
            && |wider| == |heads| + 1
            && (j < at ==> wider[j] == heads[j] && Before(wider, j) == Before(heads, j)
                           && After(wider, j) == if j + 1 == at then k else After(heads, j))
            && (j == at ==> wider[j] == k && Before(wider, j) == (if at == 0 then null else heads[at - 1])
                            && After(wider, j) == (if at < |heads| then heads[at] else null))
            && (j > at ==> wider[j] == heads[j - 1] && After(wider, j) == After(heads, j - 1)
                           && Before(wider, j) == if j == at + 1 then k else Before(heads, j - 1))
  {
  }

  lemma ListedEverywhere(heads: seq<MemPool>, at: nat, k: MemPool)
    requires at <= |heads|
    requires var wider := InsertAt(heads, at, k); SegLinks(k, Before(wider, at), After(wider, at))
    requires forall i :: 0 <= i < |heads| ==>
               var j, wider := if i < at then i else i + 1, InsertAt(heads, at, k);
               SegLinks(heads[i], Before(wider, j), After(wider, j))
    ensures HeadsListed(InsertAt(heads, at, k))
  {
    hide SegLinks, Before, After;
    var wider := InsertAt(heads, at, k);
    hide InsertAt;
    forall j | 0 <= j < |wider|
      ensures SegLinks(wider[j], Before(wider, j), After(wider, j))
    {
      if j == at {
        assert wider[j] == k;
      } else {
        var i := if j < at then j else j - 1;
        assert wider[j] == heads[i];
      }
    }
  }

  /** Every record the table links. */
  ghost function Records(st: State): set<MemPool> {
    {st.heap} + st.pools.Keys + (set h | h in st.heads)
    + (set h, p | h in st.cols && p in st.cols[h] :: p)
  }

  lemma NotLinked(st: State, k: MemPool)
    requires Linked(st) && k !in st.pools && k != st.heap
    ensures k !in Records(st)
  {
    Links.FreshIsNoHead(st, k);
  }

  method InitHeap(p: MemPool, addr: Word, size: Word)
    modifies p
    ensures p.poolType == TypeHeap && SegOf(p) == Seg(addr, size, addr, size)
    ensures p.segAddr == p.segAddrNextAvail == addr && p.segSizeTot == p.segSizeRem == size
    ensures SegLinks(p, null, null) && PoolLinks(p, null, null)
  {
    p.poolType := TypeHeap;
    p.segPrev, p.segNext, p.poolPrev, p.poolNext := null, null, null, null;
    p.poolAddrStart, p.poolAddrEnd, p.poolPtrs := NULL, NULL, NULL;
    p.blkSize, p.blkNbr, p.blkIx := 0, 0, 0;
    p.segAddr, p.segAddrNextAvail := addr, addr;
    p.segSizeTot, p.segSizeRem := size, size;
  }

  /** Mem_PoolSegAlloc. */
  method SegAllocate(p: MemPool, size: Word, align: Word) returns (addr: Word)
    requires align >= 1
    modifies p`segAddrNextAvail, p`segSizeRem
    ensures (SegOf(p), addr) == SegAlloc(old(SegOf(p)), size, align)
  {
    hide AlignGap, Wrap;
    var offset := AlignGap(p.segAddrNextAvail, align);
    var sizeTot := Wrap(offset + size);
    if sizeTot > p.segSizeRem {
      return NULL;
    }
    addr := Wrap(p.segAddrNextAvail + offset);
    AddAfterWrap(p.segAddrNextAvail + offset, size);
    p.segAddrNextAvail := Wrap(addr + size);
    p.segSizeRem := p.segSizeRem - sizeTot;
  }

  lemma AddAfterWrap(x: int, n: int)
    ensures Wrap(Wrap(x) + n) == Wrap(x + n)
  {
  }

  lemma EntryAligned(table: Word, i: int)
    requires table % 4 == 0
    ensures Wrap(table + 4 * i) % 4 == 0
  {
    var x := table + 4 * i;
    assert Wrap(x) == 4 * (table / 4 + i - 0x4000_0000 * (x / 0x1_0000_0000));
    hide Wrap;
  }

  /** Entry `i` of a table of `nbr` entries lies in the table. */
  lemma EntryInside(table: Word, i: int, nbr: Word)
    requires 0 <= i < nbr
    ensures MemOps.Inside(Wrap(table + 4 * i), 4, table, 4 * nbr)
  {
    WrapBehind(table, 4 * i);
  }

  lemma WrapBehind(p: Word, n: nat)
    ensures Minus(Wrap(p + n), p) <= n
  {
    var q := Wrap(p + n);
    assert (p + n) / 0x1_0000_0000 >= 0;
  }

  lemma EmptyTable(cpu: Endian, m: Mem, table: Word)
    ensures StoreTable(cpu, m, table, []) == m
  {
  }

  lemma StoreTableStep(cpu: Endian, m: Mem, table: Word, blocks: seq<Word>, b: Word)
    ensures StoreTable(cpu, m, table, blocks + [b]) ==
            Set32(cpu, StoreTable(cpu, m, table, blocks), Wrap(table + 4 * |blocks|), b)
  {
    hide Set32, Wrap;
    assert (blocks + [b])[..|blocks|] == blocks;
  }

  lemma {:induction false} RunEnds(s: Seg, m: nat, n: nat, size: Word, align: Word)
    requires align >= 1 && m <= n && |AllocRun(s, m, size, align).1| < m
    ensures AllocRun(s, n, size, align) == AllocRun(s, m, size, align)
  {
    hide SegAlloc;
    if m < n {
      RunEnds(s, m, n - 1, size, align);
    }
  }

  /** The allocation loop: carve blocks from `blk` and enter them in the table, until one is refused. */
  method CarveBlocks(cpu: Endian, ram: array<Octet>, blk: MemPool, table: Word, nbr: Word, size: Word, align: Word)
    returns (count: Word, ghost blocks: seq<Word>)
    requires ram.Length == ADDR_SPACE && table % 4 == 0 && align >= 1
    modifies ram, blk`segAddrNextAvail, blk`segSizeRem
    ensures (SegOf(blk), blocks) == AllocRun(old(SegOf(blk)), nbr, size, align) && count == |blocks|
    ensures ram[..] == StoreTable(cpu, old(ram[..]), table, blocks)
  {
    hide SegAlloc, SegOf, Set32, Wrap, StoreTable;
    assert StoreTable(cpu, ram[..], table, []) == ram[..] by { EmptyTable(cpu, ram[..], table); }
    count, blocks := 0, [];
    while count < nbr
      invariant count <= nbr && count == |blocks|
      invariant (SegOf(blk), blocks) == AllocRun(old(SegOf(blk)), count, size, align)
      invariant ram[..] == StoreTable(cpu, old(ram[..]), table, blocks)
    {
      var addr := SegAllocate(blk, size, align);
      if addr == NULL {
        RunEnds(old(SegOf(blk)), count + 1, nbr, size, align);
        return;
      }
      EntryAligned(table, count);
      StoreTableStep(cpu, old(ram[..]), table, blocks, addr);
      EntryInside(table, count, nbr);
      MemOps.StoreWord(cpu, ram, Wrap(table + 4 * count), addr, table, 4 * nbr);
      blocks := blocks + [addr];
      count := count + 1;
    }
  }

  lemma TableAligned(s: Seg, size: Word)
    ensures SegAlloc(s, size, 4).1 % 4 == 0
  {
    assert Multiple(s.next + AlignGap(s.next, 4), 4);
  }

  /** A record before anything is known of the request: no pool, no links. */
  method ResetRecord(p: MemPool)
    modifies p
    ensures p.poolType == TypeNone && p.segAddr == NULL && SegLinks(p, null, null) && PoolLinks(p, null, null)
  {
    p.poolType := TypeNone;
    p.segPrev, p.segNext, p.poolPrev, p.poolNext := null, null, null, null;
    p.poolAddrStart, p.poolAddrEnd, p.poolPtrs := NULL, NULL, NULL;
    p.poolSize, p.blkAlign, p.blkSize, p.blkNbr, p.blkIx := 0, 0, 0, 0, 0;
    p.segAddr, p.segAddrNextAvail, p.segSizeTot, p.segSizeRem := NULL, NULL, 0, 0;
  }

  /** The last lines of Mem_PoolCreate. */
  method Configure(p: MemPool, start: Word, total: Word, table: Word, r: Req, ghost head: MemPool)
    modifies p`poolType, p`poolAddrStart, p`poolAddrEnd, p`poolPtrs, p`poolSize
    modifies p`blkAlign, p`blkSize, p`blkNbr, p`blkIx
    ensures IsRecordOf(p, Pool(head, start, Wrap(start + total - 1), total, table,
                               AlignOf(r), r.size, r.nbr, r.nbr % 0x1_0000))
  {
    p.poolType := TypePool;
    p.poolAddrStart := start;
    p.poolAddrEnd := Wrap(start + total - 1);
    p.poolPtrs := table;
    p.poolSize := total;
    p.blkAlign := AlignOf(r);
    p.blkSize := r.size;
    p.blkNbr := r.nbr;
    p.blkIx := r.nbr % 0x1_0000;
  }

  class MemLib {
    const cpu: Endian
    const ram: array<Octet>
    const heapAddr: Word
    const heapSize: Word
    const heap: MemPool
    var poolTbl: MemPool?
    ghost var st: State

    ghost predicate Valid()
      reads this, ram, Records(st)
    {
      && ContentsHold(st)
      && poolTbl == (if st.heads == [] then null else st.heads[0])
      && HeadsListed(st.heads)
      && ColumnsListed(st.cols)
    }

    /** All of `Valid` but the pointers, which are set while memory, segments and pools stay as they are. */
    ghost predicate ContentsHold(s: State)
      reads ram, s.heap`poolType
      reads (set h | h in s.heads)`segAddr, (set h | h in s.heads)`segSizeTot
      reads (set h | h in s.heads)`segAddrNextAvail, (set h | h in s.heads)`segSizeRem
      reads s.pools.Keys`poolType, s.pools.Keys`poolAddrStart, s.pools.Keys`poolAddrEnd, s.pools.Keys`poolSize
      reads s.pools.Keys`poolPtrs, s.pools.Keys`blkAlign, s.pools.Keys`blkSize, s.pools.Keys`blkNbr, s.pools.Keys`blkIx
    {
      && ram.Length == ADDR_SPACE && ram[..] == s.mem && s.cpu == cpu && s.heap == heap
      && Linked(s)
      && SegmentsHold(s.heads, s.segs)
      && PoolsHold(s.pools) && s.heap.poolType != TypePool
    }

    /** Before Mem_Init: nothing is linked. */
    constructor (cpu: Endian, ram: array<Octet>, heapAddr: Word, heapSize: Word)
      requires ram.Length == ADDR_SPACE
      ensures Valid() && st.heads == [] && fresh(heap)
      ensures this.cpu == cpu && this.ram == ram && this.heapAddr == heapAddr && this.heapSize == heapSize
    {
      this.cpu, this.ram, this.heapAddr, this.heapSize := cpu, ram, heapAddr, heapSize;
      var poolHeap := new MemPool();
      heap := poolHeap;
      poolTbl := null;
      st := State(cpu, ram[..], poolHeap, [], map[], map[], map[]);
    }

    method Init()
      requires Valid()
      modifies this`poolTbl, this`st, heap
      ensures Valid() && st == Initial(cpu, old(st).mem, heap, heapAddr, heapSize)
      ensures poolTbl == heap && heap.poolType == TypeHeap
      ensures heap.segAddr == heap.segAddrNextAvail == heapAddr && heap.segSizeTot == heap.segSizeRem == heapSize
    {
      hide Linked, SegOf, SegLinks, PoolLinks;
      InitHeap(heap, heapAddr, heapSize);
      poolTbl := heap;
      st := Initial(cpu, st.mem, heap, heapAddr, heapSize);
      Links.InitialLinked(cpu, st.mem, heap, heapAddr, heapSize);
    }

    lemma RecordTells(p: MemPool)
      requires Valid()
      ensures p in st.pools ==> IsRecordOf(p, st.pools[p]) && st.pools[p].ptrs % 4 == 0
    {
      hide Linked, SegmentsHold, HeadsListed, ColumnsListed;
    }

    lemma HeadTells(i: int)
      requires Valid() && 0 <= i < |st.heads|
      ensures st.heads[i] in st.segs && SegOf(st.heads[i]) == st.segs[st.heads[i]]
      ensures SegLinks(st.heads[i], Before(st.heads, i), After(st.heads, i))
    {
      hide Linked, PoolsHold, ColumnsListed, SegOf, SegLinks;
    }

    lemma TableTells()
      requires Valid()
      ensures poolTbl == if st.heads == [] then null else st.heads[0]
      ensures forall h :: h in st.heads ==> h in st.segs
    {
      hide Linked, PoolsHold, HeadsListed, ColumnsListed, SegOf;
    }

    lemma EmptyIffNull()
      requires Valid()
      ensures poolTbl == null <==> st.heads == []
    {
      hide Linked, ContentsHold, HeadsListed, ColumnsListed;
    }

    /** Moves a pool's index; nothing else of the table changes. */
    method SetIndex(pool: MemPool, ix: Word)
      requires Valid() && pool in st.pools
      modifies this`st, pool`blkIx
      ensures Valid() && st == old(st).(pools := old(st).pools[pool := old(st).pools[pool].(blkIx := ix)])
      ensures pool.blkIx == ix
    {
      hide Linked, SegmentsHold, HeadsListed, ColumnsListed;
      Links.IndexKeepsLinked(st, pool, ix);
      pool.blkIx := ix;
      st := st.(pools := st.pools[pool := st.pools[pool].(blkIx := ix)]);
    }

    /** Loads PoolPtrs[i]. */
    method LoadEntry(table: Word, i: Word, ghost nbr: Word) returns (w: Word)
      requires Valid() && table % 4 == 0 && i < nbr
      ensures Valid() && w == TableEntry(cpu, st.mem, table, i)
    {
      hide Linked, Get32, SegmentsHold, PoolsHold, HeadsListed, ColumnsListed;
      EntryAligned(table, i);
      EntryInside(table, i, nbr);
      w := MemOps.LoadWord(cpu, ram, Wrap(table + 4 * i), table, 4 * nbr);
    }

    /** Stores PoolPtrs[i]. */
    method StoreEntry(table: Word, i: Word, w: Word, ghost nbr: Word)
      requires Valid() && table % 4 == 0 && i < nbr
      modifies this`st, ram
      ensures Valid() && st == old(st).(mem := Set32(cpu, old(st).mem, Wrap(table + 4 * i), w))
    {
      hide Linked, Set32, SegmentsHold, PoolsHold, HeadsListed, ColumnsListed;
      EntryAligned(table, i);
      EntryInside(table, i, nbr);
      MemOps.StoreWord(cpu, ram, Wrap(table + 4 * i), w, table, 4 * nbr);
      ghost var before := st;
      st := st.(mem := ram[..]);
      Links.MemoryKeepsLinked(before, ram[..]);
    }

    // ------------------------------------------------------ Mem_PoolBlkGet

    method BlkGet(pool: MemPool?, size: Word) returns (blk: Word, err: Err)
      requires Valid()
      requires pool != null && pool.poolType == TypePool ==> pool in st.pools
      modifies this`st, if pool == null then {} else {pool}
      ensures Valid()
      ensures pool == null ==> err == ErrNullPtr && blk == NULL && st == old(st)
      ensures pool != null ==> (st, blk, err) == PoolTable.BlkGet(old(st), pool, size)
      ensures pool != null ==>
                && (err == ErrInvalidPool <==> old(pool.poolType) != TypePool)
                && (err == ErrInvalidBlkSize <==> old(pool.poolType) == TypePool && size > old(pool.blkSize))
                && (err == ErrNone <==> old(pool.poolType) == TypePool && size <= old(pool.blkSize)
                                        && 1 <= old(pool.blkIx) <= old(pool.blkNbr))
                && (err == ErrNoneAvail <==> old(pool.poolType) == TypePool && size <= old(pool.blkSize)
                                             && old(pool.blkIx) == 0)
                && (err == ErrInvalidBlkIx <==> old(pool.poolType) == TypePool && size <= old(pool.blkSize)
                                                && old(pool.blkIx) != 0 && old(pool.blkIx) > old(pool.blkNbr))
      ensures err != ErrNone ==> blk == NULL && st == old(st)
      ensures err == ErrNone ==> pool.blkIx == old(pool.blkIx) - 1
    {
      hide Linked, TableEntry, SegmentsHold, PoolsHold, HeadsListed, ColumnsListed;
      if pool == null {
        return NULL, ErrNullPtr;
      }
      RecordTells(pool);
      if pool.poolType != TypePool {
        return NULL, ErrInvalidPool;
      }
      if size > pool.blkSize {
        return NULL, ErrInvalidBlkSize;
      }
      if pool.blkIx < 1 {
        return NULL, ErrNoneAvail;
      }
      if pool.blkIx > pool.blkNbr {
        return NULL, ErrInvalidBlkIx;
      }
      SetIndex(pool, pool.blkIx - 1);
      RecordTells(pool);
      blk := LoadEntry(pool.poolPtrs, pool.blkIx, pool.blkNbr);
      err := ErrNone;
    }

    // ----------------------------------------------------- Mem_PoolBlkFree

    /** Is `blk` among the first `blkIx` entries of the pool's table? */
    method OnFreeStack(pool: MemPool, blk: Word) returns (found: bool)
      requires Valid() && pool in st.pools && pool.blkIx < pool.blkNbr
      ensures Valid() && (found <==> blk in FreeStack(cpu, st.mem, st.pools[pool]))
    {
      hide Linked, TableEntry, SegmentsHold, PoolsHold, HeadsListed, ColumnsListed;
      RecordTells(pool);
      ghost var stack := FreeStack(cpu, st.mem, st.pools[pool]);
      for i := 0 to pool.blkIx
        invariant Valid() && blk !in stack[..i]
      {
        var entry := LoadEntry(pool.poolPtrs, i, pool.blkNbr);
        assert entry == stack[i];
        if blk == entry {
          return true;
        }
      }
      return false;
    }

    method BlkFree(pool: MemPool?, blk: Word) returns (err: Err)
      requires Valid()
      requires pool != null && pool.poolType == TypePool ==> pool in st.pools
      requires pool != null ==> Checkable(st, pool, blk)
      modifies this`st, ram, if pool == null then {} else {pool}
      ensures Valid()
      ensures pool == null ==> err == ErrNullPtr && st == old(st)
      ensures pool != null ==> (st, err) == PoolTable.BlkFree(old(st), pool, blk)
      ensures err == ErrNullPtr <==> pool == null || blk == NULL
      ensures pool != null && blk != NULL ==>
                && (err == ErrInvalidPool <==> old(pool.poolType) != TypePool)
                && (err == ErrPoolFull <==> old(pool.poolType) == TypePool && old(pool.blkIx) >= old(pool.blkNbr))
      ensures err in {ErrNone, ErrNullPtr, ErrInvalidPool, ErrPoolFull, ErrInvalidAddr}
      ensures err != ErrNone ==> st == old(st) && ram[..] == old(ram[..])
      ensures err == ErrNone ==> pool.blkIx == (old(pool.blkIx) + 1) % 0x1_0000
    {
      hide Linked, FreeStack, IsValidAddr, CheckedStride, Set32, SegmentsHold, PoolsHold, HeadsListed, ColumnsListed;
      if pool == null || blk == NULL {
        return ErrNullPtr;
      }
      RecordTells(pool);
      if pool.poolType != TypePool {
        return ErrInvalidPool;
      }
      if pool.blkIx >= pool.blkNbr {
        return ErrPoolFull;
      }
      if !IsValidAddr(pool.poolAddrStart, pool.poolAddrEnd, pool.blkSize, pool.blkAlign, blk) {
        return ErrInvalidAddr;
      }
      var free := OnFreeStack(pool, blk);
      if free {
        return ErrInvalidAddr;
      }
      StoreEntry(pool.poolPtrs, pool.blkIx, blk, pool.blkNbr);
      RecordTells(pool);
      SetIndex(pool, (pool.blkIx + 1) % 0x1_0000);
      return ErrNone;
    }

    // ------------------------------------------------------ Mem_PoolCreate

    /** The search of the segment list: a segment found is both `prev` and `next`;
        a new one belongs between them. */
    method FindSegment(base: Word, memSize: Word) returns (overlap: bool, blk: MemPool?, prev: MemPool?, next: MemPool?)
      requires Valid() && st.heads != []
      ensures forall h :: h in st.heads ==> h in st.segs
      ensures match Search(st.heads, st.segs, base, memSize, 0)
              case Overlap => overlap
              case Share(h) => !overlap && blk == h && prev == h && next == h
              case Insert(at) => !overlap && blk == null
                                 && prev == (if at == 0 then null else st.heads[at - 1])
                                 && next == (if at < |st.heads| then st.heads[at] else null)
    {
      hide Linked, SegmentsHold, PoolsHold, HeadsListed, ColumnsListed, TestedOverlap, Wrap;
      TableTells();
      overlap, blk, prev, next := false, null, null, poolTbl;
      var last := Wrap(base + memSize - 1);
      ghost var i := 0;
      while next != null
        invariant Valid() && 0 <= i <= |st.heads| && !overlap && blk == null
        invariant prev == if i == 0 then null else st.heads[i - 1]
        invariant next == if i < |st.heads| then st.heads[i] else null
        invariant Search(st.heads, st.segs, base, memSize, 0) == Search(st.heads, st.segs, base, memSize, i)
        decreases |st.heads| - i
      {
        HeadTells(i);
        if base == next.segAddr && memSize == next.segSizeTot {
          blk, prev := next, next;
          return;
        }
        var segLast := Wrap(next.segAddr + next.segSizeTot - 1);
        if last < next.segAddr {
          return;
        }
        if TestedOverlap(base, last, next.segAddr, segLast) {
          overlap := true;
          return;
        }
        prev, next := next, next.segNext;
        i := i + 1;
      }
    }

    /** What the pointer variables of Mem_PoolCreate mean once a place is decided. */
    ghost predicate Placed(pool: MemPool, plan: Plan, blk: MemPool, prev: MemPool?, next: MemPool?)
      requires plan.Go?
      reads this`st, pool`segAddr, pool`segSizeTot, pool`segAddrNextAvail, pool`segSizeRem
    {
      match plan.place
      case Share(h) => h in st.heads && blk == h && prev == h && next == h
      case Insert(at) => at <= |st.heads| && blk == pool && SegOf(pool) == plan.seg
                         && prev == (if at == 0 then null else st.heads[at - 1])
                         && next == (if at < |st.heads| then st.heads[at] else null)
      case Overlap => false
    }

    method CheckArgs(r: Req) returns (err: Err)
      requires Valid()
      ensures Valid() && err == ArgError(st, r)
    {
      hide Linked, SegmentsHold, PoolsHold, HeadsListed, ColumnsListed;
      if r.base != NULL {
        if r.memSize < 1 {
          return ErrInvalidSegSize;
        }
      }
      if r.nbr < 1 {
        return ErrInvalidBlkNbr;
      }
      if r.size < 1 {
        return ErrInvalidBlkSize;
      }
      if poolTbl == null {
        return ErrHeapNotFound;
      }
      return ErrNone;
    }

    method PlanHeap(r: Req) returns (err: Err, octets: Word, start: Word, total: Word)
      requires Valid() && st.heads != []
      ensures Valid() && st.heap in st.segs
      ensures match PlanOnHeap(st, r)
              case Refuse(e, n) => err == e && octets == n
              case Go(_, _, s, t) => err == ErrNone && octets == 0 && start == s && total == t
    {
      hide Linked, ContentsHold, HeadsListed, ColumnsListed, CalcTotSize, Wrap;
      HeapTells();
      var ptrs := CalcTotSize(heap.segAddrNextAvail, r.nbr, 4, 4);
      start := Wrap(heap.segAddrNextAvail + ptrs);
      total := CalcTotSize(start, r.nbr, r.size, AlignOf(r));
      var both, rem := Wrap(ptrs + total), heap.segSizeRem;
      if both > rem {
        return ErrHeapEmpty, both - rem, start, total;
      }
      return ErrNone, 0, start, total;
    }

    lemma SegmentTells(h: MemPool)
      requires Valid() && h in st.heads
      ensures h in st.segs && SegOf(h) == st.segs[h]
    {
      hide Linked, PoolsHold, HeadsListed, ColumnsListed, SegOf;
    }

    lemma HeapTells()
      requires Valid() && st.heads != []
      ensures st.heap == heap && heap in st.segs && SegOf(heap) == st.segs[heap] && heap in st.heads
    {
      hide PoolsHold, HeadsListed, ColumnsListed, SegOf;
    }

    method PlanSegment(blk: MemPool, r: Req, ghost place: Place)
      returns (err: Err, octets: Word, start: Word, total: Word)
      requires Valid() && st.heads != []
      ensures Valid() && st.heap in st.segs
      ensures match PlanOnSegment(st, r, place, SegOf(blk))
              case Refuse(e, n) => err == e && octets == n
              case Go(_, _, s, t) => err == ErrNone && octets == 0 && start == s && total == t
    {
      hide Linked, ContentsHold, HeadsListed, ColumnsListed, CalcTotSize, Wrap;
      HeapTells();
      var ptrs, rem := CalcTotSize(heap.segAddrNextAvail, r.nbr, 4, 4), heap.segSizeRem;
      if ptrs > rem {
        return ErrHeapEmpty, ptrs - rem, NULL, 0;
      }
      start := blk.segAddrNextAvail;
      total, rem := CalcTotSize(start, r.nbr, r.size, AlignOf(r)), blk.segSizeRem;
      if total > rem {
        return ErrSegEmpty, total - rem, start, total;
      }
      return ErrNone, 0, start, total;
    }

    /** The segment for a range: the one found, or the new record's own. */
    method ChooseSegment(pool: MemPool, base: Word, memSize: Word)
      returns (overlap: bool, blk: MemPool, prev: MemPool?, next: MemPool?)
      requires Valid() && st.heads != [] && pool !in Records(st)
      modifies pool`segAddr, pool`segAddrNextAvail, pool`segSizeTot, pool`segSizeRem
      ensures Valid() && forall h :: h in st.heads ==> h in st.segs
      ensures match Search(st.heads, st.segs, base, memSize, 0)
              case Overlap => overlap
              case Share(h) => !overlap && blk == h && prev == h && next == h && SegOf(blk) == st.segs[h]
              case Insert(at) => !overlap && blk == pool && SegOf(blk) == Seg(base, memSize, base, memSize)
                                 && prev == (if at == 0 then null else st.heads[at - 1])
                                 && next == (if at < |st.heads| then st.heads[at] else null)
    {
      hide Linked, ContentsHold, HeadsListed, ColumnsListed, Search;
      blk := pool;
      var found;
      overlap, found, prev, next := FindSegment(base, memSize);
      if overlap {
        return;
      }
      if found == null {
        pool.segAddr, pool.segAddrNextAvail := base, base;
        pool.segSizeTot, pool.segSizeRem := memSize, memSize;
      } else {
        blk := found;
        SegmentTells(blk);
      }
    }

    /** The checks for a pool in dedicated memory: its segment is found, or `pool` becomes a new one. */
    method PlanDedicated(pool: MemPool, r: Req)
      returns (err: Err, octets: Word, blk: MemPool, prev: MemPool?, next: MemPool?, start: Word, total: Word)
      requires Valid() && pool !in Records(st) && ArgError(st, r) == ErrNone && r.base != NULL
      modifies pool`segAddr, pool`segAddrNextAvail, pool`segSizeTot, pool`segSizeRem
      ensures Valid()
      ensures match Decide(st, r)
              case Refuse(e, n) => err == e && octets == n
              case Go(_, _, s, t) => err == ErrNone && octets == 0 && start == s && total == t
                                     && Placed(pool, Decide(st, r), blk, prev, next)
    {
      hide Valid, Linked, PlanOnSegment, Search, Decide, ArgError, SegOf;
      HeadsDistinct();
      GoodMeansHeads(st, r);
      HeapTells();
      TableTells();
      DedicatedDecides(st, r);
      octets, start, total := 0, NULL, 0;
      var overlap;
      overlap, blk, prev, next := ChooseSegment(pool, r.base, r.memSize);
      if overlap {
        err := ErrInvalidSegOverlap;
        return;
      }
      err, octets, start, total := PlanSegment(blk, r, Search(st.heads, st.segs, r.base, r.memSize, 0));
    }

    /** The checks that precede any allocation. */
    method PlanAllocation(pool: MemPool, r: Req)
      returns (err: Err, octets: Word, blk: MemPool, prev: MemPool?, next: MemPool?, start: Word, total: Word)
      requires Valid() && pool !in Records(st)
      modifies pool`segAddr, pool`segAddrNextAvail, pool`segSizeTot, pool`segSizeRem
      ensures Valid()
      ensures match Decide(st, r)
              case Refuse(e, n) => err == e && octets == n
              case Go(_, _, s, t) => err == ErrNone && octets == 0 && start == s && total == t
                                     && Placed(pool, Decide(st, r), blk, prev, next)
    {
      hide Linked, ContentsHold, HeadsListed, ColumnsListed, PlanOnHeap, PlanOnSegment, Search;
      HeadsDistinct();
      octets, blk, prev, next, start, total := 0, heap, heap, heap, NULL, 0;
      err := CheckArgs(r);
      if err != ErrNone {
        return;
      }
      HeapTells();
      if r.base == NULL {
        err, octets, start, total := PlanHeap(r);
      } else {
        err, octets, blk, prev, next, start, total := PlanDedicated(pool, r);
      }
    }

    /** Allocates from a linked segment. */
    method AllocateFrom(h: MemPool, size: Word, align: Word) returns (addr: Word)
      requires Valid() && h in st.heads && align >= 1
      modifies this`st, h`segAddrNextAvail, h`segSizeRem
      ensures h in old(st).segs && (SegOf(h), addr) == SegAlloc(old(st).segs[h], size, align)
      ensures Valid() && st == old(st).(segs := old(st).segs[h := SegOf(h)])
    {
      hide Linked, SegOf, SegAlloc, PoolsHold, HeadsListed, ColumnsListed;
      SegmentTells(h);
      Links.SegmentKeepsLinked(st, st.mem, h, SegAlloc(SegOf(h), size, align).0);
      addr := SegAllocate(h, size, align);
      st := st.(segs := st.segs[h := SegOf(h)]);
    }

    /** Carves blocks from a linked segment. */
    method CarveFrom(h: MemPool, table: Word, r: Req) returns (count: Word, ghost blocks: seq<Word>)
      requires Valid() && h in st.heads && table % 4 == 0
      modifies this`st, ram, h`segAddrNextAvail, h`segSizeRem
      ensures h in old(st).segs && count == |blocks|
      ensures (SegOf(h), blocks) == AllocRun(old(st).segs[h], r.nbr, r.size, AlignOf(r))
      ensures Valid()
      ensures st == old(st).(mem := StoreTable(cpu, old(st).mem, table, blocks), segs := old(st).segs[h := SegOf(h)])
    {
      hide Linked, SegOf, AllocRun, StoreTable, PoolsHold, HeadsListed, ColumnsListed;
      SegmentTells(h);
      ghost var before := st;
      count, blocks := CarveBlocks(cpu, ram, h, table, r.nbr, r.size, AlignOf(r));
      st := st.(mem := ram[..], segs := st.segs[h := SegOf(h)]);
      Links.SegmentKeepsLinked(before, ram[..], h, SegOf(h));
    }

    /** Carves blocks from a segment that is not linked yet. */
    method CarveNew(pool: MemPool, table: Word, r: Req) returns (count: Word, ghost blocks: seq<Word>)
      requires Valid() && pool !in Records(st) && table % 4 == 0
      modifies this`st, ram, pool`segAddrNextAvail, pool`segSizeRem
      ensures count == |blocks| && (SegOf(pool), blocks) == AllocRun(old(SegOf(pool)), r.nbr, r.size, AlignOf(r))
      ensures Valid() && st == old(st).(mem := StoreTable(cpu, old(st).mem, table, blocks))
    {
      hide Linked, SegOf, AllocRun, StoreTable, PoolsHold, HeadsListed, ColumnsListed;
      ghost var before := st;
      count, blocks := CarveBlocks(cpu, ram, pool, table, r.nbr, r.size, AlignOf(r));
      st := st.(mem := ram[..]);
      Links.MemoryKeepsLinked(before, ram[..]);
    }

    /** The allocations: the table from the heap, then the blocks from `blk`. */
    method CarvePool(pool: MemPool, r: Req, blk: MemPool, ghost plan: Plan)
      returns (table: Word, count: Word, ghost c: Carving)
      requires Valid() && st.heads != [] && pool !in Records(st)
      requires plan == Decide(st, r) && plan.Go?
      requires match plan.place
               case Share(h) => h in st.heads && blk == h
               case Insert(_) => blk == pool && SegOf(pool) == plan.seg
               case Overlap => false
      modifies this`st, ram, heap`segAddrNextAvail, heap`segSizeRem, blk`segAddrNextAvail, blk`segSizeRem
      ensures old(st).heap in old(st).segs
      ensures c == Carve(old(st), r, plan.place, plan.seg) && table == c.table && count == |c.blocks|
      ensures Valid() && st == AfterCarving(old(st), plan.place, c)
      ensures plan.place.Insert? ==> SegOf(pool) == c.seg
      ensures table % 4 == 0
    {
      hide Linked, SegmentsHold, PoolsHold, HeadsListed, ColumnsListed;
      hide Decide, SegOf, SegAlloc, AllocRun, StoreTable, Wrap;
      HeapTells();
      SegmentOrNew(blk);
      ghost var before, from := st, SegOf(blk);
      TableAligned(SegOf(heap), Wrap(4 * r.nbr));
      table := AllocateFrom(heap, Wrap(4 * r.nbr), 4);
      ghost var blocks;
      if blk == pool {
        count, blocks := CarveNew(pool, table, r);
      } else {
        count, blocks := CarveFrom(blk, table, r);
      }
      c := Carving(table, blocks, SegOf(heap), SegOf(blk));
    }

    lemma SegmentOrNew(h: MemPool)
      requires Valid()
      ensures h in st.heads ==> h in Records(st) && h in st.segs && SegOf(h) == st.segs[h]
    {
      hide Linked, PoolsHold, HeadsListed, ColumnsListed, SegOf;
    }

    lemma ColumnTells(pool: MemPool, h: MemPool)
      requires Valid() && pool !in Records(st) && h in st.heads
      ensures h in st.cols && |st.cols[h]| >= 1 && st.cols[h][0] == h && Distinct(st.cols[h]) && pool !in st.cols[h]
      ensures ColumnListed(st.cols[h])
      ensures forall g, x :: g in st.cols && g != h && x in st.cols[g] ==> x !in st.cols[h]
    {
      hide SegmentsHold, PoolsHold, HeadsListed, ColumnListed;
      assert ColumnLinked(st, h);
      forall g, x | g in st.cols && g != h && x in st.cols[g]
        ensures x !in st.cols[h]
      {
        var i :| 0 <= i < |st.cols[g]| && st.cols[g][i] == x;
        if x in st.cols[h] {
          var j :| 0 <= j < |st.cols[h]| && st.cols[h][j] == x;
          Links.OnePlace(st, g, i, h, j);
        }
      }
    }

    method LinkColumn(pool: MemPool, h: MemPool)
      requires Valid() && pool !in Records(st) && h in st.heads
      modifies pool`poolPrev, pool`poolNext, h`poolNext, Records(st)`poolPrev
      ensures h in st.cols && |st.cols[h]| >= 1 && st.cols[h][0] == h
      ensures ColumnsListed(st.cols[h := [h, pool] + st.cols[h][1..]])
      ensures ContentsHold(st) && HeadsListed(st.heads)
    {
      hide Linked, ContentsHold, HeadsListed, ColumnListed;
      ColumnTells(pool, h);
      ghost var cols := st.cols;
      assert |cols[h]| > 1 ==> cols[h][1] in cols[h] && cols[h][1] in Records(st);
      forall g, x | g in cols && g != h && x in cols[g]
        ensures x != pool && x != h && (|cols[h]| > 1 ==> x != cols[h][1])
      {
        assert x in Records(st) && x !in cols[h];
      }
      assert forall g :: g in cols && g != h ==> ColumnListed(cols[g]);
      LinkBelow(pool, h, cols[h]);
      forall g | g in cols && g != h
        ensures ColumnListed(cols[g])
      {
        assert old(ColumnListed(cols[g]));
      }
    }

    /** Fills in the record of the new pool, which the table does not know yet. */
    method ConfigureNew(pool: MemPool, start: Word, total: Word, table: Word, r: Req, ghost head: MemPool)
      requires ContentsHold(st) && pool !in st.pools && pool != st.heap
      modifies pool`poolType, pool`poolAddrStart, pool`poolAddrEnd, pool`poolPtrs, pool`poolSize
      modifies pool`blkAlign, pool`blkSize, pool`blkNbr, pool`blkIx
      ensures ContentsHold(st)
      ensures IsRecordOf(pool, Pool(head, start, Wrap(start + total - 1), total, table,
                                    AlignOf(r), r.size, r.nbr, r.nbr % 0x1_0000))
    {
      hide Linked, SegmentsHold, PoolsHold, IsRecordOf, AlignOf, Wrap;
      Configure(pool, start, total, table, r, head);
    }

    /** Fills in the record of a pool that is in the column of `h` already, and only there. */
    method ConfigureShared(pool: MemPool, h: MemPool, r: Req, start: Word, total: Word, table: Word, ghost seg: Seg)
      requires ContentsHold(st) && pool !in st.pools && pool != st.heap && h in st.heads && table % 4 == 0
      requires h in st.cols && |st.cols[h]| >= 1 && st.cols[h][0] == h
      requires poolTbl == st.heads[0] && HeadsListed(st.heads)
      requires ColumnsListed(st.cols[h := [h, pool] + st.cols[h][1..]])
      modifies this`st
      modifies pool`poolType, pool`poolAddrStart, pool`poolAddrEnd, pool`poolPtrs, pool`poolSize
      modifies pool`blkAlign, pool`blkSize, pool`blkNbr, pool`blkIx
      ensures Valid()
      ensures st == Link(old(st), pool, Share(h), seg, NewPool(pool, r, Go(Share(h), seg, start, total), table))
    {
      hide Valid, Linked, ContentsHold, HeadsListed, ColumnsListed, IsRecordOf, AlignOf, Wrap, Link, NewPool;
      NewPoolIs(pool, r, Go(Share(h), seg, start, total), table);
      ghost var before, rec := st, NewPool(pool, r, Go(Share(h), seg, start, total), table);
      ConfigureNew(pool, start, total, table, r, h);
      st := Link(before, pool, Share(h), seg, rec);
      SharedEntered(before, pool, h, seg, rec);
    }

    /** Enters the new pool in the column of `h` and fills in its record. */
    method EnterShared(pool: MemPool, h: MemPool, r: Req, start: Word, total: Word, table: Word, ghost seg: Seg)
      requires Valid() && pool !in Records(st) && h in st.heads && table % 4 == 0
      modifies this`st, pool, h`poolNext, Records(st)`poolPrev
      ensures h in old(st).cols && |old(st).cols[h]| >= 1
      ensures Valid()
      ensures st == Link(old(st), pool, Share(h), seg, NewPool(pool, r, Go(Share(h), seg, start, total), table))
    {
      hide Valid, Linked, ContentsHold, HeadsListed, ColumnsListed, Link, NewPool;
      TableTells();
      NotKnown(st, pool);
      LinkColumn(pool, h);
      ConfigureShared(pool, h, r, start, total, table, seg);
    }

    lemma SharedEntered(before: State, pool: MemPool, h: MemPool, seg: Seg, rec: Pool)
      requires ContentsHold(before) && pool !in before.pools && pool != before.heap && h in before.heads && rec.seg == h
      requires h in before.cols && |before.cols[h]| >= 1 && before.cols[h][0] == h
      requires st == Link(before, pool, Share(h), seg, rec)
      requires poolTbl == before.heads[0] && HeadsListed(before.heads)
      requires ColumnsListed(before.cols[h := [h, pool] + before.cols[h][1..]])
      requires IsRecordOf(pool, rec) && rec.ptrs % 4 == 0
      ensures Valid()
    {
      hide Linked, SegmentsHold, PoolsHold, HeadsListed, ColumnsListed, IsRecordOf;
      Links.ShareKeepsLinked(before, pool, h, seg, rec);
      PoolAdded(before.pools, pool, rec);
    }

    /** Links the new head; Mem_PoolTbl moves when it becomes the lowest. */
    method LinkHead(pool: MemPool, prev: MemPool?, next: MemPool?, ghost at: nat)
      requires Valid() && st.heads != [] && pool !in Records(st) && at <= |st.heads|
      requires prev == (if at == 0 then null else st.heads[at - 1])
      requires next == (if at < |st.heads| then st.heads[at] else null)
      modifies this`poolTbl, pool`segPrev, pool`segNext, Records(st)`segPrev, Records(st)`segNext
      ensures HeadsListed(InsertAt(st.heads, at, pool)) && poolTbl == InsertAt(st.heads, at, pool)[0]
      ensures ContentsHold(st) && ColumnsListed(st.cols)
    {
      hide Linked, ContentsHold, HeadsListed, ColumnsListed, InsertAt;
      HeadsDistinct();
      Neighbours(st.heads, at, pool, 0);
      LinkBetween(pool, prev, next, st.heads, at);
      if prev == null {
        poolTbl := pool;
      }
    }

    /** Enters the new pool as the head of a segment and fills in its record. */
    method EnterHead(pool: MemPool, prev: MemPool?, next: MemPool?, r: Req, start: Word, total: Word, table: Word,
                     ghost seg: Seg, ghost at: nat)
      requires Valid() && st.heads != [] && pool !in Records(st) && at <= |st.heads| && table % 4 == 0
      requires prev == (if at == 0 then null else st.heads[at - 1])
      requires next == (if at < |st.heads| then st.heads[at] else null)
      requires SegOf(pool) == seg && PoolLinks(pool, null, null)
      modifies this`st, this`poolTbl, pool, Records(st)`segPrev, Records(st)`segNext
      ensures Valid()
      ensures st == Link(old(st), pool, Insert(at), seg, NewPool(pool, r, Go(Insert(at), seg, start, total), table))
    {
      hide Valid, Linked, ContentsHold, HeadsListed, ColumnsListed, IsRecordOf, AlignOf, Wrap;
      hide InsertAt, SegOf, PoolLinks, Link, NewPool;
      HeadsDistinct();
      NotKnown(st, pool);
      NewPoolIs(pool, r, Go(Insert(at), seg, start, total), table);
      ghost var before, rec := st, NewPool(pool, r, Go(Insert(at), seg, start, total), table);
      LinkHead(pool, prev, next, at);
      ghost var heads := InsertAt(before.heads, at, pool);
      assert HeadsListed(heads);
      ConfigureNew(pool, start, total, table, r, pool);
      assert HeadsListed(heads);
      st := Link(before, pool, Insert(at), seg, rec);
      HeadEntered(before, pool, seg, rec, at);
    }

    lemma HeadEntered(before: State, pool: MemPool, seg: Seg, rec: Pool, at: nat)
      requires ContentsHold(before) && before.heads != [] && pool !in Records(before) && at <= |before.heads|
      requires rec.seg == pool && st == Link(before, pool, Insert(at), seg, rec)
      requires ColumnsListed(before.cols)
      requires HeadsListed(InsertAt(before.heads, at, pool)) && poolTbl == InsertAt(before.heads, at, pool)[0]
      requires IsRecordOf(pool, rec) && rec.ptrs % 4 == 0 && SegOf(pool) == seg && PoolLinks(pool, null, null)
      ensures Valid()
    {
      hide SegmentsHold, PoolsHold, HeadsListed, ColumnsListed, IsRecordOf, InsertAt, SegOf, PoolLinks, Linked;
      Links.FreshIsNoHead(before, pool);
      Neighbours(before.heads, at, pool, 0);
      Links.InsertKeepsLinked(before, pool, at, seg, rec);
      PoolAdded(before.pools, pool, rec);
      HeadAdded(before.heads, before.segs, pool, seg, at);
      ColumnAdded(before.cols, pool);
    }

    /** Only a segment that was found is both its own predecessor and successor. */
    lemma PlaceByNeighbours(pool: MemPool, plan: Plan, blk: MemPool, prev: MemPool?, next: MemPool?)
      requires Valid() && st.heads != [] && plan.Go? && Placed(pool, plan, blk, prev, next)
      ensures prev == next <==> plan.place.Share?
    {
      hide Linked, ContentsHold, HeadsListed, ColumnsListed, SegOf;
      HeadsDistinct();
    }

    /** The record has the blocks that were asked for; an alignment of 0 stands for 1, and the
        index is the number of blocks cut to 16 bits. */
    predicate HoldsRequest(pool: MemPool, nbr: Word, size: Word, align: Word)
      reads pool`blkSize, pool`blkNbr, pool`blkAlign, pool`blkIx
    {
      && pool.blkSize == size && pool.blkNbr == nbr
      && pool.blkAlign == (if align == 0 then 1 else align)
      && pool.blkIx <= 0xFFFF && (nbr - pool.blkIx) % 0x1_0000 == 0
    }

    method PoolCreate(pool: MemPool?, base: Word, memSize: Word, nbr: Word, size: Word, align: Word)
      returns (err: Err, octets: Word)
      requires Valid()
      requires pool != null ==> pool !in st.pools && pool != heap
      modifies this`poolTbl, this`st, ram, Records(st), if pool == null then {} else {pool}
      ensures Valid()
      ensures pool == null ==> err == ErrNullPtr && octets == 0 && st == old(st)
      ensures pool != null ==> (st, err, octets) == Create(old(st), pool, Req(base, memSize, nbr, size, align))
      ensures err == ErrNullPtr <==> pool == null
      ensures pool != null ==>
                && (err == ErrInvalidSegSize <==> base != NULL && memSize == 0)
                && (err == ErrInvalidBlkNbr <==> (base == NULL || memSize >= 1) && nbr == 0)
                && (err == ErrInvalidBlkSize <==> (base == NULL || memSize >= 1) && nbr >= 1 && size == 0)
                && (err == ErrHeapNotFound <==>
                    (base == NULL || memSize >= 1) && nbr >= 1 && size >= 1 && old(poolTbl) == null)
                && pool.poolType == (if err == ErrNone then TypePool else TypeNone)
      ensures err == ErrNone ==> HoldsRequest(pool, nbr, size, align)
    {
      hide Valid, Linked, Create, SegLinks, PoolLinks, HoldsRequest;
      if pool == null {
        return ErrNullPtr, 0;
      }
      HeadsDistinct();
      NotLinked(st, pool);
      EmptyIffNull();
      var r := Req(base, memSize, nbr, size, align);
      ArgumentErrors(st, pool, r);
      ClearRecord(pool);
      err, octets := CreateFor(pool, r);
      if err == ErrNone {
        CreatedRecord(old(st), pool, r);
      }
    }

    /** The record of a pool that has just been created holds what was asked for. */
    lemma CreatedRecord(before: State, pool: MemPool, r: Req)
      requires Valid() && Linked(before) && Create(before, pool, r).1 == ErrNone && st == Create(before, pool, r).0
      ensures HoldsRequest(pool, r.nbr, r.size, r.align)
    {
      hide Valid, Linked, Create;
      Creation.CreatedAsAsked(before, pool, r);
      RecordTells(pool);
    }

    /** Mem_PoolCreate once the record is known not to be NULL and has been cleared. */
    method CreateFor(pool: MemPool, r: Req) returns (err: Err, octets: Word)
      requires Valid() && pool !in Records(st) && PoolLinks(pool, null, null) && pool.poolType == TypeNone
      modifies this`poolTbl, this`st, ram, Records(st), pool
      ensures Valid()
      ensures (st, err, octets) == Create(old(st), pool, r)
      ensures pool.poolType == if err == ErrNone then TypePool else TypeNone
    {
      hide Linked, ContentsHold, HeadsListed, ColumnsListed, Decide, Carve, Link, SegOf, PoolLinks, Wrap, AlignOf;
      hide Create, AfterCarving, NewPool;
      HeadsDistinct();
      CreateParts(st, pool, r);
      ghost var plan := Decide(st, r);
      var blk, prev, next, start, total;
      err, octets, blk, prev, next, start, total := PlanAllocation(pool, r);
      if err != ErrNone {
        return;
      }
      PlaceByNeighbours(pool, plan, blk, prev, next);
      var table, count;
      ghost var c;
      table, count, c := CarvePool(pool, r, blk, plan);
      if count < r.nbr {
        return ErrSegEmpty, 0;
      }
      AfterCarvingHeads(old(st), plan.place, c);
      ghost var before := st;
      EnterPool(pool, r, blk, prev, next, start, total, table, plan, c.seg);
      LinkEnters(before, pool, plan.place, c.seg, NewPool(pool, r, plan, table));
      RecordTells(pool);
      return ErrNone, 0;
    }

    /** Enters the new pool where the decision wants it. */
    method EnterPool(pool: MemPool, r: Req, blk: MemPool, prev: MemPool?, next: MemPool?,
                     start: Word, total: Word, table: Word, ghost plan: Plan, ghost seg: Seg)
      requires Valid() && st.heads != [] && pool !in Records(st) && table % 4 == 0
      requires plan.Go? && plan.start == start && plan.total == total && (prev == next <==> plan.place.Share?)
      requires match plan.place
               case Share(h) => h in st.heads && blk == h
               case Insert(at) => at <= |st.heads| && SegOf(pool) == seg && PoolLinks(pool, null, null)
                                  && prev == (if at == 0 then null else st.heads[at - 1])
                                  && next == (if at < |st.heads| then st.heads[at] else null)
               case Overlap => false
      modifies this`poolTbl, this`st, Records(st), pool
      ensures plan.place.Share? ==> plan.place.head in old(st).cols && |old(st).cols[plan.place.head]| >= 1
      ensures Valid() && st == Link(old(st), pool, plan.place, seg, NewPool(pool, r, plan, table))
    {
      hide Valid, Link, SegOf, PoolLinks;
      if prev == next {
        EnterShared(pool, blk, r, start, total, table, seg);
      } else {
        EnterHead(pool, prev, next, r, start, total, table, seg, plan.place.at);
      }
      hide NewPool;
    }

    lemma HeadsAscend(i: int, j: int)
      requires Valid() && SegsOk(st.heads, st.segs) && 0 <= i < j < |st.heads|
      ensures st.heads[i] != st.heads[j]
      ensures st.heads[i].segAddr < st.heads[i].segAddr + st.heads[i].segSizeTot <= st.heads[j].segAddr
    {
      hide Linked, ContentsHold, HeadsListed, ColumnsListed;
      HeadTells(i);
      HeadTells(j);
    }

    /** When the segments ascend, so do the records along the list. */
    lemma ShapeOfAscending(h: MemPool)
      requires Valid() && SegsOk(st.heads, st.segs) && h in st.heads
      ensures poolTbl != null && poolTbl in st.heads && (h.segPrev == null <==> h == poolTbl)
      ensures h != poolTbl ==> poolTbl.segAddr < h.segAddr
      ensures h.segPrev != null ==> h.segPrev in st.heads && h.segPrev.segNext == h
      ensures h.segNext != null ==> h.segNext in st.heads && h.segNext.segPrev == h
      ensures h.segNext != null ==> h.segAddr < h.segAddr + h.segSizeTot <= h.segNext.segAddr
    {
      hide Valid, SegsOk, SegOf;
      TableTells();
      var i :| 0 <= i < |st.heads| && st.heads[i] == h;
      HeadTells(i);
      if i > 0 {
        HeadTells(i - 1);
        HeadsAscend(0, i);
      }
      if i + 1 < |st.heads| {
        HeadTells(i + 1);
        HeadsAscend(i, i + 1);
      }
    }

    lemma HeadsApart(g: MemPool, h: MemPool)
      requires Valid() && SegsOk(st.heads, st.segs) && g in st.heads && h in st.heads && g != h
      ensures g.segAddr + g.segSizeTot <= h.segAddr || h.segAddr + h.segSizeTot <= g.segAddr
    {
      hide Valid, SegsOk;
      var i :| 0 <= i < |st.heads| && st.heads[i] == g;
      var j :| 0 <= j < |st.heads| && st.heads[j] == h;
      HeadsAscend(if i < j then i else j, if i < j then j else i);
    }

    lemma HeadIsSound(h: MemPool)
      requires Valid() && SegsOk(st.heads, st.segs) && h in st.heads
      ensures h.segSizeRem <= h.segSizeTot && h.segAddrNextAvail == Wrap(h.segAddr + h.segSizeTot - h.segSizeRem)
    {
      hide Valid, Wrap;
      SegmentTells(h);
    }

    /** A client stores an octet of its own; the records know nothing of it. */
    method ClientWrites(a: Word, v: Octet)
      requires Valid()
      modifies this`st, ram
      ensures Valid() && st == old(st).(mem := old(st).mem[a := v])
    {
      hide Linked, SegmentsHold, PoolsHold, HeadsListed, ColumnsListed;
      ghost var before := st;
      ram[a] := v;
      st := st.(mem := ram[..]);
      Links.MemoryKeepsLinked(before, ram[..]);
    }

    /** Clearing the record, which Mem_PoolCreate does before anything else, leaves the
        table valid exactly when the record is neither one of its pools nor the heap. */
    method ClearRecord(pool: MemPool)
      requires Valid() && (pool == heap ==> TableOk(st))
      modifies pool
      ensures pool.poolType == TypeNone && SegLinks(pool, null, null) && PoolLinks(pool, null, null)
      ensures Valid() <==> pool !in st.pools && pool != heap
    {
      hide Linked, SegsOk, SegmentsHold, HeadsListed, ColumnsListed;
      HeadsDistinct();
      if pool == heap {
        HeapAboveNull(st);
      } else if pool !in st.pools {
        NotLinked(st, pool);
      }
      ResetRecord(pool);
      if pool == heap {
        NullIsNoHeap();
      }
    }

    /** No segment of the table is the one of a cleared record. */
    lemma NullIsNoHeap()
      requires st.heap in st.heads && st.heap in st.segs && st.segs[st.heap].base >= 1
      requires st.heap == heap && heap.segAddr == 0
      ensures !Valid()
    {
      hide Linked, PoolsHold, HeadsListed, ColumnsListed;
    }

    lemma HeadsDistinct()
      requires Valid()
      ensures Distinct(st.heads) && st.heap == heap && st.heap in Records(st) && Linked(st)
    {
      hide SegmentsHold, PoolsHold, HeadsListed, ColumnsListed;
    }
  }

  lemma NotKnown(s: State, k: MemPool)
    requires k !in Records(s)
    ensures k !in s.pools && k != s.heap
  {
  }

  lemma NewPoolIs(k: MemPool, r: Req, plan: Plan, table: Word)
    requires plan.Go?
    ensures NewPool(k, r, plan, table)
         == Pool(if plan.place.Share? then plan.place.head else k, plan.start, Wrap(plan.start + plan.total - 1),
                 plan.total, table, AlignOf(r), r.size, r.nbr, r.nbr % 0x1_0000)
  {
    hide Wrap, AlignOf;
  }

  lemma GoodMeansHeads(s: State, r: Req)
    requires ArgError(s, r) == ErrNone
    ensures s.heads != []
  {
  }

  lemma DedicatedDecides(s: State, r: Req)
    requires Linked(s) && ArgError(s, r) == ErrNone && r.base != NULL
    requires s.heap in s.segs && forall h :: h in s.heads ==> h in s.segs
    ensures var place := Search(s.heads, s.segs, r.base, r.memSize, 0);
            match place
            case Overlap => Decide(s, r) == Refuse(ErrInvalidSegOverlap, 0)
            case Share(h) => h in s.segs && Decide(s, r) == PlanOnSegment(s, r, place, s.segs[h])
            case Insert(at) => at <= |s.heads|
                               && Decide(s, r) == PlanOnSegment(s, r, place, Seg(r.base, r.memSize, r.base, r.memSize))
  {
    hide Linked, PlanOnHeap, PlanOnSegment, Search;
  }

  /** The specification of Mem_PoolCreate in the order the methods follow. */
  lemma CreateParts(s: State, k: MemPool, r: Req)
    requires Linked(s)
    ensures var plan := Decide(s, r);
            if plan.Refuse? then Create(s, k, r) == (s, plan.err, plan.octets)
            else
              var c := Carve(s, r, plan.place, plan.seg);
              var carved := AfterCarving(s, plan.place, c);
              && (|c.blocks| < r.nbr ==> Create(s, k, r) == (carved, ErrSegEmpty, 0))
              && (|c.blocks| >= r.nbr ==>
                    Create(s, k, r) == (Link(carved, k, plan.place, c.seg, NewPool(k, r, plan, c.table)), ErrNone, 0))
  {
    hide Linked, Decide, AllocTable, AllocRun, AfterCarving, NewPool;
  }

  lemma AfterCarvingHeads(s: State, place: Place, c: Carving)
    ensures AfterCarving(s, place, c).heads == s.heads && AfterCarving(s, place, c).cols == s.cols
    ensures AfterCarving(s, place, c).pools == s.pools && AfterCarving(s, place, c).heap == s.heap
  {
  }

  lemma LinkEnters(s: State, k: MemPool, place: Place, seg: Seg, pool: Pool)
    ensures place.Share? && place.head in s.cols && |s.cols[place.head]| >= 1 ==>
              k in Link(s, k, place, seg, pool).pools
    ensures place.Insert? && place.at <= |s.heads| ==> k in Link(s, k, place, seg, pool).pools
  {
  }

  lemma HeapAboveNull(s: State)
    requires TableOk(s)
    ensures s.heap in s.heads && s.heap in s.segs && s.segs[s.heap].base >= 1
  {
  }

  lemma PoolAdded(pools: map<MemPool, Pool>, k: MemPool, pool: Pool)
    requires PoolsHold(pools) && k !in pools && IsRecordOf(k, pool) && pool.ptrs % 4 == 0
    ensures PoolsHold(pools[k := pool])
  {
  }

  lemma HeadAdded(heads: seq<MemPool>, segs: map<MemPool, Seg>, k: MemPool, seg: Seg, at: nat)
    requires SegmentsHold(heads, segs) && k !in heads && SegOf(k) == seg && at <= |heads|
    ensures SegmentsHold(InsertAt(heads, at, k), segs[k := seg])
  {
    hide InsertAt;
    Links.InsertAtMembers(heads, at, k);
  }

  lemma ColumnAdded(cols: map<MemPool, seq<MemPool>>, k: MemPool)
    requires ColumnsListed(cols) && k !in cols && PoolLinks(k, null, null)
    ensures ColumnsListed(cols[k := [k]])
  {
  }
}
