/** Clients of the pool calls: each call on the linked records is one step of a run,
    so what is proved of runs holds of the records. */
module PoolClient {
  import opened Machine
  import opened Segments
  import opened PoolRecord
  import opened PoolTable
  import opened PoolSearch
  import opened PoolSafety
  import opened PoolRuns
  import opened PoolLib
  import PoolCreation

  /** `w` is what the calls `ops` have led to since Mem_Init, from memory `mem`. */
  ghost predicate Reached(lib: MemLib, mem: Mem, ops: seq<Op>, w: World) {
    && lib.heapAddr >= 1 && lib.heapSize >= 1 && lib.heapAddr + lib.heapSize <= ADDR_SPACE
    && RunsTo(World(Initial(lib.cpu, mem, lib.heap, lib.heapAddr, lib.heapSize), map[]), ops, w)
  }

  lemma ReachedInv(lib: MemLib, mem: Mem, ops: seq<Op>, w: World)
    requires Reached(lib, mem, ops, w)
    ensures Inv(w)
  {
    hide Inv, RunsTo;
    InitialInv(lib.cpu, mem, lib.heap, lib.heapAddr, lib.heapSize);
    RunKeepsInv(World(Initial(lib.cpu, mem, lib.heap, lib.heapAddr, lib.heapSize), map[]), ops, w);
  }

  lemma {:induction false} RunExtends(w: World, ops: seq<Op>, mid: World, op: Op)
    requires RunsTo(w, ops, mid) && Enabled(mid, op)
    ensures RunsTo(w, ops + [op], Step(mid, op))
    decreases |ops|
  {
    hide Enabled, Step;
    if ops == [] {
      assert [op][1..] == [];
      assert RunsTo(Step(mid, op), [], Step(mid, op));
      assert ops + [op] == [op];
    } else {
      RunExtends(Step(w, ops[0]), ops[1..], mid, op);
      assert (ops + [op])[1..] == ops[1..] + [op];
    }
  }

  /** Mem_Init, with which every run begins. */
  method Start(lib: MemLib) returns (ghost w: World)
    requires lib.Valid()
    requires lib.heapAddr >= 1 && lib.heapSize >= 1 && lib.heapAddr + lib.heapSize <= ADDR_SPACE
    modifies lib`poolTbl, lib`st, lib.heap
    ensures lib.Valid() && w.st == lib.st && Reached(lib, old(lib.st.mem), [], w)
  {
    hide Initial;
    ghost var mem := lib.st.mem;
    lib.Init();
    w := World(Initial(lib.cpu, mem, lib.heap, lib.heapAddr, lib.heapSize), map[]);
  }

  /** The record that an operation is called with, if any. */
  function RecordsOf(op: Op): set<MemPool> {
    match op
    case OpCreate(k, _) => {k}
    case OpGet(p, _) => {p}
    case OpFree(p, _) => {p}
    case OpWrite(_, _, _, _) => {}
    case OpStore(_, _) => {}
  }

  /** Any call a client may make, on the records as in the run. A record that has
      not been created may be passed to get and free as well, unless the octets it
      happens to hold say that it is a pool. */
  method Perform(lib: MemLib, op: Op, ghost mem: Mem, ghost ops: seq<Op>, ghost w: World) returns (ghost next: World)
    requires lib.Valid() && Reached(lib, mem, ops, w) && w.st == lib.st && Enabled(w, op)
    requires op.OpGet? || op.OpFree? ==> op.p.poolType != TypePool || op.p in lib.st.pools
    modifies lib`poolTbl, lib`st, lib.ram, Records(lib.st), RecordsOf(op)
    ensures next == Step(w, op) && next.st == lib.st
    ensures lib.Valid() && Reached(lib, mem, ops + [op], next)
  {
    hide Inv, PoolCreation.Creatable, Checkable, Create, BlkGet, BlkFree, InHeldBlock, RunsTo, Reached;
    Extends(lib, mem, ops, w, op);
    next := Step(w, op);
    match op
    case OpCreate(k, r) =>
      CreatableRecord(w.st, k, r);
      var err, octets := lib.PoolCreate(k, r.base, r.memSize, r.nbr, r.size, r.align);
    case OpGet(p, size) =>
      var blk, err := lib.BlkGet(p, size);
    case OpFree(p, blk) =>
      var err := lib.BlkFree(p, blk);
    case OpWrite(p, blk, offset, v) =>
      lib.ClientWrites(blk + offset, v);
    case OpStore(a, v) =>
      lib.ClientWrites(a, v);
  }

  lemma Extends(lib: MemLib, mem: Mem, ops: seq<Op>, w: World, op: Op)
    requires Reached(lib, mem, ops, w) && Enabled(w, op)
    ensures Reached(lib, mem, ops + [op], Step(w, op))
  {
    hide Initial, RunsTo, Enabled, Step;
    RunExtends(World(Initial(lib.cpu, mem, lib.heap, lib.heapAddr, lib.heapSize), map[]), ops, w, op);
  }

  lemma CreatableRecord(st: State, k: MemPool, r: Req)
    requires PoolCreation.Creatable(st, k, r)
    ensures k !in st.pools && k != st.heap
  {
  }

  /** The shape of the segment table in every reachable state, pointer by pointer:
      Mem_PoolTbl is the one record without a predecessor and has the lowest base,
      neighbours point at each other, and every step along SegNext goes up and past
      the segment left. */
  lemma TableShape(lib: MemLib, mem: Mem, ops: seq<Op>, w: World, h: MemPool)
    requires lib.Valid() && Reached(lib, mem, ops, w) && w.st == lib.st && h in lib.st.heads
    ensures lib.poolTbl != null && lib.poolTbl in lib.st.heads && (h.segPrev == null <==> h == lib.poolTbl)
    ensures h != lib.poolTbl ==> lib.poolTbl.segAddr < h.segAddr
    ensures h.segPrev != null ==> h.segPrev in lib.st.heads && h.segPrev.segNext == h
    ensures h.segNext != null ==> h.segNext in lib.st.heads && h.segNext.segPrev == h
    ensures h.segNext != null ==> h.segAddr < h.segAddr + h.segSizeTot <= h.segNext.segAddr
  {
    hide Reached, Inv, MemLib.Valid, SegsOk;
    ReachedInv(lib, mem, ops, w);
    InvTable(w);
    lib.ShapeOfAscending(h);
  }

  lemma InvTable(w: World)
    requires Inv(w)
    ensures TableOk(w.st) && SegsOk(w.st.heads, w.st.segs)
  {
    hide Linked, SegsOk, PoolsOk, Separate, Partitioned;
  }

  /** In every reachable state no two segments of the table share an octet, and of each
      what is carved and what remains is the whole. */
  lemma SegmentsApart(lib: MemLib, mem: Mem, ops: seq<Op>, w: World, g: MemPool, h: MemPool)
    requires lib.Valid() && Reached(lib, mem, ops, w) && w.st == lib.st && g in lib.st.heads && h in lib.st.heads
    ensures g != h ==> g.segAddr + g.segSizeTot <= h.segAddr || h.segAddr + h.segSizeTot <= g.segAddr
    ensures h.segSizeRem <= h.segSizeTot && h.segAddrNextAvail == Wrap(h.segAddr + h.segSizeTot - h.segSizeRem)
  {
    hide Reached, Inv, MemLib.Valid, SegsOk;
    ReachedInv(lib, mem, ops, w);
    InvTable(w);
    lib.HeadIsSound(h);
    if g != h {
      lib.HeadsApart(g, h);
    }
  }
}
