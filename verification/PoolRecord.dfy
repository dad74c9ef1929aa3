/** struct mem_pool of lib_mem.h, and the library's error codes. */
module PoolRecord {
  import opened Machine

  datatype Err =
    | ErrNone | ErrNullPtr | ErrNoneAvail
    | ErrInvalidSegSize | ErrInvalidSegOverlap | ErrInvalidPool | ErrInvalidAddr
    | ErrInvalidBlkNbr | ErrInvalidBlkSize | ErrInvalidBlkIx
    | ErrSegEmpty | ErrPoolFull | ErrHeapNotFound | ErrHeapEmpty

  datatype PoolType = TypeNone | TypeHeap | TypePool

  class MemPool {
    var poolType: PoolType
    var segPrev: MemPool?
    var segNext: MemPool?
    var poolPrev: MemPool?
    var poolNext: MemPool?
    var poolAddrStart: Word
    var poolAddrEnd: Word
    var poolPtrs: Word
    var blkIx: Word
    var poolSize: Word
    var blkNbr: Word
    var blkSize: Word
    var blkAlign: Word
    var segAddr: Word
    var segAddrNextAvail: Word
    var segSizeTot: Word
    var segSizeRem: Word

    /** A declared variable before any call: not a pool. */
    constructor ()
      ensures poolType == TypeNone
    {
      poolType := TypeNone;
      segPrev, segNext, poolPrev, poolNext := null, null, null, null;
      poolAddrStart, poolAddrEnd, poolPtrs, blkIx := 0, 0, 0, 0;
      poolSize, blkNbr, blkSize, blkAlign := 0, 0, 0, 0;
      segAddr, segAddrNextAvail, segSizeTot, segSizeRem := 0, 0, 0, 0;
    }
  }
}
