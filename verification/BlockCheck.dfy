/** Mem_PoolBlkIsValidAddr: recognise the addresses of a pool's blocks by
    arithmetic alone, without reading the pointer table. */
module BlockCheck {
  import opened Machine
  import opened Segments
  import Arith

  /** The modulus of the check; a pool whose stride wraps to 0 cannot be checked. */
  function CheckedStride(size: Word, align: Word): Word
    requires align >= 1
  {
    Wrap(Stride(size, align))
  }

  /** Only an address inside the body gets as far as the division by the stride. */
  predicate IsValidAddr(start: Word, end: Word, size: Word, align: Word, blk: Word)
    requires start <= blk <= end ==> align >= 1 && CheckedStride(size, align) != 0
  {
    if blk < start || blk > end then false
    else
      var first := Wrap(start + AlignGap(start, align));
      var diff := Minus(blk, first);
      diff % CheckedStride(size, align) == 0
  }

  predicate IsBlock(start: Word, nbr: nat, size: Word, align: Word, blk: int)
    requires align >= 1
  {
    exists i :: 0 <= i < nbr && blk == BlockAt(start, size, align, i)
  }

  /** Leading padding is turned away: there the unsigned difference wraps, and
      the wrapped value must not happen to be a multiple of the stride. */
  predicate PaddingRejected(start: Word, size: Word, align: Word)
    requires align >= 1 && size >= 1
  {
    !(1 <= ADDR_SPACE % Stride(size, align) <= AlignGap(start, align))
  }

  /** The body of a pool as Mem_PoolCreate records it. */
  predicate BodyOk(start: Word, nbr: nat, size: Word, align: Word) {
    && nbr >= 1 && size >= 1 && align >= 1 && size + align <= ADDR_SPACE
    && 1 <= start && start + TotSize(start, nbr, size, align) <= ADDR_SPACE
  }

  /** PoolAddrEnd: the last octet of the body. */
  function BodyEnd(start: Word, nbr: nat, size: Word, align: Word): (end: Word)
    requires BodyOk(start, nbr, size, align)
    ensures end == start + TotSize(start, nbr, size, align) - 1
  {
    TotSizeStep(start, nbr, size, align);
    start + TotSize(start, nbr, size, align) - 1
  }

  lemma StrideBounds(size: Word, align: Word)
    requires align >= 1 && size >= 1
    ensures align <= Stride(size, align) < size + align && size <= Stride(size, align)
    ensures size + align <= ADDR_SPACE ==> CheckedStride(size, align) == Stride(size, align)
  {
    var stride := Stride(size, align);
    assert stride % align == 0 by { assert Multiple(stride, align); }
    hide AlignGap, Stride;
    assert size <= stride < size + align by { GapSmall(size, align); }
    if stride < align {
      Arith.ModIs(stride, align, 0, stride);
    }
    if size + align <= ADDR_SPACE {
      WrapSmall(stride);
    }
  }

  lemma GapSmall(size: Word, align: Word)
    requires align >= 1
    ensures size <= Stride(size, align) < size + align
  {
  }

  /** The check cannot divide exactly when a block and its padding fill the whole
      address space, as with blocks of half of it and one octet, aligned to half. */
  lemma StrideVanishesIff(size: Word, align: Word)
    requires align >= 1 && size >= 1
    ensures CheckedStride(size, align) == 0 <==> Stride(size, align) == ADDR_SPACE
    ensures CheckedStride(0x8000_0001, 0x8000_0000) == 0
  {
    hide AlignGap, Stride;
    StrideBounds(size, align);
    assert CheckedStride(0x8000_0001, 0x8000_0000) == 0 by { StrideOfHalf(); }
  }

  lemma StrideOfHalf()
    ensures Stride(0x8000_0001, 0x8000_0000) == ADDR_SPACE
  {
  }

  /** The first block lies inside the body, so its address did not wrap. */
  lemma BodyBounds(start: Word, nbr: nat, size: Word, align: Word)
    requires BodyOk(start, nbr, size, align)
    ensures start + AlignGap(start, align) + size <= start + TotSize(start, nbr, size, align)
    ensures start + TotSize(start, nbr, size, align) == BlockAt(start, size, align, nbr - 1) + size
  {
    hide AlignGap, BlockAt;
    TotSizeStep(start, nbr, size, align);
    assert Stride(size, align) * (nbr - 1) >= 0;
  }

  lemma AcceptedIsBlock(start: Word, nbr: nat, size: Word, align: Word, blk: Word)
    requires BodyOk(start, nbr, size, align) && CheckedStride(size, align) != 0
    requires blk >= start + AlignGap(start, align)
    requires IsValidAddr(start, BodyEnd(start, nbr, size, align), size, align, blk)
    ensures IsBlock(start, nbr, size, align, blk)
  {
    hide AlignGap, Stride, TotSize, Wrap, BodyEnd;
    StrideBounds(size, align);
    BodyBounds(start, nbr, size, align);
    var first, stride := start + AlignGap(start, align), Stride(size, align);
    WrapSmall(first);
    var k := (blk - first) / stride;
    assert blk - first == k * stride;
    assert k >= 0;
    if k >= nbr {
      BlocksApart(start, size, align, nbr - 1, k);
    }
    assert 0 <= k < nbr && blk == BlockAt(start, size, align, k);
  }

  lemma BlockIsAccepted(start: Word, nbr: nat, size: Word, align: Word, i: nat, blk: Word)
    requires BodyOk(start, nbr, size, align) && CheckedStride(size, align) != 0
    requires i < nbr && blk == BlockAt(start, size, align, i)
    ensures IsValidAddr(start, BodyEnd(start, nbr, size, align), size, align, blk)
  {
    hide AlignGap, Stride, TotSize, Wrap, BodyEnd;
    StrideBounds(size, align);
    BodyBounds(start, nbr, size, align);
    var first, stride := start + AlignGap(start, align), Stride(size, align);
    WrapSmall(first);
    if i < nbr - 1 {
      BlocksApart(start, size, align, i, nbr - 1);
    }
    assert i * stride >= 0;
    Arith.ModIs(blk - first, stride, i, 0);
  }

  /** From the first block on, the check accepts block addresses and nothing else. */
  lemma ValidFromFirst(start: Word, nbr: nat, size: Word, align: Word, blk: Word)
    requires BodyOk(start, nbr, size, align) && CheckedStride(size, align) != 0
    requires blk >= start + AlignGap(start, align)
    ensures IsValidAddr(start, BodyEnd(start, nbr, size, align), size, align, blk)
            <==> IsBlock(start, nbr, size, align, blk)
  {
    hide IsValidAddr, AlignGap, BodyEnd;
    if IsValidAddr(start, BodyEnd(start, nbr, size, align), size, align, blk) {
      AcceptedIsBlock(start, nbr, size, align, blk);
    }
    if IsBlock(start, nbr, size, align, blk) {
      var i :| 0 <= i < nbr && blk == BlockAt(start, size, align, i);
      BlockIsAccepted(start, nbr, size, align, i, blk);
    }
  }

  /** In the leading padding there is no block, and the check accepts exactly
      the octet that lies 2^32 mod stride in front of the first block. */
  lemma ValidInPadding(start: Word, nbr: nat, size: Word, align: Word, blk: Word)
    requires BodyOk(start, nbr, size, align) && start <= blk < start + AlignGap(start, align)
    ensures CheckedStride(size, align) != 0
    ensures !IsBlock(start, nbr, size, align, blk)
    ensures IsValidAddr(start, BodyEnd(start, nbr, size, align), size, align, blk)
            <==> start + AlignGap(start, align) - blk == ADDR_SPACE % Stride(size, align)
  {
    hide AlignGap, Stride, TotSize, Wrap, IsBlock, BlockAt, BodyEnd;
    StrideBounds(size, align);
    BodyBounds(start, nbr, size, align);
    var first, stride := start + AlignGap(start, align), Stride(size, align);
    WrapSmall(first);
    NoBlockBelow(start, nbr, size, align, blk);
    assert Minus(blk, first) == ADDR_SPACE - (first - blk);
    BackFromTop(stride, first - blk);
  }

  lemma NoBlockBelow(start: Word, nbr: nat, size: Word, align: Word, blk: Word)
    requires align >= 1 && blk < start + AlignGap(start, align)
    ensures !IsBlock(start, nbr, size, align, blk)
  {
    hide AlignGap, Stride;
    forall i | 0 <= i < nbr
      ensures blk != BlockAt(start, size, align, i)
    {
      assert i * Stride(size, align) >= 0;
    }
  }

  /** `back` octets below the top is a multiple of the stride exactly when it is the remainder. */
  lemma BackFromTop(stride: int, back: int)
    requires 0 < back < stride <= ADDR_SPACE
    ensures (ADDR_SPACE - back) % stride == 0 <==> back == ADDR_SPACE % stride
  {
    var q := (ADDR_SPACE - back) / stride;
    if (ADDR_SPACE - back) % stride == 0 {
      Arith.ModIs(ADDR_SPACE, stride, q, back);
    }
    if ADDR_SPACE % stride == back {
      Arith.ModIs(ADDR_SPACE - back, stride, ADDR_SPACE / stride, 0);
    }
  }

  /** The check accepts exactly the block addresses... */
  ghost predicate CheckExact(start: Word, nbr: nat, size: Word, align: Word)
    requires BodyOk(start, nbr, size, align) && CheckedStride(size, align) != 0
  {
    forall blk: Word :: IsValidAddr(start, BodyEnd(start, nbr, size, align), size, align, blk)
                        <==> IsBlock(start, nbr, size, align, blk)
  }

  /** ... exactly when it rejects the padding. */
  lemma CheckExactIff(start: Word, nbr: nat, size: Word, align: Word)
    requires BodyOk(start, nbr, size, align)
    ensures CheckedStride(size, align) != 0
    ensures CheckExact(start, nbr, size, align) <==> PaddingRejected(start, size, align)
  {
    hide AlignGap, Stride, TotSize, IsValidAddr;
    StrideBounds(size, align);
    var first := start + AlignGap(start, align);
    var end := BodyEnd(start, nbr, size, align);
    BodyBounds(start, nbr, size, align);
    if PaddingRejected(start, size, align) {
      forall blk: Word
        ensures IsValidAddr(start, end, size, align, blk) <==> IsBlock(start, nbr, size, align, blk)
      {
        if blk >= first {
          ValidFromFirst(start, nbr, size, align, blk);
        } else if blk >= start {
          ValidInPadding(start, nbr, size, align, blk);
        } else {
          BelowBody(start, nbr, size, align, blk);
        }
      }
    } else {
      var blk := PaddingTaken(start, nbr, size, align);
    }
  }

  /** The octet of the padding that passes the check as a block. */
  lemma PaddingTaken(start: Word, nbr: nat, size: Word, align: Word) returns (blk: Word)
    requires BodyOk(start, nbr, size, align) && !PaddingRejected(start, size, align)
    ensures blk != NULL && !IsBlock(start, nbr, size, align, blk) && CheckedStride(size, align) != 0
    ensures IsValidAddr(start, BodyEnd(start, nbr, size, align), size, align, blk)
  {
    hide AlignGap, Stride, TotSize, IsValidAddr, BodyEnd, IsBlock;
    BodyBounds(start, nbr, size, align);
    StrideBounds(size, align);
    blk := start + AlignGap(start, align) - ADDR_SPACE % Stride(size, align);
    ValidInPadding(start, nbr, size, align, blk);
  }

  lemma BelowBody(start: Word, nbr: nat, size: Word, align: Word, blk: Word)
    requires BodyOk(start, nbr, size, align) && blk < start && CheckedStride(size, align) != 0
    ensures !IsBlock(start, nbr, size, align, blk)
    ensures !IsValidAddr(start, BodyEnd(start, nbr, size, align), size, align, blk)
  {
    hide AlignGap, Stride, TotSize;
    forall i | 0 <= i < nbr
      ensures blk != BlockAt(start, size, align, i)
    {
      BlockPositive(start, size, align, i);
    }
  }

  /** Alignments that divide 2^32, powers of two above all, are always safe. */
  lemma DividingAlignRejects(start: Word, size: Word, align: Word)
    requires align >= 1 && size >= 1 && ADDR_SPACE % align == 0
    ensures PaddingRejected(start, size, align)
  {
    var stride := Stride(size, align);
    var r := ADDR_SPACE % stride;
    var q, k := stride / align, ADDR_SPACE / stride;
    assert stride == q * align;
    assert r == ADDR_SPACE / align * align - k * (q * align);
    assert r == (ADDR_SPACE / align - k * q) * align;
    Arith.MulGrows(ADDR_SPACE / align - k * q, align);
  }

  /** What the condition is for: with blocks aligned to 3, the padding octet in
      front of the only block passes the check. */
  lemma PaddingAccepted()
    ensures BodyOk(0x2000_0000, 1, 3, 3) && CheckedStride(3, 3) == 3
    ensures !PaddingRejected(0x2000_0000, 3, 3)
    ensures IsValidAddr(0x2000_0000, BodyEnd(0x2000_0000, 1, 3, 3), 3, 3, 0x2000_0000)
    ensures !IsBlock(0x2000_0000, 1, 3, 3, 0x2000_0000)
  {
    assert AlignGap(0x2000_0000, 3) == 1 && AlignGap(3, 3) == 0;
    hide AlignGap, IsValidAddr;
    ValidInPadding(0x2000_0000, 1, 3, 3, 0x2000_0000);
  }
}
