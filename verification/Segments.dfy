/** The bump allocator of a memory segment (Mem_PoolSegAlloc) and the size
    predictor that Mem_PoolCreate trusts (Mem_PoolSegCalcTotSize), both in the
    wrapping 32-bit arithmetic of the source. */
module Segments {
  import opened Machine
  import Arith

  /** SegAddr, SegSizeTot, SegAddrNextAvail and SegSizeRem of a segment. */
  datatype Seg = Seg(base: Word, tot: Word, next: Word, rem: Word)

  /** The first octet that is not carved yet: what is carved plus what remains is the whole. */
  function Front(s: Seg): int {
    s.base + s.tot - s.rem
  }

  /** A segment of real memory: it starts above NULL and ends at the top of the
      address space at the latest. Only one that is used up to the very top has
      a next address, 0, that is not its front. */
  predicate SegOk(s: Seg) {
    && 1 <= s.base && s.base + s.tot <= ADDR_SPACE
    && s.rem <= s.tot && s.next == Wrap(Front(s))
  }

  lemma FrontIsNext(s: Seg)
    requires SegOk(s)
    ensures 1 <= s.base <= Front(s) && Front(s) + s.rem == s.base + s.tot <= ADDR_SPACE
    ensures s.rem >= 1 ==> s.next == Front(s)
    ensures s.next != Front(s) ==> s.rem == 0 == s.next
  {
  }

  predicate Multiple(a: int, align: Word)
    requires align >= 1
  {
    a % align == 0
  }

  /** Octets from `a` up to the next multiple of `align`. */
  function AlignGap(a: Word, align: Word): (gap: Word)
    requires align >= 1
    ensures gap < align && Multiple(a + gap, align)
  {
    if a % align != 0 then
      RoundsUp(a, align);
      align - a % align
    else 0
  }

  lemma RoundsUp(a: Word, align: Word)
    requires align >= 1
    ensures (a + (align - a % align)) % align == 0
  {
    Arith.ModIs(a + (align - a % align), align, a / align + 1, 0);
  }

  /** Mem_PoolSegAlloc: the new segment, and the allocated address or NULL. */
  function SegAlloc(s: Seg, size: Word, align: Word): (Seg, Word)
    requires align >= 1
  {
    var gap := AlignGap(s.next, align);
    var tot := Wrap(gap + size);
    if tot > s.rem then (s, NULL)
    else (s.(next := Wrap(s.next + gap + size), rem := s.rem - tot), Wrap(s.next + gap))
  }

  /** Distance from one block to the next. */
  function Stride(size: Word, align: Word): nat
    requires align >= 1
  {
    size + AlignGap(size, align)
  }

  /** Mem_PoolSegCalcTotSize, every operation cut to 32 bits. */
  function CalcTotSize(addr: Word, nbr: Word, size: Word, align: Word): Word
    requires align >= 1
  {
    Wrap(Wrap(AlignGap(addr, align) + Wrap(Wrap(Stride(size, align)) * Wrap(nbr - 1))) + size)
  }

  /** The size that the source's formula stands for, without a width. */
  function TotSize(addr: Word, nbr: nat, size: Word, align: Word): int
    requires align >= 1
  {
    AlignGap(addr, align) + Stride(size, align) * (nbr - 1) + size
  }

  lemma WrapProduct(x: int, y: int)
    ensures Wrap(Wrap(x) * Wrap(y)) == Wrap(x * y)
  {
    var m := 0x1_0000_0000;
    var k, j := x / m, y / m;
    assert x == Wrap(x) + k * m && y == Wrap(y) + j * m;
    assert x * y == Wrap(x) * Wrap(y) + (Wrap(x) * j + k * y) * m;
    Arith.ModPlusMultiple(Wrap(x) * Wrap(y), Wrap(x) * j + k * y, m);
  }

  lemma WrapSum(gap: Word, product: int, size: Word)
    ensures Wrap(Wrap(gap + Wrap(product)) + size) == Wrap(gap + product + size)
  {
  }

  lemma CalcTotSizeWraps(addr: Word, nbr: Word, size: Word, align: Word)
    requires align >= 1
    ensures CalcTotSize(addr, nbr, size, align) == Wrap(TotSize(addr, nbr, size, align))
  {
    hide AlignGap, Stride, Wrap;
    WrapProduct(Stride(size, align), nbr - 1);
    WrapSum(AlignGap(addr, align), Stride(size, align) * (nbr - 1), size);
  }

  // ------------------------------------------------- the allocation loop

  /** The loop that carves a pool: allocate until NULL, at most `n` times. */
  function AllocRun(s: Seg, n: nat, size: Word, align: Word): (r: (Seg, seq<Word>))
    requires align >= 1
    ensures |r.1| <= n
  {
    if n == 0 then (s, [])
    else
      var (s1, blocks) := AllocRun(s, n - 1, size, align);
      if |blocks| < n - 1 then (s1, blocks)
      else
        var (s2, block) := SegAlloc(s1, size, align);
        if block == NULL then (s2, blocks) else (s2, blocks + [block])
  }

  /** Blocks of `size` octets, aligned, in ascending order, without overlap, in [lo, hi). */
  predicate Carved(blocks: seq<Word>, size: Word, align: Word, lo: int, hi: int)
    requires align >= 1
  {
    && (forall i :: 0 <= i < |blocks| ==> Multiple(blocks[i], align) && lo <= blocks[i] && blocks[i] + size <= hi)
    && (forall i, j :: 0 <= i < j < |blocks| ==> blocks[i] + size <= blocks[j])
  }

  /** The whole request was met with sound memory. */
  predicate RunSucceeds(s: Seg, n: nat, size: Word, align: Word)
    requires align >= 1
  {
    var blocks := AllocRun(s, n, size, align).1;
    |blocks| == n && Carved(blocks, size, align, s.next, s.next + s.rem)
  }

  /** Address of block `i` of a pool whose body starts at `start`. */
  function BlockAt(start: Word, size: Word, align: Word, i: int): int
    requires align >= 1
  {
    start + AlignGap(start, align) + i * Stride(size, align)
  }

  lemma BlockAligned(start: Word, size: Word, align: Word, i: int)
    requires align >= 1
    ensures Multiple(BlockAt(start, size, align, i), align)
  {
    var first, stride := start + AlignGap(start, align), Stride(size, align);
    assert Multiple(first, align) && Multiple(stride, align);
    MultipleSum(first, i, stride, align);
  }

  lemma MultipleSum(x: int, i: int, y: int, align: Word)
    requires align >= 1 && Multiple(x, align) && Multiple(y, align)
    ensures Multiple(x + i * y, align)
  {
    assert x == x / align * align && y == y / align * align;
    assert i * y == i * (y / align) * align;
    Arith.ModIs(x + i * y, align, x / align + i * (y / align), 0);
  }

  /** After an aligned block of `size` octets the next gap depends on `size` alone. */
  lemma GapAfterBlock(b: Word, size: Word, align: Word)
    requires align >= 1 && Multiple(b, align) && b + size < ADDR_SPACE
    ensures AlignGap(b + size, align) == AlignGap(size, align)
  {
    assert b == b / align * align;
    Arith.ModPlusMultiple(size, b / align, align);
  }

  /** One allocation either fails, or takes its gap and its octets off the front. */
  lemma SegAllocSound(s: Seg, size: Word, align: Word)
    requires SegOk(s) && size >= 1 && align >= 1 && AlignGap(s.next, align) + size < ADDR_SPACE
    ensures var gap := AlignGap(s.next, align);
            SegAlloc(s, size, align) ==
            if gap + size <= s.rem then
              (Seg(s.base, s.tot, Wrap(s.next + gap + size), s.rem - gap - size), s.next + gap)
            else (s, NULL)
    ensures var gap := AlignGap(s.next, align);
            gap + size <= s.rem ==> Front(s) == s.next && SegOk(SegAlloc(s, size, align).0)
  {
    hide AlignGap, Multiple, Wrap;
    FrontIsNext(s);
    var gap := AlignGap(s.next, align);
    WrapSmall(gap + size);
    if gap + size <= s.rem {
      WrapSmall(s.next + gap);
    }
  }

  /** When the whole request fits, the loop places the blocks one stride apart
      and consumes exactly the predicted size. */
  lemma {:induction false} RunFits(s: Seg, n: nat, size: Word, align: Word)
    requires SegOk(s) && size >= 1 && align >= 1 && n >= 1
    requires TotSize(s.next, n, size, align) <= s.rem
    ensures var (after, blocks) := AllocRun(s, n, size, align);
            && |blocks| == n
            && (forall i :: 0 <= i < n ==> blocks[i] == BlockAt(s.next, size, align, i))
            && after.base == s.base && after.tot == s.tot && SegOk(after)
            && after.rem == s.rem - TotSize(s.next, n, size, align)
  {
    hide AlignGap, Multiple, SegAlloc, BlockAt, TotSize;
    FrontIsNext(s);
    TotSizeStep(s.next, 1, size, align);
    if n == 1 {
      SegAllocSound(s, size, align);
    } else {
      TotSizeStep(s.next, n - 1, size, align);
      RunFits(s, n - 1, size, align);
      var s1 := AllocRun(s, n - 1, size, align).0;
      FrontIsNext(s1);
      NextGap(s1.next, s.next, n - 1, size, align);
      SegAllocSound(s1, size, align);
    }
  }

  lemma TotSizeStep(addr: Word, n: nat, size: Word, align: Word)
    requires align >= 1 && n >= 1
    ensures TotSize(addr, 1, size, align) == AlignGap(addr, align) + size
    ensures TotSize(addr, n, size, align) >= size
    ensures TotSize(addr, n + 1, size, align) == TotSize(addr, n, size, align) + Stride(size, align)
    ensures addr + TotSize(addr, n, size, align) == BlockAt(addr, size, align, n - 1) + size
    ensures BlockAt(addr, size, align, n) == BlockAt(addr, size, align, n - 1) + Stride(size, align)
  {
    hide AlignGap, Stride;
    var stride := Stride(size, align);
    assert stride * n == stride * (n - 1) + stride;
    assert stride * (n - 1) >= 0;
  }

  /** The gap in front of block `n`, once `n` blocks are carved from `start`. */
  lemma NextGap(next: Word, start: Word, n: nat, size: Word, align: Word)
    requires align >= 1 && n >= 1
    requires next == start + TotSize(start, n, size, align)
    ensures AlignGap(next, align) == AlignGap(size, align)
    ensures next + AlignGap(next, align) == BlockAt(start, size, align, n)
  {
    hide AlignGap, Multiple;
    TotSizeStep(start, n, size, align);
    BlockAligned(start, size, align, n - 1);
    var b := BlockAt(start, size, align, n - 1);
    BlockPositive(start, size, align, n - 1);
    GapAfterBlock(b, size, align);
  }

  lemma BlockPositive(start: Word, size: Word, align: Word, i: nat)
    requires align >= 1
    ensures BlockAt(start, size, align, i) >= start
  {
    hide AlignGap, Stride;
    assert i * Stride(size, align) >= 0;
  }

  lemma BlocksApart(start: Word, size: Word, align: Word, i: nat, j: nat)
    requires align >= 1 && i < j
    ensures BlockAt(start, size, align, i) + Stride(size, align) <= BlockAt(start, size, align, j)
  {
    hide AlignGap, Stride;
    var stride := Stride(size, align);
    assert j * stride == i * stride + stride + (j - i - 1) * stride;
    assert (j - i - 1) * stride >= 0;
  }

  lemma BlocksCarved(s: Seg, n: nat, size: Word, align: Word, blocks: seq<Word>)
    requires align >= 1 && n >= 1 && |blocks| == n
    requires forall i :: 0 <= i < n ==> blocks[i] == BlockAt(s.next, size, align, i)
    ensures Carved(blocks, size, align, s.next, s.next + TotSize(s.next, n, size, align))
  {
    hide AlignGap, Multiple, BlockAt, TotSize;
    TotSizeStep(s.next, n, size, align);
    forall i | 0 <= i < n
      ensures Multiple(blocks[i], align) && s.next <= blocks[i]
      ensures blocks[i] + size <= s.next + TotSize(s.next, n, size, align)
    {
      BlockAligned(s.next, size, align, i);
      BlockPositive(s.next, size, align, i);
      if i < n - 1 {
        BlocksApart(s.next, size, align, i, n - 1);
      }
    }
    forall i, j | 0 <= i < j < n
      ensures blocks[i] + size <= blocks[j]
    {
      BlocksApart(s.next, size, align, i, j);
    }
  }

  /** An allocation that lands in what remained of the segment did not wrap. */
  lemma SegAllocInside(s: Seg, size: Word, align: Word)
    requires SegOk(s) && size >= 1 && align >= 1
    requires var b := SegAlloc(s, size, align).1; s.next <= b && b + size <= s.next + s.rem
    ensures SegAlloc(s, size, align).1 == s.next + AlignGap(s.next, align)
  {
    hide AlignGap, Multiple, Wrap;
    FrontIsNext(s);
    var to := s.next + AlignGap(s.next, align);
    if to < ADDR_SPACE {
      WrapSmall(to);
    } else {
      WrapPast(to);
    }
  }

  /** A segment that has given an address had octets left, so its front was its next address. */
  lemma NothingLeft(s: Seg, size: Word, align: Word)
    requires SegOk(s) && size >= 1 && align >= 1
    requires SegAlloc(s, size, align).1 != NULL && SegAlloc(s, size, align).1 + size <= s.base + s.tot
    requires Front(s) <= SegAlloc(s, size, align).1
    ensures s.rem >= 1 && s.next == Front(s)
  {
    hide SegAlloc;
    FrontIsNext(s);
  }

  lemma CarvedPrefix(blocks: seq<Word>, n: nat, size: Word, align: Word, lo: int, hi: int)
    requires align >= 1 && n <= |blocks| && Carved(blocks, size, align, lo, hi)
    ensures Carved(blocks[..n], size, align, lo, hi)
  {
    hide Multiple;
  }

  lemma PrefixSucceeds(s: Seg, n: nat, size: Word, align: Word)
    requires align >= 1 && n >= 2 && RunSucceeds(s, n, size, align)
    ensures RunSucceeds(s, n - 1, size, align)
    ensures AllocRun(s, n, size, align).1 ==
            AllocRun(s, n - 1, size, align).1 + [SegAlloc(AllocRun(s, n - 1, size, align).0, size, align).1]
    ensures SegAlloc(AllocRun(s, n - 1, size, align).0, size, align).1 != NULL
  {
    hide Multiple, SegAlloc, Carved;
    var blocks := AllocRun(s, n, size, align).1;
    CarvedPrefix(blocks, n - 1, size, align, s.next, s.next + s.rem);
    assert AllocRun(s, n - 1, size, align).1 == blocks[..n - 1];
  }

  /** If the loop gives a block more than fit exactly so far, that one fits as well. */
  lemma LastBlockFits(s: Seg, n: nat, size: Word, align: Word)
    requires SegOk(s) && size >= 1 && align >= 1 && n >= 2
    requires RunSucceeds(s, n, size, align) && TotSize(s.next, n - 1, size, align) <= s.rem
    ensures TotSize(s.next, n, size, align) <= s.rem
  {
    hide AlignGap, Multiple, SegAlloc, BlockAt, TotSize, Carved, Wrap;
    FrontIsNext(s);
    PrefixSucceeds(s, n, size, align);
    var s1, blocks := AllocRun(s, n - 1, size, align).0, AllocRun(s, n, size, align).1;
    LastInside(blocks, n, size, align, s.next, s.next + s.rem);
    TotSizeStep(s.next, n - 1, size, align);
    RunFits(s, n - 1, size, align);
    hide AllocRun;
    NothingLeft(s1, size, align);
    NextGap(s1.next, s.next, n - 1, size, align);
    SegAllocInside(s1, size, align);
  }

  /** The allocation loop meets the request exactly when the unbounded total fits. */
  lemma {:induction false} RunSucceedsIff(s: Seg, n: nat, size: Word, align: Word)
    requires SegOk(s) && size >= 1 && align >= 1 && n >= 1
    ensures RunSucceeds(s, n, size, align) <==> TotSize(s.next, n, size, align) <= s.rem
  {
    hide AlignGap, Multiple, SegAlloc, BlockAt, TotSize, Carved, Wrap;
    FrontIsNext(s);
    if TotSize(s.next, n, size, align) <= s.rem {
      RunFits(s, n, size, align);
      BlocksCarved(s, n, size, align, AllocRun(s, n, size, align).1);
      var blocks := AllocRun(s, n, size, align).1;
      CarvedWiden(blocks, size, align, s.next, s.next + TotSize(s.next, n, size, align), s.next + s.rem);
    } else if RunSucceeds(s, n, size, align) {
      if n == 1 {
        assert AllocRun(s, n - 1, size, align) == (s, []);
        LastInside(AllocRun(s, n, size, align).1, n, size, align, s.next, s.next + s.rem);
        TotSizeStep(s.next, 1, size, align);
        SegAllocInside(s, size, align);
      } else {
        PrefixSucceeds(s, n, size, align);
        RunSucceedsIff(s, n - 1, size, align);
        LastBlockFits(s, n, size, align);
      }
    }
  }

  lemma CarvedWiden(blocks: seq<Word>, size: Word, align: Word, lo: int, hi: int, top: int)
    requires align >= 1 && hi <= top && Carved(blocks, size, align, lo, hi)
    ensures Carved(blocks, size, align, lo, top)
  {
  }

  lemma LastInside(blocks: seq<Word>, n: nat, size: Word, align: Word, lo: int, hi: int)
    requires align >= 1 && |blocks| == n >= 1 && Carved(blocks, size, align, lo, hi)
    ensures lo <= blocks[n - 1] && blocks[n - 1] + size <= hi
    ensures n >= 2 ==> blocks[n - 2] + size <= blocks[n - 1]
  {
    hide Multiple;
  }

  /** The predictor answers for the loop exactly when the total has a 32-bit
      value, or its 32-bit remainder is too large as well. */
  lemma PredictorExactIff(s: Seg, nbr: Word, size: Word, align: Word)
    requires SegOk(s) && nbr >= 1 && size >= 1 && align >= 1
    ensures var tot := TotSize(s.next, nbr, size, align);
            (RunSucceeds(s, nbr, size, align) <==> CalcTotSize(s.next, nbr, size, align) <= s.rem)
            <==> (tot < ADDR_SPACE || Wrap(tot) > s.rem)
  {
    hide AlignGap, TotSize, RunSucceeds, CalcTotSize, Wrap;
    RunSucceedsIff(s, nbr, size, align);
    CalcTotSizeWraps(s.next, nbr, size, align);
    TotSizeStep(s.next, nbr, size, align);
    if TotSize(s.next, nbr, size, align) < ADDR_SPACE {
      WrapSmall(TotSize(s.next, nbr, size, align));
    }
  }

  /** Two blocks of half the address space: the predictor sees a total of 0,
      while the loop cannot place even the first one. */
  lemma PredictorWraps()
    ensures var s := Seg(0x2000_0000, 0x1_0000, 0x2000_0000, 0x1_0000);
            && CalcTotSize(s.next, 2, 0x8000_0000, 1) == 0
            && AllocRun(s, 2, 0x8000_0000, 1) == (s, [])
  {
    hide AlignGap, Multiple, SegAlloc, CalcTotSize;
    var s := Seg(0x2000_0000, 0x1_0000, 0x2000_0000, 0x1_0000);
    CalcTotSizeWraps(s.next, 2, 0x8000_0000, 1);
    SegAllocSound(s, 0x8000_0000, 1);
    assert AllocRun(s, 1, 0x8000_0000, 1) == (s, []);
  }

  /** The octets reported with an error are the fewest that would have been enough. */
  lemma ShortfallIsLeast(s: Seg, n: nat, size: Word, align: Word, extra: Word)
    requires SegOk(s) && size >= 1 && align >= 1 && n >= 1
    requires s.base + s.tot + extra <= ADDR_SPACE
    ensures RunSucceeds(Seg(s.base, s.tot + extra, s.next, s.rem + extra), n, size, align)
            <==> extra >= TotSize(s.next, n, size, align) - s.rem
  {
    hide AlignGap, TotSize, RunSucceeds;
    RunSucceedsIff(Seg(s.base, s.tot + extra, s.next, s.rem + extra), n, size, align);
  }

  /** Whether or not the loop gets to the end, what it carved is sound and the
      segment accounts for every octet, provided no single block wraps. */
  lemma {:induction false} RunKeepsSegment(s: Seg, n: nat, size: Word, align: Word)
    requires SegOk(s) && size >= 1 && align >= 1 && size + align <= ADDR_SPACE
    ensures var (after, blocks) := AllocRun(s, n, size, align);
            && SegOk(after) && after.base == s.base && after.tot == s.tot && Front(s) <= Front(after)
            && Carved(blocks, size, align, Front(s), Front(after))
  {
    hide AlignGap, Multiple, SegAlloc;
    if n > 0 {
      RunKeepsSegment(s, n - 1, size, align);
      var s1 := AllocRun(s, n - 1, size, align).0;
      SegAllocSound(s1, size, align);
    }
  }
}
