/** How the pointer tables sit in memory: a table is unmoved by writes outside
    it, stores read back, and pushing a word extends the free stack by one. */
module PoolMemory {
  import opened Machine
  import opened PoolTable

  ghost predicate AgreeOn(m: Mem, n: Mem, lo: int, hi: int) {
    forall x: Word :: lo <= x < hi ==> m[x] == n[x]
  }

  ghost predicate AgreeOff(m: Mem, n: Mem, lo: int, hi: int) {
    forall x: Word :: !(lo <= x < hi) ==> m[x] == n[x]
  }

  lemma EntryAddress(ptrs: Word, i: nat)
    requires ptrs + 4 * i + 4 <= ADDR_SPACE
    ensures Wrap(ptrs + 4 * i) == ptrs + 4 * i
  {
  }

  lemma EntrySame(cpu: Endian, m: Mem, n: Mem, ptrs: Word, i: nat)
    requires ptrs + 4 * i + 4 <= ADDR_SPACE
    requires AgreeOn(m, n, ptrs + 4 * i, ptrs + 4 * i + 4)
    ensures TableEntry(cpu, m, ptrs, i) == TableEntry(cpu, n, ptrs, i)
  {
    EntryAddress(ptrs, i);
    SameWord(cpu, m, ptrs + 4 * i, n, ptrs + 4 * i);
  }

  lemma StackSame(cpu: Endian, m: Mem, n: Mem, p: Pool)
    requires p.blkIx <= p.blkNbr && p.ptrs + 4 * p.blkNbr <= ADDR_SPACE
    requires AgreeOn(m, n, p.ptrs, p.ptrs + 4 * p.blkNbr)
    ensures FreeStack(cpu, m, p) == FreeStack(cpu, n, p)
  {
    hide TableEntry;
    forall i | 0 <= i < p.blkIx
      ensures TableEntry(cpu, m, p.ptrs, i) == TableEntry(cpu, n, p.ptrs, i)
    {
      EntrySame(cpu, m, n, p.ptrs, i);
    }
  }

  lemma StoreEntry(cpu: Endian, m: Mem, ptrs: Word, i: nat, v: Word)
    requires ptrs + 4 * i + 4 <= ADDR_SPACE
    ensures var n := Set32(cpu, m, Wrap(ptrs + 4 * i), v);
            TableEntry(cpu, n, ptrs, i) == v && AgreeOff(n, m, ptrs + 4 * i, ptrs + 4 * i + 4)
  {
    hide Set32, Get32;
    var a := Wrap(ptrs + 4 * i);
    EntryAddress(ptrs, i);
    GetAfterSet32(cpu, m, a, v);
    forall x: Word | !(a <= x < a + 4)
      ensures Set32(cpu, m, a, v)[x] == m[x]
    {
      Set32Frame(cpu, m, a, v, x);
    }
  }

  lemma {:induction false} StoreTableReads(cpu: Endian, m: Mem, ptrs: Word, blocks: seq<Word>)
    requires ptrs + 4 * |blocks| <= ADDR_SPACE
    ensures var n := StoreTable(cpu, m, ptrs, blocks);
            && AgreeOff(n, m, ptrs, ptrs + 4 * |blocks|)
            && (forall i :: 0 <= i < |blocks| ==> TableEntry(cpu, n, ptrs, i) == blocks[i])
  {
    hide TableEntry, Set32, Wrap;
    if blocks != [] {
      var k := |blocks| - 1;
      var before := StoreTable(cpu, m, ptrs, blocks[..k]);
      var after := StoreTable(cpu, m, ptrs, blocks);
      StoreTableReads(cpu, m, ptrs, blocks[..k]);
      StoreEntry(cpu, before, ptrs, k, blocks[k]);
      forall i | 0 <= i < k
        ensures TableEntry(cpu, after, ptrs, i) == blocks[i]
      {
        EntrySame(cpu, after, before, ptrs, i);
        assert TableEntry(cpu, before, ptrs, i) == blocks[..k][i];
      }
    }
  }

  /** The table Mem_PoolCreate fills is the free stack of the new pool. */
  lemma NewTableIsStack(cpu: Endian, m: Mem, p: Pool, blocks: seq<Word>)
    requires |blocks| == p.blkIx && p.ptrs + 4 * |blocks| <= ADDR_SPACE
    ensures FreeStack(cpu, StoreTable(cpu, m, p.ptrs, blocks), p) == blocks
  {
    hide TableEntry;
    StoreTableReads(cpu, m, p.ptrs, blocks);
  }

  /** What Mem_PoolBlkFree stores is the new top of the stack. */
  lemma PushExtendsStack(cpu: Endian, m: Mem, p: Pool, v: Word)
    requires p.blkIx < p.blkNbr <= 0xFFFF && p.ptrs + 4 * p.blkNbr <= ADDR_SPACE
    ensures var n := Set32(cpu, m, Wrap(p.ptrs + 4 * p.blkIx), v);
            && FreeStack(cpu, n, p.(blkIx := p.blkIx + 1)) == FreeStack(cpu, m, p) + [v]
            && AgreeOff(n, m, p.ptrs, p.ptrs + 4 * p.blkNbr)
  {
    hide TableEntry, Set32, Wrap;
    var n := Set32(cpu, m, Wrap(p.ptrs + 4 * p.blkIx), v);
    StoreEntry(cpu, m, p.ptrs, p.blkIx, v);
    forall i | 0 <= i < p.blkIx
      ensures TableEntry(cpu, n, p.ptrs, i) == TableEntry(cpu, m, p.ptrs, i)
    {
      EntrySame(cpu, n, m, p.ptrs, i);
    }
  }

  /** What Mem_PoolBlkGet hands out is the old top of the stack. */
  lemma PopShortensStack(cpu: Endian, m: Mem, p: Pool)
    requires p.blkIx >= 1
    ensures FreeStack(cpu, m, p) ==
            FreeStack(cpu, m, p.(blkIx := p.blkIx - 1)) + [TableEntry(cpu, m, p.ptrs, p.blkIx - 1)]
  {
    hide TableEntry;
  }
}
