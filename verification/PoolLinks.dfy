/** Linking a fresh record keeps the two-dimensional list well formed. */
module PoolLinks {
  import opened Machine
  import opened Segments
  import opened PoolRecord
  import opened PoolTable

  lemma InitialLinked(cpu: Endian, mem: Mem, heap: MemPool, base: Word, size: Word)
    ensures Linked(Initial(cpu, mem, heap, base, size))
  {
    assert ColumnLinked(Initial(cpu, mem, heap, base, size), heap);
  }

  lemma FreshIsNoHead(st: State, k: MemPool)
    requires Linked(st) && k !in st.pools && k != st.heap
    ensures k !in st.heads && k !in st.cols && k !in st.segs
    ensures forall h :: h in st.cols ==> k !in st.cols[h]
  {
    forall h | h in st.cols
      ensures h != k && k !in st.cols[h]
    {
      assert ColumnLinked(st, h) && h == st.cols[h][0];
    }
  }

  /** The links depend on the lists and on which column each pool is in, on nothing else. */
  lemma SameLinks(st: State, next: State)
    requires Linked(st) && next.heap == st.heap && next.heads == st.heads && next.cols == st.cols
    requires next.segs.Keys == st.segs.Keys && next.pools.Keys == st.pools.Keys
    requires forall q :: q in st.pools ==> next.pools[q].seg == st.pools[q].seg
    ensures Linked(next)
  {
    forall h | h in st.cols
      ensures ColumnLinked(next, h)
    {
      SameColumn(st, next, h);
    }
    forall p | p in st.pools
      ensures PoolLinked(next, p)
    {
      assert PoolLinked(st, p);
    }
  }

  lemma IndexKeepsLinked(st: State, p: MemPool, ix: Word)
    requires Linked(st) && p in st.pools
    ensures Linked(st.(pools := st.pools[p := st.pools[p].(blkIx := ix)]))
  {
    SameLinks(st, st.(pools := st.pools[p := st.pools[p].(blkIx := ix)]));
  }

  lemma SegmentKeepsLinked(st: State, m: Mem, h: MemPool, seg: Seg)
    requires Linked(st) && h in st.segs
    ensures Linked(st.(mem := m, segs := st.segs[h := seg]))
  {
    SameLinks(st, st.(mem := m, segs := st.segs[h := seg]));
  }

  lemma MemoryKeepsLinked(st: State, m: Mem)
    requires Linked(st)
    ensures Linked(st.(mem := m))
  {
    SameLinks(st, st.(mem := m));
  }

  lemma SameColumn(st: State, next: State, h: MemPool)
    requires h in st.cols && ColumnLinked(st, h) && next.heap == st.heap && next.cols == st.cols
    requires next.pools.Keys == st.pools.Keys
    requires forall q :: q in st.pools ==> next.pools[q].seg == st.pools[q].seg
    ensures ColumnLinked(next, h)
  {
  }

  lemma CarvingKeepsLinked(st: State, place: Place, c: Carving)
    requires Linked(st) && st.heads != [] && (place.Share? ==> place.head in st.heads)
    ensures Linked(AfterCarving(st, place, c))
  {
    SameLinks(st, AfterCarving(st, place, c));
  }

  lemma ShareKeepsLinked(st: State, k: MemPool, h: MemPool, seg: Seg, pool: Pool)
    requires Linked(st) && k !in st.pools && k != st.heap && h in st.cols && pool.seg == h
    ensures Linked(Link(st, k, Share(h), seg, pool))
  {
    FreshIsNoHead(st, k);
    assert ColumnLinked(st, h);
    var next := Link(st, k, Share(h), seg, pool);
    SharedColumn(st, k, h, seg, pool);
    forall g | g in next.cols
      ensures ColumnLinked(next, g)
    {
      assert ColumnLinked(st, g);
    }
    forall p | p in next.pools
      ensures PoolLinked(next, p)
    {
      StillLinked(st, k, h, seg, pool, p);
    }
  }

  lemma StillLinked(st: State, k: MemPool, h: MemPool, seg: Seg, pool: Pool, p: MemPool)
    requires k != st.heap && h in st.cols && |st.cols[h]| >= 1 && pool.seg == h
    requires p == k || (p in st.pools && PoolLinked(st, p))
    ensures PoolLinked(Link(st, k, Share(h), seg, pool), p)
  {
    var col, wider := st.cols[h], Link(st, k, Share(h), seg, pool).cols[h];
    if p == k {
      assert wider[1] == k;
    } else if st.pools[p].seg == h {
      var i :| 0 <= i < |col| && col[i] == p;
      assert p == wider[if i == 0 then 0 else i + 1];
    }
  }

  lemma SharedColumn(st: State, k: MemPool, h: MemPool, seg: Seg, pool: Pool)
    requires h in st.cols && ColumnLinked(st, h) && k !in st.pools && k != st.heap && k !in st.cols[h] && pool.seg == h
    ensures ColumnLinked(Link(st, k, Share(h), seg, pool), h)
  {
    var next := Link(st, k, Share(h), seg, pool);
    var col, wider := st.cols[h], next.cols[h];
    assert |wider| == |col| + 1;
    assert forall i :: 0 <= i < |wider| ==> wider[i] == if i == 0 then h else if i == 1 then k else col[i - 1];
  }

  lemma InsertKeepsLinked(st: State, k: MemPool, at: nat, seg: Seg, pool: Pool)
    requires Linked(st) && k !in st.pools && k != st.heap && at <= |st.heads| && st.heads != [] && pool.seg == k
    ensures Linked(Link(st, k, Insert(at), seg, pool))
  {
    FreshIsNoHead(st, k);
    var next := Link(st, k, Insert(at), seg, pool);
    InsertedHeads(st, k, at, seg, pool);
    forall g | g in next.cols
      ensures ColumnLinked(next, g)
    {
      if g != k {
        assert ColumnLinked(st, g);
      }
    }
    forall p | p in next.pools
      ensures PoolLinked(next, p)
    {
      if p != k {
        assert PoolLinked(st, p);
      }
    }
  }

  lemma InsertedHeads(st: State, k: MemPool, at: nat, seg: Seg, pool: Pool)
    requires HeadsLinked(st) && k !in st.heads && at <= |st.heads| && st.heads != []
    ensures HeadsLinked(Link(st, k, Insert(at), seg, pool))
  {
    hide InsertAt;
    var next := Link(st, k, Insert(at), seg, pool);
    InsertAtMembers(st.heads, at, k);
    InsertAtDistinct(st.heads, at, k);
    assert forall h :: h in next.segs ==> h == k || h in st.heads;
    assert forall h :: h in next.cols ==> h == k || h in st.heads;
  }

  lemma InsertAtMembers<T>(s: seq<T>, at: nat, x: T)
    requires at <= |s|
    ensures x in InsertAt(s, at, x)
    ensures forall y :: y in s ==> y in InsertAt(s, at, x)
    ensures forall y :: y in InsertAt(s, at, x) ==> y == x || y in s
  {
    var t := InsertAt(s, at, x);
    assert t[at] == x;
    forall y | y in s
      ensures y in t
    {
      var i :| 0 <= i < |s| && s[i] == y;
      assert t[if i < at then i else i + 1] == y;
    }
  }

  lemma InsertAtDistinct<T>(s: seq<T>, at: nat, x: T)
    requires at <= |s| && x !in s
    requires forall i, j :: 0 <= i < j < |s| ==> s[i] != s[j]
    ensures forall i, j :: 0 <= i < j < |s| + 1 ==> InsertAt(s, at, x)[i] != InsertAt(s, at, x)[j]
  {
    var t := InsertAt(s, at, x);
    forall i, j | 0 <= i < j < |t|
      ensures t[i] != t[j]
    {
      if i == at {
        assert t[j] == s[j - 1] && s[j - 1] in s;
      } else if j == at {
        assert t[i] == s[i] && s[i] in s;
      }
    }
  }

  /** A record has one place in one column. */
  lemma OnePlace(st: State, g: MemPool, i: int, h: MemPool, j: int)
    requires Linked(st) && g in st.cols && h in st.cols
    requires 0 <= i < |st.cols[g]| && 0 <= j < |st.cols[h]| && st.cols[g][i] == st.cols[h][j]
    ensures g == h && i == j
  {
    assert ColumnLinked(st, g) && ColumnLinked(st, h);
  }
}
