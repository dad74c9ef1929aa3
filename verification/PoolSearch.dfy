/** The search of the segment list in Mem_PoolCreate. */
module PoolSearch {
  import opened Machine
  import opened Segments
  import opened PoolRecord
  import opened PoolTable

  /** The segments are real memory and lie in ascending order without overlap. */
  predicate SegsOk(heads: seq<MemPool>, segs: map<MemPool, Seg>) {
    && (forall h :: h in heads ==> h in segs && SegOk(segs[h]) && segs[h].tot >= 1)
    && (forall i, j :: 0 <= i < j < |heads| ==> segs[heads[i]].base + segs[heads[i]].tot <= segs[heads[j]].base)
  }

  /** A table of linked records whose segments lie as they should. */
  ghost predicate TableOk(st: State) {
    Linked(st) && st.heads != [] && SegsOk(st.heads, st.segs)
  }

  /** Octet `x` is one of the `size` octets from `base` on; a range may run past the top. */
  predicate Covers(base: Word, size: Word, x: Word) {
    Minus(x, base) < size
  }

  /** Some octet belongs to the range and to the segment. */
  ghost predicate Intersects(base: Word, size: Word, s: Seg) {
    exists x: Word :: Covers(base, size, x) && Covers(s.base, s.tot, x)
  }

  predicate Identical(base: Word, size: Word, s: Seg) {
    base == s.base && size == s.tot
  }

  lemma TestIsIntersection(base: Word, size: Word, s: Seg)
    requires SegOk(s) && s.tot >= 1 && base >= 1 && size >= 1 && base + size <= ADDR_SPACE
    ensures TestedOverlap(base, Wrap(base + size - 1), s.base, Wrap(s.base + s.tot - 1)) <==> Intersects(base, size, s)
  {
    hide Wrap;
    WrapSmall(base + size - 1);
    WrapSmall(s.base + s.tot - 1);
    MeetIff(base, size, s);
  }

  lemma MeetIff(base: Word, size: Word, s: Seg)
    requires s.base + s.tot <= ADDR_SPACE && s.tot >= 1 && size >= 1 && base + size <= ADDR_SPACE
    ensures Intersects(base, size, s) <==> base < s.base + s.tot && s.base < base + size
  {
    var x: Word := if base <= s.base then s.base else base;
    if base < s.base + s.tot && s.base < base + size {
      assert Covers(base, size, x) && Covers(s.base, s.tot, x);
    }
  }

  /** A range between or beside the segments can be inserted at `i`. */
  ghost predicate FitsAt(heads: seq<MemPool>, segs: map<MemPool, Seg>, base: Word, size: Word, i: nat)
    requires SegsOk(heads, segs)
  {
    && i <= |heads|
    && (forall j :: 0 <= j < i ==> segs[heads[j]].base + segs[heads[j]].tot <= base)
    && (forall j :: i <= j < |heads| ==> base + size <= segs[heads[j]].base)
  }

  lemma BasesAscend(heads: seq<MemPool>, segs: map<MemPool, Seg>, i: nat, j: nat)
    requires SegsOk(heads, segs) && i < |heads| && j < |heads|
    ensures i < j ==> segs[heads[i]].base < segs[heads[j]].base
  {
    hide SegOk;
  }

  lemma BaseIdentifies(heads: seq<MemPool>, segs: map<MemPool, Seg>, g: MemPool, h: MemPool)
    requires SegsOk(heads, segs) && g in heads && h in heads && segs[g].base == segs[h].base
    ensures g == h
  {
    hide SegsOk;
    var i :| 0 <= i < |heads| && heads[i] == g;
    var j :| 0 <= j < |heads| && heads[j] == h;
    BasesAscend(heads, segs, i, j);
    BasesAscend(heads, segs, j, i);
  }

  lemma FitsClearOf(heads: seq<MemPool>, segs: map<MemPool, Seg>, base: Word, size: Word, at: nat, h: MemPool)
    requires SegsOk(heads, segs) && h in heads && size >= 1 && FitsAt(heads, segs, base, size, at)
    ensures base != segs[h].base
  {
    hide SegOk;
  }

  /** A range that is one of the segments is found to be that one. */
  lemma IdenticalFound(heads: seq<MemPool>, segs: map<MemPool, Seg>, base: Word, size: Word, h: MemPool)
    requires SegsOk(heads, segs) && h in heads && Identical(base, size, segs[h])
    ensures Search(heads, segs, base, size, 0) == Share(h)
  {
    assert SegOk(segs[h]) && segs[h].tot >= 1;
    SearchFrom(heads, segs, base, size, 0);
    hide Search, FitsAt, SegsOk, SegOk;
    var place := Search(heads, segs, base, size, 0);
    if place.Share? {
      BaseIdentifies(heads, segs, h, place.head);
    } else if place.Insert? {
      FitsClearOf(heads, segs, base, size, place.at, h);
    }
  }

  /** The search ends with one of three verdicts, each for its own reason: the
      range is one of the segments; it meets a segment and is none; or it lies
      clear of all of them at the place found. */
  lemma {:induction false} SearchFrom(heads: seq<MemPool>, segs: map<MemPool, Seg>, base: Word, size: Word, i: nat)
    requires SegsOk(heads, segs)
    requires base >= 1 && size >= 1 && base + size <= ADDR_SPACE
    requires i <= |heads| && forall j :: 0 <= j < i ==> segs[heads[j]].base + segs[heads[j]].tot <= base
    ensures match Search(heads, segs, base, size, i)
            case Share(h) => h in heads && Identical(base, size, segs[h])
            case Insert(at) => FitsAt(heads, segs, base, size, at)
            case Overlap => (exists h :: h in heads && Intersects(base, size, segs[h]))
                            && (forall h :: h in heads ==> !Identical(base, size, segs[h]))
    decreases |heads| - i
  {
    hide Intersects, TestedOverlap, FitsAt, Wrap;
    if i == |heads| {
      NothingAbove(heads, segs, base, size, i);
    } else {
      var s := segs[heads[i]];
      assert heads[i] in heads;
      hide SegsOk, SegOk;
      TestIsIntersection(base, size, s);
      WrapSmall(base + size - 1);
      if Identical(base, size, s) {
      } else if base + size - 1 < s.base {
        NothingAbove(heads, segs, base, size, i);
      } else if Intersects(base, size, s) {
        NotIdentical(heads, segs, base, size, i);
      } else {
        BeyondSegment(base, size, s);
        SearchFrom(heads, segs, base, size, i + 1);
      }
    }
  }

  lemma NothingAbove(heads: seq<MemPool>, segs: map<MemPool, Seg>, base: Word, size: Word, i: nat)
    requires SegsOk(heads, segs) && i <= |heads|
    requires forall j :: 0 <= j < i ==> segs[heads[j]].base + segs[heads[j]].tot <= base
    requires i < |heads| ==> base + size <= segs[heads[i]].base
    ensures FitsAt(heads, segs, base, size, i)
  {
  }

  lemma BeyondSegment(base: Word, size: Word, s: Seg)
    requires SegOk(s) && s.tot >= 1 && size >= 1 && s.base < base + size <= ADDR_SPACE && !Intersects(base, size, s)
    ensures s.base + s.tot <= base
  {
    hide Intersects, Wrap;
    MeetIff(base, size, s);
  }

  lemma NotIdentical(heads: seq<MemPool>, segs: map<MemPool, Seg>, base: Word, size: Word, i: nat)
    requires SegsOk(heads, segs)
    requires i < |heads| && Intersects(base, size, segs[heads[i]]) && !Identical(base, size, segs[heads[i]])
    ensures forall h :: h in heads ==> !Identical(base, size, segs[h])
  {
    forall h | h in heads
      ensures !Identical(base, size, segs[h])
    {
      var j :| 0 <= j < |heads| && heads[j] == h;
      if j < i {
        assert segs[heads[j]].base + segs[heads[j]].tot <= segs[heads[i]].base;
      } else if i < j {
        assert segs[heads[i]].base + segs[heads[i]].tot <= segs[heads[j]].base;
      }
    }
  }

  lemma WrappedTest(base: Word, size: Word, s: Seg)
    requires SegOk(s) && s.tot >= 1 && base + size > ADDR_SPACE
    ensures var last := base + size - 1 - ADDR_SPACE;
            && Wrap(base + size - 1) == last && !Identical(base, size, s)
            && (last < s.base ==> !Covers(s.base, s.tot, last))
            && (last >= s.base ==> (TestedOverlap(base, last, s.base, Wrap(s.base + s.tot - 1))
                                    <==> Covers(s.base, s.tot, last)))
  {
  }

  lemma BelowAll(heads: seq<MemPool>, segs: map<MemPool, Seg>, i: nat, j: nat, x: Word)
    requires SegsOk(heads, segs) && i <= j < |heads| && x < segs[heads[i]].base
    ensures !Covers(segs[heads[j]].base, segs[heads[j]].tot, x)
  {
    assert SegOk(segs[heads[i]]) && SegOk(segs[heads[j]]);
  }

  /** Octet `x` belongs to one of the segments from the `i`-th on. */
  ghost predicate HeldFrom(heads: seq<MemPool>, segs: map<MemPool, Seg>, x: Word, i: nat)
    requires forall h :: h in heads ==> h in segs
  {
    exists j :: i <= j < |heads| && Covers(segs[heads[j]].base, segs[heads[j]].tot, x)
  }

  lemma HeldStep(heads: seq<MemPool>, segs: map<MemPool, Seg>, x: Word, i: nat)
    requires SegsOk(heads, segs) && i < |heads|
    ensures HeldFrom(heads, segs, x, i) <==>
            Covers(segs[heads[i]].base, segs[heads[i]].tot, x) || HeldFrom(heads, segs, x, i + 1)
    ensures x < segs[heads[i]].base ==> !HeldFrom(heads, segs, x, i)
  {
    forall j | i <= j < |heads| && x < segs[heads[i]].base
      ensures !Covers(segs[heads[j]].base, segs[heads[j]].tot, x)
    {
      BelowAll(heads, segs, i, j, x);
    }
    hide SegsOk, Covers;
  }

  /** One round of the search. */
  lemma SearchRound(heads: seq<MemPool>, segs: map<MemPool, Seg>, base: Word, size: Word, i: nat, s: Seg)
    requires (forall h :: h in heads ==> h in segs) && i < |heads| && s == segs[heads[i]]
    ensures var last, segLast := Wrap(base + size - 1), Wrap(s.base + s.tot - 1);
            Search(heads, segs, base, size, i) ==
            if base == s.base && size == s.tot then Share(heads[i])
            else if last < s.base then Insert(i)
            else if TestedOverlap(base, last, s.base, segLast) then Overlap
            else Search(heads, segs, base, size, i + 1)
  {
    hide TestedOverlap, Wrap;
  }

  lemma SegOfHead(heads: seq<MemPool>, segs: map<MemPool, Seg>, i: nat)
    requires SegsOk(heads, segs) && i < |heads|
    ensures heads[i] in segs && SegOk(segs[heads[i]]) && segs[heads[i]].tot >= 1
    ensures forall h :: h in heads ==> h in segs
  {
    hide SegOk;
  }

  lemma WrappedVerdict(heads: seq<MemPool>, segs: map<MemPool, Seg>, base: Word, size: Word, i: nat, s: Seg)
    requires SegsOk(heads, segs) && base + size > ADDR_SPACE && i < |heads| && s == segs[heads[i]]
    ensures var last := base + size - 1 - ADDR_SPACE;
            Search(heads, segs, base, size, i).Overlap? <==>
            last >= s.base && (Covers(s.base, s.tot, last) || Search(heads, segs, base, size, i + 1).Overlap?)
  {
    SegOfHead(heads, segs, i);
    hide Covers, TestedOverlap, Wrap, SegsOk, SegOk, Search;
    WrappedTest(base, size, s);
    SearchRound(heads, segs, base, size, i, s);
  }

  /** A range that runs past the top is compared by its last octet alone, which has wrapped. */
  lemma {:induction false} WrappedSearch(heads: seq<MemPool>, segs: map<MemPool, Seg>, base: Word, size: Word, i: nat)
    requires SegsOk(heads, segs) && base + size > ADDR_SPACE && i <= |heads|
    ensures Search(heads, segs, base, size, i).Overlap? <==> HeldFrom(heads, segs, base + size - 1 - ADDR_SPACE, i)
    decreases |heads| - i
  {
    if i < |heads| {
      hide Search, Covers, HeldFrom;
      WrappedVerdict(heads, segs, base, size, i, segs[heads[i]]);
      HeldStep(heads, segs, base + size - 1 - ADDR_SPACE, i);
      WrappedSearch(heads, segs, base, size, i + 1);
    }
  }

  ghost predicate Meets(heads: seq<MemPool>, segs: map<MemPool, Seg>, base: Word, size: Word)
    requires forall h :: h in heads ==> h in segs
  {
    exists h :: h in heads && Intersects(base, size, segs[h])
  }

  /** Mem_PoolCreate reports an overlap exactly when the new range meets some
      segment and is identical to none. */
  lemma OverlapIff(heads: seq<MemPool>, segs: map<MemPool, Seg>, base: Word, size: Word)
    requires SegsOk(heads, segs) && base >= 1 && size >= 1 && base + size <= ADDR_SPACE
    ensures Search(heads, segs, base, size, 0).Overlap? <==>
            Meets(heads, segs, base, size) && forall h :: h in heads ==> !Identical(base, size, segs[h])
  {
    SearchFrom(heads, segs, base, size, 0);
    match Search(heads, segs, base, size, 0)
    case Insert(at) =>
      forall h | h in heads
        ensures !Intersects(base, size, segs[h])
      {
        var j :| 0 <= j < |heads| && heads[j] == h;
      }
    case _ =>
  }

  /** For a range that runs past the top the report is right exactly when none of the
      segments it meets is missed: one of them has to hold its last octet. */
  lemma WrappedOverlapIff(heads: seq<MemPool>, segs: map<MemPool, Seg>, base: Word, size: Word)
    requires SegsOk(heads, segs) && base + size > ADDR_SPACE
    ensures (Search(heads, segs, base, size, 0).Overlap? <==> Meets(heads, segs, base, size)) <==>
            (Meets(heads, segs, base, size) ==>
               exists h :: h in heads && Covers(segs[h].base, segs[h].tot, base + size - 1 - ADDR_SPACE))
  {
    var last: Word := base + size - 1 - ADDR_SPACE;
    WrappedSearch(heads, segs, base, size, 0);
    assert Covers(base, size, last);
    hide Search, Covers;
    if j :| 0 <= j < |heads| && Covers(segs[heads[j]].base, segs[heads[j]].tot, last) {
      assert heads[j] in heads && Intersects(base, size, segs[heads[j]]);
    }
    if h :| h in heads && Covers(segs[h].base, segs[h].tot, last) {
      var j :| 0 <= j < |heads| && heads[j] == h;
      assert Covers(segs[heads[j]].base, segs[heads[j]].tot, last);
    }
  }

  /** A range that holds all of memory but one octet slips past the only segment there is. */
  lemma WrappedRangeSlips(heap: MemPool)
    ensures var segs := map[heap := Seg(0x2000_0000, 0x100, 0x2000_0000, 0x100)];
            && SegsOk([heap], segs) && Meets([heap], segs, 0x1000_0000, 0xFFFF_FFFF)
            && Search([heap], segs, 0x1000_0000, 0xFFFF_FFFF, 0) == Insert(0)
  {
    var seg := Seg(0x2000_0000, 0x100, 0x2000_0000, 0x100);
    var x: Word := 0x2000_0000;
    assert Covers(0x1000_0000, 0xFFFF_FFFF, x) && Covers(seg.base, seg.tot, x);
    assert Intersects(0x1000_0000, 0xFFFF_FFFF, seg) && heap in [heap];
  }
}
