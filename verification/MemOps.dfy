/** Mem_Set, Mem_Clr, Mem_Copy and Mem_Cmp: octet loops around a word loop. All
    memory is accessed through four methods, each of which has to be told the
    buffer that the access lies in, and words only at multiples of 4. Pointers
    wrap at the top of memory, so nothing is asked of `pmem` and `size`. */
module MemOps {
  import opened Machine
  import opened MemVal
  import Arith

  /** The `n` octets from `a` on are among the `size` octets from `lo` on. */
  predicate Inside(a: Word, n: nat, lo: Word, size: nat) {
    Minus(a, lo) + n <= size
  }

  method LoadOctet(ram: array<Octet>, a: Word, ghost lo: Word, ghost size: nat) returns (v: Octet)
    requires ram.Length == ADDR_SPACE && Inside(a, 1, lo, size)
    ensures v == ram[a]
  {
    v := ram[a];
  }

  method StoreOctet(ram: array<Octet>, a: Word, v: Octet, ghost lo: Word, ghost size: nat)
    requires ram.Length == ADDR_SPACE && Inside(a, 1, lo, size)
    modifies ram
    ensures ram[..] == old(ram[..])[a := v]
  {
    ram[a] := v;
  }

  method LoadWord(cpu: Endian, ram: array<Octet>, a: Word, ghost lo: Word, ghost size: nat) returns (w: Word)
    requires ram.Length == ADDR_SPACE && Inside(a, 4, lo, size)
    requires a % 4 == 0
    ensures w == Get32(cpu, ram[..], a)
  {
    match cpu
    case Little => w := Combine(ram[a], ram[Plus(a, 1)], ram[Plus(a, 2)], ram[Plus(a, 3)]);
    case Big => w := Combine(ram[Plus(a, 3)], ram[Plus(a, 2)], ram[Plus(a, 1)], ram[a]);
  }

  method StoreWord(cpu: Endian, ram: array<Octet>, a: Word, w: Word, ghost lo: Word, ghost size: nat)
    requires ram.Length == ADDR_SPACE && Inside(a, 4, lo, size)
    requires a % 4 == 0
    modifies ram
    ensures ram[..] == Set32(cpu, old(ram[..]), a, w)
  {
    ValSet32(cpu, ram, a, w);
  }

  lemma NextOffset(p: Word)
    ensures Plus(p, 1) % 4 == if p % 4 == 3 then 0 else p % 4 + 1
    ensures Minus(p, 1) % 4 == if p % 4 == 0 then 3 else p % 4 - 1
  {
  }

  lemma SameOffset(p: Word)
    ensures Plus(p, 4) % 4 == p % 4 && Minus(p, 4) % 4 == p % 4
  {
  }

  /** A pointer that has moved `n` octets through a buffer, and the next `k`. */
  lemma Advance(p: Word, n: Word, k: Word, size: nat)
    requires n + k <= size < ADDR_SPACE
    ensures Plus(Plus(p, n), k) == Plus(p, n + k)
    ensures Minus(Plus(p, n + k), k) == Plus(p, n)
    ensures Plus(p, 0) == p
    ensures Inside(Plus(p, n), k, p, size)
  {
  }

  // ---------------------------------------------------------------- Mem_Set

  /** `after` is memory `m` with the `n` octets from `p` on set to `v`. */
  ghost predicate IsFilled(after: Mem, m: Mem, p: Word, v: Octet, n: nat) {
    forall x: Word :: after[x] == if Minus(x, p) < n then v else m[x]
  }

  lemma FillNone(m: Mem, p: Word, v: Octet)
    ensures IsFilled(m, m, p, v, 0)
  {
  }

  lemma FillOne(m: Mem, p: Word, v: Octet)
    ensures IsFilled(m[p := v], m, p, v, 1)
  {
  }

  lemma FillJoin(m: Mem, mid: Mem, after: Mem, p: Word, v: Octet, n: Word, k: nat)
    requires n + k < ADDR_SPACE
    requires IsFilled(mid, m, p, v, n) && IsFilled(after, mid, Plus(p, n), v, k)
    ensures IsFilled(after, m, p, v, n + k)
  {
    forall x: Word
      ensures after[x] == if Minus(x, p) < n + k then v else m[x]
    {
      FillRange(x, p, n, k);
    }
  }

  lemma FillRange(x: Word, p: Word, n: Word, k: nat)
    requires n + k < ADDR_SPACE
    ensures Minus(x, Plus(p, n)) < k <==> n <= Minus(x, p) < n + k
  {
  }

  /** The word all four octets of which are `v`. */
  function Repeated(v: Octet): Word {
    Combine(v, v, v, v)
  }

  method RepeatOctet(v: Octet) returns (w: Word)
    ensures w == Repeated(v)
  {
    w := 0;
    for i := 0 to 4
      invariant w == v * (if i == 0 then 0 else if i == 1 then 1 else if i == 2 then 0x101
                          else if i == 3 then 0x1_0101 else 0x101_0101)
    {
      // the shift leaves the low octet clear, so "or" is "plus"
      w := Wrap(w * 0x100) + v;
    }
  }

  lemma RepeatedFills(cpu: Endian, m: Mem, p: Word, v: Octet)
    ensures IsFilled(Set32(cpu, m, p, Repeated(v)), m, p, v, 4)
  {
    hide OctetOf, Combine;
    OctetsOfCombine(v, v, v, v);
  }

  /** One octet of the buffer, `done` octets behind its start. */
  method FillOctet(ram: array<Octet>, pmem: Word, v: Octet, size: Word, p: Word, ghost done: Word, ghost m: Mem)
    requires ram.Length == ADDR_SPACE && done < size && p == Plus(pmem, done)
    requires IsFilled(ram[..], m, pmem, v, done)
    modifies ram
    ensures IsFilled(ram[..], m, pmem, v, done + 1)
  {
    hide IsFilled, Inside, Plus;
    ghost var mid := ram[..];
    Advance(pmem, done, 1, size);
    StoreOctet(ram, p, v, pmem, size);
    FillOne(mid, p, v);
    FillJoin(m, mid, ram[..], pmem, v, done, 1);
  }

  method FillWord(cpu: Endian, ram: array<Octet>, pmem: Word, v: Octet, w: Word, size: Word, p: Word,
                  ghost done: Word, ghost m: Mem)
    requires ram.Length == ADDR_SPACE && done + 4 <= size && p == Plus(pmem, done) && p % 4 == 0
    requires w == Repeated(v) && IsFilled(ram[..], m, pmem, v, done)
    modifies ram
    ensures IsFilled(ram[..], m, pmem, v, done + 4)
  {
    hide IsFilled, Inside, Plus, Repeated, Set32;
    ghost var mid := ram[..];
    Advance(pmem, done, 4, size);
    StoreWord(cpu, ram, p, w, pmem, size);
    RepeatedFills(cpu, mid, p, v);
    FillJoin(m, mid, ram[..], pmem, v, done, 4);
  }

  method MemSet(cpu: Endian, ram: array<Octet>, pmem: Word, dataVal: Octet, size: Word)
    requires ram.Length == ADDR_SPACE
    modifies ram
    ensures pmem != NULL ==> IsFilled(ram[..], old(ram[..]), pmem, dataVal, size)
    ensures pmem == NULL ==> ram[..] == old(ram[..])
  {
    hide IsFilled, Plus, Repeated;
    FillNone(ram[..], pmem, dataVal);
    Advance(pmem, 0, 0, size);
    if size < 1 || pmem == NULL {
      return;
    }
    var dataAlign := RepeatOctet(dataVal);

    var sizeRem: Word, p: Word := size, pmem;
    var i: Word := pmem % 4;
    ghost var done: Word := 0;
    if i != 0 {
      while sizeRem > 0 && i < 4
        invariant done + sizeRem == size && p == Plus(pmem, done)
        invariant i <= 4 && p % 4 == if i == 4 then 0 else i
        invariant IsFilled(ram[..], old(ram[..]), pmem, dataVal, done)
      {
        FillOctet(ram, pmem, dataVal, size, p, done, old(ram[..]));
        NextOffset(p);
        Advance(pmem, done, 1, size);
        p, sizeRem, i, done := Plus(p, 1), sizeRem - 1, i + 1, done + 1;
      }
    }

    while sizeRem >= 4
      invariant done + sizeRem == size && p == Plus(pmem, done)
      invariant sizeRem > 0 ==> p % 4 == 0
      invariant IsFilled(ram[..], old(ram[..]), pmem, dataVal, done)
    {
      FillWord(cpu, ram, pmem, dataVal, dataAlign, size, p, done, old(ram[..]));
      SameOffset(p);
      Advance(pmem, done, 4, size);
      p, sizeRem, done := Plus(p, 4), sizeRem - 4, done + 4;
    }

    while sizeRem > 0
      invariant done + sizeRem == size && p == Plus(pmem, done)
      invariant IsFilled(ram[..], old(ram[..]), pmem, dataVal, done)
    {
      FillOctet(ram, pmem, dataVal, size, p, done, old(ram[..]));
      Advance(pmem, done, 1, size);
      p, sizeRem, done := Plus(p, 1), sizeRem - 1, done + 1;
    }
  }

  method MemClr(cpu: Endian, ram: array<Octet>, pmem: Word, size: Word)
    requires ram.Length == ADDR_SPACE
    modifies ram
    ensures pmem != NULL ==> IsFilled(ram[..], old(ram[..]), pmem, 0, size)
    ensures pmem == NULL ==> ram[..] == old(ram[..])
  {
    MemSet(cpu, ram, pmem, 0, size);
  }

  // --------------------------------------------------------------- Mem_Copy

  /** Memory after `n` steps of the plain octet loop, lowest address first. */
  function CopyForward(m: Mem, dest: Word, src: Word, n: nat): Mem
    requires n <= ADDR_SPACE
  {
    if n == 0 then m else CopyOctet(CopyForward(m, dest, src, n - 1), Plus(dest, n - 1), Plus(src, n - 1))
  }

  lemma CopyForwardStep(m: Mem, dest: Word, src: Word, n: Word)
    ensures CopyForward(m, dest, src, n + 1) == CopyOctet(CopyForward(m, dest, src, n), Plus(dest, n), Plus(src, n))
    ensures CopyForward(m, dest, src, 0) == m
  {
  }

  lemma {:induction false} CopyForwardJoin(m: Mem, dest: Word, src: Word, n: Word, k: Word)
    requires n + k < ADDR_SPACE
    ensures CopyForward(CopyForward(m, dest, src, n), Plus(dest, n), Plus(src, n), k) ==
            CopyForward(m, dest, src, n + k)
  {
    hide CopyForward, CopyOctet, Plus;
    var mid, d, s := CopyForward(m, dest, src, n), Plus(dest, n), Plus(src, n);
    CopyForwardStep(mid, d, s, 0);
    if k > 0 {
      CopyForwardJoin(m, dest, src, n, k - 1);
      CopyForwardStep(mid, d, s, k - 1);
      CopyForwardStep(m, dest, src, n + k - 1);
      Advance(dest, n, k - 1, n + k);
      Advance(src, n, k - 1, n + k);
    }
  }

  lemma {:induction false} CopyForwardIsCopied(m: Mem, dest: Word, src: Word, w: Word, n: Word)
    requires n <= w <= 4
    ensures CopyForward(m, dest, src, n) == Copied(m, dest, src, false, w, n)
  {
    hide CopyOctet, Plus;
    if n > 0 {
      CopyForwardIsCopied(m, dest, src, w, n - 1);
      CopyForwardStep(m, dest, src, n - 1);
      LastStore(m, dest, src, false, w, n);
    }
  }

  /** Four octet steps are the native copy macro. */
  lemma CopyForwardFour(cpu: Endian, m: Mem, dest: Word, src: Word)
    ensures CopyForward(m, dest, src, 4) == CopyGet32(cpu, cpu, m, dest, src)
  {
    var w: Word := 4;
    CopyForwardIsCopied(m, dest, src, w, w);
    assert CopyGet32(cpu, cpu, m, dest, src) == Copied(m, dest, src, false, w, w);
  }

  lemma DisjointWordMove(cpu: Endian, m: Mem, d: Word, s: Word, x: Word)
    requires 4 <= Minus(d, s) <= ADDR_SPACE - 4
    ensures Set32(cpu, m, d, Get32(cpu, m, s))[x] == CopyGet32(cpu, cpu, m, d, s)[x]
  {
    hide Set32, Get32, CopyGet32;
    var w := Get32(cpu, m, s);
    CopyGet32Octets(cpu, cpu, m, d, s, x);
    if Minus(x, d) < 4 {
      GetAfterSet32(cpu, m, d, w);
      SameWord(cpu, Set32(cpu, m, d, w), d, m, s);
      assert x == Plus(d, Minus(x, d));
    } else {
      Set32Frame(cpu, m, d, w, x);
    }
  }

  lemma AlignedApart(d: Word, s: Word)
    requires d % 4 == s % 4 == 0 && d != s
    ensures 4 <= Minus(d, s) <= ADDR_SPACE - 4
  {
  }

  /** One word moved between aligned addresses is four octet steps: the two
      words are the same word or share no octet. */
  lemma AlignedWordMove(cpu: Endian, m: Mem, d: Word, s: Word)
    requires d % 4 == s % 4 == 0
    ensures Set32(cpu, m, d, Get32(cpu, m, s)) == CopyForward(m, d, s, 4)
  {
    hide Set32, Get32, CopyForward, CopyGet32;
    if d == s {
      SetOfGet32(cpu, m, d);
      CopyOntoItself(m, d, 4);
    } else {
      AlignedApart(d, s);
      CopyForwardFour(cpu, m, d, s);
      forall x: Word
        ensures Set32(cpu, m, d, Get32(cpu, m, s))[x] == CopyGet32(cpu, cpu, m, d, s)[x]
      {
        DisjointWordMove(cpu, m, d, s, x);
      }
    }
  }

  /** One octet step of the copy, `done` octets behind the start of the buffers. */
  method MoveOctet(ram: array<Octet>, pdest: Word, psrc: Word, size: Word, d: Word, s: Word,
                   ghost done: Word, ghost m: Mem)
    requires ram.Length == ADDR_SPACE && done < size && d == Plus(pdest, done) && s == Plus(psrc, done)
    requires ram[..] == CopyForward(m, pdest, psrc, done)
    modifies ram
    ensures ram[..] == CopyForward(m, pdest, psrc, done + 1)
  {
    hide CopyForward, Inside, Plus;
    Advance(pdest, done, 1, size);
    Advance(psrc, done, 1, size);
    CopyForwardStep(m, pdest, psrc, done);
    var v := LoadOctet(ram, s, psrc, size);
    StoreOctet(ram, d, v, pdest, size);
  }

  method MoveWord(cpu: Endian, ram: array<Octet>, pdest: Word, psrc: Word, size: Word, d: Word, s: Word,
                  ghost done: Word, ghost m: Mem)
    requires ram.Length == ADDR_SPACE && done + 4 <= size && d == Plus(pdest, done) && s == Plus(psrc, done)
    requires d % 4 == s % 4 == 0 && ram[..] == CopyForward(m, pdest, psrc, done)
    modifies ram
    ensures ram[..] == CopyForward(m, pdest, psrc, done + 4)
  {
    hide CopyForward, Inside, Plus, Get32, Set32;
    Advance(pdest, done, 4, size);
    Advance(psrc, done, 4, size);
    AlignedWordMove(cpu, ram[..], d, s);
    CopyForwardJoin(m, pdest, psrc, done, 4);
    var w := LoadWord(cpu, ram, s, psrc, size);
    StoreWord(cpu, ram, d, w, pdest, size);
  }

  /** The leading octets and the words of two equally aligned buffers. */
  method CopyAligned(cpu: Endian, ram: array<Octet>, pdest: Word, psrc: Word, size: Word) returns (done: Word)
    requires ram.Length == ADDR_SPACE
    requires pdest % 4 == psrc % 4
    modifies ram
    ensures done <= size
    ensures ram[..] == CopyForward(old(ram[..]), pdest, psrc, done)
  {
    hide CopyForward, Plus;
    Advance(pdest, 0, 0, size);
    Advance(psrc, 0, 0, size);
    CopyForwardStep(ram[..], pdest, psrc, 0);
    var d: Word, s: Word, i: Word := pdest, psrc, pdest % 4;
    done := 0;
    if i != 0 {
      while done < size && i < 4
        invariant done <= size && d == Plus(pdest, done) && s == Plus(psrc, done)
        invariant i <= 4 && d % 4 == s % 4 == if i == 4 then 0 else i
        invariant ram[..] == CopyForward(old(ram[..]), pdest, psrc, done)
      {
        MoveOctet(ram, pdest, psrc, size, d, s, done, old(ram[..]));
        NextOffset(d);
        NextOffset(s);
        Advance(pdest, done, 1, size);
        Advance(psrc, done, 1, size);
        d, s, done, i := Plus(d, 1), Plus(s, 1), done + 1, i + 1;
      }
    }

    while size - done >= 4
      invariant done <= size && d == Plus(pdest, done) && s == Plus(psrc, done)
      invariant done < size ==> d % 4 == s % 4 == 0
      invariant ram[..] == CopyForward(old(ram[..]), pdest, psrc, done)
    {
      MoveWord(cpu, ram, pdest, psrc, size, d, s, done, old(ram[..]));
      SameOffset(d);
      SameOffset(s);
      Advance(pdest, done, 4, size);
      Advance(psrc, done, 4, size);
      d, s, done := Plus(d, 4), Plus(s, 4), done + 4;
    }
  }

  method MemCopy(cpu: Endian, ram: array<Octet>, pdest: Word, psrc: Word, size: Word)
    requires ram.Length == ADDR_SPACE
    modifies ram
    ensures ram[..] == if pdest == NULL || psrc == NULL then old(ram[..])
                       else CopyForward(old(ram[..]), pdest, psrc, size)
  {
    hide CopyForward, Plus;
    CopyForwardStep(ram[..], pdest, psrc, 0);
    Advance(pdest, 0, 0, size);
    Advance(psrc, 0, 0, size);
    if size < 1 || pdest == NULL || psrc == NULL {
      return;
    }
    var done: Word := 0;
    if pdest % 4 == psrc % 4 {
      done := CopyAligned(cpu, ram, pdest, psrc, size);
    }
    var d: Word, s: Word := Plus(pdest, done), Plus(psrc, done);
    while done < size
      invariant done <= size && d == Plus(pdest, done) && s == Plus(psrc, done)
      invariant ram[..] == CopyForward(old(ram[..]), pdest, psrc, done)
    {
      MoveOctet(ram, pdest, psrc, size, d, s, done, old(ram[..]));
      Advance(pdest, done, 1, size);
      Advance(psrc, done, 1, size);
      d, s, done := Plus(d, 1), Plus(s, 1), done + 1;
    }
  }

  /** `k` with the period `gap` taken off as often as possible. */
  function Residue(k: nat, gap: nat): (r: nat)
    requires gap > 0
    ensures r < gap && r == k % gap
  {
    if k < gap then k
    else
      Arith.ModPlusMultiple(k - gap, 1, gap);
      Residue(k - gap, gap)
  }

  lemma ResidueStep(k: nat, gap: nat)
    requires gap > 0
    ensures Residue(k, gap) == if k < gap then k else Residue(k - gap, gap)
  {
  }

  /** Where the last octet of the copy is read: among those written, or in front of them. */
  lemma LastRead(dest: Word, src: Word, k: Word)
    requires dest != src
    ensures Minus(Plus(dest, k), dest) == k && Minus(dest, src) > 0
    ensures var gap, from := Minus(dest, src), Minus(Plus(src, k), dest);
            from == if k < gap then k - gap + ADDR_SPACE else k - gap
  {
  }

  /** What the forward copy leaves behind, for every pair of addresses: each
      destination octet holds an original source octet, and when the destination
      starts `gap` octets into the source the first `gap` octets repeat. */
  lemma {:induction false} CopyForwardRepeats(m: Mem, dest: Word, src: Word, n: nat, x: Word)
    requires n < ADDR_SPACE && dest != src
    ensures CopyForward(m, dest, src, n)[x] ==
            if Minus(x, dest) < n then m[Plus(src, Residue(Minus(x, dest), Minus(dest, src)))] else m[x]
  {
    hide CopyForward;
    if n == 0 {
      CopyForwardStep(m, dest, src, 0);
    } else {
      var k: Word := n - 1;
      CopyForwardStep(m, dest, src, k);
      if x == Plus(dest, k) {
        CopyForwardRepeats(m, dest, src, k, Plus(src, k));
        LastRead(dest, src, k);
        hide Plus, Minus;
        ResidueStep(k, Minus(dest, src));
        hide Residue;
      } else {
        CopyForwardRepeats(m, dest, src, k, x);
        hide Residue;
      }
    }
  }

  lemma {:induction false} CopyOntoItself(m: Mem, p: Word, n: nat)
    requires n <= ADDR_SPACE
    ensures CopyForward(m, p, p, n) == m
  {
    if n > 0 {
      CopyOntoItself(m, p, n - 1);
    }
  }

  /** The destination ends up with the original source octets, in every memory... */
  ghost predicate CopyDelivers(dest: Word, src: Word, n: nat)
    requires n < ADDR_SPACE
  {
    forall m: Mem, k: Word :: k < n ==> CopyForward(m, dest, src, n)[Plus(dest, k)] == m[Plus(src, k)]
  }

  /** ... exactly when it does not start strictly inside the source. */
  lemma CopyDeliversIff(dest: Word, src: Word, n: nat)
    requires n < ADDR_SPACE
    ensures CopyDelivers(dest, src, n) <==> !(0 < Minus(dest, src) < n)
  {
    if 0 < Minus(dest, src) < n {
      OverlapGarbles(dest, src, n);
    } else {
      forall m: Mem, k: Word | k < n
        ensures CopyForward(m, dest, src, n)[Plus(dest, k)] == m[Plus(src, k)]
      {
        CopyDeliversOctet(m, dest, src, n, k);
      }
    }
  }

  lemma CopyDeliversOctet(m: Mem, dest: Word, src: Word, n: nat, k: Word)
    requires k < n < ADDR_SPACE && !(0 < Minus(dest, src) < n)
    ensures CopyForward(m, dest, src, n)[Plus(dest, k)] == m[Plus(src, k)]
  {
    if dest == src {
      CopyOntoItself(m, src, n);
    } else {
      CopyForwardRepeats(m, dest, src, n, Plus(dest, k));
    }
  }

  lemma OverlapGarbles(dest: Word, src: Word, n: nat)
    requires 0 < Minus(dest, src) < n < ADDR_SPACE
    ensures !CopyDelivers(dest, src, n)
  {
    var gap := Minus(dest, src);
    var zero: Mem := seq(0x1_0000_0000, _ => 0);
    var m: Mem := zero[src := 1];
    CopyForwardRepeats(m, dest, src, n, Plus(dest, gap));
    assert Minus(Plus(dest, gap), dest) == gap && Residue(gap, gap) == 0;
    assert CopyForward(m, dest, src, n)[Plus(dest, gap)] != m[Plus(src, gap)];
  }

  // ---------------------------------------------------------------- Mem_Cmp

  /** The octets from offset `from` up to `size` agree. */
  ghost predicate SameOctets(m: Mem, p1: Word, p2: Word, from: nat, size: nat) {
    forall k: Word :: from <= k < size ==> m[Plus(p1, k)] == m[Plus(p2, k)]
  }

  lemma SameNone(m: Mem, p1: Word, p2: Word, size: nat)
    ensures SameOctets(m, p1, p2, size, size)
  {
  }

  lemma SameJoin(m: Mem, p1: Word, p2: Word, from: Word, n: Word, size: Word)
    requires from + n <= size
    ensures SameOctets(m, p1, p2, from, size) <==>
            SameOctets(m, p1, p2, from + n, size) && SameOctets(m, Plus(p1, from), Plus(p2, from), 0, n)
  {
    hide Plus;
    if SameOctets(m, p1, p2, from, size) {
      forall k: Word | 0 <= k < n
        ensures m[Plus(Plus(p1, from), k)] == m[Plus(Plus(p2, from), k)]
      {
        SamePlace(p1, p2, from, k);
        assert m[Plus(p1, from + k)] == m[Plus(p2, from + k)];
      }
    }
    if SameOctets(m, p1, p2, from + n, size) && SameOctets(m, Plus(p1, from), Plus(p2, from), 0, n) {
      forall k: Word | from <= k < size
        ensures m[Plus(p1, k)] == m[Plus(p2, k)]
      {
        if k < from + n {
          SamePlace(p1, p2, from, k - from);
          assert m[Plus(Plus(p1, from), k - from)] == m[Plus(Plus(p2, from), k - from)];
        }
      }
    }
  }

  lemma SamePlace(p1: Word, p2: Word, from: Word, k: Word)
    requires from + k < ADDR_SPACE
    ensures Plus(Plus(p1, from), k) == Plus(p1, from + k) && Plus(Plus(p2, from), k) == Plus(p2, from + k)
  {
  }

  lemma SameOne(m: Mem, p1: Word, p2: Word)
    ensures SameOctets(m, p1, p2, 0, 1) <==> m[p1] == m[p2]
  {
    assert Plus(p1, 0) == p1 && Plus(p2, 0) == p2;
  }

  /** Compares the octet in front of `p1` and `p2` when all behind them agree. */
  method CompareOctet(ram: array<Octet>, p1Mem: Word, p2Mem: Word, size: Word, p1: Word, p2: Word, ghost left: Word)
    returns (same: bool)
    requires ram.Length == ADDR_SPACE && left < size && p1 == Plus(p1Mem, left) && p2 == Plus(p2Mem, left)
    requires SameOctets(ram[..], p1Mem, p2Mem, left + 1, size)
    ensures same <==> SameOctets(ram[..], p1Mem, p2Mem, left, size)
  {
    hide SameOctets, Inside, Plus;
    Advance(p1Mem, left, 1, size);
    Advance(p2Mem, left, 1, size);
    SameJoin(ram[..], p1Mem, p2Mem, left, 1, size);
    SameOne(ram[..], p1, p2);
    var v1 := LoadOctet(ram, p1, p1Mem, size);
    var v2 := LoadOctet(ram, p2, p2Mem, size);
    same := v1 == v2;
  }

  method CompareWord(cpu: Endian, ram: array<Octet>, p1Mem: Word, p2Mem: Word, size: Word, p1: Word, p2: Word,
                     ghost left: Word)
    returns (same: bool)
    requires ram.Length == ADDR_SPACE && left + 4 <= size && p1 == Plus(p1Mem, left) && p2 == Plus(p2Mem, left)
    requires p1 % 4 == p2 % 4 == 0 && SameOctets(ram[..], p1Mem, p2Mem, left + 4, size)
    ensures same <==> SameOctets(ram[..], p1Mem, p2Mem, left, size)
  {
    hide SameOctets, Inside, Plus, Get32;
    Advance(p1Mem, left, 4, size);
    Advance(p2Mem, left, 4, size);
    SameJoin(ram[..], p1Mem, p2Mem, left, 4, size);
    SameFour(cpu, ram[..], p1, p2);
    var w1 := LoadWord(cpu, ram, p1, p1Mem, size);
    var w2 := LoadWord(cpu, ram, p2, p2Mem, size);
    same := w1 == w2;
  }

  lemma SameFour(cpu: Endian, m: Mem, p1: Word, p2: Word)
    ensures Get32(cpu, m, p1) == Get32(cpu, m, p2) <==> SameOctets(m, p1, p2, 0, 4)
  {
    hide Get32, Plus;
    SameWord(cpu, m, p1, m, p2);
  }

  /** The trailing octets and the words of two buffers whose ends are equally aligned. */
  method CompareAligned(cpu: Endian, ram: array<Octet>, p1Mem: Word, p2Mem: Word, size: Word)
    returns (same: bool, sizeRem: Word)
    requires ram.Length == ADDR_SPACE
    requires Plus(p1Mem, size) % 4 == Plus(p2Mem, size) % 4
    ensures sizeRem <= size
    ensures same <==> SameOctets(ram[..], p1Mem, p2Mem, sizeRem, size)
  {
    hide SameOctets, Plus, Minus;
    SameNone(ram[..], p1Mem, p2Mem, size);
    same, sizeRem := true, size;
    var p1: Word, p2: Word := Plus(p1Mem, size), Plus(p2Mem, size);
    var i: Word := p1 % 4;
    if i != 0 {
      while same && sizeRem > 0 && i > 0
        invariant sizeRem <= size && p1 == Plus(p1Mem, sizeRem) && p2 == Plus(p2Mem, sizeRem)
        invariant i < 4 && i == p1 % 4 == p2 % 4
        invariant same <==> SameOctets(ram[..], p1Mem, p2Mem, sizeRem, size)
      {
        NextOffset(p1);
        NextOffset(p2);
        Advance(p1Mem, sizeRem - 1, 1, size);
        Advance(p2Mem, sizeRem - 1, 1, size);
        p1, p2 := Minus(p1, 1), Minus(p2, 1);
        same := CompareOctet(ram, p1Mem, p2Mem, size, p1, p2, sizeRem - 1);
        sizeRem, i := sizeRem - 1, i - 1;
      }
    }

    while same && sizeRem >= 4
      invariant sizeRem <= size && p1 == Plus(p1Mem, sizeRem) && p2 == Plus(p2Mem, sizeRem)
      invariant same && sizeRem > 0 ==> p1 % 4 == p2 % 4 == 0
      invariant same <==> SameOctets(ram[..], p1Mem, p2Mem, sizeRem, size)
    {
      SameOffset(p1);
      SameOffset(p2);
      Advance(p1Mem, sizeRem - 4, 4, size);
      Advance(p2Mem, sizeRem - 4, 4, size);
      p1, p2 := Minus(p1, 4), Minus(p2, 4);
      same := CompareWord(cpu, ram, p1Mem, p2Mem, size, p1, p2, sizeRem - 4);
      sizeRem := sizeRem - 4;
    }
  }

  method MemCmp(cpu: Endian, ram: array<Octet>, p1Mem: Word, p2Mem: Word, size: Word) returns (same: bool)
    requires ram.Length == ADDR_SPACE
    ensures same <==> size == 0 || (p1Mem != NULL && p2Mem != NULL && SameOctets(ram[..], p1Mem, p2Mem, 0, size))
  {
    hide SameOctets, Plus, Minus;
    if size < 1 {
      return true;
    }
    if p1Mem == NULL || p2Mem == NULL {
      return false;
    }
    SameNone(ram[..], p1Mem, p2Mem, size);
    same := true;
    var sizeRem: Word := size;
    if Plus(p1Mem, size) % 4 == Plus(p2Mem, size) % 4 {
      same, sizeRem := CompareAligned(cpu, ram, p1Mem, p2Mem, size);
    }
    var p1: Word, p2: Word := Plus(p1Mem, sizeRem), Plus(p2Mem, sizeRem);
    while same && sizeRem > 0
      invariant sizeRem <= size && (same ==> p1 == Plus(p1Mem, sizeRem) && p2 == Plus(p2Mem, sizeRem))
      invariant same <==> SameOctets(ram[..], p1Mem, p2Mem, sizeRem, size)
    {
      Advance(p1Mem, sizeRem - 1, 1, size);
      Advance(p2Mem, sizeRem - 1, 1, size);
      p1, p2 := Minus(p1, 1), Minus(p2, 1);
      same := CompareOctet(ram, p1Mem, p2Mem, size, p1, p2, sizeRem - 1);
      sizeRem := sizeRem - 1;
    }
    SameJoin(ram[..], p1Mem, p2Mem, 0, sizeRem, size);
  }
}
