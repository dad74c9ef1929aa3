/** The data-value macros of lib_mem.h: decode, encode and copy 16- and 32-bit
    values at any address, in big- or little-endian order. `native` is the CPU's
    own order (CPU_CFG_ENDIAN_TYPE), `order` the one named by the macro. */
module MemVal {
  import opened Machine

  type Half = h: int | 0 <= h < 0x1_0000

  function CombineHalf(low: Octet, high: Octet): Half {
    low + 0x100 * high
  }

  function Get16(order: Endian, m: Mem, a: Word): Half {
    match order
    case Little => CombineHalf(m[a], m[Plus(a, 1)])
    case Big => CombineHalf(m[Plus(a, 1)], m[a])
  }

  function Set16(order: Endian, m: Mem, a: Word, v: Half): Mem {
    match order
    case Little => m[a := v % 0x100][Plus(a, 1) := v / 0x100]
    case Big => m[a := v / 0x100][Plus(a, 1) := v % 0x100]
  }

  function CopyOctet(m: Mem, dest: Word, src: Word): Mem {
    m[dest := m[src]]
  }

  /** Octets change places when the value's order is not the CPU's. */
  predicate Swaps(native: Endian, order: Endian) {
    native != order
  }

  /** The octet of a `w`-octet source that octet `k` of the destination must receive. */
  function SourceOf(swap: bool, w: Word, k: Word): (from: Word)
    requires k < w
    ensures from < w
  {
    if swap then w - 1 - k else k
  }

  /** Memory after the first `n` stores of a copy of `w` octets, lowest destination
      first. A later octet may read an earlier store. */
  function Copied(m: Mem, dest: Word, src: Word, swap: bool, w: Word, n: Word): Mem
    requires n <= w <= 4
  {
    if n == 0 then m
    else CopyOctet(Copied(m, dest, src, swap, w, n - 1), Plus(dest, n - 1), Plus(src, SourceOf(swap, w, n - 1)))
  }

  function CopyGet16(native: Endian, order: Endian, m: Mem, dest: Word, src: Word): Mem {
    Copied(m, dest, src, Swaps(native, order), 2, 2)
  }

  function CopyGet32(native: Endian, order: Endian, m: Mem, dest: Word, src: Word): Mem {
    Copied(m, dest, src, Swaps(native, order), 4, 4)
  }

  /** Octet `k` of the copy in `c` is its octet of the source in `m`; only where that lies
      among the octets of the copy stored before has it changed by then. */
  predicate Received(c: Mem, m: Mem, dest: Word, src: Word, swap: bool, w: Word, k: Word)
    requires k < w
  {
    var x := Plus(src, SourceOf(swap, w, k));
    c[Plus(dest, k)] == if Minus(x, dest) < k then c[x] else m[x]
  }

  lemma SetEffect32(order: Endian, m: Mem, a: Word, v: Word)
    ensures Get32(order, Set32(order, m, a, v), a) == v
    ensures forall x: Word :: Minus(x, a) >= 4 ==> Set32(order, m, a, v)[x] == m[x]
  {
    GetAfterSet32(order, m, a, v);
    forall x: Word | Minus(x, a) >= 4
      ensures Set32(order, m, a, v)[x] == m[x]
    {
      Set32Frame(order, m, a, v, x);
    }
  }

  /** What each octet of the copy is, after `n` stores and so after the last. */
  lemma {:induction false} CopiedOctets(m: Mem, dest: Word, src: Word, swap: bool, w: Word, n: Word)
    requires n <= w <= 4
    ensures var c := Copied(m, dest, src, swap, w, n);
            && (forall k: Word :: k < n ==> Received(c, m, dest, src, swap, w, k))
            && (forall x: Word :: Minus(x, dest) >= n ==> c[x] == m[x])
  {
    if n > 0 {
      hide Received, CopyOctet, SourceOf, Plus, Minus, Copied;
      LastStore(m, dest, src, swap, w, n);
      CopiedOctets(m, dest, src, swap, w, n - 1);
      OneMoreStore(Copied(m, dest, src, swap, w, n - 1), m, dest, src, swap, w, n - 1);
    }
  }

  lemma LastStore(m: Mem, dest: Word, src: Word, swap: bool, w: Word, n: Word)
    requires 0 < n <= w <= 4
    ensures Copied(m, dest, src, swap, w, n) ==
            CopyOctet(Copied(m, dest, src, swap, w, n - 1), Plus(dest, n - 1), Plus(src, SourceOf(swap, w, n - 1)))
  {
  }

  lemma OneMoreStore(before: Mem, m: Mem, dest: Word, src: Word, swap: bool, w: Word, n: Word)
    requires n < w <= 4
    requires forall k: Word :: k < n ==> Received(before, m, dest, src, swap, w, k)
    requires forall x: Word :: Minus(x, dest) >= n ==> before[x] == m[x]
    ensures var c := CopyOctet(before, Plus(dest, n), Plus(src, SourceOf(swap, w, n)));
            && (forall k: Word :: k < n + 1 ==> Received(c, m, dest, src, swap, w, k))
            && (forall x: Word :: Minus(x, dest) >= n + 1 ==> c[x] == m[x])
  {
    hide SourceOf;
    forall k: Word | k < n + 1
      ensures Received(CopyOctet(before, Plus(dest, n), Plus(src, SourceOf(swap, w, n))), m, dest, src, swap, w, k)
    {
      if k < n {
        assert Received(before, m, dest, src, swap, w, k);
      }
    }
  }

  lemma CopyGet32Octetwise(native: Endian, order: Endian, m: Mem, dest: Word, src: Word)
    ensures var c := CopyGet32(native, order, m, dest, src);
            && (forall k: Word :: k < 4 ==> Received(c, m, dest, src, Swaps(native, order), 4, k))
            && (forall x: Word :: Minus(x, dest) >= 4 ==> c[x] == m[x])
  {
    hide Received;
    var w: Word := 4;
    assert CopyGet32(native, order, m, dest, src) == Copied(m, dest, src, Swaps(native, order), w, w);
    hide CopyGet32, Copied;
    CopiedOctets(m, dest, src, Swaps(native, order), w, w);
  }

  lemma CopyGet16Octetwise(native: Endian, order: Endian, m: Mem, dest: Word, src: Word)
    ensures var c := CopyGet16(native, order, m, dest, src);
            && (forall k: Word :: k < 2 ==> Received(c, m, dest, src, Swaps(native, order), 2, k))
            && (forall x: Word :: Minus(x, dest) >= 2 ==> c[x] == m[x])
  {
    hide Received;
    var w: Word := 2;
    assert CopyGet16(native, order, m, dest, src) == Copied(m, dest, src, Swaps(native, order), w, w);
    hide CopyGet16, Copied;
    CopiedOctets(m, dest, src, Swaps(native, order), w, w);
  }

  /** The four stores one by one. */
  lemma FourStores(m: Mem, dest: Word, src: Word, swap: bool)
    ensures var c1 := CopyOctet(m, dest, if swap then Plus(src, 3) else src);
            var c2 := CopyOctet(c1, Plus(dest, 1), Plus(src, if swap then 2 else 1));
            var c3 := CopyOctet(c2, Plus(dest, 2), Plus(src, if swap then 1 else 2));
            Copied(m, dest, src, swap, 4, 4) == CopyOctet(c3, Plus(dest, 3), if swap then src else Plus(src, 3))
  {
    assert Plus(dest, 0) == dest && Plus(src, 0) == src;
    var w: Word, one: Word, two: Word := 4, 1, 2;
    assert Copied(m, dest, src, swap, w, 0) == m;
    assert Copied(m, dest, src, swap, w, one) == CopyOctet(m, dest, if swap then Plus(src, 3) else src);
    assert Copied(m, dest, src, swap, w, two)
        == CopyOctet(Copied(m, dest, src, swap, w, one), Plus(dest, 1), Plus(src, if swap then 2 else 1));
    assert Copied(m, dest, src, swap, w, 3)
        == CopyOctet(Copied(m, dest, src, swap, w, two), Plus(dest, 2), Plus(src, if swap then 1 else 2));
  }

  lemma TwoStores(m: Mem, dest: Word, src: Word, swap: bool)
    ensures Copied(m, dest, src, swap, 2, 2)
            == CopyOctet(CopyOctet(m, dest, if swap then Plus(src, 1) else src), Plus(dest, 1),
                         if swap then src else Plus(src, 1))
  {
    assert Plus(dest, 0) == dest && Plus(src, 0) == src;
    var w: Word, one: Word := 2, 1;
    assert Copied(m, dest, src, swap, w, 0) == m;
    assert Copied(m, dest, src, swap, w, one) == CopyOctet(m, dest, if swap then Plus(src, 1) else src);
  }

  method ValSet16(order: Endian, ram: array<Octet>, a: Word, v: Half)
    requires ram.Length == ADDR_SPACE
    modifies ram
    ensures ram[..] == Set16(order, old(ram[..]), a, v)
    ensures Get16(order, ram[..], a) == v
    ensures forall k: Word :: k < 2 ==> ram[Plus(a, k)] == v / Power256(if order.Little? then k else 1 - k) % 0x100
    ensures forall x: Word :: Minus(x, a) >= 2 ==> ram[x] == old(ram[x])
  {
    Codec16(order, ram[..], a, v);
    StoredOctets16(ram[..], a, v);
    match order
    case Little =>
      ram[a] := v % 0x100;
      ram[Plus(a, 1)] := v / 0x100;
    case Big =>
      ram[a] := v / 0x100;
      ram[Plus(a, 1)] := v % 0x100;
  }

  method ValSet32(order: Endian, ram: array<Octet>, a: Word, v: Word)
    requires ram.Length == ADDR_SPACE
    modifies ram
    ensures ram[..] == Set32(order, old(ram[..]), a, v)
    ensures Get32(order, ram[..], a) == v
    ensures forall k: Word :: k < 4 ==> ram[Plus(a, k)] == v / Power256(if order.Little? then k else 3 - k) % 0x100
    ensures forall x: Word :: Minus(x, a) >= 4 ==> ram[x] == old(ram[x])
  {
    hide Get32, Power256;
    SetEffect32(order, ram[..], a, v);
    forall k: Word | k < 4
      ensures Set32(order, ram[..], a, v)[Plus(a, k)] == v / Power256(if order.Little? then k else 3 - k) % 0x100
    {
      StoredOctets32(ram[..], a, v, k);
    }
    match order
    case Little =>
      ram[a] := OctetOf(v, 0);
      ram[Plus(a, 1)] := OctetOf(v, 1);
      ram[Plus(a, 2)] := OctetOf(v, 2);
      ram[Plus(a, 3)] := OctetOf(v, 3);
    case Big =>
      ram[a] := OctetOf(v, 3);
      ram[Plus(a, 1)] := OctetOf(v, 2);
      ram[Plus(a, 2)] := OctetOf(v, 1);
      ram[Plus(a, 3)] := OctetOf(v, 0);
  }

  method ValCopyGet16(native: Endian, order: Endian, ram: array<Octet>, dest: Word, src: Word)
    requires ram.Length == ADDR_SPACE
    modifies ram
    ensures ram[..] == CopyGet16(native, order, old(ram[..]), dest, src)
    ensures forall k: Word :: k < 2 ==> Received(ram[..], old(ram[..]), dest, src, Swaps(native, order), 2, k)
    ensures forall x: Word :: Minus(x, dest) >= 2 ==> ram[x] == old(ram[x])
    ensures CopySafe16(native, order, dest, src) ==> Get16(native, ram[..], dest) == Get16(order, old(ram[..]), src)
  {
    hide Get16, Received, Copied;
    TwoStores(ram[..], dest, src, Swaps(native, order));
    CopyGet16Octetwise(native, order, ram[..], dest, src);
    if CopySafe16(native, order, dest, src) {
      CopyDecodesWhenSafe16(native, order, ram[..], dest, src);
    }
    if native == order {
      ram[dest] := ram[src];
      ram[Plus(dest, 1)] := ram[Plus(src, 1)];
    } else {
      ram[dest] := ram[Plus(src, 1)];
      ram[Plus(dest, 1)] := ram[src];
    }
  }

  method ValCopyGet32(native: Endian, order: Endian, ram: array<Octet>, dest: Word, src: Word)
    requires ram.Length == ADDR_SPACE
    modifies ram
    ensures ram[..] == CopyGet32(native, order, old(ram[..]), dest, src)
    ensures forall k: Word :: k < 4 ==> Received(ram[..], old(ram[..]), dest, src, Swaps(native, order), 4, k)
    ensures forall x: Word :: Minus(x, dest) >= 4 ==> ram[x] == old(ram[x])
    ensures CopySafe32(native, order, dest, src) ==> Get32(native, ram[..], dest) == Get32(order, old(ram[..]), src)
  {
    hide Get32, Received, Copied;
    FourStores(ram[..], dest, src, Swaps(native, order));
    CopyGet32Octetwise(native, order, ram[..], dest, src);
    if CopySafe32(native, order, dest, src) {
      CopyDecodesWhenSafe32(native, order, ram[..], dest, src);
    }
    if native == order {
      ram[dest] := ram[src];
      ram[Plus(dest, 1)] := ram[Plus(src, 1)];
      ram[Plus(dest, 2)] := ram[Plus(src, 2)];
      ram[Plus(dest, 3)] := ram[Plus(src, 3)];
    } else {
      ram[dest] := ram[Plus(src, 3)];
      ram[Plus(dest, 1)] := ram[Plus(src, 2)];
      ram[Plus(dest, 2)] := ram[Plus(src, 1)];
      ram[Plus(dest, 3)] := ram[src];
    }
  }

  lemma Codec16(order: Endian, m: Mem, a: Word, v: Half)
    ensures Get16(order, Set16(order, m, a, v), a) == v
    ensures Set16(order, m, a, Get16(order, m, a)) == m
  {
    assert v == v % 0x100 + 0x100 * (v / 0x100);
  }

  /** The octet at the lower address weighs less in little-endian order and more in big-endian order. */
  lemma Weights16(m: Mem, a: Word, k: Word)
    requires k < 2
    ensures Get16(Little, m, a) / Power256(k) % 0x100 == m[Plus(a, k)]
    ensures Get16(Big, m, a) / Power256(1 - k) % 0x100 == m[Plus(a, k)]
  {
    hide Power256, CombineHalf;
    HalfOctets(m[a], m[Plus(a, 1)]);
    HalfOctets(m[Plus(a, 1)], m[a]);
    assert Plus(a, 0) == a;
  }

  lemma HalfOctets(low: Octet, high: Octet)
    ensures var h := CombineHalf(low, high);
            h / Power256(0) % 0x100 == low && h / Power256(1) % 0x100 == high
  {
    Powers();
    hide Power256;
    assert CombineHalf(low, high) / 0x100 == high;
  }

  /** The same of the octets that the store leaves. */
  lemma StoredOctets16(m: Mem, a: Word, v: Half)
    ensures forall k: Word :: k < 2 ==> Set16(Little, m, a, v)[Plus(a, k)] == v / Power256(k) % 0x100
    ensures forall k: Word :: k < 2 ==> Set16(Big, m, a, v)[Plus(a, k)] == v / Power256(1 - k) % 0x100
  {
    hide Get16, Set16, Power256;
    Codec16(Little, m, a, v);
    Codec16(Big, m, a, v);
    forall k: Word | k < 2
      ensures Set16(Little, m, a, v)[Plus(a, k)] == v / Power256(k) % 0x100
      ensures Set16(Big, m, a, v)[Plus(a, k)] == v / Power256(1 - k) % 0x100
    {
      Weights16(Set16(Little, m, a, v), a, k);
      Weights16(Set16(Big, m, a, v), a, k);
    }
  }

  /** Big-endian halves are ordered as their octets are, from the lower address up,
      little-endian ones from the higher address down. */
  lemma HalfOrder(m: Mem, a: Word, n: Mem, b: Word)
    ensures Get16(Big, m, a) < Get16(Big, n, b) <==> FirstBelow(m, a, n, b, 2)
    ensures Get16(Little, m, a) < Get16(Little, n, b) <==> LastBelow(m, a, n, b, 2)
  {
    assert Plus(a, 0) == a && Plus(b, 0) == b;
    hide Plus;
  }

  /** Where the copied value can be relied on: the macros read the source while
      they write the destination, so an overlap may feed a fresh octet back in. */
  predicate CopySafe32(native: Endian, order: Endian, dest: Word, src: Word) {
    if native == order then !(1 <= Minus(dest, src) <= 3)
    else 3 <= Minus(dest, src) <= ADDR_SPACE - 3
  }

  predicate CopySafe16(native: Endian, order: Endian, dest: Word, src: Word) {
    if native == order then Minus(dest, src) != 1 else Minus(dest, src) != 0
  }

  ghost predicate CopyDecodes32(native: Endian, order: Endian, dest: Word, src: Word) {
    forall m: Mem :: Get32(native, CopyGet32(native, order, m, dest, src), dest) == Get32(order, m, src)
  }

  ghost predicate CopyDecodes16(native: Endian, order: Endian, dest: Word, src: Word) {
    forall m: Mem :: Get16(native, CopyGet16(native, order, m, dest, src), dest) == Get16(order, m, src)
  }

  lemma SameValue(native: Endian, order: Endian, c: Mem, dest: Word, m: Mem, src: Word)
    ensures Get32(native, c, dest) == Get32(order, m, src) <==>
            (forall k: Word :: k < 4 ==> c[Plus(dest, k)] == m[Plus(src, SourceOf(Swaps(native, order), 4, k))])
  {
    if native == order {
      SameWord(order, c, dest, m, src);
      hide Get32;
    } else {
      OctetsOfCombine(c[dest], c[Plus(dest, 1)], c[Plus(dest, 2)], c[Plus(dest, 3)]);
      OctetsOfCombine(c[Plus(dest, 3)], c[Plus(dest, 2)], c[Plus(dest, 1)], c[dest]);
      OctetsOfCombine(m[src], m[Plus(src, 1)], m[Plus(src, 2)], m[Plus(src, 3)]);
      OctetsOfCombine(m[Plus(src, 3)], m[Plus(src, 2)], m[Plus(src, 1)], m[src]);
      assert Plus(dest, 0) == dest && Plus(src, 0) == src;
    }
  }

  /** At a safe distance no octet of the source is overwritten before it is read. */
  lemma NotYetStored(native: Endian, order: Endian, dest: Word, src: Word, k: Word)
    requires CopySafe32(native, order, dest, src) && k < 4
    ensures Minus(Plus(src, SourceOf(Swaps(native, order), 4, k)), dest) >= k
  {
  }

  lemma CopyDecodesWhenSafe32(native: Endian, order: Endian, m: Mem, dest: Word, src: Word)
    requires CopySafe32(native, order, dest, src)
    ensures Get32(native, CopyGet32(native, order, m, dest, src), dest) == Get32(order, m, src)
  {
    hide Get32, CopyGet32, SourceOf, CopySafe32;
    var c := CopyGet32(native, order, m, dest, src);
    CopyGet32Octetwise(native, order, m, dest, src);
    SameValue(native, order, c, dest, m, src);
    forall k: Word | k < 4
      ensures c[Plus(dest, k)] == m[Plus(src, SourceOf(Swaps(native, order), 4, k))]
    {
      assert Received(c, m, dest, src, Swaps(native, order), 4, k);
      NotYetStored(native, order, dest, src, k);
    }
  }

  lemma CopyDecodesWhenSafe16(native: Endian, order: Endian, m: Mem, dest: Word, src: Word)
    requires CopySafe16(native, order, dest, src)
    ensures Get16(native, CopyGet16(native, order, m, dest, src), dest) == Get16(order, m, src)
  {
    TwoStores(m, dest, src, Swaps(native, order));
  }

  /** Octet `k` of the copy that an unsafe overlap spoils. */
  function SpoiltOctet(native: Endian, order: Endian, dest: Word, src: Word): (k: Word)
    ensures k < 4
  {
    var gap := Minus(dest, src);
    if native == order then gap % 4
    else if gap <= 1 then 3 - gap
    else if gap == 2 then 1
    else 3
  }

  /** A memory on which an unsafe overlap decodes the wrong value: one octet set, the rest zero. */
  lemma CopyGarblesWhenUnsafe32(native: Endian, order: Endian, dest: Word, src: Word) returns (m: Mem)
    requires !CopySafe32(native, order, dest, src)
    ensures Get32(native, CopyGet32(native, order, m, dest, src), dest) != Get32(order, m, src)
  {
    hide Get32, CopyGet32;
    var zero: Mem := seq(0x1_0000_0000, _ => 0);
    var one: Word := if native == order || Minus(dest, src) > 2 then 0 else 3;
    m := zero[Plus(src, one) := 1];
    OverlapSpoils(native, order, m, dest, src, one);
    SameValue(native, order, CopyGet32(native, order, m, dest, src), dest, m, src);
  }

  /** The spoilt octet takes its value from one that is stored already, and that one had
      the other value. */
  lemma OverlapSpoils(native: Endian, order: Endian, m: Mem, dest: Word, src: Word, one: Word)
    requires !CopySafe32(native, order, dest, src)
    requires one == if native == order || Minus(dest, src) > 2 then 0 else 3
    requires forall k: Word :: k < 4 ==> m[Plus(src, k)] == if k == one then 1 else 0
    ensures var k := SpoiltOctet(native, order, dest, src);
            CopyGet32(native, order, m, dest, src)[Plus(dest, k)] != m[Plus(src, SourceOf(Swaps(native, order), 4, k))]
  {
    hide CopyGet32, SourceOf, SpoiltOctet, CopySafe32, Received;
    var swap, c, gap := Swaps(native, order), CopyGet32(native, order, m, dest, src), Minus(dest, src);
    CopyGet32Octetwise(native, order, m, dest, src);
    var k := SpoiltOctet(native, order, dest, src);
    var i: Word := if swap && gap > 2 then ADDR_SPACE - gap else 0;
    Overlap(native, order, dest, src, k, i, one);
    TakesStored(c, m, dest, src, swap, k, i);
    assert m[Plus(src, SourceOf(swap, 4, k))] != m[Plus(src, SourceOf(swap, 4, i))];
  }

  /** Octet `k` is read where octet `i` has been stored, which was read where nothing was. */
  lemma Overlap(native: Endian, order: Endian, dest: Word, src: Word, k: Word, i: Word, one: Word)
    requires !CopySafe32(native, order, dest, src) && k == SpoiltOctet(native, order, dest, src)
    requires i == if Swaps(native, order) && Minus(dest, src) > 2 then ADDR_SPACE - Minus(dest, src) else 0
    requires one == if native == order || Minus(dest, src) > 2 then 0 else 3
    ensures i < k < 4
    ensures var of := SourceOf(Swaps(native, order), 4, k);
            && Plus(src, of) == Plus(dest, i)
            && Minus(Plus(src, SourceOf(Swaps(native, order), 4, i)), dest) >= i
            && (of == one <==> SourceOf(Swaps(native, order), 4, i) != one)
  {
  }

  lemma TakesStored(c: Mem, m: Mem, dest: Word, src: Word, swap: bool, k: Word, i: Word)
    requires i < k < 4 && Plus(src, SourceOf(swap, 4, k)) == Plus(dest, i)
    requires Minus(Plus(src, SourceOf(swap, 4, i)), dest) >= i
    requires Received(c, m, dest, src, swap, 4, k) && Received(c, m, dest, src, swap, 4, i)
    ensures c[Plus(dest, k)] == m[Plus(src, SourceOf(swap, 4, i))]
  {
    hide SourceOf;
  }

  /** The copy macros promise to work "from any address to any address"; they do
      for every memory exactly when the two addresses are safe. */
  lemma CopyDecodesIffSafe32(native: Endian, order: Endian, dest: Word, src: Word)
    ensures CopyDecodes32(native, order, dest, src) <==> CopySafe32(native, order, dest, src)
  {
    if CopySafe32(native, order, dest, src) {
      forall m: Mem
        ensures Get32(native, CopyGet32(native, order, m, dest, src), dest) == Get32(order, m, src)
      {
        CopyDecodesWhenSafe32(native, order, m, dest, src);
      }
    } else {
      var m := CopyGarblesWhenUnsafe32(native, order, dest, src);
    }
  }

  lemma CopyDecodesIffSafe16(native: Endian, order: Endian, dest: Word, src: Word)
    ensures CopyDecodes16(native, order, dest, src) <==> CopySafe16(native, order, dest, src)
  {
    hide CopyGet16;
    if CopySafe16(native, order, dest, src) {
      forall m: Mem
        ensures Get16(native, CopyGet16(native, order, m, dest, src), dest) == Get16(order, m, src)
      {
        CopyDecodesWhenSafe16(native, order, m, dest, src);
      }
    } else {
      var m := CopyGarblesWhenUnsafe16(native, order, dest, src);
    }
  }

  lemma CopyGarblesWhenUnsafe16(native: Endian, order: Endian, dest: Word, src: Word) returns (m: Mem)
    requires !CopySafe16(native, order, dest, src)
    ensures Get16(native, CopyGet16(native, order, m, dest, src), dest) != Get16(order, m, src)
  {
    hide Copied;
    var zero: Mem := seq(0x1_0000_0000, _ => 0);
    m := zero[src := 1];
    TwoStores(m, dest, src, Swaps(native, order));
  }

  /** For words that share no octet the copy moves each octet to its place and nothing else. */
  lemma CopyGet32Octets(native: Endian, order: Endian, m: Mem, dest: Word, src: Word, x: Word)
    requires 4 <= Minus(dest, src) <= ADDR_SPACE - 4
    ensures CopyGet32(native, order, m, dest, src)[x] ==
            if Minus(x, dest) < 4 then m[Plus(src, SourceOf(Swaps(native, order), 4, Minus(x, dest)))] else m[x]
  {
    hide CopyGet32, SourceOf;
    CopyGet32Octetwise(native, order, m, dest, src);
    var k := Minus(x, dest);
    if k < 4 {
      assert x == Plus(dest, k);
      assert Received(CopyGet32(native, order, m, dest, src), m, dest, src, Swaps(native, order), 4, k);
      NotYetStored(native, order, dest, src, k);
    }
  }

  /** Copying a decoded value back restores every octet of the place it came from,
      whatever was written there in between. COPY_SET is the COPY_GET macro again. */
  lemma CopySetUndoesCopyGet32(native: Endian, order: Endian, m: Mem, variable: Word, field: Word, junk: Word, x: Word)
    requires 4 <= Minus(variable, field) <= ADDR_SPACE - 4
    requires Minus(x, variable) >= 4
    ensures var got := CopyGet32(native, order, m, variable, field);
            var spoilt := Set32(native, got, field, junk);
            CopyGet32(native, order, spoilt, field, variable)[x] == m[x]
  {
    var got := CopyGet32(native, order, m, variable, field);
    var spoilt := Set32(native, got, field, junk);
    CopyGet32Octets(native, order, spoilt, field, variable, x);
    var k := Minus(x, field);
    if k < 4 {
      var y := Plus(variable, SourceOf(Swaps(native, order), 4, k));
      Set32Frame(native, got, field, junk, y);
      CopyGet32Octets(native, order, m, variable, field, y);
      assert x == Plus(field, k);
    } else {
      Set32Frame(native, got, field, junk, x);
      CopyGet32Octets(native, order, m, variable, field, x);
    }
  }

  lemma CopySetUndoesCopyGet16(native: Endian, order: Endian, m: Mem, variable: Word, field: Word, junk: Half, x: Word)
    requires 2 <= Minus(variable, field) <= ADDR_SPACE - 2
    requires Minus(x, variable) >= 2
    ensures var got := CopyGet16(native, order, m, variable, field);
            var spoilt := Set16(native, got, field, junk);
            CopyGet16(native, order, spoilt, field, variable)[x] == m[x]
  {
    hide Copied;
    var got := CopyGet16(native, order, m, variable, field);
    TwoStores(m, variable, field, Swaps(native, order));
    TwoStores(Set16(native, got, field, junk), field, variable, Swaps(native, order));
  }
}
