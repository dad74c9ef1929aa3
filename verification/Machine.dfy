/** The machine that uC/LIB runs on: 32-bit words that wrap around, and one
    octet-addressed memory of 2^32 octets whose address 0 is the NULL pointer. */
module Machine {

  const ADDR_SPACE: int := 0x1_0000_0000

  type Octet = b: int | 0 <= b < 0x100

  /** CPU_ADDR, CPU_SIZE_T and CPU_ALIGN are all 32 bits wide. */
  type Word = w: int | 0 <= w < 0x1_0000_0000

  const NULL: Word := 0

  type Mem = m: seq<Octet> | |m| == 0x1_0000_0000 ghost witness seq(0x1_0000_0000, _ => 0)

  datatype Endian = Big | Little

  /** The value an unsigned 32-bit operation stores for the exact result `n`. */
  function Wrap(n: int): Word {
    n % 0x1_0000_0000
  }

  /** Pointer `p` advanced by `n` octets; the octet after the last one is at NULL. */
  function Plus(p: Word, n: Word): Word {
    if p + n < 0x1_0000_0000 then p + n else p + n - 0x1_0000_0000
  }

  /** The unsigned distance from `q` up to `p`. */
  function Minus(p: Word, q: Word): Word {
    if p >= q then p - q else p - q + 0x1_0000_0000
  }

  function Combine(low: Octet, b1: Octet, b2: Octet, high: Octet): Word {
    low + 0x100 * b1 + 0x1_0000 * b2 + 0x100_0000 * high
  }

  /** The octet of `w` that has weight 256^k. */
  function OctetOf(w: Word, k: nat): Octet
    requires k < 4
  {
    if k == 0 then w % 0x100
    else if k == 1 then w / 0x100 % 0x100
    else if k == 2 then w / 0x1_0000 % 0x100
    else w / 0x100_0000
  }

  function Get32(order: Endian, m: Mem, a: Word): Word {
    match order
    case Little => Combine(m[a], m[Plus(a, 1)], m[Plus(a, 2)], m[Plus(a, 3)])
    case Big => Combine(m[Plus(a, 3)], m[Plus(a, 2)], m[Plus(a, 1)], m[a])
  }

  function Set32(order: Endian, m: Mem, a: Word, v: Word): Mem {
    match order
    case Little =>
      m[a := OctetOf(v, 0)][Plus(a, 1) := OctetOf(v, 1)][Plus(a, 2) := OctetOf(v, 2)][Plus(a, 3) := OctetOf(v, 3)]
    case Big =>
      m[a := OctetOf(v, 3)][Plus(a, 1) := OctetOf(v, 2)][Plus(a, 2) := OctetOf(v, 1)][Plus(a, 3) := OctetOf(v, 0)]
  }

  lemma WrapSmall(x: int)
    requires 0 <= x < ADDR_SPACE
    ensures Wrap(x) == x
  {
  }

  lemma WrapPast(x: int)
    requires ADDR_SPACE <= x < 2 * ADDR_SPACE
    ensures Wrap(x) == x - ADDR_SPACE
  {
  }

  lemma CombineOctets(w: Word)
    ensures Combine(OctetOf(w, 0), OctetOf(w, 1), OctetOf(w, 2), OctetOf(w, 3)) == w
  {
    assert w / 0x1_0000 == w / 0x100 / 0x100;
    assert w / 0x100_0000 == w / 0x100 / 0x100 / 0x100;
  }

  lemma OctetsOfCombine(b0: Octet, b1: Octet, b2: Octet, b3: Octet)
    ensures var w := Combine(b0, b1, b2, b3);
            OctetOf(w, 0) == b0 && OctetOf(w, 1) == b1 && OctetOf(w, 2) == b2 && OctetOf(w, 3) == b3
  {
    var w := Combine(b0, b1, b2, b3);
    assert w / 0x100 == b1 + 0x100 * b2 + 0x1_0000 * b3;
    assert w / 0x1_0000 == b2 + 0x100 * b3;
  }

  /** Decoding what was encoded gives the value back, at every address and in either order. */
  lemma GetAfterSet32(order: Endian, m: Mem, a: Word, v: Word)
    ensures Get32(order, Set32(order, m, a, v), a) == v
  {
    CombineOctets(v);
  }

  /** Encoding the decoded value changes no octet. */
  lemma SetOfGet32(order: Endian, m: Mem, a: Word)
    ensures Set32(order, m, a, Get32(order, m, a)) == m
  {
    match order
    case Little => OctetsOfCombine(m[a], m[Plus(a, 1)], m[Plus(a, 2)], m[Plus(a, 3)]);
    case Big => OctetsOfCombine(m[Plus(a, 3)], m[Plus(a, 2)], m[Plus(a, 1)], m[a]);
  }

  /** A word store changes the four octets of the word and no other. */
  lemma Set32Frame(order: Endian, m: Mem, a: Word, v: Word, x: Word)
    requires Minus(x, a) >= 4
    ensures Set32(order, m, a, v)[x] == m[x]
  {
  }

  /** Words agree exactly when their four octets agree. */
  lemma SameWord(order: Endian, m: Mem, a: Word, n: Mem, b: Word)
    ensures Get32(order, m, a) == Get32(order, n, b) <==>
            (forall k: Word :: k < 4 ==> m[Plus(a, k)] == n[Plus(b, k)])
  {
    match order
    case Little =>
      OctetsOfCombine(m[a], m[Plus(a, 1)], m[Plus(a, 2)], m[Plus(a, 3)]);
      OctetsOfCombine(n[b], n[Plus(b, 1)], n[Plus(b, 2)], n[Plus(b, 3)]);
      assert Plus(a, 0) == a && Plus(b, 0) == b;
    case Big =>
      OctetsOfCombine(m[Plus(a, 3)], m[Plus(a, 2)], m[Plus(a, 1)], m[a]);
      OctetsOfCombine(n[Plus(b, 3)], n[Plus(b, 2)], n[Plus(b, 1)], n[b]);
      assert Plus(a, 0) == a && Plus(b, 0) == b;
  }

  // ------------------------------------------------------ what an octet weighs

  function Power256(k: nat): (w: nat)
    ensures w >= 1
  {
    if k == 0 then 1 else 0x100 * Power256(k - 1)
  }

  lemma Powers()
    ensures Power256(0) == 1 && Power256(1) == 0x100
    ensures Power256(2) == 0x1_0000 && Power256(3) == 0x100_0000
  {
    var one: nat, two: nat, three: nat := 1, 2, 3;
    assert Power256(one) == 0x100 * Power256(0);
    assert Power256(two) == 0x100 * Power256(one);
    assert Power256(three) == 0x100 * Power256(two);
  }

  lemma OctetByPower(w: Word, k: Word)
    requires k < 4
    ensures OctetOf(w, k) == w / Power256(k) % 0x100
  {
    Powers();
    hide Power256;
  }

  /** The octet at the lowest address weighs least in little-endian order and most in big-endian order. */
  lemma Weights32(m: Mem, a: Word, k: Word)
    requires k < 4
    ensures Get32(Little, m, a) / Power256(k) % 0x100 == m[Plus(a, k)]
    ensures Get32(Big, m, a) / Power256(3 - k) % 0x100 == m[Plus(a, k)]
  {
    hide Power256, OctetOf, Combine;
    OctetsOfCombine(m[a], m[Plus(a, 1)], m[Plus(a, 2)], m[Plus(a, 3)]);
    OctetsOfCombine(m[Plus(a, 3)], m[Plus(a, 2)], m[Plus(a, 1)], m[a]);
    OctetByPower(Get32(Little, m, a), k);
    OctetByPower(Get32(Big, m, a), 3 - k);
    assert Plus(a, 0) == a;
  }

  /** The same of the octets that a word store leaves. */
  lemma StoredOctets32(m: Mem, a: Word, v: Word, k: Word)
    requires k < 4
    ensures Set32(Little, m, a, v)[Plus(a, k)] == v / Power256(k) % 0x100
    ensures Set32(Big, m, a, v)[Plus(a, k)] == v / Power256(3 - k) % 0x100
  {
    hide Get32, Set32, Power256;
    GetAfterSet32(Little, m, a, v);
    GetAfterSet32(Big, m, a, v);
    Weights32(Set32(Little, m, a, v), a, k);
    Weights32(Set32(Big, m, a, v), a, k);
  }

  /** The first octet, upwards from `a` and `b`, at which the two places differ is smaller at `a`. */
  ghost predicate FirstBelow(m: Mem, a: Word, n: Mem, b: Word, width: Word) {
    exists k: Word :: k < width && m[Plus(a, k)] < n[Plus(b, k)]
                      && forall j: Word :: j < k ==> m[Plus(a, j)] == n[Plus(b, j)]
  }

  /** The same downwards from the other end. */
  ghost predicate LastBelow(m: Mem, a: Word, n: Mem, b: Word, width: Word) {
    exists k: Word :: k < width && m[Plus(a, k)] < n[Plus(b, k)]
                      && forall j: Word :: k < j < width ==> m[Plus(a, j)] == n[Plus(b, j)]
  }

  lemma CombineOrder(b0: Octet, b1: Octet, b2: Octet, b3: Octet, c0: Octet, c1: Octet, c2: Octet, c3: Octet)
    ensures Combine(b0, b1, b2, b3) < Combine(c0, c1, c2, c3) <==>
            || b3 < c3
            || (b3 == c3 && b2 < c2)
            || (b3 == c3 && b2 == c2 && b1 < c1)
            || (b3 == c3 && b2 == c2 && b1 == c1 && b0 < c0)
  {
  }

  lemma FirstOfFour(m: Mem, a: Word, n: Mem, b: Word)
    ensures FirstBelow(m, a, n, b, 4) <==>
            || m[a] < n[b]
            || (m[a] == n[b] && m[Plus(a, 1)] < n[Plus(b, 1)])
            || (m[a] == n[b] && m[Plus(a, 1)] == n[Plus(b, 1)] && m[Plus(a, 2)] < n[Plus(b, 2)])
            || (m[a] == n[b] && m[Plus(a, 1)] == n[Plus(b, 1)] && m[Plus(a, 2)] == n[Plus(b, 2)]
                && m[Plus(a, 3)] < n[Plus(b, 3)])
  {
    assert Plus(a, 0) == a && Plus(b, 0) == b;
    hide Plus;
  }

  lemma LastOfFour(m: Mem, a: Word, n: Mem, b: Word)
    ensures LastBelow(m, a, n, b, 4) <==>
            || m[Plus(a, 3)] < n[Plus(b, 3)]
            || (m[Plus(a, 3)] == n[Plus(b, 3)] && m[Plus(a, 2)] < n[Plus(b, 2)])
            || (m[Plus(a, 3)] == n[Plus(b, 3)] && m[Plus(a, 2)] == n[Plus(b, 2)] && m[Plus(a, 1)] < n[Plus(b, 1)])
            || (m[Plus(a, 3)] == n[Plus(b, 3)] && m[Plus(a, 2)] == n[Plus(b, 2)] && m[Plus(a, 1)] == n[Plus(b, 1)]
                && m[a] < n[b])
  {
    assert Plus(a, 0) == a && Plus(b, 0) == b;
    hide Plus;
  }

  /** Big-endian words are ordered as their octets are, from the lowest address up,
      little-endian words from the highest address down. */
  lemma WordOrder(m: Mem, a: Word, n: Mem, b: Word)
    ensures Get32(Big, m, a) < Get32(Big, n, b) <==> FirstBelow(m, a, n, b, 4)
    ensures Get32(Little, m, a) < Get32(Little, n, b) <==> LastBelow(m, a, n, b, 4)
  {
    hide FirstBelow, LastBelow, Plus, Combine;
    FirstOfFour(m, a, n, b);
    LastOfFour(m, a, n, b);
    CombineOrder(m[Plus(a, 3)], m[Plus(a, 2)], m[Plus(a, 1)], m[a], n[Plus(b, 3)], n[Plus(b, 2)], n[Plus(b, 1)], n[b]);
    CombineOrder(m[a], m[Plus(a, 1)], m[Plus(a, 2)], m[Plus(a, 3)], n[b], n[Plus(b, 1)], n[Plus(b, 2)], n[Plus(b, 3)]);
  }
}
