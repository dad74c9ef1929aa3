/** lib_str.c: NUL-terminated strings in wrapping memory. A string that reaches
    the top of memory ends there, as if the NULL address held its NUL. No method
    reads or writes the octet at NULL, whatever memory holds. */
module Strings {
  import opened Machine

  function Peek(ram: array<Octet>, p: Word): Octet
    requires ram.Length == ADDR_SPACE && p != NULL
    reads ram
  {
    ram[p]
  }

  method Poke(ram: array<Octet>, p: Word, v: Octet)
    requires ram.Length == ADDR_SPACE && p != NULL
    modifies ram
    ensures ram[..] == old(ram[..])[p := v]
  {
    ram[p] := v;
  }

  /** The characters of the string at `p`. */
  function Text(m: Mem, p: Word): (t: seq<Octet>)
    ensures p != NULL ==> p + |t| <= ADDR_SPACE
    decreases if p == NULL then 0 else ADDR_SPACE - p
  {
    if p == NULL || m[p] == 0 then [] else [m[p]] + Text(m, Plus(p, 1))
  }

  lemma TextStep(m: Mem, p: Word)
    requires p != NULL
    ensures Text(m, p) == if m[p] == 0 then [] else [m[p]] + Text(m, Plus(p, 1))
    ensures p + |Text(m, p)| <= ADDR_SPACE && Text(m, NULL) == []
  {
  }

  lemma {:induction false} TextChars(m: Mem, p: Word)
    requires p != NULL
    ensures var t := Text(m, p);
            && (forall i :: 0 <= i < |t| ==> t[i] == m[p + i])
            && (forall x: Word :: p <= x < p + |t| ==> m[x] != 0)
            && (p + |t| < ADDR_SPACE ==> m[p + |t|] == 0)
    decreases ADDR_SPACE - p
  {
    if m[p] != 0 && Plus(p, 1) != NULL {
      TextChars(m, p + 1);
      var rest := Text(m, p + 1);
      forall i | 0 <= i < |rest| + 1
        ensures Text(m, p)[i] == m[p + i]
      {
        if i > 0 {
          assert Text(m, p)[i] == rest[i - 1];
        }
      }
    }
  }

  /** A string is determined by its characters and the place where it ends. */
  lemma {:induction false} TextIs(m: Mem, p: Word, k: nat)
    requires p != NULL && p + k <= ADDR_SPACE
    requires forall x: Word :: p <= x < p + k ==> m[x] != 0
    requires p + k < ADDR_SPACE ==> m[p + k] == 0
    ensures |Text(m, p)| == k
    ensures forall i :: 0 <= i < k ==> Text(m, p)[i] == m[p + i]
    decreases k
  {
    if k > 0 && p + 1 < ADDR_SPACE {
      TextIs(m, p + 1, k - 1);
      var rest := Text(m, p + 1);
      assert Text(m, p) == [m[p]] + rest;
      forall i | 0 <= i < k
        ensures Text(m, p)[i] == m[p + i]
      {
        if i > 0 {
          assert rest[i - 1] == m[p + 1 + (i - 1)];
        }
      }
    }
  }

  lemma {:induction false} TextTail(m: Mem, p: Word, i: nat)
    requires p != NULL && i <= |Text(m, p)| && p + i < ADDR_SPACE
    ensures Text(m, p + i) == Text(m, p)[i..]
    decreases i
  {
    if i > 0 {
      TextTail(m, p + 1, i - 1);
    }
  }

  // ---------------------------------------------------------------- Str_Len

  method StrLen(ram: array<Octet>, pstr: Word) returns (len: Word)
    requires ram.Length == ADDR_SPACE
    ensures len == |Text(ram[..], pstr)|
    ensures pstr == NULL ==> len == 0
    ensures pstr != NULL ==>
              && pstr + len <= ADDR_SPACE
              && (forall x: Word :: pstr <= x < pstr + len ==> ram[x] != 0)
              && (pstr + len < ADDR_SPACE ==> ram[pstr + len] == 0)
  {
    if pstr != NULL {
      TextChars(ram[..], pstr);
    }
    len := 0;
    var p: Word := pstr;
    while p != NULL && Peek(ram, p) != 0
      invariant len + |Text(ram[..], p)| == |Text(ram[..], pstr)|
      invariant p == NULL || p >= pstr
      decreases if p == NULL then 0 else ADDR_SPACE - p
    {
      len, p := len + 1, Plus(p, 1);
    }
  }

  // ---------------------------------------------- Str_Copy(_N), Str_Cat(_N)

  /** The copy loop from `src` to `dest`, at most `n` characters, and the final NUL. */
  function CopyText(m: Mem, dest: Word, src: Word, n: nat): Mem
    requires dest != NULL
    decreases ADDR_SPACE - dest
  {
    if Plus(dest, 1) != NULL && src != NULL && m[src] != 0 && n > 0 then
      CopyText(m[dest := m[src]], Plus(dest, 1), Plus(src, 1), n - 1)
    else m[dest := 0]
  }

  method CopyLoop(ram: array<Octet>, dest: Word, src: Word, n: nat)
    requires ram.Length == ADDR_SPACE && dest != NULL
    modifies ram
    ensures ram[..] == CopyText(old(ram[..]), dest, src, n)
  {
    var p: Word, q: Word, next: Word := dest, src, Plus(dest, 1);
    var len := 0;
    while next != NULL && q != NULL && Peek(ram, q) != 0 && len < n
      invariant p != NULL && next == Plus(p, 1) && len <= n
      invariant CopyText(ram[..], p, q, n - len) == CopyText(old(ram[..]), dest, src, n)
      decreases ADDR_SPACE - p
    {
      Poke(ram, p, Peek(ram, q));
      p, next, q, len := Plus(p, 1), Plus(next, 1), Plus(q, 1), len + 1;
    }
    Poke(ram, p, 0);
  }

  method StrCopy(ram: array<Octet>, pdest: Word, psrc: Word) returns (r: Word)
    requires ram.Length == ADDR_SPACE
    modifies ram
    ensures pdest == NULL || psrc == NULL ==> r == NULL && ram[..] == old(ram[..])
    ensures pdest != NULL && psrc != NULL ==> r == pdest && ram[..] == CopyText(old(ram[..]), pdest, psrc, ADDR_SPACE)
  {
    if pdest == NULL || psrc == NULL {
      return NULL;
    }
    CopyLoop(ram, pdest, psrc, ADDR_SPACE);
    return pdest;
  }

  method StrCopyN(ram: array<Octet>, pdest: Word, psrc: Word, lenMax: Word) returns (r: Word)
    requires ram.Length == ADDR_SPACE
    modifies ram
    ensures pdest == NULL || psrc == NULL || lenMax == 0 ==> r == NULL && ram[..] == old(ram[..])
    ensures pdest != NULL && psrc != NULL && lenMax != 0 ==>
              r == pdest && ram[..] == CopyText(old(ram[..]), pdest, psrc, lenMax)
  {
    if pdest == NULL || psrc == NULL || lenMax == 0 {
      return NULL;
    }
    CopyLoop(ram, pdest, psrc, lenMax);
    return pdest;
  }

  /** The end of the string at `p`: its NUL, or NULL when it runs to the top. */
  function EndOf(m: Mem, p: Word): Word
    requires p != NULL
  {
    Wrap(p + |Text(m, p)|)
  }

  lemma EndStep(m: Mem, p: Word)
    requires p != NULL
    ensures EndOf(m, p) == if m[p] == 0 then p else if Plus(p, 1) == NULL then NULL else EndOf(m, p + 1)
  {
    assert m[p] != 0 && Plus(p, 1) != NULL ==> |Text(m, p)| == 1 + |Text(m, p + 1)|;
  }

  method FindEnd(ram: array<Octet>, pdest: Word) returns (p: Word)
    requires ram.Length == ADDR_SPACE && pdest != NULL
    ensures p == EndOf(ram[..], pdest)
  {
    hide EndOf, Text;
    ghost var m: Mem := ram[..];
    p := pdest;
    EndStep(m, p);
    while p != NULL && Peek(ram, p) != 0
      invariant EndOf(m, pdest) == if p == NULL then NULL else EndOf(m, p)
      decreases if p == NULL then 0 else ADDR_SPACE - p
    {
      EndStep(m, p);
      p := Plus(p, 1);
    }
    if p != NULL {
      EndStep(m, p);
    }
  }

  method StrCat(ram: array<Octet>, pdest: Word, pcat: Word) returns (r: Word)
    requires ram.Length == ADDR_SPACE
    modifies ram
    ensures pdest == NULL || pcat == NULL || EndOf(old(ram[..]), pdest) == NULL ==> r == NULL && ram[..] == old(ram[..])
    ensures pdest != NULL && pcat != NULL && EndOf(old(ram[..]), pdest) != NULL ==>
              r == pdest && ram[..] == CopyText(old(ram[..]), EndOf(old(ram[..]), pdest), pcat, ADDR_SPACE)
  {
    if pdest == NULL || pcat == NULL {
      return NULL;
    }
    var p := FindEnd(ram, pdest);
    if p == NULL {
      return NULL;
    }
    CopyLoop(ram, p, pcat, ADDR_SPACE);
    return pdest;
  }

  method StrCatN(ram: array<Octet>, pdest: Word, pcat: Word, lenMax: Word) returns (r: Word)
    requires ram.Length == ADDR_SPACE
    modifies ram
    ensures pdest == NULL || pcat == NULL || lenMax == 0 || EndOf(old(ram[..]), pdest) == NULL ==>
              r == NULL && ram[..] == old(ram[..])
    ensures pdest != NULL && pcat != NULL && lenMax != 0 && EndOf(old(ram[..]), pdest) != NULL ==>
              r == pdest && ram[..] == CopyText(old(ram[..]), EndOf(old(ram[..]), pdest), pcat, lenMax)
  {
    if pdest == NULL || pcat == NULL || lenMax == 0 {
      return NULL;
    }
    var p := FindEnd(ram, pdest);
    if p == NULL {
      return NULL;
    }
    CopyLoop(ram, p, pcat, lenMax);
    return pdest;
  }

  function Min(x: int, y: int): int {
    if x <= y then x else y
  }

  /** How many characters the copy loop moves when nothing is in its way. */
  function CopyLength(m: Mem, dest: Word, src: Word, n: nat): nat
    requires dest != NULL && src != NULL
  {
    Min(Min(|Text(m, src)|, n), ADDR_SPACE - 1 - dest)
  }

  /** None of `k` characters is written to where a later one is read, nor to where the
      terminator is, unless the loop stops at its bound `n` or at the top before that. */
  predicate Undisturbed(dest: Word, src: Word, k: nat, n: nat) {
    || dest <= src || src + k < dest
    || (src + k == dest && (k == n || dest + k == ADDR_SPACE - 1))
  }

  /** `after` is `m` with `k` characters of `src` and a NUL stored from `dest` on. */
  ghost predicate IsCopied(after: Mem, m: Mem, dest: Word, src: Word, k: nat)
    requires dest + k < ADDR_SPACE && src + k <= ADDR_SPACE
  {
    && (forall x: Word :: dest <= x < dest + k ==> after[x] == m[src + (x - dest)])
    && after[dest + k] == 0
    && (forall x: Word :: x < dest || dest + k < x ==> after[x] == m[x])
  }

  lemma CopyEnds(m: Mem, dest: Word, src: Word, n: nat)
    requires dest != NULL
    requires n == 0 || dest == ADDR_SPACE - 1 || src == NULL || Wrap(src) == NULL || m[Wrap(src)] == 0
    ensures IsCopied(CopyText(m, dest, src, n), m, dest, src, 0)
  {
    assert CopyText(m, dest, src, n) == m[dest := 0];
    hide CopyText;
  }

  lemma CopyMoves(m: Mem, dest: Word, src: Word, n: nat)
    requires NULL != dest && dest + 1 < ADDR_SPACE && src != NULL && n > 0 && m[src] != 0
    ensures var m1 := m[dest := m[src]];
            CopyText(m, dest, src, n) ==
            if src + 1 == ADDR_SPACE then m1[dest + 1 := 0] else CopyText(m1, dest + 1, src + 1, n - 1)
  {
  }

  lemma CopiedOne(m: Mem, dest: Word, src: Word)
    requires dest + 1 < ADDR_SPACE
    ensures IsCopied(m[dest := m[src]][dest + 1 := 0], m, dest, src, 1)
  {
  }

  lemma CopiedStep(after: Mem, m: Mem, dest: Word, src: Word, k: nat)
    requires 0 < k && dest + k < ADDR_SPACE && src + 1 < ADDR_SPACE && src + k <= ADDR_SPACE
    requires (dest <= src || src + k <= dest) && IsCopied(after, m[dest := m[src]], dest + 1, src + 1, k - 1)
    ensures IsCopied(after, m, dest, src, k)
  {
    assert after[dest] == m[src];
    forall x: Word | dest < x < dest + k
      ensures after[x] == m[src + (x - dest)]
    {
      assert src + 1 + (x - (dest + 1)) == src + (x - dest) != dest;
    }
  }

  lemma {:induction false} CopySteps(m: Mem, dest: Word, src: Word, n: nat, k: nat)
    requires dest != NULL && k <= n && dest + k < ADDR_SPACE && src + k <= ADDR_SPACE && (k > 0 ==> src != NULL)
    requires forall x: Word :: src <= x < src + k ==> m[x] != 0
    requires k == n || dest + k == ADDR_SPACE - 1 || Wrap(src + k) == NULL || m[Wrap(src + k)] == 0
    requires Undisturbed(dest, src, k, n)
    ensures IsCopied(CopyText(m, dest, src, n), m, dest, src, k)
    decreases k
  {
    hide IsCopied, CopyText, Wrap;
    if k == 0 {
      CopyEnds(m, dest, src, n);
      return;
    }
    CopyMoves(m, dest, src, n);
    var m1 := m[dest := m[src]];
    if src + 1 == ADDR_SPACE {
      CopiedOne(m, dest, src);
    } else {
      if src + k < ADDR_SPACE {
        WrapSmall(src + k);
      } else {
        WrapPast(src + k);
      }
      CopySteps(m1, dest + 1, src + 1, n - 1, k - 1);
      CopiedStep(CopyText(m1, dest + 1, src + 1, n - 1), m, dest, src, k);
    }
  }

  /** Copying writes the first min(n, length) characters, as far as memory goes,
      and one NUL, and nothing else. */
  lemma CopyExact(m: Mem, dest: Word, src: Word, n: nat)
    requires dest != NULL && src != NULL && Undisturbed(dest, src, CopyLength(m, dest, src, n), n)
    ensures var k := CopyLength(m, dest, src, n);
            && IsCopied(CopyText(m, dest, src, n), m, dest, src, k)
            && Text(CopyText(m, dest, src, n), dest) == Text(m, src)[..k]
  {
    hide Text, CopyText, IsCopied;
    var k, t := CopyLength(m, dest, src, n), Text(m, src);
    TextFits(m, src);
    TextChars(m, src);
    CopyStops(m, dest, src, n, k);
    CopySteps(m, dest, src, n, k);
    CopiedText(CopyText(m, dest, src, n), m, dest, src, k);
  }

  /** Why the copy loop stops after `k` characters. */
  lemma CopyStops(m: Mem, dest: Word, src: Word, n: nat, k: nat)
    requires dest != NULL && src != NULL && k == CopyLength(m, dest, src, n)
    ensures k == n || dest + k == ADDR_SPACE - 1 || Wrap(src + k) == NULL || m[Wrap(src + k)] == 0
  {
    hide Text, Wrap;
    TextFits(m, src);
    TextChars(m, src);
    if src + k < ADDR_SPACE {
      WrapSmall(src + k);
    } else {
      WrapPast(src + k);
    }
  }

  lemma CopiedText(after: Mem, m: Mem, dest: Word, src: Word, k: nat)
    requires dest != NULL && src != NULL && dest + k < ADDR_SPACE && k <= |Text(m, src)| <= ADDR_SPACE - src
    requires IsCopied(after, m, dest, src, k)
    ensures Text(after, dest) == Text(m, src)[..k]
  {
    hide Text;
    TextChars(m, src);
    var t := Text(m, src);
    assert forall x: Word :: dest <= x < dest + k ==> after[x] == m[src + (x - dest)] == t[x - dest];
    TextIs(after, dest, k);
  }

  /** How far a copy runs that finds no NUL: to its bound or to the top. */
  function RunLength(dest: Word, n: nat): nat {
    Min(n, ADDR_SPACE - 1 - dest)
  }

  /** Copying within one string's own characters overwrites its NUL before it is
      read: the copy repeats them up to its bound or to the top of memory. */
  lemma {:induction false} RunsOn(m: Mem, dest: Word, src: Word, n: nat)
    requires NULL != src < dest
    requires forall x: Word :: src <= x < dest ==> m[x] != 0
    ensures var after, end := CopyText(m, dest, src, n), dest + RunLength(dest, n);
            && (forall x: Word :: x < dest ==> after[x] == m[x])
            && (forall x: Word :: dest <= x < end ==> after[x] == after[x - (dest - src)])
            && (forall x: Word :: src <= x < end ==> after[x] != 0)
            && after[end] == 0
    decreases ADDR_SPACE - dest
  {
    if dest + 1 < ADDR_SPACE && n > 0 {
      var m1 := m[dest := m[src]];
      RunsOn(m1, dest + 1, src + 1, n - 1);
      assert CopyText(m, dest, src, n) == CopyText(m1, dest + 1, src + 1, n - 1);
      assert dest + 1 + RunLength(dest + 1, n - 1) == dest + RunLength(dest, n);
    }
  }

  predicate Repeats(t: seq<Octet>, d: nat) {
    forall i :: d <= i < |t| ==> t[i] == t[i - d]
  }

  lemma {:induction false} RepeatedIsSame(after: Mem, dest: Word, d: nat, t: seq<Octet>, i: nat)
    requires 0 < d <= dest && dest + |t| < ADDR_SPACE && i < |t| && Repeats(t, d)
    requires forall x: Word :: dest <= x < dest + |t| ==> after[x] == after[x - d]
    requires forall j :: 0 <= j < d && j < |t| ==> after[dest - d + j] == t[j]
    ensures after[dest + i] == t[i]
    decreases i
  {
    assert after[dest + i] == after[dest + i - d];
    if i >= d {
      RepeatedIsSame(after, dest, d, t, i - d);
    } else {
      assert after[dest - d + i] == t[i];
    }
  }

  /** When a copy of at most `n` characters of `t` arrives as it was. */
  predicate Arrives(dest: Word, src: Word, t: seq<Octet>, n: nat) {
    || dest <= src || src + |t| < dest
    || ((n <= |t| || dest + |t| == ADDR_SPACE - 1) && Repeats(Take(t, n), dest - src))
  }

  /** Into a large enough buffer, Str_Copy_N delivers the first characters of the source
      exactly when the destination starts neither inside the string nor at its NUL,
      or the loop ends by its bound or at the very top, and the characters repeat at
      the distance of the two. They do if the destination lies behind all of them. */
  lemma CopyNDeliversIff(m: Mem, dest: Word, src: Word, n: nat)
    requires dest != NULL && src != NULL && dest + |Take(Text(m, src), n)| < ADDR_SPACE
    ensures Text(CopyText(m, dest, src, n), dest) == Take(Text(m, src), n) <==> Arrives(dest, src, Text(m, src), n)
  {
    hide Text, CopyText, IsCopied, Repeats;
    var t := Text(m, src);
    if dest <= src || src + |t| < dest {
      CopyExact(m, dest, src, n);
    } else {
      var after, k := CopyText(m, dest, src, n), RunLength(dest, n);
      TextChars(m, src);
      TextFits(m, src);
      RunsOn(m, dest, src, n);
      TextIs(after, dest, k);
      if k == |Take(t, n)| {
        RunRepeats(after, dest, dest - src, Take(t, n), Text(after, dest));
      }
    }
  }

  /** Str_Copy is bounded by memory alone. */
  lemma CopyDeliversIff(m: Mem, dest: Word, src: Word)
    requires dest != NULL && src != NULL && dest + |Text(m, src)| < ADDR_SPACE
    ensures var t := Text(m, src);
            Text(CopyText(m, dest, src, ADDR_SPACE), dest) == t <==>
            || dest <= src || src + |t| < dest
            || (dest + |t| == ADDR_SPACE - 1 && Repeats(t, dest - src))
  {
    hide Text, CopyText, Repeats;
    TextFits(m, src);
    CopyNDeliversIff(m, dest, src, ADDR_SPACE);
  }

  lemma RunRepeats(after: Mem, dest: Word, d: nat, t: seq<Octet>, copied: seq<Octet>)
    requires 0 < d <= dest && dest + |t| < ADDR_SPACE && |t| == |copied|
    requires forall x: Word :: dest <= x < dest + |t| ==> after[x] == after[x - d]
    requires forall j :: 0 <= j < d && j < |t| ==> after[dest - d + j] == t[j]
    requires forall i :: 0 <= i < |t| ==> copied[i] == after[dest + i]
    ensures copied == t <==> Repeats(t, d)
  {
    if Repeats(t, d) {
      forall i | 0 <= i < |t|
        ensures copied[i] == t[i]
      {
        RepeatedIsSame(after, dest, d, t, i);
      }
    } else {
      var i :| d <= i < |t| && t[i] != t[i - d];
      assert after[dest + i] == after[dest + i - d];
      assert copied[i] == copied[i - d];
    }
  }

  lemma {:induction false} CopyBelow(m: Mem, dest: Word, src: Word, n: nat, x: Word)
    requires NULL != dest && x < dest
    ensures CopyText(m, dest, src, n)[x] == m[x]
    decreases ADDR_SPACE - dest
  {
    if Plus(dest, 1) != NULL && src != NULL && m[src] != 0 && n > 0 {
      CopyBelow(m[dest := m[src]], dest + 1, Plus(src, 1), n - 1, x);
    }
  }

  lemma {:induction false} TextJoins(after: Mem, m: Mem, p: Word, end: Word)
    requires NULL != p && p + |Text(m, p)| == end
    requires forall x: Word :: p <= x < end ==> after[x] == m[x]
    ensures Text(after, p) == Text(m, p) + Text(after, end)
    decreases end - p
  {
    hide Text;
    TextStep(m, p);
    TextStep(after, p);
    if p < end {
      TextJoins(after, m, p + 1, end);
      PrefixJoins([m[p]], Text(m, p + 1), Text(after, end));
    } else {
      PrefixJoins([], [], Text(after, end));
    }
  }

  lemma PrefixJoins(a: seq<Octet>, b: seq<Octet>, c: seq<Octet>)
    ensures (a + b) + c == a + (b + c) && [] + c == c
  {
  }

  /** Str_Cat and Str_Cat_N keep the destination string and continue it with what
      the copy loop leaves behind it. */
  lemma CatKeepsPrefix(m: Mem, dest: Word, cat: Word, n: nat)
    requires dest != NULL && EndOf(m, dest) != NULL
    ensures var end := EndOf(m, dest);
            var after := CopyText(m, end, cat, n);
            Text(after, dest) == Text(m, dest) + Text(after, end)
  {
    var end := EndOf(m, dest);
    forall x: Word | dest <= x < end
      ensures CopyText(m, end, cat, n)[x] == m[x]
    {
      CopyBelow(m, end, cat, n, x);
    }
    TextJoins(CopyText(m, end, cat, n), m, dest, end);
  }

  /** The concatenation of the two strings, cut at `n` characters; only the new
      characters and one NUL are written. */
  lemma CatExact(m: Mem, dest: Word, cat: Word, n: nat)
    requires dest != NULL && cat != NULL && EndOf(m, dest) != NULL
    requires Undisturbed(EndOf(m, dest), cat, CopyLength(m, EndOf(m, dest), cat, n), n)
    ensures var end := EndOf(m, dest);
            var after, k := CopyText(m, end, cat, n), CopyLength(m, end, cat, n);
            && IsCopied(after, m, end, cat, k)
            && Text(after, dest) == Text(m, dest) + Text(m, cat)[..k]
  {
    CatKeepsPrefix(m, dest, cat, n);
    CopyExact(m, EndOf(m, dest), cat, n);
  }

  /** Into a large enough buffer, Str_Cat_N yields the concatenation with the first
      characters exactly when these arrive behind the destination string. */
  lemma CatNDeliversIff(m: Mem, dest: Word, cat: Word, n: nat)
    requires dest != NULL && cat != NULL && EndOf(m, dest) != NULL
    requires EndOf(m, dest) + |Take(Text(m, cat), n)| < ADDR_SPACE
    ensures var end, t := EndOf(m, dest), Text(m, cat);
            Text(CopyText(m, end, cat, n), dest) == Text(m, dest) + Take(t, n) <==> Arrives(end, cat, t, n)
  {
    hide Text, CopyText, EndOf, Arrives, Take;
    var end, t := EndOf(m, dest), Take(Text(m, cat), n);
    var after := CopyText(m, end, cat, n);
    CatKeepsPrefix(m, dest, cat, n);
    CopyNDeliversIff(m, end, cat, n);
    if Text(after, dest) == Text(m, dest) + t {
      assert Text(after, end) == Text(after, dest)[|Text(m, dest)|..] == t;
    }
  }

  /** Into a large enough buffer, Str_Cat yields the concatenation exactly when the
      destination does not end inside the string that is appended, so never when
      a non-empty string is appended to itself below the top of memory. */
  lemma CatDeliversIff(m: Mem, dest: Word, cat: Word)
    requires dest != NULL && cat != NULL && EndOf(m, dest) != NULL
    requires EndOf(m, dest) + |Text(m, cat)| < ADDR_SPACE
    ensures var end, t := EndOf(m, dest), Text(m, cat);
            Text(CopyText(m, end, cat, ADDR_SPACE), dest) == Text(m, dest) + t <==>
            || end <= cat || cat + |t| < end
            || (end + |t| == ADDR_SPACE - 1 && Repeats(t, end - cat))
  {
    hide Text, CopyText, EndOf, Repeats;
    TextFits(m, cat);
    CatNDeliversIff(m, dest, cat, ADDR_SPACE);
  }

  // --------------------------------------------------------- Str_Cmp, Str_Cmp_N

  /** A character as a number, in a build where CPU_CHAR is signed or not. */
  function CharVal(signed: bool, c: Octet): int {
    if signed && c >= 0x80 then c - 0x100 else c
  }

  /** Character `i` of a string; past the end there is a virtual NUL. */
  function At(signed: bool, t: seq<Octet>, i: nat): int {
    if i < |t| then CharVal(signed, t[i]) else 0
  }

  /** `x` is what the octet `c` reads as: itself, or for a signed CPU_CHAR the number in
      -128..127 that is congruent to it modulo 256. */
  predicate ReadsAs(signed: bool, c: Octet, x: int) {
    if signed then -0x80 <= x < 0x80 && (x - c) % 0x100 == 0 else x == c
  }

  /** Octet `i` of a string, with a virtual NUL past the end. */
  function OctetAt(t: seq<Octet>, i: nat): Octet {
    if i < |t| then t[i] else 0
  }

  /** The strings agree in front of `i` and differ there. */
  ghost predicate FirstDifference(s: seq<Octet>, t: seq<Octet>, i: nat) {
    OctetAt(s, i) != OctetAt(t, i) && forall j: nat :: j < i ==> OctetAt(s, j) == OctetAt(t, j)
  }

  /** What a comparison has to return: 0 for equal strings, for others what the two octets
      that differ first read as, the one subtracted from the other. */
  ghost predicate Compares(signed: bool, s: seq<Octet>, t: seq<Octet>, v: int) {
    && (s == t ==> v == 0)
    && (forall i: nat, x: int, y: int ::
          FirstDifference(s, t, i) && ReadsAs(signed, OctetAt(s, i), x) && ReadsAs(signed, OctetAt(t, i), y)
          ==> v == x - y)
  }

  function Rest(t: seq<Octet>): seq<Octet> {
    if t == [] then [] else t[1..]
  }

  function Take(t: seq<Octet>, n: nat): seq<Octet> {
    if n <= |t| then t[..n] else t
  }

  /** The difference of the first pair of characters that differ, 0 if there is none. */
  function CmpVal(signed: bool, s: seq<Octet>, t: seq<Octet>): int
    decreases |s| + |t|
  {
    if s == [] && t == [] then 0
    else if At(signed, s, 0) != At(signed, t, 0) then At(signed, s, 0) - At(signed, t, 0)
    else CmpVal(signed, Rest(s), Rest(t))
  }

  /** cmp_val for the characters at which the comparison loop stopped. */
  method CmpAtStop(ram: array<Octet>, p: Word, q: Word, signed: bool) returns (v: int)
    requires ram.Length == ADDR_SPACE && p != NULL && q != NULL
    requires ram[p] != ram[q] || ram[p] == 0 || Plus(p, 1) == NULL || Plus(q, 1) == NULL
    ensures v == CmpVal(signed, Text(ram[..], p), Text(ram[..], q))
  {
    var pNext, qNext := Plus(p, 1), Plus(q, 1);
    assert CmpVal(signed, [], []) == 0;
    if Peek(ram, p) != Peek(ram, q) {
      v := CharVal(signed, Peek(ram, p)) - CharVal(signed, Peek(ram, q));
    } else if Peek(ram, p) == 0 {
      v := 0;
    } else {
      assert Rest(Text(ram[..], p)) == Text(ram[..], pNext);
      assert Rest(Text(ram[..], q)) == Text(ram[..], qNext);
      if pNext == NULL {
        if qNext == NULL {
          v := 0;
        } else {
          v := 0 - CharVal(signed, Peek(ram, qNext));
        }
      } else {
        v := CharVal(signed, Peek(ram, pNext));
      }
    }
  }

  method StrCmp(ram: array<Octet>, p1: Word, p2: Word, signed: bool) returns (v: int)
    requires ram.Length == ADDR_SPACE
    ensures v == CmpVal(signed, Text(ram[..], p1), Text(ram[..], p2))
    ensures Compares(signed, Text(ram[..], p1), Text(ram[..], p2), v)
    ensures !signed ==> forall i: nat ::
              FirstDifference(Text(ram[..], p1), Text(ram[..], p2), i) ==>
              v == OctetAt(Text(ram[..], p1), i) - OctetAt(Text(ram[..], p2), i)
  {
    CmpOfTexts(signed, ram[..], p1, p2);
    hide Compares, FirstDifference;
    if p1 == NULL {
      if p2 == NULL {
        return 0;
      }
      return 0 - CharVal(signed, Peek(ram, p2));
    }
    if p2 == NULL {
      return CharVal(signed, Peek(ram, p1));
    }
    var p: Word, q: Word := p1, p2;
    var pNext, qNext := Plus(p, 1), Plus(q, 1);
    while Peek(ram, p) == Peek(ram, q) && Peek(ram, p) != 0 && pNext != NULL && qNext != NULL
      invariant p != NULL && q != NULL && pNext == Plus(p, 1) && qNext == Plus(q, 1)
      invariant CmpVal(signed, Text(ram[..], p), Text(ram[..], q))
             == CmpVal(signed, Text(ram[..], p1), Text(ram[..], p2))
      decreases ADDR_SPACE - p
    {
      assert Rest(Text(ram[..], p)) == Text(ram[..], pNext);
      assert Rest(Text(ram[..], q)) == Text(ram[..], qNext);
      pNext, qNext, p, q := Plus(pNext, 1), Plus(qNext, 1), Plus(p, 1), Plus(q, 1);
    }
    v := CmpAtStop(ram, p, q, signed);
  }

  /** What Str_Cmp_N computes: the bound is not seen by a string whose first
      `n` characters are the last ones of memory. */
  function CmpN(signed: bool, m: Mem, p1: Word, p2: Word, n: Word): int {
    if p1 + n == ADDR_SPACE || p2 + n == ADDR_SPACE then CmpVal(signed, Text(m, p1), Text(m, p2))
    else CmpVal(signed, Take(Text(m, p1), n), Take(Text(m, p2), n))
  }

  /** The part of the string at `p` that a bounded comparison with the one at `q` looks at. */
  function SeenN(m: Mem, p: Word, q: Word, n: Word): seq<Octet> {
    if p + n == ADDR_SPACE || q + n == ADDR_SPACE then Text(m, p) else Take(Text(m, p), n)
  }

  lemma TakeStep(m: Mem, p: Word, n: nat)
    requires p != NULL && m[p] != 0 && n > 0
    ensures Take(Text(m, p), n) == [m[p]] + Take(Text(m, Plus(p, 1)), n - 1)
    ensures Rest(Take(Text(m, p), n)) == Take(Text(m, Plus(p, 1)), n - 1)
    ensures Rest(Text(m, p)) == Text(m, Plus(p, 1))
  {
  }

  /** One round of the loop leaves the outcome as it was. */
  lemma CmpNStep(signed: bool, m: Mem, p: Word, q: Word, n: Word)
    requires p != NULL && q != NULL && m[p] == m[q] != 0 && n > 0
    requires Plus(p, 1) != NULL && Plus(q, 1) != NULL
    ensures CmpN(signed, m, p, q, n) == CmpN(signed, m, p + 1, q + 1, n - 1)
  {
    TakeStep(m, p, n);
    TakeStep(m, q, n);
    CmpRest(signed, Text(m, p), Text(m, q));
    CmpRest(signed, Take(Text(m, p), n), Take(Text(m, q), n));
  }

  lemma CmpNothing(signed: bool, m: Mem, p: Word, q: Word)
    ensures CmpN(signed, m, p, q, 0) == 0
  {
  }

  lemma CmpNull(signed: bool, m: Mem, p1: Word, p2: Word, n: Word)
    requires n > 0
    ensures p1 == NULL ==> CmpN(signed, m, p1, p2, n) == if p2 == NULL then 0 else 0 - CharVal(signed, m[p2])
    ensures p1 != NULL == p2 ==> CmpN(signed, m, p1, p2, n) == CharVal(signed, m[p1])
  {
    var s, t := Text(m, p1), Text(m, p2);
    CmpRest(signed, s, t);
    CmpRest(signed, Take(s, n), Take(t, n));
  }

  method StrCmpN(ram: array<Octet>, p1: Word, p2: Word, lenMax: Word, signed: bool) returns (v: int)
    requires ram.Length == ADDR_SPACE
    ensures v == CmpN(signed, ram[..], p1, p2, lenMax)
    ensures Compares(signed, SeenN(ram[..], p1, p2, lenMax), SeenN(ram[..], p2, p1, lenMax), v)
    ensures !signed ==> forall i: nat ::
              FirstDifference(SeenN(ram[..], p1, p2, lenMax), SeenN(ram[..], p2, p1, lenMax), i) ==>
              v == OctetAt(SeenN(ram[..], p1, p2, lenMax), i) - OctetAt(SeenN(ram[..], p2, p1, lenMax), i)
  {
    hide CmpN, CmpVal, Text, Take, SeenN, Compares, FirstDifference;
    ghost var m: Mem := ram[..];
    CmpNOfTexts(signed, m, p1, p2, lenMax);
    if lenMax == 0 {
      CmpNothing(signed, m, p1, p2);
      return 0;
    }
    CmpNull(signed, m, p1, p2, lenMax);
    if p1 == NULL {
      if p2 == NULL {
        return 0;
      }
      return 0 - CharVal(signed, Peek(ram, p2));
    }
    if p2 == NULL {
      return CharVal(signed, Peek(ram, p1));
    }
    var p: Word, q: Word, len: Word := p1, p2, 0;
    var pNext, qNext := Plus(p, 1), Plus(q, 1);
    while Peek(ram, p) == Peek(ram, q) && Peek(ram, p) != 0 && pNext != NULL && qNext != NULL && len < lenMax
      invariant p == p1 + len && q == p2 + len && len <= lenMax && pNext == Plus(p, 1) && qNext == Plus(q, 1)
      invariant CmpN(signed, m, p, q, lenMax - len) == CmpN(signed, m, p1, p2, lenMax)
      decreases ADDR_SPACE - p
    {
      CmpNStep(signed, m, p, q, lenMax - len);
      pNext, qNext, p, q, len := Plus(pNext, 1), Plus(qNext, 1), Plus(p, 1), Plus(q, 1), len + 1;
    }
    if len == lenMax {
      CmpNothing(signed, m, p, q);
      return 0;
    }
    v := CmpAtStop(ram, p, q, signed);
    StoppedCmpN(signed, m, p, q, lenMax - len);
  }

  lemma StoppedCmpN(signed: bool, m: Mem, p: Word, q: Word, n: Word)
    requires p != NULL && q != NULL && n > 0
    requires m[p] != m[q] || m[p] == 0 || Plus(p, 1) == NULL || Plus(q, 1) == NULL
    ensures CmpN(signed, m, p, q, n) == CmpVal(signed, Text(m, p), Text(m, q))
  {
    var s, t := Text(m, p), Text(m, q);
    CmpRest(signed, s, t);
    CmpRest(signed, Take(s, n), Take(t, n));
    if m[p] == m[q] != 0 {
      TakeStep(m, p, n);
      TakeStep(m, q, n);
      CmpRest(signed, Rest(s), Rest(t));
      CmpRest(signed, Rest(Take(s, n)), Rest(Take(t, n)));
    }
  }

  ghost predicate IsText(t: seq<Octet>) {
    forall i :: 0 <= i < |t| ==> t[i] != 0
  }

  /** The value is the difference at the first position at which the strings differ. */
  lemma {:induction false} CmpAtChars(signed: bool, s: seq<Octet>, t: seq<Octet>, i: nat)
    requires forall j :: 0 <= j < i ==> At(signed, s, j) == At(signed, t, j)
    requires At(signed, s, i) != At(signed, t, i)
    ensures CmpVal(signed, s, t) == At(signed, s, i) - At(signed, t, i)
    decreases i
  {
    if i > 0 {
      assert At(signed, s, 0) == At(signed, t, 0);
      forall j | 0 <= j < i - 1
        ensures At(signed, Rest(s), j) == At(signed, Rest(t), j)
      {
        assert At(signed, s, j + 1) == At(signed, t, j + 1);
      }
      CmpAtChars(signed, Rest(s), Rest(t), i - 1);
    }
  }

  /** Every octet reads as one number. */
  lemma OctetReads(signed: bool, c: Octet, x: int)
    ensures ReadsAs(signed, c, x) <==> x == CharVal(signed, c)
  {
  }

  lemma CharOfOctet(signed: bool, t: seq<Octet>, i: nat)
    ensures At(signed, t, i) == CharVal(signed, OctetAt(t, i))
  {
  }

  /** In unsigned builds the sign says which string has the smaller octet where they first
      differ, and the value by how much; in signed builds the same of what the octets read as. */
  lemma CmpValAt(signed: bool, s: seq<Octet>, t: seq<Octet>, i: nat, x: int, y: int)
    requires FirstDifference(s, t, i)
    requires ReadsAs(signed, OctetAt(s, i), x) && ReadsAs(signed, OctetAt(t, i), y)
    ensures CmpVal(signed, s, t) == x - y
    ensures !signed ==> CmpVal(signed, s, t) == OctetAt(s, i) - OctetAt(t, i)
    ensures !signed ==> (CmpVal(signed, s, t) < 0 <==> OctetAt(s, i) < OctetAt(t, i))
  {
    OctetReads(signed, OctetAt(s, i), x);
    OctetReads(signed, OctetAt(t, i), y);
    CharOfOctet(signed, s, i);
    CharOfOctet(signed, t, i);
    forall j: nat | j < i
      ensures At(signed, s, j) == At(signed, t, j)
    {
      CharOfOctet(signed, s, j);
      CharOfOctet(signed, t, j);
    }
    hide CmpVal, OctetAt;
    CmpAtChars(signed, s, t, i);
  }

  lemma CmpCompares(signed: bool, s: seq<Octet>, t: seq<Octet>)
    requires IsText(s) && IsText(t)
    ensures Compares(signed, s, t, CmpVal(signed, s, t))
  {
    hide CmpVal, FirstDifference, ReadsAs, OctetAt;
    CmpZeroIff(signed, s, t);
    forall i: nat, x: int, y: int | FirstDifference(s, t, i) && ReadsAs(signed, OctetAt(s, i), x)
                                    && ReadsAs(signed, OctetAt(t, i), y)
      ensures CmpVal(signed, s, t) == x - y
    {
      CmpValAt(signed, s, t, i, x, y);
    }
  }

  lemma {:induction false} DifferSomewhere(s: seq<Octet>, t: seq<Octet>) returns (i: nat)
    requires IsText(s) && IsText(t) && s != t
    ensures FirstDifference(s, t, i)
    decreases |s|
  {
    i := 0;
    if OctetAt(s, 0) == OctetAt(t, 0) {
      assert s == [s[0]] + s[1..] && t == [t[0]] + t[1..];
      i := DifferSomewhere(s[1..], t[1..]);
      i := i + 1;
      forall j: nat | 0 < j < i
        ensures OctetAt(s, j) == OctetAt(t, j)
      {
        assert OctetAt(s[1..], j - 1) == OctetAt(t[1..], j - 1);
      }
      assert OctetAt(s[1..], i - 1) != OctetAt(t[1..], i - 1);
    }
  }

  /** So for any two strings one value is the right one. */
  lemma ComparesDecides(signed: bool, s: seq<Octet>, t: seq<Octet>, v: int)
    requires IsText(s) && IsText(t)
    ensures Compares(signed, s, t, v) <==> v == CmpVal(signed, s, t)
  {
    hide CmpVal, OctetAt, FirstDifference;
    CmpCompares(signed, s, t);
    if s == t {
      CmpZeroIff(signed, s, t);
    } else {
      var i := DifferSomewhere(s, t);
      OctetReads(signed, OctetAt(s, i), CharVal(signed, OctetAt(s, i)));
      OctetReads(signed, OctetAt(t, i), CharVal(signed, OctetAt(t, i)));
      CmpValAt(signed, s, t, i, CharVal(signed, OctetAt(s, i)), CharVal(signed, OctetAt(t, i)));
    }
  }

  /** 0 means equal, and nothing else does. */
  lemma {:induction false} CmpZeroIff(signed: bool, s: seq<Octet>, t: seq<Octet>)
    requires IsText(s) && IsText(t)
    ensures CmpVal(signed, s, t) == 0 <==> s == t
    decreases |s| + |t|
  {
    if s != [] && t != [] && s[0] == t[0] {
      CmpZeroIff(signed, s[1..], t[1..]);
      assert s == [s[0]] + s[1..] && t == [t[0]] + t[1..];
    }
  }

  /** The order on strings that the sign gives is antisymmetric. */
  lemma {:induction false} CmpAntisymmetric(signed: bool, s: seq<Octet>, t: seq<Octet>)
    ensures CmpVal(signed, t, s) == -CmpVal(signed, s, t)
    decreases |s| + |t|
  {
    if s != [] || t != [] {
      CmpAntisymmetric(signed, Rest(s), Rest(t));
    }
  }

  /** ... and transitive. */
  lemma {:induction false} CmpTransitive(signed: bool, s: seq<Octet>, t: seq<Octet>, u: seq<Octet>)
    requires CmpVal(signed, s, t) <= 0 && CmpVal(signed, t, u) <= 0
    ensures CmpVal(signed, s, u) <= 0
    decreases |s| + |t| + |u|
  {
    if s != [] || t != [] || u != [] {
      CmpRest(signed, s, t);
      CmpRest(signed, t, u);
      CmpRest(signed, s, u);
      if At(signed, s, 0) == At(signed, t, 0) == At(signed, u, 0) {
        CmpTransitive(signed, Rest(s), Rest(t), Rest(u));
      }
    }
  }

  lemma CmpRest(signed: bool, s: seq<Octet>, t: seq<Octet>)
    ensures CmpVal(signed, s, t) ==
            if At(signed, s, 0) != At(signed, t, 0) then At(signed, s, 0) - At(signed, t, 0)
            else CmpVal(signed, Rest(s), Rest(t))
  {
  }

  /** The value fits the 16 bits of the result type. */
  lemma {:induction false} CmpFits(signed: bool, s: seq<Octet>, t: seq<Octet>)
    ensures -0xFF <= CmpVal(signed, s, t) <= 0xFF
    decreases |s| + |t|
  {
    if s != [] || t != [] {
      CmpFits(signed, Rest(s), Rest(t));
    }
  }

  lemma TakenCmp(signed: bool, s: seq<Octet>, t: seq<Octet>, n: nat)
    requires IsText(s) && IsText(t)
    ensures CmpVal(signed, Take(s, n), Take(t, n)) == CmpVal(signed, s, t) <==> Take(s, n) != Take(t, n) || s == t
  {
    hide CmpVal, CharVal, OctetAt, ReadsAs;
    var taken, taken' := Take(s, n), Take(t, n);
    CmpZeroIff(signed, s, t);
    CmpZeroIff(signed, taken, taken');
    if taken != taken' {
      var i := DifferSomewhere(taken, taken');
      assert i < n by {
        TakenOctet(s, n, i);
        TakenOctet(t, n, i);
      }
      forall j: nat | j <= i
        ensures OctetAt(taken, j) == OctetAt(s, j) && OctetAt(taken', j) == OctetAt(t, j)
      {
        TakenOctet(s, n, j);
        TakenOctet(t, n, j);
      }
      var x, y := CharVal(signed, OctetAt(s, i)), CharVal(signed, OctetAt(t, i));
      OctetReads(signed, OctetAt(s, i), x);
      OctetReads(signed, OctetAt(t, i), y);
      CmpValAt(signed, s, t, i, x, y);
      CmpValAt(signed, taken, taken', i, x, y);
    }
  }

  lemma TakenOctet(t: seq<Octet>, n: nat, i: nat)
    ensures OctetAt(Take(t, n), i) == if i < n then OctetAt(t, i) else 0
  {
  }

  /** Str_Cmp_N compares at most `n` characters, unless one string's first `n`
      characters are the last ones of memory: it then reports a difference
      behind the bound, and does so exactly when the first `n` agree and the
      strings differ. */
  lemma CmpNBoundIff(signed: bool, m: Mem, p1: Word, p2: Word, n: Word)
    ensures var s, t := Text(m, p1), Text(m, p2);
            CmpN(signed, m, p1, p2, n) == CmpVal(signed, Take(s, n), Take(t, n)) <==>
            || (p1 + n != ADDR_SPACE && p2 + n != ADDR_SPACE)
            || Take(s, n) != Take(t, n)
            || s == t
  {
    TextIsText(m, p1);
    TextIsText(m, p2);
    TakenCmp(signed, Text(m, p1), Text(m, p2), n);
  }

  lemma CmpOfTexts(signed: bool, m: Mem, p1: Word, p2: Word)
    ensures var s, t := Text(m, p1), Text(m, p2);
            && Compares(signed, s, t, CmpVal(signed, s, t))
            && (!signed ==> forall i: nat :: FirstDifference(s, t, i) ==>
                              CmpVal(signed, s, t) == OctetAt(s, i) - OctetAt(t, i))
  {
    hide Text, CmpVal, FirstDifference, OctetAt;
    TextIsText(m, p1);
    TextIsText(m, p2);
    CmpCompares(signed, Text(m, p1), Text(m, p2));
    UnsignedDifference(signed, Text(m, p1), Text(m, p2), CmpVal(signed, Text(m, p1), Text(m, p2)));
  }

  lemma UnsignedDifference(signed: bool, s: seq<Octet>, t: seq<Octet>, v: int)
    requires Compares(signed, s, t, v)
    ensures !signed ==> forall i: nat :: FirstDifference(s, t, i) ==> v == OctetAt(s, i) - OctetAt(t, i)
  {
    hide FirstDifference, OctetAt;
    forall i: nat | !signed && FirstDifference(s, t, i)
      ensures v == OctetAt(s, i) - OctetAt(t, i)
    {
      assert ReadsAs(signed, OctetAt(s, i), OctetAt(s, i)) && ReadsAs(signed, OctetAt(t, i), OctetAt(t, i));
    }
  }

  lemma CmpNOfTexts(signed: bool, m: Mem, p1: Word, p2: Word, n: Word)
    ensures var s, t := SeenN(m, p1, p2, n), SeenN(m, p2, p1, n);
            && Compares(signed, s, t, CmpN(signed, m, p1, p2, n))
            && (!signed ==> forall i: nat :: FirstDifference(s, t, i) ==>
                              CmpN(signed, m, p1, p2, n) == OctetAt(s, i) - OctetAt(t, i))
  {
    hide Text, CmpVal, FirstDifference, OctetAt, Compares;
    TextIsText(m, p1);
    TextIsText(m, p2);
    CmpCompares(signed, SeenN(m, p1, p2, n), SeenN(m, p2, p1, n));
    UnsignedDifference(signed, SeenN(m, p1, p2, n), SeenN(m, p2, p1, n), CmpN(signed, m, p1, p2, n));
  }

  lemma TextIsText(m: Mem, p: Word)
    ensures IsText(Text(m, p))
  {
    if p != NULL {
      TextChars(m, p);
    }
  }

  /** After Str_Copy between separate buffers, Str_Cmp finds the two strings equal. */
  lemma CopyThenCompare(signed: bool, m: Mem, dest: Word, src: Word)
    requires dest != NULL && src != NULL
    requires var k := |Text(m, src)|; dest + k < src || (src + k < dest && dest + k < ADDR_SPACE)
    ensures var after := CopyText(m, dest, src, ADDR_SPACE);
            CmpVal(signed, Text(after, dest), Text(after, src)) == 0
  {
    var after, t := CopyText(m, dest, src, ADDR_SPACE), Text(m, src);
    assert CopyLength(m, dest, src, ADDR_SPACE) == |t|;
    CopyExact(m, dest, src, ADDR_SPACE);
    assert IsCopied(after, m, dest, src, |t|);
    TextChars(m, src);
    assert forall x: Word :: src <= x <= src + |t| ==> after[x] == m[x];
    TextIs(after, src, |t|);
    assert Text(after, src) == t;
    assert Text(after, dest) == t[..|t|] == t;
    TextIsText(m, src);
    CmpZeroIff(signed, t, t);
  }

  // ------------------------------------------ Str_Char, Str_Char_N, Str_Char_Last

  /** The octets of a string with its NUL, or up to the top of memory. */
  function Line(m: Mem, p: Word): (s: seq<Octet>)
    ensures p != NULL ==> 0 < |s| <= ADDR_SPACE - p
    decreases if p == NULL then 0 else ADDR_SPACE - p
  {
    if p == NULL then [] else if m[p] == 0 then [0] else [m[p]] + Line(m, Plus(p, 1))
  }

  lemma LineStep(m: Mem, p: Word)
    requires p != NULL
    ensures Line(m, p) == [m[p]] + if m[p] == 0 then [] else Line(m, Plus(p, 1))
    ensures Line(m, NULL) == []
  {
  }

  lemma LineJoins(m: Mem, p: Word, i: nat, rest: seq<Octet>)
    requires i > 0 && p + i < ADDR_SPACE
    ensures [m[p]] + (m[p + 1..p + i] + rest) == m[p..p + i] + rest
  {
    assert m[p..p + i] == [m[p]] + m[p + 1..p + i];
  }

  lemma {:induction false} LineFrom(m: Mem, p: Word, i: nat)
    requires p != NULL && p + i < ADDR_SPACE
    requires forall x: Word :: p <= x < p + i ==> m[x] != 0
    ensures Line(m, p) == m[p..p + i] + Line(m, p + i)
    decreases i
  {
    hide Line;
    if i > 0 {
      LineStep(m, p);
      LineFrom(m, p + 1, i - 1);
      LineJoins(m, p, i, Line(m, p + i));
    }
  }

  lemma LineIs(m: Mem, p: Word, i: nat)
    requires p != NULL && p + i < ADDR_SPACE
    requires forall x: Word :: p <= x < p + i ==> m[x] != 0
    ensures |Line(m, p)| > i && forall j :: 0 <= j <= i ==> Line(m, p)[j] == m[p + j]
    ensures m[p + i] == 0 || p + i + 1 == ADDR_SPACE ==> |Line(m, p)| == i + 1
  {
    hide Line;
    LineFrom(m, p, i);
    LineStep(m, p + i);
  }

  /** The NUL that ends a string below the top of memory is the one octet its line adds. */
  lemma {:induction false} LineOfText(m: Mem, p: Word)
    requires p != NULL
    ensures Line(m, p) == Text(m, p) + if EndOf(m, p) == NULL then [] else [0]
    decreases ADDR_SPACE - p
  {
    if m[p] != 0 && p + 1 < ADDR_SPACE {
      LineOfText(m, p + 1);
      assert EndOf(m, p) == EndOf(m, p + 1);
    }
  }

  /** `r` points to the first `c` of the octets `s` at `p`; NULL if there is none. */
  ghost predicate FirstIn(s: seq<Octet>, p: Word, c: Octet, r: Word) {
    if c in s then p <= r && r - p < |s| && s[r - p] == c && c !in s[..r - p] else r == NULL
  }

  ghost predicate LastIn(s: seq<Octet>, p: Word, c: Octet, r: Word) {
    if c in s then p <= r && r - p < |s| && s[r - p] == c && c !in s[r - p + 1..] else r == NULL
  }

  /** A scan over the first `i` octets that met neither NUL nor `c` ends with what is there. */
  lemma ScanEnds(m: Mem, p: Word, i: Word, n: nat, c: Octet)
    requires p != NULL && p + i < ADDR_SPACE && i <= n
    requires forall x: Word :: p <= x < p + i ==> m[x] != 0 && m[x] != c
    ensures m[p + i] == c ==> FirstIn(Take(Line(m, p), n + 1), p, c, p + i)
    ensures m[p + i] != c && (m[p + i] == 0 || p + i + 1 == ADDR_SPACE || i == n) ==>
              FirstIn(Take(Line(m, p), n + 1), p, c, NULL)
  {
    hide Line;
    LineIs(m, p, i);
    var s := Take(Line(m, p), n + 1);
    assert |s| > i && forall k :: 0 <= k <= i ==> s[k] == m[p + k];
    if m[p + i] == c {
      assert s[i] == c;
    }
  }

  method StrChar(ram: array<Octet>, pstr: Word, c: Octet) returns (r: Word)
    requires ram.Length == ADDR_SPACE
    ensures FirstIn(Line(ram[..], pstr), pstr, c, r)
  {
    if pstr == NULL {
      return NULL;
    }
    var p: Word := pstr;
    var next := Plus(p, 1);
    while next != NULL && Peek(ram, p) != 0 && Peek(ram, p) != c
      invariant pstr <= p && next == Plus(p, 1)
      invariant forall x: Word :: pstr <= x < p ==> ram[x] != 0 && ram[x] != c
      decreases ADDR_SPACE - p
    {
      p, next := Plus(p, 1), Plus(next, 1);
    }
    ScanEnds(ram[..], pstr, p - pstr, ADDR_SPACE, c);
    if Peek(ram, p) != c {
      return NULL;
    }
    return p;
  }

  method StrCharN(ram: array<Octet>, pstr: Word, lenMax: Word, c: Octet) returns (r: Word)
    requires ram.Length == ADDR_SPACE
    ensures lenMax == 0 ==> r == NULL
    ensures lenMax != 0 ==> FirstIn(Take(Line(ram[..], pstr), lenMax + 1), pstr, c, r)
  {
    if pstr == NULL || lenMax == 0 {
      return NULL;
    }
    hide Line, Take, FirstIn;
    var p: Word, len: Word := pstr, 0;
    var next := Plus(p, 1);
    while next != NULL && Peek(ram, p) != 0 && Peek(ram, p) != c && len < lenMax
      invariant p == pstr + len && next == Plus(p, 1) && len <= lenMax
      invariant forall x: Word :: pstr <= x < p ==> ram[x] != 0 && ram[x] != c
      decreases ADDR_SPACE - p
    {
      p, next, len := Plus(p, 1), Plus(next, 1), len + 1;
    }
    ScanEnds(ram[..], pstr, len, lenMax, c);
    if Peek(ram, p) != c {
      return NULL;
    }
    return p;
  }

  /** Str_Char_N searches at most `n` characters of the string, as its comment says,
      exactly when `c` does not first occur as the character behind them. */
  lemma CharNBoundIff(t: seq<Octet>, p: Word, n: nat, c: Octet, r: Word)
    requires p != NULL && FirstIn(Take(t, n + 1), p, c, r)
    ensures FirstIn(Take(t, n), p, c, r) <==> !(n < |t| && t[n] == c && c !in t[..n])
  {
    if n < |t| {
      assert t[..n + 1] == t[..n] + [t[n]];
    }
  }

  /** A line octet by octet. */
  lemma LineAt(m: Mem, p: Word)
    requires p != NULL
    ensures |Line(m, p)| == |Text(m, p)| + if EndOf(m, p) == NULL then 0 else 1
    ensures p + |Line(m, p)| <= ADDR_SPACE && (EndOf(m, p) == NULL <==> p + |Text(m, p)| == ADDR_SPACE)
    ensures forall k: Word :: k < |Line(m, p)| ==> Line(m, p)[k] == m[Plus(p, k)]
  {
    hide Line, Text, EndOf;
    TextChars(m, p);
    LineOfText(m, p);
    EndAtTop(m, p);
    var t, line := Text(m, p), Line(m, p);
    forall k: Word | k < |line|
      ensures line[k] == m[Plus(p, k)]
    {
      if k < |t| {
        assert line[k] == t[k];
      }
    }
  }

  lemma EndAtTop(m: Mem, p: Word)
    requires p != NULL
    ensures EndOf(m, p) == if p + |Text(m, p)| == ADDR_SPACE then NULL else p + |Text(m, p)|
  {
    hide Text;
    var n := |Text(m, p)|;
    assert p + n <= ADDR_SPACE;
  }

  /** The search from behind begins at the end of the string, and of a string that runs to
      the top the end is NULL: the octet there is looked at as well. This is the one
      read of NULL, and it spoils the result exactly when that octet is the
      character sought and the string has it, too. */
  method StrCharLast(ram: array<Octet>, pstr: Word, c: Octet) returns (r: Word)
    requires ram.Length == ADDR_SPACE
    ensures pstr == NULL ==> r == NULL
    ensures pstr != NULL ==> (LastIn(Line(ram[..], pstr), pstr, c, r) <==>
                              EndOf(ram[..], pstr) != NULL || ram[NULL] != c || c !in Line(ram[..], pstr))
    ensures pstr != NULL && EndOf(ram[..], pstr) == NULL && ram[NULL] == c ==> r == NULL
  {
    hide Text, Line, EndOf, LastIn;
    if pstr == NULL {
      return NULL;
    }
    ghost var m: Mem := ram[..];
    LineAt(m, pstr);
    EndAtTop(m, pstr);
    var len := StrLen(ram, pstr);
    var p := Plus(pstr, len);
    ghost var i: Word := len;
    while p != pstr && ram[p] != c
      invariant i <= len && p == Plus(pstr, i)
      invariant forall j: Word :: i < j <= len ==> m[Plus(pstr, j)] != c
      decreases i
    {
      p, i := Minus(p, 1), i - 1;
    }
    if ram[p] != c {
      NoneInLine(m, pstr, c);
      return NULL;
    }
    LastInLine(m, pstr, c, i);
    return p;
  }

  lemma NoneInLine(m: Mem, p: Word, c: Octet)
    requires p != NULL && forall j: Word :: j <= |Text(m, p)| ==> m[Plus(p, j)] != c
    ensures c !in Line(m, p) && LastIn(Line(m, p), p, c, NULL)
  {
    hide Line, Text, EndOf;
    LineAt(m, p);
  }

  lemma LastInLine(m: Mem, p: Word, c: Octet, i: Word)
    requires p != NULL && i <= |Text(m, p)| && m[Plus(p, i)] == c
    requires forall j: Word :: i < j <= |Text(m, p)| ==> m[Plus(p, j)] != c
    ensures i < |Line(m, p)| ==> c in Line(m, p) && LastIn(Line(m, p), p, c, Plus(p, i))
    ensures i < |Text(m, p)| && EndOf(m, p) == NULL ==> m[NULL] != c
    ensures i >= |Line(m, p)| ==> EndOf(m, p) == NULL && Plus(p, i) == NULL && m[NULL] == c
    ensures LastIn(Line(m, p), p, c, NULL) <==> c !in Line(m, p)
  {
    hide Line, Text, EndOf;
    LineAt(m, p);
    EndAtTop(m, p);
    var line, n: Word := Line(m, p), |Text(m, p)|;
    assert Plus(p, n) == if p + n == ADDR_SPACE then NULL else p + n;
    if i < |line| {
      assert line[i] == c;
      forall k | i < k < |line|
        ensures line[k] != c
      {
        assert line[k] == m[Plus(p, k)];
      }
    }
  }

  // ---------------------------------------------------------------- Str_Str

  predicate Occurs(t: seq<Octet>, s: seq<Octet>, i: nat) {
    i + |s| <= |t| && t[i..i + |s|] == s
  }

  /** An occurrence as Str_Str sees it: when `s` runs to the top of memory, the bound
      of the comparison has no effect, and `t` has to end there as well. */
  predicate Hit(t: seq<Octet>, s: seq<Octet>, top: bool, i: nat) {
    Occurs(t, s, i) && (top ==> i + |s| == |t|)
  }

  /** `k` is the smallest index of a hit, -1 if there is none. */
  ghost predicate FirstHit(t: seq<Octet>, s: seq<Octet>, top: bool, k: int) {
    && k >= -1
    && (k >= 0 ==> Hit(t, s, top, k))
    && forall i: nat :: k == -1 || i < k ==> !Hit(t, s, top, i)
  }

  lemma CmpNIsHit(signed: bool, m: Mem, p: Word, q: Word, i: nat)
    requires p != NULL && q != NULL
    requires var t, s := Text(m, p), Text(m, q); s != [] && i + |s| <= |t|
    ensures var t, s := Text(m, p), Text(m, q);
            CmpN(signed, m, p + i, q, |s|) == 0 <==> Hit(t, s, q + |s| == ADDR_SPACE, i)
  {
    hide CmpVal, Text;
    var t, s := Text(m, p), Text(m, q);
    TextTail(m, p, i);
    var u := Text(m, p + i);
    assert u == t[i..];
    assert Take(u, |s|) == t[i..i + |s|] && Take(s, |s|) == s;
    TextIsText(m, p);
    TextIsText(m, q);
    CmpZeroIff(signed, u, s);
    CmpZeroIff(signed, Take(u, |s|), s);
    if |u| == |s| {
      assert Take(u, |s|) == u;
    }
  }

  lemma TextFits(m: Mem, p: Word)
    requires p != NULL
    ensures p + |Text(m, p)| <= ADDR_SPACE
  {
  }

  /** No index below `n` is a hit. */
  ghost predicate NoHit(t: seq<Octet>, s: seq<Octet>, top: bool, n: nat) {
    forall i: nat :: i < n ==> !Hit(t, s, top, i)
  }

  lemma NoHitStep(t: seq<Octet>, s: seq<Octet>, top: bool, n: nat)
    requires NoHit(t, s, top, n) && !Hit(t, s, top, n)
    ensures NoHit(t, s, top, n + 1)
  {
    hide Hit;
  }

  lemma FirstFound(t: seq<Octet>, s: seq<Octet>, top: bool, n: nat)
    ensures NoHit(t, s, top, 0)
    ensures NoHit(t, s, top, n) && Hit(t, s, top, n) ==> FirstHit(t, s, top, n)
    ensures NoHit(t, s, top, n) && n + |s| > |t| ==> FirstHit(t, s, top, -1)
  {
    forall i: nat | i >= n && n + |s| > |t|
      ensures !Hit(t, s, top, i)
    {
    }
    hide Hit;
  }

  method StrStr(ram: array<Octet>, pstr: Word, psrch: Word, signed: bool) returns (r: Word)
    requires ram.Length == ADDR_SPACE
    ensures pstr == NULL || psrch == NULL ==> r == NULL
    ensures pstr != NULL && psrch != NULL && Text(ram[..], psrch) == [] ==> r == EndOf(ram[..], pstr)
    ensures pstr != NULL && psrch != NULL && Text(ram[..], psrch) != [] ==>
              var t, s := Text(ram[..], pstr), Text(ram[..], psrch);
              FirstHit(t, s, psrch + |s| == ADDR_SPACE, if r == NULL then -1 else r - pstr)
  {
    hide Text, CmpN, Hit, NoHit, FirstHit, EndOf;
    if pstr == NULL || psrch == NULL {
      return NULL;
    }
    ghost var m: Mem := ram[..];
    ghost var t, s := Text(m, pstr), Text(m, psrch);
    ghost var top := psrch + |s| == ADDR_SPACE;
    TextFits(m, pstr);
    EndAtTop(m, pstr);
    FirstFound(t, s, top, 0);
    var strLen := StrLen(ram, pstr);
    var srchStrLen := StrLen(ram, psrch);
    if srchStrLen > strLen {
      return NULL;
    }
    if srchStrLen == 0 {
      return Plus(pstr, strLen);
    }
    var srchLen := strLen - srchStrLen;
    var srchIx: Word, done, cmp := 0, false, 0;
    r := NULL;
    while !done && srchIx <= srchLen
      invariant srchIx <= srchLen + 1 && (srchIx > 0 ==> r == pstr + srchIx - 1 && done == (cmp == 0))
      invariant srchIx == 0 ==> !done
      invariant if done then NoHit(t, s, top, srchIx - 1) && Hit(t, s, top, srchIx - 1) else NoHit(t, s, top, srchIx)
      decreases srchLen + 1 - srchIx
    {
      r := Plus(pstr, srchIx);
      cmp := StrCmpN(ram, r, psrch, srchStrLen, signed);
      CmpNIsHit(signed, m, pstr, psrch, srchIx);
      done := cmp == 0;
      if !done {
        NoHitStep(t, s, top, srchIx);
      }
      srchIx := srchIx + 1;
    }
    FirstFound(t, s, top, if done then srchIx - 1 else srchIx);
    if cmp != 0 {
      return NULL;
    }
  }

  /** Where the search string runs to the top of memory, Str_Str still finds the first
      occurrence exactly when there is none or the first one ends the string. */
  lemma TopSearchIff(t: seq<Octet>, s: seq<Octet>, first: int, found: int)
    requires s != [] && FirstHit(t, s, false, first) && FirstHit(t, s, true, found)
    ensures found == first <==> first == -1 || first + |s| == |t|
  {
    if found >= 0 {
      assert Hit(t, s, false, found);
    }
    if first >= 0 && first + |s| == |t| {
      assert Hit(t, s, true, first);
    }
  }
}
