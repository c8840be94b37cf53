/** Slabs: object sizes, the chain of free links threaded through a fresh slab's memory, and
    putting a freed object back on a page's chain. Memory is an array of 32-bit words; the word
    at byte address a is word a / 4. */
module Slab {
  import opened Bits
  import opened Machine

  const POINTER_SIZE: nat := 4

  // ----- sizes -----

  /** x & ~mask, on 32-bit words. */
  function Masked(x: nat, mask: nat): nat
    requires x < WORD && mask < WORD
  {
    WordIsPow2();
    And(x, Not(mask, 32))
  }

  /** Offset of the link word in an object, and the distance between objects, as
      `kmem_cache_create` computes them. */
  function CacheSizes(size: nat, align: nat): (nat, nat)
    requires 0 < align < WORD && size + align + 8 < WORD
  {
    var offset := Masked(size + (POINTER_SIZE - 1), POINTER_SIZE - 1);
    MaskedByFour(size + (POINTER_SIZE - 1));
    (offset, Masked(offset + POINTER_SIZE + (align - 1), align - 1))
  }

  lemma MaskedIs(x: nat, k: nat)
    requires k <= 32 && x < WORD
    ensures Pow2(k) <= WORD
    ensures Masked(x, Pow2(k) - 1) == x - x % Pow2(k)
  {
    WordIsPow2();
    AndMask(x, k, 32);
    RoundDownIs(x, k);
  }

  lemma MaskedByFour(x: nat)
    requires x < WORD
    ensures Masked(x, 3) == x - x % 4
  {
    assert Pow2(2) == 4;
    hide Pow2;
    MaskedIs(x, 2);
  }

  /** The least multiple of a that is at least x. */
  function RoundUp(x: nat, a: nat): (r: nat)
    requires a > 0
  {
    x + (a - 1) - (x + (a - 1)) % a
  }

  lemma {:induction false} RoundUpIs(x: nat, a: nat)
    requires a > 0
    ensures RoundUp(x, a) % a == 0 && x <= RoundUp(x, a) < x + a
  {
    var y := x + (a - 1);
    var q := y / a;
    assert y == a * q + y % a;
    assert y - y % a == a * q;
    DivUnique(a * q, a, q, 0);
  }

  lemma {:induction false} MultipleOfMultiple(x: nat, a: nat, b: nat)
    requires a > 0 && b > 0 && a * b > 0 && x % (a * b) == 0
    ensures x % a == 0
  {
    var q := x / (a * b);
    assert x == (a * b) * q;
    assert (a * b) * q == a * (b * q);
    DivUnique(x, a, b * q, 0);
  }

  /** The masks of `kmem_cache_create` round up. */
  lemma CacheSizesRound(size: nat, k: nat)
    requires k < 32 && size + Pow2(k) + 8 < WORD
    ensures Pow2(k) < WORD
    ensures var offset := RoundUp(size, 4);
            CacheSizes(size, Pow2(k)) == (offset, RoundUp(offset + 4, Pow2(k)))
  {
    hide Masked, Pow2;
    hide RoundUp;
    RoundUpIs(size, 4);
    FourIsPow2();
    RoundUpMasked(size, 2);
    RoundUpMasked(RoundUp(size, 4) + 4, k);
  }

  lemma FourIsPow2()
    ensures Pow2(2) == 4
  {
  }

  lemma RoundUpMasked(x: nat, k: nat)
    requires k <= 32 && x + Pow2(k) <= WORD
    ensures Pow2(k) <= WORD && Masked(x + (Pow2(k) - 1), Pow2(k) - 1) == RoundUp(x, Pow2(k))
  {
    hide Masked, Pow2;
    MaskedIs(x + (Pow2(k) - 1), k);
  }

  lemma MultipleOfFour(x: nat, y: nat, k: nat)
    requires x % 4 == 0 && y % Pow2(k) == 0 && (k < 2 ==> y == RoundUp(x + 4, Pow2(k)))
    ensures y % 4 == 0
  {
    if k >= 2 {
      FourIsPow2();
      hide Pow2, RoundUp;
      Pow2Split(2, k - 2);
      MultipleOfMultiple(y, 4, Pow2(k - 2));
    } else {
      assert Pow2(0) == 1 && Pow2(1) == 2;
      hide Pow2;
      SmallRoundUp(x + 4);
    }
  }

  lemma SmallRoundUp(x: nat)
    requires x % 4 == 0
    ensures RoundUp(x, 1) == x && RoundUp(x, 2) == x
  {
    DivUnique(x + 1, 2, 2 * (x / 4), 1);
    DivUnique(x, 1, x, 0);
  }

  /** With a power-of-two alignment, the payload ends before the link word, the link word ends
      before the next object, both sizes keep words aligned, and objects keep the alignment. */
  lemma CacheSizesFit(size: nat, k: nat)
    requires k < 32 && size + Pow2(k) + 8 < WORD
    ensures Pow2(k) < WORD
    ensures var (offset, objectSize) := CacheSizes(size, Pow2(k));
            && size <= offset < size + 4
            && offset + POINTER_SIZE <= objectSize < offset + POINTER_SIZE + Pow2(k)
            && offset % 4 == 0 && objectSize % 4 == 0 && objectSize % Pow2(k) == 0
  {
    hide CacheSizes, Pow2, RoundUp;
    CacheSizesRound(size, k);
    RoundUpIs(size, 4);
    var offset := RoundUp(size, 4);
    RoundUpIs(offset + 4, Pow2(k));
    MultipleOfFour(offset, RoundUp(offset + 4, Pow2(k)), k);
  }

  // ----- chains of links -----

  ghost predicate WordAt(a: nat, words: nat)
  {
    a > 0 && a % 4 == 0 && a / 4 < words
  }

  /** The link after position i, or NULL. */
  ghost function Next(c: seq<nat>, i: nat): nat
    requires i < |c|
  {
    if i + 1 < |c| then c[i + 1] else 0
  }

  /** c lists the links of a NULL-terminated chain in memory, each once. */
  ghost predicate Chain(mem: seq<nat>, c: seq<nat>)
  {
    && (forall i :: 0 <= i < |c| ==> WordAt(c[i], |mem|))
    && (forall i, j :: 0 <= i < j < |c| ==> c[i] != c[j])
    && (forall i :: 0 <= i < |c| ==> mem[c[i] / 4] == Next(c, i))
  }

  ghost predicate Ascending(s: seq<nat>)
  {
    forall i, j :: 0 <= i < j < |s| ==> s[i] < s[j]
  }

  /** Links a fixed step apart. */
  ghost predicate Spaced(c: seq<nat>, first: nat, step: nat)
  {
    && |c| > 0 && c[0] == first
    && (forall i :: 0 < i < |c| ==> c[i] == c[i - 1] + step)
  }

  /** Links a fixed step apart, from `first` up to the last one below `limit`. */
  ghost predicate Threaded(c: seq<nat>, first: nat, step: nat, limit: nat)
  {
    && Spaced(c, first, step)
    && c[|c| - 1] < limit <= c[|c| - 1] + step
  }

  lemma {:induction false} ThreadedAt(c: seq<nat>, first: nat, step: nat, i: nat)
    requires i < |c| && Spaced(c, first, step)
    ensures c[i] == first + i * step
  {
    if i == 0 {
    } else {
      ThreadedAt(c, first, step, i - 1);
      assert i * step == (i - 1) * step + step by { MulAdd(step, i - 1, 1); }
    }
  }

  /** A chain threaded from the link of the first object has one link for every object whose
      link lies in the slab. */
  lemma {:induction false} ThreadedCount(c: seq<nat>, first: nat, step: nat, limit: nat)
    requires step > 0 && first < limit && Threaded(c, first, step, limit)
    ensures |c| == (limit - first + step - 1) / step
  {
    var n := |c|;
    ThreadedAt(c, first, step, n - 1);
    MulAdd(step, n - 1, 1);
    DivUnique(limit - first + step - 1, step, n, limit - first - 1 - (n - 1) * step);
  }

  lemma ThreadedApart(c: seq<nat>, first: nat, step: nat, limit: nat, i: nat, j: nat)
    requires step > 0 && Threaded(c, first, step, limit) && i < j < |c|
    ensures c[i] + step <= c[j]
    decreases j
  {
    if i == j - 1 {
    } else {
      ThreadedApart(c, first, step, limit, i, j - 1);
    }
  }

  lemma LinkInSlab(c: seq<nat>, first: nat, step: nat, limit: nat, i: nat)
    requires Threaded(c, first, step, limit) && step > 0 && i < |c|
    ensures first <= c[i] < limit
  {
    if 0 < i {
      ThreadedApart(c, first, step, limit, 0, i);
    }
    if i < |c| - 1 {
      ThreadedApart(c, first, step, limit, i, |c| - 1);
    }
  }

  predicate Disjoint(a: int, m: nat, b: int, n: nat)
  {
    a + m <= b || b + n <= a
  }

  /** The objects of a fresh slab: every payload and every link word lies in the slab, and none
      of them overlaps another. */
  lemma ObjectsFit(c: seq<nat>, base: nat, bytes: nat, size: nat, offset: nat, objectSize: nat)
    requires size <= offset && offset + POINTER_SIZE <= objectSize
    requires offset % 4 == 0 && objectSize % 4 == 0 && base % 4 == 0 && bytes % 4 == 0
    requires Threaded(c, base + offset, objectSize, base + bytes)
    ensures forall i :: 0 <= i < |c| ==>
              base <= c[i] - offset && c[i] - offset + size <= c[i] && c[i] + POINTER_SIZE <= base + bytes
    ensures forall i, j :: 0 <= i < j < |c| ==>
              && Disjoint(c[i] - offset, size, c[j] - offset, size) && Disjoint(c[i], POINTER_SIZE, c[j], POINTER_SIZE)
              && Disjoint(c[i] - offset, size, c[j], POINTER_SIZE) && Disjoint(c[i], POINTER_SIZE, c[j] - offset, size)
  {
    hide Threaded, Disjoint;
    forall i | 0 <= i < |c|
      ensures base <= c[i] - offset && c[i] - offset + size <= c[i] && c[i] + POINTER_SIZE <= base + bytes
    {
      ObjectFits(c, base, bytes, offset, objectSize, i);
    }
    forall i, j | 0 <= i < j < |c|
      ensures Disjoint(c[i] - offset, size, c[j] - offset, size) && Disjoint(c[i], POINTER_SIZE, c[j], POINTER_SIZE)
      ensures Disjoint(c[i] - offset, size, c[j], POINTER_SIZE) && Disjoint(c[i], POINTER_SIZE, c[j] - offset, size)
    {
      ThreadedApart(c, base + offset, objectSize, base + bytes, i, j);
      ObjectsApart(c[i], c[j], size, offset, objectSize);
    }
  }

  lemma ObjectFits(c: seq<nat>, base: nat, bytes: nat, offset: nat, objectSize: nat, i: nat)
    requires offset % 4 == 0 && objectSize % 4 == 0 && objectSize > 0 && base % 4 == 0 && bytes % 4 == 0
    requires Threaded(c, base + offset, objectSize, base + bytes) && i < |c|
    ensures base + offset <= c[i] && c[i] + POINTER_SIZE <= base + bytes
  {
    assert Spaced(c, base + offset, objectSize);
    hide Threaded, Spaced;
    SumOfMultiples(base, offset, 4);
    SumOfMultiples(base, bytes, 4);
    LinkInSlab(c, base + offset, objectSize, base + bytes, i);
    LinkAligned(c, base + offset, objectSize, i);
    NextWord(c[i], base + bytes);
  }

  lemma NextWord(x: nat, y: nat)
    requires x % 4 == 0 && y % 4 == 0 && x < y
    ensures x + 4 <= y
  {
  }

  lemma ObjectsApart(x: nat, y: nat, size: nat, offset: nat, objectSize: nat)
    requires size <= offset && offset + POINTER_SIZE <= objectSize && x + objectSize <= y
    ensures Disjoint(x - offset, size, y - offset, size) && Disjoint(x, POINTER_SIZE, y, POINTER_SIZE)
    ensures Disjoint(x - offset, size, y, POINTER_SIZE) && Disjoint(x, POINTER_SIZE, y - offset, size)
  {
  }

  lemma {:induction false} LinkAligned(c: seq<nat>, first: nat, step: nat, i: nat)
    requires i < |c| && Spaced(c, first, step)
    requires first % 4 == 0 && step % 4 == 0
    ensures c[i] % 4 == 0
  {
    if i == 0 {
    } else {
      LinkAligned(c, first, step, i - 1);
    }
  }

  lemma {:induction false} SumOfMultiples(x: nat, y: nat, a: nat)
    requires a > 0 && x % a == 0 && y % a == 0
    ensures (x + y) % a == 0
  {
    var p, q := x / a, y / a;
    assert x == a * p && y == a * q;
    MulAdd(a, p, q);
    DivUnique(x + y, a, p + q, 0);
  }

  lemma {:induction false} ObjectAligned(c: seq<nat>, base: nat, offset: nat, objectSize: nat, align: nat, i: nat)
    requires Spaced(c, base + offset, objectSize) && align > 0 && i < |c|
    requires base % align == 0 && objectSize % align == 0
    ensures c[i] >= offset && (c[i] - offset) % align == 0
  {
    if i == 0 {
    } else {
      ObjectAligned(c, base, offset, objectSize, align, i - 1);
      SumOfMultiples(c[i - 1] - offset, objectSize, align);
    }
  }

  /** A fresh slab of a cache: for every object size and power-of-two alignment whose first link
      fits, the objects lie in the slab and overlap neither each other nor any link; they are
      aligned as asked wherever the slab is. */
  lemma SlabObjects(size: nat, k: nat, base: nat, bytes: nat, c: seq<nat>)
    requires k < 32 && Pow2(k) < WORD && size + Pow2(k) + 8 < WORD
    requires base % 4 == 0 && bytes % 4 == 0
    requires Threaded(c, base + CacheSizes(size, Pow2(k)).0, CacheSizes(size, Pow2(k)).1, base + bytes)
    ensures var offset := CacheSizes(size, Pow2(k)).0;
            && (forall i :: 0 <= i < |c| ==>
                  && base <= c[i] - offset && c[i] - offset + size <= c[i] && c[i] + POINTER_SIZE <= base + bytes)
            && (base % Pow2(k) == 0 ==> forall i :: 0 <= i < |c| ==> (c[i] - offset) % Pow2(k) == 0)
            && (forall i, j :: 0 <= i < j < |c| ==>
                  && Disjoint(c[i] - offset, size, c[j] - offset, size)
                  && Disjoint(c[i], POINTER_SIZE, c[j], POINTER_SIZE)
                  && Disjoint(c[i] - offset, size, c[j], POINTER_SIZE)
                  && Disjoint(c[i], POINTER_SIZE, c[j] - offset, size))
  {
    hide CacheSizes, Disjoint, Pow2;
    CacheSizesFit(size, k);
    var (offset, objectSize) := CacheSizes(size, Pow2(k));
    ObjectsFit(c, base, bytes, size, offset, objectSize);
    if base % Pow2(k) == 0 {
      forall i | 0 <= i < |c|
        ensures (c[i] - offset) % Pow2(k) == 0
      {
        ObjectAligned(c, base, offset, objectSize, Pow2(k), i);
      }
    }
  }

  /** Memory with the links c written up to the last, which is the one to write next. */
  ghost predicate Linked(before: seq<nat>, mem: seq<nat>, c: seq<nat>)
  {
    && |mem| == |before|
    && (forall i :: 0 <= i < |c| ==> WordAt(c[i], |mem|))
    && (forall i :: 0 <= i < |c| - 1 ==> mem[c[i] / 4] == c[i + 1])
    && (forall w :: 0 <= w < |mem| && 4 * w !in c ==> mem[w] == before[w])
  }

  /** A slab being threaded. */
  ghost predicate Threading(before: seq<nat>, mem: seq<nat>, c: seq<nat>, first: nat, step: nat)
  {
    Spaced(c, first, step) && Ascending(c) && Linked(before, mem, c)
  }

  lemma {:induction false} AscendingSnoc(c: seq<nat>, x: nat)
    requires Ascending(c) && |c| > 0 && c[|c| - 1] < x
    ensures Ascending(c + [x])
  {
  }

  lemma {:induction false} WordsDiffer(c: seq<nat>, words: nat)
    requires Ascending(c) && forall i :: 0 <= i < |c| ==> WordAt(c[i], words)
    ensures forall i, j :: 0 <= i < j < |c| ==> c[i] / 4 < c[j] / 4
  {
  }

  lemma LinkedStep(before: seq<nat>, mem: seq<nat>, c: seq<nat>, q: nat)
    requires Linked(before, mem, c) && Ascending(c) && |c| > 0 && WordAt(q, |mem|)
    ensures Linked(before, mem[c[|c| - 1] / 4 := q], c + [q])
  {
    var p := c[|c| - 1];
    var d := c + [q];
    WordsDiffer(c, |mem|);
    hide Ascending;
    var after := mem[p / 4 := q];
    forall i | 0 <= i < |d| - 1
      ensures after[d[i] / 4] == d[i + 1]
    {
      if i < |c| - 1 {
        assert c[i] / 4 < c[|c| - 1] / 4;
      }
    }
    forall w | 0 <= w < |mem| && 4 * w !in d
      ensures after[w] == before[w]
    {
      assert p == d[|c| - 1] && 4 * (p / 4) == p;
      assert 4 * w !in c;
    }
  }

  lemma ThreadingStep(before: seq<nat>, mem: seq<nat>, c: seq<nat>, first: nat, step: nat)
    requires Threading(before, mem, c, first, step) && step > 0
    requires WordAt(c[|c| - 1] + step, |mem|)
    ensures WordAt(c[|c| - 1], |mem|)
    ensures var p := c[|c| - 1];
            Threading(before, mem[p / 4 := p + step], c + [p + step], first, step)
  {
    assert WordAt(c[|c| - 1], |mem|);
    hide Ascending, Linked, WordAt;
    LinkedStep(before, mem, c, c[|c| - 1] + step);
    AscendingSnoc(c, c[|c| - 1] + step);
    SpacedSnoc(c, first, step);
  }

  lemma {:induction false} SpacedSnoc(c: seq<nat>, first: nat, step: nat)
    requires Spaced(c, first, step)
    ensures Spaced(c + [c[|c| - 1] + step], first, step)
  {
  }

  lemma ThreadingStart(mem: seq<nat>, first: nat, step: nat)
    requires WordAt(first, |mem|)
    ensures Threading(mem, mem, [first], first, step)
  {
  }

  lemma ThreadingThreaded(before: seq<nat>, mem: seq<nat>, c: seq<nat>, first: nat, step: nat, limit: nat)
    requires Threading(before, mem, c, first, step)
    requires c != [] && c[|c| - 1] < limit <= c[|c| - 1] + step
    ensures Threaded(c, first, step, limit) && c[0] == first
  {
  }

  lemma ThreadingEnd(before: seq<nat>, mem: seq<nat>, c: seq<nat>, first: nat, step: nat)
    requires Threading(before, mem, c, first, step)
    ensures WordAt(c[|c| - 1], |mem|)
    ensures var after := mem[c[|c| - 1] / 4 := 0];
            Chain(after, c) && forall w :: 0 <= w < |mem| && 4 * w !in c ==> after[w] == before[w]
  {
    var p := c[|c| - 1];
    WordsDiffer(c, |mem|);
    hide Spaced;
    assert p in c && 4 * (p / 4) == p;
  }

  /** The loop of `new_slab`. */
  method Thread(mem: array<nat>, first: nat, limit: nat, objectSize: nat) returns (objNum: nat, ghost c: seq<nat>)
    requires first > 0 && first % 4 == 0 && objectSize % 4 == 0 && objectSize > 0
    requires first < limit <= 4 * mem.Length
    modifies mem
    ensures Threaded(c, first, objectSize, limit) && c[0] == first
    ensures Chain(mem[..], c) && objNum == |c|
    ensures forall w :: 0 <= w < mem.Length && 4 * w !in c ==> mem[w] == old(mem[w])
  {
    hide Threading, Chain;
    var p := first;
    objNum := 0;
    c := [p];
    ThreadingStart(mem[..], first, objectSize);
    while p + objectSize < limit
      invariant first <= p < limit && p % 4 == 0 && objNum == |c| - 1 && c[|c| - 1] == p
      invariant Threading(old(mem[..]), mem[..], c, first, objectSize)
      decreases limit - p
    {
      ThreadingStep(old(mem[..]), mem[..], c, first, objectSize);
      mem[p / 4] := p + objectSize;
      p := mem[p / 4];
      c := c + [p];
      objNum := objNum + 1;
    }
    ThreadingEnd(old(mem[..]), mem[..], c, first, objectSize);
    ThreadingThreaded(old(mem[..]), mem[..], c, first, objectSize, limit);
    mem[p / 4] := 0;
    objNum := objNum + 1;
  }

  /** `new_slab`: thread the links of a fresh slab of 2^cacheOrder pages at `base`. */
  method NewSlab(mem: array<nat>, base: nat, cacheOrder: nat, offset: nat, objectSize: nat)
    returns (freelist: nat, objNum: nat, ghost c: seq<nat>)
    requires base > 0 && base % 4 == 0 && offset % 4 == 0 && objectSize % 4 == 0 && objectSize > 0
    requires offset < Pow2(cacheOrder) * 4096 && base + Pow2(cacheOrder) * 4096 <= 4 * mem.Length
    modifies mem
    ensures Threaded(c, base + offset, objectSize, base + Pow2(cacheOrder) * 4096)
    ensures Chain(mem[..], c) && freelist == c[0] && objNum == |c|
    ensures objNum == (Pow2(cacheOrder) * 4096 - offset + objectSize - 1) / objectSize
    ensures forall w :: 0 <= w < mem.Length && 4 * w !in c ==> mem[w] == old(mem[w])
  {
    hide Chain, Threaded, Pow2;
    var limit := base + Pow2(cacheOrder) * 4096;
    objNum, c := Thread(mem, base + offset, limit, objectSize);
    freelist := base + offset;
    ThreadedCount(c, base + offset, objectSize, limit);
  }

  // ----- giving an object back -----

  /** Insertion into a list, before the first larger element. */
  function Insert(s: seq<nat>, l: nat): (r: seq<nat>)
    ensures |r| == |s| + 1
  {
    if s == [] || l < s[0] then [l] + s else [s[0]] + Insert(s[1..], l)
  }

  /** Where an insertion puts its element. */
  lemma {:induction false} InsertAt(s: seq<nat>, l: nat, k: nat)
    requires k <= |s| && (forall i :: 0 <= i < k ==> s[i] <= l) && (k < |s| ==> l < s[k])
    ensures Insert(s, l) == s[..k] + [l] + s[k..]
  {
    if k > 0 {
      InsertAt(s[1..], l, k - 1);
      SkipFirst(s, l, k);
    } else {
      assert s[..0] + [l] + s[0..] == [l] + s;
    }
  }

  lemma {:induction false} SkipFirst(s: seq<nat>, l: nat, k: nat)
    requires 0 < k <= |s|
    ensures [s[0]] + (s[1..][..k - 1] + [l] + s[1..][k - 1..]) == s[..k] + [l] + s[k..]
  {
  }

  /** An insertion adds exactly its element. */
  lemma {:induction false} InsertAdds(s: seq<nat>, l: nat, x: nat)
    ensures x in Insert(s, l) <==> x in s || x == l
  {
    if s != [] && s[0] <= l {
      InsertAdds(s[1..], l, x);
      assert x in s <==> x == s[0] || x in s[1..];
      assert Insert(s, l) == [s[0]] + Insert(s[1..], l);
    } else {
      assert Insert(s, l) == [l] + s;
    }
  }

  lemma {:induction false} AscendingCons(x: nat, s: seq<nat>)
    requires Ascending(s) && forall y :: y in s ==> x < y
    ensures Ascending([x] + s)
  {
    var t := [x] + s;
    forall i, j | 0 <= i < j < |t|
      ensures t[i] < t[j]
    {
      assert t[j] == s[j - 1] && s[j - 1] in s;
      if i > 0 {
        assert t[i] == s[i - 1];
      }
    }
  }

  /** An insertion into a list in order keeps it in order. */
  lemma {:induction false} InsertAscending(s: seq<nat>, l: nat)
    requires Ascending(s) && l !in s
    ensures Ascending(Insert(s, l))
  {
    if s != [] && s[0] <= l {
      InsertAscending(s[1..], l);
      forall y | y in Insert(s[1..], l)
        ensures s[0] < y
      {
        InsertAdds(s[1..], l, y);
      }
      AscendingCons(s[0], Insert(s[1..], l));
    } else {
      assert s != [] ==> l < s[0];
      assert forall y :: y in s ==> l < y;
      AscendingCons(l, s);
    }
  }

  lemma {:induction false} SplicedAt(c: seq<nat>, h: nat, l: nat, i: nat)
    requires h < |c| && i <= |c|
    ensures (c[..h + 1] + [l] + c[h + 1..])[i] == if i <= h then c[i] else if i == h + 1 then l else c[i - 1]
  {
  }

  lemma ChainWords(mem: seq<nat>, c: seq<nat>, l: nat, i: nat, j: nat)
    requires Chain(mem, c) && WordAt(l, |mem|) && l !in c && i < |c| && j < |c|
    ensures c[i] / 4 != l / 4 && (i != j ==> c[i] / 4 != c[j] / 4) && c[i] / 4 < |mem|
  {
    assert 4 * (c[i] / 4) == c[i] && 4 * (c[j] / 4) == c[j] && 4 * (l / 4) == l;
  }

  lemma SplicedDistinct(mem: seq<nat>, c: seq<nat>, h: nat, l: nat, i: nat, j: nat)
    requires Chain(mem, c) && l !in c && h < |c| && i < j <= |c|
    ensures (c[..h + 1] + [l] + c[h + 1..])[i] != (c[..h + 1] + [l] + c[h + 1..])[j]
  {
    SplicedAt(c, h, l, i);
    SplicedAt(c, h, l, j);
  }

  lemma ChainWord(mem: seq<nat>, c: seq<nat>, i: nat)
    requires Chain(mem, c) && i < |c|
    ensures WordAt(c[i], |mem|) && mem[c[i] / 4] == Next(c, i)
  {
  }

  lemma SplicedLink(before: seq<nat>, after: seq<nat>, c: seq<nat>, h: nat, l: nat, i: nat)
    requires Chain(before, c) && h < |c| && |after| == |before| && WordAt(l, |before|) && l !in c
    requires WordAt(c[h], |before|) && after[c[h] / 4] == l && after[l / 4] == before[c[h] / 4]
    requires forall w :: 0 <= w < |before| && w != c[h] / 4 && w != l / 4 ==> after[w] == before[w]
    requires i <= |c|
    ensures var d := c[..h + 1] + [l] + c[h + 1..];
            WordAt(d[i], |after|) && after[d[i] / 4] == Next(d, i)
  {
    hide Chain, WordAt;
    SplicedAt(c, h, l, i);
    if i < |c| {
      SplicedAt(c, h, l, i + 1);
    }
    ChainWord(before, c, h);
    ChainWords(before, c, l, h, h);
    if i < h {
      ChainWord(before, c, i);
      ChainWords(before, c, l, i, h);
    } else if i > h + 1 {
      ChainWord(before, c, i - 1);
      ChainWords(before, c, l, i - 1, h);
    }
  }

  /** A chain with l spliced in after position h. */
  lemma Splice(before: seq<nat>, after: seq<nat>, c: seq<nat>, h: nat, l: nat)
    requires Chain(before, c) && h < |c| && |after| == |before| && WordAt(l, |before|) && l !in c
    requires WordAt(c[h], |before|) && after == before[c[h] / 4 := l][l / 4 := before[c[h] / 4]]
    ensures Chain(after, c[..h + 1] + [l] + c[h + 1..])
  {
    var d := c[..h + 1] + [l] + c[h + 1..];
    ChainWords(before, c, l, h, h);
    forall i | 0 <= i < |d|
      ensures WordAt(d[i], |after|) && after[d[i] / 4] == Next(d, i)
    {
      SplicedLink(before, after, c, h, l, i);
    }
    forall i, j | 0 <= i < j < |d|
      ensures d[i] != d[j]
    {
      SplicedDistinct(before, c, h, l, i, j);
    }
  }

  /** A page's chain once the object with link l is given back. */
  function FreedChain(chain: seq<nat>, l: nat): seq<nat>
  {
    if chain == [] then [l] else [chain[0]] + Insert(chain[1..], l)
  }

  /** A page's chain once objects are given back one after another. */
  function FreedAll(chain: seq<nat>, freed: seq<nat>): seq<nat>
    decreases |freed|
  {
    if freed == [] then chain else FreedChain(FreedAll(chain, freed[..|freed| - 1]), freed[|freed| - 1])
  }

  /** The links of some objects. */
  function Links(objects: seq<nat>, offset: nat): (r: seq<nat>)
    ensures |r| == |objects| && forall i :: 0 <= i < |r| ==> r[i] == objects[i] + offset
  {
    seq(|objects|, i requires 0 <= i < |objects| => objects[i] + offset)
  }

  lemma FreedNone(chain: seq<nat>, freed: seq<nat>)
    ensures FreedAll(chain, freed[..0]) == chain
  {
  }

  lemma FreedMember(chain: seq<nat>, l: nat, x: nat)
    ensures x in FreedChain(chain, l) <==> x in chain || x == l
  {
    if chain != [] {
      InsertAdds(chain[1..], l, x);
      assert x in chain <==> x == chain[0] || x in chain[1..];
    }
  }

  lemma FreedStep(chain: seq<nat>, freed: seq<nat>, i: nat)
    requires i < |freed|
    ensures FreedAll(chain, freed[..i + 1]) == FreedChain(FreedAll(chain, freed[..i]), freed[i])
  {
    assert freed[..i + 1][..i] == freed[..i];
  }

  lemma InsertAfterHead(c: seq<nat>, l: nat, h: nat)
    requires h < |c| && (forall i :: 0 < i <= h ==> c[i] <= l) && (h + 1 < |c| ==> l < c[h + 1])
    ensures Insert(c[1..], l) == c[1..h + 1] + [l] + c[h + 1..]
  {
    InsertAt(c[1..], l, h);
    assert c[1..][..h] == c[1..h + 1] && c[1..][h..] == c[h + 1..];
  }

  /** Freeing into an empty page any objects, each once: the first stays at the head, the rest
      follow in address order, and no other link is on the chain. */
  lemma {:induction false} FreedAllChain(freed: seq<nat>)
    requires freed != [] && forall i, j :: 0 <= i < j < |freed| ==> freed[i] != freed[j]
    ensures |FreedAll([], freed)| == |freed| && FreedAll([], freed)[0] == freed[0]
    ensures Ascending(FreedAll([], freed)[1..])
    ensures forall x :: x in FreedAll([], freed)[1..] <==> x in freed[1..]
  {
    var n := |freed| - 1;
    var before := FreedAll([], freed[..n]);
    if n > 0 {
      FreedAllChain(freed[..n]);
      var l := freed[n];
      assert before != [];
      assert FreedAll([], freed) == [before[0]] + Insert(before[1..], l);
      assert freed[1..] == freed[..n][1..] + [l];
      InsertAscending(before[1..], l);
      forall x
        ensures x in Insert(before[1..], l) <==> x in freed[1..]
      {
        InsertAdds(before[1..], l, x);
      }
    } else {
      assert freed[..n] == [];
    }
  }

  lemma NoMembers(t: seq<nat>)
    ensures t == [] || t[0] in t
  {
  }

  lemma {:induction false} AscendingUnique(s: seq<nat>, t: seq<nat>)
    requires Ascending(s) && Ascending(t) && forall x :: x in s <==> x in t
    ensures s == t
  {
    if s == [] {
      NoMembers(t);
    } else {
      assert s[0] in t;
      NoMembers(t);
      assert t[0] in s;
      var i :| 0 <= i < |t| && t[i] == s[0];
      var j :| 0 <= j < |s| && s[j] == t[0];
      assert s[0] == t[0];
      forall x
        ensures x in s[1..] <==> x in t[1..]
      {
        TailMember(s, x);
        TailMember(t, x);
      }
      AscendingUnique(s[1..], t[1..]);
    }
  }

  lemma {:induction false} TailMember(s: seq<nat>, x: nat)
    requires Ascending(s) && s != []
    ensures x in s[1..] <==> x in s && x != s[0]
  {
  }

  /** The chain depends only on which object was freed first and on which others were freed. */
  lemma FreeOrderIrrelevant(s: seq<nat>, t: seq<nat>)
    requires s != [] && t != [] && s[0] == t[0] && (forall x :: x in s <==> x in t)
    requires forall i, j :: 0 <= i < j < |s| ==> s[i] != s[j]
    requires forall i, j :: 0 <= i < j < |t| ==> t[i] != t[j]
    ensures FreedAll([], s) == FreedAll([], t)
  {
    FreedAllChain(s);
    FreedAllChain(t);
    var a, b := FreedAll([], s), FreedAll([], t);
    forall x
      ensures x in a[1..] <==> x in b[1..]
    {
      assert x in s[1..] <==> x in s && x != s[0];
      assert x in t[1..] <==> x in t && x != t[0];
    }
    AscendingUnique(a[1..], b[1..]);
    assert a == [a[0]] + a[1..] && b == [b[0]] + b[1..];
  }

  lemma {:induction false} DistinctShort(s: seq<nat>, t: seq<nat>)
    requires forall i, j :: 0 <= i < j < |s| ==> s[i] != s[j]
    requires forall i :: 0 <= i < |s| ==> s[i] in t
    ensures |s| <= |t|
  {
    if s != [] {
      var n := |s| - 1;
      var k :| 0 <= k < |t| && t[k] == s[n];
      var u := t[..k] + t[k + 1..];
      forall i | 0 <= i < n
        ensures s[..n][i] in u
      {
        var m :| 0 <= m < |t| && t[m] == s[i];
        assert u[if m < k then m else m - 1] == s[i];
      }
      DistinctShort(s[..n], u);
    }
  }

  /** The links of a slab's objects, in a slab that lies in memory. */
  ghost predicate Layout(links: seq<nat>, base: nat, bytes: nat, offset: nat, objectSize: nat, words: nat)
  {
    && base > 0 && base % 4 == 0 && bytes % 4 == 0 && base + bytes <= 4 * words
    && offset < objectSize && offset % 4 == 0 && objectSize % 4 == 0
    && Threaded(links, base + offset, objectSize, base + bytes)
  }

  lemma LinkIsWord(links: seq<nat>, base: nat, bytes: nat, offset: nat, objectSize: nat, words: nat, l: nat)
    requires Layout(links, base, bytes, offset, objectSize, words) && l in links
    ensures WordAt(l, words) && base + offset <= l
  {
    var j :| 0 <= j < |links| && links[j] == l;
    LinkAligned(links, base + offset, objectSize, j);
    LinkInSlab(links, base + offset, objectSize, base + bytes, j);
  }

  /** Comparing a link with an object's address orders it against the object's own link. */
  lemma LinkAgainstObject(links: seq<nat>, base: nat, bytes: nat, offset: nat, objectSize: nat, words: nat,
                          x: nat, l: nat)
    requires Layout(links, base, bytes, offset, objectSize, words) && x in links && l in links && x != l
    ensures l >= offset && (x > l - offset <==> x > l)
  {
    var i :| 0 <= i < |links| && links[i] == x;
    var j :| 0 <= j < |links| && links[j] == l;
    LinkInSlab(links, base + offset, objectSize, base + bytes, j);
    if i < j {
      ThreadedApart(links, base + offset, objectSize, base + bytes, i, j);
    } else {
      ThreadedApart(links, base + offset, objectSize, base + bytes, j, i);
    }
  }

  /** The chain of a page: some of the links, in address order after the first. */
  ghost predicate FreeChain(mem: seq<nat>, chain: seq<nat>, links: seq<nat>)
  {
    && Chain(mem, chain)
    && (chain != [] ==> Ascending(chain[1..]))
    && (forall i :: 0 <= i < |chain| ==> chain[i] in links)
  }

  /** Splicing a freed link into a page's chain where the search stops. */
  lemma FreeChainSplice(before: seq<nat>, after: seq<nat>, c: seq<nat>, links: seq<nat>, h: nat, l: nat)
    requires FreeChain(before, c, links) && h < |c| && |after| == |before|
    requires WordAt(l, |before|) && WordAt(c[h], |before|) && l !in c && l in links
    requires after == before[c[h] / 4 := l][l / 4 := before[c[h] / 4]]
    requires Insert(c[1..], l) == c[1..h + 1] + [l] + c[h + 1..]
    ensures FreedChain(c, l) == c[..h + 1] + [l] + c[h + 1..]
    ensures FreeChain(after, FreedChain(c, l), links)
    ensures forall w :: 0 <= w < |before| && 4 * w !in FreedChain(c, l) ==> after[w] == before[w]
  {
    Splice(before, after, c, h, l);
    var d := c[..h + 1] + [l] + c[h + 1..];
    SplicedHead(c, h, l);
    InsertAscending(c[1..], l);
    hide Chain, Ascending, Insert;
    forall i | 0 <= i < |d|
      ensures d[i] in links
    {
      SplicedAt(c, h, l, i);
    }
    SplicedFrame(before, after, c, h, l);
  }

  lemma {:induction false} SplicedHead(c: seq<nat>, h: nat, l: nat)
    requires h < |c|
    ensures var d := c[..h + 1] + [l] + c[h + 1..];
            d == [c[0]] + (c[1..h + 1] + [l] + c[h + 1..]) && d[1..] == c[1..h + 1] + [l] + c[h + 1..]
  {
  }

  lemma SplicedFrame(before: seq<nat>, after: seq<nat>, c: seq<nat>, h: nat, l: nat)
    requires Chain(before, c) && h < |c| && |after| == |before| && WordAt(l, |before|)
    requires WordAt(c[h], |before|) && after == before[c[h] / 4 := l][l / 4 := before[c[h] / 4]]
    ensures forall w :: 0 <= w < |before| && 4 * w !in c[..h + 1] + [l] + c[h + 1..] ==> after[w] == before[w]
  {
    SplicedAt(c, h, l, h);
    SplicedAt(c, h, l, h + 1);
    var d := c[..h + 1] + [l] + c[h + 1..];
    hide Chain;
    assert 4 * (c[h] / 4) == d[h] && 4 * (l / 4) == d[h + 1];
  }

  /** A chain of one link. */
  lemma FreeChainOne(mem: seq<nat>, links: seq<nat>, l: nat)
    requires WordAt(l, |mem|) && l in links && mem[l / 4] == 0
    ensures FreeChain(mem, FreedChain([], l), links)
  {
  }

  /** While an object is off the chain, the chain is shorter than the slab. */
  lemma ChainShort(mem: seq<nat>, chain: seq<nat>, links: seq<nat>, l: nat)
    requires FreeChain(mem, chain, links) && l in links && l !in chain
    ensures |chain| < |links|
  {
    DistinctShort(chain + [l], links);
  }

  /** The page of a slab whose objects are given back one by one. */
  class SlabPage {
    const mem: array<nat>
    const base: nat
    const bytes: nat
    const offset: nat
    const objectSize: nat
    var freeList: nat
    var inuse: nat
    var objects: nat
    /** The links on the page's chain, and the links of all its objects. */
    ghost var chain: seq<nat>
    ghost const links: seq<nat>

    ghost predicate Valid()
      reads this, mem
    {
      && Layout(links, base, bytes, offset, objectSize, mem.Length)
      && FreeChain(mem[..], chain, links) && freeList == (if chain == [] then 0 else chain[0])
      && objects == |links| && inuse + |chain| == objects
    }

    /** A page all of whose objects are in use. */
    constructor (mem: array<nat>, base: nat, bytes: nat, offset: nat, objectSize: nat, objects: nat,
                 ghost links: seq<nat>)
      requires Layout(links, base, bytes, offset, objectSize, mem.Length) && objects == |links|
      ensures Valid() && chain == [] && this.mem == mem && this.links == links && this.offset == offset
      ensures inuse == objects == this.objects
    {
      this.mem, this.base, this.bytes, this.offset, this.objectSize := mem, base, bytes, offset, objectSize;
      this.links := links;
      freeList, inuse, this.objects, chain := 0, objects, objects, [];
    }

    /** The search of `kmem_cache_free`: the last link of the chain, after the first, that the
        freed object's link must follow. */
    method Search(objp: nat) returns (head: nat, ghost h: nat)
      requires Valid() && chain != [] && objp + offset in links && objp + offset !in chain
      ensures h < |chain| && head == chain[h]
      ensures Insert(chain[1..], objp + offset) == chain[1..h + 1] + [objp + offset] + chain[h + 1..]
    {
      hide Insert, Layout, FreeChain, WordAt;
      ghost var l := objp + offset;
      head, h := freeList, 0;
      AtLink(0, l);
      while mem[head / 4] != 0
        invariant h < |chain| && head == chain[h] && head / 4 < mem.Length
        invariant mem[head / 4] == 0 <==> h + 1 == |chain|
        invariant mem[head / 4] == Next(chain, h)
        invariant forall i :: 0 < i <= h ==> chain[i] <= l
        decreases |chain| - h
      {
        AtLink(h + 1, l);
        if mem[head / 4] > objp {
          break;
        }
        head := mem[head / 4];
        h := h + 1;
      }
      InsertAfterHead(chain, l, h);
    }

    lemma AtLink(h: nat, l: nat)
      requires Valid() && h < |chain| && l in links && l !in chain
      ensures l >= offset && chain[h] / 4 < mem.Length && mem[chain[h] / 4] == Next(chain, h)
      ensures mem[chain[h] / 4] == 0 <==> h + 1 == |chain|
      ensures chain[h] > l - offset <==> chain[h] > l
      ensures chain[h] != l
    {
      hide Layout;
      ChainWord(mem[..], chain, h);
      if h + 1 < |chain| {
        ChainWord(mem[..], chain, h + 1);
      }
      LinkAgainstObject(links, base, bytes, offset, objectSize, mem.Length, chain[h], l);
    }

    /** `kmem_cache_free` into a page no CPU is allocating from: exactly the freed object joins
        the chain, which stays NULL-terminated and, after its first link, in address order. */
    method Free(objp: nat)
      requires Valid() && objp + offset in links && objp + offset !in chain
      modifies mem, this`freeList, this`inuse, this`chain
      ensures Valid() && inuse == old(inuse) - 1
      ensures chain == FreedChain(old(chain), objp + offset)
      ensures forall w :: 0 <= w < mem.Length && 4 * w !in chain ==> mem[w] == old(mem[w])
    {
      hide Insert, Layout, FreeChain;
      ghost var l := objp + offset;
      LinkIsWord(links, base, bytes, offset, objectSize, mem.Length, l);
      ChainShort(mem[..], chain, links, l);
      if freeList == 0 {
        FreeListNull();
        freeList := objp + offset;
        mem[(objp + offset) / 4] := 0;
        inuse := inuse - 1;
        FreeChainOne(mem[..], links, l);
        chain := [l];
      } else {
        var head, h := Search(objp);
        HeadIsWord(h);
        var next := mem[head / 4];
        mem[head / 4] := objp + offset;
        head := mem[head / 4];
        if head != 0 {
          mem[head / 4] := next;
        }
        inuse := inuse - 1;
        FreeChainSplice(old(mem[..]), mem[..], chain, links, h, l);
        chain := FreedChain(chain, l);
      }
    }

    /** Giving back objects one after another, each once: the chain in memory is the one
        `FreedAll` describes. */
    method FreeAll(objs: seq<nat>)
      requires Valid() && forall i :: 0 <= i < |objs| ==> objs[i] + offset in links
      requires forall i :: 0 <= i < |objs| ==> objs[i] + offset !in chain
      requires forall i, j :: 0 <= i < j < |objs| ==> objs[i] != objs[j]
      modifies mem, this`freeList, this`inuse, this`chain
      ensures Valid() && inuse == old(inuse) - |objs|
      ensures chain == FreedAll(old(chain), Links(objs, offset))
    {
      hide Layout, FreeChain, FreedChain, FreedAll;
      ghost var freed := Links(objs, offset);
      FreedNone(chain, freed);
      for i := 0 to |objs|
        invariant Valid() && inuse == old(inuse) - i
        invariant chain == FreedAll(old(chain), freed[..i])
        invariant forall j :: i <= j < |objs| ==> objs[j] + offset !in chain
      {
        ghost var before := chain;
        Free(objs[i]);
        FreedStep(old(chain), freed, i);
        forall j | i < j < |objs|
          ensures objs[j] + offset !in chain
        {
          FreedMember(before, objs[i] + offset, objs[j] + offset);
        }
      }
      assert freed[..|objs|] == freed;
    }

    lemma FreeListNull()
      requires Valid() && freeList == 0
      ensures chain == []
    {
      if chain != [] {
        ChainWord(mem[..], chain, 0);
      }
    }

    lemma HeadIsWord(h: nat)
      requires Valid() && h < |chain|
      ensures WordAt(chain[h], mem.Length)
    {
      ChainWord(mem[..], chain, h);
    }
  }
}
