/** Aligned blocks of 2^o page indices, and the decomposition of a set of pages
    into maximal blocks that the buddy allocator's free lists stand for. */
module Blocks {
  import opened Bits

  const MAX_ORDER: nat := 11

  /** x and y lie in the same aligned block of order o. */
  predicate Together(x: nat, y: nat, o: nat)
  {
    Shr(x, o) == Shr(y, o)
  }

  /** b is the first index of an aligned block of order o. */
  predicate Aligned(b: nat, o: nat)
  {
    o == 0 || (Aligned(b, o - 1) && Shr(b, o - 1) % 2 == 0)
  }

  /** The order-o block around x lies wholly in s. */
  ghost predicate Whole(s: set<nat>, x: nat, o: nat)
  {
    forall z: nat :: Together(z, x, o) ==> z in s
  }

  /** (b, o) is a block of s that cannot be merged with its neighbour inside s. */
  ghost predicate Maximal(s: set<nat>, b: nat, o: nat)
  {
    && o < MAX_ORDER
    && Aligned(b, o)
    && Whole(s, b, o)
    && (o == MAX_ORDER - 1 || !Whole(s, b, o + 1))
  }

  /** Index of the other half of the enclosing block, as the allocator computes it. */
  function Buddy(q: nat, o: nat): nat
  {
    Xor(q, Pow2(o))
  }

  // ----- nesting -----

  lemma Coarser(x: nat, y: nat, o: nat, p: nat)
    requires o <= p && Together(x, y, o)
    ensures Together(x, y, p)
  {
    if o >= p {
    } else {
      Coarser(x, y, o, p - 1);
    }
  }

  lemma AlignedFiner(b: nat, o: nat, p: nat)
    requires o <= p && Aligned(b, p)
    ensures Aligned(b, o)
  {
    if o >= p {
    } else {
      AlignedFiner(b, o, p - 1);
    }
  }

  /** An aligned index is its block number times the block size. */
  lemma {:induction false} AlignedIs(b: nat, o: nat)
    ensures Aligned(b, o) <==> b == Pow2(o) * Shr(b, o)
  {
    if o == 0 {
    } else {
      AlignedIs(b, o - 1);
      ShrDiv(b, o - 1);
      EvenMultiple(b, Pow2(o - 1));
    }
  }

  lemma {:induction false} EvenMultiple(b: nat, h: nat)
    requires h > 0
    ensures b == h * (b / h) && b / h % 2 == 0 <==> b == 2 * h * (b / h / 2)
  {
    var k := b / h;
    MulSign(h, k / 2);
    MulAdd(h, 2 * (k / 2), k % 2);
    assert b >= h * k;
  }

  /** Alignment in its usual form. */
  lemma AlignedMod(b: nat, o: nat)
    ensures Aligned(b, o) <==> b % Pow2(o) == 0
  {
    AlignedIs(b, o);
    ShrDiv(b, o);
  }

  lemma AlignedUnique(a: nat, b: nat, o: nat)
    requires Aligned(a, o) && Aligned(b, o) && Together(a, b, o)
    ensures a == b
  {
    AlignedIs(a, o);
    AlignedIs(b, o);
  }

  /** The block of an aligned index is the interval that starts there. */
  lemma TogetherInterval(x: nat, b: nat, o: nat)
    requires Aligned(b, o)
    ensures Together(x, b, o) <==> b <= x < b + Pow2(o)
  {
    AlignedIs(b, o);
    ShrDiv(x, o);
    SameMultiple(x, Pow2(o), Shr(b, o));
  }

  lemma {:induction false} SameMultiple(x: nat, p: nat, k: nat)
    requires p > 0
    ensures x / p == k <==> p * k <= x < p * k + p
  {
    if p * k <= x < p * k + p {
      DivUnique(x, p, k, x - p * k);
    }
    assert x == p * (x / p) + x % p;
  }

  // ----- buddies -----

  /** Number of the neighbouring block. */
  function Flip(k: nat): nat
  {
    if k % 2 == 0 then k + 1 else k - 1
  }

  lemma BuddyValue(q: nat, o: nat)
    requires Aligned(q, o)
    ensures Buddy(q, o) == Pow2(o) * Flip(Shr(q, o))
    ensures And(q, Buddy(q, o)) == if Buddy(q, o) < q then Buddy(q, o) else q
  {
    var k, p := Shr(q, o), Pow2(o);
    AlignedIs(q, o);
    MulAdd(p, k, 1);
    if k % 2 == 0 {
      assert Xor(q, p) == q + p by { XorBit(q, o); }
      assert And(q, Xor(q, p)) == q by { AndXorBit(q, o); }
    } else {
      assert Xor(q, p) == q - p by { XorBit(q, o); }
      assert And(q, Xor(q, p)) == q - p by { AndXorBit(q, o); }
    }
  }

  lemma BuddyFacts(q: nat, o: nat)
    requires Aligned(q, o)
    ensures Aligned(Buddy(q, o), o) && Shr(Buddy(q, o), o) == Flip(Shr(q, o))
    ensures Together(q, Buddy(q, o), o + 1) && !Together(q, Buddy(q, o), o)
    ensures And(q, Buddy(q, o)) == if Buddy(q, o) < q then Buddy(q, o) else q
    ensures Aligned(And(q, Buddy(q, o)), o + 1)
    ensures Together(q, And(q, Buddy(q, o)), o + 1)
    ensures forall z: nat :: Together(z, q, o + 1) ==> Together(z, q, o) || Together(z, Buddy(q, o), o)
  {
    var y, k := Buddy(q, o), Shr(q, o);
    assert Aligned(y, o) && Shr(y, o) == Flip(k) && And(q, y) == if y < q then y else q by {
      BuddyValue(q, o);
      ShrMultiple(Flip(k), o);
    }
    assert y < q <==> k % 2 == 1 by {
      BuddyOrder(q, o);
    }
  }

  lemma BuddyOrder(q: nat, o: nat)
    requires Aligned(q, o)
    ensures Buddy(q, o) < q <==> Shr(q, o) % 2 == 1
  {
    BuddyValue(q, o);
    AlignedIs(q, o);
    MulAdd(Pow2(o), Shr(q, o), 1);
  }

  lemma ShrMultiple(k: nat, o: nat)
    ensures Shr(Pow2(o) * k, o) == k && Aligned(Pow2(o) * k, o)
  {
    ShrDiv(Pow2(o) * k, o);
    DivUnique(Pow2(o) * k, Pow2(o), k, 0);
    AlignedIs(Pow2(o) * k, o);
  }

  lemma WholeCoarse(s: set<nat>, q: nat, o: nat)
    requires Aligned(q, o)
    ensures Whole(s, q, o + 1) <==> Whole(s, q, o) && Whole(s, Buddy(q, o), o)
  {
    BuddyFacts(q, o);
    var y := Buddy(q, o);
    if Whole(s, q, o + 1) {
      forall z: nat | Together(z, q, o)
        ensures z in s
      {
        Coarser(z, q, o, o + 1);
      }
      forall z: nat | Together(z, y, o)
        ensures z in s
      {
        Coarser(z, y, o, o + 1);
        assert Together(z, q, o + 1);
      }
    }
  }

  lemma WholeFiner(s: set<nat>, x: nat, y: nat, o: nat, p: nat)
    requires o <= p && Together(x, y, p) && Whole(s, x, p)
    ensures Whole(s, y, o)
  {
    forall z: nat | Together(z, y, o)
      ensures z in s
    {
      Coarser(z, y, o, p);
      assert Together(z, x, p);
    }
  }

  // ----- the decomposition is determined by the set -----

  /** Two maximal blocks that share an index are the same block. */
  lemma MaximalUnique(s: set<nat>, a: nat, o: nat, b: nat, p: nat, x: nat)
    requires Maximal(s, a, o) && Maximal(s, b, p)
    requires Together(x, a, o) && Together(x, b, p)
    ensures a == b && o == p
  {
    if o == p {
      AlignedUnique(a, b, o);
    } else if o < p {
      InsideWhole(s, a, o, b, p, x);
    } else {
      InsideWhole(s, b, p, a, o, x);
    }
  }

  lemma InsideWhole(s: set<nat>, a: nat, o: nat, b: nat, p: nat, x: nat)
    requires Whole(s, b, p) && o < p
    requires Together(x, a, o) && Together(x, b, p)
    ensures Whole(s, a, o + 1)
  {
    Coarser(x, a, o, p);
    WholeFiner(s, b, a, o + 1, p);
  }

  /** Every index of s lies in a maximal block. */
  lemma {:induction false} MaximalCovers(s: set<nat>, x: nat, b: nat, o: nat) returns (a: nat, p: nat)
    requires o < MAX_ORDER && Aligned(b, o) && Whole(s, b, o) && Together(x, b, o)
    ensures Maximal(s, a, p) && Together(x, a, p) && o <= p
    decreases MAX_ORDER - o
  {
    if o == MAX_ORDER - 1 || !Whole(s, b, o + 1) {
      a, p := b, o;
    } else {
      BuddyFacts(b, o);
      Coarser(x, b, o, o + 1);
      a, p := MaximalCovers(s, x, And(b, Buddy(b, o)), o + 1);
    }
  }
}
