/** Words as sets of bits. */
module BitSets {
  import opened Bits

  predicate Bit(x: nat, k: nat)
  {
    if k == 0 then x % 2 == 1 else Bit(x / 2, k - 1)
  }

  lemma {:induction false} BitZero(k: nat)
    ensures !Bit(0, k)
  {
    if k == 0 {
    } else {
      BitZero(k - 1);
    }
  }

  lemma {:induction false} BitAnd(x: nat, y: nat, k: nat)
    ensures Bit(And(x, y), k) <==> Bit(x, k) && Bit(y, k)
  {
    if x == 0 || y == 0 {
      BitZero(k);
    } else if k > 0 {
      BitAnd(x / 2, y / 2, k - 1);
    }
  }

  lemma {:induction false} BitOr(x: nat, y: nat, k: nat)
    ensures Bit(Or(x, y), k) <==> Bit(x, k) || Bit(y, k)
  {
    if x == 0 || y == 0 {
      BitZero(k);
    } else if k > 0 {
      assert Or(x, y) / 2 == Or(x / 2, y / 2);
      BitOr(x / 2, y / 2, k - 1);
    } else {
      assert Or(x, y) % 2 == 1 <==> x % 2 == 1 || y % 2 == 1;
    }
  }

  lemma {:induction false} NotHalf(p: nat, x: nat)
    requires x < 2 * p
    ensures (2 * p - 1 - x) / 2 == p - 1 - x / 2 && ((2 * p - 1 - x) % 2 == 1 <==> x % 2 == 0)
  {
  }

  lemma {:induction false} BitNot(x: nat, w: nat, k: nat)
    requires x < Pow2(w)
    ensures Bit(Not(x, w), k) <==> k < w && !Bit(x, k)
  {
    if w == 0 {
      BitZero(k);
    } else if k > 0 {
      NotHalf(Pow2(w - 1), x);
      BitNot(x / 2, w - 1, k - 1);
    } else {
      NotHalf(Pow2(w - 1), x);
    }
  }

  lemma {:induction false} BitPow2(n: nat, k: nat)
    ensures Bit(Pow2(n), k) <==> n == k
  {
    if n == 0 && k > 0 {
      BitZero(k - 1);
    } else if k > 0 {
      BitPow2(n - 1, k - 1);
    }
  }

  /** The test `x & (1 << k)`. */
  lemma {:induction false} AndPow2(x: nat, k: nat)
    ensures And(x, Pow2(k)) != 0 <==> Bit(x, k)
  {
    if x == 0 {
      BitZero(k);
    } else if k > 0 {
      AndPow2(x / 2, k - 1);
      AndEven(x, Pow2(k - 1));
    } else {
      assert And(x / 2, 0) == 0;
    }
  }

  lemma {:induction false} AndLess(x: nat, y: nat)
    ensures And(x, y) <= x
  {
    if x == 0 || y == 0 {
    } else {
      AndLess(x / 2, y / 2);
    }
  }

  lemma {:induction false} OrLess(x: nat, y: nat, w: nat)
    requires x < Pow2(w) && y < Pow2(w)
    ensures Or(x, y) < Pow2(w)
  {
    if w == 0 || x == 0 || y == 0 {
    } else {
      OrLess(x / 2, y / 2, w - 1);
    }
  }

  /** Words that agree on their w lowest bits have the same remainder. */
  lemma {:induction false} SameLow(x: nat, y: nat, w: nat)
    requires forall k :: 0 <= k < w ==> (Bit(x, k) <==> Bit(y, k))
    ensures x % Pow2(w) == y % Pow2(w)
  {
    if w == 0 {
    } else {
      forall k | 0 <= k < w - 1
        ensures Bit(x / 2, k) <==> Bit(y / 2, k)
      {
        assert Bit(x, k + 1) <==> Bit(y, k + 1);
      }
      SameLow(x / 2, y / 2, w - 1);
      ModHalf(x, Pow2(w - 1));
      ModHalf(y, Pow2(w - 1));
      assert Bit(x, 0) <==> Bit(y, 0);
    }
  }

  lemma SameBits(x: nat, y: nat, w: nat)
    requires x < Pow2(w) && y < Pow2(w)
    requires forall k :: 0 <= k < w ==> (Bit(x, k) <==> Bit(y, k))
    ensures x == y
  {
    SameLow(x, y, w);
    DivUnique(x, Pow2(w), 0, x);
    DivUnique(y, Pow2(w), 0, y);
  }

  lemma {:induction false} BitShifted(x: nat, n: nat, k: nat)
    ensures Bit(Shr(x, n), k) <==> Bit(x, k + n)
  {
    if n == 0 {
    } else {
      ShrFirst(x, n - 1);
      BitShifted(x / 2, n - 1, k);
    }
  }

  lemma {:induction false} LowHalf(h: nat, x: nat)
    ensures (2 * h + x % 2) / 2 == h && (2 * h + x % 2) % 2 == x % 2
  {
  }

  /** The low byte of a word, or any number of its low bits, has the same bits as the word. */
  lemma {:induction false} BitLow(x: nat, w: nat, k: nat)
    requires k < w
    ensures Bit(x % Pow2(w), k) <==> Bit(x, k)
  {
    var p := Pow2(w - 1);
    ModHalf(x, p);
    hide Pow2;
    LowHalf((x / 2) % p, x);
    if k > 0 {
      BitLow(x / 2, w - 1, k - 1);
    }
  }
}
