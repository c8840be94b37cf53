/** Bitwise operators of C on unsigned words, as functions on natural numbers
    built one binary digit at a time, and the few facts the kernel code relies on. */
module Bits {
  import opened Machine

  function Pow2(k: nat): (p: nat)
    ensures p > 0
  {
    if k == 0 then 1 else 2 * Pow2(k - 1)
  }

  function And(x: nat, y: nat): nat
  {
    if x == 0 || y == 0 then 0
    else 2 * And(x / 2, y / 2) + (if x % 2 == 1 && y % 2 == 1 then 1 else 0)
  }

  function Or(x: nat, y: nat): nat
    decreases x + y
  {
    if x == 0 then y else if y == 0 then x
    else 2 * Or(x / 2, y / 2) + (if x % 2 == 1 || y % 2 == 1 then 1 else 0)
  }

  function Xor(x: nat, y: nat): nat
    decreases x + y
  {
    if x == 0 then y else if y == 0 then x
    else 2 * Xor(x / 2, y / 2) + (if x % 2 != y % 2 then 1 else 0)
  }

  /** `x >> k`, one place at a time. */
  function Shr(x: nat, k: nat): nat
  {
    if k == 0 then x else Shr(x, k - 1) / 2
  }

  /** `~x` on a word of w bits. */
  function Not(x: nat, w: nat): nat
    requires x < Pow2(w)
  {
    Pow2(w) - 1 - x
  }

  // ----- division -----

  lemma {:induction false} MulSign(a: int, d: int)
    requires a > 0
    ensures d >= 1 ==> a * d >= a
    ensures d <= -1 ==> a * d <= -a
    ensures a * (2 * d) == 2 * a * d == 2 * (a * d)
  {
  }

  lemma {:induction false} MulAdd(a: int, x: int, y: int)
    ensures a * (x + y) == a * x + a * y
    ensures a * (x - y) == a * x - a * y
  {
  }

  lemma {:induction false} DivUnique(x: int, a: int, q: int, r: int)
    requires a > 0 && x == a * q + r && 0 <= r < a
    ensures x / a == q && x % a == r
  {
    var p, s := x / a, x % a;
    assert x == a * p + s;
    MulAdd(a, p, q);
    MulSign(a, p - q);
  }

  lemma {:induction false} DivDouble(x: nat, a: nat)
    requires a > 0
    ensures x / (2 * a) == x / a / 2
    ensures x / (2 * a) == x / 2 / a
  {
    var y, z := x / (2 * a), x % (2 * a);
    MulSign(a, y);
    assert x == 2 * (a * y) + z;
    assert x / 2 == a * y + z / 2;
    DivUnique(x / 2, a, y, z / 2);
    if z < a {
      DivUnique(x, a, 2 * y, z);
    } else {
      MulAdd(a, 2 * y, 1);
      DivUnique(x, a, 2 * y + 1, z - a);
    }
  }

  lemma {:induction false} ModHalf(x: nat, a: nat)
    requires a > 0
    ensures x % (2 * a) == 2 * ((x / 2) % a) + x % 2
  {
    var y, z := x / (2 * a), x % (2 * a);
    MulSign(a, y);
    assert x == 2 * (a * y) + z;
    DivUnique(x / 2, a, y, z / 2);
  }

  lemma ShrFirst(x: nat, k: nat)
    ensures Shr(x, k + 1) == Shr(x / 2, k)
  {
  }

  /** Shifting is dividing by a power of two. */
  lemma {:induction false} ShrDiv(x: nat, k: nat)
    ensures Shr(x, k) == x / Pow2(k)
  {
    if k == 0 {
    } else {
      ShrDiv(x, k - 1);
      DivDouble(x, Pow2(k - 1));
    }
  }

  // ----- xor and and against one bit -----

  /** Flipping bit k adds 2^k where the bit is clear and subtracts it where it is set. */
  lemma {:induction false} XorBit(x: nat, k: nat)
    ensures Shr(x, k) % 2 == 0 ==> Xor(x, Pow2(k)) == x + Pow2(k)
    ensures Shr(x, k) % 2 == 1 ==> x >= Pow2(k) && Xor(x, Pow2(k)) == x - Pow2(k)
  {
    if k == 0 {
      assert Xor(x / 2, 0) == x / 2;
    } else {
      ShrFirst(x, k - 1);
      XorBit(x / 2, k - 1);
      assert Pow2(k) % 2 == 0 && Pow2(k) / 2 == Pow2(k - 1);
    }
  }

  /** `x & (x ^ (1 << k))` clears bit k. */
  lemma {:induction false} AndXorBit(x: nat, k: nat)
    ensures Shr(x, k) % 2 == 0 ==> And(x, Xor(x, Pow2(k))) == x
    ensures Shr(x, k) % 2 == 1 ==> x >= Pow2(k) && And(x, Xor(x, Pow2(k))) == x - Pow2(k)
  {
    if k == 0 {
      AndXorLow(x);
    } else {
      hide And, Xor;
      ShrFirst(x, k - 1);
      AndXorBit(x / 2, k - 1);
      AndXorStep(x, Pow2(k - 1));
    }
  }

  lemma {:induction false} AndXorLow(x: nat)
    ensures x % 2 == 0 ==> And(x, Xor(x, Pow2(0))) == x
    ensures x % 2 == 1 ==> And(x, Xor(x, Pow2(0))) == x - 1
  {
    XorBit(x, 0);
    AndSelf(x / 2);
  }

  lemma {:induction false} AndXorStep(x: nat, m: nat)
    ensures And(x, Xor(x, 2 * m)) == 2 * And(x / 2, Xor(x / 2, m)) + x % 2
  {
    XorEven(x, m);
    AndSameBit(x, Xor(x / 2, m));
  }

  lemma {:induction false} XorEven(x: nat, m: nat)
    ensures Xor(x, 2 * m) == 2 * Xor(x / 2, m) + x % 2
  {
    if m == 0 {
      assert Xor(x, 0) == x && Xor(x / 2, 0) == x / 2;
    } else if x == 0 {
      assert Xor(0, m) == m;
    } else {
      assert 2 * m % 2 == 0 && 2 * m / 2 == m;
    }
  }

  lemma {:induction false} AndSameBit(x: nat, m: nat)
    ensures And(x, 2 * m + x % 2) == 2 * And(x / 2, m) + x % 2
  {
  }

  lemma AndSelf(x: nat)
    ensures And(x, x) == x
  {
  }

  // ----- alignment masks -----

  lemma DoubleProduct(x: nat, y: nat)
    ensures (2 * x) * y == 2 * (x * y)
  {
  }

  lemma {:induction false} Pow2Split(a: nat, b: nat)
    ensures Pow2(a + b) == Pow2(a) * Pow2(b)
  {
    if a == 0 {
    } else {
      Pow2Split(a - 1, b);
      DoubleProduct(Pow2(a - 1), Pow2(b));
    }
  }

  lemma WordIsPow2()
    ensures Pow2(32) == WORD
  {
    assert Pow2(8) == 256;
    Pow2Split(8, 8);
    Pow2Split(16, 16);
  }

  lemma Pow2Mono(a: nat, b: nat)
    requires a <= b
    ensures Pow2(a) <= Pow2(b)
  {
    Pow2Split(a, b - a);
  }

  lemma {:induction false} AndFull(x: nat, w: nat)
    requires x < Pow2(w)
    ensures And(x, Pow2(w) - 1) == x
  {
    if w == 0 || x == 0 {
    } else {
      var m := Pow2(w - 1) - 1;
      assert Pow2(w) - 1 == 2 * m + 1;
      hide Pow2;
      AndFull(x / 2, w - 1);
      AndOdd(x, m);
    }
  }

  lemma {:induction false} AndOdd(x: nat, m: nat)
    ensures And(x, 2 * m + 1) == 2 * And(x / 2, m) + x % 2
  {
  }

  /** x with its k lowest digits cleared. */
  function RoundDown(x: nat, k: nat): nat
  {
    if k == 0 then x else 2 * RoundDown(x / 2, k - 1)
  }

  lemma {:induction false} RoundDownIs(x: nat, k: nat)
    ensures RoundDown(x, k) == x - x % Pow2(k)
  {
    if k == 0 {
    } else {
      RoundDownIs(x / 2, k - 1);
      ModHalf(x, Pow2(k - 1));
    }
  }

  /** `x & ~(2^k - 1)` rounds x down to a multiple of 2^k. */
  lemma {:induction false} AndMask(x: nat, k: nat, w: nat)
    requires k <= w && x < Pow2(w)
    ensures Pow2(k) <= Pow2(w)
    ensures And(x, Not(Pow2(k) - 1, w)) == RoundDown(x, k)
  {
    Pow2Mono(k, w);
    if k == 0 {
      AndFull(x, w);
    } else {
      AndMask(x / 2, k - 1, w - 1);
      AndEven(x, Not(Pow2(k - 1) - 1, w - 1));
    }
  }

  lemma {:induction false} AndEven(x: nat, m: nat)
    ensures And(x, 2 * m) == 2 * And(x / 2, m)
  {
  }

  /** `x | y` is a sum when y fits under the trailing zeros of x. */
  lemma {:induction false} OrSum(x: nat, y: nat, k: nat)
    requires x % Pow2(k) == 0 && y < Pow2(k)
    ensures Or(x, y) == x + y
  {
    if k == 0 || x == 0 || y == 0 {
    } else {
      ModHalf(x, Pow2(k - 1));
      OrSum(x / 2, y / 2, k - 1);
    }
  }
}
