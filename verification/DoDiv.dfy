/** `_do_div`: dividing a 64-bit word in place by a 32-bit divisor with 32-bit divisions. */
module DoDiv {
  import opened Bits
  import opened Machine

  /** A 64-bit variable that is passed by address. */
  class Cell64 {
    var v: nat

    constructor (v: nat)
      ensures this.v == v
    {
      this.v := v;
    }
  }

  /** The processor's `divl`: edx:eax by a 32-bit operand. A quotient of more than 32 bits is
      a fault, so not overflowing is the caller's duty. */
  method Divl(upper: nat, low: nat, b: nat) returns (quotient: nat, remainder: nat)
    requires 0 < b < WORD && low < WORD && upper < b
    ensures quotient < WORD && remainder < b
    ensures upper * WORD + low == quotient * b + remainder
  {
    var c := upper * WORD + low;
    quotient, remainder := c / b, c % b;
    assert c == quotient * b + remainder;
    QuotientFits(upper, low, b);
  }

  lemma {:induction false} QuotientFits(upper: nat, low: nat, b: nat)
    requires 0 < b < WORD && low < WORD && upper < b
    ensures (upper * WORD + low) / b < WORD
  {
    var c := upper * WORD + low;
    var q := c / b;
    assert c == b * q + c % b;
    assert c < b * WORD by { assert c <= (b - 1) * WORD + low; }
    MulAdd(b, q, WORD);
    MulSign(b, q - WORD);
  }

  /** Long division by one digit: dividing the high digit first and carrying its remainder
      into the low one divides the whole. */
  lemma {:induction false} LongDivision(c: nat, b: nat, quotient: nat, remainder: nat)
    requires b > 0 && remainder < b
    requires (c / WORD % b) * WORD + c % WORD == quotient * b + remainder
    ensures c / WORD / b * WORD + quotient == c / b && remainder == c % b
  {
    var high := c / WORD;
    var q := high / b;
    assert high == b * q + high % b;
    assert c == high * WORD + c % WORD;
    assert high * WORD == b * (q * WORD) + (high % b) * WORD by {
      MulAdd(WORD, b * q, high % b);
      assert (b * q) * WORD == b * (q * WORD);
    }
    MulAdd(b, q * WORD, quotient);
    DivUnique(c, b, q * WORD + quotient, remainder);
  }

  lemma {:induction false} ZeroDigit(b: nat)
    requires b > 0
    ensures 0 % b == 0 && 0 / b == 0
  {
    DivUnique(0, b, 0, 0);
  }

  /** The 8-byte case. */
  method Divide64(c: nat, b: nat) returns (quotient: nat, mod: nat)
    requires 0 < b < WORD && c < WORD * WORD
    ensures quotient == c / b && mod == c % b
  {
    var high, low := c / WORD, c % WORD;
    var upper;
    high, upper := DivideHigh(high, b);
    low, mod := Divl(upper, low, b);
    LongDivision(c, b, low, mod);
    quotient := high * WORD + low;
  }

  /** The first step of the 8-byte case, skipped when the upper half is zero. */
  method DivideHigh(high0: nat, b: nat) returns (high: nat, upper: nat)
    requires b > 0
    ensures high == high0 / b && upper == high0 % b
  {
    high := high0;
    upper := high;
    if high != 0 {
      upper := high % b;
      high := high / b;
    } else {
      ZeroDigit(b);
    }
  }

  /** `_do_div(a, b, n)`: for n == 8 (and for n == 4 on a 32-bit value) the dividend is replaced
      by the quotient and the remainder is returned. */
  method Divide(a: Cell64, b: nat, n: nat) returns (mod: nat)
    requires 0 < b < WORD && (n == 8 ==> a.v < WORD * WORD) && (n == 4 ==> a.v < WORD)
    modifies a
    ensures n == 4 || n == 8 ==> a.v == old(a.v) / b && mod == old(a.v) % b
    ensures n != 4 && n != 8 ==> a.v == old(a.v) && mod == 0
  {
    if n == 4 {
      mod := a.v % b;
      a.v := a.v / b;
    } else if n == 8 {
      var quotient;
      quotient, mod := Divide64(a.v, b);
      a.v := quotient;
    } else {
      mod := 0;
    }
  }
}
