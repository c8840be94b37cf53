/** What the specified text of a number means: its length, its value, and reading it back. */
module FormatFacts {
  import opened Bits
  import opened Machine
  import opened FormatSpec

  function CharValue(c: char): nat
  {
    if '0' <= c <= '9' then c as nat - '0' as nat
    else if 'a' <= c <= 'z' then c as nat - 'a' as nat + 10
    else if 'A' <= c <= 'Z' then c as nat - 'A' as nat + 10
    else 0
  }

  /** The number a string of digits denotes. */
  function Value(s: string, base: nat): nat
  {
    if s == "" then 0 else Value(s[..|s| - 1], base) * base + CharValue(s[|s| - 1])
  }

  lemma DigitCharValue(d: nat, large: bool)
    requires d < 36
    ensures CharValue(DigitChar(d, large)) == d
    ensures d < 10 ==> IsDigit(DigitChar(d, large))
    ensures d > 0 ==> DigitChar(d, large) != '0'
  {
    hide DigitChar;
    if large {
      LargeDigit(d);
    } else {
      SmallDigit(d);
    }
  }

  lemma SmallDigit(d: nat)
    requires d < 36
    ensures DigitChar(d, false) == (if d < 10 then '0' as nat + d else 'a' as nat + d - 10) as char
  {
  }

  lemma LargeDigit(d: nat)
    requires d < 36
    ensures DigitChar(d, true) == (if d < 10 then '0' as nat + d else 'A' as nat + d - 10) as char
  {
  }

  /** The digits written for n denote n. */
  lemma {:induction false} DigitsValue(n: nat, base: nat, large: bool)
    requires 2 <= base <= 36
    ensures Value(Digits(n, base, large), base) == n
    decreases n
  {
    hide CharValue, DigitChar;
    if n < base {
      DigitCharValue(n, large);
      ValueAppend("", DigitChar(n, large), base);
      assert "" + [DigitChar(n, large)] == [DigitChar(n, large)];
    } else {
      DivSmaller(n, base);
      DigitsValue(n / base, base, large);
      DigitCharValue(n % base, large);
      ValueAppend(Digits(n / base, base, large), DigitChar(n % base, large), base);
      DivParts(n, base);
    }
  }

  lemma {:induction false} DivParts(n: nat, base: nat)
    requires base > 0
    ensures n / base * base + n % base == n
  {
    assert n == base * (n / base) + n % base;
  }

  lemma {:induction false} ValueAppend(s: string, c: char, base: nat)
    ensures Value(s + [c], base) == Value(s, base) * base + CharValue(c)
  {
    assert (s + [c])[..|s|] == s;
  }

  /** No digit is wasted: only zero itself starts with a zero. */
  lemma {:induction false} DigitsMinimal(n: nat, base: nat, large: bool)
    requires 2 <= base <= 36
    ensures Digits(n, base, large)[0] == '0' <==> n == 0
    ensures n == 0 ==> Digits(n, base, large) == "0"
    decreases n
  {
    if n < base {
      if n > 0 {
        DigitCharValue(n, large);
      }
    } else {
      DivSmaller(n, base);
      DigitsMinimal(n / base, base, large);
      QuotientPositive(n, base);
    }
  }

  lemma {:induction false} QuotientPositive(n: nat, base: nat)
    requires 0 < base <= n
    ensures n / base > 0
  {
    var q := n / base;
    assert n == base * q + n % base;
    assert q == 0 ==> base * q == 0;
  }

  /** A number below 2^k has at most k digits in any base. */
  lemma {:induction false} DigitsShort(n: nat, base: nat, large: bool, k: nat)
    requires 2 <= base <= 36 && k > 0 && n < Pow2(k)
    ensures |Digits(n, base, large)| <= k
    decreases k
  {
    if n < base {
    } else {
      DivSmaller(n, base);
      HalfBound(n, base);
      DigitsShort(n / base, base, large, k - 1);
    }
  }

  lemma {:induction false} HalfBound(n: nat, base: nat)
    requires 2 <= base
    ensures n / base <= n / 2
  {
    var q := n / base;
    assert n == base * q + n % base;
    assert base * q >= 2 * q by {
      assert base * q == 2 * q + (base - 2) * q;
      assert (base - 2) * q >= 0;
    }
  }

  lemma Pow2Of64()
    ensures Pow2(64) == DWORD
  {
    WordIsPow2();
    Pow2Split(32, 32);
  }

  /** Leading zeros change nothing. */
  lemma {:induction false} LeadingZeros(k: int, s: string, base: nat)
    ensures Value(Repeat('0', k) + s, base) == Value(s, base)
    decreases |s|, k
  {
    var t := Repeat('0', k) + s;
    if s != "" {
      assert t[..|t| - 1] == Repeat('0', k) + s[..|s| - 1];
      LeadingZeros(k, s[..|s| - 1], base);
    } else if k > 0 {
      assert t[..|t| - 1] == Repeat('0', k - 1) + s;
      LeadingZeros(k - 1, s, base);
    } else {
      assert t == s;
    }
  }

  /** The body of a number denotes its magnitude, whatever the precision. */
  lemma BodyValue(num: Num, base: nat, precision: int, f: Flags)
    requires 2 <= base <= 36
    ensures Value(BodyText(num, base, precision, f), base) == Magnitude(num, f)
  {
    hide Digits, Value, Magnitude, Repeat;
    var digits := Digits(Magnitude(num, f), base, f.large);
    LeadingZeros(precision - |digits|, digits, base);
    DigitsValue(Magnitude(num, f), base, f.large);
  }

  /** A number takes its field width, or more if sign, prefix and digits need it. */
  lemma NumberLength(num: Num, base: nat, width: int, precision: int, f: Flags)
    requires 2 <= base <= 36
    ensures |NumberText(num, base, width, precision, f)|
            == Max(width, |SignText(num, f)| + |PrefixText(base, f)|
                          + Max(precision, |Digits(Magnitude(num, f), base, f.large)|))
  {
    hide Digits, SignText, PrefixText, Magnitude;
  }

  // ----- reading decimals back -----

  lemma {:induction false} DecimalIsValue(s: string)
    requires forall i :: 0 <= i < |s| ==> IsDigit(s[i])
    ensures Decimal(s) == Value(s, 10)
  {
    if s == "" {
    } else {
      DecimalIsValue(s[..|s| - 1]);
    }
  }

  lemma {:induction false} DecimalDigits(n: nat, large: bool)
    ensures forall i :: 0 <= i < |Digits(n, 10, large)| ==> IsDigit(Digits(n, 10, large)[i])
    decreases n
  {
    if n < 10 {
      DigitCharValue(n, large);
    } else {
      DecimalDigits(n / 10, large);
      DigitCharValue(n % 10, large);
    }
  }

  lemma {:induction false} LeadingDigitsOf(d: string, rest: string)
    requires forall i :: 0 <= i < |d| ==> IsDigit(d[i])
    requires rest == "" || !IsDigit(rest[0])
    ensures LeadingDigits(d + rest) == |d|
  {
    if d == "" {
      assert d + rest == rest;
    } else {
      assert (d + rest)[1..] == d[1..] + rest;
      LeadingDigitsOf(d[1..], rest);
    }
  }

  /** The decimal reader gives back every number the writer wrote. */
  lemma DecimalRoundTrip(n: nat, large: bool, rest: string)
    requires rest == "" || !IsDigit(rest[0])
    ensures var s := Digits(n, 10, large) + rest;
            var k := LeadingDigits(s);
            s[..k] == Digits(n, 10, large) && Decimal(s[..k]) == n
  {
    var d := Digits(n, 10, large);
    DecimalDigits(n, large);
    LeadingDigitsOf(d, rest);
    assert (d + rest)[..|d|] == d;
    DecimalIsValue(d);
    DigitsValue(n, 10, large);
  }

  /** The integer a text such as "-42" denotes. */
  function ReadInteger(s: string): int
  {
    if s != "" && s[0] == '-' then -(Value(s[1..], 10) as int) else Value(s, 10)
  }

  lemma DirectivePercentD(env: Env, args: nat, pos: nat)
    ensures Parse(env, "d", args) == Parsed(NO_FLAGS, -1, -1, NoQualifier, "d", args)
    ensures Formatted(env, "%d", args, pos).0
            == NumberText(IntegerArgument(env, NoQualifier, true, args), 10, -1, -1, NO_FLAGS.(sign := true))
  {
    assert "%d"[1..] == "d";
    assert LeadingDigits("d") == 0;
    var p := Parse(env, "d", args);
    var o := Directive(env, p, pos);
    assert o.rest == "";
    assert Formatted(env, "", o.args, pos + |o.text|) == ("", []);
  }

  /** "%d" writes a 32-bit argument so that reading the text gives the signed value back. */
  lemma PercentDRoundTrip(env: Env, args: nat, pos: nat)
    ensures ReadInteger(Formatted(env, "%d", args, pos).0) == Signed(env.word(args))
  {
    hide Formatted, NumberText, ReadInteger;
    DirectivePercentD(env, args, pos);
    ReadSigned(IntegerArgument(env, NoQualifier, true, args));
  }

  /** The value of a 64-bit word as a `long long`. */
  function Signed64(num: Num): int
  {
    if num >= DWORD / 2 then num - DWORD else num
  }

  /** The word an integer directive prints. An `L` or `ll` argument is the 64-bit word of the two
      argument words. Of the other arguments a signed directive prints the value of the 16 or 32
      low bits in two's complement, and an unsigned one, or one with `z`, their plain value. */
  lemma IntegerArgumentMeans(env: Env, q: Qualifier, sign: bool, args: nat)
    ensures var num, w := IntegerArgument(env, q, sign, args), env.word(args);
            var bits: int := if q == Short then 0x1_0000 else WORD;
            && (q == LongLong ==> num % WORD == w && num / WORD == env.word(args + 1))
            && (q != LongLong && q != Size && sign ==>
                  -bits <= 2 * Signed64(num) < bits && (Signed64(num) - w) % bits == 0)
            && (q != LongLong && (q == Size || !sign) ==> num < bits && (num - w) % bits == 0)
  {
    var w := env.word(args);
    if q == LongLong {
      DivUnique(w + env.word(args + 1) * WORD, WORD, env.word(args + 1), w);
    }
  }

  /** `%d`, `%hd`, `%ld` and `%lld` write the value of their argument so that it can be read back. */
  lemma SignedRoundTrip(env: Env, q: Qualifier, args: nat)
    ensures ReadInteger(NumberText(IntegerArgument(env, q, true, args), 10, -1, -1, NO_FLAGS.(sign := true)))
            == Signed64(IntegerArgument(env, q, true, args))
  {
    ReadSigned(IntegerArgument(env, q, true, args));
  }

  lemma ReadSigned(num: Num)
    ensures ReadInteger(NumberText(num, 10, -1, -1, NO_FLAGS.(sign := true))) == Signed64(num)
  {
    hide NumberText, ReadInteger, Digits, Value, IsDigit;
    var f := NO_FLAGS.(sign := true);
    var digits := Digits(Magnitude(num, f), 10, false);
    SignAndDigits(num);
    DigitsValue(Magnitude(num, f), 10, false);
    DecimalDigits(Magnitude(num, f), false);
    ReadPlain(digits);
    assert "" + digits == digits;
  }

  lemma ReadPlain(d: string)
    requires d != "" && IsDigit(d[0])
    ensures ReadInteger(d) == Value(d, 10) && ReadInteger("-" + d) == -(Value(d, 10) as int)
  {
    hide Value;
    assert ("-" + d)[1..] == d;
  }

  lemma SignAndDigits(num: Num)
    ensures var f := NO_FLAGS.(sign := true);
            NumberText(num, 10, -1, -1, f)
            == (if num >= DWORD / 2 then "-" else "") + Digits(Magnitude(num, f), 10, false)
  {
  }

  /** Text without directives is copied as it is. */
  lemma {:induction false} LiteralText(env: Env, lit: string, fmt: string, args: nat, pos: nat)
    requires '%' !in lit
    ensures Formatted(env, lit + fmt, args, pos).0 == lit + Formatted(env, fmt, args, pos + |lit|).0
    ensures Formatted(env, lit + fmt, args, pos).1 == Formatted(env, fmt, args, pos + |lit|).1
  {
    hide Parse, Directive;
    if lit == "" {
      assert lit + fmt == fmt;
    } else {
      assert (lit + fmt)[1..] == lit[1..] + fmt;
      LiteralText(env, lit[1..], fmt, args, pos + 1);
    }
  }
}
