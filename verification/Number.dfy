/** Writing characters into a bounded buffer, and `number`, which formats one integer. */
module Number {
  import opened Bits
  import opened Machine
  import opened FormatSpec
  import opened FormatFacts
  import DoDiv
  import opened Wrappers

  // ----- bounded output -----

  /** The buffer after the characters of t were put at positions pos, pos + 1, ..., those past
      its end going nowhere. */
  ghost function Emit(b: seq<char>, pos: nat, t: string): (r: seq<char>)
    ensures |r| == |b|
  {
    seq(|b|, i requires 0 <= i < |b| => if pos <= i < pos + |t| then t[i - pos] else b[i])
  }

  /** `out` was written from position `start` on, and the cursor stands behind it. */
  ghost predicate Wrote(b: seq<char>, orig: seq<char>, start: nat, str: nat, out: string)
  {
    b == Emit(orig, start, out) && str == start + |out|
  }

  lemma WroteNothing(b: seq<char>, start: nat)
    ensures Wrote(b, b, start, start, "")
  {
  }

  lemma WroteMore(b: seq<char>, orig: seq<char>, start: nat, str: nat, out: string, more: string, next: nat)
    requires Wrote(b, orig, start, str, out) && next == str + |more|
    ensures Wrote(Emit(b, str, more), orig, start, next, out + more)
  {
    var r := Emit(b, str, more);
    assert forall i :: 0 <= i < |r| ==> r[i] == Emit(orig, start, out + more)[i];
  }

  /** `if (str <= end) *str = c; ++str;` */
  method Put(buf: array<char>, str: nat, end: int, c: char, ghost orig: seq<char>, ghost start: nat, ghost out: string)
    returns (next: nat)
    requires end == buf.Length - 1 && Wrote(buf[..], orig, start, str, out)
    modifies buf
    ensures Wrote(buf[..], orig, start, next, out + [c])
  {
    ghost var before := buf[..];
    if str <= end {
      buf[str] := c;
    }
    next := str + 1;
    assert buf[..] == Emit(before, str, [c]);
    WroteMore(before, orig, start, str, out, [c], next);
  }

  /** `while (count-- > 0) put c`. */
  method PutRun(buf: array<char>, str0: nat, end: int, c: char, count: Int,
                ghost orig: seq<char>, ghost start: nat, ghost out: string)
    returns (str: nat, left: Int)
    requires count > -INT_MAX - 1
    requires end == buf.Length - 1 && Wrote(buf[..], orig, start, str0, out)
    modifies buf
    ensures Wrote(buf[..], orig, start, str, out + Repeat(c, count))
    ensures left == if count > 0 then -1 else count - 1
  {
    str, left := str0, count;
    assert out + Repeat(c, 0) == out;
    while left > 0
      invariant left <= count && (count > 0 ==> left >= 0) && (count <= 0 ==> left == count)
      invariant Wrote(buf[..], orig, start, str, out + Repeat(c, count - left))
    {
      ghost var done := count - left;
      str := Put(buf, str, end, c, orig, start, out + Repeat(c, done));
      left := left - 1;
      assert out + Repeat(c, done) + [c] == out + Repeat(c, done + 1);
    }
    assert count <= 0 ==> Repeat(c, count) == Repeat(c, 0);
    left := left - 1;
  }

  // ----- digits -----

  ghost function Reversed(s: string): (r: string)
    ensures |r| == |s|
  {
    if s == "" then "" else [s[|s| - 1]] + Reversed(s[..|s| - 1])
  }

  /** Digits come out of repeated division lowest first; at most 64 cells are needed. */
  method WriteDigits(num: Num, base: nat, large: bool) returns (tmp: array<char>, i: nat)
    requires 2 <= base <= 36
    ensures fresh(tmp) && i <= 64 < tmp.Length && Reversed(tmp[..i]) == Digits(num, base, large)
  {
    hide Digits, DigitChar, Reversed, Pow2;
    tmp := new char[66];
    i := 0;
    Pow2Of64();
    DigitsShort(num, base, large, 64);
    if num == 0 {
      tmp[0] := '0';
      i := 1;
      DigitsMinimal(0, base, large);
      ReversedAppend("", '0');
      ReversedEmpty();
      assert tmp[..1] == "" + ['0'] && ['0'] + "" == "0";
    } else {
      ReversedEmpty();
      assert tmp[..0] == "" && Digits(num, base, large) + "" == Digits(num, base, large);
      var cell := new DoDiv.Cell64(num);
      while cell.v != 0
        invariant cell.v <= num && i <= 64
        invariant cell.v != 0 ==> Digits(cell.v, base, large) + Reversed(tmp[..i]) == Digits(num, base, large)
        invariant cell.v == 0 ==> Reversed(tmp[..i]) == Digits(num, base, large)
        decreases cell.v
      {
        ghost var was, n := tmp[..i], cell.v;
        assert i < 64 by {
          assert |Digits(n, base, large)| + |Reversed(was)| <= 64;
        }
        var digit := DoDiv.Divide(cell, base, 8);
        DigitStep(n, base, large);
        tmp[i] := DigitChar(digit, large);
        i := i + 1;
        ghost var d, high := DigitChar(digit, large), Digits(n / base, base, large);
        assert tmp[..i] == was + [d];
        ReversedAppend(was, d);
        assert high + [d] + Reversed(was) == high + ([d] + Reversed(was));
      }
    }
  }

  /** Splitting off the lowest digit. */
  lemma DigitStep(n: nat, base: nat, large: bool)
    requires 2 <= base <= 36 && n > 0
    ensures n / base < n && n % base < base
    ensures n / base == 0 ==> Digits(n, base, large) == [DigitChar(n % base, large)]
    ensures n / base != 0 ==> Digits(n, base, large) == Digits(n / base, base, large) + [DigitChar(n % base, large)]
  {
    if n < base {
      DivUnique(n, base, 0, n);
    } else {
      DivSmaller(n, base);
      QuotientPositive(n, base);
    }
  }

  lemma ReversedEmpty()
    ensures Reversed("") == ""
  {
  }

  lemma ReversedAppend(s: string, c: char)
    ensures Reversed(s + [c]) == [c] + Reversed(s)
  {
    assert (s + [c])[..|s|] == s;
  }

  lemma {:induction false} ReversedAt(s: string, k: nat)
    requires k < |s|
    ensures Reversed(s)[|s| - 1 - k] == s[k]
  {
    if k == |s| - 1 {
    } else {
      ReversedAt(s[..|s| - 1], k);
    }
  }

  /** `while (i-- > 0) put tmp[i]`. */
  method PutReversed(buf: array<char>, str0: nat, end: int, tmp: array<char>, n: nat,
                     ghost orig: seq<char>, ghost start: nat, ghost out: string)
    returns (str: nat)
    requires end == buf.Length - 1 && Wrote(buf[..], orig, start, str0, out)
    requires buf != tmp && n <= tmp.Length
    modifies buf
    ensures Wrote(buf[..], orig, start, str, out + Reversed(tmp[..n]))
  {
    var i := n;
    str := str0;
    ghost var r := Reversed(tmp[..n]);
    assert out + r[..0] == out;
    while i > 0
      invariant 0 <= i <= n && r == Reversed(tmp[..n])
      invariant Wrote(buf[..], orig, start, str, out + r[..n - i])
    {
      i := i - 1;
      ReversedAt(tmp[..n], i);
      ghost var done := n - 1 - i;
      str := Put(buf, str, end, tmp[i], orig, start, out + r[..done]);
      assert out + r[..done] + [r[done]] == out + r[..done + 1];
    }
    assert r[..n] == r;
  }

  // ----- number -----

  /** The sign, and what is left of the field width after sign and prefix. */
  method SignAndWidth(num0: Num, base: nat, size0: Int, f: Flags) returns (sign: string, num: Num, size: Int)
    requires size0 >= -1
    ensures sign == SignText(num0, f) && |sign| <= 1 && num == Magnitude(num0, f)
    ensures size == size0 - |SignText(num0, f)| - |PrefixText(base, f)|
  {
    sign, num, size := "", num0, size0;
    if f.sign {
      if num >= DWORD / 2 {
        sign, num, size := "-", DWORD - num, size - 1;
      } else if f.plus {
        sign, size := "+", size - 1;
      } else if f.space {
        sign, size := " ", size - 1;
      }
    }
    if f.special {
      if base == 16 {
        size := size - 2;
      } else if base == 8 {
        size := size - 1;
      }
    }
  }

  /** Sign and prefix. */
  method PutHead(buf: array<char>, str0: nat, end: int, sign: string, base: nat, f: Flags,
                 ghost orig: seq<char>, ghost start: nat, ghost out: string)
    returns (str: nat)
    requires end == buf.Length - 1 && |sign| <= 1 && Wrote(buf[..], orig, start, str0, out)
    modifies buf
    ensures Wrote(buf[..], orig, start, str, out + sign + PrefixText(base, f))
  {
    str := str0;
    if sign != "" {
      str := Put(buf, str, end, sign[0], orig, start, out);
      assert out + [sign[0]] == out + sign;
    }
    ghost var signed := out + sign;
    assert sign == "" ==> signed == out;
    assert signed + "" == signed;
    if f.special {
      if base == 8 {
        str := Put(buf, str, end, '0', orig, start, signed);
      } else if base == 16 {
        str := Put(buf, str, end, '0', orig, start, signed);
        str := Put(buf, str, end, if f.large then 'X' else 'x', orig, start, signed + "0");
        assert signed + "0" + [if f.large then 'X' else 'x'] == signed + PrefixText(base, f);
      }
    }
  }

  /** `number`: the text of one integer goes to the buffer, clipped at its end. With a text that
      leaves an `int` room for the loops' last decrements, no size or precision overflows. */
  method Format(buf: array<char>, start: nat, end: int, num0: Num, base: nat, width: Int, precision0: Int, flags: Flags)
    returns (r: Option<nat>)
    requires end == buf.Length - 1 && width >= -1 && precision0 >= -1
    requires 2 <= base <= 36 ==> |NumberText(num0, base, width, precision0, flags)| <= TEXT_MAX
    modifies buf
    ensures !(2 <= base <= 36) ==> r == None && buf[..] == old(buf[..])
    ensures 2 <= base <= 36 ==> r.Some?
    ensures 2 <= base <= 36 ==>
              Wrote(buf[..], old(buf[..]), start, r.value, NumberText(num0, base, width, precision0, flags))
  {
    hide Wrote, Repeat, Digits, Reversed, PrefixText, SignText;
    var f := flags;
    if f.left {
      f := f.(zeropad := false);
    }
    if base < 2 || base > 36 {
      return None;
    }
    ghost var orig := buf[..];
    ZeropadIgnored(num0, base, width, precision0, flags);
    SizesFit(num0, base, width, precision0, f);
    var c := if f.zeropad then '0' else ' ';
    var sign, num, size := SignAndWidth(num0, base, width, f);
    var tmp, i := WriteDigits(num, base, f.large);
    var precision: Int := precision0;
    if i > precision {
      precision := i;
    }
    assert precision == Max(precision0, |Digits(Magnitude(num0, f), base, f.large)|);
    size := size - precision;
    ghost var fill, digits, prefix := size, Digits(num, base, f.large), PrefixText(base, f);
    var str := start;
    WroteNothing(orig, start);
    ghost var lead, mid, tail := "", "", "";
    if !f.zeropad && !f.left {
      lead := Repeat(' ', size);
      assert "" + lead == lead;
      str, size := PutRun(buf, str, end, ' ', size, orig, start, "");
    }
    str := PutHead(buf, str, end, sign, base, f, orig, start, lead);
    ghost var out := lead + sign + prefix;
    assert out + mid == out;
    if !f.left {
      mid := Repeat(c, size);
      str, size := PutRun(buf, str, end, c, size, orig, start, out);
    }
    var rest;
    str, rest := PutRun(buf, str, end, '0', precision - i, orig, start, out + mid);
    ghost var zeros := Repeat('0', precision - i);
    str := PutReversed(buf, str, end, tmp, i, orig, start, out + mid + zeros);
    tail := Repeat(' ', size);
    if !f.left {
      RepeatNone(' ', size);
      if !f.zeropad {
        RepeatNone(c, if fill > 0 then -1 else fill - 1);
      }
    }
    str, rest := PutRun(buf, str, end, ' ', size, orig, start, out + mid + zeros + digits);
    Assembled(num0, base, width, precision0, f, lead, mid, tail);
    r := Some(str);
  }

  /** What is left of the width in `number` after sign, prefix and digits is an `int` even after
      three more decrements. */
  lemma SizesFit(num: Num, base: nat, width: Int, precision: Int, f: Flags)
    requires 2 <= base <= 36 && width >= -1 && precision >= -1
    requires |NumberText(num, base, width, precision, f)| <= TEXT_MAX
    ensures var needed := |SignText(num, f)| + |PrefixText(base, f)|
                          + Max(precision, |Digits(Magnitude(num, f), base, f.large)|);
            -INT_MAX - 1 <= width - needed - 3 && width - needed <= INT_MAX && needed <= TEXT_MAX
  {
    NumberLength(num, base, width, precision, f);
    hide Digits, SignText, PrefixText, Magnitude, NumberText;
  }

  lemma RepeatNone(c: char, n: int)
    requires n <= 0
    ensures Repeat(c, n) == ""
  {
  }

  /** Left-justified text is never padded with zeros. */
  lemma ZeropadIgnored(num: Num, base: nat, width: int, precision: int, f: Flags)
    requires 2 <= base <= 36
    ensures f.left ==>
              NumberText(num, base, width, precision, f)
              == NumberText(num, base, width, precision, f.(zeropad := false))
  {
    hide Digits, Repeat;
    var g := f.(zeropad := false);
    assert SignText(num, g) == SignText(num, f) && PrefixText(base, g) == PrefixText(base, f);
    assert BodyText(num, base, precision, g) == BodyText(num, base, precision, f);
  }

  /** The pieces written in the order of the code are the specified text. */
  lemma Assembled(num: Num, base: nat, width: int, precision: int, f: Flags, lead: string, mid: string, tail: string)
    requires 2 <= base <= 36
    requires var digits := Digits(Magnitude(num, f), base, f.large);
             var fill := width - |SignText(num, f)| - |PrefixText(base, f)| - Max(precision, |digits|);
             && lead == (if !f.zeropad && !f.left then Repeat(' ', fill) else "")
             && mid == (if f.zeropad && !f.left then Repeat('0', fill) else "")
             && tail == (if f.left then Repeat(' ', fill) else "")
    ensures var digits := Digits(Magnitude(num, f), base, f.large);
            var zeros := Repeat('0', Max(precision, |digits|) - |digits|);
            lead + SignText(num, f) + PrefixText(base, f) + mid + zeros + digits + tail
            == NumberText(num, base, width, precision, f)
  {
    hide SignText, PrefixText, Digits, Repeat, Magnitude;
    var sign, prefix := SignText(num, f), PrefixText(base, f);
    var digits := Digits(Magnitude(num, f), base, f.large);
    var zeros := Repeat('0', Max(precision, |digits|) - |digits|);
    SameZeros(precision, |digits|);
    Associate(lead, sign, prefix, mid, zeros, digits, tail);
    assert BodyText(num, base, precision, f) == zeros + digits;
  }

  lemma SameZeros(precision: int, n: nat)
    ensures Repeat('0', Max(precision, n) - n) == Repeat('0', precision - n)
  {
  }

  lemma Associate(lead: string, sign: string, prefix: string, mid: string, zeros: string, digits: string, tail: string)
    ensures lead == "" && mid == "" ==>
              lead + sign + prefix + mid + zeros + digits + tail == sign + prefix + (zeros + digits) + tail
    ensures lead == "" && tail == "" ==>
              lead + sign + prefix + mid + zeros + digits + tail == sign + prefix + mid + (zeros + digits)
    ensures mid == "" && tail == "" ==>
              lead + sign + prefix + mid + zeros + digits + tail == lead + (sign + prefix) + (zeros + digits)
  {
  }
}
