/** `vsnprintf`: scanning a format and writing the text it specifies into a bounded buffer. */
module Vsnprintf {
  import opened Bits
  import opened Machine
  import opened FormatSpec
  import opened Number

  /** `fmt[i]`, the terminating NUL included; nothing lies beyond it. */
  function At(fmt: CString, i: nat): (c: char)
    requires i <= |fmt|
    ensures c == '\0' <==> i == |fmt|
  {
    if i < |fmt| then fmt[i] else '\0'
  }

  // ----- scanning -----

  /** `skip_atoi`, with the wrap-around of `int` arithmetic on a run of digits that is too long. */
  method SkipAtoi(fmt: CString, i0: nat) returns (n: Int, i: nat)
    requires i0 <= |fmt|
    ensures i == i0 + LeadingDigits(fmt[i0..]) && i <= |fmt| && n == Signed(U32(Decimal(fmt[i0..i])))
    ensures Decimal(fmt[i0..i]) <= INT_MAX ==> n == Decimal(fmt[i0..i])
  {
    hide U32, Signed;
    SignedSmall(0);
    n, i := 0, i0;
    while IsDigit(At(fmt, i))
      invariant i0 <= i <= |fmt| && (forall k :: i0 <= k < i ==> IsDigit(fmt[k]))
      invariant n == Signed(U32(Decimal(fmt[i0..i])))
      decreases |fmt| - i
    {
      assert fmt[i0..i + 1][..i - i0] == fmt[i0..i];
      SignedStep(Decimal(fmt[i0..i]), DigitValue(At(fmt, i)));
      n := Signed(U32(n * 10 + DigitValue(At(fmt, i))));
      i := i + 1;
    }
    if Decimal(fmt[i0..i]) <= INT_MAX {
      SignedSmall(Decimal(fmt[i0..i]));
    }
    LeadingDigitsIs(fmt[i0..], i - i0);
  }

  lemma SignedSmall(x: nat)
    requires x <= INT_MAX
    ensures Signed(U32(x)) == x
  {
  }

  /** Wrapping after every digit is wrapping once at the end. */
  lemma {:induction false} SignedStep(a: nat, d: nat)
    ensures Signed(U32(Signed(U32(a)) * 10 + d)) == Signed(U32(a * 10 + d))
  {
    var x := Signed(U32(a)) * 10 + d;
    var k := (if U32(a) >= WORD / 2 then a / WORD + 1 else a / WORD) * 10;
    assert a == WORD * (a / WORD) + a % WORD;
    assert a * 10 + d == WORD * k + x;
    DivUnique(a * 10 + d, WORD, k + x / WORD, x % WORD);
  }

  lemma {:induction false} LeadingDigitsIs(s: string, n: nat)
    requires n <= |s| && (forall i :: 0 <= i < n ==> IsDigit(s[i])) && (n < |s| ==> !IsDigit(s[n]))
    ensures LeadingDigits(s) == n
  {
    if n == 0 {
    } else {
      LeadingDigitsIs(s[1..], n - 1);
    }
  }

  /** The `repeat:` loop, from the '%' at i0. */
  method ScanFlags(fmt: CString, i0: nat, ghost args: nat) returns (flags: Flags, i: nat)
    requires i0 < |fmt|
    ensures i0 < i <= |fmt|
    ensures ParseFlags(Parsed(NO_FLAGS, -1, -1, NoQualifier, fmt[i0 + 1..], args))
            == Parsed(flags, -1, -1, NoQualifier, fmt[i..], args)
  {
    flags := NO_FLAGS;
    i := i0 + 1;
    while true
      invariant i0 < i <= |fmt|
      invariant ParseFlags(Parsed(NO_FLAGS, -1, -1, NoQualifier, fmt[i0 + 1..], args))
                == ParseFlags(Parsed(flags, -1, -1, NoQualifier, fmt[i..], args))
      decreases |fmt| - i
    {
      var c := At(fmt, i);
      if c == '-' {
        flags := flags.(left := true);
      } else if c == '+' {
        flags := flags.(plus := true);
      } else if c == ' ' {
        flags := flags.(space := true);
      } else if c == '#' {
        flags := flags.(special := true);
      } else if c == '0' {
        flags := flags.(zeropad := true);
      } else {
        return;
      }
      assert fmt[i..][1..] == fmt[i + 1..];
      i := i + 1;
    }
  }

  lemma Slices(s: string, i: nat, j: nat)
    requires i <= j <= |s|
    ensures s[i..][..j - i] == s[i..j] && s[i..][j - i..] == s[j..]
  {
  }

  lemma WidthDigits(env: Env, p: Parsed)
    requires p.rest != "" && IsDigit(p.rest[0])
    ensures var n := LeadingDigits(p.rest);
            ParseWidth(env, p) == p.(width := Decimal(p.rest[..n]), rest := p.rest[n..])
  {
  }

  lemma WidthOther(env: Env, p: Parsed)
    requires p.rest == "" || !IsDigit(p.rest[0])
    ensures LeadingDigits(p.rest) == 0
    ensures p.rest == "" || p.rest[0] != '*' ==> ParseWidth(env, p) == p
  {
  }

  method ScanWidth(env: Env, fmt: CString, i0: nat, flags0: Flags, args0: nat)
    returns (flags: Flags, width: Int, i: nat, args: nat)
    requires i0 <= |fmt|
    requires ParseWidth(env, Parsed(flags0, -1, -1, NoQualifier, fmt[i0..], args0)).width <= INT_MAX
    ensures i0 <= i <= |fmt| && width >= -1
    ensures ParseWidth(env, Parsed(flags0, -1, -1, NoQualifier, fmt[i0..], args0))
            == Parsed(flags, width, -1, NoQualifier, fmt[i..], args)
  {
    ghost var p := Parsed(flags0, -1, -1, NoQualifier, fmt[i0..], args0);
    flags, width, i, args := flags0, -1, i0, args0;
    if IsDigit(At(fmt, i)) {
      hide ParseWidth, U32, Signed, Decimal, LeadingDigits;
      WidthDigits(env, p);
      width, i := SkipAtoi(fmt, i);
      Slices(fmt, i0, i);
    } else {
      WidthOther(env, p);
      hide U32, Signed, Decimal, LeadingDigits;
      if At(fmt, i) == '*' {
        i := i + 1;
        width := Signed(env.word(args));
        args := args + 1;
        if width < 0 {
          width := -width;
          flags := flags.(left := true);
        }
        Slices(fmt, i0, i);
      }
    }
  }

  method ScanPrecision(env: Env, fmt: CString, i0: nat, args0: nat, ghost flags: Flags, ghost width: int)
    returns (precision: Int, i: nat, args: nat)
    requires i0 <= |fmt|
    requires ParsePrecision(env, Parsed(flags, width, -1, NoQualifier, fmt[i0..], args0)).precision <= INT_MAX
    ensures i0 <= i <= |fmt| && precision >= -1
    ensures ParsePrecision(env, Parsed(flags, width, -1, NoQualifier, fmt[i0..], args0))
            == Parsed(flags, width, precision, NoQualifier, fmt[i..], args)
  {
    hide U32, Signed, Decimal, LeadingDigits;
    precision, i, args := -1, i0, args0;
    if At(fmt, i) == '.' {
      i := i + 1;
      ghost var j := i;
      Slices(fmt, i0, j);
      if IsDigit(At(fmt, i)) {
        precision, i := SkipAtoi(fmt, i);
        Slices(fmt, j, i);
      } else if At(fmt, i) == '*' {
        i := i + 1;
        precision := Signed(env.word(args));
        args := args + 1;
      }
      if precision < 0 {
        precision := 0;
      }
      Slices(fmt, j, i);
    }
  }

  method ScanQualifier(fmt: CString, i0: nat, ghost p: Parsed) returns (qualifier: Qualifier, i: nat)
    requires i0 <= |fmt| && p.qualifier == NoQualifier && p.rest == fmt[i0..]
    ensures i0 <= i <= |fmt|
    ensures ParseQualifier(p) == p.(qualifier := qualifier, rest := fmt[i..])
  {
    qualifier, i := NoQualifier, i0;
    var c := At(fmt, i);
    if c == 'h' || c == 'l' || c == 'L' || c == 'Z' || c == 'z' {
      qualifier := if c == 'h' then Short else if c == 'l' then Long else if c == 'L' then LongLong else Size;
      i := i + 1;
      if qualifier == Long && At(fmt, i) == 'l' {
        qualifier := LongLong;
        i := i + 1;
      }
    }
    Slices(fmt, i0, i);
  }

  // ----- converting -----

  /** A text padded on the right, written piece by piece. */
  lemma PadRight(out: string, t: string, pad: string)
    ensures out + t + pad == out + (t + pad)
  {
  }

  /** A text padded on the left, written piece by piece. */
  lemma PadLeft(out: string, t: string, pad: string, rest: string)
    requires rest == ""
    ensures out + pad + t + rest == out + (pad + t)
  {
  }

  method ConvertChar(buf: array<char>, str0: nat, end: int, w: Word, width: Int, left: bool,
                     ghost orig: seq<char>, ghost out: string)
    returns (str: nat)
    requires width >= -1 && end == buf.Length - 1 && Wrote(buf[..], orig, 0, str0, out)
    modifies buf
    ensures Wrote(buf[..], orig, 0, str, out + Padded([(w % 256) as char], width, left))
  {
    hide Wrote;
    str := str0;
    var fieldWidth: Int, n: Int := width, 0;
    ghost var before := out;
    if !left {
      str, n := PutRun(buf, str, end, ' ', fieldWidth - 1, orig, 0, before);
      fieldWidth := n + 1;
      before := before + Repeat(' ', width - 1);
    }
    var c := (w % 256) as char;
    str := Put(buf, str, end, c, orig, 0, before);
    str, n := PutRun(buf, str, end, ' ', fieldWidth - 1, orig, 0, before + [c]);
    if left {
      PadRight(out, [c], Repeat(' ', width - 1));
    } else {
      PadLeft(out, [c], Repeat(' ', width - 1), Repeat(' ', fieldWidth - 1));
    }
  }

  /** `strnlen(s, precision)`, with a negative precision read as a very large size. */
  method Strnlen(s: CString, precision: int) returns (len: nat)
    requires precision >= -1
    ensures len <= |s| && s[..len] == Truncated(s, precision)
  {
    var maxlen := if precision < 0 then precision + WORD else precision;
    len := 0;
    while At(s, len) != '\0' && len < maxlen
      invariant len <= |s| && len <= maxlen
      decreases |s| - len
    {
      len := len + 1;
    }
    assert len == |s| ==> s[..len] == s;
  }

  method ConvertString(buf: array<char>, str0: nat, end: int, s: CString, width: Int, precision: Int, left: bool,
                       ghost orig: seq<char>, ghost out: string)
    returns (str: nat)
    requires end == buf.Length - 1 && Wrote(buf[..], orig, 0, str0, out) && width >= -1 && precision >= -1
    requires |Padded(Truncated(s, precision), width, left)| <= INT_MAX
    modifies buf
    ensures Wrote(buf[..], orig, 0, str, out + Padded(Truncated(s, precision), width, left))
  {
    hide Wrote, Truncated;
    var len := Strnlen(s, precision);
    ghost var t := s[..len];
    PaddedLength(t, width, left);
    str := str0;
    var fieldWidth: Int := width;
    ghost var before := out;
    if !left {
      str, fieldWidth := PutPadding(buf, str, end, len, fieldWidth, orig, before);
      before := before + Repeat(' ', width - len);
    }
    str := PutString(buf, str, end, s, len, orig, before);
    var rest: Int;
    ghost var pad := Repeat(' ', fieldWidth - len);
    str, rest := PutPadding(buf, str, end, len, fieldWidth, orig, before + t);
    if left {
      PadRight(out, t, Repeat(' ', width - len));
    } else {
      PadLeft(out, t, Repeat(' ', width - len), pad);
    }
  }

  /** `while (len < field_width--) put ' '`. */
  method PutPadding(buf: array<char>, str0: nat, end: int, len: Int, width: Int,
                    ghost orig: seq<char>, ghost out: string)
    returns (str: nat, left: Int)
    requires end == buf.Length - 1 && Wrote(buf[..], orig, 0, str0, out) && len >= 0 && width > -INT_MAX - 1
    modifies buf
    ensures Wrote(buf[..], orig, 0, str, out + Repeat(' ', width - len))
    ensures left == if len < width then len - 1 else width - 1
  {
    hide Wrote;
    str, left := str0, width;
    assert out + Repeat(' ', 0) == out;
    while len < left
      invariant left <= width && (len < width ==> len <= left) && (width <= len ==> left == width)
      invariant Wrote(buf[..], orig, 0, str, out + Repeat(' ', width - left))
    {
      ghost var done := width - left;
      str := Put(buf, str, end, ' ', orig, 0, out + Repeat(' ', done));
      left := left - 1;
      assert out + Repeat(' ', done) + [' '] == out + Repeat(' ', done + 1);
    }
    assert width <= len ==> Repeat(' ', width - len) == Repeat(' ', 0);
    left := left - 1;
  }

  lemma PaddedLength(t: string, width: int, left: bool)
    ensures |Padded(t, width, left)| >= |t|
  {
  }

  /** `for (i = 0; i < len; ++i) put s[i]`. */
  method PutString(buf: array<char>, str0: nat, end: int, s: CString, len: nat,
                   ghost orig: seq<char>, ghost out: string)
    returns (str: nat)
    requires end == buf.Length - 1 && Wrote(buf[..], orig, 0, str0, out) && len <= |s|
    modifies buf
    ensures Wrote(buf[..], orig, 0, str, out + s[..len])
  {
    hide Wrote;
    str := str0;
    assert out + s[..0] == out;
    for i := 0 to len
      invariant Wrote(buf[..], orig, 0, str, out + s[..i])
    {
      str := Put(buf, str, end, s[i], orig, 0, out + s[..i]);
      assert out + s[..i] + [s[i]] == out + s[..i + 1];
    }
  }

  method ConvertNumber(buf: array<char>, str0: nat, end: int, num: Num, base: nat, width: Int, precision: Int,
                       flags: Flags, ghost orig: seq<char>, ghost out: string)
    returns (str: nat)
    requires width >= -1 && precision >= -1
    requires end == buf.Length - 1 && Wrote(buf[..], orig, 0, str0, out) && 2 <= base <= 36
    requires |NumberText(num, base, width, precision, flags)| <= TEXT_MAX
    modifies buf
    ensures Wrote(buf[..], orig, 0, str, out + NumberText(num, base, width, precision, flags))
  {
    ghost var before := buf[..];
    var r := Format(buf, str0, end, num, base, width, precision, flags);
    str := r.value;
    WroteMore(before, orig, 0, str0, out, NumberText(num, base, width, precision, flags), str);
  }

  /** The word an integer directive prints, and the arguments it takes. */
  method FetchInteger(env: Env, qualifier: Qualifier, sign: bool, args0: nat) returns (num: Num, args: nat)
    ensures num == IntegerArgument(env, qualifier, sign, args0) && args == args0 + IntegerWords(qualifier)
  {
    var w := env.word(args0);
    args := args0 + 1;
    if qualifier == LongLong {
      num := w + env.word(args) * WORD;
      args := args + 1;
    } else if qualifier == Long {
      num := w;
      if sign && w >= WORD / 2 {
        num := w + (DWORD - WORD);
      }
    } else if qualifier == Size {
      num := w;
    } else if qualifier == Short {
      num := w % 0x1_0000;
      if sign && num >= 0x8000 {
        num := num + (DWORD - 0x1_0000);
      }
    } else {
      num := w;
      if sign && w >= WORD / 2 {
        num := w + (DWORD - WORD);
      }
    }
  }

  /** An integer directive: fetch the argument, then `number`. */
  method ConvertInteger(env: Env, buf: array<char>, str0: nat, end: int, base: nat, ghost p: Parsed,
                        flags: Flags, width: Int, precision: Int, qualifier: Qualifier, args0: nat,
                        ghost orig: seq<char>, ghost out: string)
    returns (str: nat, args: nat)
    requires end == buf.Length - 1 && Wrote(buf[..], orig, 0, str0, out) && 2 <= base <= 36 && p.rest != ""
    requires p == Parsed(flags, width, precision, qualifier, p.rest, args0) && width >= -1 && precision >= -1
    requires |IntegerOutput(env, p, base).text| <= TEXT_MAX
    modifies buf
    ensures var o := IntegerOutput(env, p, base);
            args == o.args && o.stores == [] && Wrote(buf[..], orig, 0, str, out + o.text)
  {
    hide Wrote;
    var num;
    num, args := FetchInteger(env, qualifier, flags.sign, args0);
    str := ConvertNumber(buf, str0, end, num, base, width, precision, flags, orig, out);
  }

  /** The `switch` on the conversion character at i; the result is the index the loop's `++fmt`
      is applied to. */
  method Convert(env: Env, fmt: CString, i: nat, buf: array<char>, str0: nat, end: int,
                 flags0: Flags, width0: Int, precision: Int, qualifier: Qualifier, args0: nat,
                 ghost orig: seq<char>, ghost out: string)
    returns (last: nat, str: nat, args: nat, stores: seq<Store>)
    requires 0 < i <= |fmt| && width0 >= -1 && precision >= -1
    requires |Directive(env, Parsed(flags0, width0, precision, qualifier, fmt[i..], args0), str0).text|
             <= if Numeric(Parsed(flags0, width0, precision, qualifier, fmt[i..], args0)) then TEXT_MAX else INT_MAX
    requires end == buf.Length - 1 && Wrote(buf[..], orig, 0, str0, out)
    modifies buf
    ensures i <= last + 1 <= |fmt|
    ensures var o := Directive(env, Parsed(flags0, width0, precision, qualifier, fmt[i..], args0), str0);
            && fmt[last + 1..] == o.rest && args == o.args && stores == o.stores
            && Wrote(buf[..], orig, 0, str, out + o.text)
  {
    hide Wrote, NumberText, Padded;
    ghost var p := Parsed(flags0, width0, precision, qualifier, fmt[i..], args0);
    var flags, width := flags0, width0;
    last, str, args, stores := i, str0, args0, [];
    var c := At(fmt, i);
    assert c != '\0' ==> fmt[i..][0] == c && fmt[i..][1..] == fmt[i + 1..];
    if c == 'c' {
      str := ConvertChar(buf, str, end, env.word(args), width, flags.left, orig, out);
      args := args + 1;
    } else if c == 's' {
      var s: CString := if env.word(args) < PAGE_SIZE then "<NULL>" else env.text(env.word(args));
      str := ConvertString(buf, str, end, s, width, precision, flags.left, orig, out);
      args := args + 1;
    } else if c == 'p' {
      if width == -1 {
        width := 8;
        flags := flags.(zeropad := true);
      }
      str := ConvertNumber(buf, str, end, env.word(args), 16, width, precision, flags, orig, out);
      args := args + 1;
    } else if c == 'n' {
      stores := [Store(env.word(args), str)];
      args := args + 1;
      assert out + "" == out;
    } else if c == '%' {
      str := Put(buf, str, end, '%', orig, 0, out);
    } else if c == 'o' {
      str, args := ConvertInteger(env, buf, str, end, 8, p, flags, width, precision, qualifier, args, orig, out);
    } else if c == 'X' {
      flags := flags.(large := true);
      str, args := ConvertInteger(env, buf, str, end, 16, p.(flags := flags), flags, width, precision, qualifier, args,
                                  orig, out);
    } else if c == 'x' {
      str, args := ConvertInteger(env, buf, str, end, 16, p, flags, width, precision, qualifier, args, orig, out);
    } else if c == 'd' || c == 'i' {
      flags := flags.(sign := true);
      str, args := ConvertInteger(env, buf, str, end, 10, p.(flags := flags), flags, width, precision, qualifier, args,
                                  orig, out);
    } else if c == 'u' {
      str, args := ConvertInteger(env, buf, str, end, 10, p, flags, width, precision, qualifier, args, orig, out);
    } else {
      str := Put(buf, str, end, '%', orig, 0, out);
      if c != '\0' {
        str := Put(buf, str, end, c, orig, 0, out + "%");
        assert out + "%" + [c] == out + ("%" + [c]);
      } else {
        last := last - 1;
      }
    }
  }

  // ----- the whole function -----

  /** The address of the last byte `vsnprintf` allows itself to write, and the size it works with. */
  function LastByte(buf: nat, size: nat): (nat, nat)
  {
    var end := U32(buf + size - 1);
    if end < U32(buf - 1) then (WORD - 1, U32(WORD - 1 - buf + 1)) else (end, size)
  }

  /** The test before every store at address a. */
  predicate MayStore(a: nat, buf: nat, size: nat)
  {
    a <= LastByte(buf, size).0
  }

  predicate InBuffer(a: nat, buf: nat, size: nat)
  {
    buf <= a < buf + size
  }

  /** The test keeps stores from the buffer's start up to the top of memory inside the buffer
      exactly when the buffer is not at address 0. */
  lemma LastByteExact(buf: nat, size: nat)
    requires buf < WORD && size < WORD
    ensures buf != 0 <==> forall a: nat :: buf <= a < WORD ==> (MayStore(a, buf, size) <==> InBuffer(a, buf, size))
    ensures buf != 0 ==> LastByte(buf, size).1 == Room(buf, size) && LastByte(buf, size).0 == buf + Room(buf, size) - 1
  {
    if buf == 0 {
      assert MayStore(WORD - 1, 0, size) && !InBuffer(WORD - 1, 0, size);
    }
  }

  /** The test for the character at position pos, behind a pointer that wraps at the top of
      memory, tells whether the buffer has a place for it. */
  predicate StoredRight(buf: nat, size: nat, pos: nat)
    requires buf < WORD
  {
    MayStore(U32(buf + pos), buf, size) <==> pos < Room(buf, size)
  }

  /** Over a whole text of `length` characters and its NUL, the test is right if and only if the
      pointer does not wrap; at address 0, if and only if the text fits. */
  lemma StoresExact(buf: nat, size: nat, length: nat)
    requires buf < WORD && size < WORD
    ensures (forall pos :: 0 <= pos <= length ==> StoredRight(buf, size, pos))
            <==> if buf == 0 then length < size else buf + length < WORD
  {
    hide StoredRight;
    if if buf == 0 then length < size else buf + length < WORD {
      forall pos | 0 <= pos <= length
        ensures StoredRight(buf, size, pos)
      {
        StoredBelow(buf, size, pos);
      }
    } else if buf != 0 {
      WrongAfterWrap(buf, size);
    } else {
      WrongAtNull(size);
    }
  }

  lemma StoredBelow(buf: nat, size: nat, pos: nat)
    requires buf < WORD && size < WORD && if buf == 0 then pos < size else buf + pos < WORD
    ensures StoredRight(buf, size, pos)
  {
    NoWrap(buf + pos);
    LastByteExact(buf, size);
    if buf == 0 {
      LastByteOfNull(size);
    } else {
      assert MayStore(buf + pos, buf, size) <==> InBuffer(buf + pos, buf, size);
    }
  }

  lemma WrongAfterWrap(buf: nat, size: nat)
    requires 0 < buf < WORD && size < WORD
    ensures !StoredRight(buf, size, WORD - buf)
  {
    FullWrap();
  }

  lemma WrongAtNull(size: nat)
    requires size < WORD
    ensures !StoredRight(0, size, size)
  {
    NoWrap(size);
    LastByteOfNull(size);
  }

  lemma NoWrap(x: nat)
    requires x < WORD
    ensures U32(x) == x
  {
  }

  lemma FullWrap()
    ensures U32(WORD) == 0
  {
  }

  lemma LastByteOfNull(size: nat)
    requires size < WORD
    ensures LastByte(0, size).0 == WORD - 1
  {
  }

  /** Bytes of the buffer below the top of memory. */
  function Room(buf: nat, size: nat): nat
    requires buf < WORD
  {
    if buf + size <= WORD then size else WORD - buf
  }

  /** The buffer holds as much of t as fits before a final NUL, and nothing after it changed. */
  ghost predicate Terminated(b: seq<char>, orig: seq<char>, t: string)
  {
    && |b| == |orig|
    && (|b| > 0 ==>
          var n := if |t| < |b| then |t| else |b| - 1;
          b[..n] == t[..n] && b[n] == '\0' && b[n + 1..] == orig[n + 1..])
  }

  /** What `vsnprintf` may be asked for: an output through which no `int` overflows and the
      pointer into a buffer at `address` does not wrap. */
  ghost predicate Representable(env: Env, fmt: CString, address: nat)
  {
    var text := Formatted(env, fmt, 0, 0).0;
    IntsFit(env, fmt, 0, 0) && |text| <= INT_MAX && address + |text| < WORD
  }

  lemma WroteLength(b: seq<char>, orig: seq<char>, str: nat, out: string)
    requires Wrote(b, orig, 0, str, out)
    ensures str == |out|
  {
  }

  lemma QualifierKeeps(p: Parsed)
    ensures ParseQualifier(p).width == p.width && ParseQualifier(p).precision == p.precision
  {
  }

  lemma PrecisionKeeps(env: Env, p: Parsed)
    ensures ParsePrecision(env, p).width == p.width
  {
    hide LeadingDigits, Decimal;
  }

  /** What each part of a directive contributes stays as it is. */
  lemma ParseParts(env: Env, s: string, args: nat)
    ensures var p0 := ParseFlags(Parsed(NO_FLAGS, -1, -1, NoQualifier, s, args));
            var p1 := ParseWidth(env, p0);
            Parse(env, s, args).width == p1.width
            && Parse(env, s, args).precision == ParsePrecision(env, p1).precision
  {
    hide ParseFlags, ParseWidth, ParsePrecision, ParseQualifier;
    var p1 := ParseWidth(env, ParseFlags(Parsed(NO_FLAGS, -1, -1, NoQualifier, s, args)));
    PrecisionKeeps(env, p1);
    QualifierKeeps(ParsePrecision(env, p1));
  }

  /** One pass of the loop: the character or directive at i0. */
  method FormatOne(env: Env, fmt: CString, i0: nat, buf: array<char>, str0: nat, end: int, args0: nat,
                   ghost orig: seq<char>, ghost out: string)
    returns (i: nat, str: nat, args: nat, stores: seq<Store>, ghost text: string)
    requires i0 < |fmt|
    requires end == buf.Length - 1 && Wrote(buf[..], orig, 0, str0, out)
    requires IntsFit(env, fmt[i0..], args0, str0)
    modifies buf
    ensures i0 < i <= |fmt| && Wrote(buf[..], orig, 0, str, out + text) && str == str0 + |text|
    ensures IntsFit(env, fmt[i..], args, str)
    ensures Formatted(env, fmt[i0..], args0, str0).0 == text + Formatted(env, fmt[i..], args, str).0
    ensures Formatted(env, fmt[i0..], args0, str0).1 == stores + Formatted(env, fmt[i..], args, str).1
  {
    hide Wrote, Directive, ParseFlags, ParseWidth, ParsePrecision, ParseQualifier;
    i, str, args, stores := i0, str0, args0, [];
    WroteLength(buf[..], orig, str, out);
    assert fmt[i0..][0] == fmt[i0] && fmt[i0..][1..] == fmt[i0 + 1..];
    if At(fmt, i) != '%' {
      str := Put(buf, str, end, At(fmt, i), orig, 0, out);
      text := [fmt[i]];
      WroteLength(buf[..], orig, str, out + text);
      i := i + 1;
      return;
    }
    var flags, width, precision, qualifier;
    ParseParts(env, fmt[i0 + 1..], args);
    flags, i := ScanFlags(fmt, i, args);
    flags, width, i, args := ScanWidth(env, fmt, i, flags, args);
    precision, i, args := ScanPrecision(env, fmt, i, args, flags, width);
    qualifier, i := ScanQualifier(fmt, i, Parsed(flags, width, precision, NoQualifier, fmt[i..], args));
    ghost var p := Parsed(flags, width, precision, qualifier, fmt[i..], args);
    assert Parse(env, fmt[i0 + 1..], args0) == p;
    text := Directive(env, p, str).text;
    i, str, args, stores := Convert(env, fmt, i, buf, str, end, flags, width, precision, qualifier, args, orig, out);
    WroteLength(buf[..], orig, str, out + text);
    i := i + 1;
  }

  /** `vsnprintf`: the whole text is counted, as much of it as fits is stored, and the buffer is
      NUL-terminated if it has any room at all. */
  method Vsnprintf(env: Env, buf: array<char>, address: nat, size0: nat, fmt: CString)
    returns (written: Int, stores: seq<Store>)
    requires 0 < address < WORD && size0 < WORD && buf.Length == Room(address, size0)
    requires Representable(env, fmt, address)
    modifies buf
    ensures written == |Formatted(env, fmt, 0, 0).0|
    ensures stores == Formatted(env, fmt, 0, 0).1
    ensures Terminated(buf[..], old(buf[..]), Formatted(env, fmt, 0, 0).0)
  {
    hide Formatted, IntsFit;
    LastByteExact(address, size0);
    var size := LastByte(address, size0).1;
    var end := LastByte(address, size0).0 - address;
    var i: nat, str: nat, args: nat := 0, 0, 0;
    stores := [];
    ghost var orig, out, all := buf[..], "", Formatted(env, fmt, 0, 0);
    WroteNothing(orig, 0);
    assert fmt[0..] == fmt;
    while At(fmt, i) != '\0'
      invariant i <= |fmt| && Wrote(buf[..], orig, 0, str, out)
      invariant all.0 == out + Formatted(env, fmt[i..], args, str).0
      invariant all.1 == stores + Formatted(env, fmt[i..], args, str).1
      invariant IntsFit(env, fmt[i..], args, str)
      decreases |fmt| - i
    {
      var more;
      ghost var text, rest, tail := "", Formatted(env, fmt[i..], args, str), out;
      i, str, args, more, text := FormatOne(env, fmt, i, buf, str, end, args, orig, out);
      assert all.0 == out + text + Formatted(env, fmt[i..], args, str).0;
      assert all.1 == stores + more + Formatted(env, fmt[i..], args, str).1;
      out, stores := out + text, stores + more;
    }
    assert fmt[i..] == "";
    FormattedEmpty(env, args, str);
    assert all.0 == out && all.1 == stores;
    if str <= end {
      buf[str] := '\0';
    } else if size > 0 {
      buf[end] := '\0';
    }
    Clipped(buf[..], orig, out, str);
    written := str;
  }

  lemma FormattedEmpty(env: Env, args: nat, pos: nat)
    ensures Formatted(env, "", args, pos) == ("", [])
  {
  }

  lemma Clipped(b: seq<char>, orig: seq<char>, t: string, str: nat)
    requires |b| == |orig| && str == |t|
    requires |b| > 0 ==> b == Emit(orig, 0, t)[(if str < |b| then str else |b| - 1) := '\0']
    ensures Terminated(b, orig, t)
  {
    if |b| > 0 {
      var n := if |t| < |b| then |t| else |b| - 1;
      assert forall i :: 0 <= i < n ==> b[i] == t[i];
      assert forall i :: n < i < |b| ==> b[i] == orig[i];
    }
  }
}
