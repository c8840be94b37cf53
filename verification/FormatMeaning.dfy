/** What a reader sees of each directive: the characters it leaves, said without the functions that
    put them together. */
module FormatMeaning {
  import opened Bits
  import opened FormatDirectives
  import opened FormatFacts
  import opened FormatSpec
  import opened Machine

  // ----- padding -----

  /** Spaces around a core, on one side only, up to a width. */
  ghost predicate Placed(text: string, core: string, width: int, left: bool)
  {
    exists lead: nat, tail: nat ::
      && text == Repeat(' ', lead) + core + Repeat(' ', tail)
      && |text| == Max(width, |core|)
      && (if left then lead == 0 else tail == 0)
  }

  lemma PaddedPlaced(t: string, width: int, left: bool)
    ensures Placed(Padded(t, width, left), t, width, left)
  {
    var fill := if width > |t| then width - |t| else 0;
    var lead, tail: nat := if left then 0 else fill, if left then fill else 0;
    assert Repeat(' ', 0) == "" && Repeat(' ', width - |t|) == Repeat(' ', fill);
    assert Padded(t, width, left) == Repeat(' ', lead) + t + Repeat(' ', tail);
  }

  /** The placement leaves no choice. */
  lemma PlacedUnique(s: string, t: string, core: string, width: int, left: bool)
    requires Placed(s, core, width, left) && Placed(t, core, width, left)
    ensures s == t
  {
  }

  // ----- numbers -----

  /** A number written out: sign, prefix, zeros and digits. */
  predicate Core(core: string, sign: string, prefix: string, digits: string, zeros: nat)
  {
    core == sign + prefix + Repeat('0', zeros) + digits
  }

  /** A number in its field: at least `precision` digits, zeros in front of them if need be; then
      spaces up to the width, or zeros behind the prefix where those are asked for. */
  ghost predicate NumberPlaced(text: string, sign: string, prefix: string, digits: string,
                               width: int, precision: int, left: bool, zeropad: bool)
  {
    exists core, zeros ::
      && Core(core, sign, prefix, digits, zeros)
      && Placed(text, core, width, left)
      && (if zeropad && !left then |core| == Max(width, |sign| + |prefix| + Max(precision, |digits|))
          else zeros == Max(precision - |digits|, 0))
  }

  lemma NumberShape(num: Num, base: nat, width: int, precision: int, f: Flags)
    requires 2 <= base <= 36
    ensures NumberPlaced(NumberText(num, base, width, precision, f), SignText(num, f), PrefixText(base, f),
                         Digits(Magnitude(num, f), base, f.large), width, precision, f.left, f.zeropad)
  {
    hide SignText, PrefixText, Digits, Magnitude;
    var sign, prefix, digits := SignText(num, f), PrefixText(base, f), Digits(Magnitude(num, f), base, f.large);
    var least := Max(precision - |digits|, 0);
    var fill := Max(width - |sign| - |prefix| - |digits| - least, 0);
    var zeros: nat := if f.zeropad && !f.left then least + fill else least;
    var core := sign + prefix + Repeat('0', zeros) + digits;
    var text := NumberText(num, base, width, precision, f);
    NumberAssembled(num, base, width, precision, f, zeros);
    PaddedPlaced(core, width, f.left);
    assert Core(core, sign, prefix, digits, zeros) && Placed(text, core, width, f.left);
  }

  lemma NumberAssembled(num: Num, base: nat, width: int, precision: int, f: Flags, zeros: nat)
    requires 2 <= base <= 36
    requires var digits := Digits(Magnitude(num, f), base, f.large);
             var least := Max(precision - |digits|, 0);
             var fill := Max(width - |SignText(num, f)| - |PrefixText(base, f)| - |digits| - least, 0);
             zeros == if f.zeropad && !f.left then least + fill else least
    ensures NumberText(num, base, width, precision, f)
            == Padded(SignText(num, f) + PrefixText(base, f) + Repeat('0', zeros)
                      + Digits(Magnitude(num, f), base, f.large), width, f.left)
  {
    hide SignText, PrefixText, Digits, Magnitude;
    var sign, prefix, digits := SignText(num, f), PrefixText(base, f), Digits(Magnitude(num, f), base, f.large);
    var least := Max(precision - |digits|, 0);
    var fill := width - |sign| - |prefix| - |digits| - least;
    RepeatNone('0', precision - |digits|);
    RepeatNone(' ', fill);
    RepeatMore('0', Max(fill, 0), least);
    RepeatNone('0', fill);
    hide Repeat;
    if f.zeropad && !f.left {
      var core := sign + prefix + (Repeat('0', Max(fill, 0)) + Repeat('0', least)) + digits;
      assert core == sign + prefix + Repeat('0', Max(fill, 0)) + (Repeat('0', least) + digits);
      RepeatNothing(' ', width - |core|);
      assert "" + core == core;
    } else {
      var core := sign + prefix + Repeat('0', least) + digits;
      assert core == sign + prefix + (Repeat('0', least) + digits);
      assert Repeat(' ', Max(fill, 0)) + core
             == Repeat(' ', Max(fill, 0)) + (sign + prefix) + (Repeat('0', least) + digits);
      RepeatNone(' ', width - |core|);
    }
  }

  lemma RepeatNone(c: char, n: int)
    ensures Repeat(c, n) == Repeat(c, Max(n, 0)) && |Repeat(c, n)| == Max(n, 0)
  {
  }

  lemma RepeatNothing(c: char, n: int)
    requires n <= 0
    ensures Repeat(c, n) == ""
  {
  }

  lemma RepeatMore(c: char, m: nat, n: nat)
    ensures Repeat(c, m) + Repeat(c, n) == Repeat(c, m + n)
  {
  }

  /** Field, digits and signs of a number leave no choice. */
  lemma NumberPlacedUnique(s: string, t: string, sign: string, prefix: string, digits: string,
                           width: int, precision: int, left: bool, zeropad: bool)
    requires NumberPlaced(s, sign, prefix, digits, width, precision, left, zeropad)
    requires NumberPlaced(t, sign, prefix, digits, width, precision, left, zeropad)
    ensures s == t
  {
    var core, zeros :| Core(core, sign, prefix, digits, zeros) && Placed(s, core, width, left)
      && (if zeropad && !left then |core| == Max(width, |sign| + |prefix| + Max(precision, |digits|))
          else zeros == Max(precision - |digits|, 0));
    var core', zeros' :| Core(core', sign, prefix, digits, zeros') && Placed(t, core', width, left)
      && (if zeropad && !left then |core'| == Max(width, |sign| + |prefix| + Max(precision, |digits|))
          else zeros' == Max(precision - |digits|, 0));
    hide Placed;
    assert zeros == zeros';
    PlacedUnique(s, t, core, width, left);
  }

  /** The digits of a number in a base: no digit is wasted, and letters are of one case. */
  predicate Denotes(digits: string, n: nat, base: nat, large: bool)
  {
    && Value(digits, base) == n
    && digits != "" && (digits[0] == '0' <==> digits == "0")
    && forall i :: 0 <= i < |digits| ==>
         IsDigit(digits[i]) || (if large then 'A' <= digits[i] <= 'F' else 'a' <= digits[i] <= 'f')
  }

  lemma DigitsDenote(n: nat, base: nat, large: bool)
    requires 2 <= base <= 16
    ensures Denotes(Digits(n, base, large), n, base, large)
  {
    DigitsValue(n, base, large);
    DigitsMinimal(n, base, large);
    DigitsCase(n, base, large);
    if Digits(n, base, large) == "0" {
      assert Digits(n, base, large)[0] == '0';
    }
  }

  lemma {:induction false} DigitsCase(n: nat, base: nat, large: bool)
    requires 2 <= base <= 16
    ensures forall i :: 0 <= i < |Digits(n, base, large)| ==>
              var c := Digits(n, base, large)[i]; IsDigit(c) || (if large then 'A' <= c <= 'F' else 'a' <= c <= 'f')
    decreases n
  {
    if n < base {
      DigitCase(n, large);
    } else {
      DivSmaller(n, base);
      DigitsCase(n / base, base, large);
      DigitCase(n % base, large);
    }
  }

  lemma DigitCase(d: nat, large: bool)
    requires d < 16
    ensures var c := DigitChar(d, large); IsDigit(c) || (if large then 'A' <= c <= 'F' else 'a' <= c <= 'f')
  {
    hide DigitChar;
    if large {
      LargeDigit(d);
    } else {
      SmallDigit(d);
    }
  }

  // ----- directives -----

  function Abs(v: int): nat
  {
    if v < 0 then -v else v
  }

  predicate Signing(sp: Spec)
  {
    Conversion(sp) == 'd' || Conversion(sp) == 'i'
  }

  /** The value an integer directive prints. */
  function ValueOf(env: Env, sp: Spec, args: nat): int
  {
    var num := IntegerArgument(env, QualifierOf(sp), Signing(sp), args + Stars(sp));
    if Signing(sp) then Signed64(num) else num
  }

  function BaseOf(sp: Spec): nat
  {
    if Conversion(sp) == 'o' then 8 else if Conversion(sp) == 'x' || Conversion(sp) == 'X' then 16 else 10
  }

  function SignOf(sp: Spec, v: int): string
  {
    if v < 0 then "-"
    else if Signing(sp) && '+' in sp.flags then "+"
    else if Signing(sp) && ' ' in sp.flags then " "
    else ""
  }

  function PrefixOf(sp: Spec): string
  {
    if '#' !in sp.flags then ""
    else if Conversion(sp) == 'o' then "0"
    else if Conversion(sp) == 'x' then "0x"
    else if Conversion(sp) == 'X' then "0X"
    else ""
  }

  lemma Alone(env: Env, sp: Spec, args: nat, pos: nat)
    requires Written(sp, "")
    ensures var p := Read(env, sp, "", args);
            && Formatted(env, "%" + Show(sp), args, pos) == (Directive(env, p, pos).text, Directive(env, p, pos).stores)
            && p.rest == sp.conversion && |sp.conversion| <= 1
  {
    hide Directive, Formatted, Show, Separate;
    DirectiveAlone(env, sp, args, pos);
    assert sp.conversion + "" == sp.conversion;
  }

  /** An integer directive, with any flags, width, precision and qualifier: sign and prefix as its
      characters ask for, and digits that denote the value, placed in the field. */
  lemma IntegerDirective(env: Env, sp: Spec, args: nat, pos: nat) returns (digits: string)
    requires Written(sp, "") && Conversion(sp) in "diuoxX"
    ensures var v := ValueOf(env, sp, args);
            && Denotes(digits, Abs(v), BaseOf(sp), Conversion(sp) == 'X')
            && NumberPlaced(Formatted(env, "%" + Show(sp), args, pos).0, SignOf(sp, v), PrefixOf(sp), digits,
                            WidthOf(env, sp.width, args), PrecisionOf(env, sp.precision, args + Taken(sp.width)),
                            LeftOf(env, sp, args), '0' in sp.flags)
  {
    hide Directive, Formatted, Show, Written, WidthOf, PrecisionOf, LeftOf, IntegerArgument, NumberPlaced, Denotes;
    hide QualifierOf, NumberText, SignText, PrefixText, SignOf, PrefixOf, Digits, Magnitude, BaseOf, Abs;
    var num := IntegerArgument(env, QualifierOf(sp), Signing(sp), args + Stars(sp));
    var p := Read(env, sp, "", args);
    var f := p.flags.(sign := Signing(sp), large := Conversion(sp) == 'X');
    Alone(env, sp, args, pos);
    IntegerText(env, sp, p, pos);
    BaseFits(sp);
    NumberShape(num, BaseOf(sp), p.width, p.precision, f);
    HeadShown(env, sp, args, num, f);
    digits := Digits(Magnitude(num, f), BaseOf(sp), f.large);
    DigitsDenote(Magnitude(num, f), BaseOf(sp), f.large);
  }

  lemma BaseFits(sp: Spec)
    ensures 2 <= BaseOf(sp) <= 16
  {
  }

  lemma IntegerText(env: Env, sp: Spec, p: Parsed, pos: nat)
    requires Conversion(sp) in "diuoxX" && p.rest == sp.conversion && !p.flags.sign && !p.flags.large
    ensures var f := p.flags.(sign := Signing(sp), large := Conversion(sp) == 'X');
            var num := IntegerArgument(env, p.qualifier, Signing(sp), p.args);
            Directive(env, p, pos).text == NumberText(num, BaseOf(sp), p.width, p.precision, f)
  {
    hide NumberText, IntegerArgument;
  }

  lemma HeadShown(env: Env, sp: Spec, args: nat, num: Num, f: Flags)
    requires Conversion(sp) in "diuoxX"
    requires f == Read(env, sp, "", args).flags.(sign := Signing(sp), large := Conversion(sp) == 'X')
    ensures var v: int := if Signing(sp) then Signed64(num) else num;
            && SignText(num, f) == SignOf(sp, v) && Magnitude(num, f) == Abs(v)
            && PrefixText(BaseOf(sp), f) == PrefixOf(sp)
  {
    hide WidthOf, PrecisionOf, LeftOf, QualifierOf;
  }

  /** `%p`: the argument in base 16, with leading zeros up to eight characters if no width is given. */
  lemma PointerDirective(env: Env, sp: Spec, args: nat, pos: nat) returns (digits: string)
    requires Written(sp, "") && Conversion(sp) == 'p'
    ensures Denotes(digits, env.word(args + Stars(sp)), 16, false)
    ensures NumberPlaced(Formatted(env, "%" + Show(sp), args, pos).0, "", if '#' in sp.flags then "0x" else "", digits,
                         if sp.width.Absent? then 8 else WidthOf(env, sp.width, args),
                         PrecisionOf(env, sp.precision, args + Taken(sp.width)), LeftOf(env, sp, args),
                         sp.width.Absent? || '0' in sp.flags)
  {
    hide Directive, Formatted, Show, Written, PrecisionOf, LeftOf, NumberPlaced, Denotes, NumberText, QualifierOf;
    hide Digits, Decimal, Signed;
    var p := Read(env, sp, "", args);
    var width := if sp.width.Absent? then 8 else p.width;
    var f := if sp.width.Absent? then p.flags.(zeropad := true) else p.flags;
    Alone(env, sp, args, pos);
    PointerText(env, p, pos);
    NumberShape(env.word(p.args), 16, width, p.precision, f);
    digits := Digits(env.word(p.args), 16, false);
    DigitsDenote(env.word(p.args), 16, false);
  }

  lemma PointerText(env: Env, p: Parsed, pos: nat)
    requires p.rest != "" && p.rest[0] == 'p'
    ensures Directive(env, p, pos).text
            == NumberText(env.word(p.args), 16, if p.width == -1 then 8 else p.width, p.precision,
                          if p.width == -1 then p.flags.(zeropad := true) else p.flags)
  {
    hide NumberText;
  }

  /** `%c`: the low byte of the argument. */
  lemma CharDirective(env: Env, sp: Spec, args: nat, pos: nat)
    requires Written(sp, "") && Conversion(sp) == 'c'
    ensures Placed(Formatted(env, "%" + Show(sp), args, pos).0, [(env.word(args + Stars(sp)) % 256) as char],
                   WidthOf(env, sp.width, args), LeftOf(env, sp, args))
  {
    hide Directive, Formatted, Show, Written, WidthOf, PrecisionOf, LeftOf, Placed, Padded, QualifierOf;
    var p := Read(env, sp, "", args);
    Alone(env, sp, args, pos);
    CharText(env, p, pos);
    PaddedPlaced([(env.word(p.args) % 256) as char], p.width, p.flags.left);
  }

  lemma CharText(env: Env, p: Parsed, pos: nat)
    requires p.rest != "" && p.rest[0] == 'c'
    ensures Directive(env, p, pos).text == Padded([(env.word(p.args) % 256) as char], p.width, p.flags.left)
  {
    hide Padded;
  }

  /** `%s`: the argument's string, cut off at the precision if one is given. */
  lemma StringDirective(env: Env, sp: Spec, args: nat, pos: nat)
    requires Written(sp, "") && Conversion(sp) == 's'
    ensures var address := env.word(args + Stars(sp));
            var s: string := if address < 4096 then "<NULL>" else env.text(address);
            var precision := PrecisionOf(env, sp.precision, args + Taken(sp.width));
            var k := if 0 <= precision < |s| then precision else |s|;
            Placed(Formatted(env, "%" + Show(sp), args, pos).0, s[..k],
                   WidthOf(env, sp.width, args), LeftOf(env, sp, args))
  {
    hide Directive, Formatted, Show, Written, WidthOf, PrecisionOf, LeftOf, Placed, Padded, QualifierOf;
    var p := Read(env, sp, "", args);
    Alone(env, sp, args, pos);
    StringText(env, p, pos);
    var s := StringArgument(env, env.word(p.args));
    assert s[..|s|] == s;
    PaddedPlaced(Truncated(s, p.precision), p.width, p.flags.left);
  }

  lemma StringText(env: Env, p: Parsed, pos: nat)
    requires p.rest != "" && p.rest[0] == 's'
    ensures Directive(env, p, pos).text
            == Padded(Truncated(StringArgument(env, env.word(p.args)), p.precision), p.width, p.flags.left)
  {
    hide Padded, Truncated, StringArgument;
  }

  /** `%n` writes nothing and stores the number of characters before it; no other directive stores
      anything. */
  lemma CountDirective(env: Env, sp: Spec, args: nat, pos: nat)
    requires Written(sp, "")
    ensures Conversion(sp) == 'n' ==> Formatted(env, "%" + Show(sp), args, pos).0 == ""
    ensures Formatted(env, "%" + Show(sp), args, pos).1
            == if Conversion(sp) == 'n' then [Store(env.word(args + Stars(sp)), pos)] else []
  {
    hide Directive, Formatted, Show, Written, WidthOf, PrecisionOf, LeftOf, QualifierOf;
    Alone(env, sp, args, pos);
    CountStores(env, Read(env, sp, "", args), pos);
  }

  lemma CountStores(env: Env, p: Parsed, pos: nat)
    ensures p.rest != "" && p.rest[0] == 'n' ==> Directive(env, p, pos).text == ""
    ensures Directive(env, p, pos).stores
            == if p.rest != "" && p.rest[0] == 'n' then [Store(env.word(p.args), pos)] else []
  {
    hide Padded, NumberText, IntegerArgument;
  }

  /** `%%` is one percent sign; an unknown conversion is written as it stands, without its flags,
      width and precision; and a directive cut off by the end of the format is a percent sign. */
  lemma OtherDirective(env: Env, sp: Spec, args: nat, pos: nat)
    requires Written(sp, "") && Conversion(sp) !in "cspndiuoxX"
    ensures Formatted(env, "%" + Show(sp), args, pos).0 == if Conversion(sp) == '%' then "%" else "%" + sp.conversion
  {
    hide Directive, Formatted, Show, Written, WidthOf, PrecisionOf, LeftOf, QualifierOf;
    Alone(env, sp, args, pos);
    OtherText(env, sp, Read(env, sp, "", args), pos);
  }

  lemma OtherText(env: Env, sp: Spec, p: Parsed, pos: nat)
    requires Conversion(sp) !in "cspndiuoxX" && p.rest == sp.conversion && |sp.conversion| <= 1
    ensures Directive(env, p, pos).text == if Conversion(sp) == '%' then "%" else "%" + sp.conversion
  {
    hide Padded, NumberText, IntegerArgument;
    if sp.conversion == "" {
      assert "%" + sp.conversion == "%";
    } else {
      assert sp.conversion == [sp.conversion[0]];
    }
  }

  /** Directives without width and precision. */
  lemma PlainShown(flags: string, q: string, c: char)
    requires forall i :: 0 <= i < |flags| ==> flags[i] in "-+ #0"
    requires q in ["", "h", "l", "ll", "L", "Z", "z"] && c in "cspnduioxX"
    ensures var sp := Spec(flags, Absent, Absent, q, [c]);
            Written(sp, "") && "%" + Show(sp) == "%" + flags + q + [c]
  {
    var sp := Spec(flags, Absent, Absent, q, [c]);
    PlainTail(q, c);
    hide StartsOff;
    assert FromQualifier(sp) == q + [c];
    assert FromPrecision(sp) == q + [c];
    assert FromWidth(sp) == q + [c];
    assert "%" + (flags + (q + [c])) == "%" + flags + q + [c];
  }

  lemma PlainTail(q: string, c: char)
    requires q in ["", "h", "l", "ll", "L", "Z", "z"] && c in "cspnduioxX"
    ensures StartsOff(q + [c], "-+ #0") && StartsOff(q + [c], "*0123456789") && StartsOff(q + [c], ".")
    ensures StartsOff([c], "hlLZz") && StartsOff([c], "l")
  {
  }

  /** Behind any format, `%n` stores how many characters that format has produced. */
  lemma CountStored(env: Env, items: seq<Item>, args: nat, pos: nat)
    requires AllWritten(items)
    requires items != [] && items[|items| - 1].Instruction? ==> items[|items| - 1].spec.conversion != ""
    ensures var first := Formatted(env, ShowAll(items), args, pos);
            Formatted(env, ShowAll(items) + "%n", args, pos)
            == (first.0, first.1 + [Store(env.word(args + WordsOf(items)), pos + |first.0|)])
  {
    hide Formatted, Written, Show, AllWritten;
    var sp := Spec("", Absent, Absent, "", "n");
    PlainShown("", "", 'n');
    assert "%" + "" + "" + ['n'] == "%n";
    var first := Formatted(env, ShowAll(items), args, pos);
    FormatsCompose(env, items, "%n", args, pos);
    CountDirective(env, sp, args + WordsOf(items), pos + |first.0|);
    assert first.0 + "" == first.0;
  }

  // ----- common directives -----

  /** What an unsigned directive with some qualifier prints of its argument words. */
  function UnsignedArgument(env: Env, q: string, args: nat): nat
  {
    if q == "ll" || q == "L" then env.word(args) + env.word(args + 1) * WORD
    else if q == "h" then env.word(args) % 0x1_0000
    else env.word(args)
  }

  /** The same bits read as a signed number of as many bits; a `z` argument has no negative values. */
  function SignedArgument(env: Env, q: string, args: nat): int
  {
    var n := UnsignedArgument(env, q, args);
    var bits: int := if q == "ll" || q == "L" then DWORD else if q == "h" then 0x1_0000 else WORD;
    if q == "z" || q == "Z" || 2 * n < bits then n else n - bits
  }

  lemma LongWord(low: Word, high: Word)
    ensures low + high * WORD < DWORD
  {
  }

  /** A signed argument has the bits of the unsigned one, in two's complement. */
  lemma SignedArgumentMeans(env: Env, q: string, args: nat)
    requires q in ["", "h", "l", "ll", "L"]
    ensures var v, n := SignedArgument(env, q, args), UnsignedArgument(env, q, args);
            var bits: int := if q == "ll" || q == "L" then DWORD else if q == "h" then 0x1_0000 else WORD;
            -bits <= 2 * v < bits && (v - n) % bits == 0
    ensures q == "" || q == "l" ==> SignedArgument(env, q, args) == Signed(env.word(args))
  {
    var n := UnsignedArgument(env, q, args);
    LongWord(env.word(args), env.word(args + 1));
  }

  lemma ArgumentShown(env: Env, sp: Spec, args: nat)
    requires sp.qualifier in ["", "h", "l", "ll", "L", "Z", "z"] && Stars(sp) == 0
    ensures ValueOf(env, sp, args)
            == if Signing(sp) then SignedArgument(env, sp.qualifier, args)
               else UnsignedArgument(env, sp.qualifier, args)
  {
    SmallQualifier(sp);
    hide QualifierOf;
    LongWord(env.word(args), env.word(args + 1));
  }

  lemma SmallQualifier(sp: Spec)
    requires sp.qualifier in ["", "h", "l", "ll", "L", "Z", "z"]
    ensures QualifierOf(sp) == LongLong <==> sp.qualifier == "ll" || sp.qualifier == "L"
    ensures QualifierOf(sp) == Short <==> sp.qualifier == "h"
    ensures QualifierOf(sp) == Size <==> sp.qualifier == "z" || sp.qualifier == "Z"
  {
  }

  /** Without width and precision nothing is padded. */
  lemma Unpadded(text: string, sign: string, prefix: string, digits: string)
    requires NumberPlaced(text, sign, prefix, digits, -1, -1, false, false)
    ensures text == sign + prefix + digits
  {
    var core, zeros :| Core(core, sign, prefix, digits, zeros) && Placed(text, core, -1, false)
      && zeros == Max(-1 - |digits|, 0);
    assert sign + prefix + "" == sign + prefix;
    assert core == sign + prefix + digits;
  }

  /** An integer directive with at most one flag and no width or precision. */
  lemma PlainInteger(env: Env, flags: string, q: string, c: char, args: nat, pos: nat) returns (digits: string)
    requires flags == "" || flags == "+" || flags == " " || flags == "#"
    requires q in ["", "h", "l", "ll", "L", "Z", "z"] && c in "diuoxX"
    ensures var sp := Spec(flags, Absent, Absent, q, [c]);
            var v := if c == 'd' || c == 'i' then SignedArgument(env, q, args) else UnsignedArgument(env, q, args);
            && Formatted(env, "%" + flags + q + [c], args, pos).0 == SignOf(sp, v) + PrefixOf(sp) + digits
            && Denotes(digits, Abs(v), if c == 'o' then 8 else if c == 'x' || c == 'X' then 16 else 10, c == 'X')
  {
    hide Formatted, Written, Show, Denotes, NumberPlaced, SignOf, PrefixOf, ValueOf, SignedArgument, UnsignedArgument;
    var sp := Spec(flags, Absent, Absent, q, [c]);
    PlainShown(flags, q, c);
    digits := IntegerDirective(env, sp, args, pos);
    ArgumentShown(env, sp, args);
    Unpadded(Formatted(env, "%" + Show(sp), args, pos).0, SignOf(sp, ValueOf(env, sp, args)), PrefixOf(sp), digits);
  }

  lemma NoFlagHead(q: string, c: char, v: int)
    ensures var sp := Spec("", Absent, Absent, q, [c]);
            SignOf(sp, v) == (if v < 0 then "-" else "") && PrefixOf(sp) == ""
  {
  }

  /** `%u`, `%o`, `%x` and `%X` with any qualifier: the text denotes the argument in base 10, 8 or 16,
      in letters of the conversion's case. */
  lemma UnsignedRoundTrip(env: Env, q: string, c: char, args: nat, pos: nat)
    requires q in ["", "h", "l", "ll", "L", "Z", "z"] && c in "uoxX"
    ensures Denotes(Formatted(env, "%" + q + [c], args, pos).0, UnsignedArgument(env, q, args),
                    if c == 'o' then 8 else if c == 'u' then 10 else 16, c == 'X')
  {
    hide Formatted, Denotes, UnsignedArgument, SignedArgument;
    var digits := PlainInteger(env, "", q, c, args, pos);
    assert "%" + "" + q + [c] == "%" + q + [c];
    NoFlagHead(q, c, UnsignedArgument(env, q, args));
    hide SignOf, PrefixOf;
    assert "" + "" + digits == digits;
  }

  /** `%u`, `%o`, `%x` and `%X` of an `int` or a `long`: the text denotes the argument word. */
  lemma WordRoundTrip(env: Env, long: bool, c: char, args: nat, pos: nat)
    requires c in "uoxX"
    ensures Value(Formatted(env, (if long then "%l" else "%") + [c], args, pos).0,
                  if c == 'o' then 8 else if c == 'u' then 10 else 16)
            == env.word(args)
  {
    hide Formatted, Value;
    var q := if long then "l" else "";
    UnsignedRoundTrip(env, q, c, args, pos);
    assert "%" + q + [c] == (if long then "%l" else "%") + [c];
  }

  /** `%d` and `%i` with any qualifier: a minus sign for exactly the negative arguments, then the
      magnitude. */
  lemma SignedDirective(env: Env, q: string, c: char, args: nat, pos: nat)
    requires q in ["", "h", "l", "ll", "L", "Z", "z"] && c in "di"
    ensures var text, v := Formatted(env, "%" + q + [c], args, pos).0, SignedArgument(env, q, args);
            if v < 0 then text != "" && text[0] == '-' && Denotes(text[1..], -v, 10, false)
            else Denotes(text, v, 10, false)
  {
    hide Formatted, Denotes, SignedArgument;
    var digits := PlainInteger(env, "", q, c, args, pos);
    assert "%" + "" + q + [c] == "%" + q + [c];
    NoFlagHead(q, c, SignedArgument(env, q, args));
    hide SignOf, PrefixOf;
    assert "" + "" + digits == digits;
    assert ("-" + "" + digits)[1..] == digits;
  }

  /** `%+d` and `% d`: the flag stands where the minus sign would. */
  lemma SignFlag(env: Env, flag: char, q: string, args: nat, pos: nat)
    requires q in ["", "h", "l", "ll", "L", "Z", "z"] && flag in "+ "
    ensures var text, v := Formatted(env, "%" + [flag] + q + "d", args, pos).0, SignedArgument(env, q, args);
            && text != "" && text[0] == (if v < 0 then '-' else flag)
            && Denotes(text[1..], if v < 0 then -v else v, 10, false)
  {
    hide Formatted, Denotes, SignedArgument;
    var digits := PlainInteger(env, [flag], q, 'd', args, pos);
    var sign := if SignedArgument(env, q, args) < 0 then "-" else [flag];
    assert (sign + "" + digits)[1..] == digits;
  }

  /** `%#o`, `%#x` and `%#X`: the prefix, even of zero, and the argument in that base. */
  lemma PrefixFlag(env: Env, q: string, c: char, args: nat, pos: nat)
    requires q in ["", "h", "l", "ll", "L", "Z", "z"] && c in "oxX"
    ensures var text := Formatted(env, "%#" + q + [c], args, pos).0;
            var prefix := if c == 'o' then "0" else ['0', c];
            && prefix <= text
            && Denotes(text[|prefix|..], UnsignedArgument(env, q, args), if c == 'o' then 8 else 16, c == 'X')
  {
    hide Formatted, Denotes, UnsignedArgument, SignedArgument;
    var digits := PlainInteger(env, "#", q, c, args, pos);
    assert "%" + "#" + q + [c] == "%#" + q + [c];
    var prefix := if c == 'o' then "0" else ['0', c];
    assert ("" + prefix + digits)[|prefix|..] == digits;
  }

  // ----- fields -----

  /** A width in digits: the first one is not '0', which would be a flag. */
  predicate IsWidth(w: string)
  {
    w != "" && AllDigits(w) && w[0] != '0'
  }

  /** Directives with a width or a precision. */
  lemma FieldShown(flags: string, width: Amount, precision: Amount, c: char)
    requires flags == "" || flags == "-" || flags == "0"
    requires width.Given? ==> IsWidth(width.digits)
    requires precision == Absent || (precision.Given? && AllDigits(precision.digits))
    requires c in "cspnduioxX"
    ensures var sp := Spec(flags, width, precision, "", [c]);
            && Written(sp, "")
            && "%" + Show(sp) == "%" + flags + ShowAmount(width)
                                 + (if precision.Absent? then "" else "." + ShowAmount(precision)) + [c]
  {
    var sp := Spec(flags, width, precision, "", [c]);
    PlainTail("", c);
    assert "" + [c] == [c];
    FieldStarts(width, precision, c);
    FieldText(sp);
    var dot := if precision.Absent? then "" else "." + ShowAmount(precision);
    hide StartsOff, AmountEnds, IsWidth, ShowAmount, FromQualifier, FromPrecision, FromWidth, Show;
    Regroup(flags, ShowAmount(width), dot, [c]);
  }

  lemma FieldText(sp: Spec)
    requires sp.qualifier == ""
    ensures var dot := if sp.precision.Absent? then "" else "." + ShowAmount(sp.precision);
            && FromQualifier(sp) == sp.conversion && FromPrecision(sp) == dot + sp.conversion
            && FromWidth(sp) == ShowAmount(sp.width) + (dot + sp.conversion)
            && Show(sp) == sp.flags + (ShowAmount(sp.width) + (dot + sp.conversion))
  {
    hide ShowAmount;
    assert "" + sp.conversion == sp.conversion;
  }

  lemma Regroup(a: string, b: string, c: string, d: string)
    ensures "%" + (a + (b + (c + d))) == "%" + a + b + c + d
  {
  }

  lemma FieldStarts(width: Amount, precision: Amount, c: char)
    requires width.Given? ==> IsWidth(width.digits)
    requires precision == Absent || (precision.Given? && AllDigits(precision.digits))
    requires c in "cspnduioxX"
    ensures var dot := if precision.Absent? then "" else "." + ShowAmount(precision);
            && AmountEnds(width, dot + [c]) && StartsOff(ShowAmount(width) + (dot + [c]), "-+ #0")
            && (precision.Absent? || AmountEnds(precision, [c])) && width != Given("")
  {
    PlainTail("", c);
    assert "" + [c] == [c];
    if width.Given? {
      WidthStarts(width.digits);
    }
  }

  lemma WidthStarts(w: string)
    requires IsWidth(w)
    ensures w[0] !in "-+ #0"
  {
  }

  /** The string an argument points to. */
  function StringAt(env: Env, args: nat): string
  {
    if env.word(args) < 4096 then "<NULL>" else env.text(env.word(args))
  }

  /** `%5s` and `%-5s`, for every width: spaces in front of the whole string, or behind it. */
  lemma StringField(env: Env, w: string, left: bool, args: nat, pos: nat)
    requires IsWidth(w)
    ensures Placed(Formatted(env, (if left then "%-" else "%") + w + "s", args, pos).0,
                   StringAt(env, args), Decimal(w), left)
  {
    hide Formatted, Written, Show, Placed, IsWidth, Decimal;
    var flags := if left then "-" else "";
    var sp := Spec(flags, Given(w), Absent, "", "s");
    FieldShown(flags, Given(w), Absent, 's');
    assert "%" + flags + w + "" + ['s'] == (if left then "%-" else "%") + w + "s";
    WidthDigits(w);
    StringDirective(env, sp, args, pos);
    var s := StringAt(env, args);
    assert s[..|s|] == s;
  }

  lemma WidthDigits(w: string)
    requires IsWidth(w)
    ensures AllDigits(w)
  {
  }

  /** `%*s`: the width is the next argument, and a negative one asks for left justification. */
  lemma StringStar(env: Env, args: nat, pos: nat)
    ensures var w: int := Signed(env.word(args));
            Placed(Formatted(env, "%*s", args, pos).0, StringAt(env, args + 1), Abs(w), w < 0)
  {
    hide Formatted, Written, Show, Placed;
    var sp := Spec("", Star, Absent, "", "s");
    FieldShown("", Star, Absent, 's');
    assert "%" + "" + "*" + "" + ['s'] == "%*s";
    StringDirective(env, sp, args, pos);
    var s := StringAt(env, args + 1);
    assert s[..|s|] == s;
  }

  /** `%.2s`, for every precision: the string up to that many characters. */
  lemma StringCut(env: Env, w: string, args: nat, pos: nat)
    requires AllDigits(w)
    ensures var s := StringAt(env, args);
            Formatted(env, "%." + w + "s", args, pos).0 == s[..if Decimal(w) < |s| then Decimal(w) else |s|]
  {
    hide Formatted, Written, Show, Decimal;
    var sp := Spec("", Absent, Given(w), "", "s");
    FieldShown("", Absent, Given(w), 's');
    assert "%" + "" + "" + ("." + w) + ['s'] == "%." + w + "s";
    StringDirective(env, sp, args, pos);
    PlacedBare(Formatted(env, "%." + w + "s", args, pos).0,
               StringAt(env, args)[..if Decimal(w) < |StringAt(env, args)| then Decimal(w) else |StringAt(env, args)|]);
  }

  /** `%.*s`: the precision is the next argument, and nothing is left of the string by a negative one. */
  lemma StringCutStar(env: Env, args: nat, pos: nat)
    ensures var p: int := Signed(env.word(args));
            var s := StringAt(env, args + 1);
            Formatted(env, "%.*s", args, pos).0 == s[..if p < 0 then 0 else if p < |s| then p else |s|]
  {
    hide Formatted, Written, Show;
    var sp := Spec("", Absent, Star, "", "s");
    StarShown();
    StringDirective(env, sp, args, pos);
    var p: int := Signed(env.word(args));
    var s := StringAt(env, args + 1);
    PlacedBare(Formatted(env, "%.*s", args, pos).0, s[..if p < 0 then 0 else if p < |s| then p else |s|]);
  }

  lemma StarShown()
    ensures var sp := Spec("", Absent, Star, "", "s");
            Written(sp, "") && "%" + Show(sp) == "%.*s"
  {
  }

  lemma PlacedBare(text: string, core: string)
    requires Placed(text, core, -1, false)
    ensures text == core
  {
    var lead: nat, tail: nat :| text == Repeat(' ', lead) + core + Repeat(' ', tail) && |text| == Max(-1, |core|);
    assert lead == 0 && tail == 0;
  }

  /** `%05d`, for every width: zeros between sign and digits, and no space. */
  lemma ZeroField(env: Env, w: string, args: nat, pos: nat) returns (zeros: nat, digits: string)
    requires IsWidth(w)
    ensures var v: int := Signed(env.word(args));
            var sign := if v < 0 then "-" else "";
            && Denotes(digits, Abs(v), 10, false)
            && Formatted(env, "%0" + w + "d", args, pos).0 == sign + Repeat('0', zeros) + digits
            && |Formatted(env, "%0" + w + "d", args, pos).0| == Max(Decimal(w), |sign| + |digits|)
  {
    hide Formatted, Written, Show, Denotes, NumberPlaced, IsWidth, Decimal, ValueOf;
    var sp := Spec("0", Given(w), Absent, "", "d");
    FieldShown("0", Given(w), Absent, 'd');
    assert "%" + "0" + w + "" + ['d'] == "%0" + w + "d";
    WidthDigits(w);
    digits := IntegerDirective(env, sp, args, pos);
    ArgumentShown(env, sp, args);
    var text := Formatted(env, "%0" + w + "d", args, pos).0;
    zeros := ZerosPlaced(text, SignOf(sp, ValueOf(env, sp, args)), digits, Decimal(w));
  }

  lemma ZerosPlaced(text: string, sign: string, digits: string, width: nat) returns (zeros: nat)
    requires NumberPlaced(text, sign, "", digits, width, -1, false, true)
    ensures text == sign + Repeat('0', zeros) + digits && |text| == Max(width, |sign| + |digits|)
  {
    var core: string;
    core, zeros :| Core(core, sign, "", digits, zeros) && Placed(text, core, width, false)
      && |core| == Max(width, |sign| + Max(-1, |digits|));
    assert sign + "" == sign;
    var lead: nat, tail: nat :| text == Repeat(' ', lead) + core + Repeat(' ', tail) && |text| == Max(width, |core|);
    assert lead == 0 && tail == 0;
  }
}
