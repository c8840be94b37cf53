/** What each directive of a format produces, in terms of the characters it is written with. */
module FormatDirectives {
  import opened Bits
  import opened FormatFacts
  import opened FormatSpec
  import opened Machine

  /** A width or precision as it is written: not at all, in digits, or as `*` for the next argument. */
  datatype Amount = Absent | Given(digits: string) | Star

  /** A directive as it is written, without its '%'. The conversion is one character, or nothing where
      the format ends. */
  datatype Spec = Spec(flags: string, width: Amount, precision: Amount, qualifier: string, conversion: string)

  function ShowAmount(a: Amount): string
  {
    match a
    case Absent => ""
    case Given(digits) => digits
    case Star => "*"
  }

  function FromQualifier(sp: Spec): string
  {
    sp.qualifier + sp.conversion
  }

  function FromPrecision(sp: Spec): string
  {
    (if sp.precision.Absent? then "" else "." + ShowAmount(sp.precision)) + FromQualifier(sp)
  }

  function FromWidth(sp: Spec): string
  {
    ShowAmount(sp.width) + FromPrecision(sp)
  }

  function Show(sp: Spec): string
  {
    sp.flags + FromWidth(sp)
  }

  /** A text that does not begin with one of some characters. */
  predicate StartsOff(s: string, chars: string)
  {
    s == "" || s[0] !in chars
  }

  predicate AllDigits(s: string)
  {
    forall i :: 0 <= i < |s| ==> IsDigit(s[i])
  }

  /** An amount that nothing behind it is taken for a part of. */
  predicate AmountEnds(a: Amount, after: string)
  {
    match a
    case Absent => StartsOff(after, "*0123456789")
    case Given(digits) => AllDigits(digits) && StartsOff(after, if digits == "" then "*0123456789" else "0123456789")
    case Star => true
  }

  /** Each part of the directive ends where it is said to. */
  predicate Separate(sp: Spec)
  {
    && (forall i :: 0 <= i < |sp.flags| ==> sp.flags[i] in "-+ #0")
    && StartsOff(FromWidth(sp), "-+ #0")
    && sp.width != Given("") && AmountEnds(sp.width, FromPrecision(sp))
    && (if sp.precision.Absent? then StartsOff(FromQualifier(sp), ".") else AmountEnds(sp.precision, FromQualifier(sp)))
    && sp.qualifier in ["", "h", "l", "ll", "L", "Z", "z"]
    && (sp.qualifier == "" ==> StartsOff(sp.conversion, "hlLZz"))
    && (sp.qualifier == "l" ==> StartsOff(sp.conversion, "l"))
  }

  /** A directive, and what may follow it. */
  predicate Written(sp: Spec, rest: string)
  {
    Separate(sp) && |sp.conversion| <= 1 && (sp.conversion == "" ==> rest == "")
  }

  // ----- parsing what was written -----

  function Taken(a: Amount): nat
  {
    if a.Star? then 1 else 0
  }

  /** Argument words that a width or precision of `*` takes. */
  function Stars(sp: Spec): nat
  {
    Taken(sp.width) + Taken(sp.precision)
  }

  function WidthOf(env: Env, width: Amount, args: nat): int
  {
    match width
    case Absent => -1
    case Given(digits) => if AllDigits(digits) then Decimal(digits) else 0
    case Star => var w: int := Signed(env.word(args)); if w < 0 then -w else w
  }

  function PrecisionOf(env: Env, precision: Amount, args: nat): int
  {
    match precision
    case Absent => -1
    case Given(digits) => if AllDigits(digits) then Decimal(digits) else 0
    case Star => var w: int := Signed(env.word(args)); if w < 0 then 0 else w
  }

  /** Left justification is asked for by '-' or by a negative width argument. */
  predicate LeftOf(env: Env, sp: Spec, args: nat)
  {
    '-' in sp.flags || (sp.width.Star? && Signed(env.word(args)) < 0)
  }

  function QualifierOf(sp: Spec): Qualifier
  {
    if sp.qualifier == "h" then Short
    else if sp.qualifier == "l" then Long
    else if sp.qualifier == "ll" || sp.qualifier == "L" then LongLong
    else if sp.qualifier == "" then NoQualifier
    else Size
  }

  function WithFlags(f: Flags, s: string): Flags
  {
    Flags(f.zeropad || '0' in s, f.sign, f.plus || '+' in s, f.space || ' ' in s, f.left || '-' in s,
          f.special || '#' in s, f.large)
  }

  predicate IsFlag(c: char)
  {
    c == '-' || c == '+' || c == ' ' || c == '#' || c == '0'
  }

  lemma FlagSet(f: Flags, c: char)
    ensures IsFlag(c) <==> c in "-+ #0"
    ensures SetFlag(f, c).Some? <==> IsFlag(c)
    ensures IsFlag(c) ==> SetFlag(f, c).value == WithFlags(f, [c])
  {
  }

  lemma FlagsAdd(f: Flags, c: char, s: string)
    ensures WithFlags(WithFlags(f, [c]), s) == WithFlags(f, [c] + s)
  {
  }

  lemma ParseFlagsStep(p: Parsed)
    requires p.rest != ""
    ensures SetFlag(p.flags, p.rest[0]).None? ==> ParseFlags(p) == p
    ensures SetFlag(p.flags, p.rest[0]).Some? ==>
              ParseFlags(p) == ParseFlags(p.(flags := SetFlag(p.flags, p.rest[0]).value, rest := p.rest[1..]))
  {
  }

  lemma {:induction false} FlagsShown(p: Parsed, flags: string, tail: string)
    requires p.rest == flags + tail && StartsOff(tail, "-+ #0")
    requires forall i :: 0 <= i < |flags| ==> flags[i] in "-+ #0"
    ensures ParseFlags(p) == p.(flags := WithFlags(p.flags, flags), rest := tail)
    decreases |flags|
  {
    hide SetFlag, ParseFlags, IsFlag, WithFlags;
    if flags == "" {
      assert p.rest == tail;
      NoFlags(p.flags);
      if tail == "" {
        ParseFlagsNothing(p);
      } else {
        FlagSet(p.flags, tail[0]);
        ParseFlagsStep(p);
      }
    } else {
      var c := flags[0];
      assert p.rest[0] == c && p.rest[1..] == flags[1..] + tail;
      FlagSet(p.flags, c);
      ParseFlagsStep(p);
      FlagsShown(p.(flags := WithFlags(p.flags, [c]), rest := p.rest[1..]), flags[1..], tail);
      FlagsAdd(p.flags, c, flags[1..]);
      assert flags == [c] + flags[1..];
    }
  }

  lemma NoFlags(f: Flags)
    ensures WithFlags(f, "") == f
  {
  }

  lemma ParseFlagsNothing(p: Parsed)
    requires p.rest == ""
    ensures ParseFlags(p) == p
  {
  }

  lemma {:induction false} DigitsShown(digits: string, tail: string)
    requires AllDigits(digits) && StartsOff(tail, "0123456789")
    ensures LeadingDigits(digits + tail) == |digits|
    ensures (digits + tail)[..|digits|] == digits && (digits + tail)[|digits|..] == tail
  {
    LeadingDigitsOf(digits, tail);
  }

  lemma NotDigit(s: string)
    requires s == "" || !IsDigit(s[0])
    ensures LeadingDigits(s) == 0
  {
  }

  lemma WidthShown(env: Env, sp: Spec, p: Parsed)
    requires sp.width != Given("") && AmountEnds(sp.width, FromPrecision(sp))
    requires p.rest == FromWidth(sp) && p.width == -1
    ensures ParseWidth(env, p)
            == p.(width := WidthOf(env, sp.width, p.args),
                  flags := if sp.width.Star? && Signed(env.word(p.args)) < 0 then p.flags.(left := true) else p.flags,
                  rest := FromPrecision(sp), args := p.args + Taken(sp.width))
  {
    hide LeadingDigits, Decimal, Signed, FromPrecision;
    var tail := FromPrecision(sp);
    match sp.width
    case Absent =>
      assert p.rest == tail;
      NotDigit(tail);
    case Given(digits) =>
      DigitsShown(digits, tail);
    case Star =>
      NotDigit("*" + tail);
      assert p.rest[1..] == tail;
  }

  lemma PrecisionShown(env: Env, sp: Spec, p: Parsed)
    requires if sp.precision.Absent? then StartsOff(FromQualifier(sp), ".")
             else AmountEnds(sp.precision, FromQualifier(sp))
    requires p.rest == FromPrecision(sp) && p.precision == -1
    ensures ParsePrecision(env, p)
            == p.(precision := PrecisionOf(env, sp.precision, p.args),
                  rest := FromQualifier(sp), args := p.args + Taken(sp.precision))
  {
    assert Decimal("") == 0;
    hide LeadingDigits, Decimal, Signed;
    var tail := FromQualifier(sp);
    match sp.precision
    case Absent =>
      assert p.rest == tail;
    case Given(digits) =>
      assert p.rest[1..] == digits + tail;
      DigitsShown(digits, tail);
      if digits == "" {
        assert digits + tail == tail;
      }
    case Star =>
      assert p.rest[1..] == "*" + tail;
      NotDigit("*" + tail);
      assert p.rest[1..][1..] == tail;
  }

  lemma QualifierShown(sp: Spec, p: Parsed)
    requires sp.qualifier in ["", "h", "l", "ll", "L", "Z", "z"]
    requires sp.qualifier == "" ==> StartsOff(sp.conversion, "hlLZz")
    requires sp.qualifier == "l" ==> StartsOff(sp.conversion, "l")
    requires p.rest == FromQualifier(sp) && p.qualifier == NoQualifier
    ensures ParseQualifier(p) == p.(qualifier := QualifierOf(sp), rest := sp.conversion)
  {
    var q, c := sp.qualifier, sp.conversion;
    if q == "" {
      assert p.rest == c;
    } else if q == "ll" {
      assert p.rest[0] == 'l' && p.rest[1] == 'l' && p.rest[2..] == c;
    } else {
      assert p.rest[0] == q[0] && p.rest[1..] == c;
    }
  }

  /** The text behind a directive, as a part of its conversion. */
  function Followed(sp: Spec, rest: string): Spec
  {
    sp.(conversion := sp.conversion + rest)
  }

  lemma FollowedShown(sp: Spec, rest: string)
    requires sp.conversion == "" ==> rest == ""
    ensures Show(Followed(sp, rest)) == Show(sp) + rest
    ensures Separate(Followed(sp, rest)) <==> Separate(sp)
  {
    var t := Followed(sp, rest);
    QualifierFollowed(sp, rest);
    hide FromQualifier, AmountEnds, StartsOff;
    PrecisionFollowed(sp, rest);
    hide FromPrecision;
    WidthFollowed(sp, rest);
    hide FromWidth;
    assert Show(t) == Show(sp) + rest;
    EndsMore(FromQualifier(sp), rest, sp.precision);
    EndsMore(FromPrecision(sp), rest, sp.width);
    StartsMore(FromQualifier(sp), rest, ".");
    StartsMore(FromWidth(sp), rest, "-+ #0");
    StartsMore(sp.conversion, rest, "hlLZz");
    StartsMore(sp.conversion, rest, "l");
  }

  lemma QualifierFollowed(sp: Spec, rest: string)
    requires sp.conversion == "" ==> rest == ""
    ensures FromQualifier(Followed(sp, rest)) == FromQualifier(sp) + rest
    ensures FromQualifier(sp) == "" ==> rest == ""
  {
  }

  lemma PrecisionFollowed(sp: Spec, rest: string)
    requires FromQualifier(Followed(sp, rest)) == FromQualifier(sp) + rest
    requires FromQualifier(sp) == "" ==> rest == ""
    ensures FromPrecision(Followed(sp, rest)) == FromPrecision(sp) + rest
    ensures FromPrecision(sp) == "" ==> rest == ""
  {
    hide FromQualifier;
  }

  lemma WidthFollowed(sp: Spec, rest: string)
    requires FromPrecision(Followed(sp, rest)) == FromPrecision(sp) + rest
    requires FromPrecision(sp) == "" ==> rest == ""
    ensures FromWidth(Followed(sp, rest)) == FromWidth(sp) + rest
    ensures FromWidth(sp) == "" ==> rest == ""
  {
    hide FromPrecision;
  }

  lemma StartsMore(s: string, rest: string, chars: string)
    requires s == "" ==> rest == ""
    ensures StartsOff(s + rest, chars) <==> StartsOff(s, chars)
  {
  }

  lemma EndsMore(s: string, rest: string, a: Amount)
    requires s == "" ==> rest == ""
    ensures AmountEnds(a, s + rest) <==> AmountEnds(a, s)
  {
  }

  /** What is known of a directive once its parts are read. */
  function Read(env: Env, sp: Spec, rest: string, args: nat): Parsed
  {
    Parsed(Flags('0' in sp.flags, false, '+' in sp.flags, ' ' in sp.flags, LeftOf(env, sp, args),
                 '#' in sp.flags, false),
           WidthOf(env, sp.width, args), PrecisionOf(env, sp.precision, args + Taken(sp.width)),
           QualifierOf(sp), sp.conversion + rest, args + Stars(sp))
  }

  /** The parser finds in a directive what was written into it, whatever follows. */
  lemma ParseShown(env: Env, sp: Spec, rest: string, args: nat)
    requires Written(sp, rest)
    ensures Parse(env, Show(sp) + rest, args) == Read(env, sp, rest, args)
  {
    hide ParseFlags, ParseWidth, ParsePrecision, ParseQualifier, FromWidth, FromPrecision, FromQualifier;
    hide AmountEnds, WithFlags, WidthOf, PrecisionOf, QualifierOf;
    var t := Followed(sp, rest);
    FollowedShown(sp, rest);
    var p0 := Parsed(NO_FLAGS, -1, -1, NoQualifier, Show(t), args);
    FlagsShown(p0, t.flags, FromWidth(t));
    FreshFlags(sp.flags);
    var p1 := ParseFlags(p0);
    WidthShown(env, t, p1);
    var p2 := ParseWidth(env, p1);
    PrecisionShown(env, t, p2);
    QualifierShown(t, ParsePrecision(env, p2));
    SameQualifier(sp, t);
  }

  lemma FreshFlags(s: string)
    ensures WithFlags(NO_FLAGS, s) == Flags('0' in s, false, '+' in s, ' ' in s, '-' in s, '#' in s, false)
  {
  }

  lemma SameQualifier(sp: Spec, t: Spec)
    requires sp.qualifier == t.qualifier
    ensures QualifierOf(sp) == QualifierOf(t)
  {
  }

  // ----- every format is made of directives and plain text -----

  lemma SplitFlags(s: string) returns (n: nat)
    ensures n <= |s| && (forall i :: 0 <= i < n ==> s[i] in "-+ #0") && StartsOff(s[n..], "-+ #0")
  {
    if s == "" || s[0] !in "-+ #0" {
      n := 0;
    } else {
      n := SplitFlags(s[1..]);
      assert s[1..][n..] == s[n + 1..];
      n := n + 1;
    }
  }

  lemma DigitSet(c: char)
    ensures IsDigit(c) <==> c in "0123456789"
  {
  }

  /** The amount a text begins with. */
  lemma SplitAmount(s: string) returns (a: Amount, after: string)
    ensures s == ShowAmount(a) + after && AmountEnds(a, after) && a != Given("")
  {
    var n := LeadingDigits(s);
    if n > 0 {
      a, after := Given(s[..n]), s[n..];
      if n < |s| {
        DigitSet(s[n]);
      }
    } else if s != "" && s[0] == '*' {
      a, after := Star, s[1..];
    } else {
      a, after := Absent, s;
      if s != "" {
        DigitSet(s[0]);
      }
    }
  }

  lemma SplitPrecision(s: string) returns (a: Amount, after: string)
    ensures s == (if a.Absent? then "" else "." + ShowAmount(a)) + after
    ensures if a.Absent? then StartsOff(after, ".") else AmountEnds(a, after)
  {
    if s == "" || s[0] != '.' {
      a, after := Absent, s;
    } else {
      a, after := SplitAmount(s[1..]);
      if a.Absent? {
        a := Given("");
      }
    }
  }

  lemma SplitQualifier(s: string) returns (q: string, after: string)
    ensures s == q + after && q in ["", "h", "l", "ll", "L", "Z", "z"]
    ensures (q == "" ==> StartsOff(after, "hlLZz")) && (q == "l" ==> StartsOff(after, "l"))
  {
    if s == "" || s[0] !in "hlLZz" {
      q, after := "", s;
    } else if s[0] == 'l' && |s| > 1 && s[1] == 'l' {
      q, after := "ll", s[2..];
    } else {
      q, after := [s[0]], s[1..];
      assert q in ["", "h", "l", "ll", "L", "Z", "z"];
    }
  }

  /** Whatever stands behind a '%' is a directive and what follows it. */
  lemma EveryDirective(s: string) returns (sp: Spec, rest: string)
    ensures s == Show(sp) + rest && Written(sp, rest)
  {
    hide StartsOff, AmountEnds;
    var n := SplitFlags(s);
    var width, s1 := SplitAmount(s[n..]);
    var precision, s2 := SplitPrecision(s1);
    var qualifier, s3 := SplitQualifier(s2);
    var t := Spec(s[..n], width, precision, qualifier, s3);
    assert FromQualifier(t) == s2;
    hide FromQualifier, ShowAmount;
    assert FromPrecision(t) == s1;
    hide FromPrecision;
    assert FromWidth(t) == s[n..];
    hide FromWidth;
    assert Separate(t);
    hide Separate;
    var k := if s3 == "" then 0 else 1;
    sp, rest := t.(conversion := s3[..k]), s3[k..];
    assert sp.conversion + rest == s3;
    FollowedShown(sp, rest);
    assert s == s[..n] + s[n..];
  }

  // ----- one directive after another -----

  /** What a directive produces by itself. */
  function Produced(env: Env, sp: Spec, args: nat, pos: nat): Output
  {
    Directive(env, Parse(env, Show(sp), args), pos)
  }

  /** The conversion character, or the NUL that ends the format. */
  function Conversion(sp: Spec): char
  {
    if sp.conversion == "" then '\0' else sp.conversion[0]
  }

  /** Argument words a directive takes. */
  function Words(sp: Spec): nat
  {
    Stars(sp) + (if Conversion(sp) in "cspn" then 1
                 else if Conversion(sp) in "diuoxX" then (if sp.qualifier in ["ll", "L"] then 2 else 1)
                 else 0)
  }

  lemma DirectiveAfter(env: Env, p: Parsed, rest: string, pos: nat)
    requires |p.rest| <= 1 && (p.rest == "" ==> rest == "")
    ensures Directive(env, p, pos).rest == ""
    ensures Directive(env, p.(rest := p.rest + rest), pos) == Directive(env, p, pos).(rest := rest)
  {
    hide NumberText, Padded, IntegerArgument;
    if p.rest == "" {
      assert p.rest + rest == "";
    } else {
      var q := p.(rest := p.rest + rest);
      assert q.rest[0] == p.rest[0] && q.rest[1..] == rest && p.rest[1..] == "";
    }
  }

  lemma DirectiveWords(env: Env, sp: Spec, args: nat, pos: nat)
    requires |sp.conversion| <= 1
    ensures Directive(env, Read(env, sp, "", args), pos).args == args + Words(sp)
  {
    hide Directive, WidthOf, PrecisionOf, LeftOf;
    assert sp.conversion + "" == sp.conversion;
    DirectiveArgs(env, Read(env, sp, "", args), pos);
  }

  lemma DirectiveArgs(env: Env, p: Parsed, pos: nat)
    ensures Directive(env, p, pos).args
            == p.args + (if p.rest == "" then 0
                         else if p.rest[0] in "cspn" then 1
                         else if p.rest[0] in "diuoxX" then IntegerWords(p.qualifier)
                         else 0)
  {
    hide NumberText, Padded, IntegerArgument;
  }

  /** A directive's text and stores stand in front of what the rest of the format makes of the
      arguments it leaves. */
  lemma DirectiveThenRest(env: Env, sp: Spec, rest: string, args: nat, pos: nat)
    requires Written(sp, rest)
    ensures var o := Produced(env, sp, args, pos);
            var r := Formatted(env, rest, args + Words(sp), pos + |o.text|);
            Formatted(env, "%" + Show(sp) + rest, args, pos) == (o.text + r.0, o.stores + r.1)
  {
    hide Parse, Directive, Show, Words, Read, Produced, Formatted, Separate;
    DirectiveWritten(sp, rest);
    hide Written;
    var p := Read(env, sp, "", args);
    FormattedDirective(env, Show(sp), rest, args, pos);
    ParseShown(env, sp, rest, args);
    ReadAfter(env, sp, rest, args);
    DirectiveAfter(env, p, rest, pos);
    DirectiveWords(env, sp, args, pos);
    ProducedBy(env, sp, args, pos);
  }

  lemma FormattedDirective(env: Env, s: string, rest: string, args: nat, pos: nat)
    ensures var o := Directive(env, Parse(env, s + rest, args), pos);
            var r := Formatted(env, o.rest, o.args, pos + |o.text|);
            Formatted(env, "%" + s + rest, args, pos) == (o.text + r.0, o.stores + r.1)
  {
    hide Parse, Directive;
    var fmt := "%" + s + rest;
    assert fmt[0] == '%' && fmt[1..] == s + rest;
  }

  lemma DirectiveWritten(sp: Spec, rest: string)
    requires Written(sp, rest)
    ensures Written(sp, "") && (rest != "" ==> sp.conversion != "")
  {
  }

  lemma ReadAfter(env: Env, sp: Spec, rest: string, args: nat)
    requires Written(sp, rest)
    ensures var p := Read(env, sp, "", args);
            Read(env, sp, rest, args) == p.(rest := p.rest + rest) && |p.rest| <= 1 && (p.rest == "" ==> rest == "")
  {
    hide WidthOf, PrecisionOf, LeftOf, QualifierOf, Separate;
    assert sp.conversion + "" == sp.conversion;
  }

  lemma ProducedBy(env: Env, sp: Spec, args: nat, pos: nat)
    requires Written(sp, "")
    ensures Produced(env, sp, args, pos) == Directive(env, Read(env, sp, "", args), pos)
  {
    hide Directive, Parse, Read;
    ParseShown(env, sp, "", args);
    assert Show(sp) + "" == Show(sp);
  }

  lemma DirectiveAlone(env: Env, sp: Spec, args: nat, pos: nat)
    requires Written(sp, "")
    ensures Formatted(env, "%" + Show(sp), args, pos)
            == (Produced(env, sp, args, pos).text, Produced(env, sp, args, pos).stores)
    ensures Produced(env, sp, args, pos) == Directive(env, Read(env, sp, "", args), pos)
  {
    hide Directive, Parse, Written, Read;
    var o := Produced(env, sp, args, pos);
    DirectiveThenRest(env, sp, "", args, pos);
    assert "%" + Show(sp) + "" == "%" + Show(sp);
    assert Formatted(env, "", args + Words(sp), pos + |o.text|) == ("", []);
    assert o.text + "" == o.text && o.stores + [] == o.stores;
    ProducedBy(env, sp, args, pos);
  }

  /** A piece of a format: plain text or a directive. */
  datatype Item = Literal(text: string) | Instruction(spec: Spec)

  function ShowAll(items: seq<Item>): string
  {
    if items == [] then ""
    else
      (match items[0]
       case Literal(text) => text
       case Instruction(sp) => "%" + Show(sp)) + ShowAll(items[1..])
  }

  /** Text has no '%', and no directive but the last may lack its conversion. */
  predicate AllWritten(items: seq<Item>)
  {
    forall i :: 0 <= i < |items| ==>
      match items[i]
      case Literal(text) => '%' !in text
      case Instruction(sp) => Written(sp, "") && (i + 1 < |items| ==> sp.conversion != "")
  }

  /** Every format is a sequence of items. */
  lemma EveryFormat(fmt: string) returns (items: seq<Item>)
    ensures AllWritten(items) && ShowAll(items) == fmt
    decreases |fmt|
  {
    if fmt == "" {
      items := [];
    } else if fmt[0] != '%' {
      var rest := EveryFormat(fmt[1..]);
      items := [Literal([fmt[0]])] + rest;
      assert items[1..] == rest;
      assert fmt == [fmt[0]] + fmt[1..];
    } else {
      var sp, after := EveryDirective(fmt[1..]);
      hide Written;
      items := [Instruction(sp)];
      DirectiveWritten(sp, after);
      if after == "" {
        assert ShowAll(items[1..]) == "";
        assert fmt == "%" + fmt[1..];
      } else {
        var rest := EveryFormat(after);
        items := items + rest;
        assert items[1..] == rest;
        assert fmt == "%" + fmt[1..];
      }
    }
  }

  /** Argument words that a run of items takes. */
  function WordsOf(items: seq<Item>): nat
  {
    if items == [] then 0
    else (if items[0].Literal? then 0 else Words(items[0].spec)) + WordsOf(items[1..])
  }

  /** Formats can be put one behind the other: the second starts at the argument and at the position
      where the first ends. */
  lemma {:induction false} FormatsCompose(env: Env, items: seq<Item>, rest: string, args: nat, pos: nat)
    requires AllWritten(items)
    requires items != [] && items[|items| - 1].Instruction? && items[|items| - 1].spec.conversion == "" ==> rest == ""
    ensures var first := Formatted(env, ShowAll(items), args, pos);
            var second := Formatted(env, rest, args + WordsOf(items), pos + |first.0|);
            Formatted(env, ShowAll(items) + rest, args, pos) == (first.0 + second.0, first.1 + second.1)
  {
    hide Formatted, Written, Words, Show, Produced;
    if items == [] {
      FormattedNothing(env, rest, args, pos);
    } else {
      var tail := ShowAll(items[1..]);
      assert AllWritten(items[1..]);
      match items[0]
      case Literal(text) =>
        LiteralText(env, text, tail, args, pos);
        LiteralText(env, text, tail + rest, args, pos);
        FormatsCompose(env, items[1..], rest, args, pos + |text|);
        assert text + tail + rest == text + (tail + rest);
        var a := Formatted(env, tail, args, pos + |text|);
        var b := Formatted(env, rest, args + WordsOf(items), pos + |text| + |a.0|);
        assert text + (a.0 + b.0) == text + a.0 + b.0;
      case Instruction(sp) =>
        var o := Produced(env, sp, args, pos);
        WrittenBefore(items, rest);
        DirectiveThenRest(env, sp, tail, args, pos);
        DirectiveThenRest(env, sp, tail + rest, args, pos);
        FormatsCompose(env, items[1..], rest, args + Words(sp), pos + |o.text|);
        assert "%" + Show(sp) + tail + rest == "%" + Show(sp) + (tail + rest);
        var a := Formatted(env, tail, args + Words(sp), pos + |o.text|);
        var b := Formatted(env, rest, args + WordsOf(items), pos + |o.text| + |a.0|);
        assert o.text + (a.0 + b.0) == o.text + a.0 + b.0;
        assert o.stores + (a.1 + b.1) == o.stores + a.1 + b.1;
    }
  }

  lemma FormattedNothing(env: Env, rest: string, args: nat, pos: nat)
    ensures Formatted(env, "", args, pos) == ("", [])
    ensures "" + rest == rest && [] + Formatted(env, rest, args, pos).1 == Formatted(env, rest, args, pos).1
    ensures "" + Formatted(env, rest, args, pos).0 == Formatted(env, rest, args, pos).0
  {
  }

  lemma WrittenBefore(items: seq<Item>, rest: string)
    requires AllWritten(items) && items != [] && items[0].Instruction?
    requires items[|items| - 1].Instruction? && items[|items| - 1].spec.conversion == "" ==> rest == ""
    ensures var tail := ShowAll(items[1..]);
            Written(items[0].spec, tail) && Written(items[0].spec, tail + rest)
  {
    hide Separate;
    assert |items| == 1 ==> ShowAll(items[1..]) == "";
  }
}
