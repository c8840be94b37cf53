/** What `vsnprintf` is to produce: the text of a format and its arguments as a value,
    independent of buffers. */
module FormatSpec {
  import opened Bits
  import opened Machine
  import opened Wrappers

  const DWORD := 0x1_0000_0000_0000_0000

  /** The longest number text whose parts `number` can count in an `int`, with room for the
      decrements that end its loops. */
  const TEXT_MAX: int := INT_MAX - 3

  type Word = x: nat | x < WORD
  type Num = x: nat | x < DWORD

  /** What a NUL-terminated string holds before its NUL. */
  type CString = s: string | '\0' !in s && |s| < WORD - 1 witness ""

  /** The words on the argument stack, and the string at each address. */
  datatype Env = Env(word: nat -> Word, text: nat -> CString)

  datatype Flags = Flags(zeropad: bool, sign: bool, plus: bool, space: bool, left: bool, special: bool, large: bool)

  datatype Qualifier = NoQualifier | Short | Long | LongLong | Size

  // ----- digits -----

  predicate IsDigit(c: char)
  {
    '0' <= c <= '9'
  }

  function DigitChar(d: nat, large: bool): char
    requires d < 36
  {
    if large then "0123456789ABCDEFGHIJKLMNOPQRSTUVWXYZ"[d] else "0123456789abcdefghijklmnopqrstuvwxyz"[d]
  }

  function Digits(n: nat, base: nat, large: bool): (s: string)
    requires 2 <= base <= 36
    ensures |s| > 0
    decreases n
  {
    if n < base then [DigitChar(n, large)]
    else DivSmaller(n, base); Digits(n / base, base, large) + [DigitChar(n % base, large)]
  }

  lemma {:induction false} DivSmaller(n: nat, base: nat)
    requires 2 <= base <= n
    ensures n / base < n && n % base < base
  {
    var q := n / base;
    assert n == base * q + n % base;
    MulAdd(base - 2, q, 0);
    assert base * q >= 2 * q by {
      assert base * q == 2 * q + (base - 2) * q;
      assert (base - 2) * q >= 0;
    }
  }

  function Repeat(c: char, n: int): (s: string)
    ensures |s| == if n > 0 then n else 0
    ensures forall i :: 0 <= i < |s| ==> s[i] == c
  {
    seq(if n > 0 then n else 0, i => c)
  }

  function Max(a: int, b: int): int
  {
    if a > b then a else b
  }

  // ----- one number -----

  predicate Negative(num: Num, f: Flags)
  {
    f.sign && num >= DWORD / 2
  }

  function Magnitude(num: Num, f: Flags): Num
  {
    if Negative(num, f) then DWORD - num else num
  }

  function SignText(num: Num, f: Flags): string
  {
    if !f.sign then ""
    else if Negative(num, f) then "-"
    else if f.plus then "+"
    else if f.space then " "
    else ""
  }

  function PrefixText(base: nat, f: Flags): string
  {
    if !f.special then ""
    else if base == 8 then "0"
    else if base == 16 then (if f.large then "0X" else "0x")
    else ""
  }

  function BodyText(num: Num, base: nat, precision: int, f: Flags): string
    requires 2 <= base <= 36
  {
    var digits := Digits(Magnitude(num, f), base, f.large);
    Repeat('0', precision - |digits|) + digits
  }

  /** A number with its sign, prefix and digits, padded to the field width. */
  function NumberText(num: Num, base: nat, width: int, precision: int, f: Flags): string
    requires 2 <= base <= 36
  {
    var head := SignText(num, f) + PrefixText(base, f);
    var body := BodyText(num, base, precision, f);
    var fill := width - |head| - |body|;
    if f.left then head + body + Repeat(' ', fill)
    else if f.zeropad then head + Repeat('0', fill) + body
    else Repeat(' ', fill) + head + body
  }

  /** A text padded to the field width. */
  function Padded(t: string, width: int, left: bool): string
  {
    if left then t + Repeat(' ', width - |t|) else Repeat(' ', width - |t|) + t
  }

  // ----- one directive -----

  function LeadingDigits(s: string): (n: nat)
    ensures n <= |s| && (forall i :: 0 <= i < n ==> IsDigit(s[i])) && (n < |s| ==> !IsDigit(s[n]))
  {
    if s == "" || !IsDigit(s[0]) then 0 else 1 + LeadingDigits(s[1..])
  }

  function DigitValue(c: char): nat
    requires IsDigit(c)
  {
    c as nat - '0' as nat
  }

  function Decimal(s: string): nat
    requires forall i :: 0 <= i < |s| ==> IsDigit(s[i])
  {
    if s == "" then 0 else Decimal(s[..|s| - 1]) * 10 + DigitValue(s[|s| - 1])
  }

  /** What is known of a directive, the rest of the format, and the next argument word. */
  datatype Parsed = Parsed(flags: Flags, width: int, precision: int, qualifier: Qualifier, rest: string, args: nat)

  function SetFlag(f: Flags, c: char): Option<Flags>
  {
    if c == '-' then Some(f.(left := true))
    else if c == '+' then Some(f.(plus := true))
    else if c == ' ' then Some(f.(space := true))
    else if c == '#' then Some(f.(special := true))
    else if c == '0' then Some(f.(zeropad := true))
    else None
  }

  function ParseFlags(p: Parsed): (r: Parsed)
    ensures |r.rest| <= |p.rest|
    decreases |p.rest|
  {
    if p.rest == "" || SetFlag(p.flags, p.rest[0]).None? then p
    else ParseFlags(p.(flags := SetFlag(p.flags, p.rest[0]).value, rest := p.rest[1..]))
  }

  function ParseWidth(env: Env, p: Parsed): (r: Parsed)
    ensures |r.rest| <= |p.rest|
  {
    var n := LeadingDigits(p.rest);
    if n > 0 then p.(width := Decimal(p.rest[..n]), rest := p.rest[n..])
    else if p.rest != "" && p.rest[0] == '*' then
      var w: int := Signed(env.word(p.args));
      p.(width := if w < 0 then -w else w, flags := if w < 0 then p.flags.(left := true) else p.flags,
         rest := p.rest[1..], args := p.args + 1)
    else p
  }

  function ParsePrecision(env: Env, p: Parsed): (r: Parsed)
    ensures |r.rest| <= |p.rest|
  {
    if p.rest == "" || p.rest[0] != '.' then p
    else
      var s := p.rest[1..];
      var n := LeadingDigits(s);
      if n > 0 then p.(precision := Decimal(s[..n]), rest := s[n..])
      else if s != "" && s[0] == '*' then
        p.(precision := Max(Signed(env.word(p.args)), 0), rest := s[1..], args := p.args + 1)
      else p.(precision := 0, rest := s)
  }

  function ParseQualifier(p: Parsed): (r: Parsed)
    ensures |r.rest| <= |p.rest|
  {
    if p.rest == "" then p
    else if p.rest[0] == 'h' then p.(qualifier := Short, rest := p.rest[1..])
    else if p.rest[0] == 'L' then p.(qualifier := LongLong, rest := p.rest[1..])
    else if p.rest[0] == 'Z' || p.rest[0] == 'z' then p.(qualifier := Size, rest := p.rest[1..])
    else if p.rest[0] == 'l' then
      if |p.rest| > 1 && p.rest[1] == 'l' then p.(qualifier := LongLong, rest := p.rest[2..])
      else p.(qualifier := Long, rest := p.rest[1..])
    else p
  }

  const NO_FLAGS := Flags(false, false, false, false, false, false, false)

  /** Everything between the '%' and the conversion character. */
  function Parse(env: Env, s: string, args: nat): (r: Parsed)
    ensures |r.rest| <= |s|
  {
    ParseQualifier(ParsePrecision(env, ParseWidth(env,
      ParseFlags(Parsed(NO_FLAGS, -1, -1, NoQualifier, s, args)))))
  }

  /** Words an integer argument takes. */
  function IntegerWords(q: Qualifier): nat
  {
    if q == LongLong then 2 else 1
  }

  /** The 64-bit word an integer argument is widened to. */
  function IntegerArgument(env: Env, q: Qualifier, sign: bool, args: nat): Num
  {
    var w := env.word(args);
    match q
    case LongLong => w + env.word(args + 1) * WORD
    case Size => w
    case Short => if sign && w % 0x1_0000 >= 0x8000 then w % 0x1_0000 + (DWORD - 0x1_0000) else w % 0x1_0000
    case _ => if sign && w >= WORD / 2 then w + (DWORD - WORD) else w
  }

  function StringArgument(env: Env, address: Word): CString
  {
    if address < PAGE_SIZE then "<NULL>" else env.text(address)
  }

  function Truncated(s: string, precision: int): string
  {
    if 0 <= precision < |s| then s[..precision] else s
  }

  /** A word stored through a pointer argument. */
  datatype Store = Store(address: Word, value: nat)

  /** The text of a directive, the format after it, the next argument word, and what it stores. */
  datatype Output = Output(text: string, rest: string, args: nat, stores: seq<Store>)

  function IntegerOutput(env: Env, p: Parsed, base: nat): Output
    requires p.rest != "" && 2 <= base <= 36
  {
    var num := IntegerArgument(env, p.qualifier, p.flags.sign, p.args);
    Output(NumberText(num, base, p.width, p.precision, p.flags), p.rest[1..], p.args + IntegerWords(p.qualifier), [])
  }

  /** What a directive produces when `pos` characters came before it. */
  function Directive(env: Env, p: Parsed, pos: nat): (o: Output)
    ensures |o.rest| <= |p.rest|
  {
    if p.rest == "" then Output("%", "", p.args, [])
    else
      var c, after := p.rest[0], p.rest[1..];
      if c == 'c' then
        Output(Padded([(env.word(p.args) % 256) as char], p.width, p.flags.left), after, p.args + 1, [])
      else if c == 's' then
        var s := StringArgument(env, env.word(p.args));
        Output(Padded(Truncated(s, p.precision), p.width, p.flags.left), after, p.args + 1, [])
      else if c == 'p' then
        var width := if p.width == -1 then 8 else p.width;
        var flags := if p.width == -1 then p.flags.(zeropad := true) else p.flags;
        Output(NumberText(env.word(p.args), 16, width, p.precision, flags), after, p.args + 1, [])
      else if c == 'n' then Output("", after, p.args + 1, [Store(env.word(p.args), pos)])
      else if c == '%' then Output("%", after, p.args, [])
      else if c == 'o' then IntegerOutput(env, p, 8)
      else if c == 'x' then IntegerOutput(env, p, 16)
      else if c == 'X' then IntegerOutput(env, p.(flags := p.flags.(large := true)), 16)
      else if c == 'd' || c == 'i' then IntegerOutput(env, p.(flags := p.flags.(sign := true)), 10)
      else if c == 'u' then IntegerOutput(env, p, 10)
      else Output("%" + [c], after, p.args, [])
  }

  // ----- a whole format -----

  predicate Numeric(p: Parsed)
  {
    p.rest != "" && p.rest[0] in "poxXdiu"
  }

  /** Every width and precision a format gives is an `int`, and so is every length counted on the
      way; a larger number in the format, or the least `int` as a width argument, has no meaning
      in C. */
  ghost predicate IntsFit(env: Env, fmt: string, args: nat, pos: nat)
    decreases |fmt|
  {
    fmt == "" ||
    if fmt[0] != '%' then IntsFit(env, fmt[1..], args, pos + 1)
    else
      var p := Parse(env, fmt[1..], args);
      var o := Directive(env, p, pos);
      && p.width <= INT_MAX && p.precision <= INT_MAX
      && |o.text| <= (if Numeric(p) then TEXT_MAX else INT_MAX)
      && IntsFit(env, o.rest, o.args, pos + |o.text|)
  }

  /** The text of a format from some point on, when `pos` characters came before, and the
      words it stores. */
  function Formatted(env: Env, fmt: string, args: nat, pos: nat): (r: (string, seq<Store>))
    decreases |fmt|
  {
    if fmt == "" then ("", [])
    else if fmt[0] != '%' then
      var r := Formatted(env, fmt[1..], args, pos + 1);
      ([fmt[0]] + r.0, r.1)
    else
      var p := Parse(env, fmt[1..], args);
      var o := Directive(env, p, pos);
      var r := Formatted(env, o.rest, o.args, pos + |o.text|);
      (o.text + r.0, o.stores + r.1)
  }
}
