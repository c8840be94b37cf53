/** `printk`: messages are formatted, given levels line by line, and kept in a ring whose
    32-bit positions wrap around. */
module Printk {
  import opened Bits
  import opened Machine
  import opened FormatSpec
  import opened LogText
  import Vsnprintf

  const LOG_BUF_LEN: nat := 0x8000
  const MESSAGE_SIZE: nat := 1024
  const DEFAULT_MESSAGE_LEVEL := 4

  /** The bytes of a buffer before its first NUL. */
  function Text(b: seq<char>): (t: string)
    ensures |t| <= |b| && t == b[..|t|] && '\0' !in t
    ensures |t| < |b| ==> b[|t|] == '\0'
  {
    if b == [] || b[0] == '\0' then "" else [b[0]] + Text(b[1..])
  }

  /** What is left of a formatted text in the message buffer. */
  function MessageOf(t: string): string
  {
    Text(if |t| < MESSAGE_SIZE then t else t[..MESSAGE_SIZE - 1])
  }

  /** A message is cut at 1023 characters, and at the first NUL. */
  lemma MessageCut(t: string)
    ensures MessageOf(t) <= t && |MessageOf(t)| <= 1023 && '\0' !in MessageOf(t)
    ensures |MessageOf(t)| < |t| && |MessageOf(t)| < 1023 ==> t[|MessageOf(t)|] == '\0'
  {
  }

  lemma {:induction false} TextOfPrefix(b: seq<char>, n: nat)
    requires n < |b| && b[n] == '\0'
    ensures Text(b) == Text(b[..n])
  {
    if n == 0 || b[0] == '\0' {
    } else {
      TextOfPrefix(b[1..], n - 1);
      assert b[..n][1..] == b[1..][..n - 1];
    }
  }

  lemma MessageInBuffer(b: seq<char>, orig: seq<char>, t: string)
    requires |b| == MESSAGE_SIZE && Vsnprintf.Terminated(b, orig, t)
    ensures Text(b) == MessageOf(t) && |Text(b)| < |b|
  {
    var n := if |t| < |b| then |t| else |b| - 1;
    TextOfPrefix(b, n);
    assert t[..|t|] == t;
  }

  /** The cell of the ring that position k falls on. */
  function Slot(k: nat): (r: nat)
    ensures r < LOG_BUF_LEN
  {
    k % LOG_BUF_LEN
  }

  /** Positions wrap at 2^32, of which the ring size is a divisor. */
  lemma WrapInRing(k: nat)
    ensures Slot(k % WORD) == Slot(k)
  {
    assert WORD == 131072 * LOG_BUF_LEN;
  }

  lemma SlotsApart(n: nat)
    ensures forall k: nat :: n - LOG_BUF_LEN < k < n ==> Slot(k) != Slot(n)
  {
  }

  lemma WrapDistance(total: nat, kept: nat)
    requires kept <= total && kept < WORD
    ensures (total % WORD - (total - kept) % WORD) % WORD == kept
  {
  }

  lemma WrapForward(n: nat, i: nat)
    ensures (n % WORD + i) % WORD == (n + i) % WORD
  {
    var q, r := (n % WORD + i) / WORD, (n % WORD + i) % WORD;
    DivUnique(n + i, WORD, n / WORD + q, r);
  }

  lemma WrapBack(n: nat, back: nat)
    ensures (n % WORD - back) % WORD == (n - back) % WORD
  {
  }

  lemma WrapOne(n: nat)
    ensures (n % WORD + 1) % WORD == (n + 1) % WORD
  {
  }

  /** Advancing the end, and the start with it once the ring is full. */
  lemma PositionsStep(n: nat, kept: nat)
    requires kept == if n < LOG_BUF_LEN then n else LOG_BUF_LEN
    ensures (n % WORD + 1) % WORD == (n + 1) % WORD
    ensures ((n + 1) % WORD - (n - kept) % WORD) % WORD == kept + 1
    ensures ((n + 1) % WORD - LOG_BUF_LEN) % WORD == (n + 1 - LOG_BUF_LEN) % WORD
  {
    WrapOne(n);
    WrapDistance(n + 1, kept + 1);
    WrapBack(n + 1, LOG_BUF_LEN);
  }

  /** The test at the start of a line looks for a level in what is left of the message. */
  lemma LevelTest(b: seq<char>, text: string, p: nat)
    requires text == Text(b) && p < |text| < |b|
    ensures p + 1 < |b| && (b[p + 1] != '\0' ==> p + 2 < |b|)
    ensures HasLevel(text[p..]) <==> b[p] == '<' && '0' <= b[p + 1] <= '7' && p + 2 < |b| && b[p + 2] == '>'
  {
    assert text == b[..|text|] && b[|text|] == '\0';
    assert forall i :: 0 <= i < |text| - p ==> text[p..][i] == b[p + i];
    assert b[p + 1] != '\0' ==> p + 1 < |text|;
  }

  /** The default level, character by character. */
  lemma LevelMarks(h: seq<Mark>)
    ensures h + [Mark('<', true)] + [Mark((DEFAULT_MESSAGE_LEVEL + '0' as int) as char, true)] + [Mark('>', true)]
            == h + Marked("<4>", true)
    ensures h + [] == h
  {
    assert Marked("<4>", true) == [Mark('<', true), Mark('4', true), Mark('>', true)];
  }

  class Log {
    const ring: array<char>
    const message: array<char>
    /** Where the message buffer lies in memory. */
    const address: nat
    var logStart: nat
    var logEnd: nat
    var unknownLevel: bool
    /** Every character ever put in the log, with where it came from. */
    ghost var history: seq<Mark>
    /** The messages logged so far. */
    ghost var messages: seq<string>

    ghost function Kept(): nat
      reads `history
    {
      if |history| < LOG_BUF_LEN then |history| else LOG_BUF_LEN
    }

    /** The ring holds the tail of the history. */
    ghost predicate RingValid()
      reads `logStart, `logEnd, `history, ring
    {
      && ring.Length == LOG_BUF_LEN
      && logEnd == |history| % WORD
      && logStart == (|history| - Kept()) % WORD
      && forall k :: |history| - Kept() <= k < |history| ==> ring[Slot(k)] == history[k].c
    }

    ghost predicate Valid()
      reads this, ring
    {
      && RingValid()
      && ring != message
      && message.Length == MESSAGE_SIZE && 0 < address && address + MESSAGE_SIZE <= WORD
      && history == Logged(messages).0 && unknownLevel == Logged(messages).1
    }

    constructor (address: nat)
      requires 0 < address && address + MESSAGE_SIZE <= WORD
      ensures Valid() && messages == [] && history == []
    {
      ring, message := new char[LOG_BUF_LEN], new char[MESSAGE_SIZE];
      this.address := address;
      logStart, logEnd, unknownLevel := 0, 0, true;
      history, messages := [], [];
    }

    /** `emit_log_char`. */
    method EmitLogChar(c: char, ghost inserted: bool)
      requires RingValid()
      modifies this`logStart, this`logEnd, this`history, ring
      ensures RingValid() && history == old(history) + [Mark(c, inserted)]
    {
      hide Slot;
      ghost var n := |history|;
      WrapInRing(n);
      SlotsApart(n);
      PositionsStep(n, Kept());
      ring[Slot(logEnd)] := c;
      logEnd := (logEnd + 1) % WORD;
      if (logEnd - logStart) % WORD > LOG_BUF_LEN {
        logStart := (logEnd - LOG_BUF_LEN) % WORD;
      }
      history := history + [Mark(c, inserted)];
    }

    /** What a reader of the ring sees between its start and its end. */
    function Retained(): string
      requires ring.Length == LOG_BUF_LEN
      reads this, ring
    {
      var n := (logEnd - logStart) % WORD;
      seq(n, i requires 0 <= i reads this, ring requires ring.Length == LOG_BUF_LEN =>
        ring[Slot((logStart + i) % WORD)])
    }

    /** The ring holds exactly the last 32768 characters of the log, or all of a shorter one. */
    lemma RetainedExact()
      requires Valid()
      ensures |Retained()| == Kept() == if |history| < 32768 then |history| else 32768
      ensures Retained() == Chars(history)[|history| - Kept()..]
    {
      WrapDistance(|history|, Kept());
      hide Slot;
      forall i | 0 <= i < Kept()
        ensures Retained()[i] == history[|history| - Kept() + i].c
      {
        WrapForward(|history| - Kept(), i);
        WrapInRing(|history| - Kept() + i);
      }
    }

    /** The log, whole, keeps every message and gives every line a level. */
    lemma LogMeaning()
      requires Valid()
      ensures Originals(history) == Concat(messages)
      ensures LinesHaveLevels(Chars(history))
    {
      LogKeepsMessages(messages);
      LogLinesHaveLevels(messages);
    }

    /** The loop over the message buffer. */
    method EmitMessage(ghost text: string)
      requires RingValid() && ring != message && message.Length == MESSAGE_SIZE
      requires text == Text(message[..]) && |text| < MESSAGE_SIZE
      modifies this`logStart, this`logEnd, this`history, this`unknownLevel, ring
      ensures RingValid()
      ensures history == old(history) + Levelled(old(unknownLevel), text)
      ensures unknownLevel == FreshAfter(old(unknownLevel), text)
    {
      hide Levelled, Text, RingValid;
      var p := 0;
      ghost var all := Levelled(unknownLevel, text);
      ghost var done: seq<Mark> := [];
      assert text[0..] == text && [] + all == all && history + [] == history;
      while message[p] != '\0'
        invariant p <= |text| && RingValid()
        invariant history == old(history) + done
        invariant done + Levelled(unknownLevel, text[p..]) == all
        invariant p > 0 ==> unknownLevel == (text[p - 1] == '\n')
        invariant p == 0 ==> unknownLevel == old(unknownLevel)
        invariant text == Text(message[..])
        decreases |text| - p
      {
        ghost var emitted := EmitNext(text, p);
        p := p + 1;
        ThreePieces(done, emitted, Levelled(unknownLevel, text[p..]));
        done := done + emitted;
      }
      LevelledEmpty(unknownLevel);
      assert p == |text| && text[p..] == "" && done + [] == done;
    }

    /** One character of the message, with the default level before it if one is due. */
    method EmitNext(ghost text: string, p: nat) returns (ghost emitted: seq<Mark>)
      requires RingValid() && ring != message && message.Length == MESSAGE_SIZE
      requires text == Text(message[..]) && p < |text| < MESSAGE_SIZE && message[p] != '\0'
      modifies this`logStart, this`logEnd, this`history, this`unknownLevel, ring
      ensures RingValid() && history == old(history) + emitted
      ensures Levelled(old(unknownLevel), text[p..]) == emitted + Levelled(unknownLevel, text[p + 1..])
      ensures unknownLevel == (text[p] == '\n')
    {
      hide Levelled, LevelledLine, Text;
      ghost var s, c := text[p..], Mark(text[p], false);
      ghost var level := if unknownLevel && !HasLevel(s) then Marked("<4>", true) else [];
      if unknownLevel {
        LevelledStart(s);
        EmitLevel(text, p);
      }
      assert history == old(history) + level;
      LevelledNext(s);
      EmitLogChar(message[p], false);
      if message[p] == '\n' {
        unknownLevel := true;
      }
      emitted := level + [c];
      assert old(history) + level + [c] == old(history) + emitted;
      assert s[1..] == text[p + 1..];
      ghost var rest := Levelled(unknownLevel, text[p + 1..]);
      ThreePieces(level, [c], rest);
      assert [] + ([c] + rest) == [c] + rest;
    }

    /** At the start of a line: put in the default level unless the text has one. */
    method EmitLevel(ghost text: string, p: nat)
      requires RingValid() && ring != message && message.Length == MESSAGE_SIZE
      requires text == Text(message[..]) && p < |text| < MESSAGE_SIZE
      modifies this`logStart, this`logEnd, this`history, this`unknownLevel, ring
      ensures RingValid() && !unknownLevel
      ensures history == old(history) + if HasLevel(text[p..]) then [] else Marked("<4>", true)
    {
      LevelTest(message[..], text, p);
      LevelMarks(history);
      hide HasLevel, Marked, RingValid, Text;
      if message[p] != '<' || message[p + 1] < '0' || message[p + 1] > '7' || message[p + 2] != '>' {
        EmitLogChar('<', true);
        EmitLogChar((DEFAULT_MESSAGE_LEVEL + '0' as int) as char, true);
        EmitLogChar('>', true);
      }
      unknownLevel := false;
    }

    /** `printk`: log the formatted text, as much of it as the message buffer holds. */
    method Print(env: Env, fmt: CString) returns (r: int, stores: seq<Store>)
      requires Valid() && Vsnprintf.Representable(env, fmt, address)
      modifies this`logStart, this`logEnd, this`history, this`unknownLevel, this`messages, ring, message
      ensures Valid() && r == 1 && stores == Formatted(env, fmt, 0, 0).1
      ensures messages == old(messages) + [MessageOf(Formatted(env, fmt, 0, 0).0)]
    {
      ghost var before := message[..];
      var written;
      written, stores := Vsnprintf.Vsnprintf(env, message, address, MESSAGE_SIZE, fmt);
      ghost var text := MessageOf(Formatted(env, fmt, 0, 0).0);
      MessageInBuffer(message[..], before, Formatted(env, fmt, 0, 0).0);
      EmitMessage(text);
      assert (messages + [text])[..|messages|] == messages;
      messages := messages + [text];
      r := 1;
    }
  }
}
