/** The kernel log as a text: messages one after another, every line given a level. */
module LogText {

  /** A character of the log: from a message, or put in by `printk`. */
  datatype Mark = Mark(c: char, inserted: bool)

  /** The text begins with a level, "<0>" to "<7>". */
  predicate HasLevel(s: string)
  {
    |s| >= 3 && s[0] == '<' && '0' <= s[1] <= '7' && s[2] == '>'
  }

  function Marked(s: string, inserted: bool): (r: seq<Mark>)
    ensures |r| == |s| && forall i :: 0 <= i < |s| ==> r[i] == Mark(s[i], inserted)
  {
    seq(|s|, i requires 0 <= i < |s| => Mark(s[i], inserted))
  }

  /** Length of the first line, its newline included. */
  function LineLength(s: string): (n: nat)
    requires s != ""
    ensures 0 < n <= |s|
    ensures forall i :: 0 <= i < n - 1 ==> s[i] != '\n'
    ensures n < |s| ==> s[n - 1] == '\n'
  {
    if s[0] == '\n' || |s| == 1 then 1 else 1 + LineLength(s[1..])
  }

  /** A message with the default level in front of each line that starts without one; `atStart`
      says whether the message starts a line. */
  function Levelled(atStart: bool, text: string): seq<Mark>
    decreases |text|
  {
    if text == "" then []
    else
      var n := LineLength(text);
      LevelledLine(atStart, text[..n]) + Levelled(true, text[n..])
  }

  function LevelledLine(atStart: bool, line: string): seq<Mark>
  {
    if atStart && !HasLevel(line) then Marked("<4>", true) + Marked(line, false) else Marked(line, false)
  }

  /** Whether the next character starts a line. */
  function FreshAfter(atStart: bool, text: string): bool
  {
    if text == "" then atStart else text[|text| - 1] == '\n'
  }

  /** The log after a run of messages, and whether it stands at the start of a line. */
  function Logged(messages: seq<string>): (seq<Mark>, bool)
  {
    if messages == [] then ([], true)
    else
      var (h, atStart) := Logged(messages[..|messages| - 1]);
      var m := messages[|messages| - 1];
      (h + Levelled(atStart, m), FreshAfter(atStart, m))
  }

  function Chars(h: seq<Mark>): (r: string)
    ensures |r| == |h| && forall i :: 0 <= i < |h| ==> r[i] == h[i].c
  {
    seq(|h|, i requires 0 <= i < |h| => h[i].c)
  }

  // ----- one character at a time -----

  lemma LevelOfLine(s: string)
    requires s != ""
    ensures HasLevel(s[..LineLength(s)]) <==> HasLevel(s)
  {
    var n := LineLength(s);
    assert n < 3 && n < |s| ==> s[n - 1] == '\n';
  }

  /** Starting a line puts in the default level unless the text has one. */
  lemma LevelledStart(s: string)
    requires s != ""
    ensures Levelled(true, s) == (if HasLevel(s) then [] else Marked("<4>", true)) + Levelled(false, s)
  {
    var n := LineLength(s);
    LevelOfLine(s);
    hide HasLevel, Marked;
    var line, rest := s[..n], Levelled(true, s[n..]);
    assert Levelled(true, s) == LevelledLine(true, line) + rest;
    assert Levelled(false, s) == Marked(line, false) + rest;
    hide Levelled;
    ThreePieces(Marked("<4>", true), Marked(line, false), rest);
  }

  lemma ThreePieces(a: seq<Mark>, b: seq<Mark>, c: seq<Mark>)
    ensures a + b + c == a + (b + c) && [] + (b + c) == b + c
  {
  }

  lemma LevelledUnfold(s: string)
    requires s != ""
    ensures Levelled(false, s) == Marked(s[..LineLength(s)], false) + Levelled(true, s[LineLength(s)..])
  {
  }

  lemma LevelledEmpty(atStart: bool)
    ensures Levelled(atStart, "") == []
  {
  }

  /** Inside a line, characters are copied up to the newline. */
  lemma LevelledNext(s: string)
    requires s != ""
    ensures Levelled(false, s) == [Mark(s[0], false)] + Levelled(s[0] == '\n', s[1..])
  {
    hide Levelled;
    var n := LineLength(s);
    var head, rest := [Mark(s[0], false)], Levelled(true, s[n..]);
    LevelledUnfold(s);
    if s[0] == '\n' {
      assert Marked(s[..1], false) == head;
    } else if |s| == 1 {
      LevelledEmpty(true);
      LevelledEmpty(false);
      assert s[1..] == "" && Marked(s[..1], false) == head;
    } else {
      var t := s[1..];
      LevelledUnfold(t);
      assert LineLength(t) == n - 1;
      SplitLine(s, n, rest);
    }
  }

  lemma SplitLine(s: string, n: nat, rest: seq<Mark>)
    requires 1 < n <= |s|
    ensures s[1..][n - 1..] == s[n..]
    ensures Marked(s[..n], false) + rest == [Mark(s[0], false)] + (Marked(s[1..][..n - 1], false) + rest)
  {
    assert Marked(s[..n], false) == [Mark(s[0], false)] + Marked(s[1..][..n - 1], false);
  }

  // ----- where levels are put in -----

  lemma CharsLine(atStart: bool, line: string)
    ensures Chars(LevelledLine(atStart, line)) == (if atStart && !HasLevel(line) then "<4>" else "") + line
  {
  }

  /** A message that is one line: the default level goes in front if it starts a line of the log and
      has no level of its own. */
  lemma OneLine(atStart: bool, line: string)
    requires line != "" && forall i :: 0 <= i < |line| - 1 ==> line[i] != '\n'
    ensures var levels := ["<0>", "<1>", "<2>", "<3>", "<4>", "<5>", "<6>", "<7>"];
            Chars(Levelled(atStart, line))
            == if atStart && !(exists i :: 0 <= i < |levels| && levels[i] <= line) then "<4>" + line else line
  {
    OneLevel(line);
    hide HasLevel, Levelled, LevelledLine, Chars;
    OnlyLine(atStart, line);
    CharsLine(atStart, line);
    assert "" + line == line;
  }

  lemma OnlyLine(atStart: bool, line: string)
    requires line != "" && forall i :: 0 <= i < |line| - 1 ==> line[i] != '\n'
    ensures Levelled(atStart, line) == LevelledLine(atStart, line)
  {
    hide HasLevel, LevelledLine;
    assert LineLength(line) == |line|;
    assert line[..|line|] == line && line[|line|..] == "";
    LevelledEmpty(true);
    assert LevelledLine(atStart, line) + [] == LevelledLine(atStart, line);
  }

  lemma OneLevel(s: string)
    ensures var levels := ["<0>", "<1>", "<2>", "<3>", "<4>", "<5>", "<6>", "<7>"];
            HasLevel(s) <==> exists i :: 0 <= i < |levels| && levels[i] <= s
  {
    var levels := ["<0>", "<1>", "<2>", "<3>", "<4>", "<5>", "<6>", "<7>"];
    assert forall i :: 0 <= i < |levels| ==> levels[i] == "<" + [('0' as int + i) as char] + ">";
    if HasLevel(s) {
      var i := s[1] as int - '0' as int;
      assert levels[i] == s[..3];
      assert levels[i] <= s;
    }
  }

  /** The lines of a message are treated one by one. */
  lemma LineByLine(atStart: bool, line: string, more: string)
    requires line != "" && line[|line| - 1] == '\n' && forall i :: 0 <= i < |line| - 1 ==> line[i] != '\n'
    ensures Levelled(atStart, line + more) == Levelled(atStart, line) + Levelled(true, more)
  {
    var t := line + more;
    var n := LineLength(t);
    assert t[|line| - 1] == '\n' && forall i :: 0 <= i < |line| - 1 ==> t[i] == line[i];
    assert n == |line|;
    OnlyLine(atStart, line);
    assert t[..n] == line && t[n..] == more;
  }

  // ----- what the log preserves -----

  /** The log without what `printk` put in. */
  function Originals(h: seq<Mark>): string
  {
    if h == [] then ""
    else Originals(h[..|h| - 1]) + (if h[|h| - 1].inserted then "" else [h[|h| - 1].c])
  }

  function Concat(messages: seq<string>): string
  {
    if messages == [] then "" else Concat(messages[..|messages| - 1]) + messages[|messages| - 1]
  }

  lemma {:induction false} OriginalsAppend(g: seq<Mark>, h: seq<Mark>)
    ensures Originals(g + h) == Originals(g) + Originals(h)
  {
    if h == [] {
      assert g + h == g;
    } else {
      assert (g + h)[..|g + h| - 1] == g + h[..|h| - 1];
      OriginalsAppend(g, h[..|h| - 1]);
    }
  }

  lemma MarkedLast(s: string, inserted: bool)
    requires s != ""
    ensures |Marked(s, inserted)| == |s| && Marked(s, inserted)[|s| - 1] == Mark(s[|s| - 1], inserted)
    ensures Marked(s, inserted)[..|s| - 1] == Marked(s[..|s| - 1], inserted)
  {
  }

  lemma {:induction false} OriginalsMarked(s: string, inserted: bool)
    ensures Originals(Marked(s, inserted)) == if inserted then "" else s
  {
    if s == "" {
    } else {
      MarkedLast(s, inserted);
      hide Marked;
      OriginalsMarked(s[..|s| - 1], inserted);
      assert s == s[..|s| - 1] + [s[|s| - 1]];
    }
  }

  lemma OriginalsLine(atStart: bool, line: string)
    ensures Originals(LevelledLine(atStart, line)) == line
  {
    OriginalsMarked("<4>", true);
    OriginalsMarked(line, false);
    OriginalsAppend(Marked("<4>", true), Marked(line, false));
  }

  lemma {:induction false} OriginalsLevelled(atStart: bool, text: string)
    ensures Originals(Levelled(atStart, text)) == text
    decreases |text|
  {
    hide LevelledLine, Originals;
    if text == "" {
      OriginalsEmpty();
    } else {
      var n := LineLength(text);
      OriginalsLine(atStart, text[..n]);
      OriginalsLevelled(true, text[n..]);
      OriginalsAppend(LevelledLine(atStart, text[..n]), Levelled(true, text[n..]));
      assert text == text[..n] + text[n..];
    }
  }

  lemma OriginalsEmpty()
    ensures Originals([]) == ""
  {
  }

  /** Deleting the inserted levels gives back the messages, one after another. */
  lemma {:induction false} LogKeepsMessages(messages: seq<string>)
    ensures Originals(Logged(messages).0) == Concat(messages)
  {
    if messages == [] {
    } else {
      var before, m := messages[..|messages| - 1], messages[|messages| - 1];
      LogKeepsMessages(before);
      OriginalsLevelled(Logged(before).1, m);
      OriginalsAppend(Logged(before).0, Levelled(Logged(before).1, m));
    }
  }

  /** Every line of a log begins with a level. */
  ghost predicate LinesHaveLevels(h: string)
  {
    forall k :: 0 <= k < |h| && (k == 0 || h[k - 1] == '\n') ==> HasLevel(h[k..])
  }

  /** Appending a piece that contains at most one newline, at its end, and that starts with a
      level if it starts a line. */
  lemma AppendLine(h: string, line: string)
    requires LinesHaveLevels(h) && line != ""
    requires forall i :: 0 <= i < |line| - 1 ==> line[i] != '\n'
    requires h == "" || h[|h| - 1] == '\n' ==> HasLevel(line)
    ensures LinesHaveLevels(h + line)
  {
    var t := h + line;
    forall k | 0 <= k < |t| && (k == 0 || t[k - 1] == '\n')
      ensures HasLevel(t[k..])
    {
      if k < |h| {
        assert HasLevel(h[k..]);
        assert t[k..] == h[k..] + line;
      } else {
        assert k == |h| && t[k..] == line;
      }
    }
  }

  lemma CharsAppend(g: seq<Mark>, h: seq<Mark>)
    ensures Chars(g + h) == Chars(g) + Chars(h)
  {
  }

  lemma LevelledHasLevel(line: string)
    ensures HasLevel("<4>" + line)
    ensures line != "" ==> forall i :: 0 <= i < |"<4>" + line| - 1 && i < 3 ==> ("<4>" + line)[i] != '\n'
  {
  }

  /** Appending one line of a message keeps every line levelled. */
  lemma AppendLevelled(h: string, atStart: bool, line: string)
    requires LinesHaveLevels(h) && (atStart <==> h == "" || h[|h| - 1] == '\n')
    requires line != "" && forall i :: 0 <= i < |line| - 1 ==> line[i] != '\n'
    ensures var g := h + Chars(LevelledLine(atStart, line));
            LinesHaveLevels(g) && g != "" && g[|g| - 1] == line[|line| - 1]
  {
    hide LinesHaveLevels, Chars, LevelledLine;
    CharsLine(atStart, line);
    LevelledHasLevel(line);
    AppendLine(h, (if atStart && !HasLevel(line) then "<4>" else "") + line);
  }

  lemma {:induction false} LevelledLines(h: string, atStart: bool, text: string)
    requires LinesHaveLevels(h) && (atStart <==> h == "" || h[|h| - 1] == '\n')
    ensures LinesHaveLevels(h + Chars(Levelled(atStart, text)))
    ensures var r := h + Chars(Levelled(atStart, text));
            FreshAfter(atStart, text) <==> r == "" || r[|r| - 1] == '\n'
    decreases |text|
  {
    hide LinesHaveLevels, Levelled, Chars, LevelledLine;
    if text == "" {
      LevelledEmpty(atStart);
      assert h + Chars([]) == h;
    } else {
      var n := LineLength(text);
      var g := h + Chars(LevelledLine(atStart, text[..n]));
      AppendLevelled(h, atStart, text[..n]);
      LevelledCons(h, atStart, text);
      if n < |text| {
        LevelledLines(g, true, text[n..]);
      } else {
        LevelledEmpty(true);
        assert text[n..] == "" && g + Chars([]) == g;
      }
    }
  }

  lemma LevelledCons(h: string, atStart: bool, text: string)
    requires text != ""
    ensures var n := LineLength(text);
            h + Chars(Levelled(atStart, text))
            == h + Chars(LevelledLine(atStart, text[..n])) + Chars(Levelled(true, text[n..]))
  {
    var n := LineLength(text);
    CharsAppend(LevelledLine(atStart, text[..n]), Levelled(true, text[n..]));
  }

  /** Over every run of messages, every line of the log begins with a level. */
  lemma {:induction false} LogLinesHaveLevels(messages: seq<string>)
    ensures LinesHaveLevels(Chars(Logged(messages).0))
    ensures var h := Chars(Logged(messages).0); Logged(messages).1 <==> h == "" || h[|h| - 1] == '\n'
  {
    hide Levelled, LinesHaveLevels;
    if messages == [] {
      NoLines();
    } else {
      var before, m := messages[..|messages| - 1], messages[|messages| - 1];
      var (h, atStart) := Logged(before);
      LogLinesHaveLevels(before);
      LevelledLines(Chars(h), atStart, m);
      CharsAppend(h, Levelled(atStart, m));
    }
  }

  lemma NoLines()
    ensures LinesHaveLevels(Chars([]))
  {
  }
}
