/**
 Reading a text file back: Python turns the line ends of other systems into newlines. Finding and
 reading the JSON object of an answer does not depend on that.
 */
module NewlineText {
  import opened Options
  import opened JsonValues
  import opened JsonText
  import opened ResponseText
  import opened FencedText

  /** What reading a file with this content gives: a carriage return, with a newline behind it or not, is a newline. */
  function ReadText(t: string): string
    decreases |t|
  {
    if t == "" then "" else [NewlineFor(t[0])] + ReadText(t[Skip(t)..])
  }

  function NewlineFor(c: char): char {
    if c == '\r' then '\n' else c
  }

  /** How many characters of the file the first character read stands for. */
  function Skip(t: string): (n: nat)
    requires t != ""
    ensures 1 <= n <= |t|
  {
    if t[0] == '\r' && |t| > 1 && t[1] == '\n' then 2 else 1
  }

  // ----- prefixes and suffixes -----

  predicate NoReturns(s: string) {
    forall k | 0 <= k < |s| :: s[k] != '\r'
  }

  /** The three line ends are read alike: together with the two lemmas below, that determines every reading. */
  lemma LineEndsRead()
    ensures ReadText("\r\n") == ReadText("\r") == ReadText("\n") == "\n"
  {
    assert "\r\n"[2..] == "" && "\r"[1..] == "" && "\n"[1..] == "";
  }

  /** A text without carriage returns is read as it is, and what follows it separately. */
  lemma {:induction false} PlainPrefix(a: string, b: string)
    requires NoReturns(a)
    ensures ReadText(a + b) == a + ReadText(b)
  {
    if a == "" {
      assert a + b == b;
    } else {
      assert (a + b)[1..] == a[1..] + b;
      PlainPrefix(a[1..], b);
      assert [a[0]] + (a[1..] + ReadText(b)) == a + ReadText(b);
    }
  }

  /** Texts are read separately unless a line end is cut in two. */
  lemma {:induction false} ReadSplit(a: string, b: string)
    requires a == "" || a[|a| - 1] != '\r' || b == "" || b[0] != '\n'
    ensures ReadText(a + b) == ReadText(a) + ReadText(b)
    decreases |a|
  {
    if a == "" {
      assert a + b == b;
    } else {
      SkipKept(a, b);
      var rest := a[Skip(a)..];
      ReadSplit(rest, b);
      assert [NewlineFor(a[0])] + (ReadText(rest) + ReadText(b)) == [NewlineFor(a[0])] + ReadText(rest) + ReadText(b);
    }
  }

  lemma SkipKept(a: string, b: string)
    requires a != "" && (a[|a| - 1] != '\r' || b == "" || b[0] != '\n')
    ensures (a + b)[0] == a[0] && Skip(a + b) == Skip(a) && (a + b)[Skip(a)..] == a[Skip(a)..] + b
    ensures var rest := a[Skip(a)..]; rest == "" || rest[|rest| - 1] != '\r' || b == "" || b[0] != '\n'
  {
    assert |a| > 1 ==> (a + b)[1] == a[1];
    assert |a| == 1 && b != "" ==> (a + b)[1] == b[0];
  }

  lemma ReadHead(t: string)
    ensures ReadText(t) == "" <==> t == ""
    ensures t != "" ==> ReadText(t)[0] == if t[0] == '\r' then '\n' else t[0]
  {
  }

  /** A pattern without line ends is at the head of the text read exactly if it is at the head of the file. */
  lemma {:induction false} PatternAtHead(p: string, t: string)
    requires forall k | 0 <= k < |p| :: p[k] != '\r' && p[k] != '\n'
    ensures p <= ReadText(t) <==> p <= t
  {
    if p != "" && t != "" {
      ReadHead(t);
      if t[0] == p[0] {
        PatternAtHead(p[1..], t[1..]);
        assert ReadText(t)[1..] == ReadText(t[1..]);
        assert p <= t <==> p[1..] <= t[1..];
        assert p <= ReadText(t) <==> p[1..] <= ReadText(t)[1..];
      }
    }
  }

  lemma CutPlain(t: string, k: nat)
    requires k <= |t| && NoReturns(t[..k])
    ensures k <= |ReadText(t)| && ReadText(t)[..k] == t[..k] && ReadText(t)[k..] == ReadText(t[k..])
  {
    assert t == t[..k] + t[k..];
    PlainPrefix(t[..k], t[k..]);
  }

  lemma OneMore(t: string, k: nat)
    requires t != "" && t[0] != '\r' && k <= |t[1..]| && NoReturns(t[1..][..k])
    ensures NoReturns(t[..1 + k])
  {
    assert t[..1 + k] == [t[0]] + t[1..][..k];
  }

  lemma NoneYet(t: string)
    ensures NoReturns(t[..0])
  {
  }

  lemma AfterHead(u: string)
    requires u != ""
    ensures u[0] != '\r' ==> ReadText(u) != "" && ReadText(u)[1..] == ReadText(u[1..])
  {
    if u[0] != '\r' {
      assert u[..1] == [u[0]];
      CutPlain(u, 1);
    }
  }

  /** The last character, up to line ends. */
  lemma LastRead(t: string)
    requires t != ""
    ensures ReadText(t) != ""
    ensures var c := ReadText(t)[|ReadText(t)| - 1]; c == if t[|t| - 1] == '\r' then '\n' else t[|t| - 1]
  {
    var front, last := t[..|t| - 1], t[|t| - 1..];
    assert t == front + last;
    if front != "" && front[|front| - 1] == '\r' && last == "\n" {
      var head := front[..|front| - 1];
      assert t == head + "\r\n";
      ReadSplit(head, "\r\n");
      assert "\r\n"[2..] == "";
      assert ReadText("\r\n") == "\n";
    } else {
      ReadSplit(front, last);
      assert last[1..] == "";
    }
  }

  // ----- the scanner -----

  function Read(r: Option<string>): Option<string> {
    match r
    case None => None
    case Some(s) => Some(ReadText(s))
  }

  datatype State = State(depth: int, inString: bool, escape: bool)

  function ScanFrom(t: string, s: State): Option<string> {
    Scan(t, s.depth, s.inString, s.escape)
  }

  predicate Stops(c: char, s: State) {
    !s.inString && c == '}' && s.depth == 1
  }

  function Next(c: char, s: State): State {
    if s.inString then State(s.depth, s.escape || c != '\"', !s.escape && c == '\\')
    else State(if c == '{' then s.depth + 1 else if c == '}' then s.depth - 1 else s.depth, c == '\"', false)
  }

  lemma ScanOne(t: string, s: State)
    requires t != ""
    ensures ScanFrom(t, s) == if Stops(t[0], s) then Some(t[1..]) else ScanFrom(t[1..], Next(t[0], s))
  {
  }

  /** The scanner goes through the text read as through the file. */
  lemma {:induction false} ScanReads(t: string, s: State)
    ensures ScanFrom(ReadText(t), s) == Read(ScanFrom(t, s))
    decreases |t|
  {
    if t == "" {
      ScanNothing(s.depth, s.inString, s.escape);
    } else {
      var c, read := t[0], ReadText(t);
      ReadHead(t);
      TailRead(t);
      hide ScanFrom, ReadText;
      ScanOne(t, s);
      ScanOne(read, s);
      assert Next(read[0], s) == Next(c, s);
      if c == '\r' && |t| > 1 && t[1] == '\n' {
        ScanOne(t[1..], Next(c, s));
        assert t[1..][1..] == t[2..] && Next('\n', Next(c, s)) == Next(c, s);
        ScanReads(t[2..], Next(c, s));
      } else {
        ScanReads(t[1..], Next(c, s));
      }
    }
  }

  /** Behind its first character, the text read is the rest of the file, read. */
  lemma TailRead(t: string)
    requires t != ""
    ensures ReadText(t) != ""
    ensures ReadText(t)[1..] == ReadText(t[Skip(t)..])
  {
  }

  lemma {:induction false} NoNewChars(t: string, c: char)
    requires c !in t && c != '\n'
    ensures c !in ReadText(t)
    decreases |t|
  {
    if t != "" {
      var skip := Skip(t);
      NoNewChars(t[skip..], c);
    }
  }

  lemma {:induction false} FindIs(s: string, n: nat, c: char)
    requires n <= |s| && (forall k | 0 <= k < n :: s[k] != c) && (n < |s| ==> s[n] == c)
    ensures Find(s, c) == n
  {
    if n > 0 {
      FindIs(s[1..], n - 1, c);
    }
  }

  /** What comes before the character, and what begins with it, are read separately. */
  lemma FindReads(t: string, c: char)
    requires c != '\r' && c != '\n'
    ensures var n := Find(t, c);
            && ReadText(t) == ReadText(t[..n]) + ReadText(t[n..])
            && Find(ReadText(t), c) == |ReadText(t[..n])|
  {
    var n := Find(t, c);
    assert t == t[..n] + t[n..];
    ReadSplit(t[..n], t[n..]);
    NoNewChars(t[..n], c);
    ReadHead(t[n..]);
    hide ReadText, Find;
    var before, behind := ReadText(t[..n]), ReadText(t[n..]);
    assert forall k | 0 <= k < |before| :: (before + behind)[k] == before[k];
    assert behind != "" ==> (before + behind)[|before|] == behind[0];
    FindIs(before + behind, |before|, c);
  }

  /** The first object in the text read is the first object of the file, read. */
  lemma FirstObjectReads(t: string)
    ensures FirstObject(ReadText(t)) == Read(FirstObject(t))
  {
    hide Find, Scan, ReadText, FirstObject;
    var n := Find(t, '{');
    FindReads(t, '{');
    var before, tail := ReadText(t[..n]), t[n..];
    ReadBehind(ReadText(t), before, ReadText(tail));
    ScanReads(tail, State(0, false, false));
    var end := Scan(tail, 0, false, false);
    if end.Some? {
      ObjectFound(t, before, end.value);
    } else {
      NoFirstObject(t);
      NoFirstObject(ReadText(t));
    }
  }

  lemma ObjectFound(t: string, before: string, rest: string)
    requires var n := Find(t, '{');
             && ReadText(t) == before + ReadText(t[n..]) && Find(ReadText(t), '{') == |before|
             && Scan(t[n..], 0, false, false) == Some(rest)
             && Scan(ReadText(t)[|before|..], 0, false, false) == Some(ReadText(rest))
    ensures FirstObject(ReadText(t)) == Read(FirstObject(t))
  {
    hide Find, Scan, ReadText, FirstObject;
    SuffixOf(t, Find(t, '{'), rest);
    ObjectReads(t, Find(t, '{'), rest, before);
    FirstObjectIs(t);
    FirstObjectIs(ReadText(t));
  }

  lemma ReadBehind(read: string, before: string, behind: string)
    requires read == before + behind
    ensures read[|before|..] == behind
  {
  }

  lemma FirstObjectIs(t: string)
    ensures var end := Scan(t[Find(t, '{')..], 0, false, false);
            end.Some? ==>
              Find(t, '{') <= |t| - |end.value| && FirstObject(t) == Some(t[Find(t, '{')..|t| - |end.value|])
  {
    hide Scan, Find;
  }

  lemma NoFirstObject(t: string)
    requires Scan(t[Find(t, '{')..], 0, false, false) == None
    ensures FirstObject(t) == None
  {
    hide Scan, Find;
  }

  lemma SuffixOf(t: string, n: nat, rest: string)
    requires n <= |t| && |rest| < |t[n..]|
    requires t[n..][|t[n..]| - |rest|..] == rest && t[n..][|t[n..]| - |rest| - 1] == '}'
    ensures t[|t| - |rest|..] == rest && t[|t| - |rest| - 1] == '}'
  {
  }

  /** The object that ends before `rest`, cut out of the text read. */
  lemma ObjectReads(t: string, n: nat, rest: string, before: string)
    requires n <= |t| && |rest| < |t[n..]| && t[|t| - |rest|..] == rest && t[|t| - |rest| - 1] == '}'
    requires ReadText(t) == before + ReadText(t[n..])
    ensures |before| <= |ReadText(t)| - |ReadText(rest)|
    ensures ReadText(t)[|before|..|ReadText(t)| - |ReadText(rest)|] == ReadText(t[n..|t| - |rest|])
  {
    hide ReadText;
    var o := t[n..|t| - |rest|];
    ObjectAndRest(t, n, rest);
    assert o != "" && o[|o| - 1] == '}';
    ReadSplit(o, rest);
    assert ReadText(t) == before + (ReadText(o) + ReadText(rest));
    Middle(before, ReadText(o), ReadText(rest));
  }

  lemma ObjectAndRest(t: string, n: nat, rest: string)
    requires n <= |t| && |rest| < |t[n..]| && t[|t| - |rest|..] == rest
    ensures t[n..] == t[n..|t| - |rest|] + rest
  {
  }

  lemma Middle(a: string, b: string, c: string)
    ensures var t := a + (b + c); |a| <= |t| - |c| && t[|a|..|t| - |c|] == b
  {
  }

  // ----- stripping and fences -----

  lemma {:induction false} LStripReads(t: string)
    ensures LStrip(ReadText(t)) == ReadText(LStrip(t))
    decreases |t|
  {
    if t != "" && IsSpace(t[0]) {
      var skip := Skip(t);
      assert ReadText(t)[1..] == ReadText(t[skip..]);
      LStripReads(t[skip..]);
      assert skip == 2 ==> LStrip(t[1..]) == LStrip(t[1..][1..]) && t[1..][1..] == t[2..];
    }
  }

  lemma {:induction false} RStripReads(t: string)
    ensures RStrip(ReadText(t)) == ReadText(RStrip(t))
    decreases |t|
  {
    if t == "" {
      NothingRead();
    } else {
      var front, c := t[..|t| - 1], t[|t| - 1];
      assert t == front + [c];
      LastRead(t);
      hide ReadText;
      if IsSpace(c) {
        RStripReads(front);
        if front != "" && front[|front| - 1] == '\r' && c == '\n' {
          CutLineEnd(front);
        } else {
          ReadSplit(front, [c]);
          OneRead(c);
          RStripOne(ReadText(front), if c == '\r' then '\n' else c);
        }
      }
    }
  }

  lemma RStripOne(s: string, c: char)
    requires IsSpace(c)
    ensures RStrip(s + [c]) == RStrip(s)
  {
    assert (s + [c])[..|s|] == s;
  }

  lemma OneRead(c: char)
    ensures ReadText([c]) == [if c == '\r' then '\n' else c]
  {
    assert [c][1..] == "";
  }

  /** A newline behind a carriage return adds nothing. */
  lemma CutLineEnd(front: string)
    requires front != "" && front[|front| - 1] == '\r'
    ensures ReadText(front + "\n") == ReadText(front)
  {
    var head := front[..|front| - 1];
    assert front == head + "\r" && front + "\n" == head + "\r\n";
    ReadSplit(head, "\r");
    ReadSplit(head, "\r\n");
    OneRead('\r');
    assert "\r\n"[2..] == "";
    assert ReadText("\r\n") == "\n";
  }

  lemma StripReads(t: string)
    ensures Strip(ReadText(t)) == ReadText(Strip(t))
  {
    LStripReads(t);
    RStripReads(LStrip(t));
  }

  lemma {:induction false} LineLenReads(t: string)
    ensures LineLen(ReadText(t)) == LineLen(t) && NoReturns(t[..LineLen(t)])
  {
    ReadHead(t);
    hide ReadText, NoReturns;
    if t != "" && !IsBreak(t[0]) {
      LineLenReads(t[1..]);
      AfterHead(t);
      OneMore(t, LineLen(t[1..]));
    } else {
      NoneYet(t);
    }
  }

  /** The text behind the first line and its break. */
  function AfterLine(t: string): (r: string)
    ensures t != "" ==> |r| < |t|
  {
    var tail := t[LineLen(t)..];
    tail[BreakLen(tail)..]
  }

  lemma LineAndRest(t: string)
    requires t != ""
    ensures SplitLines(t) == [t[..LineLen(t)]] + SplitLines(AfterLine(t))
  {
    hide LineLen, BreakLen, IsBreak, SplitLines;
    var n, tail := LineLen(t), t[LineLen(t)..];
    var line, br, rest := t[..n], tail[..BreakLen(tail)], tail[BreakLen(tail)..];
    if n == |t| {
      OneLine(t);
      NoLines();
      assert rest == "" && line == t;
    } else {
      assert br + rest == tail && line + br + rest == t;
      FirstLine(t, line, br, rest);
    }
  }

  lemma NoLines()
    ensures SplitLines("") == []
  {
  }

  lemma AfterLineReads(t: string)
    ensures ReadText(t)[..LineLen(ReadText(t))] == t[..LineLen(t)]
    ensures AfterLine(ReadText(t)) == ReadText(AfterLine(t))
  {
    hide LineLen, BreakLen, ReadText, NoReturns;
    LineLenReads(t);
    hide IsBreak;
    CutPlain(t, LineLen(t));
    BreakReads(t[LineLen(t)..]);
  }

  /** The lines are the same, whatever ended them. */
  lemma {:induction false} LinesRead(t: string)
    ensures SplitLines(ReadText(t)) == SplitLines(t)
    decreases |t|
  {
    ReadHead(t);
    hide LineLen, AfterLine, SplitLines, ReadText;
    if t == "" {
      assert ReadText(t) == t;
    } else {
      LineAndRest(t);
      LineAndRest(ReadText(t));
      AfterLineReads(t);
      LinesRead(AfterLine(t));
    }
  }

  /** Behind its first line break, the text is read on. */
  lemma BreakReads(t: string)
    requires t != "" ==> IsBreak(t[0])
    ensures ReadText(t)[BreakLen(ReadText(t))..] == ReadText(t[BreakLen(t)..])
  {
    ReadHead(t);
    if t != "" {
      assert BreakLen(ReadText(t)) == 1;
    }
  }

  predicate NoBreaks(s: string) {
    forall k | 0 <= k < |s| :: !IsBreak(s[k])
  }

  lemma {:induction false} LinesHaveNoBreaks(t: string)
    ensures forall i | 0 <= i < |SplitLines(t)| :: NoBreaks(SplitLines(t)[i])
    decreases |t|
  {
    if t != "" {
      LinesHaveNoBreaks(t[LineLen(t) + BreakLen(t[LineLen(t)..])..]);
    }
  }

  lemma {:induction false} JoinedHaveNoReturns(lines: seq<string>)
    requires forall i | 0 <= i < |lines| :: NoBreaks(lines[i])
    ensures NoReturns(Join(lines))
  {
    if |lines| > 1 {
      JoinedHaveNoReturns(lines[1..]);
      assert lines[0] + "\n" + Join(lines[1..]) == Join(lines);
    }
  }

  lemma StripHasNoReturns(s: string)
    requires NoReturns(s)
    ensures NoReturns(Strip(s))
  {
    hide LStrip, RStrip;
    LStripIsSuffix(s);
    assert RStrip(LStrip(s)) <= LStrip(s);
  }

  /** What is left of a fenced text has newlines only. */
  lemma FencedHasNoReturns(t: string)
    requires FENCE <= Strip(t)
    ensures NoReturns(StripCodeFence(t))
  {
    hide SplitLines, Join, NoReturns, Strip;
    LinesHaveNoBreaks(Strip(t));
    var lines := SplitLines(Strip(t));
    var body := if lines != [] && FENCE <= lines[0] then lines[1..] else lines;
    var inner := if body != [] && FENCE <= body[|body| - 1] then body[..|body| - 1] else body;
    JoinedHaveNoReturns(inner);
    StripHasNoReturns(Join(inner));
  }

  lemma FenceReads(t: string)
    ensures StripCodeFence(ReadText(t)) == ReadText(StripCodeFence(t))
  {
    hide SplitLines, Join, Strip, ReadText;
    var s := Strip(t);
    StripReads(t);
    PatternAtHead(FENCE, s);
    if FENCE <= s {
      LinesRead(s);
      var r := StripCodeFence(t);
      assert StripCodeFence(ReadText(t)) == r;
      FencedHasNoReturns(t);
      PlainPrefix(r, "");
      assert r + "" == r && r + ReadText("") == r by {
        NothingRead();
      }
    }
  }

  lemma NothingRead()
    ensures ReadText("") == ""
  {
  }

  // ----- the choice between bare, fenced and embedded objects -----

  lemma {:induction false} FindTextReads(s: string, p: string)
    requires p != "" && forall k | 0 <= k < |p| :: p[k] != '\r' && p[k] != '\n'
    ensures FindText(s, p).Some? <==> FindText(ReadText(s), p).Some?
    ensures FindText(s, p).Some? ==>
              ReadText(s)[FindText(ReadText(s), p).value..] == ReadText(s[FindText(s, p).value..])
    decreases |s|
  {
    PatternAtHead(p, s);
    if s != "" && !(p <= s) {
      var skip := Skip(s);
      var rest := s[skip..];
      FindTextReads(rest, p);
      assert ReadText(s)[1..] == ReadText(rest);
      FindTextSkips(s, p, skip);
      FindTextSkips(ReadText(s), p, 1);
    }
  }

  /** The pattern is not found at a place that does not begin with its first character. */
  lemma FindTextSkips(s: string, p: string, skip: nat)
    requires p != "" && !(p <= s) && s != "" && 1 <= skip <= |s| && skip <= 2 && (skip == 2 ==> s[1] != p[0])
    ensures FindText(s, p).Some? <==> FindText(s[skip..], p).Some?
    ensures FindText(s, p).Some? ==>
              && FindText(s[skip..], p).value <= |s[skip..]|
              && s[FindText(s, p).value..] == s[skip..][FindText(s[skip..], p).value..]
  {
    if skip == 2 {
      assert s[1..][1..] == s[2..];
      assert !(p <= s[1..]);
    }
  }

  lemma {:induction false} CharKept(t: string, c: char)
    requires c in t && c != '\r' && c != '\n'
    ensures c in ReadText(t)
    decreases |t|
  {
    if t[0] != c {
      var skip := Skip(t);
      assert c in t[skip..];
      CharKept(t[skip..], c);
    }
  }

  /** The object text found in the text read is the one found in the file, read. */
  lemma ExtractReads(t: string)
    ensures ExtractJsonText(ReadText(t)) == Read(ExtractJsonText(t))
  {
    hide StripCodeFence, ReadText, FindText, FirstObject, ExtractJsonText;
    FenceReads(t);
    var s := StripCodeFence(t);
    FirstObjectReads(s);
    FindTextReads(s, JSON_FENCE);
    SameEnds(s);
    ChosenFrom(t);
    ChosenFrom(ReadText(t));
    if FindText(s, JSON_FENCE).Some? {
      EmbeddedReads(s[FindText(s, JSON_FENCE).value..]);
    }
  }

  /** The choice, with the stripped text and the text from its first JSON fence on named once. */
  lemma ChosenFrom(t: string)
    ensures var s := StripCodeFence(t);
            ExtractJsonText(t) ==
            if Begins(s, '{') && s[|s| - 1] == '}' then Some(s)
            else match FindText(s, JSON_FENCE)
              case None => FirstObject(s)
              case Some(n) =>
                if '{' in StripCodeFence(s[n..]) then FirstObject(StripCodeFence(s[n..])) else FirstObject(s)
  {
    hide StripCodeFence, FindText, FirstObject;
  }

  /** A bare object is recognised by its first and last characters. */
  lemma SameEnds(s: string)
    ensures var read := ReadText(s);
            Begins(read, '{') && read[|read| - 1] == '}' <==> Begins(s, '{') && s[|s| - 1] == '}'
  {
    ReadHead(s);
    if s != "" {
      LastRead(s);
    }
  }

  lemma EmbeddedReads(tail: string)
    ensures var fenced, read := StripCodeFence(tail), StripCodeFence(ReadText(tail));
            && ('{' in read <==> '{' in fenced)
            && FirstObject(read) == Read(FirstObject(fenced))
  {
    hide StripCodeFence, ReadText, FirstObject;
    var fenced := StripCodeFence(tail);
    FenceReads(tail);
    FirstObjectReads(fenced);
    if '{' in fenced {
      CharKept(fenced, '{');
    } else {
      NoNewChars(fenced, '{');
    }
  }

  // ----- the parser -----

  function Lift<T>(p: Parse<T>): Parse<T> {
    match p
    case Fail => Fail
    case Done(v, rest) => Done(v, ReadText(rest))
  }

  lemma {:induction false} SkipWsReads(t: string)
    ensures SkipWs(ReadText(t)) == ReadText(SkipWs(t))
    decreases |t|
  {
    if t != "" && IsWs(t[0]) {
      var skip := Skip(t);
      assert ReadText(t)[1..] == ReadText(t[skip..]);
      SkipWsReads(t[skip..]);
      assert skip == 2 ==> SkipWs(t[1..]) == SkipWs(t[1..][1..]) && t[1..][1..] == t[2..];
    }
  }

  lemma Hex4Reads(t: string)
    ensures Hex4(ReadText(t)) == Hex4(t)
    ensures Hex4(t).Some? ==> NoReturns(t[..4])
  {
    var read := ReadText(t);
    hide ReadText;
    if Hex4(t).Some? {
      PatternAtHead(t[..4], t);
      assert t[..4] <= read;
    } else if |read| >= 4 && forall k | 0 <= k < 4 :: HexValue(read[k]).Some? {
      PatternAtHead(read[..4], t);
      assert read[..4] <= t;
    }
  }

  predicate PairBegins(t: string) {
    |t| >= 6 && t[4] == '\\' && t[5] == 'u'
  }

  /** Texts with the same digits at their heads, and in a second escape, give the same character. */
  lemma UnicodeSame(t: string, s: string) returns (k: nat)
    requires Hex4(t).Some? && Hex4(s) == Hex4(t) && (PairBegins(t) <==> PairBegins(s))
    requires PairBegins(t) ==> Hex4(s[6..]) == Hex4(t[6..])
    ensures ReadUnicode(t).Fail? <==> ReadUnicode(s).Fail?
    ensures ReadUnicode(t).Done? ==>
              && ReadUnicode(s).value == ReadUnicode(t).value
              && k <= |t| && k <= |s| && ReadUnicode(t).rest == t[k..] && ReadUnicode(s).rest == s[k..]
              && (k == 4 || (k == 10 && PairBegins(t) && Hex4(t[6..]).Some?))
  {
    hide Hex4;
    var high := Hex4(t).value;
    k := if high < 0xD800 || 0xE000 <= high then 4 else 10;
  }

  lemma ReadUnicodeReads(t: string)
    ensures ReadUnicode(ReadText(t)) == Lift(ReadUnicode(t))
  {
    hide Hex4, ReadText, NoReturns, ReadUnicode, PairBegins;
    Hex4Reads(t);
    if Hex4(t).Some? {
      CutPlain(t, 4);
      PairReads(t);
      var k := UnicodeSame(t, ReadText(t));
      if ReadUnicode(t).Done? {
        if k == 10 {
          Longer(t, 6, 4);
        }
        CutPlain(t, k);
      }
    } else {
      NoUnicode(t);
      NoUnicode(ReadText(t));
    }
  }

  lemma NoUnicode(t: string)
    requires Hex4(t).None?
    ensures ReadUnicode(t) == Fail
  {
  }

  lemma PairReads(t: string)
    requires Hex4(t).Some?
    ensures PairBegins(ReadText(t)) <==> PairBegins(t)
    ensures PairBegins(t) ==> NoReturns(t[..6]) && Hex4(ReadText(t)[6..]) == Hex4(t[6..])
    ensures PairBegins(t) && Hex4(t[6..]).Some? ==> NoReturns(t[6..][..4])
  {
    hide Hex4, ReadText, NoReturns;
    Hex4Reads(t);
    CutPlain(t, 4);
    EscapeBegins(t[4..]);
    if PairBegins(t) {
      Longer(t, 4, 2);
      CutPlain(t, 6);
      Hex4Reads(t[6..]);
    }
  }

  /** A second escape begins in the text read exactly if it begins in the file. */
  lemma EscapeBegins(t: string)
    ensures var read := ReadText(t);
            |read| >= 2 && read[0] == '\\' && read[1] == 'u' <==> |t| >= 2 && t[0] == '\\' && t[1] == 'u'
    ensures |t| >= 2 && t[0] == '\\' && t[1] == 'u' ==> NoReturns(t[..2])
  {
    hide ReadText;
    PatternAtHead("\\u", t);
    assert "\\u" <= t <==> |t| >= 2 && t[0] == '\\' && t[1] == 'u';
    var read := ReadText(t);
    assert "\\u" <= read <==> |read| >= 2 && read[0] == '\\' && read[1] == 'u';
  }

  lemma ReadCharReads(t: string)
    requires t != ""
    ensures ReadText(t) != "" && ReadChar(ReadText(t)) == Lift(ReadChar(t))
  {
    hide ReadUnicode, ReadText;
    ReadHead(t);
    if t[0] >= ' ' {
      assert t[..1] == [t[0]];
      CutPlain(t, 1);
      if |t| > 1 && t[0] == '\\' {
        EscapeReads(t);
      } else {
        ReadHead(t[1..]);
      }
    }
  }

  lemma EscapeReads(t: string)
    requires |t| > 1 && t[0] == '\\'
    ensures ReadText(t) != "" && ReadChar(ReadText(t)) == Lift(ReadChar(t))
  {
    var read := ReadText(t);
    ReadHead(t);
    AfterHead(t);
    ReadHead(t[1..]);
    assert |read| > 1 && read[1] == if t[1] == '\r' then '\n' else t[1];
    hide ReadUnicode, ReadText, ReadChar;
    if t[1] == '\r' {
      NoEscape(t);
      NoEscape(read);
    } else {
      PlainPair(t);
      CutPlain(t, 2);
      ReadUnicodeReads(t[2..]);
      SameEscape(t, read);
    }
  }

  lemma PlainPair(t: string)
    requires |t| > 1 && t[0] != '\r' && t[1] != '\r'
    ensures NoReturns(t[..2])
  {
  }

  lemma NoEscape(t: string)
    requires |t| > 1 && t[0] == '\\' && (t[1] == '\r' || t[1] == '\n')
    ensures ReadChar(t) == Fail
  {
  }

  /** Two texts with the same escape letter give the same character, and go on behind it. */
  lemma SameEscape(t: string, s: string)
    requires |t| > 1 && |s| > 1 && t[0] == s[0] == '\\' && t[1] == s[1]
    ensures if t[1] == 'u' then ReadChar(t) == ReadUnicode(t[2..]) && ReadChar(s) == ReadUnicode(s[2..])
            else
              && (ReadChar(t).Fail? <==> ReadChar(s).Fail?)
              && (ReadChar(t).Done? ==>
                    && ReadChar(t).value == ReadChar(s).value
                    && ReadChar(t).rest == t[2..] && ReadChar(s).rest == s[2..])
  {
    hide ReadUnicode;
  }

  lemma {:induction false} ReadStringReads(t: string)
    ensures ReadString(ReadText(t)) == Lift(ReadString(t))
    decreases |t|
  {
    ReadHead(t);
    hide ReadText, ReadChar;
    if t != "" {
      if t[0] == '\"' {
        assert t[..1] == "\"";
        CutPlain(t, 1);
      } else {
        ReadCharReads(t);
        if ReadChar(t).Done? {
          ReadStringReads(ReadChar(t).rest);
        }
      }
    }
  }

  lemma {:induction false} DigitRunReads(t: string)
    ensures DigitRun(ReadText(t)) == DigitRun(t) && NoReturns(t[..DigitRun(t)])
  {
    ReadHead(t);
    hide ReadText, NoReturns;
    if t != "" && IsDigit(t[0]) {
      DigitRunReads(t[1..]);
      AfterHead(t);
      OneMore(t, DigitRun(t[1..]));
    } else {
      NoneYet(t);
    }
  }

  lemma IntLenReads(t: string)
    ensures IntLen(ReadText(t)) == IntLen(t) && NoReturns(t[..IntLen(t)])
  {
    hide DigitRun, ReadText;
    var s := SignLen(t);
    ReadHead(t);
    CutPlain(t, s);
    ReadHead(t[s..]);
    DigitRunReads(t[s..]);
    if IntLen(t) > 0 {
      assert t[..IntLen(t)] == t[..s] + t[s..][..IntLen(t) - s];
      assert t[s] != '\r' && |t[s..]| > 0;
      assert t[s..][..1] == [t[s]];
    }
  }

  lemma FracLenReads(t: string)
    ensures FracLen(ReadText(t)) == FracLen(t) && NoReturns(t[..FracLen(t)])
  {
    hide DigitRun, ReadText;
    ReadHead(t);
    if t != "" && t[0] == '.' {
      assert t[..1] == ".";
      CutPlain(t, 1);
      DigitRunReads(t[1..]);
      assert FracLen(t) > 0 ==> t[..FracLen(t)] == [t[0]] + t[1..][..DigitRun(t[1..])];
    }
  }

  lemma ExpLenReads(t: string)
    ensures ExpLen(ReadText(t)) == ExpLen(t) && NoReturns(t[..ExpLen(t)])
  {
    hide DigitRun, ReadText;
    ReadHead(t);
    if t != "" && (t[0] == 'e' || t[0] == 'E') {
      assert t[..1] == [t[0]];
      CutPlain(t, 1);
      ReadHead(t[1..]);
      var sign := if |t| > 1 && (t[1] == '+' || t[1] == '-') then 2 else 1;
      assert sign == 2 ==> t[..2] == [t[0], t[1]];
      CutPlain(t, sign);
      DigitRunReads(t[sign..]);
      assert ExpLen(t) > 0 ==> t[..ExpLen(t)] == t[..sign] + t[sign..][..DigitRun(t[sign..])];
    }
  }

  lemma SpecialLenReads(t: string)
    ensures SpecialLen(ReadText(t)) == SpecialLen(t) && NoReturns(t[..SpecialLen(t)])
  {
    hide ReadText;
    PatternAtHead("NaN", t);
    PatternAtHead("Infinity", t);
    PatternAtHead("-Infinity", t);
    var s := t[..SpecialLen(t)];
    assert s == "" || s == "NaN" || s == "Infinity" || s == "-Infinity";
  }

  /** The integer, the fraction and the exponent at the head of the text have these lengths. */
  predicate NumberParts(t: string, n: nat, f: nat, e: nat) {
    n + f + e <= |t| && IntLen(t) == n && FracLen(t[n..]) == f && ExpLen(t[n + f..]) == e
  }

  /** The three parts of a number are the same in the text read. */
  lemma DecimalReads(t: string) returns (n: nat, f: nat, e: nat)
    requires IntLen(t) > 0
    ensures NumberParts(t, n, f, e) && NumberParts(ReadText(t), n, f, e) && n == IntLen(t)
    ensures ReadText(t)[..n] == t[..n] && ReadText(t)[n..] == ReadText(t[n..])
    ensures ReadText(t)[..n + f + e] == t[..n + f + e] && ReadText(t)[n + f + e..] == ReadText(t[n + f + e..])
  {
    hide IntLen, FracLen, ExpLen, ReadText, NoReturns;
    n := IntLen(t);
    IntLenReads(t);
    CutPlain(t, n);
    FracLenReads(t[n..]);
    f := FracLen(t[n..]);
    Longer(t, n, f);
    CutPlain(t, n + f);
    ExpLenReads(t[n + f..]);
    e := ExpLen(t[n + f..]);
    Longer(t, n + f, e);
    CutPlain(t, n + f + e);
  }

  lemma Longer(t: string, n: nat, k: nat)
    requires n <= |t| && k <= |t[n..]| && NoReturns(t[..n]) && NoReturns(t[n..][..k])
    ensures NoReturns(t[..n + k])
  {
    assert t[..n + k] == t[..n] + t[n..][..k];
  }

  lemma ReadNumberReads(fl: FloatReader, t: string)
    ensures ReadNumber(fl, ReadText(t)) == Lift(ReadNumber(fl, t))
  {
    hide IntLen, FracLen, ExpLen, SpecialLen, ReadText, ReadNumber, NoReturns, ReadInteger;
    IntLenReads(t);
    if IntLen(t) == 0 {
      SpecialLenReads(t);
      CutPlain(t, SpecialLen(t));
      ReadSpecial(fl, t);
      ReadSpecial(fl, ReadText(t));
    } else {
      var n, f, e := DecimalReads(t);
      ReadDecimal(fl, t, n, f, e);
      ReadDecimal(fl, ReadText(t), n, f, e);
    }
  }

  lemma ReadSpecial(fl: FloatReader, t: string)
    requires IntLen(t) == 0
    ensures var s := SpecialLen(t); ReadNumber(fl, t) == if s == 0 then Fail else Done(fl(t[..s]), t[s..])
  {
    hide IntLen, SpecialLen;
  }

  lemma ReadDecimal(fl: FloatReader, t: string, n: nat, f: nat, e: nat)
    requires NumberParts(t, n, f, e) && n > 0
    ensures IntLen(t[..n]) == |t[..n]|
    ensures ReadNumber(fl, t) ==
            if f == 0 && e == 0 then Done(Integer(ReadInteger(t[..n])), t[n..])
            else Done(fl(t[..n + f + e]), t[n + f + e..])
  {
    hide IntLen, FracLen, ExpLen, ReadInteger;
    IntLenOfPrefix(t);
  }

  /** Reading a value does not depend on how line ends are written. */
  lemma {:induction false} ParseReads(fl: FloatReader, t: string)
    ensures ParseValue(fl, ReadText(t)) == Lift(ParseValue(fl, t))
    decreases |t|, 0
  {
    hide ReadNumber, ReadString, ParseElements, ParseMembers, SkipWs, ReadText;
    ReadHead(t);
    if t != "" {
      if t[0] in {'\"', '{', '['} {
        assert t[..1] == [t[0]];
        CutPlain(t, 1);
        ReadStringReads(t[1..]);
        SkipWsReads(t[1..]);
        var u := SkipWs(t[1..]);
        ReadHead(u);
        if u != "" {
          ParseElementsReads(fl, u);
          ParseMembersReads(fl, u, Empty);
          AfterHead(u);
        }
      } else {
        PatternAtHead("null", t);
        PatternAtHead("true", t);
        PatternAtHead("false", t);
        ReadNumberReads(fl, t);
        AfterWord(t, "null");
        AfterWord(t, "true");
        AfterWord(t, "false");
      }
    }
  }

  lemma AfterWord(t: string, p: string)
    requires NoReturns(p)
    ensures p <= t ==> |p| <= |ReadText(t)| && ReadText(t)[|p|..] == ReadText(t[|p|..])
  {
    hide ReadText;
    if p <= t {
      assert t[..|p|] == p;
      CutPlain(t, |p|);
    }
  }

  lemma {:induction false} ParseElementsReads(fl: FloatReader, t: string)
    ensures ParseElements(fl, ReadText(t)) == Lift(ParseElements(fl, t))
    decreases |t|, 1
  {
    hide ParseValue, SkipWs, ReadText;
    ParseReads(fl, t);
    if ParseValue(fl, t).Done? {
      var rest := ParseValue(fl, t).rest;
      SkipWsReads(rest);
      var u := SkipWs(rest);
      ReadHead(u);
      if u != "" {
        AfterHead(u);
        SkipWsReads(u[1..]);
        ParseElementsReads(fl, SkipWs(u[1..]));
      }
    }
  }

  lemma {:induction false} ParseMemberReads(fl: FloatReader, t: string)
    ensures ParseMember(fl, ReadText(t)) == Lift(ParseMember(fl, t))
    decreases |t|, 1
  {
    hide ParseValue, SkipWs, ReadText, ReadString;
    ReadHead(t);
    if Begins(t, '\"') {
      AfterHead(t);
      ReadStringReads(t[1..]);
      if ReadString(t[1..]).Done? {
        var rest := ReadString(t[1..]).rest;
        SkipWsReads(rest);
        var u := SkipWs(rest);
        ReadHead(u);
        if u != "" {
          AfterHead(u);
          SkipWsReads(u[1..]);
          ParseReads(fl, SkipWs(u[1..]));
        }
      }
    }
  }

  lemma {:induction false} ParseMembersReads(fl: FloatReader, t: string, d: Fields)
    ensures ParseMembers(fl, ReadText(t), d) == Lift(ParseMembers(fl, t, d))
    decreases |t|, 2
  {
    hide ParseMember, SkipWs, ReadText;
    ParseMemberReads(fl, t);
    if ParseMember(fl, t).Done? {
      var Done(entry, rest) := ParseMember(fl, t);
      SkipWsReads(rest);
      var u := SkipWs(rest);
      ReadHead(u);
      if u != "" {
        AfterHead(u);
        SkipWsReads(u[1..]);
        ParseMembersReads(fl, SkipWs(u[1..]), Put(d, entry.0, entry.1));
      }
    }
  }

  /** So `json.loads` gives the same for the text read as for the file. */
  lemma LoadsReads(fl: FloatReader, t: string)
    ensures Loads(fl, ReadText(t)) == Loads(fl, t)
  {
    hide ParseValue, SkipWs, ReadText;
    SkipWsReads(t);
    ParseReads(fl, SkipWs(t));
    if ParseValue(fl, SkipWs(t)).Done? {
      var rest := ParseValue(fl, SkipWs(t)).rest;
      SkipWsReads(rest);
      ReadHead(SkipWs(rest));
    }
  }
}
