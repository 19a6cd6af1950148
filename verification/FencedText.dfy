/**
 Choosing the JSON object out of a bare, fenced or embedded answer
 (scripts/run_title_clustering_opus.py: `_strip_code_fence`, `_extract_json_text`).
 */
module FencedText {
  import opened Options
  import opened JsonValues
  import opened JsonText
  import opened ResponseText

  const FENCE := "```"
  const JSON_FENCE := "```json"

  // ----- Python's string methods -----

  /** What Python counts as white space. */
  predicate IsSpace(c: char) {
    var n := c as int;
    || 9 <= n <= 13 || 28 <= n <= 32 || n == 0x85 || n == 0xA0 || n == 0x1680 || 0x2000 <= n <= 0x200A
    || n == 0x2028 || n == 0x2029 || n == 0x202F || n == 0x205F || n == 0x3000
  }

  function LStrip(s: string): (r: string)
    ensures r == "" || !IsSpace(r[0])
    ensures s == "" || !IsSpace(s[0]) ==> r == s
  {
    if s != "" && IsSpace(s[0]) then LStrip(s[1..]) else s
  }

  function RStrip(s: string): (r: string)
    ensures r == "" || !IsSpace(r[|r| - 1])
    ensures s == "" || !IsSpace(s[|s| - 1]) ==> r == s
    ensures r <= s
  {
    if s != "" && IsSpace(s[|s| - 1]) then RStrip(s[..|s| - 1]) else s
  }

  function Strip(s: string): string {
    RStrip(LStrip(s))
  }

  /** The characters at which `str.splitlines` breaks lines. */
  predicate IsBreak(c: char) {
    var n := c as int;
    10 <= n <= 13 || 28 <= n <= 30 || n == 0x85 || n == 0x2028 || n == 0x2029
  }

  /** The length of the first line, without its break. */
  function LineLen(s: string): (n: nat)
    ensures n <= |s| && (n < |s| ==> IsBreak(s[n])) && forall k | 0 <= k < n :: !IsBreak(s[k])
  {
    if s == "" || IsBreak(s[0]) then 0 else 1 + LineLen(s[1..])
  }

  /** The length of the line break at the head of `s`: two for carriage return and newline. */
  function BreakLen(s: string): (n: nat)
    ensures n <= |s| && (n == 0 <==> s == "")
  {
    if s == "" then 0 else if |s| > 1 && s[0] == '\r' && s[1] == '\n' then 2 else 1
  }

  function SplitLines(s: string): seq<string>
    decreases |s|
  {
    if s == "" then []
    else
      var n := LineLen(s);
      [s[..n]] + SplitLines(s[n + BreakLen(s[n..])..])
  }

  /** The lines with newlines between them. */
  function Join(lines: seq<string>): string {
    if lines == [] then "" else if |lines| == 1 then lines[0] else lines[0] + "\n" + Join(lines[1..])
  }

  /** The first place at which the pattern stands in the text. */
  function FindText(s: string, pattern: string): (r: Option<nat>)
    ensures r.Some? ==> r.value <= |s|
  {
    if pattern <= s then Some(0)
    else if s == "" then None
    else match FindText(s[1..], pattern)
      case None => None
      case Some(n) => Some(n + 1)
  }

  // ----- the two functions -----

  function StripCodeFence(text: string): string {
    var stripped := Strip(text);
    if FENCE <= stripped then
      var lines := SplitLines(stripped);
      var body := if lines != [] && FENCE <= lines[0] then lines[1..] else lines;
      var inner := if body != [] && FENCE <= body[|body| - 1] then body[..|body| - 1] else body;
      Strip(Join(inner))
    else stripped
  }

  function ExtractJsonText(text: string): Option<string> {
    var stripped := StripCodeFence(text);
    if Begins(stripped, '{') && stripped[|stripped| - 1] == '}' then Some(stripped)
    else
      match FindText(stripped, JSON_FENCE)
      case Some(n) =>
        var fenced := StripCodeFence(stripped[n..]);
        if '{' in fenced then FirstObject(fenced) else FirstObject(stripped)
      case None => FirstObject(stripped)
  }

  // ----- stripping -----

  predicate Tight(s: string) {
    s != "" && !IsSpace(s[0]) && !IsSpace(s[|s| - 1])
  }

  lemma StripTight(s: string)
    requires Tight(s)
    ensures Strip(s) == s
  {
  }

  lemma {:induction false} RStripAppend(s: string, q: string)
    requires s != "" && !IsSpace(s[|s| - 1])
    ensures RStrip(s + q) == s + RStrip(q)
    decreases |q|
  {
    if q == "" {
      assert s + q == s;
    } else {
      var t := s + q;
      if IsSpace(q[|q| - 1]) {
        assert t[..|t| - 1] == s + q[..|q| - 1];
        RStripAppend(s, q[..|q| - 1]);
      }
    }
  }

  /** Text behind a tight text is stripped at its end only. */
  lemma StripAppend(s: string, q: string)
    requires Tight(s)
    ensures Strip(s + q) == s + RStrip(q)
  {
    RStripAppend(s, q);
  }

  lemma {:induction false} LStripAppend(s: string, q: string)
    ensures LStrip(s + q) == if LStrip(s) == "" then LStrip(q) else LStrip(s) + q
  {
    if s == "" {
      assert s + q == q;
    } else if IsSpace(s[0]) {
      assert (s + q)[1..] == s[1..] + q;
      LStripAppend(s[1..], q);
    }
  }

  lemma StripNewline(text: string)
    ensures Strip(text + "\n") == Strip(text)
  {
    var s := LStrip(text);
    LStripAppend(text, "\n");
    if s == "" {
      assert LStrip("\n") == LStrip("\n"[1..]);
    } else {
      assert (s + "\n")[..|s + "\n"| - 1] == s;
    }
  }

  lemma FenceSeesStripped(text: string)
    ensures StripCodeFence(text + "\n") == StripCodeFence(text)
  {
    hide SplitLines, Join, Strip;
    StripNewline(text);
  }

  /** The newline the program appends when it saves an answer does not change what is extracted from it. */
  lemma TrailingNewlineIgnored(text: string)
    ensures ExtractJsonText(text + "\n") == ExtractJsonText(text)
  {
    hide StripCodeFence, FirstObject, FindText;
    FenceSeesStripped(text);
  }

  // ----- lines -----

  predicate EndsLine(s: string) {
    s != "" && IsBreak(s[|s| - 1])
  }

  /** The only line breaks are newlines: then splitting and joining is the identity. */
  predicate OnlyNewlines(s: string) {
    forall k | 0 <= k < |s| && IsBreak(s[k]) :: s[k] == '\n'
  }

  lemma {:induction false} LineLenAppend(s: string, q: string)
    ensures LineLen(s + q) == if LineLen(s) < |s| then LineLen(s) else |s| + LineLen(q)
  {
    if s == "" {
      assert s + q == q;
    } else if !IsBreak(s[0]) {
      assert (s + q)[1..] == s[1..] + q;
      LineLenAppend(s[1..], q);
    }
  }

  lemma OneLine(s: string)
    requires s != "" && LineLen(s) == |s|
    ensures SplitLines(s) == [s]
  {
    assert s[|s|..] == "" && s[..|s|] == s;
    assert SplitLines("") == [];
  }

  /** The first line and the lines behind its break. */
  lemma FirstLine(s: string, line: string, br: string, rest: string)
    requires s == line + br + rest && LineLen(s) == |line| && BreakLen(br + rest) == |br| > 0
    ensures SplitLines(s) == [line] + SplitLines(rest)
  {
    assert s[|line|..] == br + rest;
    assert s[..|line|] == line && s[|line| + |br|..] == rest;
  }

  /** A newline between two texts separates their lines. */
  lemma {:induction false} SplitLinesAppend(s: string, q: string)
    requires s != "" && !EndsLine(s)
    ensures SplitLines(s + "\n" + q) == SplitLines(s) + SplitLines(q)
    decreases |s|
  {
    hide SplitLines, LineLen;
    var t := s + "\n" + q;
    var n := LineLen(s);
    assert t == s + ("\n" + q);
    LineLenAppend(s, "\n" + q);
    if n < |s| {
      var b := BreakLen(s[n..]);
      assert n + b < |s| by {
        assert !IsBreak(s[|s| - 1]) && IsBreak(s[n]);
        assert b == 2 ==> s[n + 1] == '\n';
      }
      var line, br, rest := s[..n], s[n..n + b], s[n + b..];
      assert s[n..] == br + rest;
      assert s == line + br + rest;
      FirstLine(s, line, br, rest);
      assert t == line + br + (rest + "\n" + q);
      assert BreakLen(br + (rest + "\n" + q)) == b;
      FirstLine(t, line, br, rest + "\n" + q);
      SplitLinesAppend(rest, q);
    } else {
      NewlineIsABreak(q);
      FirstLine(t, s, "\n", q);
      OneLine(s);
    }
  }

  lemma NewlineIsABreak(q: string)
    ensures LineLen("\n" + q) == 0 && BreakLen("\n" + q) == 1
  {
  }

  lemma {:induction false} JoinAppend(a: seq<string>, b: seq<string>)
    requires a != []
    ensures Join(a + b) == if b == [] then Join(a) else Join(a) + "\n" + Join(b)
  {
    if b == [] {
      assert a + b == a;
    } else if |a| == 1 {
      assert (a + b)[1..] == b;
    } else {
      assert (a + b)[1..] == a[1..] + b;
      JoinAppend(a[1..], b);
    }
  }

  lemma {:induction false} JoinSplitLines(s: string)
    requires OnlyNewlines(s) && !EndsLine(s)
    ensures Join(SplitLines(s)) == s
    decreases |s|
  {
    if s != "" {
      var n := LineLen(s);
      if n < |s| {
        var rest := s[n + 1..];
        assert BreakLen(s[n..]) == 1;
        assert s == s[..n] + "\n" + rest;
        assert OnlyNewlines(rest) && !EndsLine(rest) && rest != "";
        hide SplitLines, Join, LineLen, BreakLen, OnlyNewlines, EndsLine;
        JoinSplitLines(rest);
        SomeLines(rest);
        JoinNextLine(s);
        assert s[n + BreakLen(s[n..])..] == rest;
      } else {
        OneLine(s);
      }
    }
  }

  lemma {:induction false} JoinedBreaks(s: string)
    ensures OnlyNewlines(Join(SplitLines(s)))
    decreases |s|
  {
    if s != "" {
      hide SplitLines, Join, LineLen, BreakLen;
      var n := LineLen(s);
      var rest := s[n + BreakLen(s[n..])..];
      JoinedBreaks(rest);
      JoinNextLine(s);
    }
  }

  lemma JoinNextLine(s: string)
    requires s != ""
    ensures var n := LineLen(s); var rest := SplitLines(s[n + BreakLen(s[n..])..]);
            Join(SplitLines(s)) == if rest == [] then s[..n] else s[..n] + "\n" + Join(rest)
  {
    hide SplitLines, Join, LineLen, BreakLen;
    var n := LineLen(s);
    SplitFirst(s, n, s[n + BreakLen(s[n..])..]);
    JoinFirst(s[..n], SplitLines(s[n + BreakLen(s[n..])..]));
  }

  lemma SplitFirst(s: string, n: nat, rest: string)
    requires s != "" && n == LineLen(s) && rest == s[n + BreakLen(s[n..])..]
    ensures SplitLines(s) == [s[..n]] + SplitLines(rest)
  {
    hide IsBreak;
    assert SplitLines(s) == [s[..LineLen(s)]] + SplitLines(s[LineLen(s) + BreakLen(s[LineLen(s)..])..]);
  }

  lemma JoinFirst(line: string, rest: seq<string>)
    ensures Join([line] + rest) == if rest == [] then line else line + "\n" + Join(rest)
  {
    assert ([line] + rest)[1..] == rest;
  }

  lemma SomeLines(s: string)
    requires s != ""
    ensures SplitLines(s) != []
  {
  }

  lemma JoinOneLine(s: string)
    requires s != "" && LineLen(s) == |s|
    ensures Join(SplitLines(s)) == s
  {
    OneLine(s);
  }

  /** Joining lines keeps the two ends of a text that does not end in a line break. */
  lemma {:induction false} JoinKeepsLast(s: string)
    requires s != "" && !EndsLine(s)
    ensures var j := Join(SplitLines(s)); j != "" && j[|j| - 1] == s[|s| - 1]
    decreases |s|
  {
    hide SplitLines, Join, LineLen;
    var n := LineLen(s);
    if n < |s| {
      var rest := s[n + BreakLen(s[n..])..];
      assert rest != "" by {
        assert BreakLen(s[n..]) == 2 ==> s[n + 1] == '\n';
      }
      JoinKeepsLast(rest);
      JoinNextLine(s);
      SomeLines(rest);
    } else {
      JoinOneLine(s);
    }
  }

  lemma JoinKeepsFirst(s: string)
    requires s != "" && !IsBreak(s[0])
    ensures var j := Join(SplitLines(s)); j != "" && j[0] == s[0]
  {
  }

  // ----- bare, fenced and embedded objects -----

  lemma ObjectTextEnds(o: string)
    requires ObjectText(o)
    ensures Tight(o) && Begins(o, '{') && o[|o| - 1] == '}' && !EndsLine(o) && !IsBreak(o[0])
  {
  }

  /** A bare object is returned as it is. */
  lemma BareObject(o: string)
    requires ObjectText(o)
    ensures ExtractJsonText(o) == Some(o)
  {
    hide SplitLines, Join, FirstObject, FindText, ObjectText;
    ObjectTextEnds(o);
    StripTight(o);
  }

  lemma FencedLines(o: string, y: string)
    requires o != "" && !EndsLine(o)
    ensures SplitLines(JSON_FENCE + "\n" + o + "\n" + y) == [JSON_FENCE] + SplitLines(o) + SplitLines(y)
  {
    hide SplitLines;
    var text := JSON_FENCE + "\n" + o + "\n" + y;
    assert text == JSON_FENCE + "\n" + (o + "\n" + y);
    FenceIsOneLine(JSON_FENCE);
    SplitLinesAppend(JSON_FENCE, o + "\n" + y);
    SplitLinesAppend(o, y);
  }

  lemma FenceIsOneLine(f: string)
    requires f == JSON_FENCE || f == FENCE
    ensures SplitLines(f) == [f] && !EndsLine(f)
  {
    assert forall k | 0 <= k < |f| :: !IsBreak(f[k]);
    OneLine(f);
  }

  /** What is left of a fenced text: the lines between the fences. */
  lemma FenceBody(o: string, y: string)
    requires o != "" && !EndsLine(o) && FENCE <= y && !IsSpace(y[|y| - 1])
    ensures StripCodeFence(JSON_FENCE + "\n" + o + "\n" + y) == Strip(Join(SplitLines(o) + KeptLines(y)))
  {
    hide SplitLines, Join, Strip, LStrip, RStrip;
    var text := JSON_FENCE + "\n" + o + "\n" + y;
    StripTight(text);
    FencedLines(o, y);
    SplitLinesNonempty(y);
    var rest := SplitLines(y);
    var body := SplitLines(o) + rest;
    assert SplitLines(text)[0] == JSON_FENCE && SplitLines(text)[1..] == body;
    assert body[|body| - 1] == rest[|rest| - 1];
    assert body[..|body| - 1] == SplitLines(o) + rest[..|rest| - 1];
  }

  lemma SplitLinesNonempty(y: string)
    requires y != ""
    ensures SplitLines(y) != []
  {
  }

  /** A fenced object comes back with its line breaks turned into newlines, so unchanged exactly when they were. */
  lemma FencedObject(o: string)
    requires ObjectText(o)
    ensures ExtractJsonText(JSON_FENCE + "\n" + o + "\n" + FENCE) == Some(Join(SplitLines(o)))
    ensures ExtractJsonText(JSON_FENCE + "\n" + o + "\n" + FENCE) == Some(o) <==> OnlyNewlines(o)
  {
    hide SplitLines, Join, FirstObject, FindText, ObjectText, StripCodeFence, OnlyNewlines;
    ObjectTextEnds(o);
    FenceBody(o, FENCE);
    FenceIsOneLine(FENCE);
    assert SplitLines(o) + [] == SplitLines(o);
    JoinKeepsFirst(o);
    JoinKeepsLast(o);
    StripTight(Join(SplitLines(o)));
    JoinedBreaks(o);
    if OnlyNewlines(o) {
      JoinSplitLines(o);
    }
  }

  /** There are such objects: one with a line separator in a string, which JSON does not escape. */
  lemma SeparatorObjectIsChanged(fl: FloatReader)
    ensures var o := Print(Obj(Entry("a", Str("\U{2028}"), Empty)));
            ObjectText(o) && !OnlyNewlines(o) && ExtractJsonText(JSON_FENCE + "\n" + o + "\n" + FENCE) != Some(o)
  {
    var v := Obj(Entry("a", Str("\U{2028}"), Empty));
    PrintedIsObjectText(fl, v);
    SeparatorInText();
    hide ObjectText, ExtractJsonText, OnlyNewlines, Print;
    FencedObject(Print(v));
  }

  lemma SeparatorInText()
    ensures !OnlyNewlines(Print(Obj(Entry("a", Str("\U{2028}"), Empty))))
  {
    var o := Print(Obj(Entry("a", Str("\U{2028}"), Empty)));
    assert Escape("\U{2028}") == "\U{2028}";
    assert o == "{" + Quote("a") + ":" + ("\"" + "\U{2028}" + "\"") + "}";
    hide Print, Quote;
    assert o[|Quote("a")| + 3] == '\U{2028}';
  }

  /** An occurrence of the fence cannot overlap the end of the prose before it. */
  lemma {:induction false} FenceFoundAfter(p: string, z: string)
    requires FindText(p, JSON_FENCE) == None
    ensures FindText(p + JSON_FENCE + z, JSON_FENCE) == Some(|p|)
  {
    var t := p + JSON_FENCE + z;
    if p == "" {
      assert t == JSON_FENCE + z;
    } else {
      NoEarlierFence(p, z);
      assert t[1..] == p[1..] + JSON_FENCE + z;
      FenceFoundAfter(p[1..], z);
    }
  }

  lemma NoEarlierFence(p: string, z: string)
    requires p != "" && !(JSON_FENCE <= p)
    ensures !(JSON_FENCE <= p + JSON_FENCE + z)
  {
    var t, n := p + JSON_FENCE + z, |p|;
    assert t[n] == t[n + 1] == t[n + 2] == '`';
    assert JSON_FENCE == ['`', '`', '`', 'j', 's', 'o', 'n'];
    if n >= 7 {
      PrefixOfPrefix(JSON_FENCE, p, t);
    } else if n <= 3 {
      assert t[3] == '`' && JSON_FENCE[3] == 'j';
    } else {
      assert JSON_FENCE[n] != '`';
    }
  }

  lemma PrefixOfPrefix(s: string, p: string, t: string)
    requires p <= t && |s| <= |p|
    ensures s <= t <==> s <= p
  {
  }

  /** Prose that the program does not itself take for an object or a fence. */
  predicate Prose(p: string) {
    p != "" && !IsSpace(p[0]) && p[0] != '{' && !(FENCE <= p + FENCE) && FindText(p, JSON_FENCE) == None
  }

  /** An object in the first JSON fence is found, whatever braces the prose before it and the text behind it hold. */
  lemma EmbeddedObject(p: string, o: string, q: string)
    requires Prose(p) && ObjectText(o) && OnlyNewlines(o)
    ensures ExtractJsonText(p + JSON_FENCE + "\n" + o + "\n" + FENCE + q) == Some(o)
  {
    hide SplitLines, Join, FirstObject, FindText, ObjectText, StripCodeFence, OnlyNewlines, RStrip, Strip;
    ObjectTextEnds(o);
    var y := FENCE + RStrip(q);
    var fenced := JSON_FENCE + "\n" + o + "\n" + y;
    EmbeddedStripped(p, o, q);
    FenceFoundAfter(p, "\n" + o + "\n" + y);
    assert p + JSON_FENCE + ("\n" + o + "\n" + y) == p + fenced;
    assert (p + fenced)[|p|..] == fenced;
    FencedRemainder(o, y);
    var z := Behind(y);
    FirstObjectFound("", o, z);
    assert "" + o + z == o + z;
    assert (o + z)[0] == '{';
  }

  lemma NoFenceAtHead(p: string, z: string)
    requires !(FENCE <= p + FENCE)
    ensures !(FENCE <= p + (JSON_FENCE + z))
  {
    assert (p + FENCE)[..3] == (p + (JSON_FENCE + z))[..3];
  }

  /** Such an answer does not start with a fence, so only its end is stripped. */
  lemma EmbeddedStripped(p: string, o: string, q: string)
    requires Prose(p)
    ensures StripCodeFence(p + JSON_FENCE + "\n" + o + "\n" + FENCE + q) ==
            p + (JSON_FENCE + "\n" + o + "\n" + (FENCE + RStrip(q)))
  {
    hide SplitLines, Join, FindText, Strip, LStrip, RStrip, IsSpace;
    var head := p + JSON_FENCE + "\n" + o + "\n" + FENCE;
    assert p + JSON_FENCE + "\n" + o + "\n" + FENCE + q == head + q;
    EmbeddedHeadTight(p, "\n" + o + "\n");
    assert head == p + JSON_FENCE + ("\n" + o + "\n") + FENCE;
    StripAppend(head, q);
    var z := "\n" + o + "\n" + (FENCE + RStrip(q));
    assert head + RStrip(q) == p + (JSON_FENCE + z);
    assert JSON_FENCE + z == JSON_FENCE + "\n" + o + "\n" + (FENCE + RStrip(q));
    NoFenceAtHead(p, z);
  }

  lemma EmbeddedHeadTight(p: string, z: string)
    requires p != "" && !IsSpace(p[0])
    ensures Tight(p + JSON_FENCE + z + FENCE)
  {
  }

  /** The lines from the closing fence on, without a last one that is itself a fence line. */
  function KeptLines(y: string): seq<string> {
    var rest := SplitLines(y);
    if rest != [] && FENCE <= rest[|rest| - 1] then rest[..|rest| - 1] else rest
  }

  /** What stays behind the object when the fence lines are removed. */
  function Behind(y: string): string {
    if KeptLines(y) == [] then "" else RStrip("\n" + Join(KeptLines(y)))
  }

  /** Without its fence lines, the fenced part starts with the object. */
  lemma FencedRemainder(o: string, y: string)
    requires ObjectText(o) && OnlyNewlines(o) && FENCE <= y && !IsSpace(y[|y| - 1])
    ensures StripCodeFence(JSON_FENCE + "\n" + o + "\n" + y) == o + Behind(y)
  {
    hide SplitLines, Join, ObjectText, StripCodeFence, OnlyNewlines, RStrip, Strip;
    ObjectTextEnds(o);
    FenceBody(o, y);
    RemainderJoined(o, KeptLines(y));
  }

  lemma RemainderJoined(o: string, kept: seq<string>)
    requires Tight(o) && OnlyNewlines(o) && !EndsLine(o)
    ensures Strip(Join(SplitLines(o) + kept)) == o + if kept == [] then "" else RStrip("\n" + Join(kept))
  {
    hide SplitLines, Join, OnlyNewlines, RStrip, Strip;
    SomeLines(o);
    JoinAppend(SplitLines(o), kept);
    JoinSplitLines(o);
    if kept == [] {
      StripTight(o);
      assert o + "" == o;
    } else {
      var behind := "\n" + Join(kept);
      assert o + "\n" + Join(kept) == o + behind;
      StripAppend(o, behind);
    }
  }

  /** What is left of the first JSON fence in the text, if there is one with an opening brace. */
  function LaterFence(s: string): Option<string> {
    match FindText(s, JSON_FENCE)
    case None => None
    case Some(n) =>
      var fenced := StripCodeFence(s[n..]);
      if '{' in fenced then Some(fenced) else None
  }

  /**
   An answer that starts with a fence and has text behind it. If what stays behind the object ends in a closing brace,
   object and text come back together; else, if a further JSON fence holds a brace, the first object from there on;
   else the object. So it is the object that comes back exactly when nothing stays behind it, or what stays does not
   end in a brace and no further fence leads to another object.
   */
  lemma LeadingFenceExactly(o: string, q: string)
    requires ObjectText(o) && OnlyNewlines(o)
    ensures var z := Behind(FENCE + RStrip(q)); var found := ExtractJsonText(JSON_FENCE + "\n" + o + "\n" + FENCE + q);
            var later := LaterFence(o + z);
            && (z != "" && z[|z| - 1] == '}' ==> found == Some(o + z))
            && (z != "" && z[|z| - 1] != '}' && later.Some? ==> found == FirstObject(later.value))
            && (z == "" || (z[|z| - 1] != '}' && later.None?) ==> found == Some(o))
            && (found == Some(o) <==>
                z == "" || (z[|z| - 1] != '}' && (later.Some? ==> FirstObject(later.value) == Some(o))))
  {
    hide SplitLines, Join, FirstObject, FindText, ObjectText, StripCodeFence, OnlyNewlines, RStrip, Behind;
    var z := Behind(FENCE + RStrip(q));
    ObjectTextEnds(o);
    LeadingStripped(o, q);
    FencedRemainder(o, FENCE + RStrip(q));
    FirstObjectFound("", o, z);
    assert "" + o + z == o + z;
    assert (o + z)[0] == '{';
    assert z != "" ==> (o + z)[|o + z| - 1] == z[|z| - 1] && o + z != o;
    assert z == "" ==> o + z == o;
  }

  /** Text behind the answer counts without the white space it ends in. */
  lemma LeadingStripped(o: string, q: string)
    ensures StripCodeFence(JSON_FENCE + "\n" + o + "\n" + FENCE + q) ==
            StripCodeFence(JSON_FENCE + "\n" + o + "\n" + (FENCE + RStrip(q)))
  {
    hide SplitLines, Join, Strip, LStrip, RStrip, IsSpace;
    var head := JSON_FENCE + "\n" + o + "\n" + FENCE;
    HeadTight(o);
    StripAppend(head, q);
    StripAppend(head, RStrip(q));
    RStripTwice(q);
    assert head + RStrip(q) == JSON_FENCE + "\n" + o + "\n" + (FENCE + RStrip(q));
  }

  lemma HeadTight(o: string)
    ensures Tight(JSON_FENCE + "\n" + o + "\n" + FENCE)
  {
  }

  lemma RStripTwice(q: string)
    ensures RStrip(RStrip(q)) == RStrip(q)
  {
    hide RStrip;
  }

  /** For instance, a closing remark in braces is returned with the object. */
  lemma RemarkIsReturned(o: string)
    requires ObjectText(o) && OnlyNewlines(o)
    ensures ExtractJsonText(JSON_FENCE + "\n" + o + "\n" + FENCE + "\n{}") == Some(o + "\n```\n{}")
  {
    hide SplitLines, Join, FirstObject, FindText, ObjectText, ExtractJsonText, OnlyNewlines, Behind;
    RemarkBehind();
    LeadingFenceExactly(o, "\n{}");
  }

  lemma RemarkBehind()
    ensures Behind(FENCE + RStrip("\n{}")) == "\n```\n{}"
  {
    hide SplitLines;
    var y := "```\n{}";
    assert RStrip("\n{}") == "\n{}" && FENCE + "\n{}" == y;
    FenceIsOneLine(FENCE);
    OneLine("{}");
    SplitLinesAppend(FENCE, "{}");
    assert FENCE + "\n" + "{}" == y;
    assert SplitLines(y) == ["```", "{}"];
    assert Join(["```", "{}"]) == "```\n{}";
  }

  // ----- texts without an object -----

  lemma {:induction false} JoinInvents(lines: seq<string>, c: char)
    requires c != '\n' && c in Join(lines)
    ensures exists k :: 0 <= k < |lines| && c in lines[k]
  {
    if |lines| > 1 && c !in lines[0] {
      assert Join(lines) == lines[0] + "\n" + Join(lines[1..]);
      JoinInvents(lines[1..], c);
      var k :| 0 <= k < |lines[1..]| && c in lines[1..][k];
      assert c in lines[k + 1];
    }
  }

  lemma {:induction false} SplitInvents(s: string, c: char, k: nat)
    requires k < |SplitLines(s)| && c in SplitLines(s)[k]
    ensures c in s
    decreases |s|
  {
    hide LineLen, BreakLen;
    var n := LineLen(s);
    if k > 0 {
      SplitInvents(s[n + BreakLen(s[n..])..], c, k - 1);
    }
  }

  lemma {:induction false} LStripInvents(s: string, c: char)
    requires c in LStrip(s)
    ensures c in s
  {
    if s != "" && IsSpace(s[0]) {
      LStripInvents(s[1..], c);
    }
  }

  lemma StripInvents(s: string, c: char)
    requires c in Strip(s)
    ensures c in s
  {
    var left := LStrip(s);
    var k :| 0 <= k < |RStrip(left)| && RStrip(left)[k] == c;
    assert left[k] == c;
    LStripInvents(s, c);
  }

  /** Taking a fence off brings no character but newlines along. */
  lemma FenceInvents(text: string, c: char)
    requires c != '\n' && c in StripCodeFence(text)
    ensures c in text
  {
    hide Strip, SplitLines, Join;
    var stripped := Strip(text);
    if FENCE <= stripped {
      var lines := SplitLines(stripped);
      var body := if lines != [] && FENCE <= lines[0] then lines[1..] else lines;
      var inner := if body != [] && FENCE <= body[|body| - 1] then body[..|body| - 1] else body;
      StripInvents(Join(inner), c);
      JoinInvents(inner, c);
      var k :| 0 <= k < |inner| && c in inner[k];
      SplitInvents(stripped, c, if body == lines then k else k + 1);
    }
    StripInvents(text, c);
  }

  /** A text without an opening brace holds no object. */
  lemma NoBraceNoObject(text: string)
    requires '{' !in text
    ensures ExtractJsonText(text) == None
  {
    hide StripCodeFence, FindText;
    var stripped := StripCodeFence(text);
    if '{' in stripped {
      FenceInvents(text, '{');
    }
    NoBraceFound(stripped);
    match FindText(stripped, JSON_FENCE)
    case None =>
    case Some(n) =>
      if '{' in StripCodeFence(stripped[n..]) {
        FenceInvents(stripped[n..], '{');
      }
  }

  lemma NoBraceFound(text: string)
    requires '{' !in text
    ensures FirstObject(text) == None
  {
  }

  // ----- an object without a fence -----

  lemma {:induction false} NoPatternInPrefix(s: string, t: string, pattern: string)
    requires t <= s && FindText(s, pattern) == None
    ensures FindText(t, pattern) == None
  {
    assert pattern <= t ==> pattern <= s;
    if t != "" {
      NoPatternInPrefix(s[1..], t[1..], pattern);
    }
  }

  lemma {:induction false} NoPatternBehind(s: string, n: nat, pattern: string)
    requires n <= |s| && FindText(s, pattern) == None
    ensures FindText(s[n..], pattern) == None
  {
    if n > 0 {
      NoPatternBehind(s[1..], n - 1, pattern);
      assert s[1..][n - 1..] == s[n..];
    }
  }

  lemma {:induction false} LStripIsSuffix(s: string)
    ensures |LStrip(s)| <= |s| && LStrip(s) == s[|s| - |LStrip(s)|..]
  {
    if s != "" && IsSpace(s[0]) {
      LStripIsSuffix(s[1..]);
    }
  }

  lemma {:induction false} LStripBefore(p: string, t: string)
    requires t != "" && !IsSpace(t[0])
    ensures LStrip(p + t) == LStrip(p) + t
  {
    if p == "" {
      assert p + t == t;
    } else {
      assert (p + t)[1..] == p[1..] + t;
      if IsSpace(p[0]) {
        LStripBefore(p[1..], t);
      }
    }
  }

  /** Only white space around the whole answer is stripped. */
  lemma ObjectStripped(p: string, o: string, q: string)
    requires Tight(o)
    ensures Strip(p + o + q) == LStrip(p) + o + RStrip(q)
  {
    assert p + o + q == p + (o + q);
    LStripBefore(p, o + q);
    assert LStrip(p) + (o + q) == LStrip(p) + o + q;
    RStripAppend(LStrip(p) + o, q);
  }

  /**
   Without a fence, the first object is found between text without an opening brace and any text. But when nothing
   stands before the object and the answer ends in a closing brace, everything comes back.
   */
  lemma UnfencedExactly(p: string, o: string, q: string)
    requires '{' !in p && ObjectText(o) && !(FENCE <= LStrip(p)) && FindText(p + o + q, JSON_FENCE) == None
    ensures ExtractJsonText(p + o + q) ==
            Some(if LStrip(p) == "" && EndsInBrace(RStrip(q)) then o + RStrip(q) else o)
  {
    hide FirstObject, FindText, ObjectText, LStrip, RStrip, Strip, StripCodeFence, ExtractJsonText;
    ObjectTextEnds(o);
    ObjectStripped(p, o, q);
    NoFenceLeft(p, o, q);
    BraceStaysOut(p);
    NotFenced(p + o + q, LStrip(p), o, RStrip(q));
    ChooseUnfenced(p + o + q, LStrip(p), o, RStrip(q));
  }

  lemma NotFenced(text: string, before: string, o: string, after: string)
    requires Strip(text) == before + o + after && Begins(o, '{') && !(FENCE <= before)
    ensures StripCodeFence(text) == before + o + after
  {
    hide Strip;
    assert (before + o + after)[|before|] == '{';
  }

  lemma ChooseUnfenced(text: string, before: string, o: string, after: string)
    requires StripCodeFence(text) == before + o + after && FindText(before + o + after, JSON_FENCE) == None
    requires '{' !in before && ObjectText(o) && o[|o| - 1] == '}'
    ensures ExtractJsonText(text) == Some(if before == "" && EndsInBrace(after) then o + after else o)
  {
    hide FirstObject, FindText, ObjectText, StripCodeFence;
    FirstObjectFound(before, o, after);
    var stripped := before + o + after;
    assert before == "" ==> stripped == o + after;
    assert after == "" ==> o + after == o;
    assert after != "" ==> stripped[|stripped| - 1] == after[|after| - 1];
    assert before != "" ==> stripped[0] == before[0] && before[0] != '{';
    BeginsWithBrace(o);
  }

  lemma BeginsWithBrace(o: string)
    requires ObjectText(o)
    ensures Begins(o, '{')
  {
  }

  predicate EndsInBrace(s: string) {
    s != "" && s[|s| - 1] == '}'
  }

  lemma BraceStaysOut(p: string)
    requires '{' !in p
    ensures '{' !in LStrip(p)
  {
    if '{' in LStrip(p) {
      LStripInvents(p, '{');
    }
  }

  lemma NoFenceLeft(p: string, o: string, q: string)
    requires FindText(p + o + q, JSON_FENCE) == None
    ensures FindText(LStrip(p) + o + RStrip(q), JSON_FENCE) == None
  {
    hide FindText, LStrip, RStrip;
    LStripIsSuffix(p);
    var n := |p| - |LStrip(p)|;
    NoPatternBehind(p + o + q, n, JSON_FENCE);
    assert (p + o + q)[n..] == LStrip(p) + o + q;
    assert RStrip(q) <= q;
    assert LStrip(p) + o + RStrip(q) <= LStrip(p) + o + q;
    NoPatternInPrefix(LStrip(p) + o + q, LStrip(p) + o + RStrip(q), JSON_FENCE);
  }
}
