/**
 Text helpers of the evaluation report (scripts/generate_eval_html_report.py).
 */
module HtmlText {
  /** The text with an entity in the place of every occurrence of the character. */
  function Replace(s: string, c: char, entity: string): string {
    if s == "" then "" else (if s[0] == c then entity else [s[0]]) + Replace(s[1..], c, entity)
  }

  /** The five replacements, ampersands first. */
  function HtmlEscape(value: string): string {
    var tags := Replace(Replace(Replace(value, '&', "&amp;"), '<', "&lt;"), '>', "&gt;");
    Replace(Replace(tags, '\"', "&quot;"), '\'', "&#39;")
  }

  function Entity(c: char): string {
    if c == '&' then "&amp;"
    else if c == '<' then "&lt;"
    else if c == '>' then "&gt;"
    else if c == '\"' then "&quot;"
    else if c == '\'' then "&#39;"
    else [c]
  }

  /** The five entities of HTML, as the standard names them; any other character stands for itself. */
  lemma StandardEntities(c: char)
    ensures Entity('<') == "&" + "lt" + ";" && Entity('>') == "&" + "gt" + ";" && Entity('&') == "&" + "amp" + ";"
    ensures Entity('\"') == "&" + "quot" + ";" && Entity('\'') == "&" + "#39" + ";"
    ensures c !in "<>&\"'" ==> Entity(c) == [c]
  {
    assert "<>&\"'" == ['<', '>', '&', '\"', '\''];
  }

  /** Each character on its own. */
  function Entities(value: string): string {
    if value == "" then "" else Entity(value[0]) + Entities(value[1..])
  }

  /** The text with the five entities turned back into characters, from left to right. */
  function Decode(t: string): string
    decreases |t|
  {
    if t == "" then ""
    else if "&amp;" <= t then "&" + Decode(t[5..])
    else if "&lt;" <= t then "<" + Decode(t[4..])
    else if "&gt;" <= t then ">" + Decode(t[4..])
    else if "&quot;" <= t then "\"" + Decode(t[6..])
    else if "&#39;" <= t then "'" + Decode(t[5..])
    else [t[0]] + Decode(t[1..])
  }

  lemma {:induction false} ReplaceAppend(s: string, t: string, c: char, entity: string)
    ensures Replace(s + t, c, entity) == Replace(s, c, entity) + Replace(t, c, entity)
  {
    if s == "" {
      assert s + t == t;
    } else {
      assert (s + t)[1..] == s[1..] + t;
      ReplaceAppend(s[1..], t, c, entity);
    }
  }

  lemma {:induction false} ReplaceAbsent(s: string, c: char, entity: string)
    requires c !in s
    ensures Replace(s, c, entity) == s
  {
    if s != "" {
      ReplaceAbsent(s[1..], c, entity);
    }
  }

  lemma ReplaceOne(x: char, c: char, entity: string)
    ensures Replace([x], c, entity) == if x == c then entity else [x]
  {
    assert [x][1..] == "";
  }

  lemma EscapeAppend(s: string, t: string)
    ensures HtmlEscape(s + t) == HtmlEscape(s) + HtmlEscape(t)
  {
    hide Replace;
    var s1, t1 := Replace(s, '&', "&amp;"), Replace(t, '&', "&amp;");
    var s2, t2 := Replace(s1, '<', "&lt;"), Replace(t1, '<', "&lt;");
    var s3, t3 := Replace(s2, '>', "&gt;"), Replace(t2, '>', "&gt;");
    var s4, t4 := Replace(s3, '\"', "&quot;"), Replace(t3, '\"', "&quot;");
    ReplaceAppend(s, t, '&', "&amp;");
    ReplaceAppend(s1, t1, '<', "&lt;");
    ReplaceAppend(s2, t2, '>', "&gt;");
    ReplaceAppend(s3, t3, '\"', "&quot;");
    ReplaceAppend(s4, t4, '\'', "&#39;");
  }

  /** A later replacement leaves the entities of the earlier ones alone: none contains its character. */
  lemma EscapeOne(c: char)
    ensures HtmlEscape([c]) == Entity(c)
  {
    hide Replace;
    ReplaceOne(c, '&', "&amp;");
    ReplaceOne(c, '<', "&lt;");
    ReplaceOne(c, '>', "&gt;");
    ReplaceOne(c, '\"', "&quot;");
    ReplaceOne(c, '\'', "&#39;");
    forall e, x, entity | e in {"&amp;", "&lt;", "&gt;", "&quot;"} && x in {'<', '>', '\"', '\''}
      ensures Replace(e, x, entity) == e
    {
      ReplaceAbsent(e, x, entity);
    }
  }

  /** The chain of replacements is one substitution, character by character. */
  lemma {:induction false} ChainIsSubstitution(value: string)
    ensures HtmlEscape(value) == Entities(value)
  {
    hide HtmlEscape, Entity;
    if value == "" {
      EmptyEscape();
    } else {
      assert value == [value[0]] + value[1..];
      EscapeAppend([value[0]], value[1..]);
      EscapeOne(value[0]);
      ChainIsSubstitution(value[1..]);
    }
  }

  lemma EmptyEscape()
    ensures HtmlEscape("") == ""
  {
  }

  lemma DecodeEntity(c: char, t: string)
    ensures Decode(Entity(c) + t) == [c] + Decode(t)
  {
    if c in {'&', '<', '>', '\"', '\''} {
      DecodeNamed(c, t);
    } else {
      DecodePlain(c, t);
    }
  }

  lemma DecodePlain(c: char, t: string)
    requires c != '&'
    ensures Decode([c] + t) == [c] + Decode(t)
  {
    assert ([c] + t)[0] == c && ([c] + t)[1..] == t;
    hide Entity;
  }

  lemma DecodeNamed(c: char, t: string)
    requires c in {'&', '<', '>', '\"', '\''}
    ensures Decode(Entity(c) + t) == [c] + Decode(t)
  {
    var e := Entity(c) + t;
    assert e[|Entity(c)|..] == t;
    assert Entity(c) <= e;
    assert e[1] == Entity(c)[1];
  }

  /** Decoding undoes escaping, for every text. */
  lemma {:induction false} DecodeEscaped(value: string)
    ensures Decode(HtmlEscape(value)) == value
  {
    hide Decode, HtmlEscape;
    ChainIsSubstitution(value);
    DecodeEntities(value);
  }

  lemma {:induction false} DecodeEntities(value: string)
    ensures Decode(Entities(value)) == value
  {
    if value != "" {
      DecodeEntity(value[0], Entities(value[1..]));
      DecodeEntities(value[1..]);
    }
  }

  /** So two texts with the same escaped form are the same text. */
  lemma EscapeInjective(a: string, b: string)
    requires HtmlEscape(a) == HtmlEscape(b)
    ensures a == b
  {
    DecodeEscaped(a);
    DecodeEscaped(b);
  }

  /** Nothing in the escaped text can open a tag or close an attribute. */
  lemma {:induction false} EscapedHasNoMarkup(value: string)
    ensures forall c | c in HtmlEscape(value) :: c !in {'<', '>', '\"', '\''}
  {
    hide HtmlEscape;
    ChainIsSubstitution(value);
    if value != "" {
      ChainIsSubstitution(value[1..]);
      EscapedHasNoMarkup(value[1..]);
    }
  }

  // ----- clipping -----

  const MARKER := "\n\n[... CONTENT TRUNCATED FOR REPORT ...]\n\n"

  /** The text without the trailing blanks. */
  function TrimEnd(s: string, blank: char -> bool): (r: string)
    ensures r <= s && forall k | |r| <= k < |s| :: blank(s[k])
    ensures r != "" ==> !blank(r[|r| - 1])
  {
    if s != "" && blank(s[|s| - 1]) then TrimEnd(s[..|s| - 1], blank) else s
  }

  /** The text without the leading blanks. */
  function TrimStart(s: string, blank: char -> bool): (r: string)
    ensures |r| <= |s| && r == s[|s| - |r|..] && forall k | 0 <= k < |s| - |r| :: blank(s[k])
    ensures r != "" ==> !blank(r[0])
  {
    if s != "" && blank(s[0]) then TrimStart(s[1..], blank) else s
  }

  function ClipEvalInput(text: string, maxInputChars: nat, blank: char -> bool): string {
    if |text| <= maxInputChars then text
    else
      var remaining := maxInputChars - |MARKER|;
      if remaining <= 0 then text[..maxInputChars]
      else
        var head := remaining / 2;
        TrimEnd(text[..head], blank) + MARKER + TrimStart(text[|text| - (remaining - head)..], blank)
  }

  /**
   The clipped text stays within the limit. It is a beginning of the text, or a beginning and an end of it around the
   marker; those two are as long as the limit allows, but for blanks next to the marker.
   */
  lemma ClipKeepsBothEnds(text: string, maxInputChars: nat, blank: char -> bool) returns (a: nat, b: nat)
    ensures |ClipEvalInput(text, maxInputChars, blank)| <= maxInputChars
    ensures |text| <= maxInputChars ==> ClipEvalInput(text, maxInputChars, blank) == text
    ensures maxInputChars < |text| && maxInputChars <= |MARKER| ==>
            ClipEvalInput(text, maxInputChars, blank) == text[..maxInputChars]
    ensures |MARKER| < maxInputChars < |text| ==>
      var head, tail := (maxInputChars - |MARKER|) / 2, (maxInputChars - |MARKER| + 1) / 2;
      && a <= head <= |text| - tail <= b <= |text|
      && ClipEvalInput(text, maxInputChars, blank) == text[..a] + MARKER + text[b..]
      && (forall k | a <= k < head || |text| - tail <= k < b :: blank(text[k]))
      && (0 < a ==> !blank(text[a - 1])) && (b < |text| ==> !blank(text[b]))
  {
    hide TrimEnd, TrimStart, ClipEvalInput;
    a, b := 0, 0;
    if |MARKER| < maxInputChars < |text| {
      var remaining := maxInputChars - |MARKER|;
      a := TrimmedFront(text, remaining / 2, blank);
      b := TrimmedBack(text, remaining - remaining / 2, blank);
      ClippedInTheMiddle(text, maxInputChars, blank);
    } else {
      ClippedShort(text, maxInputChars, blank);
    }
  }

  lemma ClippedShort(text: string, maxInputChars: nat, blank: char -> bool)
    requires |text| <= maxInputChars || maxInputChars <= |MARKER|
    ensures ClipEvalInput(text, maxInputChars, blank) == if |text| <= maxInputChars then text else text[..maxInputChars]
  {
    hide TrimEnd, TrimStart, MARKER;
  }

  lemma ClippedInTheMiddle(text: string, maxInputChars: nat, blank: char -> bool)
    requires |MARKER| < maxInputChars < |text|
    ensures var head := (maxInputChars - |MARKER|) / 2;
      ClipEvalInput(text, maxInputChars, blank) ==
      TrimEnd(text[..head], blank) + MARKER + TrimStart(text[|text| - (maxInputChars - |MARKER| - head)..], blank)
  {
    hide TrimEnd, TrimStart, MARKER;
  }

  lemma TrimmedFront(text: string, head: nat, blank: char -> bool) returns (a: nat)
    requires head <= |text|
    ensures a <= head && TrimEnd(text[..head], blank) == text[..a]
    ensures forall k | a <= k < head :: blank(text[k])
    ensures 0 < a ==> !blank(text[a - 1])
  {
    hide TrimEnd;
    var front := text[..head];
    a := |TrimEnd(front, blank)|;
    assert TrimEnd(front, blank) == front[..a];
    assert forall k | a <= k < head :: text[k] == front[k];
  }

  lemma TrimmedBack(text: string, tail: nat, blank: char -> bool) returns (b: nat)
    requires tail <= |text|
    ensures |text| - tail <= b <= |text| && TrimStart(text[|text| - tail..], blank) == text[b..]
    ensures forall k | |text| - tail <= k < b :: blank(text[k])
    ensures b < |text| ==> !blank(text[b])
  {
    hide TrimStart;
    var back := text[|text| - tail..];
    b := |text| - |TrimStart(back, blank)|;
    assert text[b..] == back[b - (|text| - tail)..];
    assert forall k | |text| - tail <= k < b :: text[k] == back[k - (|text| - tail)];
  }
}
