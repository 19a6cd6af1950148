/**
 Finding the JSON object in a model's answer (scripts/run_title_clustering_opus.py): the brace
 scanner, and the choice between bare, fenced and embedded objects.
 */
module ResponseText {
  import opened Options
  import opened JsonValues
  import opened JsonText
  import opened JsonRoundTrip

  // ----- the scanner -----

  /** The text behind the closing brace at which the scanner stops, from the given scanner state. */
  function Scan(t: string, depth: int, inString: bool, escape: bool): (r: Option<string>)
    ensures r.Some? ==> |r.value| < |t| && t[|t| - |r.value|..] == r.value && t[|t| - |r.value| - 1] == '}'
    decreases |t|
  {
    if t == "" then None
    else if !inString && t[0] == '}' && depth == 1 then Some(t[1..])
    else
      var nextDepth :=
        if inString then depth else if t[0] == '{' then depth + 1 else if t[0] == '}' then depth - 1 else depth;
      var stays := if inString then escape || t[0] != '\"' else t[0] == '\"';
      Scan(t[1..], nextDepth, stays, inString && !escape && t[0] == '\\')
  }

  /** The first place of the character, or the length of the text. */
  function Find(text: string, c: char): (n: nat)
    ensures n <= |text| && (forall k | 0 <= k < n :: text[k] != c) && (n < |text| ==> text[n] == c)
  {
    if text == "" || text[0] == c then 0 else 1 + Find(text[1..], c)
  }

  /** From the first opening brace to the brace that closes it. */
  function FirstObject(text: string): Option<string> {
    var start := Find(text, '{');
    match Scan(text[start..], 0, false, false)
    case None => None
    case Some(rest) => Some(text[start..|text| - |rest|])
  }

  /** The scan from a place of the text on. */
  ghost function ScanFrom(text: string, index: nat, depth: int, inString: bool, escape: bool): Option<string>
    requires index <= |text|
  {
    Scan(text[index..], depth, inString, escape)
  }

  method ExtractFirstJsonObject(text: string) returns (r: Option<string>)
    ensures r == FirstObject(text)
  {
    var start := Find(text, '{');
    hide Scan, ScanFrom, FirstObject, Find;
    if start == |text| {
      ScanEnds(text, 0, false, false);
      NothingFound(text);
      return None;
    }
    var depth, inString, escape := 0, false, false;
    ghost var found := ScanFrom(text, start, 0, false, false);
    for index := start to |text|
      invariant escape ==> inString
      invariant found == ScanFrom(text, index, depth, inString, escape)
    {
      var c := text[index];
      ScanAt(text, index, depth, inString, escape);
      if inString {
        if escape {
          escape := false;
        } else if c == '\\' {
          escape := true;
        } else if c == '\"' {
          inString := false;
        }
        continue;
      }
      if c == '\"' {
        inString := true;
        continue;
      }
      if c == '{' {
        depth := depth + 1;
        continue;
      }
      if c == '}' {
        depth := depth - 1;
        if depth == 0 {
          FoundUpTo(text, index + 1);
          return Some(text[start..index + 1]);
        }
      }
    }
    ScanEnds(text, depth, inString, escape);
    NothingFound(text);
    return None;
  }

  lemma ScanNothing(depth: int, inString: bool, escape: bool)
    ensures Scan("", depth, inString, escape) == None
  {
  }

  lemma ScanEnds(text: string, depth: int, inString: bool, escape: bool)
    ensures ScanFrom(text, |text|, depth, inString, escape) == None
  {
  }

  lemma NothingFound(text: string)
    requires ScanFrom(text, Find(text, '{'), 0, false, false) == None
    ensures FirstObject(text) == None
  {
  }

  lemma FoundUpTo(text: string, end: nat)
    requires Find(text, '{') <= end <= |text|
    requires ScanFrom(text, Find(text, '{'), 0, false, false) == Some(text[end..])
    ensures FirstObject(text) == Some(text[Find(text, '{')..end])
  {
    hide Scan, Find;
    var start, rest := Find(text, '{'), text[end..];
    assert |text| - |rest| == end;
    assert Scan(text[start..], 0, false, false) == Some(rest);
  }

  lemma ScanAt(text: string, index: nat, depth: int, inString: bool, escape: bool)
    requires index < |text|
    ensures var c := text[index]; var rest := text[index + 1..];
            ScanFrom(text, index, depth, inString, escape) ==
            if inString then ScanFrom(text, index + 1, depth, escape || c != '\"', !escape && c == '\\')
            else if c == '}' then if depth == 1 then Some(rest) else ScanFrom(text, index + 1, depth - 1, false, false)
            else ScanFrom(text, index + 1, if c == '{' then depth + 1 else depth, c == '\"', false)
  {
    assert text[index..][1..] == text[index + 1..];
  }

  // ----- the scanner agrees with the parser -----

  predicate Inert(c: char) {
    c != '\"' && c != '\\' && c != '{' && c != '}'
  }

  /** Inert characters do not move the scanner, inside a string or outside. */
  lemma {:induction false} ScanSkipsInert(t: string, n: nat, depth: int, inString: bool)
    requires n <= |t| && forall k | 0 <= k < n :: Inert(t[k])
    ensures Scan(t, depth, inString, false) == Scan(t[n..], depth, inString, false)
    decreases n
  {
    if n > 0 {
      ScanSkipsInert(t[1..], n - 1, depth, inString);
      assert t[1..][n - 1..] == t[n..];
    }
  }

  lemma {:induction false} ScanSkipsWs(t: string, depth: int)
    ensures Scan(t, depth, false, false) == Scan(SkipWs(t), depth, false, false)
  {
    if t != "" && IsWs(t[0]) {
      ScanSkipsWs(t[1..], depth);
    }
  }

  lemma ScanSkipsHex4(t: string, depth: int)
    requires Hex4(t).Some?
    ensures Scan(t, depth, true, false) == Scan(t[4..], depth, true, false)
  {
    ScanSkipsInert(t, 4, depth, true);
  }

  /** One character of a string literal, escaped or not, leaves the scanner inside the string. */
  lemma ScanPassesChar(t: string, depth: int)
    requires t != "" && t[0] != '\"' && ReadChar(t).Done?
    ensures Scan(t, depth, true, false) == Scan(ReadChar(t).rest, depth, true, false)
  {
    hide Hex4;
    if t[0] == '\\' {
      assert t[1..][1..] == t[2..];
      assert Scan(t, depth, true, false) == Scan(t[2..], depth, true, false);
      if t[1] == 'u' {
        var u := t[2..];
        ScanSkipsHex4(u, depth);
        if ReadChar(t).rest != u[4..] {
          ScanPassesSecondHalf(u, depth);
        }
      }
    }
  }

  lemma ScanPassesSecondHalf(u: string, depth: int)
    requires |u| >= 6 && u[4] == '\\' && u[5] == 'u' && Hex4(u[6..]).Some?
    ensures Scan(u[4..], depth, true, false) == Scan(u[10..], depth, true, false)
  {
    hide Hex4;
    assert u[4..][1..] == u[5..] && u[5..][1..] == u[6..];
    ScanSkipsHex4(u[6..], depth);
    assert u[6..][4..] == u[10..];
  }

  lemma {:induction false} ScanPassesString(t: string, depth: int)
    requires ReadString(t).Done?
    ensures Scan(t, depth, true, false) == Scan(ReadString(t).rest, depth, false, false)
    decreases |t|
  {
    hide ReadChar;
    if t[0] != '\"' {
      ScanPassesChar(t, depth);
      ScanPassesString(ReadChar(t).rest, depth);
    }
  }

  lemma ScanPassesNumber(fl: FloatReader, t: string, depth: int)
    requires ReadNumber(fl, t).Done?
    ensures Scan(t, depth, false, false) == Scan(ReadNumber(fl, t).rest, depth, false, false)
  {
    hide Scan, IntLen, FracLen, ExpLen, Inert, ReadNumber, SpecialLen;
    if IntLen(t) == 0 {
      SpecialRest(fl, t);
      SpecialInert(t);
      ScanSkipsInert(t, SpecialLen(t), depth, false);
      return;
    }
    NumberRest(fl, t);
    IntLenInert(t);
    ScanSkipsInert(t, IntLen(t), depth, false);
    var u := t[IntLen(t)..];
    FracInert(u);
    ScanSkipsInert(u, FracLen(u), depth, false);
    var v := u[FracLen(u)..];
    ExpInert(v);
    ScanSkipsInert(v, ExpLen(v), depth, false);
  }

  lemma SpecialRest(fl: FloatReader, t: string)
    requires ReadNumber(fl, t).Done? && IntLen(t) == 0
    ensures ReadNumber(fl, t).rest == t[SpecialLen(t)..]
  {
    hide IntLen, SpecialLen;
  }

  lemma SpecialInert(t: string)
    ensures forall k | 0 <= k < SpecialLen(t) :: Inert(t[k])
  {
    var s := t[..SpecialLen(t)];
    assert s == "" || s == "NaN" || s == "Infinity" || s == "-Infinity";
    forall k | 0 <= k < SpecialLen(t) ensures Inert(t[k]) {
      assert t[k] == s[k];
    }
  }

  lemma NumberRest(fl: FloatReader, t: string)
    requires ReadNumber(fl, t).Done? && IntLen(t) > 0
    ensures var u := t[IntLen(t)..]; var v := u[FracLen(u)..];
            ReadNumber(fl, t).rest == v[ExpLen(v)..]
  {
    hide IntLen, FracLen, ExpLen, ReadInteger;
    var u := t[IntLen(t)..];
    var v := u[FracLen(u)..];
    assert v == t[IntLen(t) + FracLen(u)..];
    assert v[ExpLen(v)..] == t[IntLen(t) + FracLen(u) + ExpLen(v)..];
  }

  lemma IntLenInert(t: string)
    ensures forall k | 0 <= k < IntLen(t) :: Inert(t[k])
  {
    hide IntLen;
    IntLenDigits(t);
  }

  lemma FracInert(t: string)
    ensures forall k | 0 <= k < FracLen(t) :: Inert(t[k])
  {
    if FracLen(t) > 0 {
      DigitRunDigits(t[1..]);
      assert forall k | 1 <= k < FracLen(t) :: t[k] == t[1..][k - 1];
    }
  }

  lemma ExpInert(t: string)
    ensures forall k | 0 <= k < ExpLen(t) :: Inert(t[k])
  {
    if ExpLen(t) > 0 {
      var sign := if |t| > 1 && (t[1] == '+' || t[1] == '-') then 2 else 1;
      DigitRunDigits(t[sign..]);
      assert forall k | sign <= k < ExpLen(t) :: t[k] == t[sign..][k - sign];
    }
  }

  /** At depth one or more, the scanner passes over every value the parser reads. */
  lemma {:induction false} ScanPassesValue(fl: FloatReader, t: string, depth: int)
    requires depth >= 1 && ParseValue(fl, t).Done?
    ensures Scan(t, depth, false, false) == Scan(ParseValue(fl, t).rest, depth, false, false)
    decreases |t|, 1
  {
    hide ReadString, ReadNumber, ParseElements, ParseMembers, SkipWs;
    if t[0] == '\"' {
      ScanPassesString(t[1..], depth);
    } else if t[0] == '{' {
      ScanPassesObject(fl, t, depth);
    } else if t[0] == '[' {
      ScanSkipsInert(t, 1, depth, false);
      ScanSkipsWs(t[1..], depth);
      var u := SkipWs(t[1..]);
      if Begins(u, ']') {
        ScanSkipsInert(u, 1, depth, false);
      } else {
        ScanPassesElements(fl, u, depth);
      }
    } else if "null" <= t || "true" <= t {
      ScanSkipsInert(t, 4, depth, false);
    } else if "false" <= t {
      ScanSkipsInert(t, 5, depth, false);
    } else {
      ScanPassesNumber(fl, t, depth);
    }
  }

  /** From an opening brace at any depth, the scanner comes back to that depth behind the object. */
  lemma {:induction false} ScanPassesObject(fl: FloatReader, t: string, depth: int)
    requires depth >= 0 && Begins(t, '{') && ParseValue(fl, t).Done?
    ensures var rest := ParseValue(fl, t).rest;
            Scan(t, depth, false, false) == if depth == 0 then Some(rest) else Scan(rest, depth, false, false)
    decreases |t|, 0
  {
    hide ParseValue, ParseMembers, SkipWs, Scan;
    var u := SkipWs(t[1..]);
    ParseObjectUnfolds(fl, t);
    ScanBraces(t, depth);
    ScanSkipsWs(t[1..], depth + 1);
    if Begins(u, '}') {
      ScanBraces(u, depth + 1);
    } else {
      ScanPassesMembers(fl, u, Empty, depth + 1);
    }
  }

  lemma ParseObjectUnfolds(fl: FloatReader, t: string)
    requires Begins(t, '{')
    ensures var u := SkipWs(t[1..]);
            ParseValue(fl, t) ==
            if Begins(u, '}') then Done(Obj(Empty), u[1..])
            else if ParseMembers(fl, u, Empty).Fail? then Fail
            else Done(Obj(ParseMembers(fl, u, Empty).value), ParseMembers(fl, u, Empty).rest)
  {
  }

  lemma ScanBraces(t: string, depth: int)
    requires t != ""
    ensures t[0] == '{' ==> Scan(t, depth, false, false) == Scan(t[1..], depth + 1, false, false)
    ensures t[0] == '}' ==> Scan(t, depth, false, false) ==
                            if depth == 1 then Some(t[1..]) else Scan(t[1..], depth - 1, false, false)
  {
  }

  lemma {:induction false} ScanPassesElements(fl: FloatReader, t: string, depth: int)
    requires depth >= 1 && ParseElements(fl, t).Done?
    ensures Scan(t, depth, false, false) == Scan(ParseElements(fl, t).rest, depth, false, false)
    decreases |t|, 2
  {
    hide ParseValue, SkipWs;
    ScanPassesValue(fl, t, depth);
    var rest := ParseValue(fl, t).rest;
    ScanSkipsWs(rest, depth);
    var u := SkipWs(rest);
    ScanSkipsInert(u, 1, depth, false);
    if Begins(u, ',') {
      ScanSkipsWs(u[1..], depth);
      ScanPassesElements(fl, SkipWs(u[1..]), depth);
    }
  }

  lemma {:induction false} ScanPassesMember(fl: FloatReader, t: string, depth: int)
    requires depth >= 1 && ParseMember(fl, t).Done?
    ensures Scan(t, depth, false, false) == Scan(ParseMember(fl, t).rest, depth, false, false)
    decreases |t|, 0
  {
    hide ParseValue, SkipWs, ReadString;
    ScanPassesString(t[1..], depth);
    var rest := ReadString(t[1..]).rest;
    ScanSkipsWs(rest, depth);
    var u := SkipWs(rest);
    ScanSkipsInert(u, 1, depth, false);
    ScanSkipsWs(u[1..], depth);
    ScanPassesValue(fl, SkipWs(u[1..]), depth);
  }

  lemma {:induction false} ScanPassesMembers(fl: FloatReader, t: string, d: Fields, depth: int)
    requires depth >= 1 && ParseMembers(fl, t, d).Done?
    ensures var rest := ParseMembers(fl, t, d).rest;
            Scan(t, depth, false, false) == if depth == 1 then Some(rest) else Scan(rest, depth - 1, false, false)
    decreases |t|, 1
  {
    hide ParseMember, SkipWs;
    ScanPassesMember(fl, t, depth);
    var Done((key, v), rest) := ParseMember(fl, t);
    ScanSkipsWs(rest, depth);
    var u := SkipWs(rest);
    if Begins(u, ',') {
      ScanSkipsInert(u, 1, depth, false);
      ScanSkipsWs(u[1..], depth);
      ScanPassesMembers(fl, SkipWs(u[1..]), Put(d, key, v), depth);
    }
  }

  /** An object's text, as far as the scanner can tell: it starts at a brace that its last character closes. */
  predicate ObjectText(o: string) {
    Begins(o, '{') && Scan(o, 0, false, false) == Some("")
  }

  /** Every JSON object text is one, whatever its white space, nesting, escapes and strings. */
  lemma JsonObjectIsObjectText(fl: FloatReader, o: string)
    requires Begins(o, '{') && ParseValue(fl, o).Done? && ParseValue(fl, o).rest == ""
    ensures ObjectText(o)
  {
    ScanPassesObject(fl, o, 0);
  }

  lemma {:induction false} ScanIgnoresSuffix(t: string, q: string, depth: int, inString: bool, escape: bool)
    requires Scan(t, depth, inString, escape).Some?
    ensures Scan(t + q, depth, inString, escape) == Some(Scan(t, depth, inString, escape).value + q)
    decreases |t|
  {
    assert (t + q)[1..] == t[1..] + q;
    if inString {
      ScanIgnoresSuffix(t[1..], q, depth, escape || t[0] != '\"', !escape && t[0] == '\\');
    } else if t[0] == '\"' {
      ScanIgnoresSuffix(t[1..], q, depth, true, false);
    } else if t[0] == '{' {
      ScanIgnoresSuffix(t[1..], q, depth + 1, false, false);
    } else if t[0] == '}' {
      if depth != 1 {
        ScanIgnoresSuffix(t[1..], q, depth - 1, false, false);
      }
    } else {
      ScanIgnoresSuffix(t[1..], q, depth, false, false);
    }
  }

  lemma {:induction false} FindAfter(p: string, t: string, c: char)
    requires c !in p && Begins(t, c)
    ensures Find(p + t, c) == |p|
  {
    if p == "" {
      assert p + t == t;
    } else {
      assert (p + t)[1..] == p[1..] + t;
      FindAfter(p[1..], t, c);
    }
  }

  /** The scanner finds the object, between any text without an opening brace and any text at all. */
  lemma FirstObjectFound(p: string, o: string, q: string)
    requires '{' !in p && ObjectText(o)
    ensures FirstObject(p + o + q) == Some(o)
  {
    var text := p + o + q;
    assert text == p + (o + q);
    FindAfter(p, o + q, '{');
    assert text[|p|..] == o + q;
    ScanIgnoresSuffix(o, q, 0, false, false);
    assert text[|p|..|text| - |q|] == o;
  }

  lemma {:induction false} ScanNeedsNoSuffix(
    t: string, index: nat, end: nat, depth: int, inString: bool, escape: bool)
    requires index <= end <= |t| && ScanFrom(t, index, depth, inString, escape) == Some(t[end..])
    ensures ScanFrom(t[..end], index, depth, inString, escape) == Some("")
    decreases |t| - index
  {
    hide Scan, ScanFrom;
    if index == |t| {
      ScanEnds(t, depth, inString, escape);
      return;
    }
    ScanAt(t, index, depth, inString, escape);
    var c := t[index];
    if !inString && c == '}' && depth == 1 {
      SameSuffix(t, index + 1, end);
    } else {
      var nextDepth := if inString then depth else if c == '{' then depth + 1 else if c == '}'
        then depth - 1 else depth;
      var stays := if inString then escape || c != '\"' else c == '\"';
      var escapes := inString && !escape && c == '\\';
      assert ScanFrom(t, index + 1, nextDepth, stays, escapes) == Some(t[end..]);
      ScanGoesOn(t, index + 1, end, nextDepth, stays, escapes);
      ScanNeedsNoSuffix(t, index + 1, end, nextDepth, stays, escapes);
    }
    ScanAt(t[..end], index, depth, inString, escape);
    assert t[..end][index] == c && (index + 1 == end ==> t[..end][index + 1..] == "");
  }

  lemma SameSuffix(t: string, n: nat, m: nat)
    requires n <= |t| && m <= |t| && t[n..] == t[m..]
    ensures n == m
  {
    assert |t[n..]| == |t[m..]|;
  }

  lemma ScanGoesOn(t: string, index: nat, end: nat, depth: int, inString: bool, escape: bool)
    requires index <= |t| && end <= |t| && ScanFrom(t, index, depth, inString, escape) == Some(t[end..])
    ensures index < end
  {
    assert |t[end..]| < |t[index..]|;
  }

  /** What is found is exactly the object text behind the text without an opening brace, and nothing else is found. */
  lemma FirstObjectExactly(text: string, o: string)
    ensures FirstObject(text) == Some(o) <==> exists p, q :: text == p + o + q && '{' !in p && ObjectText(o)
  {
    hide Scan;
    if FirstObject(text) == Some(o) {
      var start := Find(text, '{');
      var rest := Scan(text[start..], 0, false, false).value;
      var p, n := text[..start], |text| - |rest|;
      assert text[n..] == rest;
      ScanNeedsNoSuffix(text, start, n, 0, false, false);
      assert text[..n][start..] == o;
      assert text == p + o + rest && '{' !in p;
    }
    forall p, q | text == p + o + q && '{' !in p && ObjectText(o) ensures FirstObject(text) == Some(o) {
      FirstObjectFound(p, o, q);
    }
  }

  /** In particular the text of every printed object. */
  lemma PrintedIsObjectText(fl: FloatReader, v: Json)
    requires v.Obj? && Readable(fl, v)
    ensures ObjectText(Print(v))
  {
    hide Scan, ParseValue;
    ParsePrinted(fl, v, "");
    assert Print(v) + "" == Print(v);
    JsonObjectIsObjectText(fl, Print(v));
  }

  /** Printed objects are found exactly. */
  lemma PrintedObjectFound(fl: FloatReader, p: string, v: Json, q: string)
    requires '{' !in p && v.Obj? && Readable(fl, v)
    ensures FirstObject(p + Print(v) + q) == Some(Print(v))
  {
    hide Scan, ParseValue, FirstObject, ObjectText;
    PrintedIsObjectText(fl, v);
    FirstObjectFound(p, Print(v), q);
  }
}
