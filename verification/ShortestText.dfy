/**
 The canonical print `json.dumps(v, ensure_ascii=False, separators=(",", ":"))` is the shortest JSON
 text of its value: no white space, no escape that could be left out, no digit to spare.
 Floats are excepted, for which Python prints a token of its own choice.
 */
module ShortestText {
  import opened Options
  import opened JsonValues
  import opened JsonText

  predicate FloatFree(v: Json) {
    match v
    case Num(n) => n.Integer?
    case Arr(items) => FloatFreeItems(items)
    case Obj(d) => FloatFreeFields(d)
    case _ => true
  }

  predicate FloatFreeItems(items: Items) {
    items.Cons? ==> FloatFree(items.head) && FloatFreeItems(items.tail)
  }

  predicate FloatFreeFields(d: Fields) {
    d.Entry? ==> FloatFree(d.value) && FloatFreeFields(d.rest)
  }

  // ----- strings -----

  lemma CharIsShortest(t: string)
    requires t != "" && t[0] != '\"' && ReadChar(t).Done?
    ensures |EscapeChar(ReadChar(t).value)| + |ReadChar(t).rest| <= |t|
  {
    hide EscapeChar, Hex4;
    EscapeSizes(ReadChar(t).value);
    if t[0] == '\\' && t[1] == 'u' {
      assert |ReadUnicode(t[2..]).rest| <= |t| - 6;
    }
  }

  lemma EscapeSizes(c: char)
    ensures |EscapeChar(c)| <= 6
    ensures c in {'\"', '\\', '\n', '\r', '\t', '\U{000C}', '\U{0008}'} ==> |EscapeChar(c)| == 2
    ensures c >= ' ' && c != '\"' && c != '\\' ==> |EscapeChar(c)| == 1
  {
    hide HexDigit;
  }

  lemma {:induction false} StringIsShortest(t: string)
    requires ReadString(t).Done?
    ensures |Quote(ReadString(t).value)| + |ReadString(t).rest| <= |t| + 1
    decreases |t|
  {
    hide ReadChar, EscapeChar;
    if t[0] != '\"' {
      CharIsShortest(t);
      var c, more := ReadChar(t).value, ReadChar(t).rest;
      StringIsShortest(more);
      EscapeUnfolds(c, ReadString(more).value);
    }
  }

  lemma EscapeUnfolds(c: char, s: string)
    ensures |Escape([c] + s)| == |EscapeChar(c)| + |Escape(s)|
  {
    hide EscapeChar;
    assert ([c] + s)[1..] == s;
  }

  // ----- integers -----

  lemma {:induction false} NatIsShortest(s: string)
    requires s != "" && forall k | 0 <= k < |s| :: IsDigit(s[k])
    ensures |PrintNat(DigitsValue(s))| <= |s|
  {
    if |s| > 1 {
      NatIsShortest(s[..|s| - 1]);
      assert IsDigit(s[|s| - 1]);
      TenTimes(DigitsValue(s[..|s| - 1]), s[|s| - 1] as int - '0' as int);
    } else {
      assert s[..0] == "";
      assert IsDigit(s[0]);
      assert DigitsValue("") == 0;
    }
  }

  lemma TenTimes(n: nat, d: nat)
    requires d < 10
    ensures |PrintNat(n * 10 + d)| <= |PrintNat(n)| + 1
  {
    assert (n * 10 + d) / 10 == n;
    if n * 10 + d < 10 {
      assert |PrintNat(n)| >= 1;
    }
  }

  lemma IntegerIsShortest(s: string)
    requires IntLen(s) == |s| && s != ""
    ensures |PrintNumber(Integer(ReadInteger(s)))| <= |s|
  {
    IntLenDigits(s);
    NatIsShortest(s[SignLen(s)..]);
  }

  lemma NumberIsShortest(fl: FloatReader, t: string)
    requires ReadNumber(fl, t).Done? && ReadNumber(fl, t).value.Integer?
    requires IntLen(t) > 0 && FracLen(t[IntLen(t)..]) + ExpLen(t[IntLen(t) + FracLen(t[IntLen(t)..])..]) == 0
    ensures |PrintNumber(ReadNumber(fl, t).value)| + |ReadNumber(fl, t).rest| <= |t|
  {
    hide ReadInteger;
    IntLenOfPrefix(t);
    IntegerIsShortest(t[..IntLen(t)]);
  }

  // ----- lists and dictionaries -----

  /** What an entry takes in the print, with the comma or brace behind it; entries that hold floats do not count. */
  function Space(k: string, v: Json): nat {
    if FloatFree(v) then |Quote(k)| + |Print(v)| + 2 else 0
  }

  function TotalSpace(d: Fields): nat {
    match d
    case Empty => 0
    case Entry(k, v, rest) => Space(k, v) + TotalSpace(rest)
  }

  lemma {:induction false} MembersTakeSpace(d: Fields)
    requires d.Entry? && FloatFreeFields(d)
    ensures |PrintMembers(d)| == TotalSpace(d)
  {
    hide Quote, Print;
    if d.rest.Entry? {
      MembersTakeSpace(d.rest);
    }
  }

  /** Setting an entry takes at most its own space. */
  lemma {:induction false} PutTakesSpace(d: Fields, k: string, v: Json)
    ensures TotalSpace(Put(d, k, v)) <= TotalSpace(d) + Space(k, v)
  {
    hide Space;
    if d.Entry? && d.key != k {
      PutTakesSpace(d.rest, k, v);
    }
  }

  // ----- values -----

  lemma WordsAreShortest(fl: FloatReader, t: string)
    requires ParseValue(fl, t).Done? && t != "" && t[0] !in {'\"', '{', '['}
    requires "null" <= t || "true" <= t || "false" <= t
    ensures |Print(ParseValue(fl, t).value)| + |ParseValue(fl, t).rest| <= |t|
  {
    hide ReadNumber;
  }

  /** No reader of floats returns integers. */
  ghost predicate FloatsOnly(fl: FloatReader) {
    forall t :: fl(t).Float?
  }

  lemma IntegerToken(fl: FloatReader, t: string)
    requires FloatsOnly(fl) && ReadNumber(fl, t).Done? && ReadNumber(fl, t).value.Integer?
    ensures IntLen(t) > 0 && FracLen(t[IntLen(t)..]) + ExpLen(t[IntLen(t) + FracLen(t[IntLen(t)..])..]) == 0
  {
    hide IntLen, FracLen, ExpLen, SpecialLen, ReadInteger;
    var n := IntLen(t);
    if n > 0 {
      var f := FracLen(t[n..]);
      var e := ExpLen(t[n + f..]);
      assert fl(t[..n + f + e]).Float?;
    }
  }

  /** The print of what is read is at most as long as what it was read from. */
  lemma {:induction false} ValueIsShortest(fl: FloatReader, t: string)
    requires FloatsOnly(fl) && ParseValue(fl, t).Done? && FloatFree(ParseValue(fl, t).value)
    ensures |Print(ParseValue(fl, t).value)| + |ParseValue(fl, t).rest| <= |t|
    decreases |t|, 0
  {
    hide ReadNumber, ReadString, ParseElements, ParseMembers, SkipWs, PrintElements, PrintMembers, PrintNumber, Quote,
      TotalSpace, FloatsOnly;
    if t[0] == '\"' {
      StringIsShortest(t[1..]);
    } else if t[0] == '{' {
      var u := SkipWs(t[1..]);
      if !Begins(u, '}') {
        MembersAreShortest(fl, u, Empty);
        NoSpace();
        MembersTakeSpace(ParseMembers(fl, u, Empty).value);
      }
    } else if t[0] == '[' {
      var u := SkipWs(t[1..]);
      if !Begins(u, ']') {
        ElementsAreShortest(fl, u);
      }
    } else if "null" <= t || "true" <= t || "false" <= t {
      WordsAreShortest(fl, t);
    } else {
      IntegerToken(fl, t);
      NumberIsShortest(fl, t);
    }
  }

  lemma NoSpace()
    ensures TotalSpace(Empty) == 0
  {
  }

  lemma {:induction false} ElementsAreShortest(fl: FloatReader, t: string)
    requires FloatsOnly(fl) && ParseElements(fl, t).Done? && FloatFreeItems(ParseElements(fl, t).value)
    ensures ParseElements(fl, t).value.Cons?
    ensures |PrintElements(ParseElements(fl, t).value)| + |ParseElements(fl, t).rest| <= |t|
    decreases |t|, 1
  {
    hide ParseValue, SkipWs, Print, FloatsOnly;
    ValueIsShortest(fl, t);
    var u := SkipWs(ParseValue(fl, t).rest);
    if Begins(u, ',') {
      ElementsAreShortest(fl, SkipWs(u[1..]));
    }
  }

  lemma {:induction false} MemberIsShortest(fl: FloatReader, t: string)
    requires FloatsOnly(fl) && ParseMember(fl, t).Done?
    ensures var Done((k, v), rest) := ParseMember(fl, t); Space(k, v) + |rest| <= |t| + 1
    decreases |t|, 0
  {
    hide ParseValue, SkipWs, ReadString, Quote, Print, FloatsOnly;
    StringIsShortest(t[1..]);
    var u := SkipWs(ReadString(t[1..]).rest);
    var value := SkipWs(u[1..]);
    if FloatFree(ParseValue(fl, value).value) {
      ValueIsShortest(fl, value);
    }
  }

  lemma {:induction false} MembersAreShortest(fl: FloatReader, t: string, d: Fields)
    requires FloatsOnly(fl) && ParseMembers(fl, t, d).Done?
    ensures ParseMembers(fl, t, d).value.Entry?
    ensures TotalSpace(ParseMembers(fl, t, d).value) + |ParseMembers(fl, t, d).rest| <= TotalSpace(d) + |t|
    decreases |t|, 1
  {
    hide ParseMember, SkipWs, Space, TotalSpace, FloatsOnly;
    MemberIsShortest(fl, t);
    var Done((k, v), rest) := ParseMember(fl, t);
    PutTakesSpace(d, k, v);
    var u := SkipWs(rest);
    if Begins(u, ',') {
      MembersAreShortest(fl, SkipWs(u[1..]), Put(d, k, v));
    }
  }

  /** No JSON text of a value without floats is shorter than its print. */
  lemma PrintIsShortest(fl: FloatReader, t: string, v: Json)
    requires FloatsOnly(fl) && Loads(fl, t) == Some(v) && FloatFree(v)
    ensures |Print(v)| <= |t|
  {
    hide ParseValue, Print, FloatsOnly;
    ValueIsShortest(fl, SkipWs(t));
  }
}
