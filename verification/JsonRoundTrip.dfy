/**
 Reading printed JSON gives the value back, whatever text follows it; and what the parser returns
 is always a value that prints.
 */
module JsonRoundTrip {
  import opened Options
  import opened JsonValues
  import opened JsonText

  /** The token of a number with a fraction or an exponent, or a float that is no number, and nothing else. */
  predicate FloatToken(r: string) {
    SpecialToken(r) || DecimalToken(r)
  }

  predicate SpecialToken(r: string) {
    r == "NaN" || r == "Infinity" || r == "-Infinity"
  }

  predicate DecimalToken(r: string) {
    var n := IntLen(r);
    var f := FracLen(r[n..]);
    n > 0 && f + ExpLen(r[n + f..]) > 0 && n + f + ExpLen(r[n + f..]) == |r|
  }

  /** Python prints a float it has read as a token that it reads back as the same float; beyond range, as `Infinity`. */
  ghost predicate ReadsBack(fl: FloatReader) {
    forall t | FloatToken(t) :: CanonicalNumber(fl, fl(t))
  }

  predicate CanonicalNumber(fl: FloatReader, n: Number) {
    n.Float? ==> FloatToken(n.repr) && fl(n.repr) == n
  }

  /** A value that can have been read: distinct keys, and floats as Python holds them. */
  predicate Readable(fl: FloatReader, v: Json) {
    match v
    case Num(n) => CanonicalNumber(fl, n)
    case Arr(items) => forall x | x in Elements(items) :: Readable(fl, x)
    case Obj(d) => DistinctKeys(d) && forall x | x in Values(d) :: Readable(fl, x)
    case _ => true
  }

  // ----- strings -----

  lemma ReadEscaped(c: char, q: string)
    ensures !Begins(EscapeChar(c) + q, '\"')
    ensures ReadChar(EscapeChar(c) + q) == Done(c, q)
  {
    var t := EscapeChar(c) + q;
    if c < ' ' && t[1] == 'u' {
      ReadControl(c, q);
    } else {
      hide ReadUnicode;
      assert t[|EscapeChar(c)|..] == q;
    }
  }

  lemma ReadControl(c: char, q: string)
    requires c < ' '
    ensures ReadChar("\\u00" + [HexDigit(c as int / 16), HexDigit(c as int % 16)] + q) == Done(c, q)
  {
    var t := "\\u00" + [HexDigit(c as int / 16), HexDigit(c as int % 16)] + q;
    assert HexValue('0') == Some(0);
    hide HexDigit, HexValue;
    HexDigitsRead(c as int / 16);
    HexDigitsRead(c as int % 16);
    assert t[2..][4..] == q;
  }

  lemma HexDigitsRead(n: nat)
    requires n < 16
    ensures HexValue(HexDigit(n)) == Some(n)
  {
  }

  lemma {:induction false} ReadEscapedString(s: string, q: string)
    ensures ReadString(Escape(s) + "\"" + q) == Done(s, q)
  {
    if s == "" {
      assert (Escape(s) + "\"" + q)[1..] == q;
    } else {
      var more := Escape(s[1..]) + "\"" + q;
      assert Escape(s) + "\"" + q == EscapeChar(s[0]) + more;
      ReadEscapedString(s[1..], q);
      ReadNext(s[0], more, s[1..], q);
      assert [s[0]] + s[1..] == s;
    }
  }

  lemma ReadNext(c: char, more: string, s: string, q: string)
    requires ReadString(more) == Done(s, q)
    ensures ReadString(EscapeChar(c) + more) == Done([c] + s, q)
  {
    ReadEscaped(c, more);
    EscapedNonempty(c);
    hide ReadChar, EscapeChar;
  }

  lemma EscapedNonempty(c: char)
    ensures EscapeChar(c) != ""
  {
  }

  // ----- numbers -----

  /** No number token continues into `q`. */
  predicate Stops(q: string) {
    q == "" || !(IsDigit(q[0]) || q[0] == '.' || q[0] == 'e' || q[0] == 'E')
  }

  lemma {:induction false} DigitRunStops(t: string, q: string)
    requires q == "" || !IsDigit(q[0])
    ensures DigitRun(t + q) == DigitRun(t)
  {
    if t == "" {
      assert t + q == q;
    } else if IsDigit(t[0]) {
      assert (t + q)[1..] == t[1..] + q;
      DigitRunStops(t[1..], q);
    }
  }

  lemma IntLenStops(t: string, q: string)
    requires IntLen(t) > 0 && (q == "" || !IsDigit(q[0]))
    ensures IntLen(t + q) == IntLen(t)
  {
    var s := SignLen(t);
    assert (t + q)[s..] == t[s..] + q;
    DigitRunStops(t[s..], q);
  }

  lemma FracLenStops(t: string, q: string)
    requires Stops(q)
    ensures FracLen(t + q) == FracLen(t)
  {
    if t == "" {
      assert t + q == q;
    } else {
      assert (t + q)[1..] == t[1..] + q;
      DigitRunStops(t[1..], q);
    }
  }

  lemma ExpLenStops(t: string, q: string)
    requires Stops(q) && (t == "" || ExpLen(t) > 0)
    ensures ExpLen(t + q) == ExpLen(t)
  {
    if t == "" {
      assert t + q == q;
    } else {
      var sign := if |t| > 1 && (t[1] == '+' || t[1] == '-') then 2 else 1;
      assert DigitRun(t[sign..]) > 0;
      assert (t + q)[sign..] == t[sign..] + q;
      DigitRunStops(t[sign..], q);
    }
  }

  lemma ReadSpecialToken(fl: FloatReader, r: string, q: string)
    requires SpecialToken(r)
    ensures ReadNumber(fl, r + q) == Done(fl(r), q)
  {
    var t := r + q;
    assert r <= t && t[0] == r[0] && t[1] == r[1];
    assert SpecialLen(t) == |r| && IntLen(t) == 0;
    assert t[..|r|] == r && t[|r|..] == q;
  }

  lemma ReadFloatToken(fl: FloatReader, r: string, q: string)
    requires DecimalToken(r) && Stops(q)
    ensures ReadNumber(fl, r + q) == Done(fl(r), q)
  {
    hide IntLen, FracLen, ExpLen, DigitRun, DigitsValue;
    var n := IntLen(r);
    var f := FracLen(r[n..]);
    var e := ExpLen(r[n + f..]);
    IntLenStops(r, q);
    assert (r + q)[n..] == r[n..] + q;
    FracLenStops(r[n..], q);
    assert (r + q)[n + f..] == r[n + f..] + q;
    ExpLenStops(r[n + f..], q);
    assert (r + q)[..n + f + e] == r && (r + q)[n + f + e..] == q;
  }

  predicate AllDigits(s: string) {
    forall k | 0 <= k < |s| :: IsDigit(s[k])
  }

  lemma {:induction false} PrintNatDigits(n: nat)
    ensures PrintNat(n) != "" && AllDigits(PrintNat(n)) && DigitsValue(PrintNat(n)) == n
    ensures PrintNat(n)[0] == '0' ==> n == 0
    ensures n == 0 ==> PrintNat(n) == "0"
  {
    var s := PrintNat(n);
    if n < 10 {
      assert s[..0] == "";
    } else {
      PrintNatDigits(n / 10);
      assert s[..|s| - 1] == PrintNat(n / 10);
    }
  }

  lemma {:induction false} AllDigitsRun(s: string)
    requires AllDigits(s)
    ensures DigitRun(s) == |s|
  {
    if s != "" {
      AllDigitsRun(s[1..]);
    }
  }

  lemma ReadPrintedInteger(fl: FloatReader, i: int, q: string)
    requires Stops(q)
    ensures ReadNumber(fl, PrintNumber(Integer(i)) + q) == Done(Integer(i), q)
    ensures var t := PrintNumber(Integer(i)); t != "" && (IsDigit(t[0]) || t[0] == '-')
  {
    hide PrintNat, DigitRun;
    var digits := PrintNat(if i < 0 then -i else i);
    var t := PrintNumber(Integer(i));
    PrintNatDigits(if i < 0 then -i else i);
    AllDigitsRun(digits);
    assert t[SignLen(t)..] == digits;
    assert IntLen(t) == |t|;
    IntLenStops(t, q);
    assert (t + q)[..|t|] == t && (t + q)[|t|..] == q;
    assert FracLen(q) == 0 && ExpLen(q) == 0;
  }

  lemma ReadPrintedNumber(fl: FloatReader, n: Number, q: string)
    requires CanonicalNumber(fl, n) && Stops(q)
    ensures ReadNumber(fl, PrintNumber(n) + q) == Done(n, q)
    ensures PrintNumber(n) != "" && (IsDigit(PrintNumber(n)[0]) || PrintNumber(n)[0] in {'-', 'N', 'I'})
  {
    hide ReadNumber, DigitRun, FracLen, ExpLen;
    match n
    case Integer(i) => ReadPrintedInteger(fl, i, q);
    case Float(repr, _) =>
      if SpecialToken(repr) {
        ReadSpecialToken(fl, repr, q);
      } else {
        ReadFloatToken(fl, repr, q);
      }
  }

  // ----- values -----

  /** The characters a printed value can start with. */
  lemma PrintedHead(fl: FloatReader, v: Json)
    requires Readable(fl, v)
    ensures Print(v) != ""
    ensures !IsWs(Print(v)[0]) && Print(v)[0] != ']' && Print(v)[0] != '}'
  {
    if v.Num? {
      ReadPrintedNumber(fl, v.num, "");
    }
  }

  /** Reading a printed value followed by any text that does not continue a number gives the value and that text. */
  lemma {:induction false} ParsePrinted(fl: FloatReader, v: Json, q: string)
    requires Readable(fl, v) && Stops(q)
    ensures ParseValue(fl, Print(v) + q) == Done(v, q)
    decreases v, 1
  {
    match v
    case Arr(items) => ParsePrintedArray(fl, items, q);
    case Obj(d) => ParsePrintedObject(fl, d, q);
    case _ => ParsePrintedScalar(fl, v, q);
  }

  lemma ParsePrintedScalar(fl: FloatReader, v: Json, q: string)
    requires Readable(fl, v) && Stops(q) && !v.Arr? && !v.Obj?
    ensures ParseValue(fl, Print(v) + q) == Done(v, q)
  {
    hide ReadNumber, ReadString, Escape, PrintNumber;
    var t := Print(v) + q;
    match v
    case Null => assert t[4..] == q;
    case Bool(b) => assert t[if b then 4 else 5..] == q;
    case Num(n) => ReadPrintedNumber(fl, n, q);
    case Str(s) =>
      assert t[1..] == Escape(s) + "\"" + q;
      ReadEscapedString(s, q);
  }

  lemma {:induction false} ParsePrintedArray(fl: FloatReader, items: Items, q: string)
    requires Readable(fl, Arr(items))
    ensures ParseValue(fl, Print(Arr(items)) + q) == Done(Arr(items), q)
    decreases items, 1
  {
    hide ParseElements, PrintElements, Elements;
    var t := Print(Arr(items)) + q;
    if items.Nil? {
      assert t[1..][1..] == q;
    } else {
      assert t[1..] == PrintElements(items) + q;
      FirstElementReadable(fl, items);
      ElementsHead(fl, items, q);
      ParsePrintedElements(fl, items, q);
    }
  }

  lemma FirstElementReadable(fl: FloatReader, items: Items)
    requires Readable(fl, Arr(items)) && items.Cons?
    ensures Readable(fl, items.head)
  {
    assert Elements(items)[0] == items.head;
  }

  lemma {:induction false} ParsePrintedObject(fl: FloatReader, d: Fields, q: string)
    requires Readable(fl, Obj(d))
    ensures ParseValue(fl, Print(Obj(d)) + q) == Done(Obj(d), q)
    decreases d, 1
  {
    hide ParseMembers, PrintMembers, Values, DistinctKeys, Append;
    var t := Print(Obj(d)) + q;
    if d.Empty? {
      assert t[1..][1..] == q;
    } else {
      assert t[1..] == PrintMembers(d) + q;
      MembersHead(d, q);
      ParsePrintedMembers(fl, d, Empty, q);
      AppendToEmpty(d);
    }
  }

  lemma ElementsHead(fl: FloatReader, items: Items, q: string)
    requires items.Cons? && Readable(fl, items.head)
    ensures var t := PrintElements(items) + q;
            t != "" && t[0] == Print(items.head)[0] && SkipWs(t) == t && !Begins(t, ']')
  {
    PrintedHead(fl, items.head);
  }

  lemma MembersHead(d: Fields, q: string)
    requires d.Entry?
    ensures var t := PrintMembers(d) + q; Begins(t, '\"') && SkipWs(t) == t
  {
  }

  lemma {:induction false} ParsePrintedElements(fl: FloatReader, items: Items, q: string)
    requires items.Cons? && (forall x | x in Elements(items) :: Readable(fl, x))
    ensures ParseElements(fl, PrintElements(items) + q) == Done(items, q)
    decreases items, 0
  {
    assert Elements(items)[0] == items.head;
    assert forall x | x in Elements(items.tail) :: x in Elements(items);
    hide Elements, Readable, Print, ParseValue, Stops;
    CommaOrBracketStops(q);
    if items.tail.Nil? {
      assert PrintElements(items) + q == Print(items.head) + ("]" + q);
      ParsePrinted(fl, items.head, "]" + q);
      Behind(']', q);
    } else {
      var more := PrintElements(items.tail) + q;
      assert PrintElements(items) + q == Print(items.head) + ("," + more);
      ParsePrinted(fl, items.head, "," + more);
      CommaOrBracketStops(more);
      Behind(',', more);
      ElementsHead(fl, items.tail, q);
      ParsePrintedElements(fl, items.tail, q);
    }
  }

  lemma Behind(c: char, q: string)
    ensures ([c] + q)[1..] == q && Begins([c] + q, c)
    ensures !IsWs(c) ==> SkipWs([c] + q) == [c] + q
  {
  }

  lemma CommaOrBracketStops(q: string)
    ensures Stops("]" + q) && Stops("," + q)
  {
  }

  /** `base` with the entries of `d` added behind. */
  function Append(base: Fields, d: Fields): Fields
    decreases d
  {
    match d
    case Empty => base
    case Entry(k, v, rest) => Append(Put(base, k, v), rest)
  }

  /** `d` behind `base`, as a list. */
  function Chain(base: Fields, d: Fields): Fields {
    match base
    case Empty => d
    case Entry(k, v, rest) => Entry(k, v, Chain(rest, d))
  }

  lemma {:induction false} AppendChains(base: Fields, d: Fields)
    requires DistinctKeys(d) && forall k :: Has(d, k) ==> !Has(base, k)
    ensures Append(base, d) == Chain(base, d)
    decreases d
  {
    match d
    case Empty => ChainEmpty(base);
    case Entry(k, v, rest) =>
      PutNewKey(base, k, v, rest);
      forall j | Has(rest, j) ensures !Has(Put(base, k, v), j) {
        assert Has(d, j) && j != k;
      }
      AppendChains(Put(base, k, v), rest);
  }

  lemma ChainEmpty(base: Fields)
    ensures Chain(base, Empty) == base
  {
  }

  lemma PutNewKey(base: Fields, k: string, v: Json, rest: Fields)
    requires !Has(base, k)
    ensures Chain(Put(base, k, v), rest) == Chain(base, Entry(k, v, rest))
  {
  }

  lemma AppendToEmpty(d: Fields)
    requires DistinctKeys(d)
    ensures Append(Empty, d) == d
  {
    AppendChains(Empty, d);
  }

  lemma {:induction false} ParsePrintedMembers(fl: FloatReader, d: Fields, base: Fields, q: string)
    requires d.Entry? && DistinctKeys(d) && forall x | x in Values(d) :: Readable(fl, x)
    ensures ParseMembers(fl, PrintMembers(d) + q, base) == Done(Append(base, d), q)
    decreases d, 0
  {
    hide ParseMember, Quote, Put, Readable;
    if d.rest.Empty? {
      ParsePrintedMember(fl, d, "}" + q);
      assert PrintMembers(d) + q == Quote(d.key) + (":" + (Print(d.value) + ("}" + q)));
      assert ("}" + q)[1..] == q;
    } else {
      var more := PrintMembers(d.rest) + q;
      ParsePrintedMember(fl, d, "," + more);
      assert PrintMembers(d) + q == Quote(d.key) + (":" + (Print(d.value) + ("," + more)));
      assert ("," + more)[1..] == more;
      MembersHead(d.rest, q);
      ParsePrintedMembers(fl, d.rest, Put(base, d.key, d.value), q);
    }
  }

  lemma {:induction false} ParsePrintedMember(fl: FloatReader, d: Fields, tail: string)
    requires d.Entry? && Readable(fl, d.value) && Stops(tail)
    ensures ParseMember(fl, Quote(d.key) + (":" + (Print(d.value) + tail))) == Done((d.key, d.value), tail)
    decreases d.value, 2
  {
    hide Readable, Print, Escape, ReadString, ParseValue, ParseElements, ParseMembers;
    var value := Print(d.value) + tail;
    var t := Quote(d.key) + (":" + value);
    assert t[1..] == Escape(d.key) + "\"" + (":" + value);
    ReadEscapedString(d.key, ":" + value);
    assert (":" + value)[1..] == value;
    PrintedHead(fl, d.value);
    ParsePrinted(fl, d.value, tail);
  }

  /** `json.loads` undoes `json.dumps`. */
  lemma LoadsPrinted(fl: FloatReader, v: Json)
    requires Readable(fl, v)
    ensures Loads(fl, Print(v)) == Some(v)
  {
    PrintedHead(fl, v);
    ParsePrinted(fl, v, "");
    assert Print(v) + "" == Print(v);
  }

  // ----- what the parser returns -----

  lemma FloatTokenOfPrefix(t: string, n: nat, f: nat, e: nat)
    requires n == IntLen(t) > 0 && f == FracLen(t[n..]) && n + f <= |t| && e == ExpLen(t[n + f..]) && f + e > 0
    ensures FloatToken(t[..n + f + e])
  {
    hide IntLen, FracLen, ExpLen;
    var r := t[..n + f + e];
    IntPrefix(t, r);
    assert r[n..] == t[n..][..f + e];
    if f == 0 {
      ExponentHead(t[n..]);
    }
    FracPrefix(t[n..], r[n..]);
    assert r[n + f..] == t[n + f..][..e];
    ExpPrefix(t[n + f..], r[n + f..]);
  }

  lemma {:induction false} DigitRunPrefix(t: string, r: string)
    requires r <= t && DigitRun(t) <= |r|
    ensures DigitRun(r) == DigitRun(t)
  {
    if t != "" && IsDigit(t[0]) {
      DigitRunPrefix(t[1..], r[1..]);
    }
  }

  lemma IntPrefix(t: string, r: string)
    requires r <= t && 0 < IntLen(t) <= |r|
    ensures IntLen(r) == IntLen(t)
  {
    var s := SignLen(t);
    assert r[s..] <= t[s..];
    if t[s] != '0' {
      DigitRunPrefix(t[s..], r[s..]);
    }
  }

  lemma FracPrefix(t: string, r: string)
    requires r <= t && FracLen(t) <= |r|
    requires FracLen(t) == 0 ==> r == "" || t[0] != '.'
    ensures FracLen(r) == FracLen(t)
  {
    if FracLen(t) > 0 {
      DigitRunPrefix(t[1..], r[1..]);
    }
  }

  lemma ExponentHead(t: string)
    requires ExpLen(t) > 0
    ensures t[0] != '.'
  {
  }

  lemma ExpPrefix(t: string, r: string)
    requires r <= t && |r| == ExpLen(t)
    ensures ExpLen(r) == ExpLen(t)
  {
    if ExpLen(t) > 0 {
      var sign := if |t| > 1 && (t[1] == '+' || t[1] == '-') then 2 else 1;
      assert r[sign..] <= t[sign..];
      DigitRunPrefix(t[sign..], r[sign..]);
    }
  }

  lemma ReadNumberCanonical(fl: FloatReader, t: string)
    requires ReadsBack(fl)
    ensures var r := ReadNumber(fl, t); r.Done? ==> CanonicalNumber(fl, r.value)
  {
    hide CanonicalNumber, IntLen, FracLen, ExpLen, SpecialLen, DecimalToken, SpecialToken;
    var n := IntLen(t);
    if n > 0 {
      var f := FracLen(t[n..]);
      var e := ExpLen(t[n + f..]);
      if f + e > 0 {
        FloatTokenOfPrefix(t, n, f, e);
      } else {
        IntegerIsCanonical(fl, ReadNumber(fl, t).value);
      }
    } else if SpecialLen(t) > 0 {
      SpecialPrefix(t);
    }
  }

  lemma SpecialPrefix(t: string)
    requires SpecialLen(t) > 0
    ensures SpecialToken(t[..SpecialLen(t)])
  {
  }

  lemma IntegerIsCanonical(fl: FloatReader, n: Number)
    requires n.Integer?
    ensures CanonicalNumber(fl, n)
  {
  }

  /** Whatever is read is readable: it can be printed and read again. */
  lemma {:induction false} ParsedIsReadable(fl: FloatReader, t: string)
    requires ReadsBack(fl)
    ensures var r := ParseValue(fl, t); r.Done? ==> Readable(fl, r.value)
    decreases |t|, 0
  {
    hide CanonicalNumber, ReadsBack, ReadNumber, ReadString, ParseElements, ParseMembers, SkipWs, Elements,
      DistinctKeys, Values;
    if t != "" {
      if t[0] == '{' {
        EmptyObjectReadable(fl);
        ParsedMembersReadable(fl, SkipWs(t[1..]), Empty);
      } else if t[0] == '[' {
        EmptyArrayReadable(fl);
        ParsedElementsReadable(fl, SkipWs(t[1..]));
      } else {
        ReadNumberCanonical(fl, t);
      }
    }
  }

  lemma EmptyArrayReadable(fl: FloatReader)
    ensures Readable(fl, Arr(Nil))
  {
  }

  lemma EmptyObjectReadable(fl: FloatReader)
    ensures Readable(fl, Obj(Empty)) && DistinctKeys(Empty) && Values(Empty) == {}
  {
  }

  lemma {:induction false} ParsedElementsReadable(fl: FloatReader, t: string)
    requires ReadsBack(fl)
    ensures var r := ParseElements(fl, t); r.Done? ==> forall x | x in Elements(r.value) :: Readable(fl, x)
    decreases |t|, 1
  {
    ParsedIsReadable(fl, t);
    var r := ParseValue(fl, t);
    if r.Done? {
      var u := SkipWs(r.rest);
      if Begins(u, ',') {
        ParsedElementsReadable(fl, SkipWs(u[1..]));
      }
    }
  }

  lemma {:induction false} ParsedMembersReadable(fl: FloatReader, t: string, d: Fields)
    requires ReadsBack(fl) && DistinctKeys(d) && forall x | x in Values(d) :: Readable(fl, x)
    ensures var r := ParseMembers(fl, t, d); r.Done? ==>
            DistinctKeys(r.value) && forall x | x in Values(r.value) :: Readable(fl, x)
    decreases |t|, 1
  {
    var r := ParseMember(fl, t);
    if r.Done? {
      var u := SkipWs(ReadString(t[1..]).rest);
      ParsedIsReadable(fl, SkipWs(u[1..]));
      var rest := SkipWs(r.rest);
      if Begins(rest, ',') {
        ParsedMembersReadable(fl, SkipWs(rest[1..]), Put(d, r.value.0, r.value.1));
      }
    }
  }
}
