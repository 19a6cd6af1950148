/**
 JSON text: the compact printer `json.dumps(v, ensure_ascii=False, separators=(",", ":"))` and the
 parser `json.loads` (RFC 8259, with Python's rule that the last of two equal keys wins).
 */
module JsonText {
  import opened Options
  import opened JsonValues

  datatype Parse<+T> = Fail | Done(value: T, rest: string)

  /** What Python makes of the text of a number that has a fraction or an exponent. */
  type FloatReader = string -> Number

  // ----- printing -----

  function HexDigit(n: nat): char
    requires n < 16
  {
    "0123456789abcdef"[n]
  }

  /** Only quotes, backslashes and control characters are escaped. */
  function EscapeChar(c: char): string {
    if c == '\"' then "\\\""
    else if c == '\\' then "\\\\"
    else if c == '\n' then "\\n"
    else if c == '\r' then "\\r"
    else if c == '\t' then "\\t"
    else if c == '\U{000C}' then "\\f"
    else if c == '\U{0008}' then "\\b"
    else if c < ' ' then "\\u00" + [HexDigit(c as int / 16), HexDigit(c as int % 16)]
    else [c]
  }

  function Escape(s: string): string {
    if s == "" then "" else EscapeChar(s[0]) + Escape(s[1..])
  }

  function Quote(s: string): string {
    "\"" + Escape(s) + "\""
  }

  function PrintNat(n: nat): string {
    if n < 10 then [HexDigit(n)] else PrintNat(n / 10) + [HexDigit(n % 10)]
  }

  function PrintNumber(n: Number): string {
    match n
    case Integer(i) => if i < 0 then "-" + PrintNat(-i) else PrintNat(i)
    case Float(repr, _) => repr
  }

  function Print(v: Json): string {
    match v
    case Null => "null"
    case Bool(b) => if b then "true" else "false"
    case Num(n) => PrintNumber(n)
    case Str(s) => Quote(s)
    case Arr(items) => if items.Nil? then "[]" else "[" + PrintElements(items)
    case Obj(fields) => if fields.Empty? then "{}" else "{" + PrintMembers(fields)
  }

  /** The elements and the closing bracket. */
  function PrintElements(items: Items): string
    requires items.Cons?
  {
    Print(items.head) + if items.tail.Nil? then "]" else "," + PrintElements(items.tail)
  }

  function PrintMembers(fields: Fields): string
    requires fields.Entry?
  {
    Quote(fields.key) + ":" + Print(fields.value) + if fields.rest.Empty? then "}" else "," + PrintMembers(fields.rest)
  }

  // ----- reading strings -----

  predicate IsWs(c: char) {
    c == ' ' || c == '\t' || c == '\n' || c == '\r'
  }

  function SkipWs(t: string): (r: string)
    ensures |r| <= |t|
    ensures r == "" || !IsWs(r[0])
  {
    if t != "" && IsWs(t[0]) then SkipWs(t[1..]) else t
  }

  function HexValue(c: char): Option<nat> {
    if '0' <= c <= '9' then Some(c as int - '0' as int)
    else if 'a' <= c <= 'f' then Some(c as int - 'a' as int + 10)
    else if 'A' <= c <= 'F' then Some(c as int - 'A' as int + 10)
    else None
  }

  /** The value of four hexadecimal digits at the head of `t`. */
  function Hex4(t: string): (r: Option<nat>)
    ensures r.Some? ==> |t| >= 4 && r.value < 0x1_0000
  {
    if |t| < 4 then None
    else
      match (HexValue(t[0]), HexValue(t[1]), HexValue(t[2]), HexValue(t[3]))
      case (Some(a), Some(b), Some(c), Some(d)) => Some(((a * 16 + b) * 16 + c) * 16 + d)
      case _ => None
  }

  /** One `\uXXXX` escape, its digits at the head of `t`; a surrogate must be the first of a pair. */
  function ReadUnicode(t: string): (r: Parse<char>)
    ensures r.Done? ==> |r.rest| < |t|
  {
    match Hex4(t)
    case None => Fail
    case Some(high) =>
      if high < 0xD800 || 0xE000 <= high then Done(high as char, t[4..])
      else if high < 0xDC00 && |t| >= 6 && t[4] == '\\' && t[5] == 'u' then
        match Hex4(t[6..])
        case Some(low) =>
          if 0xDC00 <= low < 0xE000
          then Done((0x1_0000 + (high - 0xD800) * 0x400 + (low - 0xDC00)) as char, t[10..])
          else Fail
        case None => Fail
      else Fail
  }

  /** One character of a string literal, plain or escaped. */
  function ReadChar(t: string): (r: Parse<char>)
    requires t != ""
    ensures r.Done? ==> |r.rest| < |t|
  {
    if t[0] < ' ' then Fail
    else if t[0] != '\\' then Done(t[0], t[1..])
    else if |t| == 1 then Fail
    else match t[1]
      case '\"' => Done('\"', t[2..])
      case '\\' => Done('\\', t[2..])
      case '/' => Done('/', t[2..])
      case 'b' => Done('\U{0008}', t[2..])
      case 'f' => Done('\U{000C}', t[2..])
      case 'n' => Done('\n', t[2..])
      case 'r' => Done('\r', t[2..])
      case 't' => Done('\t', t[2..])
      case 'u' => ReadUnicode(t[2..])
      case _ => Fail
  }

  /** A string literal after its opening quote. */
  function ReadString(t: string): (r: Parse<string>)
    ensures r.Done? ==> |r.rest| < |t|
    decreases |t|
  {
    if t == "" then Fail
    else if t[0] == '\"' then Done("", t[1..])
    else
      match ReadChar(t)
      case Fail => Fail
      case Done(c, more) =>
        match ReadString(more)
        case Fail => Fail
        case Done(s, rest) => Done([c] + s, rest)
  }

  // ----- reading numbers -----

  predicate IsDigit(c: char) {
    '0' <= c <= '9'
  }

  function DigitRun(t: string): (n: nat)
    ensures n <= |t|
  {
    if t != "" && IsDigit(t[0]) then 1 + DigitRun(t[1..]) else 0
  }

  function SignLen(t: string): (n: nat)
    ensures n <= |t|
  {
    if t != "" && t[0] == '-' then 1 else 0
  }

  /** The length of `-?(0|[1-9][0-9]*)` at the head of `t`, or 0. */
  function IntLen(t: string): (n: nat)
    ensures n <= |t|
  {
    var u := t[SignLen(t)..];
    if u == "" || !IsDigit(u[0]) then 0
    else SignLen(t) + if u[0] == '0' then 1 else DigitRun(u)
  }

  function FracLen(t: string): (n: nat)
    ensures n <= |t|
  {
    if t != "" && t[0] == '.' && DigitRun(t[1..]) > 0 then 1 + DigitRun(t[1..]) else 0
  }

  function ExpLen(t: string): (n: nat)
    ensures n <= |t|
  {
    if t == "" || (t[0] != 'e' && t[0] != 'E') then 0
    else
      var sign := if |t| > 1 && (t[1] == '+' || t[1] == '-') then 2 else 1;
      if DigitRun(t[sign..]) > 0 then sign + DigitRun(t[sign..]) else 0
  }

  function DigitsValue(s: string): nat
    requires forall k | 0 <= k < |s| :: IsDigit(s[k])
  {
    if s == "" then 0
    else
      assert IsDigit(s[|s| - 1]);
      DigitsValue(s[..|s| - 1]) * 10 + (s[|s| - 1] as int - '0' as int)
  }

  lemma IntLenDigits(t: string)
    ensures forall k | SignLen(t) <= k < IntLen(t) :: IsDigit(t[k])
  {
    DigitRunDigits(t[SignLen(t)..]);
  }

  lemma {:induction false} DigitRunDigits(t: string)
    ensures forall k | 0 <= k < DigitRun(t) :: IsDigit(t[k])
  {
    if t != "" && IsDigit(t[0]) {
      DigitRunDigits(t[1..]);
      forall k | 0 < k < DigitRun(t) ensures IsDigit(t[k]) {
        assert t[k] == t[1..][k - 1];
      }
    }
  }

  function ReadInteger(s: string): int
    requires IntLen(s) == |s|
  {
    IntLenDigits(s);
    var magnitude: int := DigitsValue(s[SignLen(s)..]);
    if SignLen(s) == 1 then -magnitude else magnitude
  }

  /** The length of one of the names Python has for floats that are no numbers, or 0. */
  function SpecialLen(t: string): (n: nat)
    ensures n <= |t|
  {
    if "NaN" <= t then 3 else if "Infinity" <= t then 8 else if "-Infinity" <= t then 9 else 0
  }

  function ReadNumber(fl: FloatReader, t: string): (r: Parse<Number>)
    ensures r.Done? ==> |r.rest| < |t|
  {
    var n := IntLen(t);
    if n == 0 then
      var s := SpecialLen(t);
      if s == 0 then Fail else Done(fl(t[..s]), t[s..])
    else
      var f := FracLen(t[n..]);
      var e := ExpLen(t[n + f..]);
      if f == 0 && e == 0 then
        IntLenOfPrefix(t);
        Done(Integer(ReadInteger(t[..n])), t[n..])
      else Done(fl(t[..n + f + e]), t[n + f + e..])
  }

  lemma {:induction false} DigitRunOfPrefix(t: string)
    ensures DigitRun(t[..DigitRun(t)]) == DigitRun(t)
  {
    if t != "" && IsDigit(t[0]) {
      DigitRunOfPrefix(t[1..]);
      assert t[..DigitRun(t)][1..] == t[1..][..DigitRun(t[1..])];
    }
  }

  lemma IntLenOfPrefix(t: string)
    ensures IntLen(t[..IntLen(t)]) == IntLen(t)
  {
    var n, s := IntLen(t), SignLen(t);
    if n > 0 {
      assert t[..n][s..] == t[s..][..n - s];
      DigitRunOfPrefix(t[s..]);
    }
  }

  // ----- reading values -----

  predicate Begins(t: string, c: char) {
    t != "" && t[0] == c
  }

  function ParseValue(fl: FloatReader, t: string): (r: Parse<Json>)
    ensures r.Done? ==> |r.rest| < |t|
    decreases |t|, 0
  {
    if t == "" then Fail
    else if t[0] == '\"' then
      match ReadString(t[1..])
      case Fail => Fail
      case Done(s, rest) => Done(Str(s), rest)
    else if t[0] == '{' then
      var u := SkipWs(t[1..]);
      if Begins(u, '}') then Done(Obj(Empty), u[1..])
      else
        match ParseMembers(fl, u, Empty)
        case Fail => Fail
        case Done(fields, rest) => Done(Obj(fields), rest)
    else if t[0] == '[' then
      var u := SkipWs(t[1..]);
      if Begins(u, ']') then Done(Arr(Nil), u[1..])
      else
        match ParseElements(fl, u)
        case Fail => Fail
        case Done(items, rest) => Done(Arr(items), rest)
    else if "null" <= t then Done(Null, t[4..])
    else if "true" <= t then Done(Bool(true), t[4..])
    else if "false" <= t then Done(Bool(false), t[5..])
    else
      match ReadNumber(fl, t)
      case Fail => Fail
      case Done(n, rest) => Done(Num(n), rest)
  }

  /** Elements up to and with the closing bracket; `t` starts at an element. */
  function ParseElements(fl: FloatReader, t: string): (r: Parse<Items>)
    ensures r.Done? ==> |r.rest| < |t|
    decreases |t|, 1
  {
    match ParseValue(fl, t)
    case Fail => Fail
    case Done(v, rest) =>
      var u := SkipWs(rest);
      if Begins(u, ']') then Done(Cons(v, Nil), u[1..])
      else if Begins(u, ',') then
        match ParseElements(fl, SkipWs(u[1..]))
        case Fail => Fail
        case Done(items, more) => Done(Cons(v, items), more)
      else Fail
  }

  /** One `"key": value`. */
  function ParseMember(fl: FloatReader, t: string): (r: Parse<(string, Json)>)
    ensures r.Done? ==> |r.rest| < |t|
    decreases |t|, 0
  {
    if !Begins(t, '\"') then Fail
    else
      match ReadString(t[1..])
      case Fail => Fail
      case Done(key, rest) =>
        var u := SkipWs(rest);
        if !Begins(u, ':') then Fail
        else
          match ParseValue(fl, SkipWs(u[1..]))
          case Fail => Fail
          case Done(v, more) => Done((key, v), more)
  }

  /** Members up to and with the closing brace, put one by one into `d`. */
  function ParseMembers(fl: FloatReader, t: string, d: Fields): (r: Parse<Fields>)
    ensures r.Done? ==> |r.rest| < |t|
    decreases |t|, 1
  {
    match ParseMember(fl, t)
    case Fail => Fail
    case Done((key, v), rest) =>
      var u := SkipWs(rest);
      if Begins(u, '}') then Done(Put(d, key, v), u[1..])
      else if Begins(u, ',') then ParseMembers(fl, SkipWs(u[1..]), Put(d, key, v))
      else Fail
  }

  /** `json.loads(t)`: one value, with nothing but white space around it. */
  function Loads(fl: FloatReader, t: string): Option<Json> {
    match ParseValue(fl, SkipWs(t))
    case Fail => None
    case Done(v, rest) => if SkipWs(rest) == "" then Some(v) else None
  }
}
