/**
 Strings as other printers write them (RFC 8259, section 7): any character may stand as `\uXXXX`, one
 beyond the basic plane as a pair of surrogates, and the solidus behind a backslash.
 */
module AsciiText {
  import opened Options
  import opened JsonValues
  import opened JsonText
  import opened JsonRoundTrip

  /** Four hexadecimal digits. */
  function HexText(n: nat): (r: string)
    requires n < 0x1_0000
    ensures |r| == 4
  {
    [HexDigit(n / 0x1000), HexDigit(n / 0x100 % 16), HexDigit(n / 0x10 % 16), HexDigit(n % 16)]
  }

  /** The character in UTF-16, each unit behind a `\u`. */
  function UnicodeEscape(c: char): string {
    var n := c as int;
    if n < 0x1_0000 then "\\u" + HexText(n)
    else "\\u" + HexText(0xD800 + (n - 0x1_0000) / 0x400) + ("\\u" + HexText(0xDC00 + (n - 0x1_0000) % 0x400))
  }

  /** How a printer may write one character: plain or with a short escape, in UTF-16, or as an escaped solidus. */
  datatype Spelling = Short | Unicode | Solidus

  function Spell(c: char, how: Spelling): string {
    match how
    case Short => EscapeChar(c)
    case Unicode => UnicodeEscape(c)
    case Solidus => if c == '/' then "\\/" else UnicodeEscape(c)
  }

  function SpellAll(s: string, how: seq<Spelling>): string
    requires |how| == |s|
  {
    if s == "" then "" else Spell(s[0], how[0]) + SpellAll(s[1..], how[1..])
  }

  lemma HexTextReads(n: nat, q: string)
    requires n < 0x1_0000
    ensures Hex4(HexText(n) + q) == Some(n) && (HexText(n) + q)[4..] == q
  {
    var a, b, c, d := n / 0x1000, n / 0x100 % 16, n / 0x10 % 16, n % 16;
    HexPlaces(n);
    hide HexDigit, HexValue;
    HexDigitsRead(a);
    HexDigitsRead(b);
    HexDigitsRead(c);
    HexDigitsRead(d);
    FourDigits(HexDigit(a), HexDigit(b), HexDigit(c), HexDigit(d), q);
    assert HexText(n) + q == [HexDigit(a), HexDigit(b), HexDigit(c), HexDigit(d)] + q;
  }

  lemma HexPlaces(n: nat)
    requires n < 0x1_0000
    ensures ((n / 0x1000 * 16 + n / 0x100 % 16) * 16 + n / 0x10 % 16) * 16 + n % 16 == n
  {
    assert n / 0x10 / 0x10 == n / 0x100 && n / 0x100 / 0x10 == n / 0x1000;
  }

  lemma FourDigits(a: char, b: char, c: char, d: char, q: string)
    requires HexValue(a).Some? && HexValue(b).Some? && HexValue(c).Some? && HexValue(d).Some?
    ensures Hex4([a, b, c, d] + q) ==
            Some(((HexValue(a).value * 16 + HexValue(b).value) * 16 + HexValue(c).value) * 16 + HexValue(d).value)
    ensures ([a, b, c, d] + q)[4..] == q
  {
    hide HexValue;
  }

  lemma BasicReads(c: char, q: string)
    requires c as int < 0x1_0000
    ensures ReadUnicode(HexText(c as int) + q) == Done(c, q)
  {
    HexTextReads(c as int, q);
  }

  lemma SurrogatesRead(c: char, q: string)
    requires c as int >= 0x1_0000
    ensures var n := c as int - 0x1_0000;
            ReadUnicode(HexText(0xD800 + n / 0x400) + ("\\u" + HexText(0xDC00 + n % 0x400)) + q) == Done(c, q)
  {
    hide HexText, Hex4;
    var n := c as int - 0x1_0000;
    var high, low := 0xD800 + n / 0x400, 0xDC00 + n % 0x400;
    var t := HexText(high) + ("\\u" + HexText(low)) + q;
    var more := "\\u" + (HexText(low) + q);
    assert t == HexText(high) + more;
    HexTextReads(high, more);
    HexTextReads(low, q);
    assert t[4] == '\\' && t[5] == 'u' && t[6..] == HexText(low) + q;
    assert t[10..] == q;
  }

  /** Every spelling of a character is read as that character. */
  lemma SpellingReads(c: char, how: Spelling, q: string)
    ensures Spell(c, how) != "" && !Begins(Spell(c, how) + q, '\"')
    ensures ReadChar(Spell(c, how) + q) == Done(c, q)
  {
    hide ReadUnicode, EscapeChar, HexText;
    var t := Spell(c, how) + q;
    if how.Short? {
      EscapedNonempty(c);
      ReadEscaped(c, q);
    } else if how.Solidus? && c == '/' {
      assert t[2..] == q;
    } else {
      if c as int < 0x1_0000 {
        BasicReads(c, q);
        assert t[2..] == HexText(c as int) + q;
      } else {
        SurrogatesRead(c, q);
        var n := c as int - 0x1_0000;
        assert t[2..] == HexText(0xD800 + n / 0x400) + ("\\u" + HexText(0xDC00 + n % 0x400)) + q;
      }
      assert t[0] == '\\' && t[1] == 'u';
    }
  }

  /** However each of its characters is written, a string literal is read as the string. */
  lemma {:induction false} SpelledStringReads(s: string, how: seq<Spelling>, q: string)
    requires |how| == |s|
    ensures ReadString(SpellAll(s, how) + "\"" + q) == Done(s, q)
  {
    hide Spell, ReadChar;
    if s == "" {
      assert (SpellAll(s, how) + "\"" + q)[1..] == q;
    } else {
      var more := SpellAll(s[1..], how[1..]) + "\"" + q;
      assert SpellAll(s, how) + "\"" + q == Spell(s[0], how[0]) + more;
      SpelledStringReads(s[1..], how[1..], q);
      SpellingReads(s[0], how[0], more);
      assert [s[0]] + s[1..] == s;
    }
  }
}
