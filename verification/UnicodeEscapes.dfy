/** The \u escapes of RFC 8259, section 7: every code point written as one, alone or as a surrogate
    pair, comes out of the parser in UTF-8 (RFC 3629). */
module UnicodeEscapes {
  import opened CString
  import opened JsonText
  import opened JsonParse
  import opened Spelling

  /** The code points that text may contain: no surrogates. */
  predicate ScalarValue(c: nat) {
    c <= 0x10FFFF && !(0xD800 <= c <= 0xDFFF)
  }

  function HexDigits(n: nat): (s: string)
    requires n < 0x10000
    ensures |s| == 4
  {
    [HexDigit(n / 16 / 16 / 16), HexDigit(n / 16 / 16 % 16), HexDigit(n / 16 % 16), HexDigit(n % 16)]
  }

  function Unit(n: nat): (s: string)
    requires n < 0x10000
    ensures |s| == 6
  {
    "\\u" + HexDigits(n)
  }

  /** RFC 8259, section 7: one unit, or a pair beyond the basic plane. */
  function EscapedCodePoint(c: nat): string
    requires ScalarValue(c)
  {
    if c < 0x10000 then Unit(c)
    else Unit(0xD800 + (c - 0x10000) / 0x400) + Unit(0xDC00 + (c - 0x10000) % 0x400)
  }

  lemma FourDigits(n: nat)
    ensures ((n / 16 / 16 / 16 * 16 + n / 16 / 16 % 16) * 16 + n / 16 % 16) * 16 + n % 16 == n
  {
  }

  lemma HexDigitsParse(n: nat, content: string, at: nat)
    requires n < 0x10000 && LiteralAt(content, at, HexDigits(n))
    ensures ParseHex4(content, at) == n
  {
    hide Nibble, HexDigit;
    var digits := HexDigits(n);
    HexNibble(n / 16 / 16 / 16);
    HexNibble(n / 16 / 16 % 16);
    HexNibble(n / 16 % 16);
    HexNibble(n % 16);
    Index(content, at, digits, 0);
    Index(content, at, digits, 1);
    Index(content, at, digits, 2);
    Index(content, at, digits, 3);
    FourDigits(n);
  }

  lemma UnitAt(n: nat, content: string, at: nat)
    requires n < 0x10000 && LiteralAt(content, at, Unit(n))
    ensures CharAt(content, at, '\\') && CharAt(content, at + 1, 'u') && ParseHex4(content, at + 2) == n
  {
    Split(content, at, "\\u", HexDigits(n));
    Index(content, at, "\\u", 0);
    Index(content, at, "\\u", 1);
    HexDigitsParse(n, content, at + 2);
  }

  lemma Surrogates(c: nat)
    requires 0x10000 <= c <= 0x10FFFF
    ensures var high, low := (c - 0x10000) / 0x400, (c - 0x10000) % 0x400;
            && high < 0x400 && (0xD800 + high) % 0x400 == high && (0xDC00 + low) % 0x400 == low
            && 0x10000 + high * 0x400 + low == c
  {
  }

  /** utf16_literal_to_utf8 reads every escaped code point back. */
  lemma LiteralDecodes(c: nat, content: string, pos: nat, end: nat)
    requires ScalarValue(c) && LiteralAt(content, pos, EscapedCodePoint(c))
    requires pos + |EscapedCodePoint(c)| <= end <= |content|
    ensures Utf16Literal(content, pos, end) == Some((c, |EscapedCodePoint(c)|))
  {
    hide LiteralAt, ParseHex4, Unit;
    if c < 0x10000 {
      UnitAt(c, content, pos);
    } else {
      var high, low := (c - 0x10000) / 0x400, (c - 0x10000) % 0x400;
      Split(content, pos, Unit(0xD800 + high), Unit(0xDC00 + low));
      UnitAt(0xD800 + high, content, pos);
      UnitAt(0xDC00 + low, content, pos + 6);
      Surrogates(c);
    }
  }

  // ---- UTF-8 ----

  predicate Tail(b: nat) {
    0x80 <= b <= 0xBF
  }

  /** RFC 3629, section 3: the code point of a well-formed sequence of bytes. */
  function DecodeUtf8(s: string): Option<nat> {
    if |s| == 1 && s[0] as int < 0x80 then Some(s[0] as int)
    else if |s| == 2 && 0xC0 <= s[0] as int < 0xE0 && Tail(s[1] as int) then
      Shortest((s[0] as int - 0xC0) * 0x40 + (s[1] as int - 0x80), 0x80)
    else if |s| == 3 && 0xE0 <= s[0] as int < 0xF0 && Tail(s[1] as int) && Tail(s[2] as int) then
      Shortest(((s[0] as int - 0xE0) * 0x40 + (s[1] as int - 0x80)) * 0x40 + (s[2] as int - 0x80), 0x800)
    else if |s| == 4 && 0xF0 <= s[0] as int < 0xF8 && Tail(s[1] as int) && Tail(s[2] as int) && Tail(s[3] as int) then
      Shortest((((s[0] as int - 0xF0) * 0x40 + (s[1] as int - 0x80)) * 0x40 + (s[2] as int - 0x80)) * 0x40
               + (s[3] as int - 0x80), 0x10000)
    else None
  }

  /** Overlong forms, surrogates and anything beyond U+10FFFF are not allowed. */
  function Shortest(c: int, least: nat): Option<nat> {
    if c >= least && ScalarValue(c) then Some(c) else None
  }

  lemma Utf8Decodes(c: nat)
    requires ScalarValue(c)
    ensures DecodeUtf8(Utf8(c)) == Some(c)
  {
    var low, mid := c / 64, c / 64 / 64;
    assert c == low * 64 + c % 64 && low == mid * 64 + low % 64 && mid == mid / 64 * 64 + mid % 64;
  }

  /** One step of the string decoder turns an escaped code point into its UTF-8 bytes. */
  lemma EscapeBecomesUtf8(c: nat, content: string, pos: nat, end: nat)
    requires ScalarValue(c) && LiteralAt(content, pos, EscapedCodePoint(c))
    requires pos + |EscapedCodePoint(c)| <= end < |content|
    ensures match DecodeStep(content, pos, end)
            case None => false
            case Some((bytes, next)) => DecodeUtf8(bytes) == Some(c) && next == pos + |EscapedCodePoint(c)|
  {
    LiteralDecodes(c, content, pos, end);
    Utf8Decodes(c);
    if c < 0x10000 {
      UnitAt(c, content, pos);
    } else {
      Split(content, pos, Unit(0xD800 + (c - 0x10000) / 0x400), Unit(0xDC00 + (c - 0x10000) % 0x400));
      UnitAt(0xD800 + (c - 0x10000) / 0x400, content, pos);
    }
  }
}
