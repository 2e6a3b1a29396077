/** The parser of cJSON.c, as a function of the text and the offset. */
module JsonParse {
  import opened CString
  import opened JsonTree
  import opened JsonText

  const NESTING_LIMIT := 1000

  /** What a parsing step makes of the text at an offset: a value and the offset behind it. */
  datatype Parsed<+T> = Fail | Ok(value: T, offset: nat)

  // ---- whitespace and literals ----

  function FirstNonSpace(content: string, offset: nat): (r: nat)
    requires offset <= |content|
    ensures offset <= r <= |content|
    ensures forall i :: offset <= i < r ==> content[i] as int <= 32
    ensures r < |content| ==> content[r] as int > 32
    decreases |content| - offset
  {
    if offset < |content| && content[offset] as int <= 32 then FirstNonSpace(content, offset + 1) else offset
  }

  /** buffer_skip_whitespace: it stops in front of the last character at the latest. */
  function SkipWhitespace(content: string, offset: nat): (r: nat)
    requires offset <= |content|
    ensures offset <= r <= |content|
    ensures offset < |content| ==> r < |content|
  {
    var r := FirstNonSpace(content, offset);
    if offset < |content| && r == |content| then r - 1 else r
  }

  /** skip_utf8_bom */
  function SkipBom(content: string): (r: nat)
    ensures r <= |content|
  {
    if 4 < |content| && content[0] as int == 0xEF && content[1] as int == 0xBB && content[2] as int == 0xBF then 3 else 0
  }

  predicate LiteralAt(content: string, offset: nat, word: string) {
    offset + |word| <= |content| && forall i :: 0 <= i < |word| ==> content[offset + i] == word[i]
  }

  predicate CharAt(content: string, offset: nat, c: char) {
    offset < |content| && content[offset] == c
  }

  // ---- numbers ----

  predicate NumberChar(c: char) {
    Digit(c) || c in "+-eE."
  }

  /** The end of the run of characters a number may contain. */
  function NumberEnd(content: string, offset: nat): (r: nat)
    requires offset <= |content|
    ensures offset <= r <= |content|
    ensures forall i :: offset <= i < r ==> NumberChar(content[i])
    ensures r < |content| ==> !NumberChar(content[r])
    decreases |content| - offset
  {
    if offset < |content| && NumberChar(content[offset]) then NumberEnd(content, offset + 1) else offset
  }

  /** The end of the digits from `from` on. */
  function DigitsEnd(content: string, from: nat, end: nat): (r: nat)
    requires from <= end <= |content|
    ensures from <= r <= end
    ensures forall i :: from <= i < r ==> Digit(content[i])
    ensures r < end ==> !Digit(content[r])
    decreases end - from
  {
    if from < end && Digit(content[from]) then DigitsEnd(content, from + 1, end) else from
  }

  function DigitsValue(content: string, from: nat, end: nat): nat
    requires from <= end <= |content|
    requires forall i :: from <= i < end ==> Digit(content[i])
    decreases end
  {
    if from == end then 0
    else
      assert Digit(content[end - 1]);
      DigitsValue(content, from, end - 1) * 10 + (content[end - 1] as int - '0' as int)
  }

  /** What would make strtod read on behind the digits. */
  predicate FractionOrExponent(content: string, at: nat, end: nat)
    requires end <= |content|
  {
    && at < end
    && (content[at] == '.' ||
        (content[at] in "eE" && (DigitAt(content, at + 1, end) ||
                                 (at + 1 < end && content[at + 1] in "+-" && DigitAt(content, at + 2, end)))))
  }

  predicate DigitAt(content: string, at: nat, end: nat)
    requires end <= |content|
  {
    at < end && Digit(content[at])
  }

  /** strtod on the integer literals between two offsets: the value, and where it stopped. */
  function Strtod(content: string, offset: nat, end: nat): (r: Option<(int, nat)>)
    requires offset <= end <= |content|
    ensures r.Some? ==> offset < r.value.1 <= end
  {
    var digits := if offset < end && content[offset] in "+-" then offset + 1 else offset;
    var stop := DigitsEnd(content, digits, end);
    if stop == digits || FractionOrExponent(content, stop, end) then None
    else
      var magnitude: int := DigitsValue(content, digits, stop);
      Some((if content[offset] == '-' then -magnitude else magnitude, stop))
  }

  function Saturate(n: int): (r: int)
    ensures INT_MIN <= r <= INT_MAX
  {
    if n >= INT_MAX then INT_MAX else if n <= INT_MIN then INT_MIN else n
  }

  function ParseNumber(content: string, offset: nat): (r: Parsed<Json>)
    requires offset <= |content|
    ensures r.Ok? ==> offset < r.offset <= |content|
  {
    match Strtod(content, offset, NumberEnd(content, offset))
    case None => Fail
    case Some((n, next)) => Ok(Number(Saturate(n)), next)
  }

  // ---- strings ----

  function Nibble(c: char): (r: Option<nat>)
    ensures r.Some? ==> r.value < 16
  {
    if '0' <= c <= '9' then Some(c as int - '0' as int)
    else if 'A' <= c <= 'F' then Some(10 + (c as int - 'A' as int))
    else if 'a' <= c <= 'f' then Some(10 + (c as int - 'a' as int))
    else None
  }

  /** parse_hex4: four hexadecimal digits, or zero. */
  function ParseHex4(s: string, at: nat): (h: nat)
    requires at + 4 <= |s|
    ensures h < 0x10000
    ensures h != 0 ==> forall i :: at <= i < at + 4 ==> Nibble(s[i]).Some?
  {
    match (Nibble(s[at]), Nibble(s[at + 1]), Nibble(s[at + 2]), Nibble(s[at + 3]))
    case (Some(a), Some(b), Some(c), Some(d)) => ((a * 16 + b) * 16 + c) * 16 + d
    case _ => 0
  }

  function Byte(n: nat): char
    requires n < 256
  {
    n as char
  }

  /** The UTF-8 form of a code point. */
  function Utf8(codepoint: nat): (r: string)
    requires codepoint <= 0x10FFFF
    ensures |r| == Utf8Length(codepoint)
  {
    if codepoint < 0x80 then [Byte(codepoint)]
    else if codepoint < 0x800 then [Byte(0xC0 + codepoint / 64), Continuation(codepoint)]
    else if codepoint < 0x10000 then
      [Byte(0xE0 + codepoint / 64 / 64), Continuation(codepoint / 64), Continuation(codepoint)]
    else
      [Byte(0xF0 + codepoint / 64 / 64 / 64), Continuation(codepoint / 64 / 64), Continuation(codepoint / 64),
       Continuation(codepoint)]
  }

  function Continuation(n: nat): char {
    Byte(0x80 + n % 64)
  }

  function Utf8Length(codepoint: nat): nat {
    if codepoint < 0x80 then 1 else if codepoint < 0x800 then 2 else if codepoint < 0x10000 then 3 else 4
  }

  /** The code point of the UTF-16 literal at an offset, and the length of the literal. */
  function Utf16Literal(content: string, pos: nat, end: nat): (r: Option<(nat, nat)>)
    requires pos <= end <= |content|
    ensures r.Some? ==> r.value.0 <= 0x10FFFF && r.value.1 in {6, 12} && pos + r.value.1 <= end
  {
    if end - pos < 6 then None
    else
      var first := ParseHex4(content, pos + 2);
      if 0xDC00 <= first <= 0xDFFF then None
      else if 0xD800 <= first <= 0xDBFF then
        if end - (pos + 6) < 6 || content[pos + 6] != '\\' || content[pos + 7] != 'u' then None
        else
          var second := ParseHex4(content, pos + 8);
          if second < 0xDC00 || second > 0xDFFF then None
          else Some((0x10000 + first % 0x400 * 0x400 + second % 0x400, 12))
      else Some((first, 6))
  }

  function SimpleEscape(c: char): Option<char> {
    match c
    case 'b' => Some(8 as char)
    case 'f' => Some(12 as char)
    case 'n' => Some('\n')
    case 'r' => Some('\r')
    case 't' => Some('\t')
    case '\"' => Some('\"')
    case '\\' => Some('\\')
    case '/' => Some('/')
    case _ => None
  }

  /** The first pass: the closing quote. */
  function StringEnd(content: string, pos: nat): (r: Option<nat>)
    requires pos <= |content|
    ensures r.Some? ==> pos <= r.value < |content| && content[r.value] == '\"'
    decreases |content| - pos
  {
    if pos == |content| then None
    else if content[pos] == '\"' then Some(pos)
    else if content[pos] != '\\' then StringEnd(content, pos + 1)
    else if pos + 1 >= |content| then None
    else StringEnd(content, pos + 2)
  }

  /** What one step of the second pass writes, and how far it goes. */
  function DecodeStep(content: string, pos: nat, end: nat): (r: Option<(string, nat)>)
    requires pos < end < |content|
    ensures r.Some? ==> pos < r.value.1 <= end + 1
  {
    if content[pos] != '\\' then Some(([content[pos]], pos + 1))
    else if content[pos + 1] == 'u' then
      (match Utf16Literal(content, pos, end)
       case None => None
       case Some((codepoint, length)) => Some((Utf8(codepoint), pos + length)))
    else
      match SimpleEscape(content[pos + 1])
      case None => None
      case Some(c) => Some(([c], pos + 2))
  }

  function Decode(content: string, pos: nat, end: nat): Option<string>
    requires pos <= end + 1 <= |content|
    decreases end + 1 - pos
  {
    if pos >= end then Some("")
    else
      match DecodeStep(content, pos, end)
      case None => None
      case Some((bytes, next)) =>
        match Decode(content, next, end)
        case None => None
        case Some(rest) => Some(bytes + rest)
  }

  /** parse_string; the value is what C sees of the decoded bytes. */
  function ParseString(content: string, offset: nat): (r: Parsed<string>)
    requires offset < |content|
    ensures r.Ok? ==> offset < r.offset <= |content|
  {
    if content[offset] != '\"' then Fail
    else
      match StringEnd(content, offset + 1)
      case None => Fail
      case Some(end) =>
        match Decode(content, offset + 1, end)
        case None => Fail
        case Some(decoded) => Ok(Text(decoded), end + 1)
  }

  // ---- values ----

  function ParseValue(content: string, offset: nat, depth: nat): (r: Parsed<Json>)
    requires offset <= |content|
    ensures r.Ok? ==> offset < r.offset <= |content|
    decreases |content| - offset, 3
  {
    if LiteralAt(content, offset, "null") then Ok(Null, offset + 4)
    else if LiteralAt(content, offset, "false") then Ok(False, offset + 5)
    else if LiteralAt(content, offset, "true") then Ok(True, offset + 4)
    else if offset == |content| then Fail
    else if content[offset] == '\"' then
      match ParseString(content, offset) {
        case Fail => Fail
        case Ok(s, next) => Ok(String(s), next)
      }
    else if content[offset] == '-' || Digit(content[offset]) then ParseNumber(content, offset)
    else if content[offset] == '[' then
      match ParseArray(content, offset, depth) {
        case Fail => Fail
        case Ok(items, next) => Ok(Array(items), next)
      }
    else if content[offset] == '{' then
      match ParseObject(content, offset, depth) {
        case Fail => Fail
        case Ok(ms, next) => Ok(Object(ms), next)
      }
    else Fail
  }

  function ParseArray(content: string, offset: nat, depth: nat): (r: Parsed<seq<Json>>)
    requires offset < |content|
    ensures r.Ok? ==> offset < r.offset <= |content|
    decreases |content| - offset, 2
  {
    if depth >= NESTING_LIMIT || content[offset] != '[' then Fail
    else
      var first := SkipWhitespace(content, offset + 1);
      if CharAt(content, first, ']') then Ok([], first + 1)
      else if first == |content| then Fail
      else ParseElements(content, first - 1, depth + 1)
  }

  /** The elements after the character at the offset, up to the closing bracket. */
  function ParseElements(content: string, offset: nat, depth: nat): (r: Parsed<seq<Json>>)
    requires offset < |content|
    ensures r.Ok? ==> offset < r.offset <= |content|
    decreases |content| - offset, 1
  {
    match ParseValue(content, SkipWhitespace(content, offset + 1), depth)
    case Fail => Fail
    case Ok(value, next) =>
      var after := SkipWhitespace(content, next);
      if CharAt(content, after, ',') then Prepend([value], ParseElements(content, after, depth))
      else if CharAt(content, after, ']') then Ok([value], after + 1)
      else Fail
  }

  function Prepend<T>(xs: seq<T>, r: Parsed<seq<T>>): Parsed<seq<T>> {
    match r
    case Fail => Fail
    case Ok(rest, offset) => Ok(xs + rest, offset)
  }

  function ParseObject(content: string, offset: nat, depth: nat): (r: Parsed<seq<Member>>)
    requires offset < |content|
    ensures r.Ok? ==> offset < r.offset <= |content|
    decreases |content| - offset, 2
  {
    if depth >= NESTING_LIMIT || content[offset] != '{' then Fail
    else
      var first := SkipWhitespace(content, offset + 1);
      if CharAt(content, first, '}') then Ok([], first + 1)
      else if first == |content| then Fail
      else ParseMembers(content, first - 1, depth + 1)
  }

  /** The name after the character at the offset, and the offset of its value. */
  function ParseName(content: string, offset: nat): (r: Parsed<string>)
    requires offset < |content|
    ensures r.Ok? ==> offset < r.offset <= |content|
  {
    if offset + 1 >= |content| then Fail
    else
      match ParseString(content, SkipWhitespace(content, offset + 1))
      case Fail => Fail
      case Ok(key, next) =>
        var colon := SkipWhitespace(content, next);
        if CharAt(content, colon, ':') then Ok(key, SkipWhitespace(content, colon + 1)) else Fail
  }

  function ParseMember(content: string, offset: nat, depth: nat): (r: Parsed<Member>)
    requires offset < |content|
    ensures r.Ok? ==> offset < r.offset <= |content|
    decreases |content| - offset, 0
  {
    match ParseName(content, offset)
    case Fail => Fail
    case Ok(key, at) =>
      match ParseValue(content, at, depth)
      case Fail => Fail
      case Ok(value, next) => Ok(Member(key, value), next)
  }

  function ParseMembers(content: string, offset: nat, depth: nat): (r: Parsed<seq<Member>>)
    requires offset < |content|
    ensures r.Ok? ==> offset < r.offset <= |content|
    decreases |content| - offset, 1
  {
    match ParseMember(content, offset, depth)
    case Fail => Fail
    case Ok(m, next) =>
      var after := SkipWhitespace(content, next);
      if CharAt(content, after, ',') then Prepend([m], ParseMembers(content, after, depth))
      else if CharAt(content, after, '}') then Ok([m], after + 1)
      else Fail
  }

  /** cJSON_ParseWithLengthOpts: the tree, and where the parse ended. */
  function ParseWithLengthOpts(content: string, requireNullTerminated: bool): Parsed<Json> {
    if content == "" then Fail
    else
      match ParseValue(content, SkipWhitespace(content, SkipBom(content)), 0)
      case Fail => Fail
      case Ok(t, next) =>
        if !requireNullTerminated then Ok(t, next)
        else
          var end := SkipWhitespace(content, next);
          if CharAt(content, end, '\0') then Ok(t, end) else Fail
  }

  /** cJSON_ParseWithOpts, given the text of its argument. */
  function ParseWithOpts(value: string, requireNullTerminated: bool): Parsed<Json> {
    ParseWithLengthOpts(value + "\0", requireNullTerminated)
  }
}
