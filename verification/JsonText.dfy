/** The text of a tree: what the printer of cJSON.c writes, as a function. */
module JsonText {
  import opened CString
  import opened JsonTree

  // ---- strings ----

  function HexDigit(d: nat): char
    requires d < 16
  {
    "0123456789abcdef"[d]
  }

  /** One character of a string literal. */
  function EscapeChar(c: char): (r: string)
    ensures 1 <= |r| <= 6
  {
    if c == '\"' then "\\\""
    else if c == '\\' then "\\\\"
    else if c == 8 as char then "\\b"
    else if c == 12 as char then "\\f"
    else if c == '\n' then "\\n"
    else if c == '\r' then "\\r"
    else if c == '\t' then "\\t"
    else if c < ' ' then "\\u00" + [HexDigit(c as int / 16), HexDigit(c as int % 16)]
    else [c]
  }

  function Escape(s: string): (r: string)
    ensures |r| >= |s|
  {
    if s == "" then "" else EscapeChar(s[0]) + Escape(s[1..])
  }

  function Quote(s: string): string {
    "\"" + Escape(s) + "\""
  }

  lemma {:induction false} EscapeSplit(s: string, i: nat)
    requires i <= |s|
    ensures Escape(s) == Escape(s[..i]) + Escape(s[i..])
  {
    if i > 0 {
      EscapeSplit(s[1..], i - 1);
      assert s[..i][1..] == s[1..][..i - 1] && s[1..][i - 1..] == s[i..];
    }
  }

  lemma EscapeStep(s: string, i: nat)
    requires i < |s|
    ensures Escape(s[..i + 1]) == Escape(s[..i]) + EscapeChar(s[i])
    ensures |Escape(s[..i + 1])| <= |Escape(s)|
  {
    EscapeSplit(s[..i + 1], i);
    assert s[..i + 1][..i] == s[..i] && s[..i + 1][i..] == [s[i]];
    assert Escape([s[i]]) == EscapeChar(s[i]) + Escape([s[i]][1..]);
    EscapeSplit(s, i + 1);
  }

  lemma {:induction false} EscapeNulFree(s: string)
    requires NulFree(s)
    ensures NulFree(Escape(s))
  {
    if s != "" {
      EscapeNulFree(s[1..]);
      assert NulFree(EscapeChar(s[0]));
    }
  }

  // ---- numbers ----

  predicate Digit(c: char) {
    '0' <= c <= '9'
  }

  function DigitChar(d: nat): (c: char)
    requires d < 10
    ensures Digit(c) && c as int - '0' as int == d
  {
    (d + '0' as int) as char
  }

  /** The decimal text of sprintf. */
  function Decimal(n: nat): (s: string)
    ensures s != "" && forall i :: 0 <= i < |s| ==> Digit(s[i])
    ensures s[0] == '0' ==> n == 0 && |s| == 1
  {
    if n < 10 then [DigitChar(n)] else Decimal(n / 10) + [DigitChar(n % 10)]
  }

  predicate Digits(s: string) {
    forall i :: 0 <= i < |s| ==> Digit(s[i])
  }

  /** The number a run of digits stands for. */
  function Numeral(s: string): nat
    requires Digits(s)
  {
    if s == "" then 0 else 10 * Numeral(s[..|s| - 1]) + (s[|s| - 1] as int - '0' as int)
  }

  lemma NumeralMore(s: string, c: char)
    requires Digits(s) && Digit(c)
    ensures Digits(s + [c]) && Numeral(s + [c]) == 10 * Numeral(s) + (c as int - '0' as int)
  {
    assert (s + [c])[..|s|] == s;
  }

  /** Decimal text stands for its number. */
  lemma {:induction false} DecimalNumeral(n: nat)
    ensures Digits(Decimal(n)) && Numeral(Decimal(n)) == n
  {
    if n >= 10 {
      DecimalNumeral(n / 10);
      NumeralMore(Decimal(n / 10), DigitChar(n % 10));
    } else {
      NumeralMore("", DigitChar(n));
      assert "" + [DigitChar(n)] == Decimal(n);
    }
  }

  /** The "%d" of print_number. */
  function Signed(n: int): (s: string)
    ensures s != "" && NulFree(s)
  {
    if n < 0 then "-" + Decimal(-n) else Decimal(n)
  }

  // ---- values ----

  function Tabs(n: nat): (s: string)
    ensures |s| == n && NulFree(s)
  {
    seq(n, _ => '\t')
  }

  /** print_value at nesting depth `depth`. */
  function Render(t: Json, fmt: bool, depth: nat): string
    decreases t, 1
  {
    match t
    case Invalid => ""
    case Null => "null"
    case False => "false"
    case True => "true"
    case Number(n) => Signed(n)
    case String(s) => Quote(s)
    case Raw(s) => s
    case Array(items) => "[" + RenderItems(items, fmt, depth + 1) + "]"
    case Object(ms) =>
      Opening(fmt) + RenderMembers(ms, fmt, depth + 1) + Closing(fmt, depth)
  }

  function Opening(fmt: bool): string {
    if fmt then "{\n" else "{"
  }

  function Closing(fmt: bool, depth: nat): string {
    if fmt then Tabs(depth) + "}" else "}"
  }

  function RenderItems(items: seq<Json>, fmt: bool, depth: nat): string
    decreases items, 0
  {
    if items == [] then "" else ItemText(items[0], |items| > 1, fmt, depth) + RenderItems(items[1..], fmt, depth)
  }

  /** An element and what separates it from the next. */
  function ItemText(t: Json, more: bool, fmt: bool, depth: nat): string
    decreases t, 2
  {
    Render(t, fmt, depth) + ItemSeparator(more, fmt)
  }

  function ItemSeparator(more: bool, fmt: bool): string {
    if !more then "" else if fmt then ", " else ","
  }

  function RenderMembers(ms: seq<Member>, fmt: bool, depth: nat): string
    decreases ms, 0
  {
    if ms == [] then "" else MemberText(ms[0], |ms| > 1, fmt, depth) + RenderMembers(ms[1..], fmt, depth)
  }

  function MemberText(m: Member, more: bool, fmt: bool, depth: nat): string
    decreases m, 2
  {
    KeyText(m.key, fmt, depth) + (Render(m.value, fmt, depth) + MemberSeparator(more, fmt))
  }

  function KeyText(key: string, fmt: bool, depth: nat): string {
    (if fmt then Tabs(depth) else "") + Quote(key) + (if fmt then ":\t" else ":")
  }

  function MemberSeparator(more: bool, fmt: bool): string {
    (if more then "," else "") + (if fmt then "\n" else "")
  }

  /** Trees print_value accepts, with the strings C can hold. */
  predicate Printable(t: Json) {
    match t
    case Invalid => false
    case String(s) => NulFree(s)
    case Raw(s) => NulFree(s)
    case Array(items) => forall i :: 0 <= i < |items| ==> Printable(items[i])
    case Object(ms) => forall i :: 0 <= i < |ms| ==> NulFree(ms[i].key) && Printable(ms[i].value)
    case _ => true
  }

  lemma {:induction false} RenderNulFree(t: Json, fmt: bool, depth: nat)
    requires Printable(t)
    ensures NulFree(Render(t, fmt, depth))
    decreases t, 1
  {
    match t
    case String(s) => EscapeNulFree(s);
    case Array(items) => RenderItemsNulFree(items, fmt, depth + 1);
    case Object(ms) =>
      RenderMembersNulFree(ms, fmt, depth + 1);
      NulFreeConcat(Opening(fmt), RenderMembers(ms, fmt, depth + 1));
      NulFreeConcat(Tabs(depth), "}");
    case _ =>
  }

  lemma {:induction false} RenderItemsNulFree(items: seq<Json>, fmt: bool, depth: nat)
    requires forall i :: 0 <= i < |items| ==> Printable(items[i])
    ensures NulFree(RenderItems(items, fmt, depth))
    decreases items, 0
  {
    if items != [] {
      RenderNulFree(items[0], fmt, depth);
      RenderItemsNulFree(items[1..], fmt, depth);
    }
  }

  lemma {:induction false} RenderMembersNulFree(ms: seq<Member>, fmt: bool, depth: nat)
    requires forall i :: 0 <= i < |ms| ==> NulFree(ms[i].key) && Printable(ms[i].value)
    ensures NulFree(RenderMembers(ms, fmt, depth))
    decreases ms, 0
  {
    if ms != [] {
      EscapeNulFree(ms[0].key);
      RenderNulFree(ms[0].value, fmt, depth);
      RenderMembersNulFree(ms[1..], fmt, depth);
      var k, v := KeyText(ms[0].key, fmt, depth), Render(ms[0].value, fmt, depth);
      NulFreeConcat(v, MemberSeparator(|ms| > 1, fmt));
      NulFreeConcat(k, v + MemberSeparator(|ms| > 1, fmt));
      NulFreeConcat(MemberText(ms[0], |ms| > 1, fmt, depth), RenderMembers(ms[1..], fmt, depth));
    }
  }

  lemma NulFreeConcat(a: string, b: string)
    requires NulFree(a) && NulFree(b)
    ensures NulFree(a + b)
  {
  }
}
