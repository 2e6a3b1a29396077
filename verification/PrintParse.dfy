/** Print, then parse: the tree comes back exactly when it is nested no deeper than the parser
    allows. What is printed is one of the spellings of the tree. */
module PrintParse {
  import opened CString
  import opened JsonTree
  import opened JsonText
  import opened JsonParse
  import opened Spelling
  import opened ParseExact

  /** The trees of RFC 8259: any keys, numbers in the int range, strings as C holds them. */
  predicate Plain(t: Json) {
    match t
    case Invalid => false
    case Raw(_) => false
    case Number(n) => INT_MIN <= n <= INT_MAX
    case String(s) => NulFree(s)
    case Array(items) => PlainItems(items)
    case Object(ms) => PlainMembers(ms)
    case _ => true
  }

  predicate PlainItems(items: seq<Json>) {
    forall i :: 0 <= i < |items| ==> Plain(items[i])
  }

  predicate PlainMembers(ms: seq<Member>) {
    forall i :: 0 <= i < |ms| ==> NulFree(ms[i].key) && Plain(ms[i].value)
  }

  // ---- strings ----

  /** The mark the printer makes of a character. */
  function PrintedMark(c: char): Mark {
    if c == '\"' || c == '\\' then Named(c)
    else if c == 8 as char then Named('b')
    else if c == 12 as char then Named('f')
    else if c == '\n' then Named('n')
    else if c == '\r' then Named('r')
    else if c == '\t' then Named('t')
    else if c < ' ' then CodeUnit("00" + [HexDigit(c as int / 16), HexDigit(c as int % 16)])
    else Bare(c)
  }

  lemma ControlUnit(c: char)
    requires c < ' '
    ensures ParseHex4("00" + [HexDigit(c as int / 16), HexDigit(c as int % 16)], 0) == c as int
  {
    HexNibble(c as int / 16);
    HexNibble(c as int % 16);
  }

  lemma PrintedMarkExact(c: char)
    requires c != '\0'
    ensures ValidMark(PrintedMark(c)) && MarkText(PrintedMark(c)) == EscapeChar(c) && MarkBytes(PrintedMark(c)) == [c]
    ensures EscapeChar(c)[0] != '\"'
    ensures EscapeChar(c)[0] == '\\' ==> |EscapeChar(c)| > 1 && Guarded(EscapeChar(c)[2..])
    ensures EscapeChar(c)[0] != '\\' ==> |EscapeChar(c)| == 1
  {
    if PrintedMark(c).CodeUnit? {
      ControlUnit(c);
      ControlGuarded(c);
    }
  }

  lemma ControlGuarded(c: char)
    requires c < ' '
    ensures Guarded("00" + [HexDigit(c as int / 16), HexDigit(c as int % 16)])
  {
    var a, b := HexDigit(c as int / 16), HexDigit(c as int % 16);
    assert Guarded([b]) && [a, b][1..] == [b];
    assert ("0" + [a, b])[1..] == [a, b];
    assert ("00" + [a, b])[1..] == "0" + [a, b];
  }

  function PrintedMarks(s: string): seq<Mark> {
    if s == "" then [] else [PrintedMark(s[0])] + PrintedMarks(s[1..])
  }

  lemma {:induction false} GuardedJoin(a: string, b: string)
    requires Guarded(a) && Guarded(b)
    ensures Guarded(a + b)
    decreases |a|
  {
    if a == "" {
      assert a + b == b;
    } else {
      var n := if a[0] == '\\' then 2 else 1;
      assert (a + b)[n..] == a[n..] + b;
      GuardedJoin(a[n..], b);
    }
  }

  lemma {:induction false} PrintedMarksExact(s: string)
    requires NulFree(s)
    ensures ValidMarks(PrintedMarks(s)) && MarksText(PrintedMarks(s)) == Escape(s) && MarksBytes(PrintedMarks(s)) == s
    ensures Guarded(Escape(s))
  {
    hide PrintedMark, EscapeChar, MarkText, MarkBytes, ValidMark;
    if s != "" {
      PrintedMarkExact(s[0]);
      PrintedMarksExact(s[1..]);
      assert PrintedMarks(s)[1..] == PrintedMarks(s[1..]);
      assert s == [s[0]] + s[1..];
      EscapeGuarded(s[0]);
      GuardedJoin(EscapeChar(s[0]), Escape(s[1..]));
    }
  }

  lemma EscapeGuarded(c: char)
    requires c != '\0'
    ensures Guarded(EscapeChar(c))
  {
    hide EscapeChar;
    PrintedMarkExact(c);
    if EscapeChar(c)[0] != '\\' {
      assert EscapeChar(c)[1..] == "";
    }
  }

  function PrintedLiteral(s: string): Literal {
    Literal(PrintedMarks(s), Escape(s))
  }

  lemma {:induction false} TextOfNulFree(s: string)
    requires NulFree(s)
    ensures Text(s) == s
  {
    if s != "" {
      TextOfNulFree(s[1..]);
      assert s == [s[0]] + s[1..];
    }
  }

  lemma PrintedLiteralExact(s: string)
    requires NulFree(s)
    ensures ValidLiteral(PrintedLiteral(s)) && LiteralText(PrintedLiteral(s)) == Quote(s)
    ensures LiteralString(PrintedLiteral(s)) == s
  {
    PrintedMarksExact(s);
    TextOfNulFree(s);
  }

  /** Quoting undone: parse_string gives back every string print_string_ptr was given. */
  lemma QuoteParses(s: string, content: string, offset: nat)
    requires NulFree(s) && LiteralAt(content, offset, Quote(s))
    ensures CharAt(content, offset, '\"')
    ensures ParseString(content, offset) == Ok(s, offset + |Quote(s)|)
  {
    PrintedLiteralExact(s);
    LiteralParses(PrintedLiteral(s), content, offset);
  }

  // ---- values ----

  /** The spelling the printer chooses at an indentation. */
  function Printed(t: Json, fmt: bool, level: nat): Spelled
    requires Plain(t)
    decreases t, 1
  {
    match t
    case Null => Word("null")
    case False => Word("false")
    case True => Word("true")
    case Number(n) => Numeric(n < 0, Decimal(if n < 0 then -n else n))
    case String(s) => Quoted(PrintedLiteral(s))
    case Array(items) => Bracketed("", PrintedItems(items, "", fmt, level + 1))
    case Object(ms) => Braced(if ms == [] then Line(fmt, level) else "", PrintedFields(ms, fmt, level + 1))
  }

  /** A new line, indented. */
  function Line(fmt: bool, level: nat): string {
    if fmt then "\n" + Tabs(level) else ""
  }

  function PrintedItems(items: seq<Json>, lead: string, fmt: bool, level: nat): seq<Item>
    requires PlainItems(items)
    decreases items, 0
  {
    if items == [] then []
    else [Item(lead, Printed(items[0], fmt, level), "")] + PrintedItems(items[1..], if fmt then " " else "", fmt, level)
  }

  function PrintedFields(ms: seq<Member>, fmt: bool, level: nat): seq<Field>
    requires PlainMembers(ms) && level > 0
    decreases ms, 0
  {
    if ms == [] then []
    else
      [Field(Line(fmt, level), PrintedLiteral(ms[0].key), "", if fmt then "\t" else "", Printed(ms[0].value, fmt, level),
             if |ms| == 1 then Line(fmt, level - 1) else "")]
      + PrintedFields(ms[1..], fmt, level)
  }

  lemma LineBlank(fmt: bool, level: nat)
    ensures Blanks(Line(fmt, level))
  {
  }

  lemma SignedDigits(n: int)
    requires INT_MIN <= n <= INT_MAX
    ensures var magnitude := if n < 0 then -n else n;
            && Digits(Decimal(magnitude)) && Clamped(n < 0, Numeral(Decimal(magnitude))) == n
            && Signed(n) == (if n < 0 then "-" else "") + Decimal(magnitude)
  {
    DecimalNumeral(if n < 0 then -n else n);
  }

  /** It is a spelling of the tree, and what is printed is its text. */
  lemma {:induction false} PrintedExact(t: Json, fmt: bool, level: nat)
    requires Plain(t)
    ensures var d := Printed(t, fmt, level); Valid(d) && Tree(d) == t && Written(d) == Render(t, fmt, level)
    decreases t, 1
  {
    hide Escape, PrintedLiteral, PrintedItems, PrintedFields, ItemsWritten, FieldsWritten, ValidItems, ValidFields,
         ItemTrees, FieldTrees, RenderItems, RenderMembers, Clamped, Numeral, ValidLiteral, LiteralString, LiteralText, Quote;
    match t
    case Number(n) => SignedDigits(n);
    case String(s) => PrintedLiteralExact(s);
    case Array(items) => PrintedItemsExact(items, "", fmt, level + 1);
    case Object(ms) => PrintedObject(ms, fmt, level);
    case _ =>
  }

  /** An element as it is printed: the blank behind the comma belongs to the next one. */
  lemma PrintedItem(t: Json, lead: string, more: bool, fmt: bool, level: nat)
    requires Plain(t) && Written(Printed(t, fmt, level)) == Render(t, fmt, level)
    ensures ItemWritten(Item(lead, Printed(t, fmt, level), ""), more) + (if more && fmt then " " else "")
            == lead + ItemText(t, more, fmt, level)
  {
    hide Printed, Render, Written;
    if more && fmt {
      assert "," + " " == ", ";
    }
    Separated(lead, Render(t, fmt, level), Comma(more), if more && fmt then " " else "");
  }

  lemma Separated(lead: string, text: string, comma: string, blank: string)
    ensures lead + text + ("" + comma) + blank == lead + (text + (comma + blank))
  {
  }

  lemma {:induction false} PrintedItemsExact(items: seq<Json>, lead: string, fmt: bool, level: nat)
    requires PlainItems(items) && Blanks(lead)
    ensures var ds := PrintedItems(items, lead, fmt, level);
            && |ds| == |items| && ValidItems(ds) && ItemTrees(ds) == items
            && (items != [] ==> ItemsWritten(ds) == lead + RenderItems(items, fmt, level))
            && (items == [] ==> ItemsWritten(ds) == "" && RenderItems(items, fmt, level) == "")
    decreases items, 0
  {
    hide Printed, Render, Valid, Tree, Written, ItemWritten, ItemText;
    if items != [] {
      var blank := if fmt then " " else "";
      var ds, rest := PrintedItems(items, lead, fmt, level), PrintedItems(items[1..], blank, fmt, level);
      PrintedExact(items[0], fmt, level);
      PrintedItemsExact(items[1..], blank, fmt, level);
      assert ds[1..] == rest && ds[0] == Item(lead, Printed(items[0], fmt, level), "");
      assert items == [items[0]] + items[1..];
      PrintedItem(items[0], lead, |items| > 1, fmt, level);
      Follows(ItemWritten(ds[0], |items| > 1), if |items| > 1 then blank else "", lead,
              ItemText(items[0], |items| > 1, fmt, level), RenderItems(items[1..], fmt, level));
    }
  }

  lemma Follows(item: string, blank: string, lead: string, text: string, rest: string)
    requires item + blank == lead + text
    ensures item + (blank + rest) == lead + (text + rest)
  {
    assert item + (blank + rest) == item + blank + rest;
    assert lead + (text + rest) == lead + text + rest;
  }

  lemma {:induction false} PrintedObject(ms: seq<Member>, fmt: bool, level: nat)
    requires PlainMembers(ms)
    ensures var d := Printed(Object(ms), fmt, level);
            Valid(d) && Tree(d) == Object(ms) && Written(d) == Render(Object(ms), fmt, level)
    decreases ms, 1
  {
    hide PrintedFields, FieldsWritten, ValidFields, FieldTrees, RenderMembers;
    LineBlank(fmt, level);
    PrintedFieldsExact(ms, fmt, level + 1);
    var all := RenderMembers(ms, fmt, level + 1);
    if ms == [] {
      NoItems();
    }
    if fmt {
      assert "{" + ("" + ("\n" + all + Tabs(level))) + "}" == "{\n" + all + (Tabs(level) + "}");
    } else {
      assert "{" + ("" + all) + "}" == "{" + all + "}";
    }
  }

  /** A member as a field: the line break behind it belongs to what follows, and one is in front. */
  lemma PrintedField(m: Member, more: bool, fmt: bool, level: nat)
    requires NulFree(m.key) && Plain(m.value) && level > 0
    requires Written(Printed(m.value, fmt, level)) == Render(m.value, fmt, level)
    ensures var f := Field(Line(fmt, level), PrintedLiteral(m.key), "", if fmt then "\t" else "",
                           Printed(m.value, fmt, level), if more then "" else Line(fmt, level - 1));
            var text, member := FieldWritten(f, more), MemberText(m, more, fmt, level);
            && (!fmt ==> text == member)
            && (fmt && more ==> text + "\n" == "\n" + member)
            && (fmt && !more ==> text == "\n" + member + Tabs(level - 1))
  {
    hide Printed, Render, Written, PrintedLiteral, Quote, LiteralText, Tabs;
    PrintedLiteralExact(m.key);
    var key, value := Quote(m.key), Render(m.value, fmt, level);
    if fmt {
      FormattedField(Tabs(level), key, value, Tabs(level - 1));
    } else {
      PlainField(key, value, Comma(more));
    }
  }

  lemma PlainField(key: string, value: string, comma: string)
    ensures "" + key + ("" + ":" + "") + value + ("" + comma) == "" + key + ":" + (value + (comma + ""))
  {
  }

  lemma FormattedField(tabs: string, key: string, value: string, outer: string)
    ensures "\n" + tabs + key + ("" + ":" + "\t") + value + ("" + ",") + "\n"
            == "\n" + (tabs + key + ":\t" + (value + ("," + "\n")))
    ensures "\n" + tabs + key + ("" + ":" + "\t") + value + ("\n" + outer + "")
            == "\n" + (tabs + key + ":\t" + (value + ("" + "\n"))) + outer
  {
    assert ("" + ":" + "\t") == ":\t";
  }

  lemma {:induction false} PrintedFieldsExact(ms: seq<Member>, fmt: bool, level: nat)
    requires PlainMembers(ms) && level > 0
    ensures var ds, text := PrintedFields(ms, fmt, level), RenderMembers(ms, fmt, level);
            && |ds| == |ms| && ValidFields(ds) && FieldTrees(ds) == ms
            && (ms == [] ==> text == "")
            && (ms != [] ==> FieldsWritten(ds) == if fmt then "\n" + text + Tabs(level - 1) else text)
    decreases ms, 0
  {
    hide Printed, Render, Valid, Tree, Written, PrintedLiteral, ValidLiteral, LiteralString, LiteralText, Quote, FieldWritten,
         MemberText, Tabs, Line;
    if ms != [] {
      var ds, rest := PrintedFields(ms, fmt, level), PrintedFields(ms[1..], fmt, level);
      PrintedExact(ms[0].value, fmt, level);
      PrintedLiteralExact(ms[0].key);
      PrintedFieldsExact(ms[1..], fmt, level);
      LineBlank(fmt, level);
      LineBlank(fmt, level - 1);
      assert ds[1..] == rest;
      assert ms == [ms[0]] + ms[1..];
      PrintedField(ms[0], |ms| > 1, fmt, level);
      MemberLines(FieldWritten(ds[0], |ms| > 1), RenderMembers(ms[1..], fmt, level), Tabs(level - 1));
    }
  }

  lemma MemberLines(text: string, rest: string, tabs: string)
    ensures text + ("\n" + rest + tabs) == text + "\n" + rest + tabs
    ensures text + "" == text
  {
  }

  /** The first character of a text: no blank, and no closing bracket. */
  lemma PrintedStarts(t: Json, fmt: bool, level: nat)
    requires Plain(t)
    ensures var text := Render(t, fmt, level);
            text != "" && text[0] as int > 32 && text[0] != ']' && text[0] != '}'
  {
    hide Written, Valid, Render, Printed;
    PrintedExact(t, fmt, level);
    var text := Render(t, fmt, level);
    assert LiteralAt(text, 0, text);
    ValueStarts(Printed(t, fmt, level), text, 0);
  }

  // ---- the theorem ----

  /** In any surroundings the text of a tree is read back, to its end, exactly when it is not nested
      too deeply. */
  lemma ValueParses(t: Json, fmt: bool, level: nat, content: string, offset: nat, depth: nat)
    requires Plain(t) && LiteralAt(content, offset, Render(t, fmt, level)) && depth <= NESTING_LIMIT
    requires t.Number? ==> Stops(content, offset + |Render(t, fmt, level)|)
    ensures ParseValue(content, offset, depth) == Expected(t, depth, offset + |Render(t, fmt, level)|)
  {
    hide ParseValue, Written, Tree, Valid, LiteralAt, Render, Stops;
    PrintedExact(t, fmt, level);
    SpelledParses(Printed(t, fmt, level), content, offset, depth);
  }

  /** Parsing what cJSON_Print or cJSON_PrintUnformatted wrote gives the tree back, to the end of
      the text, exactly when its arrays and objects are nested at most NESTING_LIMIT deep. */
  lemma PrintThenParse(t: Json, fmt: bool, requireNullTerminated: bool)
    requires Plain(t)
    ensures ParseWithOpts(Render(t, fmt, 0), requireNullTerminated) ==
            if Nesting(t) <= NESTING_LIMIT then Ok(t, |Render(t, fmt, 0)|) else Fail
  {
    hide Written, Tree, Valid, Render, ParseValue, SkipWhitespace, SkipBom, Nesting;
    PrintedExact(t, fmt, 0);
    var text := Render(t, fmt, 0);
    assert "" + "" + text + "" == text;
    WholeParses(text, "", "", Printed(t, fmt, 0), "");
  }
}
