/** The texts of RFC 8259 among the spellings: all are parsed, and none is shorter than the
    unformatted text. */
module ShortestText {
  import opened CString
  import opened JsonTree
  import opened JsonText
  import opened JsonParse
  import opened Spelling
  import opened ParseExact
  import opened PrintParse

  // ---- the grammar of RFC 8259, numbers without fraction and exponent ----

  predicate HexNumber(hex: string) {
    |hex| == 4 && forall i :: 0 <= i < 4 ==> Nibble(hex[i]).Some?
  }

  predicate StrictMark(m: Mark) {
    && ValidMark(m)
    && match m
       case Bare(c) => c >= ' ' && c != '\"'
       case CodeUnit(hex) => HexNumber(hex)
       case SurrogatePair(high, low) => HexNumber(high) && HexNumber(low)
       case _ => true
  }

  predicate StrictMarks(marks: seq<Mark>) {
    forall i :: 0 <= i < |marks| ==> StrictMark(marks[i])
  }

  predicate StrictLiteral(l: Literal) {
    StrictMarks(l.marks) && l.body == MarksText(l.marks)
  }

  predicate StrictBlanks(s: string) {
    forall i :: 0 <= i < |s| ==> s[i] in " \t\n\r"
  }

  predicate Strict(d: Spelled)
    decreases d, 1
  {
    match d
    case Word(word) => word == "null" || word == "false" || word == "true"
    case Numeric(_, digits) => digits != "" && Digits(digits) && (digits[0] == '0' ==> |digits| == 1)
    case Quoted(literal) => StrictLiteral(literal)
    case Bracketed(inside, items) => StrictBlanks(inside) && (items == [] || inside == "") && StrictItems(items)
    case Braced(inside, fields) => StrictBlanks(inside) && (fields == [] || inside == "") && StrictFields(fields)
  }

  predicate StrictItems(items: seq<Item>)
    decreases items, 0
  {
    items == [] ||
    (StrictBlanks(items[0].before) && Strict(items[0].value) && StrictBlanks(items[0].after) && StrictItems(items[1..]))
  }

  predicate StrictFields(fields: seq<Field>)
    decreases fields, 0
  {
    fields == [] ||
    (StrictName(fields[0]) && Strict(fields[0].value) && StrictBlanks(fields[0].after) && StrictFields(fields[1..]))
  }

  predicate StrictName(f: Field) {
    StrictBlanks(f.before) && StrictLiteral(f.name) && StrictBlanks(f.between) && StrictBlanks(f.gap)
  }

  // ---- every such text is parsed ----

  lemma HexGuarded(hex: string)
    requires HexNumber(hex)
    ensures Guarded(hex) && Guarded("\\u" + hex)
  {
    assert hex[1..][1..] == hex[2..] && hex[2..][1..] == hex[3..] && hex[3..][1..] == "";
    assert Guarded(hex[3..]) && Guarded(hex[2..]) && Guarded(hex[1..]);
    assert ("\\u" + hex)[2..] == hex;
  }

  lemma StrictGuarded(m: Mark)
    requires StrictMark(m)
    ensures Guarded(MarkText(m))
  {
    match m
    case CodeUnit(hex) => HexGuarded(hex);
    case SurrogatePair(high, low) =>
      HexGuarded(high);
      HexGuarded(low);
      GuardedJoin("\\u" + high, "\\u" + low);
      assert "\\u" + high + ("\\u" + low) == MarkText(m);
    case _ =>
  }

  lemma {:induction false} StrictBody(marks: seq<Mark>)
    requires StrictMarks(marks)
    ensures ValidMarks(marks) && Guarded(MarksText(marks))
  {
    hide StrictMark, MarkText;
    if marks != [] {
      StrictGuarded(marks[0]);
      StrictBody(marks[1..]);
      GuardedJoin(MarkText(marks[0]), MarksText(marks[1..]));
    }
    forall i | 0 <= i < |marks|
      ensures ValidMark(marks[i])
    {
      StrictMarkValid(marks[i]);
    }
  }

  lemma StrictMarkValid(m: Mark)
    requires StrictMark(m)
    ensures ValidMark(m)
  {
  }

  lemma {:induction false} StrictIsValid(d: Spelled)
    requires Strict(d)
    ensures Valid(d)
    decreases d, 1
  {
    hide StrictLiteral, ValidLiteral;
    match d
    case Quoted(literal) => StrictLiteralValid(literal);
    case Bracketed(_, items) => StrictItemsValid(items);
    case Braced(_, fields) => StrictFieldsValid(fields);
    case _ =>
  }

  lemma StrictLiteralValid(l: Literal)
    requires StrictLiteral(l)
    ensures ValidLiteral(l)
  {
    StrictBody(l.marks);
  }

  lemma {:induction false} StrictItemsValid(items: seq<Item>)
    requires StrictItems(items)
    ensures ValidItems(items)
    decreases items, 0
  {
    if items != [] {
      StrictIsValid(items[0].value);
      StrictItemsValid(items[1..]);
    }
  }

  lemma {:induction false} StrictFieldsValid(fields: seq<Field>)
    requires StrictFields(fields)
    ensures ValidFields(fields)
    decreases fields, 0
  {
    if fields != [] {
      StrictLiteralValid(fields[0].name);
      StrictIsValid(fields[0].value);
      StrictFieldsValid(fields[1..]);
    }
  }

  /** Every text of RFC 8259 is parsed to its tree, to its end, unless it is nested too deeply. */
  lemma RfcTextParses(before: string, d: Spelled, after: string, requireNullTerminated: bool)
    requires StrictBlanks(before) && Strict(d) && StrictBlanks(after)
    ensures Valid(d)
    ensures var text := before + Written(d) + after;
            ParseWithOpts(text, requireNullTerminated) ==
            if Nesting(Tree(d)) > NESTING_LIMIT then Fail
            else Ok(Tree(d), if requireNullTerminated then |text| else |before + Written(d)|)
  {
    hide Strict, Valid, Written, Tree, ParseWithOpts, Nesting;
    StrictIsValid(d);
    assert "" + before + Written(d) + after == before + Written(d) + after && "" + before == before;
    WholeParses(before + Written(d) + after, "", before, d, after);
  }

  // ---- none is shorter ----

  lemma EscapeJoin(a: string, b: string)
    ensures Escape(a + b) == Escape(a) + Escape(b)
  {
    EscapeSplit(a + b, |a|);
    assert (a + b)[..|a|] == a && (a + b)[|a|..] == b;
  }

  lemma {:induction false} TextIsShorter(s: string)
    ensures |Escape(Text(s))| <= |Escape(s)|
  {
    if s != "" && s[0] != '\0' {
      TextIsShorter(s[1..]);
      assert Text(s)[1..] == Text(s[1..]);
    }
  }

  lemma {:induction false} HighBytes(s: string)
    requires forall i :: 0 <= i < |s| ==> s[i] as int >= 0x80
    ensures |Escape(s)| == |s|
  {
    if s != "" {
      HighBytes(s[1..]);
    }
  }

  lemma Utf8Escape(codepoint: nat)
    requires codepoint <= 0x10FFFF
    ensures |Escape(Utf8(codepoint))| <= 6
  {
    if codepoint < 0x80 {
      assert Utf8(codepoint)[1..] == "";
      EscapeLength(Utf8(codepoint));
    } else {
      HighBytes(Utf8(codepoint));
    }
  }

  lemma EscapeLength(s: string)
    requires |s| == 1
    ensures Escape(s) == EscapeChar(s[0])
  {
    assert s[1..] == "";
  }

  lemma NamedEscape(letter: char)
    requires letter in NAMED
    ensures |EscapeChar(NAMED[letter])| <= 2
  {
  }

  /** No spelling of a character is shorter than the printed one. */
  lemma MarkIsLonger(m: Mark)
    requires StrictMark(m)
    ensures |Escape(MarkBytes(m))| <= |MarkText(m)|
  {
    hide Utf8, ParseHex4;
    match m
    case Bare(c) => EscapeLength([c]);
    case Named(letter) =>
      NamedEscape(letter);
      EscapeLength([NAMED[letter]]);
    case CodeUnit(hex) => Utf8Escape(ParseHex4(hex, 0));
    case SurrogatePair(high, low) =>
      Utf8Escape(0x10000 + (ParseHex4(high, 0) - 0xD800) * 0x400 + (ParseHex4(low, 0) - 0xDC00));
  }

  lemma {:induction false} MarksAreLonger(marks: seq<Mark>)
    requires StrictMarks(marks) && ValidMarks(marks)
    ensures |Escape(MarksBytes(marks))| <= |MarksText(marks)|
  {
    hide StrictMark, MarkText, MarkBytes, ValidMark;
    if marks != [] {
      MarkIsLonger(marks[0]);
      MarksAreLonger(marks[1..]);
      EscapeJoin(MarkBytes(marks[0]), MarksBytes(marks[1..]));
    }
  }

  lemma LiteralIsLonger(l: Literal)
    requires StrictLiteral(l) && ValidLiteral(l)
    ensures |Quote(LiteralString(l))| <= |LiteralText(l)|
  {
    MarksAreLonger(l.marks);
    TextIsShorter(MarksBytes(l.marks));
  }

  lemma {:induction false} DecimalLonger(a: nat, b: nat)
    requires a <= b
    ensures |Decimal(a)| <= |Decimal(b)|
  {
    if a >= 10 {
      DecimalLonger(a / 10, b / 10);
    }
  }

  lemma {:induction false} NumeralLonger(digits: string)
    requires digits != "" && Digits(digits)
    ensures |Decimal(Numeral(digits))| <= |digits|
  {
    var n := |digits| - 1;
    var d: nat := digits[n] as int - '0' as int;
    if n > 0 {
      NumeralLonger(digits[..n]);
      assert (10 * Numeral(digits[..n]) + d) / 10 == Numeral(digits[..n]);
    } else {
      assert digits[..n] == "";
    }
  }

  lemma NumberIsLonger(negative: bool, digits: string)
    requires digits != "" && Digits(digits)
    ensures |Signed(Clamped(negative, Numeral(digits)))| <= |Written(Numeric(negative, digits))|
  {
    hide Decimal;
    var m := Numeral(digits);
    var n := Clamped(negative, m);
    NumeralLonger(digits);
    DecimalLonger(if n < 0 then -n else n, m);
  }

  /** cJSON_PrintUnformatted writes the shortest text of RFC 8259 there is for the tree. */
  lemma {:induction false} UnformattedIsShortest(d: Spelled)
    requires Strict(d)
    ensures Valid(d) && |Render(Tree(d), false, 0)| <= |Written(d)|
  {
    StrictIsValid(d);
    TextIsLonger(d, 0);
  }

  lemma {:induction false} TextIsLonger(d: Spelled, level: nat)
    requires Strict(d) && Valid(d)
    ensures |Render(Tree(d), false, level)| <= |Written(d)|
    decreases d, 1
  {
    hide StrictLiteral, ValidLiteral, LiteralString, Clamped, Numeral, Signed;
    match d
    case Word(_) =>
    case Numeric(negative, digits) => NumberIsLonger(negative, digits);
    case Quoted(literal) => LiteralIsLonger(literal);
    case Bracketed(_, items) => ItemsAreLonger(items, level + 1);
    case Braced(_, fields) => FieldsAreLonger(fields, level + 1);
  }

  lemma {:induction false} ItemsAreLonger(items: seq<Item>, level: nat)
    requires StrictItems(items) && ValidItems(items)
    ensures |ItemTrees(items)| == |items| && |RenderItems(ItemTrees(items), false, level)| <= |ItemsWritten(items)|
    decreases items, 0
  {
    hide Render, Written, Strict, Valid, Tree;
    if items != [] {
      TextIsLonger(items[0].value, level);
      ItemsAreLonger(items[1..], level);
      assert ItemTrees(items)[1..] == ItemTrees(items[1..]);
    }
  }

  lemma {:induction false} FieldsAreLonger(fields: seq<Field>, level: nat)
    requires StrictFields(fields) && ValidFields(fields)
    ensures |FieldTrees(fields)| == |fields| && |RenderMembers(FieldTrees(fields), false, level)| <= |FieldsWritten(fields)|
    decreases fields, 0
  {
    hide Render, Written, Strict, Valid, Tree, LiteralText, Quote, LiteralString, StrictLiteral, ValidLiteral;
    if fields != [] {
      LiteralIsLonger(fields[0].name);
      TextIsLonger(fields[0].value, level);
      FieldsAreLonger(fields[1..], level);
      assert FieldTrees(fields)[1..] == FieldTrees(fields[1..]);
    }
  }

  /** The escapes of a literal are written in lower case. */
  lemma {:induction false} NoUpperCaseEscapes(s: string, i: nat)
    requires i < |Escape(s)| && 'A' <= Escape(s)[i] <= 'Z'
    ensures Escape(s)[i] in s
  {
    hide EscapeChar;
    var n := |EscapeChar(s[0])|;
    assert s == [s[0]] + s[1..];
    if i < n {
      assert Escape(s)[i] == EscapeChar(s[0])[i];
      LowerCase(s[0], i);
    } else {
      NoUpperCaseEscapes(s[1..], i - n);
    }
  }

  lemma LowerCase(c: char, i: nat)
    requires i < |EscapeChar(c)| && 'A' <= EscapeChar(c)[i] <= 'Z'
    ensures EscapeChar(c)[i] == c
  {
  }

  // ---- what is printed is such a text ----

  lemma PrintedMarkStrict(c: char)
    requires c != '\0'
    ensures StrictMark(PrintedMark(c))
  {
    PrintedMarkExact(c);
    if PrintedMark(c).CodeUnit? {
      HexNibble(c as int / 16);
      HexNibble(c as int % 16);
    }
  }

  lemma {:induction false} PrintedMarksStrict(s: string)
    requires NulFree(s)
    ensures StrictMarks(PrintedMarks(s)) && StrictLiteral(PrintedLiteral(s))
  {
    hide PrintedMark, StrictMark;
    PrintedMarksExact(s);
    if s != "" {
      PrintedMarkStrict(s[0]);
      PrintedMarksStrict(s[1..]);
    }
  }

  lemma LineStrict(fmt: bool, level: nat)
    ensures StrictBlanks(Line(fmt, level)) && StrictBlanks("") && StrictBlanks(" ") && StrictBlanks("\t")
  {
  }

  /** Both forms of printing write texts of RFC 8259. */
  lemma {:induction false} PrintedIsStrict(t: Json, fmt: bool, level: nat)
    requires Plain(t)
    ensures Strict(Printed(t, fmt, level))
    decreases t, 1
  {
    hide PrintedLiteral, StrictLiteral, Line, StrictBlanks, PrintedItems, PrintedFields;
    LineStrict(fmt, level);
    match t
    case String(s) => PrintedMarksStrict(s);
    case Array(items) => PrintedItemsStrict(items, "", fmt, level + 1);
    case Object(ms) => PrintedFieldsStrict(ms, fmt, level + 1);
    case _ =>
  }

  lemma {:induction false} PrintedItemsStrict(items: seq<Json>, lead: string, fmt: bool, level: nat)
    requires PlainItems(items) && StrictBlanks(lead)
    ensures StrictItems(PrintedItems(items, lead, fmt, level))
    decreases items, 0
  {
    hide Printed, Strict, StrictBlanks;
    LineStrict(fmt, level);
    if items != [] {
      PrintedIsStrict(items[0], fmt, level);
      PrintedItemsStrict(items[1..], if fmt then " " else "", fmt, level);
      var ds := PrintedItems(items, lead, fmt, level);
      assert ds[1..] == PrintedItems(items[1..], if fmt then " " else "", fmt, level);
    }
  }

  lemma {:induction false} PrintedFieldsStrict(ms: seq<Member>, fmt: bool, level: nat)
    requires PlainMembers(ms) && level > 0
    ensures StrictFields(PrintedFields(ms, fmt, level)) && (PrintedFields(ms, fmt, level) == [] <==> ms == [])
    decreases ms, 0
  {
    hide Printed, Strict, StrictBlanks, PrintedLiteral, StrictLiteral, Line;
    LineStrict(fmt, level);
    LineStrict(fmt, level - 1);
    if ms != [] {
      PrintedMarksStrict(ms[0].key);
      PrintedIsStrict(ms[0].value, fmt, level);
      PrintedFieldsStrict(ms[1..], fmt, level);
      var ds := PrintedFields(ms, fmt, level);
      assert ds[1..] == PrintedFields(ms[1..], fmt, level);
    }
  }
}
