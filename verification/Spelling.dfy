/** How JSON text may be written: a grammar with every liberty the parser of cJSON.c leaves, and the
    tree each text stands for. */
module Spelling {
  import opened CString
  import opened JsonTree
  import opened JsonText
  import opened JsonParse

  // ---- strings ----

  /** One character of a literal as it is written. */
  datatype Mark =
    | Bare(c: char)
    | Named(letter: char)
    | CodeUnit(hex: string)
    | SurrogatePair(high: string, low: string)

  function MarkText(m: Mark): (s: string)
    ensures |s| > 0
  {
    match m
    case Bare(c) => [c]
    case Named(letter) => ['\\', letter]
    case CodeUnit(hex) => "\\u" + hex
    case SurrogatePair(high, low) => "\\u" + high + "\\u" + low
  }

  /** Section 7 of RFC 8259: the letters behind a backslash, and what they stand for. */
  const NAMED: map<char, char> :=
    map['\"' := '\"', '\\' := '\\', '/' := '/', 'b' := 8 as char, 'f' := 12 as char,
        'n' := 10 as char, 'r' := 13 as char, 't' := 9 as char]

  lemma HexNibble(d: nat)
    requires d < 16
    ensures Nibble(HexDigit(d)) == Some(d)
  {
  }

  predicate Surrogate(unit: nat) {
    0xD800 <= unit <= 0xDFFF
  }

  /** A mark the parser accepts. Four characters that are no hexadecimal number stand for 0. */
  predicate ValidMark(m: Mark) {
    match m
    case Bare(c) => c != '\\'
    case Named(letter) => letter in NAMED
    case CodeUnit(hex) => |hex| == 4 && !Surrogate(ParseHex4(hex, 0))
    case SurrogatePair(high, low) =>
      |high| == |low| == 4 && 0xD800 <= ParseHex4(high, 0) < 0xDC00 <= ParseHex4(low, 0) < 0xE000
  }

  /** The bytes a mark stands for. */
  function MarkBytes(m: Mark): string
    requires ValidMark(m)
  {
    match m
    case Bare(c) => [c]
    case Named(letter) => [NAMED[letter]]
    case CodeUnit(hex) => Utf8(ParseHex4(hex, 0))
    case SurrogatePair(high, low) => Utf8(0x10000 + (ParseHex4(high, 0) - 0xD800) * 0x400 + (ParseHex4(low, 0) - 0xDC00))
  }

  function MarksText(marks: seq<Mark>): string {
    if marks == [] then "" else MarkText(marks[0]) + MarksText(marks[1..])
  }

  predicate ValidMarks(marks: seq<Mark>) {
    forall i :: 0 <= i < |marks| ==> ValidMark(marks[i])
  }

  function MarksBytes(marks: seq<Mark>): string
    requires ValidMarks(marks)
  {
    if marks == [] then "" else MarkBytes(marks[0]) + MarksBytes(marks[1..])
  }

  /** Every quote is behind a backslash, and no backslash comes last. */
  predicate Guarded(body: string) {
    body == "" ||
    (if body[0] == '\\' then |body| > 1 && Guarded(body[2..]) else body[0] != '\"' && Guarded(body[1..]))
  }

  /** What stands between two quotes. */
  datatype Literal = Literal(marks: seq<Mark>, body: string)

  /** The marks make up the body. Behind a malformed unit the last of them may be an escaped quote
      that reaches over the closing one. */
  predicate ValidLiteral(l: Literal) {
    && ValidMarks(l.marks) && Guarded(l.body)
    && (l.body == MarksText(l.marks) || Overrun(l))
  }

  predicate Overrun(l: Literal) {
    l.marks != [] && l.marks[|l.marks| - 1] == Named('\"') && l.body + "\"" == MarksText(l.marks)
  }

  function LiteralText(l: Literal): string {
    "\"" + l.body + "\""
  }

  /** The string as C holds it: up to the first NUL. */
  function LiteralString(l: Literal): string
    requires ValidLiteral(l)
  {
    Text(MarksBytes(l.marks))
  }

  /** A malformed unit takes in a backslash, and the quote behind the next one is the closing quote.
      The NUL it stands for hides what follows. */
  lemma MalformedUnit()
    ensures var l := Literal([CodeUnit("123\\"), Named('\"')], "\\u123\\\\");
            ValidLiteral(l) && Overrun(l) && LiteralString(l) == ""
  {
    var first, last := CodeUnit("123\\"), Named('\"');
    var l := Literal([first, last], "\\u123\\\\");
    assert ParseHex4("123\\", 0) == 0;
    assert ValidMark(first) && ValidMark(last);
    assert l.marks[1..] == [last] && [last][1..] == [];
    assert MarksText([last]) == MarkText(last) + MarksText([]);
    assert MarksText(l.marks) == "\\u123\\" + "\\\"" == l.body + "\"";
    var b := l.body;
    assert b[2..] == "123\\\\" && b[2..][1..] == "23\\\\" && b[2..][1..][1..] == "3\\\\" && b[2..][1..][1..][1..] == "\\\\";
    assert Guarded("\\\\") && Guarded("3\\\\") && Guarded("23\\\\") && Guarded("123\\\\");
    assert MarksBytes(l.marks) == MarkBytes(first) + MarksBytes([last]);
    assert MarkBytes(first)[0] == '\0';
  }

  // ---- values ----

  datatype Spelled =
    | Word(word: string)
    | Numeric(negative: bool, digits: string)
    | Quoted(literal: Literal)
    | Bracketed(inside: string, items: seq<Item>)
    | Braced(inside: string, fields: seq<Field>)

  /** Blanks around an element. */
  datatype Item = Item(before: string, value: Spelled, after: string)

  /** Blanks around the name, around the value. */
  datatype Field = Field(before: string, name: Literal, between: string, gap: string, value: Spelled, after: string)

  /** What the parser skips: the blanks of RFC 8259 and every other control character. */
  predicate Blanks(s: string) {
    forall i :: 0 <= i < |s| ==> s[i] as int <= 32
  }

  function Written(d: Spelled): string
    decreases d, 1
  {
    match d
    case Word(word) => word
    case Numeric(negative, digits) => (if negative then "-" else "") + digits
    case Quoted(literal) => LiteralText(literal)
    case Bracketed(inside, items) => "[" + (inside + ItemsWritten(items)) + "]"
    case Braced(inside, fields) => "{" + (inside + FieldsWritten(fields)) + "}"
  }

  function ItemsWritten(items: seq<Item>): string
    decreases items, 0
  {
    if items == [] then "" else ItemWritten(items[0], |items| > 1) + ItemsWritten(items[1..])
  }

  function ItemWritten(item: Item, more: bool): string
    decreases item, 2
  {
    item.before + Written(item.value) + (item.after + Comma(more))
  }

  function Comma(more: bool): string {
    if more then "," else ""
  }

  function FieldsWritten(fields: seq<Field>): string
    decreases fields, 0
  {
    if fields == [] then "" else FieldWritten(fields[0], |fields| > 1) + FieldsWritten(fields[1..])
  }

  function FieldWritten(f: Field, more: bool): string
    decreases f, 2
  {
    NameWritten(f) + Written(f.value) + (f.after + Comma(more))
  }

  function NameWritten(f: Field): string {
    f.before + LiteralText(f.name) + (f.between + ":" + f.gap)
  }

  predicate Valid(d: Spelled)
    decreases d, 1
  {
    match d
    case Word(word) => word == "null" || word == "false" || word == "true"
    case Numeric(_, digits) => digits != "" && Digits(digits)
    case Quoted(literal) => ValidLiteral(literal)
    case Bracketed(inside, items) => Blanks(inside) && (items == [] || inside == "") && ValidItems(items)
    case Braced(inside, fields) => Blanks(inside) && (fields == [] || inside == "") && ValidFields(fields)
  }

  predicate ValidItems(items: seq<Item>)
    decreases items, 0
  {
    items == [] ||
    (Blanks(items[0].before) && Valid(items[0].value) && Blanks(items[0].after) && ValidItems(items[1..]))
  }

  predicate ValidFields(fields: seq<Field>)
    decreases fields, 0
  {
    fields == [] || (ValidName(fields[0]) && Valid(fields[0].value) && Blanks(fields[0].after) && ValidFields(fields[1..]))
  }

  predicate ValidName(f: Field) {
    Blanks(f.before) && ValidLiteral(f.name) && Blanks(f.between) && Blanks(f.gap)
  }

  /** A number outside the int range is held at the end of the range it lies beyond. */
  function Clamped(negative: bool, magnitude: nat): int {
    var m: int := magnitude;
    if negative then (if m > 0x8000_0000 then INT_MIN else -m) else if m > 0x7fff_ffff then INT_MAX else m
  }

  /** The tree a text stands for. */
  function Tree(d: Spelled): Json
    requires Valid(d)
    decreases d, 1
  {
    match d
    case Word(word) => if word == "null" then Null else if word == "false" then False else True
    case Numeric(negative, digits) => Number(Clamped(negative, Numeral(digits)))
    case Quoted(literal) => String(LiteralString(literal))
    case Bracketed(_, items) => Array(ItemTrees(items))
    case Braced(_, fields) => Object(FieldTrees(fields))
  }

  function ItemTrees(items: seq<Item>): seq<Json>
    requires ValidItems(items)
    decreases items, 0
  {
    if items == [] then [] else [Tree(items[0].value)] + ItemTrees(items[1..])
  }

  function FieldTrees(fields: seq<Field>): seq<Member>
    requires ValidFields(fields)
    decreases fields, 0
  {
    if fields == [] then []
    else [Member(LiteralString(fields[0].name), Tree(fields[0].value))] + FieldTrees(fields[1..])
  }

  // ---- the depth of a text ----

  function Nesting(t: Json): nat {
    match t
    case Array(items) => 1 + ItemsNesting(items)
    case Object(ms) => 1 + MembersNesting(ms)
    case _ => 0
  }

  function ItemsNesting(items: seq<Json>): nat {
    if items == [] then 0 else Max(Nesting(items[0]), ItemsNesting(items[1..]))
  }

  function MembersNesting(ms: seq<Member>): nat {
    if ms == [] then 0 else Max(Nesting(ms[0].value), MembersNesting(ms[1..]))
  }

  // ---- texts at an offset ----

  lemma Split(content: string, offset: nat, a: string, b: string)
    requires LiteralAt(content, offset, a + b)
    ensures LiteralAt(content, offset, a) && LiteralAt(content, offset + |a|, b)
  {
    forall i | 0 <= i < |a|
      ensures content[offset + i] == a[i]
    {
      Index(content, offset, a + b, i);
    }
    forall i | 0 <= i < |b|
      ensures content[offset + |a| + i] == b[i]
    {
      Index(content, offset, a + b, |a| + i);
    }
  }

  lemma Join(content: string, offset: nat, a: string, b: string)
    requires LiteralAt(content, offset, a) && LiteralAt(content, offset + |a|, b)
    ensures LiteralAt(content, offset, a + b)
  {
    forall i | 0 <= i < |a + b|
      ensures content[offset + i] == (a + b)[i]
    {
      if i < |a| {
        Index(content, offset, a, i);
      } else {
        Index(content, offset + |a|, b, i - |a|);
      }
    }
  }

  lemma Index(content: string, offset: nat, a: string, i: nat)
    requires LiteralAt(content, offset, a) && i < |a|
    ensures offset + i < |content| && content[offset + i] == a[i]
  {
  }

  lemma NotWord(content: string, offset: nat, word: string)
    requires offset < |content| && word != "" && content[offset] != word[0]
    ensures !LiteralAt(content, offset, word)
  {
    assert offset + 0 == offset;
  }

  lemma Split3(content: string, offset: nat, a: string, b: string, c: string)
    requires LiteralAt(content, offset, a + b + c)
    ensures LiteralAt(content, offset, a)
    ensures LiteralAt(content, offset + |a|, b)
    ensures LiteralAt(content, offset + |a| + |b|, c)
  {
    Split(content, offset, a + b, c);
    Split(content, offset, a, b);
  }

  lemma Join3(content: string, offset: nat, a: string, b: string, c: string)
    requires LiteralAt(content, offset, a)
    requires LiteralAt(content, offset + |a|, b)
    requires LiteralAt(content, offset + |a| + |b|, c)
    ensures LiteralAt(content, offset, a + b + c)
  {
    Join(content, offset, a, b);
    Join(content, offset, a + b, c);
  }

  lemma SliceAt(content: string, from: nat, to: nat)
    requires from <= to <= |content|
    ensures LiteralAt(content, from, content[from..to])
  {
  }

  predicate Blank(content: string, from: nat, to: nat) {
    to <= |content| && forall i :: from <= i < to ==> content[i] as int <= 32
  }

  lemma BlanksAt(content: string, from: nat, s: string)
    requires LiteralAt(content, from, s) && Blanks(s)
    ensures Blank(content, from, from + |s|)
  {
    forall i | from <= i < from + |s|
      ensures content[i] as int <= 32
    {
      Index(content, from, s, i - from);
    }
  }

  lemma Skips(content: string, from: nat, to: nat)
    requires from <= to < |content| && Blank(content, from, to) && content[to] as int > 32
    ensures SkipWhitespace(content, from) == to
  {
  }

  /** What is skipped in front of something else is blank. */
  lemma Skipped(content: string, from: nat) returns (s: string)
    requires from <= |content|
    requires SkipWhitespace(content, from) < |content| && content[SkipWhitespace(content, from)] as int > 32
    ensures Blanks(s) && LiteralAt(content, from, s) && from + |s| == SkipWhitespace(content, from)
  {
    var to := SkipWhitespace(content, from);
    s := content[from..to];
  }
}
