/** The parser of cJSON.c accepts exactly the texts of the grammar, and gives the trees they stand for. */
module ParseExact {
  import opened CString
  import opened JsonTree
  import opened JsonText
  import opened JsonParse
  import opened Spelling

  // ---- strings ----

  /** Digits of either case. */
  lemma NibbleExact(c: char, d: nat)
    requires d < 16
    ensures Nibble(c) == Some(d) <==> c == "0123456789abcdef"[d] || c == "0123456789ABCDEF"[d]
  {
  }

  lemma HexAt(content: string, at: nat, hex: string)
    requires |hex| == 4 && LiteralAt(content, at, hex)
    ensures ParseHex4(content, at) == ParseHex4(hex, 0)
  {
    hide Nibble;
    Index(content, at, hex, 0);
    Index(content, at, hex, 1);
    Index(content, at, hex, 2);
    Index(content, at, hex, 3);
  }

  lemma UnitDecodes(hex: string, content: string, pos: nat, end: nat)
    requires ValidMark(CodeUnit(hex)) && LiteralAt(content, pos, "\\u" + hex) && pos + 6 <= end < |content|
    ensures DecodeStep(content, pos, end) == Some((Utf8(ParseHex4(hex, 0)), pos + 6))
  {
    hide ParseHex4, Utf8;
    Split(content, pos, "\\u", hex);
    Index(content, pos, "\\u", 0);
    Index(content, pos, "\\u", 1);
    HexAt(content, pos + 2, hex);
  }

  lemma PairValue(high: nat, low: nat)
    requires 0xD800 <= high < 0xDC00 <= low < 0xE000
    ensures high % 0x400 == high - 0xD800 && low % 0x400 == low - 0xDC00
  {
  }

  lemma PairDecodes(high: string, low: string, content: string, pos: nat, end: nat)
    requires ValidMark(SurrogatePair(high, low)) && LiteralAt(content, pos, MarkText(SurrogatePair(high, low))) && pos + 12 <= end < |content|
    ensures DecodeStep(content, pos, end) == Some((MarkBytes(SurrogatePair(high, low)), pos + 12))
  {
    hide ParseHex4, Utf8;
    Split(content, pos, "\\u" + high + "\\u", low);
    Split3(content, pos, "\\u", high, "\\u");
    Index(content, pos, "\\u", 0);
    Index(content, pos, "\\u", 1);
    Index(content, pos + 6, "\\u", 0);
    Index(content, pos + 6, "\\u", 1);
    HexAt(content, pos + 2, high);
    HexAt(content, pos + 8, low);
    PairValue(ParseHex4(high, 0), ParseHex4(low, 0));
  }

  lemma NamedExact(letter: char)
    ensures SimpleEscape(letter) == if letter in NAMED then Some(NAMED[letter]) else None
    ensures 'u' !in NAMED
  {
  }

  /** One round of the second pass reads one mark. */
  lemma MarkDecodes(m: Mark, content: string, pos: nat, end: nat)
    requires ValidMark(m) && LiteralAt(content, pos, MarkText(m)) && pos < end < |content|
    requires pos + |MarkText(m)| <= end || (m.Named? && pos + 1 == end)
    ensures DecodeStep(content, pos, end) == Some((MarkBytes(m), pos + |MarkText(m)|))
  {
    hide ParseHex4, Utf8;
    match m
    case Bare(c) => Index(content, pos, [c], 0);
    case Named(letter) =>
      Index(content, pos, ['\\', letter], 0);
      Index(content, pos, ['\\', letter], 1);
      NamedExact(letter);
    case CodeUnit(hex) => UnitDecodes(hex, content, pos, end);
    case SurrogatePair(high, low) => PairDecodes(high, low, content, pos, end);
  }

  /** And only a mark. */
  lemma MarkOf(content: string, pos: nat, end: nat) returns (m: Mark)
    requires pos < end < |content| && DecodeStep(content, pos, end).Some?
    ensures ValidMark(m) && LiteralAt(content, pos, MarkText(m))
    ensures DecodeStep(content, pos, end) == Some((MarkBytes(m), pos + |MarkText(m)|))
    ensures pos + |MarkText(m)| <= end || (m.Named? && pos + 1 == end)
  {
    hide Utf8, ParseHex4;
    if content[pos] != '\\' {
      m := Bare(content[pos]);
    } else if content[pos + 1] != 'u' {
      NamedExact(content[pos + 1]);
      m := Named(content[pos + 1]);
    } else {
      m := UnitOf(content, pos, end);
      MarkDecodes(m, content, pos, end);
    }
  }

  lemma UnitOf(content: string, pos: nat, end: nat) returns (m: Mark)
    requires pos + 1 < |content| && content[pos] == '\\' && content[pos + 1] == 'u'
    requires pos < end < |content| && Utf16Literal(content, pos, end).Some?
    ensures (m.CodeUnit? || m.SurrogatePair?) && ValidMark(m) && LiteralAt(content, pos, MarkText(m)) && pos + |MarkText(m)| <= end
  {
    hide ParseHex4;
    var first := content[pos + 2..pos + 6];
    HexAt(content, pos + 2, first);
    assert LiteralAt(content, pos, "\\u" + first);
    if 0xD800 <= ParseHex4(first, 0) < 0xDC00 {
      var second := content[pos + 8..pos + 12];
      HexAt(content, pos + 8, second);
      assert LiteralAt(content, pos + 6, "\\u" + second);
      Join(content, pos, "\\u" + first, "\\u" + second);
      m := SurrogatePair(first, second);
      assert "\\u" + first + ("\\u" + second) == MarkText(m);
    } else {
      m := CodeUnit(first);
    }
  }

  /** The marks from a position on reach the closing quote, or one over it. */
  predicate Reach(marks: seq<Mark>, pos: nat, end: nat) {
    || pos + |MarksText(marks)| == end
    || (marks != [] && marks[|marks| - 1] == Named('\"') && pos + |MarksText(marks)| == end + 1)
  }

  lemma ReachTail(marks: seq<Mark>, pos: nat, end: nat)
    requires marks != [] && Reach(marks, pos, end)
    ensures pos < end && (pos + |MarkText(marks[0])| <= end || (marks[0].Named? && pos + 1 == end))
    ensures marks[1..] == [] || Reach(marks[1..], pos + |MarkText(marks[0])|, end)
    ensures marks[1..] == [] ==> MarksText(marks[1..]) == ""
  {
    if marks[1..] == [] {
      assert marks == [marks[0]];
    } else {
      assert marks[1..][|marks[1..]| - 1] == marks[|marks| - 1];
      assert |MarksText(marks[1..])| >= 1;
      if pos + |MarksText(marks)| == end + 1 {
        LastIsLong(marks[1..]);
      }
    }
  }

  lemma {:induction false} LastIsLong(marks: seq<Mark>)
    requires marks != []
    ensures |MarksText(marks)| >= |MarkText(marks[|marks| - 1])|
  {
    if |marks| > 1 {
      LastIsLong(marks[1..]);
    }
  }

  lemma {:induction false} MarksDecode(marks: seq<Mark>, content: string, pos: nat, end: nat)
    requires ValidMarks(marks) && LiteralAt(content, pos, MarksText(marks)) && end < |content|
    requires Reach(marks, pos, end)
    ensures Decode(content, pos, end) == Some(MarksBytes(marks))
    decreases |marks|
  {
    hide DecodeStep, MarkText, MarkBytes, ValidMark;
    if marks != [] {
      ReachTail(marks, pos, end);
      Split(content, pos, MarkText(marks[0]), MarksText(marks[1..]));
      MarkDecodes(marks[0], content, pos, end);
      if marks[1..] == [] {
        assert MarksBytes(marks[1..]) == "";
      } else {
        MarksDecode(marks[1..], content, pos + |MarkText(marks[0])|, end);
      }
    }
  }

  lemma {:induction false} MarksOf(content: string, pos: nat, end: nat) returns (marks: seq<Mark>)
    requires pos <= end < |content| && content[end] == '\"' && Decode(content, pos, end).Some?
    ensures ValidMarks(marks) && LiteralAt(content, pos, MarksText(marks)) && Reach(marks, pos, end)
    ensures Decode(content, pos, end) == Some(MarksBytes(marks))
    decreases end - pos
  {
    hide DecodeStep, MarkText, MarkBytes, ValidMark;
    if pos == end {
      marks := [];
    } else {
      var m := MarkOf(content, pos, end);
      var next := pos + |MarkText(m)|;
      var rest := [];
      if next <= end {
        rest := MarksOf(content, next, end);
      } else {
        LongMark(m, pos, end, content);
      }
      marks := [m] + rest;
      assert marks[1..] == rest && marks[|marks| - 1] == if rest == [] then m else rest[|rest| - 1];
      Join(content, pos, MarkText(m), MarksText(rest));
    }
  }

  /** A mark that reaches over the closing quote is an escaped quote. */
  lemma LongMark(m: Mark, pos: nat, end: nat, content: string)
    requires ValidMark(m) && LiteralAt(content, pos, MarkText(m)) && m.Named? && pos + 1 == end < |content|
    ensures pos + |MarkText(m)| == end + 1 && MarksText([]) == ""
    ensures content[end] == '\"' ==> m == Named('\"')
  {
    Index(content, pos, MarkText(m), 1);
  }

  lemma {:induction false} GuardedEnds(body: string, content: string, pos: nat)
    requires Guarded(body) && LiteralAt(content, pos, body) && CharAt(content, pos + |body|, '\"')
    ensures StringEnd(content, pos) == Some(pos + |body|)
    decreases |body|
  {
    if body != "" {
      Index(content, pos, body, 0);
      var n := if body[0] == '\\' then 2 else 1;
      assert body == body[..n] + body[n..];
      Split(content, pos, body[..n], body[n..]);
      GuardedEnds(body[n..], content, pos + n);
    }
  }

  lemma {:induction false} EndGuards(content: string, pos: nat, end: nat)
    requires pos <= |content| && StringEnd(content, pos) == Some(end)
    ensures pos <= end < |content| && Guarded(content[pos..end])
    decreases |content| - pos
  {
    if content[pos] != '\"' {
      var n := if content[pos] == '\\' then 2 else 1;
      EndGuards(content, pos + n, end);
      assert content[pos..end][n..] == content[pos + n..end];
    }
  }

  lemma LiteralParses(l: Literal, content: string, offset: nat)
    requires ValidLiteral(l) && LiteralAt(content, offset, LiteralText(l))
    ensures CharAt(content, offset, '\"')
    ensures ParseString(content, offset) == Ok(LiteralString(l), offset + |LiteralText(l)|)
  {
    hide LiteralAt, Guarded, MarksText, MarksBytes, Decode, Text, ValidMarks;
    Split3(content, offset, "\"", l.body, "\"");
    Index(content, offset, "\"", 0);
    Index(content, offset + 1 + |l.body|, "\"", 0);
    GuardedEnds(l.body, content, offset + 1);
    if l.body + "\"" == MarksText(l.marks) {
      Join(content, offset + 1, l.body, "\"");
    }
    MarksDecode(l.marks, content, offset + 1, offset + 1 + |l.body|);
  }

  lemma LiteralOf(content: string, offset: nat) returns (l: Literal)
    requires offset < |content| && ParseString(content, offset).Ok?
    ensures ValidLiteral(l) && LiteralAt(content, offset, LiteralText(l))
    ensures ParseString(content, offset) == Ok(LiteralString(l), offset + |LiteralText(l)|)
  {
    hide Guarded, MarksText, MarksBytes, Decode, Text, ValidMarks;
    var end := StringEnd(content, offset + 1).value;
    EndGuards(content, offset + 1, end);
    var marks := MarksOf(content, offset + 1, end);
    var body := content[offset + 1..end];
    l := Literal(marks, body);
    if offset + 1 + |MarksText(marks)| == end {
      assert body == MarksText(marks);
    } else {
      assert body + "\"" == content[offset + 1..end + 1] == MarksText(marks);
    }
    assert LiteralAt(content, offset, LiteralText(l));
  }

  // ---- numbers ----

  /** What may stand behind a number: no digit, and nothing that would make it a fraction or an exponent. */
  predicate Stops(content: string, next: nat) {
    !DigitAt(content, next, |content|) && !FractionOrExponent(content, next, |content|)
  }

  lemma {:induction false} DigitsNumeral(content: string, from: nat, digits: string)
    requires Digits(digits) && LiteralAt(content, from, digits)
    ensures forall i :: from <= i < from + |digits| ==> Digit(content[i])
    ensures DigitsValue(content, from, from + |digits|) == Numeral(digits)
    decreases |digits|
  {
    forall i | from <= i < from + |digits|
      ensures Digit(content[i])
    {
      Index(content, from, digits, i - from);
    }
    if digits != "" {
      var n := |digits| - 1;
      assert digits == digits[..n] + [digits[n]];
      Split(content, from, digits[..n], [digits[n]]);
      Index(content, from + n, [digits[n]], 0);
      DigitsNumeral(content, from, digits[..n]);
    }
  }

  /** The run of characters given to strtod is long enough. */
  lemma RunIsLong(content: string, offset: nat, at: nat)
    requires offset <= at <= |content|
    requires forall i :: offset <= i < at ==> NumberChar(content[i])
    ensures at <= NumberEnd(content, offset)
    ensures FractionOrExponent(content, at, NumberEnd(content, offset)) <==> FractionOrExponent(content, at, |content|)
    ensures DigitAt(content, at, NumberEnd(content, offset)) <==> DigitAt(content, at, |content|)
  {
  }

  lemma SaturateExact(negative: bool, magnitude: nat)
    ensures var m: int := magnitude; Saturate(if negative then -m else m) == Clamped(negative, magnitude)
  {
  }

  lemma NumericParses(negative: bool, digits: string, content: string, offset: nat)
    requires digits != "" && Digits(digits) && LiteralAt(content, offset, Written(Numeric(negative, digits)))
    requires Stops(content, offset + |Written(Numeric(negative, digits))|)
    ensures offset < |content| && content[offset] == (if negative then '-' else digits[0])
    ensures ParseNumber(content, offset)
            == Ok(Number(Clamped(negative, Numeral(digits))), offset + |Written(Numeric(negative, digits))|)
  {
    hide NumberEnd, LiteralAt, FractionOrExponent, Saturate, Numeral, DigitsValue, DigitsEnd;
    var sign := if negative then "-" else "";
    Split(content, offset, sign, digits);
    var from := offset + |sign|;
    var next := from + |digits|;
    Index(content, from, digits, 0);
    if negative {
      Index(content, offset, sign, 0);
    }
    DigitsNumeral(content, from, digits);
    RunIsLong(content, offset, next);
    EndOfDigits(content, from, next, NumberEnd(content, offset));
    SaturateExact(negative, Numeral(digits));
  }

  lemma EndOfDigits(content: string, from: nat, next: nat, end: nat)
    requires from <= next <= end <= |content|
    requires forall i :: from <= i < next ==> Digit(content[i])
    requires !DigitAt(content, next, end)
    ensures DigitsEnd(content, from, end) == next
  {
  }

  lemma NumericOf(content: string, offset: nat) returns (negative: bool, digits: string)
    requires offset < |content| && (content[offset] == '-' || Digit(content[offset])) && ParseNumber(content, offset).Ok?
    ensures digits != "" && Digits(digits) && LiteralAt(content, offset, Written(Numeric(negative, digits)))
    ensures Stops(content, offset + |Written(Numeric(negative, digits))|)
    ensures ParseNumber(content, offset)
            == Ok(Number(Clamped(negative, Numeral(digits))), offset + |Written(Numeric(negative, digits))|)
  {
    hide FractionOrExponent, Saturate, Numeral, DigitsValue;
    negative := content[offset] == '-';
    var from := if negative then offset + 1 else offset;
    var end := NumberEnd(content, offset);
    var stop := DigitsEnd(content, from, end);
    digits := content[from..stop];
    assert Written(Numeric(negative, digits)) == content[offset..stop];
    SliceAt(content, offset, stop);
    SliceAt(content, from, stop);
    DigitsNumeral(content, from, digits);
    RunIsLong(content, offset, stop);
    SaturateExact(negative, Numeral(digits));
  }

  // ---- values ----

  function Expected(t: Json, depth: nat, next: nat): Parsed<Json> {
    if depth + Nesting(t) <= NESTING_LIMIT then Ok(t, next) else Fail
  }

  /** What may stand behind a value. */
  predicate Ends(d: Spelled, content: string, next: nat) {
    d.Numeric? ==> Stops(content, next)
  }

  /** A character no number contains. */
  lemma StopsAt(content: string, next: nat)
    requires next < |content| && (content[next] as int <= 32 || content[next] in ",]}")
    ensures Stops(content, next)
  {
  }

  /** The first character decides, and it is no blank and no closing bracket. */
  lemma ValueStarts(d: Spelled, content: string, offset: nat)
    requires Valid(d) && LiteralAt(content, offset, Written(d))
    ensures offset < |content| && content[offset] as int > 32 && content[offset] != ']' && content[offset] != '}'
    ensures content[offset] as int != 0xEF
    ensures d.Quoted? ==> content[offset] == '\"'
    ensures d.Bracketed? ==> content[offset] == '['
    ensures d.Braced? ==> content[offset] == '{'
    ensures d.Numeric? ==> content[offset] == '-' || Digit(content[offset])
    ensures !d.Word? ==>
              !LiteralAt(content, offset, "null") && !LiteralAt(content, offset, "false") && !LiteralAt(content, offset, "true")
  {
    hide LiteralAt, ValidItems, ValidFields, ItemsWritten, FieldsWritten, ValidLiteral;
    Index(content, offset, Written(d), 0);
    if !d.Word? {
      NotWord(content, offset, "null");
      NotWord(content, offset, "false");
      NotWord(content, offset, "true");
    }
  }

  lemma WordParses(word: string, content: string, offset: nat, depth: nat)
    requires Valid(Word(word)) && LiteralAt(content, offset, word)
    ensures ParseValue(content, offset, depth) == Ok(Tree(Word(word)), offset + |word|)
  {
    if word == "false" {
      Index(content, offset, "false", 0);
      NotWord(content, offset, "null");
    } else if word == "true" {
      Index(content, offset, "true", 0);
      NotWord(content, offset, "null");
      NotWord(content, offset, "false");
    }
  }

  /** Which part of the parser reads a value. */
  lemma Dispatch(d: Spelled, content: string, offset: nat, depth: nat)
    requires Valid(d) && LiteralAt(content, offset, Written(d)) && !d.Word?
    ensures offset < |content|
    ensures d.Quoted? ==> ParseValue(content, offset, depth) == match ParseString(content, offset)
                                                                case Fail => Fail
                                                                case Ok(s, next) => Ok(String(s), next)
    ensures d.Numeric? ==> ParseValue(content, offset, depth) == ParseNumber(content, offset)
    ensures d.Bracketed? ==> ParseValue(content, offset, depth) == match ParseArray(content, offset, depth)
                                                                   case Fail => Fail
                                                                   case Ok(items, next) => Ok(Array(items), next)
    ensures d.Braced? ==> ParseValue(content, offset, depth) == match ParseObject(content, offset, depth)
                                                                case Fail => Fail
                                                                case Ok(ms, next) => Ok(Object(ms), next)
  {
    hide LiteralAt, ParseString, ParseNumber, ParseArray, ParseObject;
    ValueStarts(d, content, offset);
  }

  /** Every text of the grammar is parsed to its tree, unless it is nested too deeply. */
  lemma {:induction false} SpelledParses(d: Spelled, content: string, offset: nat, depth: nat)
    requires Valid(d) && LiteralAt(content, offset, Written(d)) && depth <= NESTING_LIMIT
    requires Ends(d, content, offset + |Written(d)|)
    ensures ParseValue(content, offset, depth) == Expected(Tree(d), depth, offset + |Written(d)|)
    decreases d, 1
  {
    hide ParseValue, ParseString, ParseNumber, ParseArray, ParseObject, LiteralAt, LiteralString, ValidLiteral, Clamped;
    if d.Word? {
      WordParses(d.word, content, offset, depth);
    } else {
      Dispatch(d, content, offset, depth);
      match d
      case Numeric(negative, digits) => NumericParses(negative, digits, content, offset);
      case Quoted(literal) => LiteralParses(literal, content, offset);
      case Bracketed(_, _) => BracketedParses(d, content, offset, depth);
      case Braced(_, _) => BracedParses(d, content, offset, depth);
    }
  }

  // ---- arrays ----

  lemma {:induction false} BracketedParses(d: Spelled, content: string, offset: nat, depth: nat)
    requires d.Bracketed? && Valid(d) && LiteralAt(content, offset, Written(d)) && depth <= NESTING_LIMIT
    ensures offset < |content|
    ensures ParseArray(content, offset, depth) ==
            if depth + 1 + ItemsNesting(ItemTrees(d.items)) <= NESTING_LIMIT
            then Ok(ItemTrees(d.items), offset + |Written(d)|) else Fail
    decreases d, 0
  {
    hide ParseValue, ParseElements, ParseArray, SkipWhitespace, LiteralAt, ItemsWritten, ValidItems, ItemTrees;
    var all := d.inside + ItemsWritten(d.items);
    Split3(content, offset, "[", all, "]");
    Index(content, offset, "[", 0);
    Index(content, offset + 1 + |all|, "]", 0);
    Split(content, offset + 1, d.inside, ItemsWritten(d.items));
    BlanksAt(content, offset + 1, d.inside);
    if depth >= NESTING_LIMIT {
      TooDeep(content, offset, depth);
    } else if d.items == [] {
      NoItems();
      ArrayBegins(content, offset, offset + 1 + |d.inside|, depth);
    } else {
      var first := offset + 1 + |d.items[0].before|;
      ItemPieces(d.items, content, offset + 1);
      ArrayBegins(content, offset, first, depth);
      ItemsParse(d.items, content, first - 1, offset + 1, depth + 1);
    }
  }

  lemma NoItems()
    ensures ItemsWritten([]) == "" && ValidItems([]) && ItemTrees([]) == []
    ensures FieldsWritten([]) == "" && ValidFields([]) && FieldTrees([]) == []
  {
  }

  lemma TooDeep(content: string, offset: nat, depth: nat)
    requires offset < |content| && depth >= NESTING_LIMIT
    ensures ParseArray(content, offset, depth) == Fail && ParseObject(content, offset, depth) == Fail
  {
  }

  lemma ArrayBegins(content: string, offset: nat, first: nat, depth: nat)
    requires CharAt(content, offset, '[') && depth < NESTING_LIMIT && offset < first < |content|
    requires Blank(content, offset + 1, first) && content[first] as int > 32
    ensures ParseArray(content, offset, depth) ==
            if content[first] == ']' then Ok([], first + 1) else ParseElements(content, first - 1, depth + 1)
  {
    hide SkipWhitespace, ParseElements;
    Skips(content, offset + 1, first);
  }

  /** The pieces of an element. */
  lemma ItemParts(item: Item, more: bool, content: string, at: nat)
    requires Blanks(item.before) && Valid(item.value) && Blanks(item.after)
    requires LiteralAt(content, at, ItemWritten(item, more))
    ensures var start := at + |item.before|;
            var next := start + |Written(item.value)|;
            var end := next + |item.after|;
            && Blank(content, at, start) && LiteralAt(content, start, Written(item.value)) && Blank(content, next, end)
            && at + |ItemWritten(item, more)| == end + |Comma(more)| && (more ==> CharAt(content, end, ','))
  {
    hide LiteralAt, Written, Valid;
    var next := at + |item.before| + |Written(item.value)|;
    Split3(content, at, item.before, Written(item.value), item.after + Comma(more));
    Split(content, next, item.after, Comma(more));
    BlanksAt(content, at, item.before);
    BlanksAt(content, next, item.after);
    if more {
      Index(content, next + |item.after|, ",", 0);
    }
  }

  /** The pieces of a list of elements. */
  lemma ItemPieces(items: seq<Item>, content: string, at: nat)
    requires items != [] && ValidItems(items) && LiteralAt(content, at, ItemsWritten(items))
    ensures var start := at + |items[0].before|;
            var next := start + |Written(items[0].value)|;
            var end := next + |items[0].after|;
            && Blank(content, at, start) && start < next <= end
            && LiteralAt(content, start, Written(items[0].value))
            && start < |content| && content[start] as int > 32 && content[start] != ']'
            && Blank(content, next, end)
            && at + |ItemsWritten(items)| == end + |Comma(|items| > 1)| + |ItemsWritten(items[1..])|
            && (|items| > 1 ==> CharAt(content, end, ','))
            && LiteralAt(content, end + |Comma(|items| > 1)|, ItemsWritten(items[1..]))
  {
    hide LiteralAt, Written, Valid, ItemWritten, Blanks, Blank;
    assert ItemsWritten(items) == ItemWritten(items[0], |items| > 1) + ItemsWritten(items[1..]);
    Split(content, at, ItemWritten(items[0], |items| > 1), ItemsWritten(items[1..]));
    ItemParts(items[0], |items| > 1, content, at);
    ValueStarts(items[0].value, content, at + |items[0].before|);
    NotEmpty(items[0].value);
  }

  lemma NotEmpty(d: Spelled)
    requires Valid(d)
    ensures Written(d) != ""
  {
  }

  /** One round of the loop of parse_array. */
  lemma ElementsStep(content: string, offset: nat, start: nat, end: nat, depth: nat, nesting: nat, t: Json, next: nat)
    requires offset < start < |content| && Blank(content, offset + 1, start) && content[start] as int > 32
    requires ParseValue(content, start, depth) == if depth + nesting <= NESTING_LIMIT then Ok(t, next) else Fail
    requires next <= end && Blank(content, next, end) && (CharAt(content, end, ',') || CharAt(content, end, ']'))
    ensures ParseElements(content, offset, depth) ==
            if depth + nesting > NESTING_LIMIT then Fail
            else if content[end] == ',' then Prepend([t], ParseElements(content, end, depth))
            else Ok([t], end + 1)
  {
    hide ParseValue, SkipWhitespace;
    Skips(content, offset + 1, start);
    Skips(content, next, end);
  }

  /** The loop of parse_array, started anywhere in front of an element. */
  lemma {:induction false} ItemsParse(items: seq<Item>, content: string, offset: nat, at: nat, depth: nat)
    requires items != [] && ValidItems(items) && depth <= NESTING_LIMIT
    requires LiteralAt(content, at, ItemsWritten(items)) && CharAt(content, at + |ItemsWritten(items)|, ']')
    requires offset < at + |items[0].before| && Blank(content, offset + 1, at + |items[0].before|)
    ensures offset < |content|
    ensures ParseElements(content, offset, depth) ==
            if depth + ItemsNesting(ItemTrees(items)) <= NESTING_LIMIT
            then Ok(ItemTrees(items), at + |ItemsWritten(items)| + 1) else Fail
    decreases items, 0
  {
    hide ParseValue, ParseElements, SkipWhitespace, Written, ItemsWritten, LiteralAt, Blank, Tree, Valid;
    var item := items[0];
    var start := at + |item.before|;
    var next := start + |Written(item.value)|;
    var end := next + |item.after|;
    ItemPieces(items, content, at);
    LastOf(items);
    ItemStops(content, next, end);
    SpelledParses(item.value, content, start, depth);
    ElementsStep(content, offset, start, end, depth, Nesting(Tree(item.value)), Tree(item.value), next);
    if |items| > 1 {
      ItemPieces(items[1..], content, end + 1);
      ItemsParse(items[1..], content, end, end + 1, depth);
    }
  }

  lemma LastOf(items: seq<Item>)
    requires items != [] && ValidItems(items)
    ensures ItemTrees(items) == [Tree(items[0].value)] + ItemTrees(items[1..])
    ensures ItemsNesting(ItemTrees(items)) == Max(Nesting(Tree(items[0].value)), ItemsNesting(ItemTrees(items[1..])))
    ensures |items| == 1 ==>
              && ItemsWritten(items[1..]) == "" && ItemTrees(items) == [Tree(items[0].value)]
              && ItemsNesting(ItemTrees(items)) == Nesting(Tree(items[0].value))
  {
    hide Written, Tree, Valid;
    assert ([Tree(items[0].value)] + ItemTrees(items[1..]))[1..] == ItemTrees(items[1..]);
  }

  lemma ItemStops(content: string, next: nat, end: nat)
    requires next <= end && Blank(content, next, end) && end < |content| && content[end] in ",]}"
    ensures Stops(content, next)
  {
    StopsAt(content, next);
  }

  // ---- objects ----

  lemma {:induction false} BracedParses(d: Spelled, content: string, offset: nat, depth: nat)
    requires d.Braced? && Valid(d) && LiteralAt(content, offset, Written(d)) && depth <= NESTING_LIMIT
    ensures offset < |content|
    ensures ParseObject(content, offset, depth) ==
            if depth + 1 + MembersNesting(FieldTrees(d.fields)) <= NESTING_LIMIT
            then Ok(FieldTrees(d.fields), offset + |Written(d)|) else Fail
    decreases d, 0
  {
    hide ParseMembers, ParseObject, SkipWhitespace, LiteralAt, FieldsWritten, ValidFields, FieldTrees;
    var all := d.inside + FieldsWritten(d.fields);
    Split3(content, offset, "{", all, "}");
    Index(content, offset, "{", 0);
    Index(content, offset + 1 + |all|, "}", 0);
    Split(content, offset + 1, d.inside, FieldsWritten(d.fields));
    BlanksAt(content, offset + 1, d.inside);
    if depth >= NESTING_LIMIT {
      TooDeep(content, offset, depth);
    } else if d.fields == [] {
      NoItems();
      ObjectBegins(content, offset, offset + 1 + |d.inside|, depth);
    } else {
      var first := offset + 1 + |d.fields[0].before|;
      FieldPieces(d.fields, content, offset + 1);
      ObjectBegins(content, offset, first, depth);
      FieldsParse(d.fields, content, first - 1, offset + 1, depth + 1);
    }
  }

  lemma ObjectBegins(content: string, offset: nat, first: nat, depth: nat)
    requires CharAt(content, offset, '{') && depth < NESTING_LIMIT && offset < first < |content|
    requires Blank(content, offset + 1, first) && content[first] as int > 32
    ensures ParseObject(content, offset, depth) ==
            if content[first] == '}' then Ok([], first + 1) else ParseMembers(content, first - 1, depth + 1)
  {
    hide SkipWhitespace, ParseMembers;
    Skips(content, offset + 1, first);
  }

  /** Where the name, its colon and the value of a member stand. */
  predicate NameAt(f: Field, content: string, at: nat) {
    var start := at + |f.before|;
    var colon := start + |LiteralText(f.name)| + |f.between|;
    var value := colon + 1 + |f.gap|;
    && at + |NameWritten(f)| == value
    && Blank(content, at, start) && CharAt(content, start, '\"')
    && LiteralAt(content, start, LiteralText(f.name))
    && Blank(content, start + |LiteralText(f.name)|, colon) && CharAt(content, colon, ':')
    && Blank(content, colon + 1, value)
  }

  lemma NamePieces(f: Field, content: string, at: nat)
    requires ValidName(f) && LiteralAt(content, at, NameWritten(f))
    ensures NameAt(f, content, at)
  {
    hide LiteralAt, ValidLiteral;
    var start := at + |f.before|;
    var close := start + |LiteralText(f.name)|;
    Split3(content, at, f.before, LiteralText(f.name), f.between + ":" + f.gap);
    Split3(content, close, f.between, ":", f.gap);
    BlanksAt(content, at, f.before);
    BlanksAt(content, close, f.between);
    BlanksAt(content, close + |f.between| + 1, f.gap);
    Index(content, start, LiteralText(f.name), 0);
    Index(content, close + |f.between|, ":", 0);
  }

  lemma NameParses(f: Field, content: string, offset: nat, at: nat)
    requires ValidName(f) && NameAt(f, content, at)
    requires offset < at + |f.before| && Blank(content, offset + 1, at + |f.before|)
    requires at + |NameWritten(f)| < |content| && content[at + |NameWritten(f)|] as int > 32
    ensures offset < |content| && ParseName(content, offset) == Ok(LiteralString(f.name), at + |NameWritten(f)|)
  {
    hide ParseString, SkipWhitespace, LiteralText, NameWritten, ValidLiteral, LiteralString;
    var start := at + |f.before|;
    var close := start + |LiteralText(f.name)|;
    var colon := close + |f.between|;
    LiteralParses(f.name, content, start);
    Skips(content, offset + 1, start);
    Skips(content, close, colon);
    Skips(content, colon + 1, colon + 1 + |f.gap|);
  }

  /** The pieces of a list of members. */
  lemma FieldPieces(fields: seq<Field>, content: string, at: nat)
    requires fields != [] && ValidFields(fields) && LiteralAt(content, at, FieldsWritten(fields))
    ensures var start := at + |NameWritten(fields[0])|;
            var next := start + |Written(fields[0].value)|;
            var end := next + |fields[0].after|;
            && NameAt(fields[0], content, at) && start < next <= end
            && Blank(content, at, at + |fields[0].before|) && CharAt(content, at + |fields[0].before|, '\"')
            && LiteralAt(content, start, Written(fields[0].value))
            && start < |content| && content[start] as int > 32
            && Blank(content, next, end)
            && at + |FieldsWritten(fields)| == end + |Comma(|fields| > 1)| + |FieldsWritten(fields[1..])|
            && (|fields| > 1 ==> CharAt(content, end, ','))
            && LiteralAt(content, end + |Comma(|fields| > 1)|, FieldsWritten(fields[1..]))
  {
    hide LiteralAt, Written, Valid, NameWritten, ValidName, LiteralText;
    var f := fields[0];
    var comma := Comma(|fields| > 1);
    assert FieldsWritten(fields) == FieldWritten(f, |fields| > 1) + FieldsWritten(fields[1..]);
    Split(content, at, FieldWritten(f, |fields| > 1), FieldsWritten(fields[1..]));
    Split3(content, at, NameWritten(f), Written(f.value), f.after + comma);
    Split(content, at + |NameWritten(f)| + |Written(f.value)|, f.after, comma);
    NamePieces(f, content, at);
    BlanksAt(content, at + |NameWritten(f)| + |Written(f.value)|, f.after);
    ValueStarts(f.value, content, at + |NameWritten(f)|);
    NotEmpty(f.value);
    if |fields| > 1 {
      Index(content, at + |NameWritten(f)| + |Written(f.value)| + |f.after|, comma, 0);
    }
  }

  /** One round of the loop of parse_object. */
  lemma MembersStep(content: string, offset: nat, start: nat, end: nat, depth: nat, nesting: nat, m: Member, next: nat)
    requires offset < |content| && start <= |content| && ParseName(content, offset) == Ok(m.key, start)
    requires ParseValue(content, start, depth) == if depth + nesting <= NESTING_LIMIT then Ok(m.value, next) else Fail
    requires next <= end && Blank(content, next, end) && (CharAt(content, end, ',') || CharAt(content, end, '}'))
    ensures ParseMembers(content, offset, depth) ==
            if depth + nesting > NESTING_LIMIT then Fail
            else if content[end] == ',' then Prepend([m], ParseMembers(content, end, depth))
            else Ok([m], end + 1)
  {
    hide ParseValue, SkipWhitespace, ParseName;
    Skips(content, next, end);
  }

  /** The loop of parse_object, started anywhere in front of a name. */
  lemma {:induction false} FieldsParse(fields: seq<Field>, content: string, offset: nat, at: nat, depth: nat)
    requires fields != [] && ValidFields(fields) && depth <= NESTING_LIMIT
    requires LiteralAt(content, at, FieldsWritten(fields)) && CharAt(content, at + |FieldsWritten(fields)|, '}')
    requires offset < at + |fields[0].before| && Blank(content, offset + 1, at + |fields[0].before|)
    ensures offset < |content|
    ensures ParseMembers(content, offset, depth) ==
            if depth + MembersNesting(FieldTrees(fields)) <= NESTING_LIMIT
            then Ok(FieldTrees(fields), at + |FieldsWritten(fields)| + 1) else Fail
    decreases fields, 0
  {
    hide ParseValue, ParseMembers, ParseName, SkipWhitespace, Written, FieldsWritten, LiteralAt, Blank, Tree, Valid,
         NameAt, NameWritten, LiteralString, ValidLiteral;
    var f := fields[0];
    var start := at + |NameWritten(f)|;
    var next := start + |Written(f.value)|;
    var end := next + |f.after|;
    FieldPieces(fields, content, at);
    LastField(fields);
    ItemStops(content, next, end);
    NameParses(f, content, offset, at);
    SpelledParses(f.value, content, start, depth);
    MembersStep(content, offset, start, end, depth, Nesting(Tree(f.value)), Member(LiteralString(f.name), Tree(f.value)), next);
    if |fields| > 1 {
      FieldPieces(fields[1..], content, end + 1);
      FieldsParse(fields[1..], content, end, end + 1, depth);
    }
  }

  lemma LastField(fields: seq<Field>)
    requires fields != [] && ValidFields(fields)
    ensures FieldTrees(fields) == [Member(LiteralString(fields[0].name), Tree(fields[0].value))] + FieldTrees(fields[1..])
    ensures MembersNesting(FieldTrees(fields))
            == Max(Nesting(Tree(fields[0].value)), MembersNesting(FieldTrees(fields[1..])))
    ensures |fields| == 1 ==>
              && FieldsWritten(fields[1..]) == ""
              && FieldTrees(fields) == [Member(LiteralString(fields[0].name), Tree(fields[0].value))]
              && MembersNesting(FieldTrees(fields)) == Nesting(Tree(fields[0].value))
  {
    hide Written, Tree, Valid, LiteralString, ValidLiteral;
    var m := Member(LiteralString(fields[0].name), Tree(fields[0].value));
    assert ([m] + FieldTrees(fields[1..]))[1..] == FieldTrees(fields[1..]);
  }

  // ---- and nothing else is accepted ----

  predicate Found(d: Spelled, content: string, offset: nat) {
    Valid(d) && LiteralAt(content, offset, Written(d)) && Ends(d, content, offset + |Written(d)|)
  }

  lemma WordOf(content: string, offset: nat, word: string)
    requires Valid(Word(word)) && LiteralAt(content, offset, word)
    ensures Found(Word(word), content, offset)
  {
  }

  /** Whatever the parser reads is a text of the grammar. */
  lemma {:induction false} ValueOf(content: string, offset: nat, depth: nat) returns (d: Spelled)
    requires offset <= |content| && depth <= NESTING_LIMIT && ParseValue(content, offset, depth).Ok?
    ensures Found(d, content, offset)
    ensures ParseValue(content, offset, depth) == Ok(Tree(d), offset + |Written(d)|) && depth + Nesting(Tree(d)) <= NESTING_LIMIT
    ensures offset < |content| && content[offset] as int > 32
    decreases |content| - offset, 3
  {
    hide LiteralAt, ParseString, ParseNumber, ParseArray, ParseObject, Found, Written, Tree, Nesting;
    if LiteralAt(content, offset, "null") {
      d := Word("null");
      WordOf(content, offset, "null");
    } else if LiteralAt(content, offset, "false") {
      d := Word("false");
      WordOf(content, offset, "false");
    } else if LiteralAt(content, offset, "true") {
      d := Word("true");
      WordOf(content, offset, "true");
    } else if content[offset] == '\"' {
      d := QuotedOf(content, offset);
    } else if content[offset] == '-' || Digit(content[offset]) {
      d := NumberOf(content, offset);
    } else if content[offset] == '[' {
      d := ArrayOf(content, offset, depth);
    } else {
      d := ObjectOf(content, offset, depth);
    }
    FoundParses(d, content, offset, depth);
  }

  lemma FoundParses(d: Spelled, content: string, offset: nat, depth: nat)
    requires Found(d, content, offset) && offset <= |content| && depth <= NESTING_LIMIT
    requires ParseValue(content, offset, depth).Ok?
    ensures Valid(d) && LiteralAt(content, offset, Written(d))
    ensures ParseValue(content, offset, depth) == Ok(Tree(d), offset + |Written(d)|) && depth + Nesting(Tree(d)) <= NESTING_LIMIT
    ensures offset < |content| && content[offset] as int > 32
  {
    hide ParseValue, Valid, Written, Tree, LiteralAt, Ends, Nesting;
    SpelledParses(d, content, offset, depth);
    ValueStarts(d, content, offset);
  }

  lemma QuotedOf(content: string, offset: nat) returns (d: Spelled)
    requires offset < |content| && ParseString(content, offset).Ok?
    ensures Found(d, content, offset)
  {
    hide ParseString, ValidLiteral, LiteralText, LiteralAt;
    var l := LiteralOf(content, offset);
    d := Quoted(l);
  }

  lemma NumberOf(content: string, offset: nat) returns (d: Spelled)
    requires offset < |content| && (content[offset] == '-' || Digit(content[offset])) && ParseNumber(content, offset).Ok?
    ensures Found(d, content, offset)
  {
    hide ParseNumber, Stops, LiteralAt;
    var negative, digits := NumericOf(content, offset);
    d := Numeric(negative, digits);
  }

  // ---- elements ----

  lemma {:induction false} ArrayOf(content: string, offset: nat, depth: nat) returns (d: Spelled)
    requires offset < |content| && depth <= NESTING_LIMIT && ParseArray(content, offset, depth).Ok?
    ensures Found(d, content, offset)
    decreases |content| - offset, 2
  {
    hide LiteralAt, ParseElements, SkipWhitespace, ItemsWritten, ValidItems;
    var first := SkipWhitespace(content, offset + 1);
    if CharAt(content, first, ']') {
      var inside := Skipped(content, offset + 1);
      d := Bracketed(inside, []);
      NoItems();
      CharText(content, first, ']');
      CharText(content, offset, '[');
      Join3(content, offset, "[", inside, "]");
      assert Written(d) == "[" + (inside + "") + "]" && inside + "" == inside;
    } else {
      var items := ItemsOf(content, first - 1, depth + 1);
      SkipsOnce(content, offset + 1);
      var inside := Skipped(content, offset + 1);
      items := MoreBlanks(items, inside, content, offset + 1);
      d := Bracketed("", items);
      CharText(content, offset, '[');
      CharText(content, offset + 1 + |ItemsWritten(items)|, ']');
      Join3(content, offset, "[", ItemsWritten(items), "]");
      assert "" + ItemsWritten(items) == ItemsWritten(items);
    }
  }

  lemma SkipsOnce(content: string, from: nat)
    requires from <= |content|
    ensures SkipWhitespace(content, SkipWhitespace(content, from)) == SkipWhitespace(content, from)
  {
  }

  lemma CharText(content: string, offset: nat, c: char)
    requires CharAt(content, offset, c)
    ensures LiteralAt(content, offset, [c])
  {
  }

  /** Blanks in front of a list belong to its first element. */
  lemma MoreBlanks(items: seq<Item>, blanks: string, content: string, at: nat) returns (more: seq<Item>)
    requires items != [] && ValidItems(items) && Blanks(blanks)
    requires LiteralAt(content, at, blanks) && LiteralAt(content, at + |blanks|, ItemsWritten(items))
    ensures more != [] && ValidItems(more) && LiteralAt(content, at, ItemsWritten(more))
    ensures |ItemsWritten(more)| == |blanks| + |ItemsWritten(items)|
  {
    hide LiteralAt, Valid, Written;
    var first := Item(blanks + items[0].before, items[0].value, items[0].after);
    more := [first] + items[1..];
    Join(content, at, blanks, ItemsWritten(items));
    var tail := items[0].after + Comma(|items| > 1);
    assert ItemWritten(first, |items| > 1) == blanks + ItemWritten(items[0], |items| > 1);
    assert more[1..] == items[1..];
    Associates(blanks, ItemWritten(items[0], |items| > 1), ItemsWritten(items[1..]));
    assert ItemsWritten(more) == blanks + ItemsWritten(items);
  }

  lemma Associates(a: string, b: string, c: string)
    ensures a + b + c == a + (b + c)
  {
  }

  lemma {:induction false} ItemsOf(content: string, offset: nat, depth: nat) returns (items: seq<Item>)
    requires offset < |content| && depth <= NESTING_LIMIT && ParseElements(content, offset, depth).Ok?
    ensures items != [] && ValidItems(items) && LiteralAt(content, offset + 1, ItemsWritten(items))
    ensures CharAt(content, offset + 1 + |ItemsWritten(items)|, ']')
    ensures SkipWhitespace(content, offset + 1) < |content| && content[SkipWhitespace(content, offset + 1)] as int > 32
    decreases |content| - offset, 1
  {
    hide LiteralAt, ParseValue, SkipWhitespace, ItemsWritten, ValidItems, Written, Found, Tree;
    var start := SkipWhitespace(content, offset + 1);
    var value := ValueOf(content, start, depth);
    var next := start + |Written(value)|;
    var end := SkipWhitespace(content, next);
    var before := Skipped(content, offset + 1);
    var after := Skipped(content, next);
    var rest := [];
    if CharAt(content, end, ',') {
      rest := ItemsOf(content, end, depth);
    }
    items := ItemsJoined(Item(before, value, after), rest, content, offset + 1);
  }

  lemma ItemsJoined(item: Item, rest: seq<Item>, content: string, at: nat) returns (items: seq<Item>)
    requires var start := at + |item.before|;
             var next := start + |Written(item.value)|;
             var end := next + |item.after|;
             && Blanks(item.before) && LiteralAt(content, at, item.before)
             && Found(item.value, content, start)
             && Blanks(item.after) && LiteralAt(content, next, item.after)
             && (if rest == [] then CharAt(content, end, ']')
                 else
                   && CharAt(content, end, ',') && ValidItems(rest) && LiteralAt(content, end + 1, ItemsWritten(rest))
                   && CharAt(content, end + 1 + |ItemsWritten(rest)|, ']'))
    ensures items == [item] + rest && ValidItems(items) && LiteralAt(content, at, ItemsWritten(items))
    ensures CharAt(content, at + |ItemsWritten(items)|, ']')
  {
    hide LiteralAt, Written, Valid, Ends;
    items := [item] + rest;
    var comma := Comma(rest != []);
    var next := at + |item.before| + |Written(item.value)|;
    var end := next + |item.after|;
    CommaText(content, end, rest != []);
    assert items[1..] == rest;
    NoItems();
    assert LiteralAt(content, end + |comma|, ItemsWritten(rest)) by {
      if rest == [] {
        NothingAt(content, end);
      }
    }
    Join(content, next, item.after, comma);
    Join3(content, at, item.before, Written(item.value), item.after + comma);
    Join(content, at, ItemWritten(item, rest != []), ItemsWritten(rest));
  }

  lemma CommaText(content: string, end: nat, more: bool)
    requires end < |content| && (more ==> CharAt(content, end, ','))
    ensures LiteralAt(content, end, Comma(more))
  {
  }

  lemma NothingAt(content: string, at: nat)
    requires at <= |content|
    ensures LiteralAt(content, at, "")
  {
  }

  // ---- members ----

  lemma {:induction false} ObjectOf(content: string, offset: nat, depth: nat) returns (d: Spelled)
    requires offset < |content| && depth <= NESTING_LIMIT && ParseObject(content, offset, depth).Ok?
    ensures Found(d, content, offset)
    decreases |content| - offset, 2
  {
    hide LiteralAt, ParseMembers, SkipWhitespace, FieldsWritten, ValidFields;
    var first := SkipWhitespace(content, offset + 1);
    if CharAt(content, first, '}') {
      var inside := Skipped(content, offset + 1);
      d := Braced(inside, []);
      NoItems();
      CharText(content, first, '}');
      CharText(content, offset, '{');
      Join3(content, offset, "{", inside, "}");
      assert Written(d) == "{" + (inside + "") + "}" && inside + "" == inside;
    } else {
      var fields := FieldsOf(content, first - 1, depth + 1);
      SkipsOnce(content, offset + 1);
      var inside := Skipped(content, offset + 1);
      fields := MoreBlanksInside(fields, inside, content, offset + 1);
      d := Braced("", fields);
      CharText(content, offset, '{');
      CharText(content, offset + 1 + |FieldsWritten(fields)|, '}');
      Join3(content, offset, "{", FieldsWritten(fields), "}");
      assert "" + FieldsWritten(fields) == FieldsWritten(fields);
    }
  }

  lemma MoreBlanksInside(fields: seq<Field>, blanks: string, content: string, at: nat) returns (more: seq<Field>)
    requires fields != [] && ValidFields(fields) && Blanks(blanks)
    requires LiteralAt(content, at, blanks) && LiteralAt(content, at + |blanks|, FieldsWritten(fields))
    ensures more != [] && ValidFields(more) && LiteralAt(content, at, FieldsWritten(more))
    ensures |FieldsWritten(more)| == |blanks| + |FieldsWritten(fields)|
  {
    hide LiteralAt, Valid, Written, LiteralText, ValidLiteral;
    var f := fields[0];
    var first := Field(blanks + f.before, f.name, f.between, f.gap, f.value, f.after);
    more := [first] + fields[1..];
    Join(content, at, blanks, FieldsWritten(fields));
    assert FieldWritten(first, |fields| > 1) == blanks + FieldWritten(f, |fields| > 1);
    assert more[1..] == fields[1..];
    Associates(blanks, FieldWritten(f, |fields| > 1), FieldsWritten(fields[1..]));
    assert FieldsWritten(more) == blanks + FieldsWritten(fields);
  }

  /** The name in front of a member, its colon, and the blanks between. */
  lemma NameOf(content: string, offset: nat) returns (f: Field)
    requires offset < |content| && ParseName(content, offset).Ok?
    requires var value := ParseName(content, offset).offset; value < |content| && content[value] as int > 32
    ensures ValidName(f) && LiteralAt(content, offset + 1, NameWritten(f))
    ensures ParseName(content, offset).offset == offset + 1 + |NameWritten(f)|
    ensures SkipWhitespace(content, offset + 1) < |content| && content[SkipWhitespace(content, offset + 1)] as int > 32
  {
    hide LiteralAt, ParseString, SkipWhitespace, LiteralText, ValidLiteral;
    var start := SkipWhitespace(content, offset + 1);
    var name := LiteralOf(content, start);
    LiteralParses(name, content, start);
    var next := start + |LiteralText(name)|;
    var colon := SkipWhitespace(content, next);
    var before := Skipped(content, offset + 1);
    var between := Skipped(content, next);
    var gap := Skipped(content, colon + 1);
    f := Field(before, name, between, gap, Word("null"), "");
    CharText(content, colon, ':');
    Join3(content, next, between, ":", gap);
    Join3(content, offset + 1, before, LiteralText(name), between + ":" + gap);
  }

  lemma {:induction false} FieldsOf(content: string, offset: nat, depth: nat) returns (fields: seq<Field>)
    requires offset < |content| && depth <= NESTING_LIMIT && ParseMembers(content, offset, depth).Ok?
    ensures fields != [] && ValidFields(fields) && LiteralAt(content, offset + 1, FieldsWritten(fields))
    ensures CharAt(content, offset + 1 + |FieldsWritten(fields)|, '}')
    ensures SkipWhitespace(content, offset + 1) < |content| && content[SkipWhitespace(content, offset + 1)] as int > 32
    decreases |content| - offset, 1
  {
    hide LiteralAt, ParseValue, ParseName, SkipWhitespace, FieldsWritten, ValidFields, Written, Found, Tree, NameWritten, ValidName;
    var start := ParseName(content, offset).offset;
    var value := ValueOf(content, start, depth);
    var f := NameOf(content, offset);
    var next := start + |Written(value)|;
    var end := SkipWhitespace(content, next);
    var after := Skipped(content, next);
    var rest := [];
    if CharAt(content, end, ',') {
      rest := FieldsOf(content, end, depth);
    }
    SameName(f, value, after);
    fields := FieldsJoined(f.(value := value, after := after), rest, content, offset + 1);
  }

  lemma SameName(f: Field, value: Spelled, after: string)
    ensures NameWritten(f.(value := value, after := after)) == NameWritten(f)
    ensures ValidName(f.(value := value, after := after)) == ValidName(f)
  {
  }

  lemma FieldsJoined(f: Field, rest: seq<Field>, content: string, at: nat) returns (fields: seq<Field>)
    requires var start := at + |NameWritten(f)|;
             var next := start + |Written(f.value)|;
             var end := next + |f.after|;
             && ValidName(f) && LiteralAt(content, at, NameWritten(f))
             && Found(f.value, content, start)
             && Blanks(f.after) && LiteralAt(content, next, f.after)
             && (if rest == [] then CharAt(content, end, '}')
                 else
                   && CharAt(content, end, ',') && ValidFields(rest) && LiteralAt(content, end + 1, FieldsWritten(rest))
                   && CharAt(content, end + 1 + |FieldsWritten(rest)|, '}'))
    ensures fields == [f] + rest && ValidFields(fields) && LiteralAt(content, at, FieldsWritten(fields))
    ensures CharAt(content, at + |FieldsWritten(fields)|, '}')
  {
    hide LiteralAt, Written, Valid, Ends, NameWritten, ValidName;
    fields := [f] + rest;
    var comma := Comma(rest != []);
    var next := at + |NameWritten(f)| + |Written(f.value)|;
    var end := next + |f.after|;
    CommaText(content, end, rest != []);
    assert fields[1..] == rest;
    NoItems();
    assert LiteralAt(content, end + |comma|, FieldsWritten(rest)) by {
      if rest == [] {
        NothingAt(content, end);
      }
    }
    Join(content, next, f.after, comma);
    Join3(content, at, NameWritten(f), Written(f.value), f.after + comma);
    Join(content, at, FieldWritten(f, rest != []), FieldsWritten(rest));
  }

  /** A value is read at an offset exactly when a text of the grammar stands there, nested no deeper
      than the limit, with nothing behind it that would continue a number; and the value is its tree. */
  lemma ParseValueExact(content: string, offset: nat, depth: nat, t: Json, next: nat)
    requires offset <= |content| && depth <= NESTING_LIMIT
    ensures ParseValue(content, offset, depth) == Ok(t, next) <==>
            exists d :: && Found(d, content, offset) && Tree(d) == t && next == offset + |Written(d)|
                        && depth + Nesting(t) <= NESTING_LIMIT
  {
    hide ParseValue, Valid, LiteralAt, Ends, Written, Tree, Nesting;
    if ParseValue(content, offset, depth) == Ok(t, next) {
      var d := ValueOf(content, offset, depth);
    }
    forall d | Found(d, content, offset) && Tree(d) == t && next == offset + |Written(d)| && depth + Nesting(t) <= NESTING_LIMIT
      ensures ParseValue(content, offset, depth) == Ok(t, next)
    {
      FoundIsParsed(d, content, offset, depth);
    }
  }

  lemma FoundIsParsed(d: Spelled, content: string, offset: nat, depth: nat)
    requires Found(d, content, offset) && offset <= |content| && depth <= NESTING_LIMIT
    ensures ParseValue(content, offset, depth) == Expected(Tree(d), depth, offset + |Written(d)|)
  {
    hide ParseValue, Written, Tree, Valid, LiteralAt, Ends;
    SpelledParses(d, content, offset, depth);
  }

  // ---- whole texts ----

  const BYTE_ORDER_MARK: string := [0xEF as char, 0xBB as char, 0xBF as char]

  predicate Beginning(mark: string, before: string) {
    (mark == "" || mark == BYTE_ORDER_MARK) && Blanks(before)
  }

  /** The text is one value, with blanks around it and perhaps a byte order mark in front. */
  ghost predicate Spells(text: string, t: Json) {
    exists mark, before, d, after ::
      && Beginning(mark, before) && Valid(d) && Blanks(after)
      && Tree(d) == t && text == mark + before + Written(d) + after
  }

  /** The first n characters of the text are one value, which does not go on behind them. */
  ghost predicate SpellsFirst(text: string, n: nat, t: Json) {
    exists mark, before, d ::
      && Beginning(mark, before) && Valid(d) && Tree(d) == t
      && LiteralAt(text, 0, mark + before + Written(d)) && n == |mark + before + Written(d)|
      && Ends(d, text + "\0", n)
  }

  lemma LastIsNoNul(d: Spelled)
    requires Valid(d)
    ensures Written(d) != "" && Written(d)[|Written(d)| - 1] != '\0'
  {
    hide ValidItems, ValidFields, ItemsWritten, FieldsWritten, ValidLiteral;
    if d.Numeric? {
      assert Digit(d.digits[|d.digits| - 1]);
    }
  }

  /** Where the parse of a text begins. */
  lemma Begins(text: string, mark: string, before: string, d: Spelled)
    requires Beginning(mark, before) && Valid(d) && LiteralAt(text, 0, mark + before + Written(d))
    ensures SkipBom(text + "\0") == |mark|
    ensures SkipWhitespace(text + "\0", |mark|) == |mark| + |before| < |text|
    ensures LiteralAt(text + "\0", |mark| + |before|, Written(d))
  {
    hide Valid, Written;
    var content := text + "\0";
    assert LiteralAt(content, 0, mark + before + Written(d));
    Split3(content, 0, mark, before, Written(d));
    Split3(text, 0, mark, before, Written(d));
    ValueStarts(d, text, |mark| + |before|);
    BlanksAt(content, |mark|, before);
    Skips(content, |mark|, |mark| + |before|);
    LastIsNoNul(d);
    if mark == "" {
      assert before != "" ==> content[0] == before[0];
    } else {
      Index(content, 0, mark, 0);
      Index(content, 0, mark, 1);
      Index(content, 0, mark, 2);
    }
  }

  /** The value at the beginning of a text that the parser accepts. */
  lemma BeginningOf(text: string) returns (mark: string, before: string, d: Spelled)
    requires ParseWithOpts(text, false).Ok?
    ensures Beginning(mark, before) && Valid(d) && LiteralAt(text, 0, mark + before + Written(d))
    ensures Ends(d, text + "\0", |mark + before + Written(d)|) && Nesting(Tree(d)) <= NESTING_LIMIT
    ensures ParseValue(text + "\0", SkipWhitespace(text + "\0", SkipBom(text + "\0")), 0)
            == Ok(Tree(d), |mark + before + Written(d)|)
  {
    hide ParseValue, SkipWhitespace, LiteralAt, Valid, Written, Tree, Ends;
    var content := text + "\0";
    var from := SkipBom(content);
    var start := SkipWhitespace(content, from);
    d := ValueOf(content, start, 0);
    before := Skipped(content, from);
    mark := content[..from];
    SliceAt(content, 0, from);
    Join3(content, 0, mark, before, Written(d));
    LastIsNoNul(d);
    WithoutNul(text, mark + before + Written(d));
    assert mark == "" || mark == BYTE_ORDER_MARK;
  }

  lemma WithoutNul(text: string, s: string)
    requires LiteralAt(text + "\0", 0, s) && s != "" && s[|s| - 1] != '\0'
    ensures LiteralAt(text, 0, s)
  {
    Index(text + "\0", 0, s, |s| - 1);
    forall i | 0 <= i < |s|
      ensures text[0 + i] == s[i]
    {
      Index(text + "\0", 0, s, i);
    }
  }

  /** cJSON_Parse reads the value a text begins with, whatever follows. */
  lemma ParsePrefixExact(text: string, t: Json, n: nat)
    ensures ParseWithOpts(text, false) == Ok(t, n) <==> SpellsFirst(text, n, t) && Nesting(t) <= NESTING_LIMIT
  {
    hide ParseValue, SkipWhitespace, SkipBom, LiteralAt, Valid, Written, Tree, Ends, Nesting;
    if ParseWithOpts(text, false) == Ok(t, n) {
      var mark, before, d := BeginningOf(text);
    }
    if SpellsFirst(text, n, t) {
      var mark, before, d :|
        && Beginning(mark, before) && Valid(d) && Tree(d) == t
        && LiteralAt(text, 0, mark + before + Written(d)) && n == |mark + before + Written(d)|
        && Ends(d, text + "\0", n);
      Begins(text, mark, before, d);
      SpelledParses(d, text + "\0", |mark| + |before|, 0);
    }
  }

  lemma TrailingBlanks(text: string, next: nat)
    requires next <= |text|
    ensures Blank(text, next, |text|) ==> SkipWhitespace(text + "\0", next) == |text|
    ensures NulFree(text) && CharAt(text + "\0", SkipWhitespace(text + "\0", next), '\0') ==> Blank(text, next, |text|)
  {
    var content := text + "\0";
    if Blank(text, next, |text|) {
      assert forall i :: next <= i < |content| ==> content[i] as int <= 32;
    }
    if NulFree(text) && CharAt(content, SkipWhitespace(content, next), '\0') {
      assert SkipWhitespace(content, next) == |text|;
      assert forall i :: next <= i < |text| ==> content[i] == text[i];
    }
  }

  /** A text is accepted as a whole exactly when it is one value of the grammar with blanks around it,
      nested no deeper than the limit; and what comes out is its tree. */
  lemma ParseTextExact(text: string, t: Json, n: nat)
    requires NulFree(text)
    ensures ParseWithOpts(text, true) == Ok(t, n) <==> n == |text| && Spells(text, t) && Nesting(t) <= NESTING_LIMIT
  {
    hide ParseValue, SkipWhitespace, SkipBom, LiteralAt, Valid, Written, Tree, Ends, Nesting;
    if ParseWithOpts(text, true) == Ok(t, n) {
      var mark, before, d := BeginningOf(text);
      var first := mark + before + Written(d);
      FirstPart(text, first);
      TrailingBlanks(text, |first|);
      var after := text[|first|..];
      assert Blanks(after) && text == mark + before + Written(d) + after;
    }
    if Spells(text, t) {
      var mark, before, d, after :|
        && Beginning(mark, before) && Valid(d) && Blanks(after)
        && Tree(d) == t && text == mark + before + Written(d) + after;
      WholeParses(text, mark, before, d, after);
    }
  }

  lemma FirstPart(text: string, first: string)
    requires LiteralAt(text, 0, first)
    ensures |first| <= |text| && text == first + text[|first|..]
  {
    assert text[..|first|] == first;
  }

  lemma BlanksBehind(text: string, first: string, after: string)
    requires text == first + after && Blanks(after)
    ensures LiteralAt(text, 0, first) && Blank(text, |first|, |text|) && (text + "\0")[|first|] as int <= 32
  {
    assert forall i :: |first| <= i < |text| ==> text[i] == after[i - |first|];
  }

  lemma WholeParses(text: string, mark: string, before: string, d: Spelled, after: string)
    requires Beginning(mark, before) && Valid(d) && Blanks(after) && text == mark + before + Written(d) + after
    ensures ParseWithOpts(text, true) == Expected(Tree(d), 0, |text|)
    ensures ParseWithOpts(text, false) == Expected(Tree(d), 0, |mark + before + Written(d)|)
  {
    hide ParseValue, SkipWhitespace, SkipBom, Valid, Written, Tree, Nesting, LiteralAt, Blanks, Blank;
    var next := |mark + before + Written(d)|;
    BlanksBehind(text, mark + before + Written(d), after);
    Begins(text, mark, before, d);
    StopsAt(text + "\0", next);
    SpelledParses(d, text + "\0", |mark| + |before|, 0);
    TrailingBlanks(text, next);
  }
}
