/** What cJSON_Minify does to any JSON text with blanks and comments in it: they go, and nothing else
    changes, so the tree of the text stays what it was. */
module MinifyMeaning {
  import opened CString
  import opened JsonTree
  import opened JsonText
  import opened JsonParse
  import opened Spelling
  import opened ParseExact
  import opened ShortestText
  import opened Minifying
  import MinifyPrint

  // ---- what stands between tokens ----

  datatype Gap =
    | Space(c: char)
    | Line(comment: string)
    | Block(comment: string)

  function GapText(g: Gap): string {
    match g
    case Space(c) => [c]
    case Line(comment) => "//" + comment + "\n"
    case Block(comment) => "/*" + comment + "*/"
  }

  /** A blank, a comment up to the end of its line, or a comment up to the first end mark. */
  predicate ValidGap(g: Gap) {
    match g
    case Space(c) => c in " \t\r\n"
    case Line(comment) => '\n' !in comment
    case Block(comment) => forall i :: 0 <= i < |comment| - 1 ==> !(comment[i] == '*' && comment[i + 1] == '/')
  }

  function GapsText(gs: seq<Gap>): string {
    if gs == [] then "" else GapText(gs[0]) + GapsText(gs[1..])
  }

  predicate ValidGaps(gs: seq<Gap>) {
    forall i :: 0 <= i < |gs| ==> ValidGap(gs[i])
  }

  ghost predicate IsGap(s: string) {
    exists gs :: ValidGaps(gs) && GapsText(gs) == s
  }

  lemma {:induction false} LineEnds(comment: string, rest: string)
    requires '\n' !in comment
    ensures LineLength(comment + ("\n" + rest)) == |comment| + 1
  {
    if comment == "" {
      assert comment + ("\n" + rest) == "\n" + rest;
    } else {
      assert comment[0] in comment;
      assert (comment + ("\n" + rest))[1..] == comment[1..] + ("\n" + rest);
      LineEnds(comment[1..], rest);
    }
  }

  lemma {:induction false} BlockEnds(comment: string, rest: string)
    requires ValidGap(Block(comment))
    ensures CommentLength(comment + ("*/" + rest)) == |comment| + 2
  {
    var s := comment + ("*/" + rest);
    if comment == "" {
      assert s == "*/" + rest;
    } else {
      assert s[1..] == comment[1..] + ("*/" + rest);
      assert |comment| == 1 ==> s[1] == '*';
      BlockEnds(comment[1..], rest);
    }
  }

  /** What the minifier does at the start of a comment. */
  lemma AtComment(s: string)
    requires |s| > 1 && s[0] == '/'
    ensures s[1] == '/' ==> Minify(s) == Minify(s[2..][LineLength(s[2..])..])
    ensures s[1] == '*' ==> Minify(s) == Minify(s[2..][CommentLength(s[2..])..])
  {
    hide LineLength, CommentLength;
  }

  lemma LineGoes(comment: string, rest: string)
    requires '\n' !in comment
    ensures Minify("//" + comment + "\n" + rest) == Minify(rest)
  {
    hide Minify, LineLength;
    var s, tail := "//" + comment + "\n" + rest, comment + ("\n" + rest);
    LineEnds(comment, rest);
    assert s[2..] == tail && tail[|comment| + 1..] == rest;
    AtComment(s);
  }

  lemma BlockGoes(comment: string, rest: string)
    requires ValidGap(Block(comment))
    ensures Minify("/*" + comment + "*/" + rest) == Minify(rest)
  {
    hide Minify, CommentLength, ValidGap;
    var s, tail := "/*" + comment + "*/" + rest, comment + ("*/" + rest);
    BlockEnds(comment, rest);
    assert s[2..] == tail && tail[|comment| + 2..] == rest;
    AtComment(s);
  }

  lemma GapGoes(g: Gap, rest: string)
    requires ValidGap(g)
    ensures Minify(GapText(g) + rest) == Minify(rest)
  {
    match g
    case Space(c) => assert ([c] + rest)[1..] == rest;
    case Line(comment) => LineGoes(comment, rest);
    case Block(comment) => BlockGoes(comment, rest);
  }

  lemma {:induction false} GapsGo(gs: seq<Gap>, rest: string)
    requires ValidGaps(gs)
    ensures Minify(GapsText(gs) + rest) == Minify(rest)
  {
    hide Minify, GapText, ValidGap;
    if gs == [] {
      assert "" + rest == rest;
    } else {
      assert GapsText(gs) + rest == GapText(gs[0]) + (GapsText(gs[1..]) + rest);
      GapGoes(gs[0], GapsText(gs[1..]) + rest);
      GapsGo(gs[1..], rest);
    }
  }

  lemma IsGapGoes(s: string, rest: string)
    requires IsGap(s)
    ensures Minify(s + rest) == Minify(rest)
  {
    hide Minify;
    var gs :| ValidGaps(gs) && GapsText(gs) == s;
    GapsGo(gs, rest);
  }

  /** The blanks of RFC 8259 are gaps. */
  lemma {:induction false} BlanksAreGap(s: string)
    requires StrictBlanks(s)
    ensures IsGap(s)
  {
    if s == "" {
      assert ValidGaps([]) && GapsText([]) == "";
    } else {
      BlanksAreGap(s[1..]);
      var gs :| ValidGaps(gs) && GapsText(gs) == s[1..];
      var more := [Space(s[0])] + gs;
      assert more[1..] == gs;
      assert GapsText(more) == [s[0]] + s[1..] == s;
      assert ValidGaps(more);
    }
  }

  /** A comment that does not end takes the rest of the text with it; a slash that begins no comment
      just goes. */
  lemma LooseSlashes(rest: string)
    ensures '\n' !in rest ==> Minify("//" + rest) == ""
    ensures (forall i :: 0 <= i < |rest| - 1 ==> !(rest[i] == '*' && rest[i + 1] == '/')) ==> Minify("/*" + rest) == ""
    ensures (rest == "" || (rest[0] != '/' && rest[0] != '*')) ==> Minify("/" + rest) == Minify(rest)
  {
    hide Minify, LineLength, CommentLength;
    assert ("//" + rest)[2..] == rest && ("/*" + rest)[2..] == rest;
    AtComment("//" + rest);
    AtComment("/*" + rest);
    MinifyNothing();
    assert rest[|rest|..] == "";
    if '\n' !in rest {
      OpenLine(rest);
    }
    if forall i :: 0 <= i < |rest| - 1 ==> !(rest[i] == '*' && rest[i + 1] == '/') {
      OpenBlock(rest);
    }
    if rest == "" || (rest[0] != '/' && rest[0] != '*') {
      LooseSlash(rest);
    }
  }

  lemma LooseSlash(rest: string)
    requires rest == "" || (rest[0] != '/' && rest[0] != '*')
    ensures Minify("/" + rest) == Minify(rest)
  {
    assert ("/" + rest)[1..] == rest;
  }

  lemma {:induction false} OpenLine(s: string)
    requires '\n' !in s
    ensures LineLength(s) == |s|
  {
    if s != "" {
      assert s[0] in s;
      OpenLine(s[1..]);
    }
  }

  lemma {:induction false} OpenBlock(s: string)
    requires forall i :: 0 <= i < |s| - 1 ==> !(s[i] == '*' && s[i + 1] == '/')
    ensures CommentLength(s) == |s|
  {
    if s != "" {
      OpenBlock(s[1..]);
    }
  }

  // ---- literals ----

  /** The minifier finds the closing quote: to it, only a quote right behind a backslash is escaped. */
  predicate Enclosed(body: string) {
    if body == "" then true
    else if body[0] == '\"' then false
    else if body[0] == '\\' then
      |body| > 1 && (if body[1] == '\"' then Enclosed(body[2..]) else Enclosed(body[1..]))
    else Enclosed(body[1..])
  }

  lemma {:induction false} EnclosedLength(body: string, rest: string)
    requires Enclosed(body)
    ensures StringLength(body + ("\"" + rest)) == |body| + 1
    decreases |body|
  {
    var s := body + ("\"" + rest);
    if body == "" {
      assert s == "\"" + rest;
    } else {
      var n := if body[0] == '\\' && body[1] == '\"' then 2 else 1;
      assert s[n..] == body[n..] + ("\"" + rest);
      EnclosedLength(body[n..], rest);
    }
  }

  lemma LiteralStays(body: string, rest: string)
    requires Enclosed(body)
    ensures Minify("\"" + body + "\"" + rest) == "\"" + body + "\"" + Minify(rest)
  {
    hide Minify;
    EnclosedLength(body, rest);
    MinifyPrint.MinifyLiteral(body + ("\"" + rest));
    assert "\"" + (body + ("\"" + rest)) == "\"" + body + "\"" + rest;
    assert (body + ("\"" + rest))[..|body| + 1] == body + "\"" && (body + ("\"" + rest))[|body| + 1..] == rest;
  }

  // ---- texts with comments ----

  ghost predicate CommentedLiteral(l: Literal) {
    StrictLiteral(l) && Enclosed(l.body)
  }

  /** A text of RFC 8259, but with comments allowed wherever blanks are. */
  ghost predicate Commented(d: Spelled)
    decreases d, 1
  {
    match d
    case Word(_) => Strict(d)
    case Numeric(_, _) => Strict(d)
    case Quoted(literal) => CommentedLiteral(literal)
    case Bracketed(inside, items) => IsGap(inside) && CommentedItems(items)
    case Braced(inside, fields) => IsGap(inside) && CommentedFields(fields)
  }

  ghost predicate CommentedItems(items: seq<Item>)
    decreases items, 0
  {
    items == [] ||
    (IsGap(items[0].before) && Commented(items[0].value) && IsGap(items[0].after) && CommentedItems(items[1..]))
  }

  ghost predicate CommentedFields(fields: seq<Field>)
    decreases fields, 0
  {
    fields == [] ||
    (CommentedName(fields[0]) && Commented(fields[0].value) && IsGap(fields[0].after) && CommentedFields(fields[1..]))
  }

  ghost predicate CommentedName(f: Field) {
    IsGap(f.before) && CommentedLiteral(f.name) && IsGap(f.between) && IsGap(f.gap)
  }

  /** The same tokens with nothing between them. */
  function Squeezed(d: Spelled): Spelled
    decreases d, 1
  {
    match d
    case Bracketed(_, items) => Bracketed("", SqueezedItems(items))
    case Braced(_, fields) => Braced("", SqueezedFields(fields))
    case _ => d
  }

  function SqueezedItems(items: seq<Item>): (r: seq<Item>)
    ensures |r| == |items|
    decreases items, 0
  {
    if items == [] then [] else [Item("", Squeezed(items[0].value), "")] + SqueezedItems(items[1..])
  }

  function SqueezedFields(fields: seq<Field>): (r: seq<Field>)
    ensures |r| == |fields|
    decreases fields, 0
  {
    if fields == [] then []
    else [Field("", fields[0].name, "", "", Squeezed(fields[0].value), "")] + SqueezedFields(fields[1..])
  }

  lemma Keeps(w: string, rest: string)
    requires forall i :: 0 <= i < |w| ==> Ordinary(w[i])
    ensures Minify(w + rest) == w + Minify(rest)
  {
    MinifyPrint.OrdinaryRun(w, rest);
  }

  lemma {:induction false} SqueezedStrict(d: Spelled)
    requires Commented(d)
    ensures Strict(Squeezed(d))
    decreases d, 1
  {
    hide StrictLiteral, IsGap;
    match d
    case Bracketed(_, items) => SqueezedItemsStrict(items);
    case Braced(_, fields) => SqueezedFieldsStrict(fields);
    case _ =>
  }

  lemma {:induction false} SqueezedItemsStrict(items: seq<Item>)
    requires CommentedItems(items)
    ensures StrictItems(SqueezedItems(items))
    decreases items, 0
  {
    hide Strict, Squeezed, Commented;
    if items != [] {
      SqueezedStrict(items[0].value);
      SqueezedItemsStrict(items[1..]);
      assert SqueezedItems(items)[1..] == SqueezedItems(items[1..]);
    }
  }

  lemma {:induction false} SqueezedFieldsStrict(fields: seq<Field>)
    requires CommentedFields(fields)
    ensures StrictFields(SqueezedFields(fields))
    decreases fields, 0
  {
    hide Strict, Squeezed, Commented, StrictLiteral, IsGap, Enclosed;
    if fields != [] {
      SqueezedStrict(fields[0].value);
      SqueezedFieldsStrict(fields[1..]);
      assert SqueezedFields(fields)[1..] == SqueezedFields(fields[1..]);
    }
  }

  // ---- minified ----

  lemma Regrouped(a: string, b: string, c: string)
    ensures a + b + c == a + (b + c)
  {
  }

  lemma {:induction false} CommentedMinified(d: Spelled, rest: string)
    requires Commented(d)
    ensures Minify(Written(d) + rest) == Written(Squeezed(d)) + Minify(rest)
    decreases d, 1
  {
    hide Minify, StrictLiteral, Enclosed, IsGap, ItemsWritten, FieldsWritten, CommentedItems, CommentedFields, SqueezedItems,
         SqueezedFields;
    match d
    case Word(word) => Keeps(word, rest);
    case Numeric(negative, digits) => Keeps(Written(d), rest);
    case Quoted(literal) => LiteralStays(literal.body, rest);
    case Bracketed(inside, items) =>
      ItemsMinified(items, "]" + rest);
      BracketsStay("[", inside, ItemsWritten(items), ItemsWritten(SqueezedItems(items)), "]", rest);
    case Braced(inside, fields) =>
      FieldsMinified(fields, "}" + rest);
      BracketsStay("{", inside, FieldsWritten(fields), FieldsWritten(SqueezedFields(fields)), "}", rest);
  }

  lemma BracketsStay(a: string, inside: string, all: string, squeezed: string, b: string, rest: string)
    requires (forall i :: 0 <= i < |a| ==> Ordinary(a[i])) && (forall i :: 0 <= i < |b| ==> Ordinary(b[i])) && IsGap(inside)
    requires Minify(all + (b + rest)) == squeezed + Minify(b + rest)
    ensures Minify(a + (inside + all) + b + rest) == a + ("" + squeezed) + b + Minify(rest)
  {
    hide Minify, IsGap;
    Nested(a, inside, all, b, rest);
    Keeps(a, inside + (all + (b + rest)));
    IsGapGoes(inside, all + (b + rest));
    Keeps(b, rest);
    Nested(a, "", squeezed, b, Minify(rest));
    assert "" + (squeezed + (b + Minify(rest))) == squeezed + (b + Minify(rest));
  }

  lemma Nested(a: string, inside: string, all: string, b: string, rest: string)
    ensures a + (inside + all) + b + rest == a + (inside + (all + (b + rest)))
  {
  }

  lemma {:induction false} ItemsMinified(items: seq<Item>, rest: string)
    requires CommentedItems(items)
    ensures Minify(ItemsWritten(items) + rest) == ItemsWritten(SqueezedItems(items)) + Minify(rest)
    decreases items, 0
  {
    hide Minify, Written, Squeezed, Commented, IsGap;
    if items == [] {
      assert "" + rest == rest && "" + Minify(rest) == Minify(rest);
    } else {
      var item, more := items[0], ItemsWritten(items[1..]) + rest;
      var comma := Comma(|items| > 1);
      ItemsMinified(items[1..], rest);
      assert SqueezedItems(items)[1..] == SqueezedItems(items[1..]);
      Unrolled(item.before, Written(item.value), item.after, comma, ItemsWritten(items[1..]), rest);
      IsGapGoes(item.before, Written(item.value) + (item.after + (comma + more)));
      CommentedMinified(item.value, item.after + (comma + more));
      IsGapGoes(item.after, comma + more);
      Keeps(comma, more);
      Rolled("", Written(Squeezed(item.value)), "", comma, ItemsWritten(SqueezedItems(items[1..])), Minify(rest));
    }
  }

  lemma Unrolled(before: string, text: string, after: string, comma: string, others: string, rest: string)
    ensures before + text + (after + comma) + others + rest == before + (text + (after + (comma + (others + rest))))
  {
  }

  lemma Rolled(before: string, text: string, after: string, comma: string, others: string, rest: string)
    ensures before + text + (after + comma) + others + rest == before + (text + (after + (comma + (others + rest))))
    ensures before == "" && after == "" ==>
              before + (text + (after + (comma + (others + rest)))) == text + (comma + (others + rest))
  {
  }

  lemma NameMinified(f: Field, rest: string)
    requires CommentedName(f)
    ensures Minify(NameWritten(f) + rest) == LiteralText(f.name) + ":" + Minify(rest)
  {
    hide Minify, IsGap, Enclosed, StrictLiteral;
    var name := LiteralText(f.name);
    assert NameWritten(f) + rest == f.before + (name + (f.between + (":" + (f.gap + rest))));
    IsGapGoes(f.before, name + (f.between + (":" + (f.gap + rest))));
    LiteralStays(f.name.body, f.between + (":" + (f.gap + rest)));
    IsGapGoes(f.between, ":" + (f.gap + rest));
    Keeps(":", f.gap + rest);
    IsGapGoes(f.gap, rest);
    Regrouped(name, ":", Minify(rest));
  }

  /** One member, in front of what follows it. */
  lemma FieldMinified(f: Field, comma: string, others: string, squeezed: string, rest: string)
    requires CommentedName(f) && IsGap(f.after) && (comma == "" || comma == ",")
    requires Minify(Written(f.value) + (f.after + (comma + (others + rest))))
             == Written(Squeezed(f.value)) + Minify(f.after + (comma + (others + rest)))
    requires Minify(others + rest) == squeezed + Minify(rest)
    ensures Minify(NameWritten(f) + Written(f.value) + (f.after + comma) + others + rest)
            == LiteralText(f.name) + ":" + Written(Squeezed(f.value)) + ("" + comma) + squeezed + Minify(rest)
  {
    hide Minify, Written, Squeezed, IsGap, CommentedName, LiteralText, NameWritten;
    var value := Written(Squeezed(f.value));
    Unrolled(NameWritten(f), Written(f.value), f.after, comma, others, rest);
    NameMinified(f, Written(f.value) + (f.after + (comma + (others + rest))));
    IsGapGoes(f.after, comma + (others + rest));
    Keeps(comma, others + rest);
    Unrolled(LiteralText(f.name) + ":", value, "", comma, squeezed, Minify(rest));
    assert "" + (comma + (squeezed + Minify(rest))) == comma + (squeezed + Minify(rest));
  }

  lemma {:induction false} FieldsMinified(fields: seq<Field>, rest: string)
    requires CommentedFields(fields)
    ensures Minify(FieldsWritten(fields) + rest) == FieldsWritten(SqueezedFields(fields)) + Minify(rest)
    decreases fields, 0
  {
    hide Minify, Written, Squeezed, Commented, IsGap, CommentedName, LiteralText;
    if fields == [] {
      assert "" + rest == rest && "" + Minify(rest) == Minify(rest);
    } else {
      var f, others := fields[0], FieldsWritten(fields[1..]);
      var comma := Comma(|fields| > 1);
      FieldsMinified(fields[1..], rest);
      CommentedMinified(f.value, f.after + (comma + (others + rest)));
      FieldMinified(f, comma, others, FieldsWritten(SqueezedFields(fields[1..])), rest);
      var squeezed := SqueezedFields(fields);
      assert squeezed[1..] == SqueezedFields(fields[1..]);
      assert NameWritten(squeezed[0]) == LiteralText(f.name) + ":";
    }
  }

  /** Minifying takes away the blanks and comments of a text and nothing else; what is left is text of
      RFC 8259 without blanks, and is parsed to its tree. */
  lemma MinifyThenParse(before: string, d: Spelled, after: string, requireNullTerminated: bool)
    requires IsGap(before) && Commented(d) && IsGap(after)
    ensures Minify(before + Written(d) + after) == Written(Squeezed(d))
    ensures Strict(Squeezed(d)) && Valid(Squeezed(d))
    ensures ParseWithOpts(Minify(before + Written(d) + after), requireNullTerminated) ==
            Expected(Tree(Squeezed(d)), 0, |Written(Squeezed(d))|)
  {
    hide Minify, Written, Squeezed, Commented, IsGap, Strict, Valid, Tree, ParseWithOpts, Nesting;
    var text := Written(Squeezed(d));
    assert before + Written(d) + after == before + (Written(d) + after);
    IsGapGoes(before, Written(d) + after);
    CommentedMinified(d, after);
    assert after + "" == after;
    IsGapGoes(after, "");
    MinifyNothing();
    assert text + "" == text;
    SqueezedStrict(d);
    RfcTextParses("", Squeezed(d), "", requireNullTerminated);
    assert "" + text + "" == text;
  }

  lemma MinifyNothing()
    ensures Minify("") == ""
  {
  }

  // ---- text without comments ----

  predicate EnclosedLiterals(d: Spelled)
    decreases d, 1
  {
    match d
    case Quoted(literal) => Enclosed(literal.body)
    case Bracketed(_, items) => EnclosedItems(items)
    case Braced(_, fields) => EnclosedFields(fields)
    case _ => true
  }

  predicate EnclosedItems(items: seq<Item>)
    decreases items, 0
  {
    items == [] || (EnclosedLiterals(items[0].value) && EnclosedItems(items[1..]))
  }

  predicate EnclosedFields(fields: seq<Field>)
    decreases fields, 0
  {
    fields == [] || (Enclosed(fields[0].name.body) && EnclosedLiterals(fields[0].value) && EnclosedFields(fields[1..]))
  }

  lemma {:induction false} StrictIsCommented(d: Spelled)
    requires Strict(d) && EnclosedLiterals(d)
    ensures Commented(d) && Valid(d) && Valid(Squeezed(d)) && Tree(Squeezed(d)) == Tree(d)
    decreases d, 1
  {
    hide StrictLiteral, ValidLiteral, IsGap, Enclosed, LiteralString, Clamped, Numeral, StrictBlanks;
    StrictIsValid(d);
    match d
    case Bracketed(inside, items) =>
      BlanksAreGap(inside);
      ItemsAreCommented(items);
    case Braced(inside, fields) =>
      BlanksAreGap(inside);
      FieldsAreCommented(fields);
    case _ =>
  }

  lemma {:induction false} ItemsAreCommented(items: seq<Item>)
    requires StrictItems(items) && EnclosedItems(items)
    ensures CommentedItems(items) && ValidItems(items)
    ensures ValidItems(SqueezedItems(items)) && ItemTrees(SqueezedItems(items)) == ItemTrees(items)
    decreases items, 0
  {
    hide Strict, Commented, Squeezed, Valid, Tree, IsGap, StrictBlanks;
    StrictItemsValid(items);
    if items != [] {
      BlanksAreGap(items[0].before);
      BlanksAreGap(items[0].after);
      StrictIsCommented(items[0].value);
      ItemsAreCommented(items[1..]);
      assert SqueezedItems(items)[1..] == SqueezedItems(items[1..]);
    }
  }

  lemma {:induction false} FieldsAreCommented(fields: seq<Field>)
    requires StrictFields(fields) && EnclosedFields(fields)
    ensures CommentedFields(fields) && ValidFields(fields)
    ensures ValidFields(SqueezedFields(fields)) && FieldTrees(SqueezedFields(fields)) == FieldTrees(fields)
    decreases fields, 0
  {
    hide Strict, Commented, Squeezed, Valid, Tree, IsGap, StrictBlanks, StrictLiteral, ValidLiteral, LiteralString, Enclosed;
    StrictFieldsValid(fields);
    if fields != [] {
      var f := fields[0];
      BlanksAreGap(f.before);
      BlanksAreGap(f.between);
      BlanksAreGap(f.gap);
      BlanksAreGap(f.after);
      StrictIsCommented(f.value);
      FieldsAreCommented(fields[1..]);
      assert SqueezedFields(fields)[1..] == SqueezedFields(fields[1..]);
    }
  }

  /** Minifying a text of RFC 8259 whose literals it can tell does not change what is parsed. */
  lemma MinifyKeepsTree(before: string, d: Spelled, after: string)
    requires StrictBlanks(before) && Strict(d) && EnclosedLiterals(d) && StrictBlanks(after)
    ensures var text := before + Written(d) + after;
            match ParseWithOpts(text, true)
            case Fail => ParseWithOpts(Minify(text), true) == Fail
            case Ok(t, _) => ParseWithOpts(Minify(text), true) == Ok(t, |Minify(text)|)
  {
    hide Minify, Written, Squeezed, Commented, IsGap, Strict, Valid, Tree, ParseWithOpts, Nesting, EnclosedLiterals, StrictBlanks;
    StrictIsCommented(d);
    BlanksAreGap(before);
    BlanksAreGap(after);
    RfcTextParses(before, d, after, true);
    MinifyThenParse(before, d, after, true);
  }
}
