/** Minifying the formatted text of a tree. It gives the unformatted text exactly when no literal
    that could hide the formatting behind it ends in a backslash. */
module MinifyPrint {
  import opened Sequences
  import opened JsonTree
  import opened JsonText
  import opened Minifying
  import opened PrintParse

  predicate EndsInBackslash(s: string) {
    s != "" && s[|s| - 1] == '\\'
  }

  /** No key and no string ends in a backslash. With `last`, nothing but closing brackets follows
      the tree, and the string that stands last in it may end as it likes. */
  predicate Safe(t: Json, last: bool)
    decreases t, 1
  {
    match t
    case String(s) => last || !EndsInBackslash(s)
    case Array(items) => SafeItems(items, last)
    case Object(ms) => SafeMembers(ms)
    case _ => true
  }

  predicate SafeItems(items: seq<Json>, last: bool)
    decreases items, 0
  {
    items == [] || (Safe(items[0], last && |items| == 1) && SafeItems(items[1..], last))
  }

  predicate SafeMembers(ms: seq<Member>)
    decreases ms, 0
  {
    ms == [] || (!EndsInBackslash(ms[0].key) && Safe(ms[0].value, false) && SafeMembers(ms[1..]))
  }

  // ---- runs ----

  lemma {:induction false} OrdinaryRun(w: string, rest: string)
    requires forall i :: 0 <= i < |w| ==> Ordinary(w[i])
    ensures Minify(w + rest) == w + Minify(rest)
  {
    if w == "" {
      assert w + rest == rest;
    } else {
      assert (w + rest)[1..] == w[1..] + rest;
      OrdinaryRun(w[1..], rest);
      assert w == [w[0]] + w[1..];
    }
  }

  lemma {:induction false} BlankRun(w: string, rest: string)
    requires forall i :: 0 <= i < |w| ==> Minifying.Blank(w[i])
    ensures Minify(w + rest) == Minify(rest)
  {
    if w == "" {
      assert w + rest == rest;
    } else {
      assert (w + rest)[1..] == w[1..] + rest;
      BlankRun(w[1..], rest);
    }
  }

  // ---- literals ----

  /** minify_string on a printed literal stops at its closing quote, unless a backslash in front of
      that quote seems to guard it. */
  lemma {:induction false} LiteralLength(s: string, rest: string)
    ensures StringLength(Escape(s) + "\"" + rest) ==
            |Escape(s)| + 1 + if EndsInBackslash(s) then StringLength(rest) else 0
  {
    if s == "" {
      assert Escape(s) + "\"" + rest == "\"" + rest;
    } else {
      var tail := Escape(s[1..]) + "\"" + rest;
      LiteralLength(s[1..], rest);
      LiteralCharacter(s[0], tail);
      assert Escape(s) + "\"" + rest == EscapeChar(s[0]) + tail;
      if s[1..] == "" {
        assert tail == "\"" + rest && tail[1..] == rest;
      } else {
        EscapeStarts(s[1..]);
        assert tail[0] == Escape(s[1..])[0];
      }
    }
  }

  lemma EscapeStarts(s: string)
    requires s != ""
    ensures Escape(s) != "" && Escape(s)[0] != '\"'
  {
    assert Escape(s)[0] == EscapeChar(s[0])[0];
  }

  /** One escaped character; a backslash pairs with a quote right behind it. */
  lemma LiteralCharacter(c: char, rest: string)
    requires rest != ""
    ensures c != '\\' || rest[0] != '\"' ==>
              StringLength(EscapeChar(c) + rest) == |EscapeChar(c)| + StringLength(rest)
    ensures c == '\\' && rest[0] == '\"' ==>
              StringLength(EscapeChar(c) + rest) == 3 + StringLength(rest[1..])
  {
    if c == '\"' {
      assert ("\\\"" + rest)[2..] == rest;
    } else if c == '\\' {
      BackslashPair(rest);
    } else {
      var e := EscapeChar(c);
      var whole := e + rest;
      assert whole[|e|..] == rest;
      hide StringLength, EscapeChar;
      PlainEscape(c);
      PlainRun(whole, |e|);
    }
  }

  lemma PlainEscape(c: char)
    requires c != '\"' && c != '\\'
    ensures forall i :: 0 <= i < |EscapeChar(c)| ==>
              EscapeChar(c)[i] != '\"' && (EscapeChar(c)[i] == '\\' ==> i + 1 < |EscapeChar(c)|)
  {
  }

  lemma BackslashPair(rest: string)
    requires rest != ""
    ensures StringLength("\\\\" + rest) == if rest[0] == '\"' then 3 + StringLength(rest[1..]) else 2 + StringLength(rest)
  {
    var whole := "\\\\" + rest;
    assert whole[1..][1..] == rest && whole[1..][2..] == rest[1..];
  }

  lemma {:induction false} PlainRun(s: string, n: nat)
    requires n < |s| && forall i :: 0 <= i < n ==> s[i] != '\"' && (s[i] == '\\' ==> i + 1 < n)
    ensures StringLength(s) == n + StringLength(s[n..])
    decreases n
  {
    if n == 0 {
      assert s[0..] == s;
    } else {
      PlainStep(s);
      PlainRun(s[1..], n - 1);
      assert s[1..][n - 1..] == s[n..];
    }
  }

  lemma PlainStep(s: string)
    requires s != "" && s[0] != '\"' && (s[0] == '\\' ==> |s| == 1 || s[1] != '\"')
    ensures StringLength(s) == 1 + StringLength(s[1..])
  {
  }

  /** What the minifier does at a quote. */
  lemma AtQuote(s: string)
    requires s != "" && s[0] == '\"'
    ensures var n := StringLength(s[1..]); Minify(s) == [s[0]] + s[1..][..n] + Minify(s[1..][n..])
  {
    hide StringLength;
  }

  lemma MinifyLiteral(body: string)
    ensures Minify("\"" + body) == "\"" + (body[..StringLength(body)] + Minify(body[StringLength(body)..]))
  {
    hide Minify, StringLength;
    var n := StringLength(body);
    AtQuote("\"" + body);
    assert ("\"" + body)[1..] == body;
    Regroup("\"", body[..n], Minify(body[n..]));
  }

  /** A printed literal is kept, with what it hides behind its closing quote. */
  lemma QuoteKept(s: string, rest: string)
    ensures !EndsInBackslash(s) ==> Minify(Quote(s) + rest) == Quote(s) + Minify(rest)
    ensures EndsInBackslash(s) ==>
              Minify(Quote(s) + rest) == Quote(s) + (rest[..StringLength(rest)] + Minify(rest[StringLength(rest)..]))
  {
    hide StringLength, Escape, Minify;
    var body := Escape(s) + "\"" + rest;
    Regroup("\"", Escape(s) + "\"", rest);
    Regroup("\"", Escape(s), "\"");
    LiteralLength(s, rest);
    MinifyLiteral(body);
    var n := if EndsInBackslash(s) then StringLength(rest) else 0;
    var m := |Escape(s)| + 1;
    assert body[..m + n] == Escape(s) + "\"" + rest[..n] && body[m + n..] == rest[n..];
    Regroup(Escape(s) + "\"", rest[..n], Minify(rest[n..]));
    Regroup("\"", Escape(s) + "\"", rest[..n] + Minify(rest[n..]));
    assert n == 0 ==> rest[n..] == rest && rest[..n] + Minify(rest[n..]) == Minify(rest);
  }

  // ---- separators ----

  lemma Regroup4(a: string, b: string, c: string, d: string)
    ensures a + b + c + d == a + (b + (c + d))
  {
  }

  lemma Cancel(p: string, a: string, b: string)
    requires p + a == p + b
    ensures a == b
  {
    assert (p + a)[|p|..] == a && (p + b)[|p|..] == b;
  }

  /** Ordinary characters, then blanks. */
  lemma Trimmed(w: string, blanks: string, rest: string)
    requires forall i :: 0 <= i < |w| ==> Ordinary(w[i])
    requires forall i :: 0 <= i < |blanks| ==> Minifying.Blank(blanks[i])
    ensures Minify(w + blanks + rest) == w + Minify(rest)
  {
    assert w + blanks + rest == w + (blanks + rest);
    OrdinaryRun(w, blanks + rest);
    BlankRun(blanks, rest);
  }

  lemma ItemSeparatorMinified(more: bool, rest: string)
    ensures Minify(ItemSeparator(more, true) + rest) == ItemSeparator(more, false) + Minify(rest)
  {
    if more {
      Trimmed(",", " ", rest);
      assert "," + " " == ", ";
    } else {
      Trimmed("", "", rest);
    }
  }

  lemma MemberSeparatorMinified(more: bool, rest: string)
    ensures Minify(MemberSeparator(more, true) + rest) == MemberSeparator(more, false) + Minify(rest)
  {
    Trimmed(if more then "," else "", "\n", rest);
    assert MemberSeparator(more, false) == if more then "," else "";
  }

  lemma KeyMinified(key: string, level: nat, rest: string)
    ensures !EndsInBackslash(key) ==> Minify(KeyText(key, true, level) + rest) == KeyText(key, false, level) + Minify(rest)
  {
    hide Quote;
    Regroup4(Tabs(level), Quote(key), ":\t", rest);
    BlankRun(Tabs(level), Quote(key) + (":\t" + rest));
    QuoteKept(key, ":\t" + rest);
    Trimmed(":", "\t", rest);
    assert ":" + "\t" == ":\t";
    assert "" + Quote(key) + ":" == Quote(key) + ":";
    Regroup(Quote(key), ":", Minify(rest));
  }

  // ---- safe trees ----

  lemma {:induction false} ValueMinified(t: Json, level: nat, rest: string)
    requires Plain(t) && Safe(t, false)
    ensures Minify(Render(t, true, level) + rest) == Render(t, false, level) + Minify(rest)
    decreases t, 1
  {
    match t
    case String(s) => QuoteKept(s, rest);
    case Array(items) =>
      var formatted, plain := RenderItems(items, true, level + 1), RenderItems(items, false, level + 1);
      Regroup4("[", formatted, "]", rest);
      OrdinaryRun("[", formatted + ("]" + rest));
      ItemsMinified(items, level + 1, "]" + rest);
      OrdinaryRun("]", rest);
      Regroup4("[", plain, "]", Minify(rest));
    case Object(ms) =>
      var formatted, plain := RenderMembers(ms, true, level + 1), RenderMembers(ms, false, level + 1);
      Regroup4("{\n", formatted, Closing(true, level), rest);
      Trimmed("{", "\n", formatted + (Closing(true, level) + rest));
      assert "{" + "\n" == "{\n";
      MembersMinified(ms, level + 1, Closing(true, level) + rest);
      ClosingMinified(level, rest);
      Regroup4("{", plain, "}", Minify(rest));
    case _ =>
      WordOrdinary(t, level);
      OrdinaryRun(Render(t, true, level), rest);
  }

  lemma WordOrdinary(t: Json, level: nat)
    requires t.Null? || t.False? || t.True? || t.Number?
    ensures Render(t, true, level) == Render(t, false, level)
    ensures forall i :: 0 <= i < |Render(t, true, level)| ==> Ordinary(Render(t, true, level)[i])
  {
    if t.Number? && t.valueint < 0 {
      assert Signed(t.valueint)[1..] == Decimal(-t.valueint);
      assert forall i :: 0 < i < |Signed(t.valueint)| ==> Signed(t.valueint)[i] == Decimal(-t.valueint)[i - 1];
    }
  }

  lemma ClosingMinified(level: nat, rest: string)
    ensures Minify(Closing(true, level) + rest) == "}" + Minify(rest)
  {
    Regroup(Tabs(level), "}", rest);
    BlankRun(Tabs(level), "}" + rest);
    OrdinaryRun("}", rest);
  }

  lemma {:induction false} ItemsMinified(items: seq<Json>, level: nat, rest: string)
    requires (forall i :: 0 <= i < |items| ==> Plain(items[i])) && SafeItems(items, false)
    ensures Minify(RenderItems(items, true, level) + rest) == RenderItems(items, false, level) + Minify(rest)
    decreases items, 0
  {
    hide Minify, ItemText, Plain, Safe;
    if items == [] {
      assert "" + rest == rest && "" + Minify(rest) == Minify(rest);
    } else {
      ItemsMinified(items[1..], level, rest);
      FirstItemMinified(items, level, rest);
    }
  }

  /** Past a safe element the minifying goes on with the rest. */
  lemma {:induction false} FirstItemMinified(items: seq<Json>, level: nat, rest: string)
    requires items != [] && Plain(items[0]) && Safe(items[0], false)
    ensures Minify(RenderItems(items, true, level) + rest) ==
            ItemText(items[0], |items| > 1, false, level) + Minify(RenderItems(items[1..], true, level) + rest)
    decreases items[0], 2
  {
    var more, tail := |items| > 1, RenderItems(items[1..], true, level);
    var value, plain := Render(items[0], true, level), Render(items[0], false, level);
    assert RenderItems(items, true, level) == value + ItemSeparator(more, true) + tail;
    Regroup4(value, ItemSeparator(more, true), tail, rest);
    ValueMinified(items[0], level, ItemSeparator(more, true) + (tail + rest));
    ItemSeparatorMinified(more, tail + rest);
    Regroup(plain, ItemSeparator(more, false), Minify(tail + rest));
  }

  lemma {:induction false} MembersMinified(ms: seq<Member>, level: nat, rest: string)
    requires PlainMembers(ms) && SafeMembers(ms)
    ensures Minify(RenderMembers(ms, true, level) + rest) == RenderMembers(ms, false, level) + Minify(rest)
    decreases ms, 0
  {
    if ms == [] {
      assert "" + rest == rest && "" + Minify(rest) == Minify(rest);
    } else {
      MembersMinified(ms[1..], level, rest);
      FirstMemberMinified(ms, level, rest);
    }
  }

  lemma {:induction false} FirstMemberMinified(ms: seq<Member>, level: nat, rest: string)
    requires ms != [] && Plain(ms[0].value) && Safe(ms[0].value, false) && !EndsInBackslash(ms[0].key)
    ensures Minify(RenderMembers(ms, true, level) + rest) ==
            MemberText(ms[0], |ms| > 1, false, level) + Minify(RenderMembers(ms[1..], true, level) + rest)
    decreases ms[0], 2
  {
    var more, tail := |ms| > 1, RenderMembers(ms[1..], true, level);
    var key, value := KeyText(ms[0].key, true, level), Render(ms[0].value, true, level);
    MemberPieces(ms, true, level, rest);
    KeyMinified(ms[0].key, level, value + (MemberSeparator(more, true) + (tail + rest)));
    ValueMinified(ms[0].value, level, MemberSeparator(more, true) + (tail + rest));
    MemberSeparatorMinified(more, tail + rest);
    Regroup(KeyText(ms[0].key, false, level), Render(ms[0].value, false, level) + MemberSeparator(more, false),
            Minify(tail + rest));
    Regroup(Render(ms[0].value, false, level), MemberSeparator(more, false), Minify(tail + rest));
  }

  lemma MemberPieces(ms: seq<Member>, fmt: bool, level: nat, rest: string)
    requires ms != []
    ensures RenderMembers(ms, fmt, level) + rest ==
            KeyText(ms[0].key, fmt, level) + (Render(ms[0].value, fmt, level) +
                                              (MemberSeparator(|ms| > 1, fmt) + (RenderMembers(ms[1..], fmt, level) + rest)))
  {
    var key, value := KeyText(ms[0].key, fmt, level), Render(ms[0].value, fmt, level);
    var separator, tail := MemberSeparator(|ms| > 1, fmt), RenderMembers(ms[1..], fmt, level);
    assert RenderMembers(ms, fmt, level) == key + (value + separator) + tail;
    Regroup4(key, value + separator, tail, rest);
    Regroup(value, separator, tail + rest);
  }

  // ---- unsafe trees ----

  /** The two texts part at k: there the formatted one has a character the other has not, and no
      quote or backslash stands before. */
  predicate PartAt(formatted: string, plain: string, k: nat) {
    && k < |formatted| && k <= |plain|
    && (forall i :: 0 <= i < k ==> formatted[i] == plain[i])
    && (forall i :: 0 <= i <= k ==> formatted[i] != '\"' && formatted[i] != '\\')
    && (k < |plain| ==> formatted[k] != plain[k])
  }

  lemma {:induction false} LongLiteral(s: string, k: nat)
    requires k < |s| && forall i :: 0 <= i <= k ==> s[i] != '\"' && s[i] != '\\'
    ensures StringLength(s) > k
  {
    PlainStep(s);
    if k > 0 {
      LongLiteral(s[1..], k - 1);
    }
  }

  /** A literal that ends in a backslash carries the formatting behind it along. */
  lemma QuoteDiverges(s: string, formatted: string, plain: string, k: nat)
    requires EndsInBackslash(s) && PartAt(formatted, plain, k)
    ensures Minify(Quote(s) + formatted) != Quote(s) + plain
  {
    QuoteKept(s, formatted);
    LongLiteral(formatted, k);
    var n := StringLength(formatted);
    var kept := formatted[..n] + Minify(formatted[n..]);
    assert kept[k] == formatted[k];
    if Quote(s) + kept == Quote(s) + plain {
      Cancel(Quote(s), kept, plain);
    }
  }

  lemma ValueBegins(t: Json, fmt: bool, level: nat, rest: string)
    requires Plain(t)
    ensures Render(t, fmt, level) + rest != ""
    ensures (Render(t, fmt, level) + rest)[0] as int > 32
  {
    var text := Render(t, fmt, level) + rest;
    assert JsonParse.LiteralAt(text, 0, Render(t, fmt, level));
    PrintedStarts(t, fmt, level);
  }

  /** What follows a value in an array, when more follows. */
  lemma ItemsPart(items: seq<Json>, level: nat, formatted: string, plain: string)
    requires items != [] && Plain(items[0])
    ensures PartAt(ItemSeparator(true, true) + (RenderItems(items, true, level) + formatted),
                   ItemSeparator(true, false) + (RenderItems(items, false, level) + plain), 1)
  {
    var tail := ItemSeparator(|items| > 1, false) + (RenderItems(items[1..], false, level) + plain);
    assert RenderItems(items, false, level) ==
           Render(items[0], false, level) + ItemSeparator(|items| > 1, false) + RenderItems(items[1..], false, level);
    Regroup4(Render(items[0], false, level), ItemSeparator(|items| > 1, false), RenderItems(items[1..], false, level), plain);
    ValueBegins(items[0], false, level, tail);
  }

  /** An unsafe tree, in front of texts that part, is not minified to its unformatted text. */
  lemma {:induction false} ValueDiverges(t: Json, level: nat, formatted: string, plain: string, k: nat)
    requires Plain(t) && !Safe(t, false)
    requires !t.Object? ==> PartAt(formatted, plain, k)
    ensures Minify(Render(t, true, level) + formatted) != Render(t, false, level) + plain
    decreases t, 1
  {
    hide Minify, RenderItems, RenderMembers, SafeItems, SafeMembers, Tabs;
    match t
    case String(s) => QuoteDiverges(s, formatted, plain, k);
    case Array(items) =>
      var inner, bare := RenderItems(items, true, level + 1), RenderItems(items, false, level + 1);
      Regroup4("[", inner, "]", formatted);
      Regroup4("[", bare, "]", plain);
      OrdinaryRun("[", inner + ("]" + formatted));
      ItemsDiverge(items, level + 1, "]" + formatted, "]" + plain, k + 1);
      if Minify(Render(t, true, level) + formatted) == Render(t, false, level) + plain {
        Cancel("[", Minify(inner + ("]" + formatted)), bare + ("]" + plain));
      }
    case Object(ms) =>
      var inner, bare := RenderMembers(ms, true, level + 1), RenderMembers(ms, false, level + 1);
      Regroup4("{\n", inner, Closing(true, level), formatted);
      Regroup4("{", bare, "}", plain);
      Trimmed("{", "\n", inner + (Closing(true, level) + formatted));
      assert "{" + "\n" == "{\n";
      MembersDiverge(ms, level + 1, Closing(true, level) + formatted, "}" + plain);
      if Minify(Render(t, true, level) + formatted) == Render(t, false, level) + plain {
        Cancel("{", Minify(inner + (Closing(true, level) + formatted)), bare + ("}" + plain));
      }
  }

  lemma {:induction false} ItemsDiverge(items: seq<Json>, level: nat, formatted: string, plain: string, k: nat)
    requires (forall i :: 0 <= i < |items| ==> Plain(items[i])) && !SafeItems(items, false)
    requires PartAt(formatted, plain, k)
    ensures Minify(RenderItems(items, true, level) + formatted) != RenderItems(items, false, level) + plain
    decreases items, 0
  {
    if !Safe(items[0], false) {
      var more, tail, bare := |items| > 1, RenderItems(items[1..], true, level), RenderItems(items[1..], false, level);
      if more {
        ItemsPart(items[1..], level, formatted, plain);
      } else {
        assert "" + ("" + formatted) == formatted && "" + ("" + plain) == plain;
      }
      ItemPieces(items, true, level, formatted);
      ItemPieces(items, false, level, plain);
      ValueDiverges(items[0], level, ItemSeparator(more, true) + (tail + formatted),
                    ItemSeparator(more, false) + (bare + plain), if more then 1 else k);
    } else {
      ItemsDiverge(items[1..], level, formatted, plain, k);
      NextItemDiverges(items, level, formatted, plain);
    }
  }

  lemma ItemPieces(items: seq<Json>, fmt: bool, level: nat, rest: string)
    requires items != []
    ensures RenderItems(items, fmt, level) + rest ==
            Render(items[0], fmt, level) + (ItemSeparator(|items| > 1, fmt) + (RenderItems(items[1..], fmt, level) + rest))
  {
    var value, separator := Render(items[0], fmt, level), ItemSeparator(|items| > 1, fmt);
    assert RenderItems(items, fmt, level) == value + separator + RenderItems(items[1..], fmt, level);
    Regroup4(value, separator, RenderItems(items[1..], fmt, level), rest);
  }

  /** Behind a safe element the texts agree exactly when the rest does. */
  lemma NextItemDiverges(items: seq<Json>, level: nat, formatted: string, plain: string)
    requires items != [] && Plain(items[0]) && Safe(items[0], false)
    ensures Minify(RenderItems(items, true, level) + formatted) == RenderItems(items, false, level) + plain <==>
            Minify(RenderItems(items[1..], true, level) + formatted) == RenderItems(items[1..], false, level) + plain
  {
    var first := ItemText(items[0], |items| > 1, false, level);
    var tail := RenderItems(items[1..], false, level);
    FirstItemMinified(items, level, formatted);
    assert RenderItems(items, false, level) == first + tail;
    Regroup(first, tail, plain);
    if Minify(RenderItems(items, true, level) + formatted) == RenderItems(items, false, level) + plain {
      Cancel(first, Minify(RenderItems(items[1..], true, level) + formatted), tail + plain);
    }
  }

  lemma {:induction false} MembersDiverge(ms: seq<Member>, level: nat, formatted: string, plain: string)
    requires PlainMembers(ms) && !SafeMembers(ms) && plain != "" && plain[0] == '}'
    ensures Minify(RenderMembers(ms, true, level) + formatted) != RenderMembers(ms, false, level) + plain
    decreases ms, 0
  {
    if EndsInBackslash(ms[0].key) || !Safe(ms[0].value, false) {
      MemberDiverges(ms, level, formatted, plain);
    } else {
      var first := MemberText(ms[0], |ms| > 1, false, level);
      var tail := RenderMembers(ms[1..], false, level);
      MembersDiverge(ms[1..], level, formatted, plain);
      FirstMemberMinified(ms, level, formatted);
      assert RenderMembers(ms, false, level) == first + tail;
      Regroup(first, tail, plain);
      if Minify(RenderMembers(ms, true, level) + formatted) == RenderMembers(ms, false, level) + plain {
        Cancel(first, Minify(RenderMembers(ms[1..], true, level) + formatted), tail + plain);
      }
    }
  }

  /** An unsafe key or value: a tab or a newline is carried along. */
  lemma {:induction false} MemberDiverges(ms: seq<Member>, level: nat, formatted: string, plain: string)
    requires ms != [] && PlainMembers(ms) && plain != "" && plain[0] == '}'
    requires EndsInBackslash(ms[0].key) || !Safe(ms[0].value, false)
    ensures Minify(RenderMembers(ms, true, level) + formatted) != RenderMembers(ms, false, level) + plain
    decreases ms[0], 2
  {
    var more, key, t := |ms| > 1, ms[0].key, ms[0].value;
    var rest := MemberSeparator(more, true) + (RenderMembers(ms[1..], true, level) + formatted);
    var bare := MemberSeparator(more, false) + (RenderMembers(ms[1..], false, level) + plain);
    var value, short := Render(t, true, level), Render(t, false, level);
    MemberPieces(ms, true, level, formatted);
    MemberPieces(ms, false, level, plain);
    if EndsInBackslash(key) {
      ValueBegins(t, false, level, bare);
      KeyDiverges(key, level, value + rest, short + bare);
    } else {
      KeyMinified(key, level, value + rest);
      MembersPart(ms, level, formatted, plain);
      ValueDiverges(t, level, rest, bare, if more then 1 else 0);
      if Minify(KeyText(key, true, level) + (value + rest)) == KeyText(key, false, level) + (short + bare) {
        Cancel(KeyText(key, false, level), Minify(value + rest), short + bare);
      }
    }
  }

  lemma KeyDiverges(key: string, level: nat, formatted: string, plain: string)
    requires EndsInBackslash(key) && plain != "" && plain[0] as int > 32
    ensures Minify(KeyText(key, true, level) + formatted) != KeyText(key, false, level) + plain
  {
    hide Quote, KeyText;
    assert PartAt(":\t" + formatted, ":" + plain, 1);
    KeyPieces(key, true, level, formatted);
    KeyPieces(key, false, level, plain);
    BlankRun(Tabs(level), Quote(key) + (":\t" + formatted));
    QuoteDiverges(key, ":\t" + formatted, ":" + plain, 1);
    assert "" + (Quote(key) + (":" + plain)) == Quote(key) + (":" + plain);
  }

  lemma KeyPieces(key: string, fmt: bool, level: nat, rest: string)
    ensures KeyText(key, fmt, level) + rest ==
            (if fmt then Tabs(level) else "") + (Quote(key) + ((if fmt then ":\t" else ":") + rest))
  {
    hide Quote;
    Regroup4(if fmt then Tabs(level) else "", Quote(key), if fmt then ":\t" else ":", rest);
  }

  lemma MembersPart(ms: seq<Member>, level: nat, formatted: string, plain: string)
    requires ms != [] && plain != "" && plain[0] == '}'
    ensures PartAt(MemberSeparator(|ms| > 1, true) + (RenderMembers(ms[1..], true, level) + formatted),
                   MemberSeparator(|ms| > 1, false) + (RenderMembers(ms[1..], false, level) + plain),
                   if |ms| > 1 then 1 else 0)
  {
    if |ms| > 1 {
      MemberPieces(ms[1..], false, level, plain);
      KeyPieces(ms[1].key, false, level, Render(ms[1].value, false, level) +
                (MemberSeparator(|ms| > 2, false) + (RenderMembers(ms[1..][1..], false, level) + plain)));
      assert (RenderMembers(ms[1..], false, level) + plain)[0] == '\"';
    } else {
      assert RenderMembers(ms[1..], false, level) == "";
    }
  }

  // ---- the end of the text ----

  predicate Brackets(s: string) {
    forall i :: 0 <= i < |s| ==> s[i] == ']'
  }

  lemma {:induction false} BracketsKept(s: string)
    requires Brackets(s)
    ensures Minify(s) == s && StringLength(s) == |s|
  {
    OrdinaryRun(s, "");
    assert s + "" == s;
    if s != "" {
      BracketsKept(s[1..]);
    }
  }

  /** With only closing brackets behind it, a tree is minified to its unformatted text exactly when
      it is safe. */
  lemma {:induction false} LastExact(t: Json, level: nat, closing: string)
    requires Plain(t) && Brackets(closing)
    ensures Minify(Render(t, true, level) + closing) == Render(t, false, level) + closing <==> Safe(t, true)
    decreases t, 1
  {
    BracketsKept(closing);
    match t
    case String(s) =>
      QuoteKept(s, closing);
      assert closing[..|closing|] + Minify(closing[|closing|..]) == closing;
    case Array(items) =>
      var inner, bare := RenderItems(items, true, level + 1), RenderItems(items, false, level + 1);
      Regroup4("[", inner, "]", closing);
      Regroup4("[", bare, "]", closing);
      OrdinaryRun("[", inner + ("]" + closing));
      LastItemsExact(items, level + 1, "]" + closing);
      if Minify(Render(t, true, level) + closing) == Render(t, false, level) + closing {
        Cancel("[", Minify(inner + ("]" + closing)), bare + ("]" + closing));
      }
    case Object(ms) =>
      if SafeMembers(ms) {
        ValueMinified(t, level, closing);
      } else {
        ValueDiverges(t, level, closing, closing, 0);
      }
    case _ => ValueMinified(t, level, closing);
  }

  lemma {:induction false} LastItemsExact(items: seq<Json>, level: nat, closing: string)
    requires (forall i :: 0 <= i < |items| ==> Plain(items[i])) && Brackets(closing)
    ensures Minify(RenderItems(items, true, level) + closing) == RenderItems(items, false, level) + closing <==>
            SafeItems(items, true)
    decreases items, 0
  {
    BracketsKept(closing);
    if items == [] {
      assert "" + closing == closing;
    } else if |items| == 1 {
      LastExact(items[0], level, closing);
      ItemPieces(items, true, level, closing);
      ItemPieces(items, false, level, closing);
      assert "" + ("" + closing) == closing;
      assert SafeItems(items[1..], true);
    } else if Safe(items[0], false) {
      LastItemsExact(items[1..], level, closing);
      NextItemDiverges(items, level, closing, closing);
    } else {
      var tail, bare := RenderItems(items[1..], true, level), RenderItems(items[1..], false, level);
      ItemsPart(items[1..], level, closing, closing);
      ItemPieces(items, true, level, closing);
      ItemPieces(items, false, level, closing);
      ValueDiverges(items[0], level, ItemSeparator(true, true) + (tail + closing),
                    ItemSeparator(true, false) + (bare + closing), 1);
    }
  }

  /** Minify(Print(t)) is PrintUnformatted(t) exactly for the safe trees. */
  lemma MinifyPrinted(t: Json)
    requires Plain(t)
    ensures Minify(Render(t, true, 0)) == Render(t, false, 0) <==> Safe(t, true)
  {
    LastExact(t, 0, "");
    assert Render(t, true, 0) + "" == Render(t, true, 0);
    assert Render(t, false, 0) + "" == Render(t, false, 0);
  }

  /** No backslash ends a string or key: the trees the promise is made for. */
  predicate NoFinalBackslash(t: Json) {
    match t
    case String(s) => !EndsInBackslash(s)
    case Array(items) => forall i :: 0 <= i < |items| ==> NoFinalBackslash(items[i])
    case Object(ms) => forall i :: 0 <= i < |ms| ==> !EndsInBackslash(ms[i].key) && NoFinalBackslash(ms[i].value)
    case _ => true
  }

  lemma {:induction false} NoFinalBackslashSafe(t: Json, last: bool)
    requires NoFinalBackslash(t)
    ensures Safe(t, last)
    decreases t, 1
  {
    match t
    case Array(items) => SafeSuffix(items, 0, last);
    case Object(ms) => SafeMembersSuffix(ms, 0);
    case _ =>
  }

  lemma {:induction false} SafeSuffix(items: seq<Json>, i: nat, last: bool)
    requires i <= |items| && forall j :: 0 <= j < |items| ==> NoFinalBackslash(items[j])
    ensures SafeItems(items[i..], last)
    decreases items, 0, |items| - i
  {
    if i < |items| {
      NoFinalBackslashSafe(items[i], last && |items[i..]| == 1);
      SafeSuffix(items, i + 1, last);
      assert items[i..][1..] == items[i + 1..];
    }
  }

  lemma {:induction false} SafeMembersSuffix(ms: seq<Member>, i: nat)
    requires i <= |ms|
    requires forall j :: 0 <= j < |ms| ==> !EndsInBackslash(ms[j].key) && NoFinalBackslash(ms[j].value)
    ensures SafeMembers(ms[i..])
    decreases ms, 0, |ms| - i
  {
    if i < |ms| {
      NoFinalBackslashSafe(ms[i].value, false);
      SafeMembersSuffix(ms, i + 1);
      assert ms[i..][1..] == ms[i + 1..];
    }
  }

  /** The promise fails on ["a\\", "b"]: the blank behind the comma stays. */
  lemma BackslashKeepsFormatting()
    ensures var t := Array([String("a\\"), String("b")]); Minify(Render(t, true, 0)) != Render(t, false, 0)
  {
    var t := Array([String("a\\"), String("b")]);
    assert t.items[0] == String("a\\");
    MinifyPrinted(t);
  }
}
