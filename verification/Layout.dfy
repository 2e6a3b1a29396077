/** The layout of printed text, read off the text alone: where it breaks lines, how far it indents and
    where else it has blanks. */
module Layout {
  import opened CString
  import opened JsonTree
  import opened JsonText
  import opened Spelling
  import opened PrintParse

  // ---- the scan ----

  /** The text behind the closing quote. */
  function Behind(s: string): (r: string)
    ensures |r| <= |s|
  {
    if s == "" then ""
    else if s[0] == '\"' then s[1..]
    else if s[0] == '\\' && |s| > 1 then Behind(s[2..])
    else Behind(s[1..])
  }

  function CountTabs(s: string): (n: nat)
    ensures n <= |s| && forall i :: 0 <= i < n ==> s[i] == '\t'
  {
    if s != "" && s[0] == '\t' then 1 + CountTabs(s[1..]) else 0
  }

  predicate Innermost(open: string, bracket: char) {
    open != "" && open[|open| - 1] == bracket
  }

  predicate NoBlankAt(s: string, i: nat) {
    i < |s| && s[i] > ' '
  }

  /** With the brackets in `open` open, outside literals: a newline is followed by as many tabs as
      brackets are open and then a quote, or by one fewer and then the brace that closes the object;
      an opening brace by a newline, a closing one by nothing it did not come with; a colon by one
      tab; a comma by one blank in an array and by a newline in an object. There is no other blank,
      and every bracket is closed by its own kind. */
  predicate Laid(s: string, open: string)
    decreases |s|
  {
    if s == "" then open == ""
    else if s[0] == '\"' then Laid(Behind(s[1..]), open)
    else if s[0] == '[' then Laid(s[1..], open + "[")
    else if s[0] == ']' then Innermost(open, '[') && Laid(s[1..], open[..|open| - 1])
    else if s[0] == '{' then |s| > 1 && s[1] == '\n' && Laid(s[1..], open + "{")
    else if s[0] == '\n' then
      var n := CountTabs(s[1..]);
      && n + 1 < |s|
      && (if s[n + 1] == '\"' then n == |open| && Laid(s[n + 1..], open)
          else s[n + 1] == '}' && Innermost(open, '{') && n == |open| - 1 && Laid(s[n + 2..], open[..|open| - 1]))
    else if s[0] == ':' then |s| > 2 && s[1] == '\t' && NoBlankAt(s, 2) && Laid(s[2..], open)
    else if s[0] == ',' then
      if Innermost(open, '[') then |s| > 2 && s[1] == ' ' && NoBlankAt(s, 2) && Laid(s[2..], open)
      else Innermost(open, '{') && |s| > 1 && s[1] == '\n' && Laid(s[1..], open)
    else s[0] > ' ' && s[0] != '}' && Laid(s[1..], open)
  }

  /** No blank outside literals. */
  predicate Tight(s: string)
    decreases |s|
  {
    s == "" || (if s[0] == '\"' then Tight(Behind(s[1..])) else s[0] > ' ' && Tight(s[1..]))
  }

  // ---- runs ----

  lemma {:induction false} BehindBody(body: string, rest: string)
    requires Guarded(body)
    ensures Behind(body + ("\"" + rest)) == rest
    decreases |body|
  {
    var s := body + ("\"" + rest);
    if body == "" {
      assert s == "\"" + rest;
    } else {
      var n := if body[0] == '\\' then 2 else 1;
      assert s[n..] == body[n..] + ("\"" + rest);
      BehindBody(body[n..], rest);
    }
  }

  lemma BehindQuote(s: string, rest: string)
    requires NulFree(s)
    ensures (Quote(s) + rest)[0] == '\"' && Behind((Quote(s) + rest)[1..]) == rest
  {
    hide Escape, Behind, Guarded, PrintedMarks;
    PrintedMarksExact(s);
    BehindBody(Escape(s), rest);
    QuotePieces(Escape(s), rest);
  }

  lemma QuotePieces(body: string, rest: string)
    ensures ("\"" + body + "\"" + rest)[0] == '\"' && ("\"" + body + "\"" + rest)[1..] == body + ("\"" + rest)
  {
  }

  /** Characters of numbers and words. */
  predicate Ordinary(w: string) {
    forall i :: 0 <= i < |w| ==> w[i] > ' ' && w[i] !in "\"[]{}:,"
  }

  lemma {:induction false} OrdinaryLaid(w: string, rest: string, open: string)
    requires Ordinary(w)
    ensures Laid(w + rest, open) == Laid(rest, open)
    ensures Tight(w + rest) == Tight(rest)
    decreases |w|
  {
    if w == "" {
      assert w + rest == rest;
    } else {
      assert (w + rest)[1..] == w[1..] + rest && (w + rest)[0] == w[0];
      OrdinaryLaid(w[1..], rest, open);
    }
  }

  lemma {:induction false} CountsTabs(n: nat, rest: string)
    requires rest != "" && rest[0] != '\t'
    ensures CountTabs(Tabs(n) + rest) == n
    decreases n
  {
    if n == 0 {
      assert Tabs(0) + rest == rest;
    } else {
      assert (Tabs(n) + rest)[1..] == Tabs(n - 1) + rest;
      CountsTabs(n - 1, rest);
    }
  }

  lemma SignedOrdinary(n: int)
    ensures Ordinary(Signed(n))
  {
  }

  predicate IsWord(t: Json) {
    t.Null? || t.False? || t.True? || t.Number?
  }

  lemma WordOrdinary(t: Json, level: nat)
    requires IsWord(t)
    ensures Ordinary(Render(t, true, level)) && Ordinary(Render(t, false, level))
  {
    if t.Number? {
      SignedOrdinary(t.valueint);
    }
  }

  // ---- values ----

  lemma Associates(a: string, b: string, c: string)
    ensures a + b + c == a + (b + c)
  {
  }

  lemma BeginsWith(t: Json, fmt: bool, level: nat, rest: string)
    requires Plain(t)
    ensures NoBlankAt(Render(t, fmt, level) + rest, 0)
  {
    hide Render;
    PrintedStarts(t, fmt, level);
  }

  lemma {:induction false} ValueLaid(t: Json, open: string, rest: string)
    requires Plain(t)
    ensures Laid(Render(t, true, |open|) + rest, open) == Laid(rest, open)
    decreases t, 1
  {
    hide Laid, RenderItems, RenderMembers, Quote;
    match t
    case String(s) => QuoteLaid(s, rest, open);
    case Array(items) => ArrayLaid(items, open, rest);
    case Object(ms) => ObjectLaid(ms, open, rest);
    case Invalid =>
    case Raw(_) =>
    case _ =>
      WordOrdinary(t, |open|);
      OrdinaryLaid(Render(t, true, |open|), rest, open);
  }

  lemma QuoteLaid(s: string, rest: string, open: string)
    requires NulFree(s)
    ensures (Quote(s) + rest)[0] == '\"'
    ensures Laid(Quote(s) + rest, open) == Laid(rest, open)
    ensures Tight(Quote(s) + rest) == Tight(rest)
  {
    hide Quote, Behind;
    BehindQuote(s, rest);
  }

  lemma {:induction false} ArrayLaid(items: seq<Json>, open: string, rest: string)
    requires PlainItems(items)
    ensures Laid(Render(Array(items), true, |open|) + rest, open) == Laid(rest, open)
    decreases items, 1
  {
    hide RenderItems;
    var inner := RenderItems(items, true, |open| + 1);
    var s := Render(Array(items), true, |open|) + rest;
    assert s[1..] == inner + ("]" + rest);
    ItemsLaid(items, open + "[", "]" + rest);
    assert ("]" + rest)[1..] == rest && (open + "[")[..|open|] == open;
  }

  lemma {:induction false} ItemsLaid(items: seq<Json>, open: string, rest: string)
    requires PlainItems(items) && Innermost(open, '[')
    ensures Laid(RenderItems(items, true, |open|) + rest, open) == Laid(rest, open)
    decreases items, 0
  {
    hide Render, Laid;
    if items == [] {
      assert RenderItems(items, true, |open|) + rest == rest;
    } else {
      var value, more := Render(items[0], true, |open|), RenderItems(items[1..], true, |open|) + rest;
      ItemsLaid(items[1..], open, rest);
      var separator := ItemSeparator(|items| > 1, true);
      assert RenderItems(items, true, |open|) + rest == value + (separator + more);
      ValueLaid(items[0], open, separator + more);
      if |items| > 1 {
        FirstItem(items[1..], |open|, rest);
        CommaLaid(more, open);
      } else {
        assert separator + more == more;
      }
    }
  }

  lemma FirstItem(items: seq<Json>, level: nat, rest: string)
    requires PlainItems(items) && items != []
    ensures NoBlankAt(RenderItems(items, true, level) + rest, 0)
  {
    hide Render;
    var value, tail := Render(items[0], true, level), ItemSeparator(|items| > 1, true) + RenderItems(items[1..], true, level) + rest;
    assert RenderItems(items, true, level) + rest == value + tail;
    BeginsWith(items[0], true, level, tail);
  }

  lemma CommaLaid(more: string, open: string)
    requires Innermost(open, '[') && NoBlankAt(more, 0)
    ensures Laid(", " + more, open) == Laid(more, open)
  {
    assert (", " + more)[2..] == more;
  }

  lemma {:induction false} ObjectLaid(ms: seq<Member>, open: string, rest: string)
    requires PlainMembers(ms)
    ensures Laid(Render(Object(ms), true, |open|) + rest, open) == Laid(rest, open)
    decreases ms, 1
  {
    hide RenderMembers;
    var inner := RenderMembers(ms, true, |open| + 1);
    var s := Render(Object(ms), true, |open|) + rest;
    assert s[1..] == "\n" + (inner + (Tabs(|open|) + ("}" + rest)));
    assert s[0] == '{' && s[1] == '\n';
    LinesLaid(ms, open, rest);
  }

  /** The lines of an object, from the line break in front of them. */
  lemma {:induction false} LinesLaid(ms: seq<Member>, open: string, rest: string)
    requires PlainMembers(ms)
    ensures var level := |open| + 1;
            Laid("\n" + (RenderMembers(ms, true, level) + (Tabs(|open|) + ("}" + rest))), open + "{") == Laid(rest, open)
    decreases ms, 0
  {
    hide Render, Laid, Quote, Tabs;
    var level := |open| + 1;
    var end := Tabs(|open|) + ("}" + rest);
    if ms == [] {
      assert RenderMembers(ms, true, level) + end == end;
      LastLine(open, rest);
    } else {
      var m := ms[0];
      var tail := RenderMembers(ms[1..], true, level) + end;
      LinesLaid(ms[1..], open, rest);
      MemberLine(m, |ms| > 1, level, tail);
      assert RenderMembers(ms, true, level) + end == MemberText(m, |ms| > 1, true, level) + tail;
      var next := (if |ms| > 1 then "," else "") + ("\n" + tail);
      QuoteLaid(m.key, ":\t" + (Render(m.value, true, level) + next), open + "{");
      LineBegins(open + "{", Quote(m.key) + (":\t" + (Render(m.value, true, level) + next)));
      BeginsWith(m.value, true, level, next);
      ColonLaid(Render(m.value, true, level) + next, open + "{");
      ValueLaid(m.value, open + "{", next);
      CommaLine(tail, open + "{");
      assert "" + ("\n" + tail) == "\n" + tail;
    }
  }

  /** One line: indentation, name, colon, value, and what separates it from the next. */
  lemma MemberLine(m: Member, more: bool, level: nat, tail: string)
    ensures MemberText(m, more, true, level) + tail ==
            Tabs(level) + (Quote(m.key) + (":\t" + (Render(m.value, true, level) + ((if more then "," else "") + ("\n" + tail)))))
  {
    hide Render, Quote, Tabs;
    Pieces(Tabs(level), Quote(m.key), Render(m.value, true, level), if more then "," else "", tail);
  }

  lemma Pieces(tabs: string, key: string, value: string, comma: string, tail: string)
    ensures tabs + key + ":\t" + (value + (comma + "\n")) + tail == tabs + (key + (":\t" + (value + (comma + ("\n" + tail)))))
  {
  }

  /** What the scan does at a newline. */
  lemma AtNewline(s: string, n: nat, open: string)
    requires n + 1 < |s| && s[0] == '\n' && CountTabs(s[1..]) == n
    ensures s[n + 1] == '\"' && n == |open| ==> Laid(s, open) == Laid(s[n + 1..], open)
    ensures s[n + 1] == '}' && Innermost(open, '{') && n == |open| - 1 ==> Laid(s, open) == Laid(s[n + 2..], open[..n])
  {
    hide CountTabs, Behind;
  }

  lemma LineBegins(open: string, s: string)
    requires s != "" && s[0] == '\"'
    ensures Laid("\n" + (Tabs(|open|) + s), open) == Laid(s, open)
  {
    hide Laid, CountTabs, Tabs;
    var t := "\n" + (Tabs(|open|) + s);
    CountsTabs(|open|, s);
    assert t[0] == '\n' && t[1..] == Tabs(|open|) + s;
    assert t[|open| + 1..] == s && t[|open| + 1] == s[0];
    AtNewline(t, |open|, open);
  }

  lemma LastLine(open: string, rest: string)
    ensures Laid("\n" + (Tabs(|open|) + ("}" + rest)), open + "{") == Laid(rest, open)
  {
    hide Laid, CountTabs, Tabs;
    var t := "\n" + (Tabs(|open|) + ("}" + rest));
    CountsTabs(|open|, "}" + rest);
    assert t[0] == '\n' && t[1..] == Tabs(|open|) + ("}" + rest);
    assert t[|open| + 1] == '}' && t[|open| + 2..] == rest;
    assert (open + "{")[..|open|] == open;
    AtNewline(t, |open|, open + "{");
  }

  lemma ColonLaid(more: string, open: string)
    requires NoBlankAt(more, 0)
    ensures Laid(":\t" + more, open) == Laid(more, open)
  {
    assert (":\t" + more)[2..] == more;
  }

  lemma CommaLine(tail: string, open: string)
    requires Innermost(open, '{')
    ensures Laid("," + ("\n" + tail), open) == Laid("\n" + tail, open)
  {
    assert ("," + ("\n" + tail))[1..] == "\n" + tail;
  }

  /** cJSON_Print lays its text out like this. */
  lemma PrintedIsLaidOut(t: Json)
    requires Plain(t)
    ensures Laid(Render(t, true, 0), "")
  {
    hide Render;
    ValueLaid(t, "", "");
    assert Render(t, true, 0) + "" == Render(t, true, 0);
  }

  // ---- unformatted ----

  lemma {:induction false} ValueTight(t: Json, level: nat, rest: string)
    requires Plain(t)
    ensures Tight(Render(t, false, level) + rest) == Tight(rest)
    decreases t, 1
  {
    hide Tight, RenderItems, RenderMembers, Quote;
    match t
    case String(s) => QuoteLaid(s, rest, "");
    case Array(items) =>
      var inner := RenderItems(items, false, level + 1);
      Around('[', inner, ']', rest);
      ItemsTight(items, level + 1, "]" + rest);
    case Object(ms) =>
      var inner := RenderMembers(ms, false, level + 1);
      Around('{', inner, '}', rest);
      MembersTight(ms, level + 1, "}" + rest);
    case Invalid =>
    case Raw(_) =>
    case _ =>
      WordOrdinary(t, level);
      OrdinaryLaid(Render(t, false, level), rest, "");
  }

  lemma Around(a: char, inner: string, b: char, rest: string)
    requires a > ' ' && b > ' ' && a != '\"' && b != '\"'
    ensures Tight([a] + inner + [b] + rest) == Tight(inner + ([b] + rest))
    ensures Tight([b] + rest) == Tight(rest)
  {
    assert ([a] + inner + [b] + rest)[1..] == inner + ([b] + rest);
    assert ([b] + rest)[1..] == rest;
  }

  lemma SignTight(sign: string, rest: string)
    requires sign == "" || sign == "," || sign == ":"
    ensures Tight(sign + rest) == Tight(rest)
  {
    if sign == "" {
      assert sign + rest == rest;
    } else {
      assert (sign + rest)[1..] == rest;
    }
  }

  lemma {:induction false} ItemsTight(items: seq<Json>, level: nat, rest: string)
    requires PlainItems(items)
    ensures Tight(RenderItems(items, false, level) + rest) == Tight(rest)
    decreases items, 0
  {
    hide Render, Tight;
    if items == [] {
      assert RenderItems(items, false, level) + rest == rest;
    } else {
      var more := RenderItems(items[1..], false, level) + rest;
      var separator := ItemSeparator(|items| > 1, false);
      assert RenderItems(items, false, level) + rest == Render(items[0], false, level) + (separator + more);
      ItemsTight(items[1..], level, rest);
      SignTight(separator, more);
      ValueTight(items[0], level, separator + more);
    }
  }

  lemma {:induction false} MembersTight(ms: seq<Member>, level: nat, rest: string)
    requires PlainMembers(ms)
    ensures Tight(RenderMembers(ms, false, level) + rest) == Tight(rest)
    decreases ms, 0
  {
    hide Render, Tight, Quote;
    if ms == [] {
      assert RenderMembers(ms, false, level) + rest == rest;
    } else {
      var m := ms[0];
      var more := RenderMembers(ms[1..], false, level) + rest;
      var separator := if |ms| > 1 then "," else "";
      TightLine(m, |ms| > 1, level, more);
      assert RenderMembers(ms, false, level) + rest == MemberText(m, |ms| > 1, false, level) + more;
      MembersTight(ms[1..], level, rest);
      SignTight(separator, more);
      ValueTight(m.value, level, separator + more);
      SignTight(":", Render(m.value, false, level) + (separator + more));
      QuoteLaid(m.key, ":" + (Render(m.value, false, level) + (separator + more)), "");
    }
  }

  lemma TightLine(m: Member, more: bool, level: nat, tail: string)
    ensures MemberText(m, more, false, level) + tail ==
            Quote(m.key) + (":" + (Render(m.value, false, level) + ((if more then "," else "") + tail)))
  {
    hide Render, Quote;
    var key, value, comma := Quote(m.key), Render(m.value, false, level), if more then "," else "";
    assert "" + key == key && comma + "" == comma;
    TightPieces(key, value, comma, tail);
  }

  lemma TightPieces(key: string, value: string, comma: string, tail: string)
    ensures key + ":" + (value + comma) + tail == key + (":" + (value + (comma + tail)))
  {
  }

  /** cJSON_PrintUnformatted writes no blank outside literals. */
  lemma UnformattedIsTight(t: Json)
    requires Plain(t)
    ensures Tight(Render(t, false, 0))
  {
    hide Render;
    ValueTight(t, 0, "");
    assert Render(t, false, 0) + "" == Render(t, false, 0);
  }
}
