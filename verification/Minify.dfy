/** cJSON_Minify: blanks, comments and stray slashes go, string literals stay. */
module Minifying {
  import opened Sequences

  predicate Blank(c: char) {
    c == ' ' || c == '\t' || c == '\r' || c == '\n'
  }

  /** Copied as it is outside a string literal. */
  predicate Ordinary(c: char) {
    !Blank(c) && c != '/' && c != '\"'
  }

  /** skip_oneline_comment, behind the slashes: up to and with the newline. */
  function LineLength(s: string): (n: nat)
    ensures n <= |s|
  {
    if s == "" then 0 else if s[0] == '\n' then 1 else 1 + LineLength(s[1..])
  }

  /** skip_multiline_comment, behind the opening. */
  function CommentLength(s: string): (n: nat)
    ensures n <= |s|
  {
    if s == "" then 0
    else if s[0] == '*' && 1 < |s| && s[1] == '/' then 2
    else 1 + CommentLength(s[1..])
  }

  /** minify_string, behind the opening quote: what is copied. A backslash guards only a quote. */
  function StringLength(s: string): (n: nat)
    ensures n <= |s|
  {
    if s == "" then 0
    else if s[0] == '\"' then 1
    else if s[0] == '\\' && 1 < |s| && s[1] == '\"' then 2 + StringLength(s[2..])
    else 1 + StringLength(s[1..])
  }

  /** The literal ends at a quote and not at the end of the text. */
  predicate Closed(s: string) {
    if s == "" then false
    else if s[0] == '\"' then true
    else if s[0] == '\\' && 1 < |s| && s[1] == '\"' then Closed(s[2..])
    else Closed(s[1..])
  }

  /** What cJSON_Minify leaves of a text. */
  function Minify(s: string): string
    decreases |s|
  {
    if s == "" then ""
    else if Blank(s[0]) then Minify(s[1..])
    else if s[0] == '/' then
      if 1 < |s| && s[1] == '/' then Minify(s[2..][LineLength(s[2..])..])
      else if 1 < |s| && s[1] == '*' then Minify(s[2..][CommentLength(s[2..])..])
      else Minify(s[1..])
    else if s[0] == '\"' then
      var n := StringLength(s[1..]);
      [s[0]] + s[1..][..n] + Minify(s[1..][n..])
    else [s[0]] + Minify(s[1..])
  }

  // ---- idempotence ----

  /** The same literal in front of another text ends at the same place. */
  lemma {:induction false} SameLiteral(a: string, b: string, n: nat)
    requires n == StringLength(a) <= |b| && a[..n] == b[..n]
    requires Closed(a) || n == |b|
    ensures StringLength(b) == n
    ensures n < |a| ==> Closed(a)
  {
    if a != "" && a[0] != '\"' {
      assert a[0] == a[..n][0] == b[..n][0] == b[0];
      if a[0] == '\\' && 1 < |a| && a[1] == '\"' {
        assert a[1] == a[..n][1] == b[..n][1] == b[1];
        assert a[2..][..n - 2] == a[..n][2..] == b[..n][2..] == b[2..][..n - 2];
        SameLiteral(a[2..], b[2..], n - 2);
      } else {
        if n > 1 && 1 < |b| {
          assert a[1] == a[..n][1] == b[..n][1] == b[1];
        }
        assert a[1..][..n - 1] == a[..n][1..] == b[..n][1..] == b[1..][..n - 1];
        SameLiteral(a[1..], b[1..], n - 1);
      }
    } else if a != "" {
      assert a[0] == a[..n][0] == b[..n][0] == b[0];
    }
  }

  /** A literal in front of a minified text is found again. */
  lemma LiteralAgain(s: string)
    requires s != "" && s[0] == '\"'
    requires var rest := Minify(s[1..][StringLength(s[1..])..]); Minify(rest) == rest
    ensures Minify(Minify(s)) == Minify(s)
  {
    var a, n := s[1..], StringLength(s[1..]);
    var rest := Minify(a[n..]);
    if !Closed(a) {
      NotClosed(a);
      assert a[n..] == "" && rest == "";
    }
    var b := a[..n] + rest;
    assert b[..n] == a[..n] && b[n..] == rest;
    SameLiteral(a, b, n);
    LiteralMinified(b);
    LiteralMinified(a);
    assert s == [s[0]] + a;
  }

  lemma LiteralMinified(a: string)
    ensures Minify(['\"'] + a) == ['\"'] + (a[..StringLength(a)] + Minify(a[StringLength(a)..]))
  {
    var n := StringLength(a);
    assert (['\"'] + a)[1..] == a;
    assert ['\"'] + a[..n] + Minify(a[n..]) == ['\"'] + (a[..n] + Minify(a[n..]));
  }

  /** Minifying again changes nothing, whatever the text. */
  lemma {:induction false} MinifyIdempotent(s: string)
    ensures Minify(Minify(s)) == Minify(s)
    decreases |s|
  {
    if s == "" {
    } else if Blank(s[0]) {
      MinifyIdempotent(s[1..]);
    } else if s[0] == '/' {
      if 1 < |s| && s[1] == '/' {
        MinifyIdempotent(s[2..][LineLength(s[2..])..]);
      } else if 1 < |s| && s[1] == '*' {
        MinifyIdempotent(s[2..][CommentLength(s[2..])..]);
      } else {
        MinifyIdempotent(s[1..]);
      }
    } else if s[0] == '\"' {
      MinifyIdempotent(s[1..][StringLength(s[1..])..]);
      LiteralAgain(s);
    } else {
      MinifyIdempotent(s[1..]);
      assert Minify(s)[1..] == Minify(s[1..]);
    }
  }

  lemma {:induction false} NotClosed(s: string)
    requires !Closed(s)
    ensures StringLength(s) == |s|
  {
    if s != "" {
      NotClosed(if s[0] == '\\' && 1 < |s| && s[1] == '\"' then s[2..] else s[1..]);
    }
  }

  // ---- in place ----

  /** From `pos` on the array still holds the text, and a NUL behind it. */
  ghost predicate Unread(json: array<char>, pos: nat, text: string)
    reads json
  {
    && pos <= |text| < json.Length && json[|text|] == '\0'
    && forall i :: pos <= i < |text| ==> json[i] == text[i] && text[i] != '\0'
  }

  method SkipOnelineComment(json: array<char>, input: nat, ghost text: string) returns (next: nat)
    requires Unread(json, input, text) && input + 2 <= |text|
    ensures next == input + 2 + LineLength(text[input + 2..])
  {
    next := input + 2;
    while json[next] != '\0'
      invariant input + 2 <= next <= |text|
      invariant LineLength(text[input + 2..]) == next - (input + 2) + LineLength(text[next..])
      decreases |text| - next
    {
      assert text[next..][1..] == text[next + 1..];
      if json[next] == '\n' {
        next := next + 1;
        return;
      }
      next := next + 1;
    }
  }

  method SkipMultilineComment(json: array<char>, input: nat, ghost text: string) returns (next: nat)
    requires Unread(json, input, text) && input + 2 <= |text|
    ensures next == input + 2 + CommentLength(text[input + 2..])
  {
    next := input + 2;
    while json[next] != '\0'
      invariant input + 2 <= next <= |text|
      invariant CommentLength(text[input + 2..]) == next - (input + 2) + CommentLength(text[next..])
      decreases |text| - next
    {
      assert text[next..][1..] == text[next + 1..];
      if json[next] == '*' && json[next + 1] == '/' {
        next := next + 2;
        return;
      }
      next := next + 1;
    }
  }

  /** One character from the reading to the writing position, which is not ahead of it. */
  method CopyDown(json: array<char>, input: nat, output: nat, ghost text: string)
    requires Unread(json, input, text) && output <= input < |text|
    modifies json
    ensures Unread(json, input, text)
    ensures json[..output + 1] == old(json[..output]) + [text[input]]
  {
    json[output] := json[input];
  }

  lemma LiteralStep(text: string, i: nat)
    requires i < |text|
    ensures StringLength(text[i..]) ==
            if text[i] == '\"' then 1
            else if text[i] == '\\' && i + 1 < |text| && text[i + 1] == '\"' then 2 + StringLength(text[i + 2..])
            else 1 + StringLength(text[i + 1..])
  {
    assert text[i..][1..] == text[i + 1..];
    if i + 1 < |text| {
      assert text[i..][2..] == text[i + 2..];
    }
  }

  /** Below `output`: what was there before, and the part of the text since `from`. */
  ghost predicate Moved(json: array<char>, output: nat, before: string, text: string, from: nat, input: nat)
    reads json
  {
    output <= json.Length && from <= input <= |text| && json[..output] == before + text[from..input]
  }

  method CopyNext(json: array<char>, input: nat, output: nat, ghost before: string, ghost text: string, ghost from: nat)
    requires Unread(json, input, text) && output <= input < |text| && Moved(json, output, before, text, from, input)
    modifies json
    ensures Unread(json, input, text) && Moved(json, output + 1, before, text, from, input + 1)
  {
    CopyDown(json, input, output, text);
    assert before + text[from..input] + [text[input]] == before + text[from..input + 1];
  }

  /** One round of the loop of minify_string; a backslash takes the quote behind it along. */
  method MinifyStringRound(json: array<char>, input: nat, output: nat, ghost before: string, ghost text: string,
                           ghost from: nat)
    returns (next: nat, written: nat, closed: bool)
    requires Unread(json, input, text) && output <= input < |text| && Moved(json, output, before, text, from, input)
    modifies json
    ensures input < next <= |text| && written == output + (next - input)
    ensures Unread(json, next, text) && Moved(json, written, before, text, from, next)
    ensures StringLength(text[input..]) == next - input + if closed then 0 else StringLength(text[next..])
  {
    hide StringLength, Moved, Unread;
    LiteralStep(text, input);
    CopyNext(json, input, output, before, text, from);
    Peek(json, input, text);
    Onward(json, input, text);
    next, written, closed := input + 1, output + 1, json[input] == '\"';
    if json[input] == '\\' && json[input + 1] == '\"' {
      CopyNext(json, input + 1, output + 1, before, text, from);
      Peek(json, input + 1, text);
      Onward(json, input + 1, text);
      next, written := input + 2, output + 2;
    }
  }

  /** minify_string: the literal moves down to `into`; what is not yet read stays. */
  method MinifyString(json: array<char>, pos: nat, into: nat, ghost text: string) returns (input: nat, output: nat)
    requires Unread(json, pos, text) && into <= pos < |text| && text[pos] == '\"'
    modifies json
    ensures input == pos + 1 + StringLength(text[pos + 1..]) && output <= input && output == into + (input - pos)
    ensures Unread(json, input, text)
    ensures json[..output] == old(json[..into]) + text[pos..input]
  {
    hide StringLength, Moved, Unread;
    Peek(json, pos, text);
    ghost var before := json[..into];
    MovedNothing(json, into, text, pos);
    CopyNext(json, pos, into, before, text, pos);
    Onward(json, pos, text);
    input, output := pos + 1, into + 1;
    Peek(json, input, text);
    var closed := false;
    while !closed && json[input] != '\0'
      invariant pos < input <= |text| < json.Length && output <= input && output == into + (input - pos)
      invariant json[input] == '\0' <==> input == |text|
      invariant Unread(json, input, text) && Moved(json, output, before, text, pos, input)
      invariant StringLength(text[pos + 1..]) == input - (pos + 1) + if closed then 0 else StringLength(text[input..])
      decreases |text| - input
    {
      input, output, closed := MinifyStringRound(json, input, output, before, text, pos);
      Peek(json, input, text);
    }
    LiteralEnds(text);
    MovedAll(json, output, before, text, pos, input);
  }

  lemma Peek(json: array<char>, i: nat, text: string)
    requires Unread(json, i, text)
    ensures i <= |text| < json.Length && (json[i] == '\0' <==> i == |text|)
    ensures i < |text| ==> json[i] == text[i] && json[i + 1] == if i + 1 < |text| then text[i + 1] else '\0'
  {
  }

  lemma Onward(json: array<char>, i: nat, text: string)
    requires Unread(json, i, text) && i < |text|
    ensures Unread(json, i + 1, text)
  {
  }

  lemma MovedNothing(json: array<char>, into: nat, text: string, from: nat)
    requires into <= json.Length && from <= |text|
    ensures Moved(json, into, json[..into], text, from, from)
  {
  }

  lemma MovedAll(json: array<char>, output: nat, before: string, text: string, from: nat, input: nat)
    requires Moved(json, output, before, text, from, input)
    ensures json[..output] == before + text[from..input]
  {
  }

  lemma LiteralEnds(text: string)
    ensures StringLength(text[|text|..]) == 0
  {
  }

  /** One round of the loop of cJSON_Minify. */
  method MinifyOne(json: array<char>, pos: nat, into: nat, ghost text: string) returns (input: nat, output: nat)
    requires Unread(json, pos, text) && into <= pos < |text|
    modifies json
    ensures pos < input && output <= input && Unread(json, input, text)
    ensures old(json[..into]) + Minify(text[pos..]) == json[..output] + Minify(text[input..])
  {
    hide Minify, LineLength, CommentLength, StringLength;
    MinifyStep(text, pos);
    match json[pos] {
      case ' ' | '\t' | '\r' | '\n' =>
        input, output := pos + 1, into;
      case '/' =>
        output := into;
        if json[pos + 1] == '/' {
          input := SkipOnelineComment(json, pos, text);
        } else if json[pos + 1] == '*' {
          input := SkipMultilineComment(json, pos, text);
        } else {
          input := pos + 1;
        }
      case '\"' =>
        ghost var before := json[..into];
        input, output := MinifyString(json, pos, into, text);
        Regroup(before, text[pos..input], Minify(text[input..]));
      case _ =>
        ghost var before := json[..into];
        CopyDown(json, pos, into, text);
        input, output := pos + 1, into + 1;
        Regroup(before, [text[pos]], Minify(text[input..]));
    }
  }

  lemma MinifyCases(s: string)
    requires s != ""
    ensures Blank(s[0]) ==> Minify(s) == Minify(s[1..])
    ensures s[0] == '/' && 1 < |s| && s[1] == '/' ==> Minify(s) == Minify(s[2..][LineLength(s[2..])..])
    ensures s[0] == '/' && 1 < |s| && s[1] == '*' ==> Minify(s) == Minify(s[2..][CommentLength(s[2..])..])
    ensures s[0] == '/' && (|s| == 1 || (s[1] != '/' && s[1] != '*')) ==> Minify(s) == Minify(s[1..])
    ensures s[0] == '\"' ==>
              var n := StringLength(s[1..]); Minify(s) == [s[0]] + s[1..][..n] + Minify(s[1..][n..])
    ensures !Blank(s[0]) && s[0] != '/' && s[0] != '\"' ==> Minify(s) == [s[0]] + Minify(s[1..])
  {
  }

  lemma Slices(text: string, pos: nat, n: nat)
    requires pos + 1 + n <= |text|
    ensures text[pos..][1..][n..] == text[pos + 1 + n..]
    ensures [text[pos..][0]] + text[pos..][1..][..n] == text[pos..pos + 1 + n]
  {
  }

  /** Minify in terms of positions in the text. */
  lemma MinifyStep(text: string, pos: nat)
    requires pos < |text|
    ensures var c := text[pos];
            var slash := c == '/' && pos + 1 < |text|;
            Minify(text[pos..]) ==
            if slash && text[pos + 1] == '/' then Minify(text[pos + 2 + LineLength(text[pos + 2..])..])
            else if slash && text[pos + 1] == '*' then Minify(text[pos + 2 + CommentLength(text[pos + 2..])..])
            else if Blank(c) || c == '/' then Minify(text[pos + 1..])
            else if c == '\"' then
              var next := pos + 1 + StringLength(text[pos + 1..]);
              text[pos..next] + Minify(text[next..])
            else [c] + Minify(text[pos + 1..])
  {
    hide Minify, LineLength, CommentLength, StringLength;
    var rest := text[pos..];
    MinifyCases(rest);
    assert rest[1..] == text[pos + 1..];
    if text[pos] == '\"' {
      Slices(text, pos, StringLength(rest[1..]));
    } else if text[pos] == '/' && pos + 1 < |text| {
      assert rest[2..] == text[pos + 2..];
      var l, m := LineLength(rest[2..]), CommentLength(rest[2..]);
      assert rest[2..][l..] == text[pos + 2 + l..] && rest[2..][m..] == text[pos + 2 + m..];
    }
  }

  /** cJSON_Minify: afterwards the array holds the minified text; the writing never overtakes the
      reading. */
  method MinifyInPlace(json: array<char>, ghost text: string)
    requires Unread(json, 0, text)
    modifies json
    ensures |Minify(text)| <= |text|
    ensures json[..|Minify(text)| + 1] == Minify(text) + "\0"
  {
    var pos, into := 0, 0;
    assert text[0..] == text;
    assert "" + Minify(text) == Minify(text);
    while json[pos] != '\0'
      invariant 0 <= into <= pos && Unread(json, pos, text)
      invariant Minify(text) == json[..into] + Minify(text[pos..])
      decreases |text| - pos
    {
      pos, into := MinifyOne(json, pos, into, text);
    }
    json[into] := '\0';
  }
}
