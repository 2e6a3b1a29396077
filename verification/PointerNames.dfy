/** What a JSON Pointer names: the reference tokens of RFC 6901 read one by one, without the loops. */
module PointerNames {
  import opened CString
  import opened JsonTree
  import opened JsonText
  import opened JsonPointer

  // ---- tokens ----

  /** The tokens of a pointer, each behind its slash. */
  function Joined(tokens: seq<string>): string {
    if tokens == [] then "" else "/" + (tokens[0] + Joined(tokens[1..]))
  }

  predicate Tokens(tokens: seq<string>) {
    forall i :: 0 <= i < |tokens| ==> '/' !in tokens[i]
  }

  /** The array index a token stands for: digits without a leading zero, counted in a size_t. No
      digits at all stand for 0. */
  function Position(token: string): Option<nat> {
    if Digits(token) && (token != "" && token[0] == '0' ==> |token| == 1)
    then Some(Numeral(token) % SIZE_MODULUS) else None
  }

  lemma Wraps(a: nat, d: nat)
    ensures (10 * (a % SIZE_MODULUS) + d) % SIZE_MODULUS == (10 * a + d) % SIZE_MODULUS
  {
    var q := a / SIZE_MODULUS;
    assert a == q * SIZE_MODULUS + a % SIZE_MODULUS;
    Multiple(10 * (a % SIZE_MODULUS) + d, 10 * q);
  }

  lemma {:induction false} Multiple(n: nat, k: nat)
    ensures (k * SIZE_MODULUS + n) % SIZE_MODULUS == n % SIZE_MODULUS
    decreases k
  {
    if k > 0 {
      Multiple(n, k - 1);
    }
  }

  /** Reading digit by digit modulo the range is reading the number modulo the range. */
  lemma {:induction false} ReadNumeral(done: string, token: string, rest: string)
    requires Digits(done) && '/' !in token && TokenEnds(rest)
    ensures var r := ReadDigits(token + rest, Numeral(done) % SIZE_MODULUS);
            && (TokenEnds(r.1) <==> Digits(token))
            && (Digits(token) ==> Digits(done + token) && r.0 == Numeral(done + token) % SIZE_MODULUS)
    decreases |token|
  {
    hide Numeral;
    if token == "" {
      assert token + rest == rest && done + token == done;
    } else {
      assert token == [token[0]] + token[1..];
      assert (token + rest)[0] == token[0] && (token + rest)[1..] == token[1..] + rest;
      if Digit(token[0]) {
        NumeralMore(done, token[0]);
        Wraps(Numeral(done), token[0] as int - '0' as int);
        ReadNumeral(done + [token[0]], token[1..], rest);
        assert done + [token[0]] + token[1..] == done + token;
        assert Digits(token) <==> Digits(token[1..]);
      }
    }
  }

  /** decode_array_index_from_pointer gives the index the token stands for. */
  lemma PositionExact(token: string, rest: string)
    requires '/' !in token && TokenEnds(rest)
    ensures DecodeIndex(token + rest) == Position(token)
  {
    assert "" + token == token;
    ReadNumeral("", token, rest);
    if token != "" {
      assert (token + rest)[1..] == token[1..] + rest;
      assert |token| > 1 ==> token[1] in token;
    } else {
      assert token + rest == rest;
    }
  }

  // ---- names ----

  /** A name matches a token exactly when the token is its escaped form, up to case when case is
      ignored. No other spelling of a token is accepted. */
  lemma {:induction false} MatchExact(name: string, token: string, rest: string, cs: bool)
    requires '/' !in token && TokenEnds(rest)
    ensures ComparePointers(name, token + rest, cs) <==> Norm(EncodeKey(name), cs) == Norm(token, cs)
    decreases |token|
  {
    var p := token + rest;
    assert |Norm(EncodeKey(name), cs)| == |EncodeKey(name)| && |Norm(token, cs)| == |token|;
    if token == "" {
      assert p == rest;
    } else if name != "" {
      assert token[0] in token && p[0] == token[0] && p[1..] == token[1..] + rest;
      var e := Escaped(name[0]);
      assert EncodeKey(name) == e + EncodeKey(name[1..]);
      if token[0] == '~' {
        EscapeMatches(name, token, rest, cs);
      } else {
        PlainMatches(name, token, rest, cs);
      }
    }
  }

  lemma {:induction false} PlainMatches(name: string, token: string, rest: string, cs: bool)
    requires '/' !in token && TokenEnds(rest) && name != "" && token != "" && token[0] != '~'
    ensures ComparePointers(name, token + rest, cs) <==> Norm(EncodeKey(name), cs) == Norm(token, cs)
    decreases |token|, 0
  {
    var p := token + rest;
    assert token[0] in token && p[0] == token[0] && p[1..] == token[1..] + rest;
    var e := EncodeKey(name);
    NormCons(e, token, cs);
    MatchExact(name[1..], token[1..], rest, cs);
    if Escaped(name[0]) == [name[0]] {
      assert e[1..] == EncodeKey(name[1..]);
    }
  }

  lemma {:induction false} EscapeMatches(name: string, token: string, rest: string, cs: bool)
    requires '/' !in token && TokenEnds(rest) && name != "" && token != "" && token[0] == '~'
    ensures ComparePointers(name, token + rest, cs) <==> Norm(EncodeKey(name), cs) == Norm(token, cs)
    decreases |token|, 0
  {
    hide Norm;
    var p, e := token + rest, EncodeKey(name);
    assert p[0] == token[0] && p[1..] == token[1..] + rest;
    if |token| > 1 {
      assert p[1] == token[1] && p[2..] == token[2..] + rest;
      MatchExact(name[1..], token[2..], rest, cs);
      if |Escaped(name[0])| == 2 {
        TwoOfBoth(e, token, cs);
        assert e[2..] == EncodeKey(name[1..]);
      } else {
        OneOfBoth(e, token, cs);
      }
    } else {
      assert rest != "" ==> rest[0] == '/';
      assert e[0] == '~' ==> |e| >= 2;
      OneOfBoth(e, token, cs);
      SameLength(e, token, cs);
    }
  }

  lemma SameLength(a: string, b: string, cs: bool)
    ensures Norm(a, cs) == Norm(b, cs) ==> |a| == |b|
  {
    assert |Norm(a, cs)| == |a| && |Norm(b, cs)| == |b|;
  }

  /** A tilde is no letter. */
  lemma OneOfBoth(a: string, b: string, cs: bool)
    requires a != "" && b != "" && b[0] == '~'
    ensures Norm(a, cs) == Norm(b, cs) ==> a[0] == '~'
  {
    hide Norm;
    NormCons(a, b, cs);
    assert ToLower(a[0]) == ToLower('~') <==> a[0] == '~';
  }

  /** An escape: a tilde and a digit. */
  lemma TwoOfBoth(a: string, b: string, cs: bool)
    requires |a| > 1 && |b| > 1 && a[0] == '~' == b[0] && Digit(a[1])
    ensures Norm(a, cs) == Norm(b, cs) <==> a[1] == b[1] && Norm(a[2..], cs) == Norm(b[2..], cs)
  {
    hide Norm;
    NormCons(a, b, cs);
    NormCons(a[1..], b[1..], cs);
    assert a[1..][1..] == a[2..] && b[1..][1..] == b[2..];
    assert ToLower(a[1]) == ToLower(b[1]) <==> a[1] == b[1];
  }

  // ---- children ----

  /** The token names child i: the element at that position, or the first member of that name. */
  predicate NamesChild(t: Json, token: string, i: nat, cs: bool) {
    match t
    case Array(items) => i < |items| && Position(token) == Some(i)
    case Object(ms) =>
      && i < |ms|
      && Norm(EncodeKey(ms[i].key), cs) == Norm(token, cs)
      && forall j :: 0 <= j < i ==> Norm(EncodeKey(ms[j].key), cs) != Norm(token, cs)
    case _ => false
  }

  lemma FirstNamedExact(ms: seq<Member>, token: string, rest: string, i: nat, cs: bool)
    requires '/' !in token && TokenEnds(rest) && i < |ms|
    ensures FirstNamed(ms, token + rest, cs) == i <==> NamesChild(Object(ms), token, i, cs)
  {
    hide ComparePointers, EncodeKey, Norm;
    forall j | 0 <= j < |ms|
      ensures ComparePointers(ms[j].key, token + rest, cs) <==> Norm(EncodeKey(ms[j].key), cs) == Norm(token, cs)
    {
      MatchExact(ms[j].key, token, rest, cs);
    }
  }

  lemma ChildExact(t: Json, token: string, rest: string, i: nat, cs: bool)
    requires '/' !in token && TokenEnds(rest)
    ensures Child(t, token + rest, cs) == Some(i) <==> NamesChild(t, token, i, cs)
  {
    hide DecodeIndex, Position, FirstNamed, EncodeKey, Norm;
    match t
    case Array(items) => PositionExact(token, rest);
    case Object(ms) =>
      if i < |ms| {
        FirstNamedExact(ms, token, rest, i, cs);
      }
    case _ =>
  }

  /** The tokens name the children on the way to the location, one by one. */
  predicate Way(t: Json, tokens: seq<string>, loc: Location, cs: bool) {
    && |loc| == |tokens|
    && (loc == [] ||
        (&& NamesChild(t, tokens[0], loc[0], cs)
         && Way(Children(t)[loc[0]], tokens[1..], loc[1..], cs)))
  }

  lemma JoinedEnds(tokens: seq<string>)
    ensures TokenEnds(Joined(tokens))
  {
  }

  /** Following a pointer reaches a node exactly when its tokens name the children on the way. */
  lemma {:induction false} FollowExact(t: Json, tokens: seq<string>, loc: Location, cs: bool)
    requires Tokens(tokens)
    ensures Follow(t, Joined(tokens), cs) == Some(loc) <==> Way(t, tokens, loc, cs)
    decreases |tokens|
  {
    hide Child, NamesChild, SkipToken;
    if tokens != [] {
      var p, rest := Joined(tokens), Joined(tokens[1..]);
      assert p[1..] == tokens[0] + rest;
      JoinedEnds(tokens[1..]);
      SkipEncoded(tokens[0], rest);
      var child := Child(t, p[1..], cs);
      if child.Some? {
        ChildExact(t, tokens[0], rest, child.value, cs);
      }
      if loc != [] {
        ChildExact(t, tokens[0], rest, loc[0], cs);
        assert loc == [loc[0]] + loc[1..];
        if child == Some(loc[0]) {
          FollowExact(Children(t)[loc[0]], tokens[1..], loc[1..], cs);
        }
        if child.Some? {
          FollowStep(t, p, loc[0], loc[1..], cs);
        }
      } else if child.Some? {
        assert Follow(t, p, cs).Some? ==> |Follow(t, p, cs).value| > 0;
      }
    }
  }

  /** Every pointer is made of tokens. */
  lemma {:induction false} PointerSplits(pointer: string) returns (tokens: seq<string>)
    requires TokenEnds(pointer)
    ensures Tokens(tokens) && Joined(tokens) == pointer
    decreases |pointer|
  {
    if pointer == "" {
      tokens := [];
    } else {
      var token := FirstToken(pointer[1..]);
      var rest := PointerSplits(SkipToken(pointer[1..]));
      tokens := [token] + rest;
      assert tokens[1..] == rest;
    }
  }

  lemma {:induction false} FirstToken(text: string) returns (token: string)
    ensures '/' !in token && token + SkipToken(text) == text
  {
    if TokenEnds(text) {
      token := "";
    } else {
      var more := FirstToken(text[1..]);
      token := [text[0]] + more;
    }
  }

  /** What does not begin with a slash names the whole document. */
  lemma NotAPointer(t: Json, pointer: string, cs: bool)
    requires !TokenEnds(pointer)
    ensures Follow(t, pointer, cs) == Some([])
  {
  }

  /** get_item_from_pointer fails exactly when the tokens of the pointer name no node. */
  lemma FollowFails(t: Json, tokens: seq<string>, cs: bool)
    requires Tokens(tokens)
    ensures Follow(t, Joined(tokens), cs) == None <==> forall loc :: !Way(t, tokens, loc, cs)
  {
    var r := Follow(t, Joined(tokens), cs);
    if r.Some? {
      FollowExact(t, tokens, r.value, cs);
    } else {
      forall loc
        ensures !Way(t, tokens, loc, cs)
      {
        FollowExact(t, tokens, loc, cs);
      }
    }
  }

  // ---- pointers of nodes ----

  predicate NoArrays(t: Json) {
    match t
    case Array(_) => false
    case Object(ms) => forall i :: 0 <= i < |ms| ==> NoArrays(ms[i].value)
    case _ => true
  }

  lemma NormAppend(a: string, b: string, cs: bool)
    ensures Norm(a + b, cs) == Norm(a, cs) + Norm(b, cs)
  {
  }

  /** Along a way through objects the pointer is spelled as the pointer of the node. */
  lemma {:induction false} WaySpells(t: Json, tokens: seq<string>, loc: Location, cs: bool)
    requires NoArrays(t) && Way(t, tokens, loc, cs)
    ensures Exists(t, loc) && Norm(Joined(tokens), cs) == Norm(PointerTo(t, loc), cs)
    decreases |tokens|
  {
    if tokens != [] {
      var u := Children(t)[loc[0]];
      WaySpells(u, tokens[1..], loc[1..], cs);
      NormAppend(tokens[0], Joined(tokens[1..]), cs);
      NormAppend(Token(t, loc[0]), PointerTo(u, loc[1..]), cs);
      NormAppend("/", tokens[0] + Joined(tokens[1..]), cs);
      NormAppend("/", Token(t, loc[0]) + PointerTo(u, loc[1..]), cs);
      PointerToStep(t, loc);
    }
  }

  // a pointer in another case leads to the same node when case is ignored

  lemma FoldTail(a: string, b: string)
    requires a != "" && Fold(a) == Fold(b)
    ensures b != "" && ToLower(a[0]) == ToLower(b[0]) && Fold(a[1..]) == Fold(b[1..])
    ensures a[0] as int < 65 || a[0] == '~' || b[0] as int < 65 || b[0] == '~' ==> a[0] == b[0]
  {
    assert |Fold(a)| == |a| && |Fold(b)| == |b|;
    assert Fold(a)[0] == ToLower(a[0]) && Fold(b)[0] == ToLower(b[0]);
    assert Fold(a)[1..] == Fold(a[1..]) && Fold(b)[1..] == Fold(b[1..]);
  }

  lemma FoldEmpty(a: string, b: string)
    requires Fold(a) == Fold(b)
    ensures a == "" <==> b == ""
    ensures TokenEnds(a) <==> TokenEnds(b)
  {
    assert |Fold(a)| == |a| && |Fold(b)| == |b|;
    if a != "" {
      FoldTail(a, b);
    }
  }

  lemma {:induction false} FoldedCompare(name: string, p: string, q: string)
    requires Fold(p) == Fold(q)
    ensures ComparePointers(name, p, false) == ComparePointers(name, q, false)
    decreases |name|
  {
    FoldEmpty(p, q);
    if name != "" && !TokenEnds(p) {
      FoldTail(p, q);
      if p[0] == '~' {
        FoldEmpty(p[1..], q[1..]);
        if |p| > 1 {
          FoldTail(p[1..], q[1..]);
          assert p[1..][1..] == p[2..] && q[1..][1..] == q[2..];
          FoldedCompare(name[1..], p[2..], q[2..]);
        }
      } else {
        FoldedCompare(name[1..], p[1..], q[1..]);
      }
    }
  }

  lemma {:induction false} FoldedDigits(p: string, q: string, acc: nat)
    requires Fold(p) == Fold(q)
    ensures ReadDigits(p, acc).0 == ReadDigits(q, acc).0
    ensures TokenEnds(ReadDigits(p, acc).1) == TokenEnds(ReadDigits(q, acc).1)
    decreases |p|
  {
    FoldEmpty(p, q);
    if p != "" {
      FoldTail(p, q);
      if Digit(p[0]) {
        FoldedDigits(p[1..], q[1..], (10 * acc + (p[0] as int - '0' as int)) % SIZE_MODULUS);
      }
    }
  }

  lemma {:induction false} FoldedSkip(p: string, q: string)
    requires Fold(p) == Fold(q)
    ensures Fold(SkipToken(p)) == Fold(SkipToken(q))
    decreases |p|
  {
    FoldEmpty(p, q);
    if !TokenEnds(p) {
      FoldTail(p, q);
      FoldedSkip(p[1..], q[1..]);
    }
  }

  lemma FoldedChild(t: Json, p: string, q: string)
    requires Fold(p) == Fold(q)
    ensures Child(t, p, false) == Child(t, q, false)
  {
    match t
    case Array(_) =>
      FoldedDigits(p, q, 0);
      FoldEmpty(p, q);
      if p != "" {
        FoldTail(p, q);
        FoldEmpty(p[1..], q[1..]);
      }
    case Object(ms) =>
      forall i | 0 <= i < |ms|
        ensures ComparePointers(ms[i].key, p, false) == ComparePointers(ms[i].key, q, false)
      {
        FoldedCompare(ms[i].key, p, q);
      }
      var i, j := FirstNamed(ms, p, false), FirstNamed(ms, q, false);
    case _ =>
  }

  lemma {:induction false} FoldedFollow(t: Json, p: string, q: string)
    requires Fold(p) == Fold(q)
    ensures Follow(t, p, false) == Follow(t, q, false)
    decreases |p|
  {
    hide Child, SkipToken;
    FoldEmpty(p, q);
    if p != "" {
      FoldTail(p, q);
      if p[0] == '/' {
        FoldedChild(t, p[1..], q[1..]);
        FoldedSkip(p[1..], q[1..]);
        var child := Child(t, p[1..], false);
        if child.Some? {
          FoldedFollow(Children(t)[child.value], SkipToken(p[1..]), SkipToken(q[1..]));
        }
      }
    }
  }

  /** In a tree of objects with distinct keys a pointer leads to a node exactly when it is the node's
      own pointer, up to case when case is ignored. */
  lemma FollowNames(t: Json, pointer: string, loc: Location, cs: bool)
    requires WellFormed(t, cs) && NoArrays(t) && TokenEnds(pointer)
    ensures Follow(t, pointer, cs) == Some(loc) <==>
            Exists(t, loc) && Norm(pointer, cs) == Norm(PointerTo(t, loc), cs)
  {
    if Follow(t, pointer, cs) == Some(loc) {
      var tokens := PointerSplits(pointer);
      FollowExact(t, tokens, loc, cs);
      WaySpells(t, tokens, loc, cs);
    } else if Exists(t, loc) && Norm(pointer, cs) == Norm(PointerTo(t, loc), cs) {
      DistinctIsFirst(t, loc, cs);
      PointerInverse(t, loc, cs);
      if !cs {
        FoldedFollow(t, pointer, PointerTo(t, loc));
      }
    }
  }

  /** And it leads nowhere exactly when it is the pointer of no node. */
  lemma FollowNothing(t: Json, pointer: string, cs: bool)
    requires WellFormed(t, cs) && NoArrays(t) && TokenEnds(pointer)
    ensures Follow(t, pointer, cs) == None <==>
            forall loc :: Exists(t, loc) ==> Norm(pointer, cs) != Norm(PointerTo(t, loc), cs)
  {
    var r := Follow(t, pointer, cs);
    if r.Some? {
      FollowNames(t, pointer, r.value, cs);
    } else {
      forall loc | Exists(t, loc)
        ensures Norm(pointer, cs) != Norm(PointerTo(t, loc), cs)
      {
        FollowNames(t, pointer, loc, cs);
      }
    }
  }
}
