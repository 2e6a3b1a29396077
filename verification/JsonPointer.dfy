/** JSON Pointer (RFC 6901): escaping, unescaping, following a pointer and finding one. */
module JsonPointer {
  import opened CString
  import opened JsonTree
  import opened JsonText
  import opened Sequences

  // ---- escaping ----

  function Escaped(c: char): string {
    if c == '/' then "~1" else if c == '~' then "~0" else [c]
  }

  function EncodeKey(s: string): (r: string)
    ensures |r| >= |s|
  {
    if s == "" then "" else Escaped(s[0]) + EncodeKey(s[1..])
  }

  lemma {:induction false} EncodeAppend(s: string, c: char)
    ensures EncodeKey(s + [c]) == EncodeKey(s) + Escaped(c)
  {
    if s == "" {
      assert EncodeKey([c]) == Escaped(c) + EncodeKey([c][1..]);
    } else {
      assert (s + [c])[1..] == s[1..] + [c];
      EncodeAppend(s[1..], c);
    }
  }

  /** No escaped key contains the separator. */
  lemma {:induction false} EncodeHasNoSlash(s: string)
    ensures '/' !in EncodeKey(s)
  {
    if s != "" {
      EncodeHasNoSlash(s[1..]);
    }
  }

  lemma {:induction false} EncodeNulFree(s: string)
    requires NulFree(s)
    ensures NulFree(EncodeKey(s))
  {
    if s != "" {
      EncodeNulFree(s[1..]);
    }
  }

  lemma {:induction false} EncodePrefix(s: string, i: nat)
    requires i <= |s|
    ensures |EncodeKey(s[..i])| <= |EncodeKey(s)|
    ensures EncodeKey(s) == EncodeKey(s[..i]) + EncodeKey(s[i..])
  {
    if i > 0 {
      EncodePrefix(s[1..], i - 1);
      assert s[..i][1..] == s[1..][..i - 1] && s[1..][i - 1..] == s[i..];
    }
  }

  lemma NextEscape(key: string, w: nat)
    requires w < |key|
    ensures var e, p := EncodeKey(key), |EncodeKey(key[..w])|;
            && |EncodeKey(key[..w + 1])| == p + |Escaped(key[w])| <= |e|
            && w <= p
            && e[p..p + |Escaped(key[w])|] == Escaped(key[w])
  {
    EncodePrefix(key, w + 1);
    EncodeAppend(key[..w], key[w]);
    assert key[..w + 1] == key[..w] + [key[w]];
  }

  /** pointer_encoded_length counts exactly what encode_string_as_pointer writes. */
  method PointerEncodedLength(s: string) returns (length: nat)
    ensures length == |EncodeKey(s)|
  {
    length := 0;
    var i := 0;
    while i < |s|
      invariant i <= |s| && length == |EncodeKey(s[..i])|
    {
      if s[i] == '~' || s[i] == '/' {
        length := length + 1;
      }
      assert s[..i + 1] == s[..i] + [s[i]];
      EncodeAppend(s[..i], s[i]);
      i, length := i + 1, length + 1;
    }
    assert s[..i] == s;
  }

  method WriteEscaped(destination: array<char>, d: nat, c: char) returns (end: nat)
    requires d + |Escaped(c)| <= destination.Length
    modifies destination
    ensures end == d + |Escaped(c)|
    ensures destination[..end] == old(destination[..d]) + Escaped(c)
    ensures destination[end..] == old(destination[d + |Escaped(c)|..])
  {
    end := d;
    if c == '/' {
      destination[d], destination[d + 1] := '~', '1';
      end := end + 1;
    } else if c == '~' {
      destination[d], destination[d + 1] := '~', '0';
      end := end + 1;
    } else {
      destination[d] := c;
    }
    end := end + 1;
  }

  method EncodeStringAsPointer(destination: array<char>, start: nat, source: string)
    requires start + |EncodeKey(source)| < destination.Length
    modifies destination
    ensures var end := start + |EncodeKey(source)|;
            && destination[..end] == old(destination[..start]) + EncodeKey(source)
            && destination[end] == '\0'
            && destination[end + 1..] == old(destination[end + 1..])
  {
    hide EncodeKey, Escaped;
    ghost var head, all := destination[..start], EncodeKey(source);
    var i, d := 0, start;
    NothingEncoded();
    assert source[..0] == "";
    while i < |source|
      invariant i <= |source|
      invariant start <= d == start + |EncodeKey(source[..i])| <= start + |all|
      invariant destination[..d] == head + EncodeKey(source[..i])
      invariant destination[d..] == old(destination[..])[d..]
    {
      NextEscape(source, i);
      EncodeAppend(source[..i], source[i]);
      assert source[..i + 1] == source[..i] + [source[i]];
      Regroup(head, EncodeKey(source[..i]), Escaped(source[i]));
      d := WriteEscaped(destination, d, source[i]);
      i := i + 1;
    }
    assert source[..i] == source;
    destination[d] := '\0';
  }

  lemma NothingEncoded()
    ensures EncodeKey("") == ""
  {
  }

  /** The path of a member: the allocation is filled to its last byte. */
  method JoinPath(path: string, suffix: string) returns (fullPath: array<char>)
    ensures fresh(fullPath)
    ensures fullPath[..] == path + "/" + EncodeKey(suffix) + "\0"
  {
    var suffixLength := PointerEncodedLength(suffix);
    fullPath := new char[|path| + suffixLength + 2](_ => '\0');
    forall i | 0 <= i < |path| {
      fullPath[i] := path[i];
    }
    fullPath[|path|] := '/';
    assert fullPath[..|path| + 1] == path + "/";
    EncodeStringAsPointer(fullPath, |path| + 1, suffix);
    assert fullPath[..] == fullPath[..|path| + 1 + suffixLength] + [fullPath[|path| + 1 + suffixLength]];
  }

  // ---- unescaping in place ----

  predicate Terminated(buffer: string) {
    buffer != "" && buffer[|buffer| - 1] == '\0'
  }

  /** The loop of decode_pointer_inplace, with its read and write positions. An ordinary
      character is stepped over, not copied; "~1" stores one place too far; an unknown escape
      leaves the buffer unterminated. */
  function DecodeFrom(s: string, r: nat, w: nat): (t: string)
    requires Terminated(s) && w <= r < |s|
    ensures |t| == |s|
    decreases |s| - r
  {
    if s[r] == '\0' then s[w := '\0']
    else if s[r] != '~' then DecodeFrom(s, r + 1, w + 1)
    else if s[r + 1] == '0' then DecodeFrom(s[w := '~'], r + 2, w + 1)
    else if s[r + 1] == '1' then DecodeFrom(s[w + 1 := '/'], r + 2, w + 1)
    else s
  }

  method DecodePointerInPlace(a: array<char>)
    requires Terminated(a[..])
    modifies a
    ensures a[..] == DecodeFrom(old(a[..]), 0, 0)
  {
    var r, w := 0, 0;
    while a[r] != '\0'
      invariant w <= r < a.Length
      invariant Terminated(a[..])
      invariant DecodeFrom(old(a[..]), 0, 0) == DecodeFrom(a[..], r, w)
      decreases a.Length - r
    {
      ghost var was := a[..];
      if a[r] == '~' {
        if a[r + 1] == '0' {
          a[w] := '~';
          assert a[..] == was[w := '~'];
        } else if a[r + 1] == '1' {
          a[w + 1] := '/';
          assert a[..] == was[w + 1 := '/'];
        } else {
          return;
        }
        r := r + 1;
      }
      r, w := r + 1, w + 1;
    }
    ghost var last := a[..];
    a[w] := '\0';
    assert a[..] == last[w := '\0'];
  }

  /** What the caller of decode_pointer_inplace sees. */
  function DecodeToken(token: string): string {
    Text(DecodeFrom(token + "\0", 0, 0))
  }

  /** Without '~' the buffer is left alone. */
  lemma {:induction false} DecodeNoTilde(s: string, r: nat)
    requires Terminated(s) && r < |s| && '~' !in s
    requires forall i :: 0 <= i < |s| - 1 ==> s[i] != '\0'
    ensures DecodeFrom(s, r, r) == s
    decreases |s| - r
  {
    if s[r] != '\0' {
      DecodeNoTilde(s, r + 1);
    }
  }

  lemma DecodeTokenNoTilde(token: string)
    requires NulFree(token) && '~' !in token
    ensures DecodeToken(token) == token
  {
    DecodeNoTilde(token + "\0", 0);
    TextIs(token, "");
    assert token + "\0" + "" == token + "\0";
  }

  /** A malformed escape ends the decoding: without a tilde before it the token stays as it is. */
  lemma {:induction false} MalformedEscapeStays(token: string, i: nat)
    requires NulFree(token) && i < |token| && token[i] == '~' && '~' !in token[..i]
    requires i + 1 < |token| ==> token[i + 1] != '0' && token[i + 1] != '1'
    ensures DecodeToken(token) == token
  {
    ReadsUpTo(token + "\0", i, i);
    TextIs(token, "");
    assert token + "\0" + "" == token + "\0";
  }

  lemma {:induction false} ReadsUpTo(s: string, i: nat, n: nat)
    requires Terminated(s) && n <= i < |s| - 1 && s[i] == '~' && s[i + 1] != '0' && s[i + 1] != '1'
    requires forall j :: 0 <= j < i ==> s[j] != '~' && s[j] != '\0'
    ensures DecodeFrom(s, i - n, i - n) == s
    decreases n
  {
    if n > 0 {
      ReadsUpTo(s, i, n - 1);
    }
  }

  /** When unescaping a key gives the key back: it holds no '/', and every character other than
      '~' stands in the escaped key where it stands in the key. */
  predicate Decodable(key: string) {
    && '/' !in key
    && forall i :: 0 <= i < |key| && key[i] != '~' ==> key[i] == EncodeKey(key)[i]
  }

  /** The positions below the write position are final. */
  lemma {:induction false} DecodeKeepsWritten(s: string, r: nat, w: nat, i: nat)
    requires Terminated(s) && w <= r < |s| && i < w
    ensures DecodeFrom(s, r, w)[i] == s[i]
    decreases |s| - r
  {
    if s[r] == '\0' {
    } else if s[r] != '~' {
      DecodeKeepsWritten(s, r + 1, w + 1, i);
    } else if s[r + 1] == '0' {
      DecodeKeepsWritten(s[w := '~'], r + 2, w + 1, i);
    } else if s[r + 1] == '1' {
      DecodeKeepsWritten(s[w + 1 := '/'], r + 2, w + 1, i);
    }
  }

  /** What decoding leaves at position i of a key without '/'. */
  function Survivor(key: string, i: nat): char
    requires i < |key|
  {
    if key[i] == '~' then '~' else EncodeKey(key)[i]
  }

  /** The buffer when the key's first w characters have been read, if none of them is '/'. */
  predicate Midway(key: string, s: string, w: nat) {
    && w <= |key|
    && |s| == |EncodeKey(key)| + 1
    && (forall i :: 0 <= i < w ==> s[i] == Survivor(key, i))
    && (forall i :: w <= i < |s| - 1 ==> s[i] == EncodeKey(key)[i])
    && s[|s| - 1] == '\0'
  }

  /** The escape of character w is where the read position is. */
  lemma ReadsEscape(key: string, s: string, w: nat)
    requires Midway(key, s, w) && w < |key|
    ensures var r := |EncodeKey(key[..w])|;
            && w <= r && r + |Escaped(key[w])| < |s|
            && s[r] == Escaped(key[w])[0]
            && (|Escaped(key[w])| == 2 ==> s[r + 1] == Escaped(key[w])[1])
            && |EncodeKey(key[..w + 1])| == r + |Escaped(key[w])|
  {
    NextEscape(key, w);
    var e, r := EncodeKey(key), |EncodeKey(key[..w])|;
    assert e[r] == e[r..r + |Escaped(key[w])|][0];
    if |Escaped(key[w])| == 2 {
      assert e[r + 1] == e[r..r + 2][1];
    }
  }

  function Stepped(key: string, s: string, w: nat): string
    requires w < |key| && w < |s|
  {
    if key[w] == '~' then s[w := '~'] else s
  }

  /** One round of the decoding loop. */
  lemma DecodeStep(key: string, s: string, w: nat)
    requires NulFree(key) && Midway(key, s, w) && w < |key|
    ensures var r := |EncodeKey(key[..w])|;
            && w <= r && r + |Escaped(key[w])| < |s|
            && |EncodeKey(key[..w + 1])| == r + |Escaped(key[w])|
            && (key[w] != '/' ==>
                  && Midway(key, Stepped(key, s, w), w + 1)
                  && DecodeFrom(s, r, w) == DecodeFrom(Stepped(key, s, w), r + |Escaped(key[w])|, w + 1))
            && (key[w] == '/' ==> DecodeFrom(s, r, w) == DecodeFrom(s[w + 1 := '/'], r + 2, w + 1))
  {
    hide EncodeKey;
    ReadsEscape(key, s, w);
  }

  /** Decoding reads a key without '/' to its end. */
  lemma {:induction false} DecodeWalk(key: string, s: string, w: nat)
    requires NulFree(key) && Midway(key, s, w)
    requires forall i :: w <= i < |key| ==> key[i] != '/'
    ensures w <= |EncodeKey(key[..w])| < |s|
    ensures forall i :: 0 <= i < |key| ==> DecodeFrom(s, |EncodeKey(key[..w])|, w)[i] == Survivor(key, i)
    ensures DecodeFrom(s, |EncodeKey(key[..w])|, w)[|key|] == '\0'
    decreases |key| - w
  {
    hide EncodeKey;
    if w == |key| {
      assert key[..w] == key;
    } else {
      DecodeStep(key, s, w);
      DecodeWalk(key, Stepped(key, s, w), w + 1);
    }
  }

  /** Decoding is wrong at the first '/' of a key. */
  lemma {:induction false} DecodeSlash(key: string, s: string, w: nat, q: nat)
    requires NulFree(key) && Midway(key, s, w)
    requires w <= q < |key| && key[q] == '/'
    requires forall i :: w <= i < q ==> key[i] != '/'
    ensures w <= |EncodeKey(key[..w])| < |s|
    ensures DecodeFrom(s, |EncodeKey(key[..w])|, w)[q] != '/'
    decreases |key| - w
  {
    hide EncodeKey, DecodeFrom;
    DecodeStep(key, s, w);
    if w == q {
      EncodeHasNoSlash(key);
      assert s[q] == EncodeKey(key)[q] && EncodeKey(key)[q] in EncodeKey(key);
      DecodeKeepsWritten(s[q + 1 := '/'], |EncodeKey(key[..q])| + 2, q + 1, q);
    } else {
      DecodeSlash(key, Stepped(key, s, w), w + 1, q);
    }
  }

  lemma {:induction false} FirstSlash(key: string) returns (q: nat)
    requires '/' in key
    ensures q < |key| && key[q] == '/' && forall i :: 0 <= i < q ==> key[i] != '/'
  {
    if key[0] == '/' {
      q := 0;
    } else {
      assert key == [key[0]] + key[1..];
      var p := FirstSlash(key[1..]);
      q := p + 1;
      assert forall i :: 0 < i < q ==> key[i] == key[1..][i - 1];
    }
  }

  /** Exactly the Decodable keys survive: escaping and then unescaping in place returns them. */
  lemma DecodeExact(key: string)
    requires NulFree(key)
    ensures DecodeToken(EncodeKey(key)) == key <==> Decodable(key)
  {
    var s := EncodeKey(key) + "\0";
    assert Midway(key, s, 0);
    assert key[..0] == "";
    var t := DecodeFrom(s, 0, 0);
    if '/' in key {
      var q := FirstSlash(key);
      DecodeSlash(key, s, 0, q);
      if Text(t) == key {
        TextAt(t, q);
      }
    } else {
      DecodeWalk(key, s, 0);
      DecodedText(key, t);
      if !Decodable(key) {
        var i :| 0 <= i < |key| && key[i] != '~' && key[i] != EncodeKey(key)[i];
        assert Text(t)[i] == Survivor(key, i);
      }
    }
  }

  /** Where the escaped key has a character of the key and not of an escape, it is the same position
      before the first '~' and a later one after it. */
  lemma {:induction false} EncodedAt(key: string, i: nat) returns (j: nat)
    requires '/' !in key && i < |key| <= |EncodeKey(key)|
    ensures j < |key|
    ensures EncodeKey(key)[i] == '~' || EncodeKey(key)[i] == '0' || EncodeKey(key)[i] == key[j]
    ensures if '~' in key[..i] then j < i && '~' in key[..j + 1] else j == i
  {
    assert key == [key[0]] + key[1..];
    if i == 0 {
      j := 0;
    } else if key[0] == '~' {
      assert key[0] in key[..i];
      assert key[0] in key[..1];
      j := 0;
      if i >= 2 {
        EncodeLonger(key[1..]);
        var l := EncodedAt(key[1..], i - 2);
        j := l + 1;
        assert EncodeKey(key)[i] == EncodeKey(key[1..])[i - 2];
        assert key[0] in key[..j + 1];
      }
    } else {
      EncodeLonger(key[1..]);
      var l := EncodedAt(key[1..], i - 1);
      j := l + 1;
      assert EncodeKey(key)[i] == EncodeKey(key[1..])[i - 1];
      assert key[..i] == [key[0]] + key[1..][..i - 1] && key[..j + 1] == [key[0]] + key[1..][..j];
    }
  }

  lemma {:induction false} EncodeLonger(key: string)
    ensures |key| <= |EncodeKey(key)|
  {
    if key != "" {
      EncodeLonger(key[1..]);
    }
  }

  /** As long as a key survives, every character behind its first '~' is '~' or '0'. */
  lemma {:induction false} SurvivesAsZero(key: string, i: nat)
    requires '/' !in key && i < |key| <= |EncodeKey(key)| && '~' in key[..i]
    requires forall l :: 0 <= l < i && key[l] != '~' ==> key[l] == EncodeKey(key)[l]
    ensures EncodeKey(key)[i] == '~' || EncodeKey(key)[i] == '0'
    decreases i
  {
    var j := EncodedAt(key, i);
    if EncodeKey(key)[i] == key[j] && key[j] != '~' {
      assert key[..j + 1] == key[..j] + [key[j]];
      SurvivesAsZero(key, j);
    }
  }

  /** The first character that does not survive is replaced by one it differs from in more than case. */
  lemma {:induction false} FirstLost(key: string, n: nat) returns (i: nat)
    requires '/' !in key && n <= |key| <= |EncodeKey(key)|
    requires exists l :: 0 <= l < n && key[l] != '~' && key[l] != EncodeKey(key)[l]
    ensures i < n && key[i] != '~' && ToLower(key[i]) != ToLower(EncodeKey(key)[i])
  {
    if l :| 0 <= l < n - 1 && key[l] != '~' && key[l] != EncodeKey(key)[l] {
      i := FirstLost(key, n - 1);
    } else {
      i := n - 1;
      var j := EncodedAt(key, i);
      if '~' in key[..i] {
        SurvivesAsZero(key, i);
      }
    }
  }

  lemma LostAt(key: string) returns (i: nat)
    requires NulFree(key) && !Decodable(key)
    ensures i < |key|
    ensures i < |DecodeToken(EncodeKey(key))| ==> ToLower(DecodeToken(EncodeKey(key))[i]) != ToLower(key[i])
  {
    EncodeLonger(key);
    var s := EncodeKey(key) + "\0";
    assert Midway(key, s, 0);
    assert key[..0] == "";
    var t := DecodeFrom(s, 0, 0);
    if '/' in key {
      i := FirstSlash(key);
      DecodeSlash(key, s, 0, i);
      if i < |Text(t)| {
        TextAt(t, i);
      }
    } else {
      DecodeWalk(key, s, 0);
      DecodedText(key, t);
      i := FirstLost(key, |key|);
      assert Text(t)[i] == Survivor(key, i);
    }
  }

  /** The same holds for a lookup that ignores case: a key that does not survive is not found either. */
  lemma DecodeFoldedExact(key: string)
    requires NulFree(key)
    ensures Fold(DecodeToken(EncodeKey(key))) == Fold(key) <==> Decodable(key)
  {
    DecodeExact(key);
    if !Decodable(key) {
      var d := DecodeToken(EncodeKey(key));
      var i := LostAt(key);
      assert |Fold(d)| == |d| && |Fold(key)| == |key|;
      assert i < |d| ==> Fold(d)[i] != Fold(key)[i];
    }
  }

  lemma DecodedText(key: string, t: string)
    requires NulFree(key) && |t| > |key| && t[|key|] == '\0'
    requires forall i :: 0 <= i < |key| ==> t[i] == Survivor(key, i)
    ensures Text(t) == t[..|key|]
  {
    EncodeNulFree(key);
    assert t == t[..|key|] + "\0" + t[|key| + 1..];
    TextIs(t[..|key|], t[|key| + 1..]);
  }

  /** Keys without '/' whose '~' characters all come last are Decodable. */
  lemma {:induction false} TrailingTildes(key: string, n: nat)
    requires n <= |key| && '/' !in key && '~' !in key[..n]
    requires forall i :: n <= i < |key| ==> key[i] == '~'
    ensures Decodable(key)
  {
    PlainPrefix(key, n);
  }

  lemma {:induction false} PlainPrefix(key: string, n: nat)
    requires n <= |key| && '/' !in key[..n] && '~' !in key[..n]
    ensures forall i :: 0 <= i < n ==> EncodeKey(key)[i] == key[i]
  {
    if n > 0 {
      assert key[..n] == [key[0]] + key[1..][..n - 1];
      PlainPrefix(key[1..], n - 1);
      assert EncodeKey(key) == [key[0]] + EncodeKey(key[1..]);
      forall i | 0 <= i < n
        ensures EncodeKey(key)[i] == key[i]
      {
        if i > 0 {
          assert EncodeKey(key)[i] == EncodeKey(key[1..])[i - 1] == key[1..][i - 1];
        }
      }
    }
  }

  /** Keys RFC 6901 allows and the library cannot name in a patch. */
  lemma UndecodableKeys()
    ensures !Decodable("a/b") && DecodeToken(EncodeKey("a/b")) != "a/b"
    ensures !Decodable("~a") && DecodeToken(EncodeKey("~a")) != "~a"
  {
    assert "a/b"[1] == '/';
    DecodeExact("a/b");
    assert EncodeKey("~a") == "~0" + EncodeKey("~a"[1..]);
    assert "~a"[1] == 'a' && EncodeKey("~a")[1] == '0';
    DecodeExact("~a");
  }

  // ---- one reference token ----

  predicate TokenEnds(pointer: string) {
    pointer == "" || pointer[0] == '/'
  }

  /** compare_pointers on what is left of the name and of the pointer. */
  predicate ComparePointers(name: string, pointer: string, cs: bool) {
    if name == "" || TokenEnds(pointer) then TokenEnds(pointer) == (name == "")
    else if pointer[0] == '~' then
      && |pointer| > 1
      && ((pointer[1] == '0' && name[0] == '~') || (pointer[1] == '1' && name[0] == '/'))
      && ComparePointers(name[1..], pointer[2..], cs)
    else
      && (if cs then name[0] == pointer[0] else ToLower(name[0]) == ToLower(pointer[0]))
      && ComparePointers(name[1..], pointer[1..], cs)
  }

  method ComparePointersLoop(name: string, pointer: string, cs: bool) returns (r: bool)
    ensures r == ComparePointers(name, pointer, cs)
  {
    var n, p := 0, 0;
    while n < |name| && p < |pointer| && pointer[p] != '/'
      invariant n <= |name| && p <= |pointer|
      invariant ComparePointers(name, pointer, cs) == ComparePointers(name[n..], pointer[p..], cs)
    {
      if pointer[p] == '~' {
        if p + 1 == |pointer|
           || ((pointer[p + 1] != '0' || name[n] != '~') && (pointer[p + 1] != '1' || name[n] != '/')) {
          return false;
        }
        p := p + 1;
      } else if (!cs && ToLower(name[n]) != ToLower(pointer[p])) || (cs && name[n] != pointer[p]) {
        return false;
      }
      n, p := n + 1, p + 1;
    }
    r := (p < |pointer| && pointer[p] != '/') == (n < |name|);
  }

  /** A name matches an escaped key exactly when the two are the same key. */
  lemma {:induction false} ComparePointersExact(name: string, key: string, rest: string, cs: bool)
    requires TokenEnds(rest)
    ensures ComparePointers(name, EncodeKey(key) + rest, cs) <==> Norm(name, cs) == Norm(key, cs)
  {
    var pointer := EncodeKey(key) + rest;
    if key == "" {
      assert pointer == rest;
      assert |Norm(name, cs)| == |name| && |Norm(key, cs)| == |key|;
    } else {
      assert pointer == Escaped(key[0]) + (EncodeKey(key[1..]) + rest);
      assert pointer[|Escaped(key[0])|..] == EncodeKey(key[1..]) + rest;
      if name == "" {
        assert |Norm(name, cs)| == |name| && |Norm(key, cs)| == |key|;
      } else {
        ComparePointersExact(name[1..], key[1..], rest, cs);
        NormCons(name, key, cs);
      }
    }
  }

  lemma NormCons(a: string, b: string, cs: bool)
    requires a != "" && b != ""
    ensures Norm(a, cs) == Norm(b, cs) <==> Norm(a[..1], cs) == Norm(b[..1], cs) && Norm(a[1..], cs) == Norm(b[1..], cs)
    ensures cs ==> (Norm(a[..1], cs) == Norm(b[..1], cs) <==> a[0] == b[0])
    ensures !cs ==> (Norm(a[..1], cs) == Norm(b[..1], cs) <==> ToLower(a[0]) == ToLower(b[0]))
  {
    assert Norm(a, cs) == Norm(a[..1], cs) + Norm(a[1..], cs);
    assert Norm(b, cs) == Norm(b[..1], cs) + Norm(b[1..], cs);
    assert |Norm(a[..1], cs)| == |Norm(b[..1], cs)| == 1;
    if cs {
      assert a[..1] == [a[0]] && b[..1] == [b[0]];
    } else {
      assert Norm(a[..1], cs) == [ToLower(a[0])] && Norm(b[..1], cs) == [ToLower(b[0])];
    }
    assert Norm(a, cs)[1..] == Norm(a[1..], cs) && Norm(b, cs)[1..] == Norm(b[1..], cs);
    assert Norm(a, cs)[..1] == Norm(a[..1], cs) && Norm(b, cs)[..1] == Norm(b[..1], cs);
  }

  /** What follows the token does not matter. */
  lemma {:induction false} CompareIgnoresRest(name: string, pointer: string, rest: string, cs: bool)
    requires TokenEnds(rest)
    ensures ComparePointers(name, pointer + rest, cs) == ComparePointers(name, pointer, cs)
  {
    if pointer == "" {
      assert pointer + rest == rest;
    } else if name != "" && !TokenEnds(pointer) {
      assert (pointer + rest)[1..] == pointer[1..] + rest;
      if pointer[0] == '~' {
        if |pointer| > 1 {
          assert (pointer + rest)[2..] == pointer[2..] + rest;
          CompareIgnoresRest(name[1..], pointer[2..], rest, cs);
        }
      } else {
        CompareIgnoresRest(name[1..], pointer[1..], rest, cs);
      }
    }
  }

  // ---- array indices ----


  /** The digits at the head of the pointer, accumulated in a size_t. */
  function ReadDigits(pointer: string, acc: nat): (nat, string) {
    if pointer == "" || !Digit(pointer[0]) then (acc, pointer)
    else ReadDigits(pointer[1..], (10 * acc + (pointer[0] as int - '0' as int)) % SIZE_MODULUS)
  }

  function DecodeIndex(pointer: string): Option<nat> {
    if pointer != "" && pointer[0] == '0' && !TokenEnds(pointer[1..]) then None
    else
      var (index, rest) := ReadDigits(pointer, 0);
      if TokenEnds(rest) then Some(index) else None
  }

  method DecodeArrayIndexFromPointer(pointer: string) returns (r: Option<nat>)
    ensures r == DecodeIndex(pointer)
  {
    if |pointer| > 1 && pointer[0] == '0' && pointer[1] != '/' {
      return None;
    }
    var index, position := 0, 0;
    while position < |pointer| && Digit(pointer[position])
      invariant 0 <= position <= |pointer| && 0 <= index
      invariant ReadDigits(pointer, 0) == ReadDigits(pointer[position..], index)
    {
      index := (10 * index + (pointer[position] as int - '0' as int)) % SIZE_MODULUS;
      position := position + 1;
    }
    if position < |pointer| && pointer[position] != '/' {
      return None;
    }
    return Some(index);
  }

  lemma {:induction false} ReadDecimal(n: nat, rest: string)
    requires n < SIZE_MODULUS && (rest == "" || !Digit(rest[0]))
    ensures ReadDigits(Decimal(n) + rest, 0) == (n, rest)
  {
    ReadDecimalThen(n, rest);
    assert ReadDigits(rest, n) == (n, rest);
  }

  lemma {:induction false} ReadDecimalThen(n: nat, rest: string)
    requires n < SIZE_MODULUS
    ensures ReadDigits(Decimal(n) + rest, 0) == ReadDigits(rest, n)
  {
    if n < 10 {
      assert (Decimal(n) + rest)[1..] == rest;
      assert n % SIZE_MODULUS == n;
    } else {
      var d := DigitChar(n % 10);
      assert Decimal(n) + rest == Decimal(n / 10) + ([d] + rest);
      ReadDecimalThen(n / 10, [d] + rest);
      assert ([d] + rest)[1..] == rest;
      assert 10 * (n / 10) + n % 10 == n;
      assert n % SIZE_MODULUS == n;
    }
  }

  /** Decimal text reads back as the index it prints. */
  lemma DecodeDecimal(n: nat, rest: string)
    requires n < SIZE_MODULUS && TokenEnds(rest)
    ensures DecodeIndex(Decimal(n) + rest) == Some(n)
  {
    ReadDecimal(n, rest);
    var p := Decimal(n) + rest;
    if p[0] == '0' {
      assert p[1..] == rest;
    }
  }

  lemma {:induction false} ReadIgnoresRest(pointer: string, acc: nat, rest: string)
    requires TokenEnds(rest)
    ensures ReadDigits(pointer + rest, acc) == (ReadDigits(pointer, acc).0, ReadDigits(pointer, acc).1 + rest)
  {
    if pointer == "" {
      assert pointer + rest == rest;
    } else if Digit(pointer[0]) {
      assert (pointer + rest)[1..] == pointer[1..] + rest;
      ReadIgnoresRest(pointer[1..], (10 * acc + (pointer[0] as int - '0' as int)) % SIZE_MODULUS, rest);
    }
  }

  lemma DecodeIgnoresRest(pointer: string, rest: string)
    requires TokenEnds(rest)
    ensures DecodeIndex(pointer + rest) == DecodeIndex(pointer)
  {
    hide ReadDigits, TokenEnds;
    ReadIgnoresRest(pointer, 0, rest);
    EndsWithRest(ReadDigits(pointer, 0).1, rest);
    EndsWithRest(pointer, rest);
    if pointer != "" {
      assert (pointer + rest)[1..] == pointer[1..] + rest;
      EndsWithRest(pointer[1..], rest);
    } else {
      assert pointer + rest == rest;
    }
  }

  lemma EndsWithRest(token: string, rest: string)
    requires TokenEnds(rest)
    ensures TokenEnds(token + rest) <==> TokenEnds(token)
    ensures token == "" && rest != "" ==> rest[0] != '0'
  {
    if token == "" {
      assert token + rest == rest;
    }
  }

  // ---- nodes by position ----

  /** A node is identified by the child positions on the way from the root. */
  type Location = seq<nat>

  function Children(t: Json): seq<Json> {
    match t
    case Array(items) => items
    case Object(ms) => seq(|ms|, i requires 0 <= i < |ms| => ms[i].value)
    case _ => []
  }

  predicate Exists(t: Json, loc: Location) {
    loc == [] || (loc[0] < |Children(t)| && Exists(Children(t)[loc[0]], loc[1..]))
  }

  function At(t: Json, loc: Location): Json
    requires Exists(t, loc)
  {
    if loc == [] then t else At(Children(t)[loc[0]], loc[1..])
  }

  function SkipToken(pointer: string): (r: string)
    ensures |r| <= |pointer| && TokenEnds(r)
  {
    if TokenEnds(pointer) then pointer else SkipToken(pointer[1..])
  }

  /** The first member whose name matches the token, or the member count. */
  function FirstNamed(ms: seq<Member>, pointer: string, cs: bool): (i: nat)
    ensures i <= |ms|
    ensures i < |ms| ==> ComparePointers(ms[i].key, pointer, cs)
    ensures forall j :: 0 <= j < i ==> !ComparePointers(ms[j].key, pointer, cs)
  {
    if ms == [] || ComparePointers(ms[0].key, pointer, cs) then 0
    else
      var r := FirstNamed(ms[1..], pointer, cs);
      assert forall j :: 0 < j < r + 1 ==> ms[j] == ms[1..][j - 1];
      r + 1
  }

  /** The child one token leads to. */
  function Child(t: Json, pointer: string, cs: bool): (r: Option<nat>)
    ensures r.Some? ==> r.value < |Children(t)|
  {
    match t
    case Array(items) =>
      (match DecodeIndex(pointer)
       case None => None
       case Some(index) => if index < |items| then Some(index) else None)
    case Object(ms) =>
      var i := FirstNamed(ms, pointer, cs);
      if i < |ms| then Some(i) else None
    case _ => None
  }

  /** get_item_from_pointer. */
  function Follow(t: Json, pointer: string, cs: bool): (r: Option<Location>)
    ensures r.Some? ==> Exists(t, r.value)
    decreases |pointer|
  {
    if pointer == "" || pointer[0] != '/' then Some([])
    else
      match Child(t, pointer[1..], cs)
      case None => None
      case Some(i) =>
        match Follow(Children(t)[i], SkipToken(pointer[1..]), cs)
        case None => None
        case Some(loc) =>
          assert ([i] + loc)[1..] == loc;
          Some([i] + loc)
  }

  method FindChild(t: Json, pointer: string, cs: bool) returns (r: Option<nat>)
    ensures r == Child(t, pointer, cs)
  {
    if t.Array? {
      var decoded := DecodeArrayIndexFromPointer(pointer);
      if decoded.None? || decoded.value >= |t.items| {
        return None;
      }
      return decoded;
    } else if t.Object? {
      var index := 0;
      while index < |t.members|
        invariant index <= |t.members|
        invariant forall j :: 0 <= j < index ==> !ComparePointers(t.members[j].key, pointer, cs)
      {
        var found := ComparePointersLoop(t.members[index].key, pointer, cs);
        if found {
          assert index == FirstNamed(t.members, pointer, cs);
          return Some(index);
        }
        index := index + 1;
      }
      return None;
    }
    return None;
  }

  method SkipTokenLoop(pointer: string) returns (p: string)
    ensures p == SkipToken(pointer)
  {
    p := pointer;
    while p != "" && p[0] != '/'
      invariant SkipToken(p) == SkipToken(pointer)
      decreases |p|
    {
      p := p[1..];
    }
  }

  function Prefixed(loc: Location, r: Option<Location>): Option<Location> {
    match r
    case None => None
    case Some(rest) => Some(loc + rest)
  }

  lemma FollowPrefixed(loc: Location, current: Json, p: string, i: nat, cs: bool)
    requires p != "" && p[0] == '/' && Child(current, p[1..], cs) == Some(i)
    ensures Prefixed(loc, Follow(current, p, cs)) ==
            Prefixed(loc + [i], Follow(Children(current)[i], SkipToken(p[1..]), cs))
  {
    hide Child, SkipToken;
    var below := Follow(Children(current)[i], SkipToken(p[1..]), cs);
    if below.Some? {
      assert loc + ([i] + below.value) == loc + [i] + below.value;
    }
  }

  method GetItemFromPointer(root: Json, pointer: string, cs: bool) returns (r: Option<Location>)
    ensures r == Follow(root, pointer, cs)
  {
    var current, p: string, loc: Location := root, pointer, [];
    ghost var result := Follow(root, pointer, cs);
    assert Prefixed([], result) == result by {
      assert result.Some? ==> [] + result.value == result.value;
    }
    while p != "" && p[0] == '/'
      invariant result == Prefixed(loc, Follow(current, p, cs))
      decreases |p|
    {
      var child := FindChild(current, p[1..], cs);
      if child.None? {
        return None;
      }
      var rest := SkipTokenLoop(p[1..]);
      FollowPrefixed(loc, current, p, child.value, cs);
      current, p, loc := Children(current)[child.value], rest, loc + [child.value];
    }
    assert loc + [] == loc;
    return Some(loc);
  }

  // ---- finding the pointer of a node ----

  /** cJSONUtils_FindPointerFromObjectTo: the node at `here` has the value t, the search is for
      the node at `target`. */
  function FindPointer(t: Json, here: Location, target: Location): Option<string>
    decreases t, 1, 0
  {
    if here == target then Some("") else FindInChildren(t, here, target, 0)
  }

  function FindInChildren(t: Json, here: Location, target: Location, i: nat): Option<string>
    decreases t, 0, |Children(t)| - i
  {
    if i >= |Children(t)| then None
    else
      match FindPointer(Children(t)[i], here + [i], target)
      case Some(s) => Some("/" + Token(t, i) + s)
      case None => FindInChildren(t, here, target, i + 1)
  }

  /** The reference token of the i-th child. */
  function Token(t: Json, i: nat): string
    requires i < |Children(t)|
  {
    if t.Array? then Decimal(i) else EncodeKey(t.members[i].key)
  }

  function PointerTo(t: Json, loc: Location): string
    requires Exists(t, loc)
  {
    if loc == [] then "" else "/" + Token(t, loc[0]) + PointerTo(Children(t)[loc[0]], loc[1..])
  }

  /** The search finds exactly the nodes below the object, and writes the way to them. */
  lemma {:induction false} FindPointerExact(t: Json, here: Location, target: Location)
    ensures FindPointer(t, here, target) ==
            if here <= target && Exists(t, target[|here|..]) then Some(PointerTo(t, target[|here|..])) else None
    decreases t, 1, 0
  {
    if here != target {
      FindInChildrenExact(t, here, target, 0);
    }
  }

  lemma {:induction false} FindInChildrenExact(t: Json, here: Location, target: Location, i: nat)
    requires here != target
    ensures FindInChildren(t, here, target, i) ==
            if here <= target && i <= target[|here|] && Exists(t, target[|here|..])
            then Some(PointerTo(t, target[|here|..])) else None
    decreases t, 0, |Children(t)| - i
  {
    if i < |Children(t)| {
      FindPointerExact(Children(t)[i], here + [i], target);
      FindInChildrenExact(t, here, target, i + 1);
      if here <= target && target[|here|] == i {
        assert here + [i] <= target;
        assert target[|here|..][1..] == target[|here + [i]|..];
      }
    }
  }

  /** At every object on the way, no earlier member has the key taken. */
  predicate FirstOfItsName(t: Json, loc: Location, cs: bool)
    requires Exists(t, loc)
  {
    loc == [] ||
    (&& (t.Object? ==> FirstMatch(t.members, t.members[loc[0]].key, cs) == loc[0])
     && FirstOfItsName(Children(t)[loc[0]], loc[1..], cs))
  }

  /** Arrays on the way are short enough for their indices to fit size_t. */
  predicate Countable(t: Json, loc: Location)
    requires Exists(t, loc)
  {
    loc == [] || ((t.Array? ==> |t.items| <= SIZE_MODULUS) && Countable(Children(t)[loc[0]], loc[1..]))
  }

  lemma {:induction false} SkipEncoded(token: string, rest: string)
    requires '/' !in token && TokenEnds(rest)
    ensures SkipToken(token + rest) == rest
  {
    if token == "" {
      assert token + rest == rest;
    } else {
      assert token[0] in token;
      assert (token + rest)[1..] == token[1..] + rest;
      SkipEncoded(token[1..], rest);
    }
  }

  lemma FirstNamedIsFirstMatch(ms: seq<Member>, key: string, rest: string, cs: bool)
    requires TokenEnds(rest)
    ensures FirstNamed(ms, EncodeKey(key) + rest, cs) == FirstMatch(ms, key, cs)
  {
    hide FirstNamed, FirstMatch, ComparePointers, EncodeKey, Norm;
    var i := FirstNamed(ms, EncodeKey(key) + rest, cs);
    var j := FirstMatch(ms, key, cs);
    if i < |ms| {
      ComparePointersExact(ms[i].key, key, rest, cs);
    }
    if j < |ms| {
      ComparePointersExact(ms[j].key, key, rest, cs);
    }
  }

  lemma TokenHasNoSlash(t: Json, i: nat)
    requires i < |Children(t)|
    ensures '/' !in Token(t, i)
  {
    if t.Object? {
      EncodeHasNoSlash(t.members[i].key);
    }
  }

  /** The token of a child leads to it, unless an earlier member has its key. */
  lemma TokenLeadsToChild(t: Json, i: nat, rest: string, cs: bool)
    requires i < |Children(t)| && TokenEnds(rest)
    requires t.Array? ==> |t.items| <= SIZE_MODULUS
    ensures SkipToken(Token(t, i) + rest) == rest
    ensures Child(t, Token(t, i) + rest, cs) == Some(if t.Object? then FirstMatch(t.members, t.members[i].key, cs) else i)
  {
    TokenHasNoSlash(t, i);
    SkipEncoded(Token(t, i), rest);
    if t.Array? {
      DecodeDecimal(i, rest);
    } else {
      FirstNamedIsFirstMatch(t.members, t.members[i].key, rest, cs);
    }
  }

  lemma FollowStep(t: Json, pointer: string, i: nat, rest: Location, cs: bool)
    requires pointer != "" && pointer[0] == '/' && Child(t, pointer[1..], cs).Some?
    ensures Follow(t, pointer, cs) == Some([i] + rest) <==>
            Child(t, pointer[1..], cs) == Some(i) &&
            Follow(Children(t)[i], SkipToken(pointer[1..]), cs) == Some(rest)
  {
    var j := Child(t, pointer[1..], cs).value;
    match Follow(Children(t)[j], SkipToken(pointer[1..]), cs)
    case None =>
    case Some(loc) =>
      assert ([j] + loc)[0] == j && ([j] + loc)[1..] == loc;
      assert ([i] + rest)[0] == i && ([i] + rest)[1..] == rest;
  }

  lemma InverseStep(t: Json, loc: Location, cs: bool)
    requires loc != [] && Exists(t, loc) && Countable(t, loc)
    requires TokenEnds(PointerTo(Children(t)[loc[0]], loc[1..]))
    ensures Follow(t, PointerTo(t, loc), cs) == Some(loc) <==>
            && (t.Object? ==> FirstMatch(t.members, t.members[loc[0]].key, cs) == loc[0])
            && Follow(Children(t)[loc[0]], PointerTo(Children(t)[loc[0]], loc[1..]), cs) == Some(loc[1..])
  {
    PointerToStep(t, loc);
    FollowsTo(t, loc[0], PointerTo(Children(t)[loc[0]], loc[1..]), loc[1..], cs);
    assert loc == [loc[0]] + loc[1..];
  }

  lemma PointerToStep(t: Json, loc: Location)
    requires loc != [] && Exists(t, loc)
    ensures PointerTo(t, loc) == "/" + (Token(t, loc[0]) + PointerTo(Children(t)[loc[0]], loc[1..]))
  {
  }

  lemma FollowsTo(t: Json, i: nat, rest: string, below: Location, cs: bool)
    requires i < |Children(t)| && TokenEnds(rest) && (t.Array? ==> |t.items| <= SIZE_MODULUS)
    ensures Follow(t, "/" + (Token(t, i) + rest), cs) == Some([i] + below) <==>
            && (t.Object? ==> FirstMatch(t.members, t.members[i].key, cs) == i)
            && Follow(Children(t)[i], rest, cs) == Some(below)
  {
    var p := "/" + (Token(t, i) + rest);
    assert p[1..] == Token(t, i) + rest;
    TokenLeadsToChild(t, i, rest, cs);
    FollowStep(t, p, i, below, cs);
  }

  /** The pointer found for a node leads back to that very node exactly when no earlier member
      with the same key hides a member on the way. */
  lemma {:induction false} PointerInverse(t: Json, loc: Location, cs: bool)
    requires Exists(t, loc) && Countable(t, loc)
    ensures TokenEnds(PointerTo(t, loc))
    ensures Follow(t, PointerTo(t, loc), cs) == Some(loc) <==> FirstOfItsName(t, loc, cs)
  {
    if loc != [] {
      PointerInverse(Children(t)[loc[0]], loc[1..], cs);
      InverseStep(t, loc, cs);
    }
  }

  lemma {:induction false} DistinctIsFirst(t: Json, loc: Location, cs: bool)
    requires WellFormed(t, cs) && Exists(t, loc)
    ensures FirstOfItsName(t, loc, cs) && Countable(t, loc)
  {
    if loc != [] {
      if t.Object? {
        MeaningAt(t.members, cs, loc[0]);
      }
      DistinctIsFirst(Children(t)[loc[0]], loc[1..], cs);
    }
  }

  /** In a tree with distinct keys the two public functions are inverse to each other. */
  lemma FindThenGet(root: Json, target: Location, cs: bool)
    requires WellFormed(root, cs) && Exists(root, target)
    ensures FindPointer(root, [], target).Some?
    ensures Follow(root, FindPointer(root, [], target).value, cs) == Some(target)
  {
    FindPointerExact(root, [], target);
    assert target[0..] == target;
    DistinctIsFirst(root, target, cs);
    PointerInverse(root, target, cs);
  }

  /** Different nodes have different pointers. */
  lemma PointersAreUnique(root: Json, target: Location, other: Location, cs: bool)
    requires WellFormed(root, cs) && Exists(root, target) && Exists(root, other)
    requires FindPointer(root, [], target) == FindPointer(root, [], other)
    ensures target == other
  {
    FindThenGet(root, target, cs);
    FindThenGet(root, other, cs);
  }
}
