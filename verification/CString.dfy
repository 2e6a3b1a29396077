/** C strings: a string is the sequence of characters before its terminating NUL. */
module CString {

  datatype Option<+T> = None | Some(value: T)

  predicate NulFree(s: string) {
    forall i :: 0 <= i < |s| ==> s[i] != '\0'
  }

  /** The text of a NUL-terminated buffer. */
  function Text(buffer: string): string {
    if buffer == "" || buffer[0] == '\0' then "" else [buffer[0]] + Text(buffer[1..])
  }

  lemma {:induction false} TextIs(s: string, rest: string)
    requires NulFree(s)
    ensures Text(s + "\0" + rest) == s
  {
    var b := s + "\0" + rest;
    if s != "" {
      assert b[0] == s[0] != '\0';
      assert b[1..] == s[1..] + "\0" + rest;
      TextIs(s[1..], rest);
      assert s == [s[0]] + s[1..];
    }
  }

  lemma {:induction false} TextAt(buffer: string, i: nat)
    requires i < |Text(buffer)|
    ensures |Text(buffer)| <= |buffer|
    ensures Text(buffer)[i] == buffer[i]
  {
    TextLength(buffer);
    if i > 0 {
      TextAt(buffer[1..], i - 1);
    }
  }

  lemma {:induction false} TextLength(buffer: string)
    ensures |Text(buffer)| <= |buffer|
  {
    if buffer != "" {
      TextLength(buffer[1..]);
    }
  }

  /** tolower in the C locale. */
  function ToLower(c: char): char {
    if 'A' <= c <= 'Z' then (c as int + 32) as char else c
  }

  const UPPER: string := "ABCDEFGHIJKLMNOPQRSTUVWXYZ"
  const LOWER: string := "abcdefghijklmnopqrstuvwxyz"

  /** The letters of the alphabet go to their small forms, and nothing else changes. */
  lemma ToLowerExact(c: char, i: nat)
    requires i < 26
    ensures ToLower(UPPER[i]) == LOWER[i]
    ensures c !in UPPER ==> ToLower(c) == c
  {
    if 'A' <= c <= 'Z' {
      assert UPPER[c as int - 'A' as int] == c;
    }
  }

  function Fold(s: string): string {
    seq(|s|, i requires 0 <= i < |s| => ToLower(s[i]))
  }

  /** What a key is compared by: itself, or its lower-case form when case is ignored. */
  function Norm(s: string, caseSensitive: bool): string {
    if caseSensitive then s else Fold(s)
  }

  /** Folding tells the strings of p apart. */
  ghost predicate FoldInjective(p: string -> bool) {
    forall a, b :: p(a) && p(b) && Fold(a) == Fold(b) ==> a == b
  }

  /** The sign of strcmp; the end of a string ranks below every character. */
  function Strcmp(a: string, b: string): int {
    if a == "" then (if b == "" then 0 else -1)
    else if b == "" then 1
    else if a[0] != b[0] then a[0] as int - b[0] as int
    else Strcmp(a[1..], b[1..])
  }

  predicate Before(a: string, b: string) {
    Strcmp(a, b) < 0
  }

  /** The order of a dictionary: at the first difference the lesser character, or the end, comes first. */
  lemma {:induction false} BeforeExact(a: string, b: string)
    ensures Before(a, b) <==>
            exists n :: && 0 <= n <= |a| && n < |b| && a[..n] == b[..n]
                        && (n == |a| || a[n] < b[n])
  {
    if Before(a, b) {
      var n := FirstDifference(a, b);
    }
    forall n | 0 <= n <= |a| && n < |b| && a[..n] == b[..n] && (n == |a| || a[n] < b[n])
      ensures Before(a, b)
    {
      SamePrefix(a, b, n);
    }
  }

  lemma {:induction false} FirstDifference(a: string, b: string) returns (n: nat)
    requires Before(a, b)
    ensures n <= |a| && n < |b| && a[..n] == b[..n] && (n == |a| || a[n] < b[n])
  {
    if a == "" || a[0] != b[0] {
      n := 0;
    } else {
      var k := FirstDifference(a[1..], b[1..]);
      n := k + 1;
      assert a[..n] == [a[0]] + a[1..][..k] && b[..n] == [b[0]] + b[1..][..k];
    }
  }

  lemma {:induction false} SamePrefix(a: string, b: string, n: nat)
    requires n <= |a| && n <= |b| && a[..n] == b[..n]
    ensures Strcmp(a, b) == Strcmp(a[n..], b[n..])
    decreases n
  {
    if n > 0 {
      assert a[0] == a[..n][0] == b[..n][0] == b[0];
      assert a[1..][..n - 1] == a[..n][1..] == b[..n][1..] == b[1..][..n - 1];
      SamePrefix(a[1..], b[1..], n - 1);
      assert a[1..][n - 1..] == a[n..] && b[1..][n - 1..] == b[n..];
    }
  }

  lemma {:induction false} StrcmpZero(a: string, b: string)
    ensures Strcmp(a, b) == 0 <==> a == b
  {
    if a != "" && b != "" && a[0] == b[0] {
      StrcmpZero(a[1..], b[1..]);
      assert a == [a[0]] + a[1..] && b == [b[0]] + b[1..];
    }
  }

  lemma {:induction false} StrcmpSwap(a: string, b: string)
    ensures Strcmp(a, b) < 0 <==> Strcmp(b, a) > 0
  {
    if a != "" && b != "" && a[0] == b[0] {
      StrcmpSwap(a[1..], b[1..]);
    }
  }

  lemma {:induction false} BeforeTransitive(a: string, b: string, c: string)
    requires Strcmp(a, b) <= 0 && Strcmp(b, c) <= 0
    ensures Strcmp(a, c) <= 0
    ensures Before(a, b) || Before(b, c) ==> Before(a, c)
  {
    if a != "" && b != "" && c != "" && a[0] == b[0] == c[0] {
      BeforeTransitive(a[1..], b[1..], c[1..]);
    }
  }

  /** Strict order on the keys: exactly one of before, equal, after. */
  lemma Trichotomy(a: string, b: string)
    ensures Before(a, b) ==> !Before(b, a) && a != b
    ensures a == b || Before(a, b) || Before(b, a)
    ensures !Before(a, a)
  {
    StrcmpZero(a, b);
    StrcmpZero(a, a);
    StrcmpSwap(a, b);
    StrcmpSwap(b, a);
  }

  /** Folding keeps the order of the strings of p: sorted in one mode they are sorted in the other. */
  ghost predicate FoldKeepsOrder(p: string -> bool) {
    forall a, b :: p(a) && p(b) ==> (Before(a, b) <==> Before(Fold(a), Fold(b)))
  }

  lemma OrderTellsApart(p: string -> bool)
    requires FoldKeepsOrder(p)
    ensures FoldInjective(p)
  {
    forall a, b | p(a) && p(b) && Fold(a) == Fold(b)
      ensures a == b
    {
      Trichotomy(a, b);
      Trichotomy(Fold(a), Fold(a));
    }
  }

  /** The comparison loops of both libraries: the sign is the order of the normalised strings. */
  method CompareStrings(string1: string, string2: string, caseSensitive: bool) returns (r: int)
    ensures r < 0 <==> Before(Norm(string1, caseSensitive), Norm(string2, caseSensitive))
    ensures r == 0 <==> Norm(string1, caseSensitive) == Norm(string2, caseSensitive)
  {
    ghost var a, b := Norm(string1, caseSensitive), Norm(string2, caseSensitive);
    StrcmpZero(a, b);
    var i := 0;
    while i < |string1| && i < |string2|
          && (if caseSensitive then string1[i] == string2[i] else ToLower(string1[i]) == ToLower(string2[i]))
      invariant i <= |string1| && i <= |string2|
      invariant Strcmp(a, b) == Strcmp(a[i..], b[i..])
      decreases |string1| - i
    {
      assert a[i..][1..] == a[i + 1..] && b[i..][1..] == b[i + 1..];
      i := i + 1;
    }
    if i == |string1| {
      r := if i == |string2| then 0 else -1;
    } else if i == |string2| {
      r := 1;
    } else if caseSensitive {
      r := string1[i] as int - string2[i] as int;
    } else {
      r := ToLower(string1[i]) as int - ToLower(string2[i]) as int;
    }
  }
}
