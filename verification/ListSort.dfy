/** The merge sort of cJSON_Utils.c on the sequence of list nodes; ChildList proves the
    pointer version equal to it. */
module ListSort {
  import opened CString
  import opened Sequences

  function Compare<T>(x: T, y: T, key: T -> string, cs: bool): int {
    Strcmp(Norm(key(x), cs), Norm(key(y), cs))
  }

  /** Every element is strictly before its successor: the list is left as it is. */
  predicate StrictlyAscending<T>(s: seq<T>, key: T -> string, cs: bool) {
    forall i :: 0 <= i < |s| - 1 ==> Compare(s[i], s[i + 1], key, cs) < 0
  }

  /** The two-pointer walk stops at the middle, rounded up. */
  function Middle(n: nat): (mid: nat)
    ensures n >= 2 ==> 0 < mid < n
  {
    (n + 1) / 2
  }

  function MergeLists<T>(first: seq<T>, second: seq<T>, key: T -> string, cs: bool): (r: seq<T>)
    ensures |r| == |first| + |second|
  {
    if first == [] then second
    else if second == [] then first
    else if Compare(first[0], second[0], key, cs) < 0 then [first[0]] + MergeLists(first[1..], second, key, cs)
    else [second[0]] + MergeLists(first, second[1..], key, cs)
  }

  function Sort<T>(s: seq<T>, key: T -> string, cs: bool): (r: seq<T>)
    ensures |r| == |s|
    decreases |s|
  {
    if |s| < 2 || StrictlyAscending(s, key, cs) then s
    else MergeLists(Sort(s[..Middle(|s|)], key, cs), Sort(s[Middle(|s|)..], key, cs), key, cs)
  }

  predicate Ordered<T>(s: seq<T>, key: T -> string, cs: bool) {
    forall i, j :: 0 <= i < j < |s| ==> Compare(s[i], s[j], key, cs) <= 0
  }

  lemma {:induction false} MergePermutes<T>(a: seq<T>, b: seq<T>, key: T -> string, cs: bool)
    ensures multiset(MergeLists(a, b, key, cs)) == multiset(a) + multiset(b)
  {
    hide Compare;
    if a != [] && b != [] {
      if Compare(a[0], b[0], key, cs) < 0 {
        assert a == [a[0]] + a[1..];
        MergePermutes(a[1..], b, key, cs);
      } else {
        assert b == [b[0]] + b[1..];
        MergePermutes(a, b[1..], key, cs);
      }
    }
  }

  lemma {:induction false} MergeOrdered<T>(a: seq<T>, b: seq<T>, key: T -> string, cs: bool)
    requires Ordered(a, key, cs) && Ordered(b, key, cs)
    ensures Ordered(MergeLists(a, b, key, cs), key, cs)
    decreases |a| + |b|
  {
    if a != [] && b != [] {
      if Compare(a[0], b[0], key, cs) < 0 {
        MergeOrdered(a[1..], b, key, cs);
        MergePermutes(a[1..], b, key, cs);
        SmallestFirst(a, b, MergeLists(a[1..], b, key, cs), key, cs);
      } else {
        StrcmpSwap(Norm(key(a[0]), cs), Norm(key(b[0]), cs));
        StrcmpSwap(Norm(key(b[0]), cs), Norm(key(a[0]), cs));
        MergeOrdered(a, b[1..], key, cs);
        MergePermutes(a, b[1..], key, cs);
        SmallestFirst(b, a, MergeLists(a, b[1..], key, cs), key, cs);
      }
    }
  }

  /** A head not after the other head may precede the ordered merge of everything else. */
  lemma SmallestFirst<T>(a: seq<T>, b: seq<T>, m: seq<T>, key: T -> string, cs: bool)
    requires a != [] && b != []
    requires Ordered(a, key, cs) && Ordered(b, key, cs) && Ordered(m, key, cs)
    requires Compare(a[0], b[0], key, cs) <= 0
    requires multiset(m) == multiset(a[1..]) + multiset(b)
    ensures Ordered([a[0]] + m, key, cs)
  {
    forall j | 0 <= j < |m|
      ensures Compare(a[0], m[j], key, cs) <= 0
    {
      assert m[j] in multiset(m);
      if m[j] in b {
        var i :| 0 <= i < |b| && b[i] == m[j];
        if i > 0 {
          BeforeTransitive(Norm(key(a[0]), cs), Norm(key(b[0]), cs), Norm(key(b[i]), cs));
        }
      } else {
        var i :| 0 <= i < |a[1..]| && a[1..][i] == m[j];
        assert a[i + 1] == m[j];
      }
    }
  }

  lemma {:induction false} AscendingIsOrdered<T>(s: seq<T>, key: T -> string, cs: bool)
    requires StrictlyAscending(s, key, cs)
    ensures Ordered(s, key, cs)
    ensures forall i, j :: 0 <= i < j < |s| ==> Compare(s[i], s[j], key, cs) < 0
  {
    if |s| > 1 {
      AscendingIsOrdered(s[1..], key, cs);
      forall j | 0 < j < |s|
        ensures Compare(s[0], s[j], key, cs) < 0
      {
        assert Compare(s[0], s[0 + 1], key, cs) < 0;
        if j > 1 {
          assert s[1] == s[1..][0] && s[j] == s[1..][j - 1];
          BeforeTransitive(Norm(key(s[0]), cs), Norm(key(s[1]), cs), Norm(key(s[j]), cs));
        }
      }
      forall i, j | 0 < i < j < |s|
        ensures Compare(s[i], s[j], key, cs) < 0
      {
        assert s[i] == s[1..][i - 1] && s[j] == s[1..][j - 1];
      }
    }
  }

  /** sort_list returns an ordered permutation of its nodes. */
  lemma {:induction false} SortCorrect<T>(s: seq<T>, key: T -> string, cs: bool)
    ensures multiset(Sort(s, key, cs)) == multiset(s)
    ensures Ordered(Sort(s, key, cs), key, cs)
    decreases |s|
  {
    if |s| >= 2 {
      if StrictlyAscending(s, key, cs) {
        AscendingIsOrdered(s, key, cs);
      } else {
        var a, b := s[..Middle(|s|)], s[Middle(|s|)..];
        assert s == a + b;
        SortCorrect(a, key, cs);
        SortCorrect(b, key, cs);
        MergePermutes(Sort(a, key, cs), Sort(b, key, cs), key, cs);
        MergeOrdered(Sort(a, key, cs), Sort(b, key, cs), key, cs);
      }
    }
  }

  // ---- what sorting does to the two ends ----

  predicate FirstIsLeast<T>(s: seq<T>, key: T -> string, cs: bool)
    requires s != []
  {
    forall j :: 0 < j < |s| ==> Compare(s[0], s[j], key, cs) < 0
  }

  predicate LastIsGreatest<T>(s: seq<T>, key: T -> string, cs: bool)
    requires s != []
  {
    forall j :: 0 <= j < |s| - 1 ==> Compare(s[j], s[|s| - 1], key, cs) < 0
  }

  /** The last element of a merge: of equal ones the left one. */
  lemma {:induction false} MergeLast<T>(a: seq<T>, b: seq<T>, key: T -> string, cs: bool)
    requires Ordered(a, key, cs) && Ordered(b, key, cs) && a != [] && b != []
    ensures MergeLists(a, b, key, cs)[|a| + |b| - 1] ==
            if Compare(a[|a| - 1], b[|b| - 1], key, cs) < 0 then b[|b| - 1] else a[|a| - 1]
    decreases |a| + |b|
  {
    hide Compare, MergeLists, Ordered;
    MergeCases(a, b, key, cs);
    OrderedTail(a, key, cs);
    OrderedTail(b, key, cs);
    if Compare(a[0], b[0], key, cs) < 0 {
      if |a| == 1 {
        Below(a[0], b[0], b[|b| - 1], key, cs);
      } else {
        MergeLast(a[1..], b, key, cs);
      }
    } else {
      if |b| == 1 {
        Below(b[0], a[0], a[|a| - 1], key, cs);
      } else {
        MergeLast(a, b[1..], key, cs);
      }
    }
  }

  lemma OrderedTail<T>(s: seq<T>, key: T -> string, cs: bool)
    requires Ordered(s, key, cs) && s != []
    ensures Ordered(s[1..], key, cs) && Compare(s[0], s[|s| - 1], key, cs) <= 0
  {
    CompareSelf(s[0], key, cs);
  }

  lemma MergeCases<T>(a: seq<T>, b: seq<T>, key: T -> string, cs: bool)
    requires a != [] && b != []
    ensures Compare(a[0], b[0], key, cs) < 0 ==>
              MergeLists(a, b, key, cs) == [a[0]] + if |a| == 1 then b else MergeLists(a[1..], b, key, cs)
    ensures Compare(a[0], b[0], key, cs) >= 0 ==>
              MergeLists(a, b, key, cs) == [b[0]] + if |b| == 1 then a else MergeLists(a, b[1..], key, cs)
  {
    hide Compare;
  }

  /** Transitivity, and the order of two elements seen from both sides. */
  lemma Below<T>(x: T, y: T, z: T, key: T -> string, cs: bool)
    ensures Compare(x, y, key, cs) < 0 && Compare(y, z, key, cs) <= 0 ==> Compare(x, z, key, cs) < 0
    ensures Compare(x, y, key, cs) <= 0 && Compare(y, z, key, cs) < 0 ==> Compare(x, z, key, cs) < 0
    ensures Compare(x, y, key, cs) <= 0 && Compare(y, z, key, cs) <= 0 ==> Compare(z, x, key, cs) >= 0
    ensures Compare(y, x, key, cs) >= 0 ==> Compare(x, y, key, cs) <= 0
    ensures y == z ==> Compare(y, z, key, cs) <= 0
  {
    hide Strcmp, Norm;
    var a, b, c := Norm(key(x), cs), Norm(key(y), cs), Norm(key(z), cs);
    StrcmpZero(b, c);
    StrcmpSwap(b, a);
    StrcmpSwap(a, b);
    StrcmpSwap(c, a);
    if Strcmp(a, b) <= 0 && Strcmp(b, c) <= 0 {
      BeforeTransitive(a, b, c);
    }
  }

  lemma SortMember<T>(s: seq<T>, i: nat, key: T -> string, cs: bool)
    requires i < |s|
    ensures Sort(s, key, cs)[i] in s && s[i] in Sort(s, key, cs)
  {
    SortCorrect(s, key, cs);
    assert Sort(s, key, cs)[i] in multiset(s) && s[i] in multiset(Sort(s, key, cs));
  }

  /** Every element lies between the first and the last of the sorted list. */
  lemma SortEnds<T>(s: seq<T>, i: nat, key: T -> string, cs: bool)
    requires i < |s|
    ensures Compare(Sort(s, key, cs)[0], s[i], key, cs) <= 0
    ensures Compare(s[i], Sort(s, key, cs)[|s| - 1], key, cs) <= 0
  {
    hide Sort, Compare;
    var t := Sort(s, key, cs);
    SortCorrect(s, key, cs);
    SortMember(s, i, key, cs);
    var j :| 0 <= j < |t| && t[j] == s[i];
    CompareSelf(s[i], key, cs);
  }

  lemma CompareSelf<T>(x: T, key: T -> string, cs: bool)
    ensures Compare(x, x, key, cs) == 0
  {
    StrcmpZero(Norm(key(x), cs), Norm(key(x), cs));
  }

  lemma SortSplit<T>(s: seq<T>, key: T -> string, cs: bool)
    ensures |s| < 2 || StrictlyAscending(s, key, cs) ==> Sort(s, key, cs) == s
    ensures |s| >= 2 && !StrictlyAscending(s, key, cs) ==>
              Sort(s, key, cs) ==
              MergeLists(Sort(s[..Middle(|s|)], key, cs), Sort(s[Middle(|s|)..], key, cs), key, cs)
  {
  }

  lemma AscendingEnds<T>(s: seq<T>, key: T -> string, cs: bool)
    requires s != [] && (|s| < 2 || StrictlyAscending(s, key, cs))
    ensures FirstIsLeast(s, key, cs) && LastIsGreatest(s, key, cs)
  {
    if |s| >= 2 {
      AscendingIsOrdered(s, key, cs);
    }
  }

  /** sort_list leaves the first element in place exactly when its key is strictly the least. */
  lemma {:induction false} SortKeepsFirst<T>(s: seq<T>, key: T -> string, cs: bool)
    requires NoDuplicates(s) && s != []
    ensures Sort(s, key, cs)[0] == s[0] <==> FirstIsLeast(s, key, cs)
    decreases |s|
  {
    hide Compare, Sort, StrictlyAscending, FirstIsLeast;
    SortSplit(s, key, cs);
    if |s| < 2 || StrictlyAscending(s, key, cs) {
      AscendingEnds(s, key, cs);
    } else {
      var m := Middle(|s|);
      SortKeepsFirst(s[..m], key, cs);
      FirstOfHalves(s, s[..m], s[m..], key, cs);
    }
  }

  lemma FirstOfHalves<T>(s: seq<T>, a: seq<T>, b: seq<T>, key: T -> string, cs: bool)
    requires NoDuplicates(s) && s == a + b && a != [] && b != []
    requires Sort(a, key, cs)[0] == a[0] <==> FirstIsLeast(a, key, cs)
    ensures MergeLists(Sort(a, key, cs), Sort(b, key, cs), key, cs)[0] == s[0] <==> FirstIsLeast(s, key, cs)
  {
    hide Sort, Compare;
    var x, y := Sort(a, key, cs)[0], Sort(b, key, cs)[0];
    SortMember(a, 0, key, cs);
    SortMember(b, 0, key, cs);
    var j :| 0 <= j < |b| && b[j] == y;
    assert s[|a| + j] == y && s[0] == a[0];
    if Compare(x, y, key, cs) < 0 && x == a[0] {
      forall i | 0 <= i < |b|
        ensures Compare(a[0], b[i], key, cs) < 0
      {
        SortEnds(b, i, key, cs);
        Below(x, y, b[i], key, cs);
      }
      assert FirstIsLeast(s, key, cs);
    }
    if FirstIsLeast(s, key, cs) {
      assert forall i :: 0 < i < |a| ==> a[i] == s[i];
      assert Compare(s[0], s[|a| + j], key, cs) < 0;
    }
  }

  /** sort_list leaves the last element in place exactly when its key is strictly the greatest. */
  lemma {:induction false} SortKeepsLast<T>(s: seq<T>, key: T -> string, cs: bool)
    requires NoDuplicates(s) && s != []
    ensures Sort(s, key, cs)[|s| - 1] == s[|s| - 1] <==> LastIsGreatest(s, key, cs)
    decreases |s|
  {
    hide Compare, Sort, StrictlyAscending, LastIsGreatest;
    SortSplit(s, key, cs);
    if |s| < 2 || StrictlyAscending(s, key, cs) {
      AscendingEnds(s, key, cs);
    } else {
      var m := Middle(|s|);
      SortKeepsLast(s[m..], key, cs);
      LastOfHalves(s, s[..m], s[m..], key, cs);
    }
  }

  lemma LastOfHalves<T>(s: seq<T>, a: seq<T>, b: seq<T>, key: T -> string, cs: bool)
    requires NoDuplicates(s) && s == a + b && a != [] && b != []
    requires Sort(b, key, cs)[|b| - 1] == b[|b| - 1] <==> LastIsGreatest(b, key, cs)
    ensures MergeLists(Sort(a, key, cs), Sort(b, key, cs), key, cs)[|s| - 1] == s[|s| - 1]
            <==> LastIsGreatest(s, key, cs)
  {
    hide Sort, Compare, MergeLists, LastIsGreatest, Ordered;
    var x, y, last := Sort(a, key, cs)[|a| - 1], Sort(b, key, cs)[|b| - 1], s[|s| - 1];
    SortIsOrdered(a, key, cs);
    SortIsOrdered(b, key, cs);
    LastOfMerged(Sort(a, key, cs), Sort(b, key, cs), |a| - 1, |b| - 1, key, cs);
    SortMember(a, |a| - 1, key, cs);
    var j :| 0 <= j < |a| && a[j] == x;
    assert s[j] == x && last == b[|b| - 1] && x != last;
    if Compare(x, y, key, cs) < 0 && y == last {
      AllBelow(a, y, key, cs);
      GreatestOfBoth(a, b, key, cs);
    }
    if LastIsGreatest(s, key, cs) {
      GreatestOfRight(a, b, j, key, cs);
    }
  }

  lemma AllBelow<T>(a: seq<T>, y: T, key: T -> string, cs: bool)
    requires a != [] && Compare(Sort(a, key, cs)[|a| - 1], y, key, cs) < 0
    ensures forall i :: 0 <= i < |a| ==> Compare(a[i], y, key, cs) < 0
  {
    hide Sort, Compare;
    forall i | 0 <= i < |a|
      ensures Compare(a[i], y, key, cs) < 0
    {
      SortEnds(a, i, key, cs);
      Below(a[i], Sort(a, key, cs)[|a| - 1], y, key, cs);
    }
  }

  lemma LastOfMerged<T>(a: seq<T>, b: seq<T>, i: nat, j: nat, key: T -> string, cs: bool)
    requires Ordered(a, key, cs) && Ordered(b, key, cs) && |a| == i + 1 && |b| == j + 1
    ensures MergeLists(a, b, key, cs)[i + j + 1] == if Compare(a[i], b[j], key, cs) < 0 then b[j] else a[i]
  {
    hide Compare, MergeLists, Ordered;
    MergeLast(a, b, key, cs);
  }

  lemma SortIsOrdered<T>(s: seq<T>, key: T -> string, cs: bool)
    ensures Ordered(Sort(s, key, cs), key, cs) && |Sort(s, key, cs)| == |s|
  {
    hide Sort, Compare, Ordered;
    SortCorrect(s, key, cs);
  }

  lemma GreatestOfBoth<T>(a: seq<T>, b: seq<T>, key: T -> string, cs: bool)
    requires b != [] && LastIsGreatest(b, key, cs)
    requires forall i :: 0 <= i < |a| ==> Compare(a[i], b[|b| - 1], key, cs) < 0
    ensures LastIsGreatest(a + b, key, cs)
  {
    hide Compare;
  }

  lemma GreatestOfRight<T>(a: seq<T>, b: seq<T>, j: nat, key: T -> string, cs: bool)
    requires b != [] && j < |a| && LastIsGreatest(a + b, key, cs)
    ensures LastIsGreatest(b, key, cs) && Compare(a[j], b[|b| - 1], key, cs) < 0
  {
    hide Compare;
    var s := a + b;
    assert s[j] == a[j] && s[|s| - 1] == b[|b| - 1];
    forall i | 0 <= i < |b| - 1
      ensures Compare(b[i], b[|b| - 1], key, cs) < 0
    {
      assert s[|a| + i] == b[i];
    }
  }

  predicate DistinctKeys<T>(s: seq<T>, key: T -> string, cs: bool) {
    forall i, j :: 0 <= i < j < |s| ==> Norm(key(s[i]), cs) != Norm(key(s[j]), cs)
  }

  /** With distinct keys the result is strictly ascending, so sorting again changes nothing. */
  lemma SortDistinct<T(!new)>(s: seq<T>, key: T -> string, cs: bool)
    requires DistinctKeys(s, key, cs)
    ensures DistinctKeys(Sort(s, key, cs), key, cs)
    ensures StrictlyAscending(Sort(s, key, cs), key, cs)
    ensures Sort(Sort(s, key, cs), key, cs) == Sort(s, key, cs)
  {
    var r := Sort(s, key, cs);
    SortCorrect(s, key, cs);
    forall i, j | 0 <= i < j < |r|
      ensures Norm(key(r[i]), cs) != Norm(key(r[j]), cs)
    {
      DistinctPermuted(s, r, i, j, key, cs);
    }
    forall i | 0 <= i < |r| - 1
      ensures Compare(r[i], r[i + 1], key, cs) < 0
    {
      StrcmpZero(Norm(key(r[i]), cs), Norm(key(r[i + 1]), cs));
    }
  }

  lemma TailMultiset<T>(s: seq<T>)
    requires s != []
    ensures s == [s[0]] + s[1..] && multiset(s[1..]) == multiset(s) - multiset{s[0]}
  {
    assert s == [s[0]] + s[1..];
  }

  lemma TailAscending<T>(s: seq<T>, key: T -> string, cs: bool)
    requires s != [] && StrictlyAscending(s, key, cs)
    ensures StrictlyAscending(s[1..], key, cs)
  {
  }

  /** Strictly ascending lists of the same elements are the same list. */
  lemma {:induction false} AscendingUnique<T(!new)>(a: seq<T>, b: seq<T>, key: T -> string, cs: bool)
    requires StrictlyAscending(a, key, cs) && StrictlyAscending(b, key, cs) && multiset(a) == multiset(b)
    ensures a == b
  {
    hide StrictlyAscending;
    if a == [] {
      assert |multiset(b)| == |b|;
    } else {
      assert a[0] in multiset(b) && b != [];
      HeadsEqual(a, b, key, cs);
      TailMultiset(a);
      TailMultiset(b);
      TailAscending(a, key, cs);
      TailAscending(b, key, cs);
      AscendingUnique(a[1..], b[1..], key, cs);
    }
  }

  lemma HeadsEqual<T(!new)>(a: seq<T>, b: seq<T>, key: T -> string, cs: bool)
    requires StrictlyAscending(a, key, cs) && StrictlyAscending(b, key, cs) && multiset(a) == multiset(b)
    requires a != [] && b != []
    ensures a[0] == b[0]
  {
    AscendingIsOrdered(a, key, cs);
    AscendingIsOrdered(b, key, cs);
    assert a[0] in multiset(b) && b[0] in multiset(a);
    var i :| 0 <= i < |a| && a[i] == b[0];
    var j :| 0 <= j < |b| && b[j] == a[0];
    if i > 0 && j > 0 {
      assert Compare(a[0], a[i], key, cs) < 0 && Compare(b[0], b[j], key, cs) < 0;
      Trichotomy(Norm(key(a[0]), cs), Norm(key(b[0]), cs));
    }
  }

  lemma DistinctPermuted<T>(s: seq<T>, r: seq<T>, i: nat, j: nat, key: T -> string, cs: bool)
    requires DistinctKeys(s, key, cs) && multiset(r) == multiset(s)
    requires i < j < |r|
    ensures Norm(key(r[i]), cs) != Norm(key(r[j]), cs)
  {
    if Norm(key(r[i]), cs) == Norm(key(r[j]), cs) {
      assert r[i] in multiset(r) && r[j] in multiset(r);
      var a :| 0 <= a < |s| && s[a] == r[i];
      var b :| 0 <= b < |s| && s[b] == r[j];
      assert a == b;
      Twice(r, i, j);
      Once(s, a);
    }
  }

  lemma Twice<T>(r: seq<T>, i: nat, j: nat)
    requires i < j < |r| && r[i] == r[j]
    ensures multiset(r)[r[i]] >= 2
  {
    assert r == r[..j] + [r[j]] + r[j + 1..];
    assert r[i] in r[..j];
  }

  lemma Once<T>(s: seq<T>, a: nat)
    requires a < |s|
    requires forall i :: 0 <= i < |s| && i != a ==> s[i] != s[a]
    ensures multiset(s)[s[a]] == 1
  {
    assert s == s[..a] + [s[a]] + s[a + 1..];
    assert s[a] !in s[..a] && s[a] !in s[a + 1..];
  }
}
