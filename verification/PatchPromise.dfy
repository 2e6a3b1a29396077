/** Where the promise of PatchRoundTrip ends: the keys it is kept for, exactly. */
module PatchPromises {
  import opened CString
  import opened ListSort
  import opened Sequences
  import opened JsonTree
  import opened JsonText
  import opened JsonCompare
  import opened JsonPointer
  import opened JsonPatch
  import opened PatchRoundTrip

  // ---- patches of objects that differ in one member ----

  /** A tree needs no patch to become itself. */
  lemma {:induction false} NoPatches(path: string, t: Json, cs: bool)
    ensures Patches(path, t, t, cs) == []
    decreases Height(t), 1, 0
  {
    match t
    case Array(xs) => NoItemPatches(path, xs, 0, cs);
    case Object(ms) =>
      SortKeepsHeight(ms, cs);
      NoMemberPatches(path, SortMembers(ms, cs), cs);
    case _ =>
  }

  lemma {:induction false} NoItemPatches(path: string, xs: seq<Json>, index: nat, cs: bool)
    ensures ItemPatches(path, xs, xs, index, cs) == []
    decreases ItemsHeight(xs), 0, |xs|
  {
    if xs != [] {
      NoPatches(path + "/" + Decimal(index), xs[0], cs);
      NoItemPatches(path, xs[1..], index + 1, cs);
    }
  }

  lemma {:induction false} NoMemberPatches(path: string, ms: seq<Member>, cs: bool)
    ensures MemberPatches(path, ms, ms, cs) == []
    decreases MembersHeight(ms), 0, |ms|
  {
    if ms != [] {
      StrcmpZero(Norm(ms[0].key, cs), Norm(ms[0].key, cs));
      NoPatches(path + "/" + EncodeKey(ms[0].key), ms[0].value, cs);
      NoMemberPatches(path, ms[1..], cs);
    }
  }

  /** A member on one side only is the only thing patched. */
  lemma {:induction false} OneMemberPatches(path: string, ms: seq<Member>, i: nat, m: Member, cs: bool)
    requires i <= |ms| && StrictlyAscending(InsertAt(ms, i, m), MemberKey, cs)
    ensures MemberPatches(path, ms, InsertAt(ms, i, m), cs) == [ComposePatch("add", path, Some(m.key), Some(m.value))]
    ensures MemberPatches(path, InsertAt(ms, i, m), ms, cs) == [ComposePatch("remove", path, Some(m.key), None)]
  {
    hide Compare, Patches, EncodeKey, ComposePatch, StrictlyAscending;
    var more := InsertAt(ms, i, m);
    TailAscending(more, MemberKey, cs);
    if i == 0 {
      assert more == [m] + ms && more[1..] == ms;
      NoMemberPatches(path, ms, cs);
      if ms != [] {
        HeadIsBelow(more, cs);
      }
    } else {
      assert more[0] == ms[0] && more[1..] == InsertAt(ms[1..], i - 1, m);
      OneMemberPatches(path, ms[1..], i - 1, m, cs);
      CompareSelf(ms[0], MemberKey, cs);
      NoPatches(path + "/" + EncodeKey(ms[0].key), ms[0].value, cs);
    }
  }

  lemma HeadIsBelow(ms: seq<Member>, cs: bool)
    requires |ms| > 1 && StrictlyAscending(ms, MemberKey, cs)
    ensures Compare(ms[0], ms[1], MemberKey, cs) < 0 < Compare(ms[1], ms[0], MemberKey, cs)
  {
    assert Compare(ms[0], ms[1], MemberKey, cs) < 0;
    StrcmpSwap(Norm(ms[0].key, cs), Norm(ms[1].key, cs));
  }

  /** Sorting with one member more puts it somewhere and leaves the others in their order. */
  lemma SortedWithOneMore(ms: seq<Member>, more: seq<Member>, m: Member, cs: bool) returns (i: nat)
    requires Distinct(ms, cs) && Distinct(more, cs) && multiset(more) == multiset(ms) + multiset{m}
    ensures i <= |ms| && SortMembers(more, cs) == InsertAt(SortMembers(ms, cs), i, m)
    ensures StrictlyAscending(SortMembers(more, cs), MemberKey, cs)
  {
    hide SortMembers, StrictlyAscending, Distinct, RemoveIndex, InsertAt;
    var s, t := SortMembers(ms, cs), SortMembers(more, cs);
    SortMembersKeeps(ms, cs);
    SortMembersKeeps(more, cs);
    SortedPermutes(ms, cs);
    SortedPermutes(more, cs);
    assert m in multiset(t);
    i :| 0 <= i < |t| && t[i] == m;
    RemoveThenInsert(t, i);
    WithoutOne(t, i, cs);
    AscendingUnique(RemoveIndex(t, i), s, MemberKey, cs);
  }

  lemma SortedPermutes(ms: seq<Member>, cs: bool)
    ensures multiset(SortMembers(ms, cs)) == multiset(ms)
  {
    SortCorrect(ms, MemberKey, cs);
  }

  lemma RemoveThenInsert<T>(t: seq<T>, i: nat)
    requires i < |t|
    ensures |RemoveIndex(t, i)| == |t| - 1 && InsertAt(RemoveIndex(t, i), i, t[i]) == t
    ensures multiset(RemoveIndex(t, i)) == multiset(t) - multiset{t[i]}
  {
    assert t == t[..i] + [t[i]] + t[i + 1..];
  }

  lemma WithoutOne(t: seq<Member>, i: nat, cs: bool)
    requires i < |t| && StrictlyAscending(t, MemberKey, cs)
    ensures StrictlyAscending(RemoveIndex(t, i), MemberKey, cs)
  {
    AscendingIsOrdered(t, MemberKey, cs);
    var r := RemoveIndex(t, i);
    forall j | 0 <= j < |r| - 1
      ensures Compare(r[j], r[j + 1], MemberKey, cs) < 0
    {
      var a, b := if j < i then j else j + 1, if j + 1 < i then j + 1 else j + 2;
      assert r[j] == t[a] && r[j + 1] == t[b];
    }
  }

  lemma AddPatches(ms: seq<Member>, m: Member, cs: bool)
    requires Distinct(ms, cs) && Distinct(ms + [m], cs)
    ensures Patches("", Object(ms), Object(ms + [m]), cs) == [ComposePatch("add", "", Some(m.key), Some(m.value))]
  {
    var i := SortedWithOneMore(ms, ms + [m], m, cs);
    OneMemberPatches("", SortMembers(ms, cs), i, m, cs);
  }

  lemma RemovePatches(ms: seq<Member>, j: nat, cs: bool)
    requires Distinct(ms, cs) && j < |ms|
    ensures Distinct(RemoveIndex(ms, j), cs)
    ensures Patches("", Object(ms), Object(RemoveIndex(ms, j)), cs)
            == [ComposePatch("remove", "", Some(ms[j].key), None)]
  {
    hide SortMembers, StrictlyAscending, Distinct, RemoveIndex, InsertAt, MemberPatches, ComposePatch;
    var r := RemoveIndex(ms, j);
    RemovedDistinct(ms, j, cs);
    RemoveThenInsert(ms, j);
    var i := SortedWithOneMore(r, ms, ms[j], cs);
    OneMemberPatches("", SortMembers(r, cs), i, ms[j], cs);
  }

  lemma RemovedDistinct(ms: seq<Member>, j: nat, cs: bool)
    requires Distinct(ms, cs) && j < |ms|
    ensures Distinct(RemoveIndex(ms, j), cs)
  {
    var r := RemoveIndex(ms, j);
    forall a, b | 0 <= a < b < |r|
      ensures Norm(MemberKey(r[a]), cs) != Norm(MemberKey(r[b]), cs)
    {
      var c, d := if a < j then a else a + 1, if b < j then b else b + 1;
      assert r[a] == ms[c] && r[b] == ms[d];
    }
  }

  // ---- one member added, one removed ----

  lemma AppendedDistinct(ms: seq<Member>, m: Member, cs: bool)
    requires Distinct(ms, cs) && FirstMatch(ms, m.key, cs) == |ms|
    ensures Distinct(ms + [m], cs)
  {
    var r := ms + [m];
    assert forall a :: 0 <= a < |ms| ==> Norm(MemberKey(ms[a]), cs) != Norm(MemberKey(m), cs);
  }

  /** Adding one member to any object without it, in either mode: the round trip gives the second
      object exactly for Decodable keys. */
  lemma AddOneExact(ms: seq<Member>, key: string, value: Json, cs: bool)
    requires Distinct(ms, cs) && FirstMatch(ms, key, cs) == |ms|
    requires NulFree(key) && Height(value) <= CIRCULAR_LIMIT
    ensures var to := Object(ms + [Member(key, value)]);
            var r := ApplyPatches(Object(ms), Array(Patches("", Object(ms), to, cs)), cs);
            && r.status == 0
            && (Meaning(r.tree, cs) == Meaning(to, cs) <==> Decodable(key))
  {
    hide Patches, ApplyPatch, ComposePatch, DecodeToken, EncodeKey, Decodable, MembersMeaning, Fold;
    var m, name := Member(key, value), DecodeToken(EncodeKey(key));
    AppendedDistinct(ms, m, cs);
    AddPatches(ms, m, cs);
    AddAtRoot(ms, key, value, cs);
    ApplySingle(Object(ms), Patches("", Object(ms), Object(ms + [m]), cs), cs);
    DecodeExact(key);
    DecodeFoldedExact(key);
    if Norm(name, cs) != Norm(key, cs) {
      SetElsewhere(ms, name, value, key, cs);
      MeaningAt(ms + [m], cs, |ms|);
    }
  }

  lemma AddAtRoot(ms: seq<Member>, key: string, value: Json, cs: bool)
    requires Height(value) <= CIRCULAR_LIMIT
    ensures ApplyPatch(Object(ms), ComposePatch("add", "", Some(key), Some(value)), cs)
            == Outcome(0, Object(SetMember(ms, DecodeToken(EncodeKey(key)), value, cs)))
  {
    hide ApplyPatch, ComposePatch, DecodeToken, EncodeKey, SetMember;
    ApplyAdd(Object(ms), "", key, [], value, cs);
  }

  lemma RemoveAtRoot(ms: seq<Member>, key: string, cs: bool)
    requires NulFree(key) && Decodable(key) && FirstMatch(ms, key, false) < |ms|
    ensures ApplyPatch(Object(ms), ComposePatch("remove", "", Some(key), None), cs)
            == Outcome(0, Object(RemoveIndex(ms, FirstMatch(ms, key, false))))
  {
    hide ApplyPatch, ComposePatch, DecodeToken, EncodeKey, RemoveIndex;
    DecodeExact(key);
    ApplyRemove(Object(ms), "", key, [], cs);
  }

  /** Setting one member does not bring another key. */
  lemma SetElsewhere(ms: seq<Member>, name: string, value: Json, key: string, cs: bool)
    requires FirstMatch(ms, key, cs) == |ms| && Norm(name, cs) != Norm(key, cs)
    ensures Norm(key, cs) !in MembersMeaning(SetMember(ms, name, value, cs), cs)
  {
    hide Norm, FirstMatch, MembersMeaning, SetMember;
    var r := SetMember(ms, name, value, cs);
    MeaningKeys(r, cs, Norm(key, cs));
    forall i | 0 <= i < |r|
      ensures Norm(r[i].key, cs) != Norm(key, cs)
    {
      SetMembers(ms, name, value, i, cs);
    }
  }

  /** The members after setting one are others from before, and that one. */
  lemma SetMembers(ms: seq<Member>, name: string, value: Json, i: nat, cs: bool)
    requires i < |SetMember(ms, name, value, cs)|
    ensures SetMember(ms, name, value, cs)[i] == Member(name, value) || SetMember(ms, name, value, cs)[i] in ms
  {
    hide FirstMatch;
    var r := SetMember(ms, name, value, cs);
    if i < |r| - 1 {
      var k := FirstMatch(ms, name, cs);
      assert r[i] == ms[if i < k then i else i + 1];
    }
  }

  /** Removing a member case-sensitively: it is the right member that goes exactly when no earlier
      key equals it up to case. */
  lemma RemoveOneExact(ms: seq<Member>, key: string)
    requires NulFree(key) && Decodable(key) && Distinct(ms, true) && FirstMatch(ms, key, true) < |ms|
    ensures var to := Object(RemoveIndex(ms, FirstMatch(ms, key, true)));
            var r := ApplyPatches(Object(ms), Array(Patches("", Object(ms), to, true)), true);
            && r.status == 0
            && Meaning(to, true) == VObject(MembersMeaning(ms, true) - {key})
            && (Meaning(r.tree, true) == Meaning(to, true) <==> FirstMatch(ms, key, false) == FirstMatch(ms, key, true))
  {
    hide Patches, ApplyPatch, ComposePatch, Decodable, MembersMeaning, RemoveIndex;
    var i, j := FirstMatch(ms, key, false), FirstMatch(ms, key, true);
    assert i <= j;
    RemoveAtRoot(ms, key, true);
    RemovePatches(ms, j, true);
    ApplySingle(Object(ms), Patches("", Object(ms), Object(RemoveIndex(ms, j)), true), true);
    MeaningRemove(ms, i, true);
    MeaningRemove(ms, j, true);
    MeaningAt(ms, true, i);
    MeaningAt(ms, true, j);
    if i != j {
      assert key in MembersMeaning(ms, true) - {ms[i].key};
    }
  }

  /** So with "A" before "a" the wrong one is removed. */
  lemma RemovesTheWrongCase()
    ensures var ms := [Member("A", Number(1)), Member("a", Number(2))];
            var r := ApplyPatches(Object(ms), Array(Patches("", Object(ms), Object([ms[0]]), true)), true);
            r.status == 0 && Meaning(r.tree, true) != Meaning(Object([ms[0]]), true)
  {
    var ms := [Member("A", Number(1)), Member("a", Number(2))];
    assert MemberKey(ms[0]) == "A" && MemberKey(ms[1]) == "a" && "A"[0] != "a"[0];
    assert FirstMatch(ms, "a", true) == 1;
    assert Fold("A") == "a" == Fold("a");
    assert FirstMatch(ms, "a", false) == 0;
    TrailingTildes("a", 1);
    assert RemoveIndex(ms, 1) == [ms[0]];
    RemoveOneExact(ms, "a");
  }

  // ---- the keys the promise is kept for ----

  /** The generated patches turn the first tree into the second. */
  predicate Restores(from: Json, to: Json, cs: bool) {
    var r := ApplyPatches(from, Array(Patches("", from, to, cs)), cs);
    r.status == 0 && Meaning(r.tree, cs) == Meaning(to, cs)
  }

  ghost predicate PatchPromise(p: string -> bool, cs: bool) {
    forall from, to :: Good(from, p, cs) && Good(to, p, cs) && Height(to) <= CIRCULAR_LIMIT ==> Restores(from, to, cs)
  }

  /** Of the keys without NUL, the promise is kept exactly for those that survive unescaping in place
      and, in the case-sensitive functions, differ in more than case. */
  lemma PatchPromiseExact(p: string -> bool, cs: bool)
    requires forall k :: p(k) ==> NulFree(k)
    ensures PatchPromise(p, cs) <==> KeyClass(p, cs)
  {
    if KeyClass(p, cs) {
      forall from, to | Good(from, p, cs) && Good(to, p, cs) && Height(to) <= CIRCULAR_LIMIT
        ensures Restores(from, to, cs)
      {
        PatchesRoundTrip(from, from, to, p, cs);
      }
    } else {
      var from, to := Unrestored(p, cs);
      assert !Restores(from, to, cs);
    }
  }

  lemma Unrestored(p: string -> bool, cs: bool) returns (from: Json, to: Json)
    requires (forall k :: p(k) ==> NulFree(k)) && !KeyClass(p, cs)
    ensures Good(from, p, cs) && Good(to, p, cs) && Height(to) <= CIRCULAR_LIMIT
    ensures !Restores(from, to, cs)
  {
    hide Restores, Decodable, Good, Height;
    if k :| p(k) && !Decodable(k) {
      from, to := AddedIsLost(k, p, cs);
    } else {
      var a, b :| p(a) && p(b) && Fold(a) == Fold(b) && a != b;
      from, to := WrongOneIsLost(a, b, p);
    }
  }

  lemma AddedIsLost(k: string, p: string -> bool, cs: bool) returns (from: Json, to: Json)
    requires p(k) && NulFree(k) && !Decodable(k)
    ensures Good(from, p, cs) && Good(to, p, cs) && Height(to) <= CIRCULAR_LIMIT
    ensures !Restores(from, to, cs)
  {
    hide Patches, ApplyPatches, Decodable;
    from, to := Object([]), Object([Member(k, Null)]);
    AddOneExact([], k, Null, cs);
    assert [] + [Member(k, Null)] == [Member(k, Null)];
    NullsAreGood([], p, cs);
    NullsAreGood([Member(k, Null)], p, cs);
    OneMember(k);
  }

  lemma WrongOneIsLost(a: string, b: string, p: string -> bool) returns (from: Json, to: Json)
    requires p(a) && p(b) && NulFree(b) && Decodable(b) && Fold(a) == Fold(b) && a != b
    ensures Good(from, p, true) && Good(to, p, true) && Height(to) <= CIRCULAR_LIMIT
    ensures !Restores(from, to, true)
  {
    hide Patches, ApplyPatches, Decodable;
    var ms := [Member(a, Null), Member(b, Null)];
    from, to := Object(ms), Object([ms[0]]);
    assert MemberKey(ms[0]) == a && MemberKey(ms[1]) == b;
    assert FirstMatch(ms, b, true) == 1 && FirstMatch(ms, b, false) == 0;
    assert RemoveIndex(ms, 1) == [ms[0]];
    RemoveOneExact(ms, b);
    NullsAreGood(ms, p, true);
    NullsAreGood([ms[0]], p, true);
    OneMember(a);
  }

  lemma NullsAreGood(ms: seq<Member>, p: string -> bool, cs: bool)
    requires |ms| < 2 || (|ms| == 2 && Norm(ms[0].key, cs) != Norm(ms[1].key, cs))
    requires forall i :: 0 <= i < |ms| ==> ms[i].value == Null && p(ms[i].key)
    ensures Good(Object(ms), p, cs)
  {
    hide Norm;
    assert Distinct(ms, cs) && AllMemberKeys(ms, p) && WellFormedMembers(ms, cs);
  }

  lemma OneMember(k: string)
    ensures Height(Object([Member(k, Null)])) == 1
  {
    var ms := [Member(k, Null)];
    assert ms[1..] == [] && MembersHeight(ms) == 1;
  }

  predicate PlainKey(k: string) {
    NulFree(k) && '/' !in k && '~' !in k && Fold(k) == k
  }

  /** Keys without NUL, '/', '~' and upper-case letters are a class, in either mode. */
  lemma PlainKeysQualify(cs: bool)
    ensures KeyClass(PlainKey, cs)
  {
    forall k | PlainKey(k)
      ensures Decodable(k)
    {
      assert k[..|k|] == k;
      TrailingTildes(k, |k|);
    }
  }
}
