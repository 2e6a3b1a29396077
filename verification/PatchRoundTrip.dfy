/** Section 4 of RFC 6902: applying the generated patches to the first tree gives the second. */
module PatchRoundTrip {
  import opened CString
  import opened ListSort
  import opened Sequences
  import opened JsonTree
  import opened JsonText
  import opened JsonCompare
  import opened JsonPointer
  import opened JsonPatch

  // ---- replacing the node at a location ----

  /** The put node is what is found there, and the last put wins. */
  lemma {:induction false} PutAtLaws(t: Json, loc: Location, v: Json, w: Json)
    requires Exists(t, loc)
    ensures Exists(PutAt(t, loc, v), loc) && At(PutAt(t, loc, v), loc) == v
    ensures PutAt(PutAt(t, loc, v), loc, w) == PutAt(t, loc, w)
  {
    if loc != [] {
      var i, u := loc[0], PutAt(t, loc, v);
      PutAtLaws(Children(t)[i], loc[1..], v, w);
      assert Children(u)[i] == PutAt(Children(t)[i], loc[1..], v);
      if t.Array? {
        assert u.items[i := PutAt(Children(u)[i], loc[1..], w)] == t.items[i := PutAt(Children(u)[i], loc[1..], w)];
      }
    }
  }

  lemma {:induction false} PutAtSame(t: Json, loc: Location)
    requires Exists(t, loc)
    ensures PutAt(t, loc, At(t, loc)) == t
  {
    if loc != [] {
      PutAtSame(Children(t)[loc[0]], loc[1..]);
    }
  }

  lemma {:induction false} AtAppend(t: Json, loc: Location, i: nat, v: Json)
    requires Exists(t, loc) && i < |Children(At(t, loc))|
    ensures Exists(t, loc + [i]) && At(t, loc + [i]) == Children(At(t, loc))[i]
    ensures PutAt(t, loc + [i], v) == PutAt(t, loc, PutAt(At(t, loc), [i], v))
  {
    if loc == [] {
      assert [] + [i] == [i];
    } else {
      assert (loc + [i])[1..] == loc[1..] + [i];
      AtAppend(Children(t)[loc[0]], loc[1..], i, v);
    }
  }

  // ---- pointers into an edited tree ----

  /** A path that leads to the node at this location. */
  predicate Names(t: Json, pointer: string, loc: Location, cs: bool) {
    TokenEnds(pointer) && Follow(t, pointer, cs) == Some(loc)
  }

  lemma {:induction false} FirstNamedIgnores(ms: seq<Member>, ns: seq<Member>, pointer: string, rest: string, cs: bool)
    requires |ms| == |ns| && forall i :: 0 <= i < |ms| ==> ms[i].key == ns[i].key
    requires TokenEnds(rest)
    ensures FirstNamed(ms, pointer + rest, cs) == FirstNamed(ns, pointer, cs)
  {
    var i, j := FirstNamed(ms, pointer + rest, cs), FirstNamed(ns, pointer, cs);
    if i < |ms| {
      CompareIgnoresRest(ms[i].key, pointer, rest, cs);
    }
    if j < |ms| {
      CompareIgnoresRest(ms[j].key, pointer, rest, cs);
    }
  }

  lemma ChildIgnoresRest(t: Json, pointer: string, rest: string, cs: bool)
    requires TokenEnds(rest)
    ensures Child(t, pointer + rest, cs) == Child(t, pointer, cs)
  {
    DecodeIgnoresRest(pointer, rest);
    if t.Object? {
      FirstNamedIgnores(t.members, t.members, pointer, rest, cs);
    }
  }

  lemma {:induction false} SkipAppend(pointer: string, rest: string)
    requires TokenEnds(rest)
    ensures SkipToken(pointer + rest) == SkipToken(pointer) + rest
  {
    if pointer == "" {
      assert pointer + rest == rest;
    } else if pointer[0] != '/' {
      assert (pointer + rest)[1..] == pointer[1..] + rest;
      SkipAppend(pointer[1..], rest);
    }
  }

  lemma {:induction false} SkipWhole(token: string)
    requires '/' !in token
    ensures SkipToken(token) == ""
  {
    assert token + "" == token;
    SkipEncoded(token, "");
  }

  /** One more token leads from the named node to its child. */
  lemma {:induction false} FollowAppend(t: Json, pointer: string, loc: Location, token: string, i: nat, cs: bool)
    requires Names(t, pointer, loc, cs) && '/' !in token
    requires Child(At(t, loc), token, cs) == Some(i)
    ensures Names(t, pointer + "/" + token, loc + [i], cs)
    decreases |pointer|
  {
    var p := pointer + "/" + token;
    if pointer == "" {
      assert p == "/" + token && p[1..] == token;
      SkipWhole(token);
      assert loc == [] && [i] + [] == [] + [i];
    } else {
      var q := pointer[1..];
      assert p[1..] == q + ("/" + token);
      ChildIgnoresRest(t, q, "/" + token, cs);
      SkipAppend(q, "/" + token);
      var j := loc[0];
      assert Child(t, q, cs) == Some(j);
      FollowStep(t, pointer, j, loc[1..], cs);
      assert [j] + loc[1..] == loc;
      assert SkipToken(q) + ("/" + token) == SkipToken(q) + "/" + token;
      FollowAppend(Children(t)[j], SkipToken(q), loc[1..], token, i, cs);
      FollowStep(t, p, j, loc[1..] + [i], cs);
      assert [j] + (loc[1..] + [i]) == loc + [i];
    }
  }

  /** Editing below a node does not change where its path leads. */
  lemma {:induction false} FollowStable(t: Json, pointer: string, loc: Location, v: Json, cs: bool)
    requires Names(t, pointer, loc, cs)
    ensures Names(PutAt(t, loc, v), pointer, loc, cs)
    decreases |pointer|
  {
    if pointer != "" {
      hide SkipToken, Child;
      var j, q := loc[0], pointer[1..];
      var u := PutAt(t, loc, v);
      FollowStep(t, pointer, j, loc[1..], cs);
      assert [j] + loc[1..] == loc;
      ChildStable(t, q, loc, v, cs);
      FollowStable(Children(t)[j], SkipToken(q), loc[1..], v, cs);
      FollowStep(u, pointer, j, loc[1..], cs);
    }
  }

  lemma ChildStable(t: Json, pointer: string, loc: Location, v: Json, cs: bool)
    requires Exists(t, loc) && loc != []
    ensures var u := PutAt(t, loc, v);
            && Child(u, pointer, cs) == Child(t, pointer, cs)
            && loc[0] < |Children(u)| && Children(u)[loc[0]] == PutAt(Children(t)[loc[0]], loc[1..], v)
  {
    hide DecodeIndex;
    var u := PutAt(t, loc, v);
    if t.Object? {
      assert pointer + "" == pointer;
      FirstNamedIgnores(u.members, t.members, pointer, "", cs);
    }
  }

  // ---- applying one composed patch ----

  /** The fields of a composed patch are found under their names. */
  lemma ComposedFields(operation: string, path: string, suffix: Option<string>, value: Option<Json>, cs: bool)
    requires value.Some? ==> Height(value.value) <= CIRCULAR_LIMIT
    ensures var patch := ComposePatch(operation, path, suffix, value);
            && GetObjectItem(patch, "op", cs) == Some(String(operation))
            && GetObjectItem(patch, "path", cs) == Some(String(FullPath(path, suffix)))
            && (value.Some? ==> GetObjectItem(patch, "value", cs) == value && Duplicate(value.value) == value)
  {
    assert |Norm("op", cs)| == 2 && |Norm("path", cs)| == 4 && |Norm("value", cs)| == 5;
    if value.Some? {
      DuplicateExact(value.value);
    }
    var ms := ComposePatch(operation, path, suffix, value).members;
    assert ms[0].key == "op" && ms[1].key == "path";
    assert FirstMatch(ms, "op", cs) == 0;
    assert FirstMatch(ms, "path", cs) == 1;
    if value.Some? {
      assert ms[2].key == "value";
      assert FirstMatch(ms, "value", cs) == 2;
    }
  }

  lemma {:induction false} LastSlashOf(path: string, token: string)
    requires '/' !in token
    ensures LastSlash(path + "/" + token) == Some(|path|)
    ensures (path + "/" + token)[..|path|] == path && (path + "/" + token)[|path| + 1..] == token
  {
    var p := path + "/" + token;
    if token != "" {
      var n := |token| - 1;
      assert token == token[..n] + [token[n]];
      assert token[n] in token;
      assert p[..|p| - 1] == path + "/" + token[..n];
      LastSlashOf(path, token[..n]);
    }
  }

  lemma OperationNames(cs: bool)
    ensures forall p: Json {:trigger DecodePatchOperation(p, cs)} ::
              && (GetObjectItem(p, "op", cs) == Some(String("add")) ==> DecodePatchOperation(p, cs) == Add)
              && (GetObjectItem(p, "op", cs) == Some(String("remove")) ==> DecodePatchOperation(p, cs) == Remove)
              && (GetObjectItem(p, "op", cs) == Some(String("replace")) ==> DecodePatchOperation(p, cs) == Replace)
  {
    assert |"add"| == 3 && |"remove"| == 6 && |"replace"| == 7;
  }

  lemma Unfolded(root: Json, path: string, patch: Json, cs: bool)
    requires GetObjectItem(patch, "path", cs) == Some(String(path)) && path != ""
    ensures DecodePatchOperation(patch, cs) == Add ==> ApplyPatch(root, patch, cs) == AddValue(root, path, patch, cs)
    ensures DecodePatchOperation(patch, cs) == Remove ==>
              ApplyPatch(root, patch, cs) == match DetachPath(root, path, cs)
                                             case NotFound => Outcome(13, root)
                                             case Found(rest, _) => Outcome(0, rest)
    ensures DecodePatchOperation(patch, cs) == Replace && DetachPath(root, path, cs).Found? ==>
              ApplyPatch(root, patch, cs) == AddValue(DetachPath(root, path, cs).rest, path, patch, cs)
  {
  }

  lemma ApplyRemove(root: Json, path: string, key: string, loc: Location, cs: bool)
    requires Names(root, path, loc, cs)
    ensures ApplyPatch(root, ComposePatch("remove", path, Some(key), None), cs) ==
            match DetachChild(root, loc, DecodeToken(EncodeKey(key)))
            case NotFound => Outcome(13, root)
            case Found(rest, _) => Outcome(0, rest)
  {
    var p := path + "/" + EncodeKey(key);
    var patch := ComposePatch("remove", path, Some(key), None);
    ComposedFields("remove", path, Some(key), None, cs);
    EncodeHasNoSlash(key);
    LastSlashOf(path, EncodeKey(key));
    assert DetachPath(root, p, cs) == DetachChild(root, loc, DecodeToken(EncodeKey(key)));
    assert DecodePatchOperation(patch, cs) == Remove by {
      OperationNames(cs);
    }
    Unfolded(root, p, patch, cs);
  }

  lemma ApplyAdd(root: Json, path: string, key: string, loc: Location, value: Json, cs: bool)
    requires Names(root, path, loc, cs) && Height(value) <= CIRCULAR_LIMIT
    ensures ApplyPatch(root, ComposePatch("add", path, Some(key), Some(value)), cs) ==
            AddChild(root, loc, DecodeToken(EncodeKey(key)), value, cs)
  {
    var p := path + "/" + EncodeKey(key);
    var patch := ComposePatch("add", path, Some(key), Some(value));
    ComposedFields("add", path, Some(key), Some(value), cs);
    EncodeHasNoSlash(key);
    LastSlashOf(path, EncodeKey(key));
    assert AddPath(root, p, value, cs) == AddChild(root, loc, DecodeToken(EncodeKey(key)), value, cs);
    assert DecodePatchOperation(patch, cs) == Add by {
      OperationNames(cs);
    }
    Unfolded(root, p, patch, cs);
  }

  lemma ApplyReplace(root: Json, path: string, token: string, loc: Location, value: Json, cs: bool)
    requires Names(root, path, loc, cs) && '/' !in token && Height(value) <= CIRCULAR_LIMIT
    requires DetachChild(root, loc, DecodeToken(token)).Found?
    requires Names(DetachChild(root, loc, DecodeToken(token)).rest, path, loc, cs)
    ensures ApplyPatch(root, ComposePatch("replace", path + "/" + token, None, Some(value)), cs) ==
            AddChild(DetachChild(root, loc, DecodeToken(token)).rest, loc, DecodeToken(token), value, cs)
  {
    var p := path + "/" + token;
    var patch := ComposePatch("replace", p, None, Some(value));
    ComposedFields("replace", p, None, Some(value), cs);
    LastSlashOf(path, token);
    var d := DetachChild(root, loc, DecodeToken(token));
    assert DetachPath(root, p, cs) == d;
    assert AddValue(d.rest, p, patch, cs) == AddPath(d.rest, p, value, cs);
    assert DecodePatchOperation(patch, cs) == Replace by {
      OperationNames(cs);
    }
    Unfolded(root, p, patch, cs);
  }

  lemma ApplyReplaceRoot(root: Json, value: Json, cs: bool)
    requires Height(value) <= CIRCULAR_LIMIT
    ensures ApplyPatch(root, ComposePatch("replace", "", None, Some(value)), cs) == Outcome(0, value)
  {
    hide ComposePatch, DecodePatchOperation, Duplicate, DetachPath, AddPath, Follow;
    ComposedFields("replace", "", None, Some(value), cs);
    OperationNames(cs);
  }

  lemma {:induction false} ApplyAppend(root: Json, p: seq<Json>, q: seq<Json>, cs: bool)
    requires ApplyAll(root, p, cs).status == 0
    ensures ApplyAll(root, p + q, cs) == ApplyAll(ApplyAll(root, p, cs).tree, q, cs)
    decreases |p|
  {
    hide ApplyPatch;
    if p == [] {
      assert p + q == q;
    } else {
      assert (p + q)[1..] == p[1..] + q;
      ApplyAppend(ApplyPatch(root, p[0], cs).tree, p[1..], q, cs);
    }
  }

  lemma ApplyOne(root: Json, patch: Json, rest: seq<Json>, cs: bool)
    requires ApplyPatch(root, patch, cs).status == 0
    ensures ApplyAll(root, [patch] + rest, cs) == ApplyAll(ApplyPatch(root, patch, cs).tree, rest, cs)
  {
    assert ([patch] + rest)[1..] == rest;
  }

  // ---- what one edit does to an object ----

  /** The keys the promise is made for: unescaping returns them, and a lookup that ignores case
      tells them apart whenever the patch does. */
  ghost predicate KeyClass(p: string -> bool, cs: bool) {
    && (forall k :: p(k) ==> NulFree(k) && Decodable(k))
    && (cs ==> FoldInjective(p))
  }

  lemma {:induction false} MeaningRemove(ms: seq<Member>, i: nat, cs: bool)
    requires Distinct(ms, cs) && i < |ms|
    ensures MembersMeaning(RemoveIndex(ms, i), cs) == MembersMeaning(ms, cs) - {Norm(ms[i].key, cs)}
  {
    hide Meaning, Norm;
    HeadIsFresh(ms, cs);
    var rest, k := MembersMeaning(ms[1..], cs), Norm(ms[0].key, cs);
    if i == 0 {
      assert RemoveIndex(ms, i) == ms[1..];
      assert rest[k := Meaning(ms[0].value, cs)] - {k} == rest;
    } else {
      var r := RemoveIndex(ms, i);
      assert r[0] == ms[0] && r[1..] == RemoveIndex(ms[1..], i - 1);
      MeaningRemove(ms[1..], i - 1, cs);
      assert Norm(MemberKey(ms[0]), cs) != Norm(MemberKey(ms[i]), cs);
      assert (rest - {Norm(ms[i].key, cs)})[k := Meaning(ms[0].value, cs)]
          == rest[k := Meaning(ms[0].value, cs)] - {Norm(ms[i].key, cs)};
    }
  }

  lemma {:induction false} MeaningAppend(ms: seq<Member>, m: Member, cs: bool)
    requires Norm(m.key, cs) !in MembersMeaning(ms, cs)
    ensures MembersMeaning(ms + [m], cs) == MembersMeaning(ms, cs)[Norm(m.key, cs) := Meaning(m.value, cs)]
  {
    hide Meaning, Norm;
    if ms == [] {
      assert [m][1..] == [] && [] + [m] == [m];
    } else {
      assert (ms + [m])[0] == ms[0] && (ms + [m])[1..] == ms[1..] + [m];
      MeaningAppend(ms[1..], m, cs);
      var rest := MembersMeaning(ms[1..], cs);
      assert rest[Norm(m.key, cs) := Meaning(m.value, cs)][Norm(ms[0].key, cs) := Meaning(ms[0].value, cs)]
          == rest[Norm(ms[0].key, cs) := Meaning(ms[0].value, cs)][Norm(m.key, cs) := Meaning(m.value, cs)];
    }
  }

  lemma {:induction false} MeaningUpdate(ms: seq<Member>, i: nat, v: Json, cs: bool)
    requires Distinct(ms, cs) && i < |ms|
    ensures MembersMeaning(ms[i := Member(ms[i].key, v)], cs) ==
            MembersMeaning(ms, cs)[Norm(ms[i].key, cs) := Meaning(v, cs)]
  {
    hide Meaning, Norm;
    HeadIsFresh(ms, cs);
    var r := ms[i := Member(ms[i].key, v)];
    var rest, k := MembersMeaning(ms[1..], cs), Norm(ms[0].key, cs);
    if i == 0 {
      assert r[1..] == ms[1..];
    } else {
      assert r[0] == ms[0] && r[1..] == ms[1..][i - 1 := Member(ms[1..][i - 1].key, v)];
      MeaningUpdate(ms[1..], i - 1, v, cs);
      assert Norm(MemberKey(ms[0]), cs) != Norm(MemberKey(ms[i]), cs);
      assert rest[Norm(ms[i].key, cs) := Meaning(v, cs)][k := Meaning(ms[0].value, cs)]
          == rest[k := Meaning(ms[0].value, cs)][Norm(ms[i].key, cs) := Meaning(v, cs)];
    }
  }

  lemma RemoveLaw(ms: seq<Member>, i: nat, p: string -> bool, cs: bool)
    requires GoodMembers(ms, p, cs) && i < |ms|
    ensures GoodMembers(RemoveIndex(ms, i), p, cs)
  {
    var r := RemoveIndex(ms, i);
    assert forall j :: 0 <= j < |r| ==> r[j] == if j < i then ms[j] else ms[j + 1];
  }

  lemma AppendLaw(ms: seq<Member>, m: Member, p: string -> bool, cs: bool)
    requires GoodMembers(ms, p, cs) && Good(m.value, p, cs) && p(m.key)
    requires Norm(m.key, cs) !in MembersMeaning(ms, cs)
    ensures GoodMembers(ms + [m], p, cs)
  {
    forall i | 0 <= i < |ms|
      ensures Norm(MemberKey(ms[i]), cs) != Norm(m.key, cs)
    {
      MeaningKeys(ms, cs, Norm(m.key, cs));
    }
    assert Distinct(ms + [m], cs);
  }

  lemma UpdateLaw(ms: seq<Member>, i: nat, v: Json, p: string -> bool, cs: bool)
    requires GoodMembers(ms, p, cs) && i < |ms| && Good(v, p, cs)
    ensures GoodMembers(ms[i := Member(ms[i].key, v)], p, cs)
  {
    var r := ms[i := Member(ms[i].key, v)];
    assert forall j :: 0 <= j < |r| ==> MemberKey(r[j]) == MemberKey(ms[j]);
  }

  /** Remove the member of that name and append a new one: the map is updated at the name. */
  lemma SetLaw(ms: seq<Member>, key: string, v: Json, p: string -> bool, cs: bool)
    requires GoodMembers(ms, p, cs) && Good(v, p, cs) && p(key)
    ensures GoodMembers(SetMember(ms, key, v, cs), p, cs)
    ensures MembersMeaning(SetMember(ms, key, v, cs), cs) ==
            MembersMeaning(ms, cs)[Norm(key, cs) := Meaning(v, cs)]
  {
    hide MembersMeaning, Norm;
    var i := FirstMatch(ms, key, cs);
    MeaningLookup(ms, cs, key);
    var rs := if i < |ms| then RemoveIndex(ms, i) else ms;
    if i < |ms| {
      RemoveLaw(ms, i, p, cs);
      MeaningRemove(ms, i, cs);
    }
    AppendLaw(rs, Member(key, v), p, cs);
    MeaningAppend(rs, Member(key, v), cs);
    SetAgain(MembersMeaning(ms, cs), Norm(key, cs), Meaning(v, cs));
  }

  lemma SetAgain(m: map<string, Value>, k: string, v: Value)
    ensures (m - {k})[k := v] == m[k := v]
  {
  }

  /** For keys of the class, the lookup that ignores case finds the same member. */
  lemma FoldedMatch(ms: seq<Member>, key: string, p: string -> bool, cs: bool)
    requires KeyClass(p, cs) && AllMemberKeys(ms, p) && p(key)
    ensures FirstMatch(ms, key, false) == FirstMatch(ms, key, cs)
  {
    if cs {
      SameMatch(ms, key, p);
    }
  }

  // ---- the patches of one member ----

  predicate SameContainer(from: Json, to: Json) {
    (from.Array? && to.Array?) || (from.Object? && to.Object?)
  }

  lemma ScalarPatches(path: string, from: Json, to: Json, p: string -> bool, cs: bool)
    requires Good(from, p, cs) && Good(to, p, cs) && !SameContainer(from, to)
    ensures
      || Patches(path, from, to, cs) == [ComposePatch("replace", path, None, Some(to))]
      || (Patches(path, from, to, cs) == [] && Meaning(from, cs) == Meaning(to, cs))
  {
    if from.Number? && to.Number? {
      CompareDoubleOnInts(from.valueint, to.valueint);
    }
  }

  /** Replacing a member removes it and appends the new one. */
  lemma ReplaceMember(root: Json, path: string, loc: Location, ms: seq<Member>, key: string, v: Json, cs: bool)
    requires Names(root, path, loc, cs) && At(root, loc) == Object(ms) && Height(v) <= CIRCULAR_LIMIT
    requires NulFree(key) && Decodable(key) && FirstMatch(ms, key, false) == FirstMatch(ms, key, cs) < |ms|
    requires Distinct(ms, cs)
    ensures ApplyPatch(root, ComposePatch("replace", path + "/" + EncodeKey(key), None, Some(v)), cs)
            == Outcome(0, PutAt(root, loc, Object(SetMember(ms, key, v, cs))))
  {
    var rs := RemoveIndex(ms, FirstMatch(ms, key, cs));
    DecodeExact(key);
    EncodeHasNoSlash(key);
    var d := DetachChild(root, loc, key);
    assert d.Found? && d.rest == PutAt(root, loc, Object(rs));
    FollowStable(root, path, loc, Object(rs), cs);
    ApplyReplace(root, path, EncodeKey(key), loc, v, cs);
    MeaningRemove(ms, FirstMatch(ms, key, cs), cs);
    MeaningLookup(rs, cs, key);
    assert SetMember(rs, key, v, cs) == rs + [Member(key, v)] == SetMember(ms, key, v, cs);
    AddAfterDetach(root, loc, rs, key, v, cs);
  }

  lemma AddAfterDetach(root: Json, loc: Location, rs: seq<Member>, key: string, v: Json, cs: bool)
    requires Exists(root, loc)
    ensures Exists(PutAt(root, loc, Object(rs)), loc)
    ensures AddChild(PutAt(root, loc, Object(rs)), loc, key, v, cs)
            == Outcome(0, PutAt(root, loc, Object(SetMember(rs, key, v, cs))))
  {
    PutAtLaws(root, loc, Object(rs), Object(SetMember(rs, key, v, cs)));
  }

  lemma RemoveMember(root: Json, path: string, loc: Location, ms: seq<Member>, key: string, cs: bool)
    requires Names(root, path, loc, cs) && At(root, loc) == Object(ms)
    requires NulFree(key) && Decodable(key) && FirstMatch(ms, key, false) == FirstMatch(ms, key, cs) < |ms|
    ensures ApplyPatch(root, ComposePatch("remove", path, Some(key), None), cs)
            == Outcome(0, PutAt(root, loc, Object(RemoveIndex(ms, FirstMatch(ms, key, cs)))))
  {
    DecodeExact(key);
    ApplyRemove(root, path, key, loc, cs);
  }

  lemma AddMember(root: Json, path: string, loc: Location, ms: seq<Member>, key: string, v: Json, cs: bool)
    requires Names(root, path, loc, cs) && At(root, loc) == Object(ms)
    requires NulFree(key) && Decodable(key) && Height(v) <= CIRCULAR_LIMIT
    ensures ApplyPatch(root, ComposePatch("add", path, Some(key), Some(v)), cs)
            == Outcome(0, PutAt(root, loc, Object(SetMember(ms, key, v, cs))))
  {
    DecodeExact(key);
    ApplyAdd(root, path, key, loc, v, cs);
  }

  lemma {:induction false} PatchMember(root: Json, path: string, loc: Location, ms: seq<Member>, f: Member, t: Member,
                                       p: string -> bool, cs: bool) returns (ns: seq<Member>)
    requires KeyClass(p, cs) && Names(root, path, loc, cs) && At(root, loc) == Object(ms)
    requires GoodMembers(ms, p, cs) && p(f.key)
    requires Good(f.value, p, cs) && Good(t.value, p, cs) && Height(t.value) <= CIRCULAR_LIMIT
    requires Norm(f.key, cs) in MembersMeaning(ms, cs)
    requires MembersMeaning(ms, cs)[Norm(f.key, cs)] == Meaning(f.value, cs)
    ensures ApplyAll(root, Patches(path + "/" + EncodeKey(f.key), f.value, t.value, cs), cs)
            == Outcome(0, PutAt(root, loc, Object(ns)))
    ensures GoodMembers(ns, p, cs)
    ensures MembersMeaning(ns, cs) == MembersMeaning(ms, cs)[Norm(f.key, cs) := Meaning(t.value, cs)]
    decreases Height(f.value), 2, 0, 0
  {
    hide ApplyPatch, ComposePatch, EncodeKey, Decodable, WellFormed, AllKeys, Patches, Meaning, KeyClass;
    var full := path + "/" + EncodeKey(f.key);
    MeaningLookup(ms, cs, f.key);
    var i := FirstMatch(ms, f.key, cs);
    if SameContainer(f.value, t.value) {
      MemberIsNamed(root, path, loc, ms, f.key, cs);
      var y := PatchContainer(root, full, loc + [i], f.value, t.value, p, cs);
      ns := MemberUpdated(root, loc, ms, i, y, p, cs);
    } else {
      ns := PatchScalarMember(root, path, loc, ms, f, t, p, cs);
    }
  }

  /** Putting a value at a member is updating the object's list of members. */
  lemma MemberUpdated(root: Json, loc: Location, ms: seq<Member>, i: nat, y: Json, p: string -> bool, cs: bool)
      returns (ns: seq<Member>)
    requires Exists(root, loc) && At(root, loc) == Object(ms) && i < |ms|
    requires GoodMembers(ms, p, cs) && Good(y, p, cs)
    ensures Exists(root, loc + [i]) && PutAt(root, loc + [i], y) == PutAt(root, loc, Object(ns))
    ensures GoodMembers(ns, p, cs)
    ensures MembersMeaning(ns, cs) == MembersMeaning(ms, cs)[Norm(ms[i].key, cs) := Meaning(y, cs)]
  {
    hide WellFormed, AllKeys, Meaning, Norm;
    AtAppend(root, loc, i, y);
    UpdateLaw(ms, i, y, p, cs);
    MeaningUpdate(ms, i, y, cs);
    ns := ms[i := Member(ms[i].key, y)];
    assert PutAt(Object(ms), [i], y) == Object(ns);
  }

  /** A member that is not patched from inside is replaced, or the same. */
  lemma PatchScalarMember(root: Json, path: string, loc: Location, ms: seq<Member>, f: Member, t: Member,
                          p: string -> bool, cs: bool) returns (ns: seq<Member>)
    requires KeyClass(p, cs) && Names(root, path, loc, cs) && At(root, loc) == Object(ms)
    requires GoodMembers(ms, p, cs) && p(f.key) && !SameContainer(f.value, t.value)
    requires Good(f.value, p, cs) && Good(t.value, p, cs) && Height(t.value) <= CIRCULAR_LIMIT
    requires FirstMatch(ms, f.key, cs) < |ms| && Norm(f.key, cs) in MembersMeaning(ms, cs)
    requires MembersMeaning(ms, cs)[Norm(f.key, cs)] == Meaning(f.value, cs)
    ensures ApplyAll(root, Patches(path + "/" + EncodeKey(f.key), f.value, t.value, cs), cs)
            == Outcome(0, PutAt(root, loc, Object(ns)))
    ensures GoodMembers(ns, p, cs)
    ensures MembersMeaning(ns, cs) == MembersMeaning(ms, cs)[Norm(f.key, cs) := Meaning(t.value, cs)]
  {
    hide ApplyPatch, ComposePatch, EncodeKey, Decodable, WellFormed, AllKeys, Patches, Meaning;
    var full := path + "/" + EncodeKey(f.key);
    ScalarPatches(full, f.value, t.value, p, cs);
    if Patches(full, f.value, t.value, cs) == [] {
      ns := ms;
      PutAtSame(root, loc);
    } else {
      FoldedMatch(ms, f.key, p, cs);
      ReplaceMember(root, path, loc, ms, f.key, t.value, cs);
      SetLaw(ms, f.key, t.value, p, cs);
      ns := SetMember(ms, f.key, t.value, cs);
    }
  }

  lemma MemberIsNamed(root: Json, path: string, loc: Location, ms: seq<Member>, key: string, cs: bool)
    requires Names(root, path, loc, cs) && At(root, loc) == Object(ms) && FirstMatch(ms, key, cs) < |ms|
    ensures var i := FirstMatch(ms, key, cs);
            && Names(root, path + "/" + EncodeKey(key), loc + [i], cs)
            && Exists(root, loc + [i]) && At(root, loc + [i]) == ms[i].value
  {
    var i := FirstMatch(ms, key, cs);
    EncodeHasNoSlash(key);
    assert EncodeKey(key) + "" == EncodeKey(key);
    FirstNamedIsFirstMatch(ms, key, "", cs);
    FollowAppend(root, path, loc, EncodeKey(key), i, cs);
    AtAppend(root, loc, i, Null);
  }

  // ---- whole containers ----

  /** The patches of two objects, or of two arrays, turn one into the other in place. */
  lemma {:induction false} PatchContainer(root: Json, path: string, loc: Location, from: Json, to: Json,
                                          p: string -> bool, cs: bool) returns (y: Json)
    requires KeyClass(p, cs) && Names(root, path, loc, cs)
    requires Good(At(root, loc), p, cs) && Good(from, p, cs) && Good(to, p, cs)
    requires Meaning(At(root, loc), cs) == Meaning(from, cs)
    requires SameContainer(from, to) && Height(to) <= CIRCULAR_LIMIT
    ensures ApplyAll(root, Patches(path, from, to, cs), cs) == Outcome(0, PutAt(root, loc, y))
    ensures Good(y, p, cs) && Meaning(y, cs) == Meaning(to, cs)
    decreases Height(from), 1, 0, 0
  {
    if from.Object? {
      y := PatchObject(root, path, loc, At(root, loc).members, from.members, to.members, p, cs);
    } else {
      y := PatchArray(root, path, loc, At(root, loc).items, from.items, to.items, p, cs);
    }
  }

  lemma {:induction false} PatchObject(root: Json, path: string, loc: Location, ms: seq<Member>, from: seq<Member>,
                                       to: seq<Member>, p: string -> bool, cs: bool) returns (y: Json)
    requires KeyClass(p, cs) && Names(root, path, loc, cs) && At(root, loc) == Object(ms)
    requires GoodMembers(ms, p, cs) && GoodMembers(from, p, cs) && GoodMembers(to, p, cs)
    requires MembersMeaning(ms, cs) == MembersMeaning(from, cs) && MembersHeight(to) <= CIRCULAR_LIMIT
    ensures ApplyAll(root, Patches(path, Object(from), Object(to), cs), cs) == Outcome(0, PutAt(root, loc, y))
    ensures Good(y, p, cs) && Meaning(y, cs) == Meaning(Object(to), cs)
    decreases MembersHeight(from), 0, |from| + |to| + 1, 0
  {
    hide ApplyAll, MemberPatches, Walking, KeyClass, Names, MembersMeaning, SortMembers;
    SortedWalk(ms, from, to, p, cs);
    SortKeepsHeight(from, cs);
    var ns := PatchMembers(root, path, loc, ms, SortMembers(from, cs), SortMembers(to, cs), map[], p, cs);
    y := Object(ns);
  }

  lemma SortedWalk(ms: seq<Member>, from: seq<Member>, to: seq<Member>, p: string -> bool, cs: bool)
    requires GoodMembers(ms, p, cs) && GoodMembers(from, p, cs) && GoodMembers(to, p, cs)
    requires MembersMeaning(ms, cs) == MembersMeaning(from, cs) && MembersHeight(to) <= CIRCULAR_LIMIT
    ensures Walking(ms, SortMembers(from, cs), SortMembers(to, cs), map[], p, cs)
    ensures map[] + MembersMeaning(SortMembers(to, cs), cs) == MembersMeaning(to, cs)
  {
    hide GoodMembers, SortMembers, StrictlyAscending, MembersMeaning, Distinct;
    SortKeepsHeight(to, cs);
    GoodIsDistinct(from, p, cs);
    GoodIsDistinct(to, p, cs);
    SortMembersKeeps(from, cs);
    SortMembersKeeps(to, cs);
    SortedIsGood(from, p, cs);
    SortedIsGood(to, p, cs);
    NothingDone(MembersMeaning(from, cs));
    NothingDone(MembersMeaning(to, cs));
  }

  lemma GoodIsDistinct(ms: seq<Member>, p: string -> bool, cs: bool)
    requires GoodMembers(ms, p, cs)
    ensures Distinct(ms, cs)
  {
  }

  lemma NothingDone(m: map<string, Value>)
    ensures var done: map<string, Value> := map[]; done + m == m && done.Keys !! m.Keys
  {
  }

  lemma {:induction false} PatchArray(root: Json, path: string, loc: Location, items: seq<Json>, from: seq<Json>,
                                      to: seq<Json>, p: string -> bool, cs: bool) returns (y: Json)
    requires KeyClass(p, cs) && Names(root, path, loc, cs) && At(root, loc) == Array(items)
    requires Good(Array(items), p, cs) && Good(Array(from), p, cs) && Good(Array(to), p, cs)
    requires ItemsMeaning(items, cs) == ItemsMeaning(from, cs) && ItemsHeight(to) <= CIRCULAR_LIMIT
    ensures ApplyAll(root, Patches(path, Array(from), Array(to), cs), cs) == Outcome(0, PutAt(root, loc, y))
    ensures Good(y, p, cs) && Meaning(y, cs) == Meaning(Array(to), cs)
    decreases ItemsHeight(from), 0, |from| + |to| + 1, 0
  {
    assert items[0..] == items;
    assert |ItemsMeaning(items, cs)| == |items| && |ItemsMeaning(from, cs)| == |from|;
    var js := PatchItems(root, path, loc, items, from, to, 0, p, cs);
    y := Array(js);
    assert ItemsMeaning(items[..0], cs) + ItemsMeaning(to, cs) == ItemsMeaning(to, cs);
    assert Meaning(y, cs) == VArray(ItemsMeaning(js, cs));
    assert Meaning(Array(to), cs) == VArray(ItemsMeaning(to, cs));
  }

  lemma SortedIsGood(ms: seq<Member>, p: string -> bool, cs: bool)
    requires GoodMembers(ms, p, cs)
    ensures GoodMembers(SortMembers(ms, cs), p, cs)
  {
    SortedMembersWellFormed(ms, cs);
    SortMembersKeeps(ms, cs);
    forall i | 0 <= i < |ms|
      ensures p(SortMembers(ms, cs)[i].key) && AllKeys(SortMembers(ms, cs)[i].value, p)
    {
      var j :| 0 <= j < |ms| && ms[j] == SortMembers(ms, cs)[i];
    }
  }

  /** What the walk over two sorted member lists keeps: done is what has been turned over. */
  ghost predicate Walking(ms: seq<Member>, fs: seq<Member>, ts: seq<Member>, done: map<string, Value>,
                          p: string -> bool, cs: bool) {
    && GoodMembers(ms, p, cs) && GoodMembers(fs, p, cs) && GoodMembers(ts, p, cs)
    && StrictlyAscending(fs, MemberKey, cs) && StrictlyAscending(ts, MemberKey, cs)
    && MembersMeaning(ms, cs) == done + MembersMeaning(fs, cs)
    && done.Keys !! MembersMeaning(fs, cs).Keys
    && MembersHeight(ts) <= CIRCULAR_LIMIT
  }

  lemma MapWithout<V>(d: map<string, V>, m: map<string, V>, k: string, v: V)
    requires k !in d && k !in m
    ensures (d + m[k := v]) - {k} == d + m
  {
  }

  lemma MapWith<V>(d: map<string, V>, m: map<string, V>, k: string, v: V, w: V)
    requires k !in m
    ensures (d + m)[k := v] == d[k := v] + m
    ensures (d + m[k := w])[k := v] == d[k := v] + m
    ensures d[k := v] + m == d + m[k := v]
  {
  }

  lemma WalkRemoves(ms: seq<Member>, fs: seq<Member>, ts: seq<Member>, done: map<string, Value>,
                    p: string -> bool, cs: bool)
    requires Walking(ms, fs, ts, done, p, cs) && fs != []
    ensures FirstMatch(ms, fs[0].key, cs) < |ms|
    ensures Walking(RemoveIndex(ms, FirstMatch(ms, fs[0].key, cs)), fs[1..], ts, done, p, cs)
  {
    var k, rest := Norm(fs[0].key, cs), MembersMeaning(fs[1..], cs);
    TailIsGood(fs, p, cs);
    MeaningLookup(ms, cs, fs[0].key);
    assert k in MembersMeaning(fs, cs);
    var i := FirstMatch(ms, fs[0].key, cs);
    RemoveLaw(ms, i, p, cs);
    MeaningRemove(ms, i, cs);
    MapWithout(done, rest, k, Meaning(fs[0].value, cs));
  }

  lemma WalkAdds(ms: seq<Member>, fs: seq<Member>, ts: seq<Member>, done: map<string, Value>,
                 p: string -> bool, cs: bool)
    requires Walking(ms, fs, ts, done, p, cs) && ts != []
    requires fs != [] ==> CompareKeys(fs[0], ts[0], cs) > 0
    ensures Walking(SetMember(ms, ts[0].key, ts[0].value, cs), fs, ts[1..],
                    done[Norm(ts[0].key, cs) := Meaning(ts[0].value, cs)], p, cs)
  {
    var k, v := Norm(ts[0].key, cs), Meaning(ts[0].value, cs);
    TailIsGood(ts, p, cs);
    KeyIsBelow(ts[0], fs, cs);
    SetLaw(ms, ts[0].key, ts[0].value, p, cs);
    MapWith(done, MembersMeaning(fs, cs), k, v, v);
  }

  lemma WalkChanges(ms: seq<Member>, ns: seq<Member>, fs: seq<Member>, ts: seq<Member>, done: map<string, Value>,
                    p: string -> bool, cs: bool)
    requires Walking(ms, fs, ts, done, p, cs) && fs != [] && ts != []
    requires Norm(fs[0].key, cs) == Norm(ts[0].key, cs) && GoodMembers(ns, p, cs)
    requires MembersMeaning(ns, cs) == MembersMeaning(ms, cs)[Norm(fs[0].key, cs) := Meaning(ts[0].value, cs)]
    ensures Walking(ns, fs[1..], ts[1..], done[Norm(ts[0].key, cs) := Meaning(ts[0].value, cs)], p, cs)
  {
    TailIsGood(fs, p, cs);
    TailIsGood(ts, p, cs);
    MapWith(done, MembersMeaning(fs[1..], cs), Norm(fs[0].key, cs), Meaning(ts[0].value, cs), Meaning(fs[0].value, cs));
  }

  lemma DoneMember(ts: seq<Member>, done: map<string, Value>, p: string -> bool, cs: bool)
    requires ts != [] && GoodMembers(ts, p, cs) && StrictlyAscending(ts, MemberKey, cs)
    ensures done[Norm(ts[0].key, cs) := Meaning(ts[0].value, cs)] + MembersMeaning(ts[1..], cs)
            == done + MembersMeaning(ts, cs)
  {
    TailIsGood(ts, p, cs);
  }

  /** One round of the walk over two objects. */
  lemma {:induction false} PatchMembersStep(root: Json, path: string, loc: Location, ms: seq<Member>,
                                            fs: seq<Member>, ts: seq<Member>, done: map<string, Value>,
                                            p: string -> bool, cs: bool)
      returns (ms': seq<Member>, ps: seq<Json>, fs': seq<Member>, ts': seq<Member>, done': map<string, Value>)
    requires KeyClass(p, cs) && Names(root, path, loc, cs) && At(root, loc) == Object(ms)
    requires Walking(ms, fs, ts, done, p, cs) && (fs != [] || ts != [])
    ensures ApplyAll(root, ps, cs) == Outcome(0, PutAt(root, loc, Object(ms')))
    ensures Walking(ms', fs', ts', done', p, cs)
    ensures MemberPatches(path, fs, ts, cs) == ps + MemberPatches(path, fs', ts', cs)
    ensures done' + MembersMeaning(ts', cs) == done + MembersMeaning(ts, cs)
    ensures |fs'| + |ts'| < |fs| + |ts| && MembersHeight(fs') <= MembersHeight(fs)
    decreases MembersHeight(fs), 0, |fs| + |ts|, 0
  {
    hide ApplyPatch, ComposePatch, EncodeKey, Decodable, WellFormed, AllKeys, Patches, Meaning, RemoveIndex;
    if fs != [] && (ts == [] || CompareKeys(fs[0], ts[0], cs) < 0) {
      WalkRemoves(ms, fs, ts, done, p, cs);
      FoldedMatch(ms, fs[0].key, p, cs);
      RemoveMember(root, path, loc, ms, fs[0].key, cs);
      ms', ps := RemoveIndex(ms, FirstMatch(ms, fs[0].key, cs)), [ComposePatch("remove", path, Some(fs[0].key), None)];
      fs', ts', done' := fs[1..], ts, done;
    } else if fs == [] || CompareKeys(fs[0], ts[0], cs) > 0 {
      WalkAdds(ms, fs, ts, done, p, cs);
      AddMember(root, path, loc, ms, ts[0].key, ts[0].value, cs);
      DoneMember(ts, done, p, cs);
      ms' := SetMember(ms, ts[0].key, ts[0].value, cs);
      ps := [ComposePatch("add", path, Some(ts[0].key), Some(ts[0].value))];
      fs', ts', done' := fs, ts[1..], done[Norm(ts[0].key, cs) := Meaning(ts[0].value, cs)];
    } else {
      StrcmpZero(Norm(fs[0].key, cs), Norm(ts[0].key, cs));
      ms' := PatchMember(root, path, loc, ms, fs[0], ts[0], p, cs);
      WalkChanges(ms, ms', fs, ts, done, p, cs);
      DoneMember(ts, done, p, cs);
      ps := Patches(path + "/" + EncodeKey(fs[0].key), fs[0].value, ts[0].value, cs);
      fs', ts', done' := fs[1..], ts[1..], done[Norm(ts[0].key, cs) := Meaning(ts[0].value, cs)];
    }
    ApplySingle(root, ps, cs);
  }

  lemma {:induction false} PatchMembers(root: Json, path: string, loc: Location, ms: seq<Member>,
                                        fs: seq<Member>, ts: seq<Member>, done: map<string, Value>,
                                        p: string -> bool, cs: bool) returns (ns: seq<Member>)
    requires KeyClass(p, cs) && Names(root, path, loc, cs) && At(root, loc) == Object(ms)
    requires Walking(ms, fs, ts, done, p, cs)
    ensures ApplyAll(root, MemberPatches(path, fs, ts, cs), cs) == Outcome(0, PutAt(root, loc, Object(ns)))
    ensures GoodMembers(ns, p, cs)
    ensures MembersMeaning(ns, cs) == done + MembersMeaning(ts, cs)
    decreases MembersHeight(fs), 0, |fs| + |ts|, 1
  {
    hide ApplyPatch, KeyClass, Meaning, GoodMembers, StrictlyAscending;
    if fs == [] && ts == [] {
      ns := ms;
      PutAtSame(root, loc);
    } else {
      var ms', ps, fs', ts', done' := PatchMembersStep(root, path, loc, ms, fs, ts, done, p, cs);
      AfterEdit(root, path, loc, Object(ms'), cs);
      ns := PatchMembers(PutAt(root, loc, Object(ms')), path, loc, ms', fs', ts', done', p, cs);
      Stitch(root, loc, Object(ms'), Object(ns), ps, MemberPatches(path, fs', ts', cs), cs);
    }
  }

  lemma ApplySingle(root: Json, ps: seq<Json>, cs: bool)
    ensures |ps| == 1 ==> ApplyAll(root, ps, cs) == ApplyPatch(root, ps[0], cs)
  {
  }

  /** Two runs that both edit the named node add up to one. */
  lemma Stitch(root: Json, loc: Location, v: Json, w: Json, ps: seq<Json>, qs: seq<Json>, cs: bool)
    requires Exists(root, loc) && Exists(PutAt(root, loc, v), loc)
    requires ApplyAll(root, ps, cs) == Outcome(0, PutAt(root, loc, v))
    requires ApplyAll(PutAt(root, loc, v), qs, cs) == Outcome(0, PutAt(PutAt(root, loc, v), loc, w))
    ensures ApplyAll(root, ps + qs, cs) == Outcome(0, PutAt(root, loc, w))
  {
    ApplyAppend(root, ps, qs, cs);
    PutAtLaws(root, loc, v, w);
  }

  /** After an edit of the named node the pointer still names it. */
  lemma AfterEdit(root: Json, path: string, loc: Location, v: Json, cs: bool)
    requires Names(root, path, loc, cs)
    ensures Names(PutAt(root, loc, v), path, loc, cs) && At(PutAt(root, loc, v), loc) == v
  {
    FollowStable(root, path, loc, v, cs);
    PutAtLaws(root, loc, v, v);
  }

  lemma TailIsGood(ms: seq<Member>, p: string -> bool, cs: bool)
    requires ms != [] && GoodMembers(ms, p, cs) && StrictlyAscending(ms, MemberKey, cs)
    ensures GoodMembers(ms[1..], p, cs) && StrictlyAscending(ms[1..], MemberKey, cs)
    ensures Norm(ms[0].key, cs) !in MembersMeaning(ms[1..], cs)
    ensures MembersMeaning(ms, cs) == MembersMeaning(ms[1..], cs)[Norm(ms[0].key, cs) := Meaning(ms[0].value, cs)]
    ensures Height(ms[0].value) < MembersHeight(ms) && MembersHeight(ms[1..]) <= MembersHeight(ms)
  {
    HeadIsFresh(ms, cs);
    HeadIsLeast(ms, cs);
    assert forall i :: 0 <= i < |ms[1..]| ==> ms[1..][i] == ms[i + 1];
  }

  /** A key below the head of an ascending list is not among its keys. */
  lemma KeyIsBelow(t: Member, fs: seq<Member>, cs: bool)
    requires StrictlyAscending(fs, MemberKey, cs)
    requires fs != [] ==> CompareKeys(fs[0], t, cs) > 0
    ensures Norm(t.key, cs) !in MembersMeaning(fs, cs)
  {
    var k := Norm(t.key, cs);
    StrcmpZero(k, k);
    AscendingIsOrdered(fs, MemberKey, cs);
    forall i | 0 <= i < |fs|
      ensures Norm(fs[i].key, cs) != k
    {
      assert i > 0 ==> Compare(fs[0], fs[i], MemberKey, cs) < 0;
    }
    MeaningKeys(fs, cs, k);
  }

  // ---- arrays ----

  lemma IndexToken(i: nat)
    requires i < SIZE_MODULUS
    ensures EncodeKey(Decimal(i)) == Decimal(i) && DecodeToken(Decimal(i)) == Decimal(i)
    ensures '/' !in Decimal(i) && Decimal(i) != "-" && DecodeIndex(Decimal(i)) == Some(i)
  {
    PlainEncode(Decimal(i));
    DecodeTokenNoTilde(Decimal(i));
    DecodeDecimal(i, "");
    assert Decimal(i) + "" == Decimal(i);
    assert Digit(Decimal(i)[0]);
  }

  lemma {:induction false} PlainEncode(s: string)
    requires '~' !in s && '/' !in s
    ensures EncodeKey(s) == s
  {
    if s != "" {
      assert s[0] in s;
      PlainEncode(s[1..]);
      assert s == [s[0]] + s[1..];
    }
  }

  /** Patching one array element puts the new one at the same position. */
  lemma {:induction false} PatchItem(root: Json, path: string, loc: Location, items: seq<Json>, i: nat, f: Json, t: Json,
                                     p: string -> bool, cs: bool) returns (y: Json)
    requires KeyClass(p, cs) && Names(root, path, loc, cs) && At(root, loc) == Array(items)
    requires i < |items| < SIZE_MODULUS
    requires Good(items[i], p, cs) && Good(f, p, cs) && Good(t, p, cs) && Height(t) <= CIRCULAR_LIMIT
    requires Meaning(items[i], cs) == Meaning(f, cs)
    ensures ApplyAll(root, Patches(path + "/" + Decimal(i), f, t, cs), cs)
            == Outcome(0, PutAt(root, loc, Array(items[i := y])))
    ensures Good(y, p, cs) && Meaning(y, cs) == Meaning(t, cs)
    decreases Height(f), 2, 0, 0
  {
    hide ApplyPatch, ComposePatch, EncodeKey, DecodeToken, Decimal, KeyClass, Good, Patches, Meaning;
    IndexToken(i);
    var full := path + "/" + Decimal(i);
    if SameContainer(f, t) {
      FollowAppend(root, path, loc, Decimal(i), i, cs);
      AtAppend(root, loc, i, Null);
      y := PatchContainer(root, full, loc + [i], f, t, p, cs);
      AtAppend(root, loc, i, y);
      assert PutAt(Array(items), [i], y) == Array(items[i := y]);
    } else {
      ScalarPatches(full, f, t, p, cs);
      if Patches(full, f, t, cs) == [] {
        y := items[i];
        assert items[i := y] == items;
        PutAtSame(root, loc);
      } else {
        y := t;
        ReplaceItem(root, path, loc, items, i, t, cs);
      }
    }
  }

  lemma ReplaceItem(root: Json, path: string, loc: Location, items: seq<Json>, i: nat, v: Json, cs: bool)
    requires Names(root, path, loc, cs) && At(root, loc) == Array(items)
    requires i < |items| < SIZE_MODULUS && Height(v) <= CIRCULAR_LIMIT
    ensures ApplyPatch(root, ComposePatch("replace", path + "/" + Decimal(i), None, Some(v)), cs)
            == Outcome(0, PutAt(root, loc, Array(items[i := v])))
  {
    hide Decimal, EncodeKey, ComposePatch, ApplyPatch, DecodeToken;
    IndexToken(i);
    var rs := RemoveIndex(items, i);
    var d := DetachChild(root, loc, Decimal(i));
    assert d.Found? && d.rest == PutAt(root, loc, Array(rs));
    FollowStable(root, path, loc, Array(rs), cs);
    ApplyReplace(root, path, Decimal(i), loc, v, cs);
    AddItemAfterDetach(root, loc, items, i, v, cs);
  }

  lemma AddItemAfterDetach(root: Json, loc: Location, items: seq<Json>, i: nat, v: Json, cs: bool)
    requires Exists(root, loc) && i < |items| < SIZE_MODULUS
    ensures var rest := PutAt(root, loc, Array(RemoveIndex(items, i)));
            && Exists(rest, loc)
            && AddChild(rest, loc, Decimal(i), v, cs) == Outcome(0, PutAt(root, loc, Array(items[i := v])))
  {
    IndexToken(i);
    var rs := RemoveIndex(items, i);
    PutAtLaws(root, loc, Array(rs), Array(items[i := v]));
    assert rs[..i] + [v] + rs[i..] == items[i := v];
  }

  /** What the walk over two arrays keeps: the first index elements are done. */
  ghost predicate WalkingItems(items: seq<Json>, xs: seq<Json>, ys: seq<Json>, index: nat,
                               p: string -> bool, cs: bool) {
    && GoodItems(items, p, cs) && GoodItems(xs, p, cs) && GoodItems(ys, p, cs)
    && |items| == index + |xs| < SIZE_MODULUS && index + |ys| < SIZE_MODULUS
    && ItemsMeaning(items[index..], cs) == ItemsMeaning(xs, cs)
    && ItemsHeight(ys) <= CIRCULAR_LIMIT
  }

  lemma WalkChangesItem(items: seq<Json>, xs: seq<Json>, ys: seq<Json>, index: nat, y: Json,
                        p: string -> bool, cs: bool)
    requires WalkingItems(items, xs, ys, index, p, cs) && xs != [] && ys != [] && Good(y, p, cs)
    ensures WalkingItems(items[index := y], xs[1..], ys[1..], index + 1, p, cs)
  {
    assert items[index := y][index + 1..] == items[index..][1..];
    ItemsMeaningTail(items[index..], xs, cs);
  }

  lemma WalkRemovesItem(items: seq<Json>, xs: seq<Json>, index: nat, p: string -> bool, cs: bool)
    requires WalkingItems(items, xs, [], index, p, cs) && xs != []
    ensures WalkingItems(RemoveIndex(items, index), xs[1..], [], index, p, cs)
  {
    assert RemoveIndex(items, index)[index..] == items[index..][1..];
    ItemsMeaningTail(items[index..], xs, cs);
  }

  lemma WalkAddsItem(items: seq<Json>, ys: seq<Json>, index: nat, p: string -> bool, cs: bool)
    requires WalkingItems(items, [], ys, index, p, cs) && ys != []
    ensures WalkingItems(items + [ys[0]], [], ys[1..], index + 1, p, cs)
  {
    assert (items + [ys[0]])[index + 1..] == [];
  }

  lemma RemoveItem(root: Json, path: string, loc: Location, items: seq<Json>, i: nat, cs: bool)
    requires Names(root, path, loc, cs) && At(root, loc) == Array(items) && i < |items| < SIZE_MODULUS
    ensures ApplyPatch(root, ComposePatch("remove", path, Some(Decimal(i)), None), cs)
            == Outcome(0, PutAt(root, loc, Array(RemoveIndex(items, i))))
  {
    hide Decimal, EncodeKey, ComposePatch, ApplyPatch, DecodeToken, RemoveIndex;
    IndexToken(i);
    ApplyRemove(root, path, Decimal(i), loc, cs);
  }

  lemma AddItem(root: Json, path: string, loc: Location, items: seq<Json>, v: Json, cs: bool)
    requires Names(root, path, loc, cs) && At(root, loc) == Array(items) && Height(v) <= CIRCULAR_LIMIT
    ensures ApplyPatch(root, ComposePatch("add", path, Some("-"), Some(v)), cs)
            == Outcome(0, PutAt(root, loc, Array(items + [v])))
  {
    PlainEncode("-");
    DecodeTokenNoTilde("-");
    ApplyAdd(root, path, "-", loc, v, cs);
  }

  /** One round of the walk over two arrays. */
  lemma {:induction false} PatchItemsStep(root: Json, path: string, loc: Location, items: seq<Json>,
                                          xs: seq<Json>, ys: seq<Json>, index: nat, p: string -> bool, cs: bool)
      returns (items': seq<Json>, ps: seq<Json>, xs': seq<Json>, ys': seq<Json>, index': nat)
    requires KeyClass(p, cs) && Names(root, path, loc, cs) && At(root, loc) == Array(items)
    requires WalkingItems(items, xs, ys, index, p, cs) && (xs != [] || ys != [])
    ensures ApplyAll(root, ps, cs) == Outcome(0, PutAt(root, loc, Array(items')))
    ensures WalkingItems(items', xs', ys', index', p, cs)
    ensures ItemPatches(path, xs, ys, index, cs) == ps + ItemPatches(path, xs', ys', index', cs)
    ensures ItemsMeaning(items'[..index'], cs) + ItemsMeaning(ys', cs)
            == ItemsMeaning(items[..index], cs) + ItemsMeaning(ys, cs)
    ensures |xs'| + |ys'| < |xs| + |ys| && ItemsHeight(xs') <= ItemsHeight(xs)
    decreases ItemsHeight(xs), 0, |xs| + |ys|, 0
  {
    hide ApplyPatch, ComposePatch, Decimal, KeyClass, WellFormed, AllKeys, Patches, Meaning;
    if xs != [] && ys != [] {
      ItemsMeaningCons(items[index..], xs, cs);
      var y := PatchItem(root, path, loc, items, index, xs[0], ys[0], p, cs);
      WalkChangesItem(items, xs, ys, index, y, p, cs);
      DoneItem(items, index, y, ys, cs);
      items', ps := items[index := y], Patches(path + "/" + Decimal(index), xs[0], ys[0], cs);
      xs', ys', index' := xs[1..], ys[1..], index + 1;
    } else if xs != [] {
      RemoveItem(root, path, loc, items, index, cs);
      WalkRemovesItem(items, xs, index, p, cs);
      items', ps := RemoveIndex(items, index), [ComposePatch("remove", path, Some(Decimal(index)), None)];
      xs', ys', index' := xs[1..], ys, index;
      assert items'[..index] == items[..index];
    } else {
      AddItem(root, path, loc, items, ys[0], cs);
      WalkAddsItem(items, ys, index, p, cs);
      items', ps := items + [ys[0]], [ComposePatch("add", path, Some("-"), Some(ys[0]))];
      xs', ys', index' := xs, ys[1..], index + 1;
      DoneItem(items', index, ys[0], ys, cs);
      assert items'[index := ys[0]] == items' && items'[..index] == items[..index];
    }
    ApplySingle(root, ps, cs);
  }

  lemma {:induction false} PatchItems(root: Json, path: string, loc: Location, items: seq<Json>,
                                      xs: seq<Json>, ys: seq<Json>, index: nat,
                                      p: string -> bool, cs: bool) returns (js: seq<Json>)
    requires KeyClass(p, cs) && Names(root, path, loc, cs) && At(root, loc) == Array(items)
    requires WalkingItems(items, xs, ys, index, p, cs)
    ensures ApplyAll(root, ItemPatches(path, xs, ys, index, cs), cs) == Outcome(0, PutAt(root, loc, Array(js)))
    ensures Good(Array(js), p, cs)
    ensures ItemsMeaning(js, cs) == ItemsMeaning(items[..index], cs) + ItemsMeaning(ys, cs)
    decreases ItemsHeight(xs), 0, |xs| + |ys|, 1
  {
    hide ApplyPatch, KeyClass, Meaning;
    if xs == [] && ys == [] {
      js := items;
      assert items[..index] == items;
      PutAtSame(root, loc);
    } else {
      var items', ps, xs', ys', index' := PatchItemsStep(root, path, loc, items, xs, ys, index, p, cs);
      AfterEdit(root, path, loc, Array(items'), cs);
      js := PatchItems(PutAt(root, loc, Array(items')), path, loc, items', xs', ys', index', p, cs);
      Stitch(root, loc, Array(items'), Array(js), ps, ItemPatches(path, xs', ys', index', cs), cs);
    }
  }

  lemma ItemsMeaningTail(items: seq<Json>, xs: seq<Json>, cs: bool)
    requires items != [] && xs != [] && ItemsMeaning(items, cs) == ItemsMeaning(xs, cs)
    ensures ItemsMeaning(items[1..], cs) == ItemsMeaning(xs[1..], cs)
  {
    ItemsMeaningCons(items, xs, cs);
  }

  lemma DoneItem(items: seq<Json>, index: nat, y: Json, ys: seq<Json>, cs: bool)
    requires index < |items| && ys != [] && Meaning(y, cs) == Meaning(ys[0], cs)
    ensures ItemsMeaning(items[index := y][..index + 1], cs) + ItemsMeaning(ys[1..], cs)
            == ItemsMeaning(items[..index], cs) + ItemsMeaning(ys, cs)
  {
    assert ItemsMeaning(items[index := y][..index + 1], cs) == ItemsMeaning(items[..index], cs) + [Meaning(y, cs)];
    assert ItemsMeaning(ys, cs) == [Meaning(ys[0], cs)] + ItemsMeaning(ys[1..], cs);
  }

  // ---- the theorem ----

  /** Applied in order to any tree equal to from up to member order, the patches made from
      (from, to) all succeed and leave a tree equal to `to` up to member order. */
  lemma PatchesRoundTrip(doc: Json, from: Json, to: Json, p: string -> bool, cs: bool)
    requires KeyClass(p, cs)
    requires Good(doc, p, cs) && Good(from, p, cs) && Good(to, p, cs)
    requires Meaning(doc, cs) == Meaning(from, cs)
    requires Height(to) <= CIRCULAR_LIMIT
    ensures var r := ApplyPatches(doc, Array(Patches("", from, to, cs)), cs);
            && r.status == 0
            && Good(r.tree, p, cs)
            && Meaning(r.tree, cs) == Meaning(to, cs)
  {
    hide ApplyPatch, ComposePatch, KeyClass, Good, Patches, Meaning;
    if SameContainer(from, to) {
      var y := PatchContainer(doc, "", [], from, to, p, cs);
    } else {
      ScalarPatches("", from, to, p, cs);
      if Patches("", from, to, cs) != [] {
        ApplyReplaceRoot(doc, to, cs);
        var patch := ComposePatch("replace", "", None, Some(to));
        ApplyOne(doc, patch, [], cs);
        assert [patch] + [] == [patch];
      }
    }
  }
}
