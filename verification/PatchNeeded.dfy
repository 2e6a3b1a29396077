/** Every generated operation is needed: it names a place where the two documents differ, and it never
    replaces an object by an object or an array by an array. */
module PatchNeeded {
  import opened CString
  import opened ListSort
  import opened JsonTree
  import opened JsonText
  import opened JsonCompare
  import opened JsonPointer
  import opened JsonPatch
  import opened PatchRoundTrip
  import opened PointerNames
  import opened PatchOperations

  /** The array at the parent grows by w. */
  predicate Grows(v: Value, u: Value, q: seq<string>, w: Json, cs: bool) {
    && q != [] && Last(q) == "-"
    && match (Get(v, Parent(q), cs), Get(u, Parent(q), cs))
       case (Some(VArray(xs)), Some(VArray(ys))) => |xs| < |ys| && Meaning(w, cs) in ys[|xs|..]
       case _ => false
  }

  predicate SameKind(v: Value, u: Value) {
    (v.VArray? && u.VArray?) || (v.VObject? && u.VObject?)
  }

  /** An operation removes what only the first document has at its place, adds what only the second one
      has there, or replaces what differs and is not an object, or an array, in both. */
  predicate Justified(patch: Json, place: string, w: Json, x: Option<Value>, y: Option<Value>, grows: bool, cs: bool) {
    || (patch == ComposePatch("remove", place, None, None) && x.Some? && y == None)
    || (patch == ComposePatch("add", place, None, Some(w)) && ((x == None && y == Some(Meaning(w, cs))) || grows))
    || (&& patch == ComposePatch("replace", place, None, Some(w))
        && x.Some? && y == Some(Meaning(w, cs)) && x != y && !SameKind(x.value, y.value))
  }

  predicate Needed(patch: Json, path: string, q: seq<string>, w: Json, v: Value, u: Value, cs: bool) {
    Justified(patch, path + PathText(q), w, Get(v, q, cs), Get(u, q, cs), Grows(v, u, q, w, cs), cs)
  }

  // ---- the documents seen from a child ----

  lemma ChildPath(path: string, token: string, q: seq<string>)
    ensures path + PathText([token] + q) == path + "/" + EncodeKey(token) + PathText(q)
  {
    hide EncodeKey;
    assert ([token] + q)[1..] == q;
  }

  lemma ParentOf(token: string, q: seq<string>)
    requires q != []
    ensures Parent([token] + q) == [token] + Parent(q) && Last([token] + q) == Last(q)
  {
  }

  /** Below a token that leads to the children x and y. */
  ghost predicate LeadsTo(v: Value, token: string, x: Value, cs: bool) {
    forall q :: Get(v, [token] + q, cs) == Get(x, q, cs)
  }

  lemma LeadsAt(v: Value, token: string, x: Value, q: seq<string>, cs: bool)
    requires LeadsTo(v, token, x, cs)
    ensures Get(v, [token] + q, cs) == Get(x, q, cs)
  {
    hide Get;
  }

  lemma GrowsBelow(v: Value, u: Value, token: string, x: Value, y: Value, q: seq<string>, w: Json, cs: bool)
    requires LeadsTo(v, token, x, cs) && LeadsTo(u, token, y, cs) && Grows(x, y, q, w, cs)
    ensures Grows(v, u, [token] + q, w, cs)
  {
    hide Get, Meaning, LeadsTo;
    ParentOf(token, q);
    LeadsAt(v, token, x, Parent(q), cs);
    LeadsAt(u, token, y, Parent(q), cs);
  }

  lemma JustifiedToo(patch: Json, place: string, w: Json, x: Option<Value>, y: Option<Value>, a: bool, b: bool, cs: bool)
    requires Justified(patch, place, w, x, y, a, cs) && (a ==> b)
    ensures Justified(patch, place, w, x, y, b, cs)
  {
    hide ComposePatch, Meaning;
  }

  lemma JustifiedBelow(patch: Json, place: string, token: string, q: seq<string>, w: Json,
                       v: Value, u: Value, x: Value, y: Value, cs: bool)
    requires LeadsTo(v, token, x, cs) && LeadsTo(u, token, y, cs)
    requires Justified(patch, place, w, Get(x, q, cs), Get(y, q, cs), Grows(x, y, q, w, cs), cs)
    ensures Justified(patch, place, w, Get(v, [token] + q, cs), Get(u, [token] + q, cs), Grows(v, u, [token] + q, w, cs), cs)
  {
    hide Get, Justified, Grows, LeadsTo;
    LeadsAt(v, token, x, q, cs);
    LeadsAt(u, token, y, q, cs);
    var grows := Grows(x, y, q, w, cs);
    if grows {
      GrowsBelow(v, u, token, x, y, q, w, cs);
    }
    JustifiedToo(patch, place, w, Get(x, q, cs), Get(y, q, cs), grows, Grows(v, u, [token] + q, w, cs), cs);
  }

  lemma NeededBelow(patch: Json, path: string, token: string, q: seq<string>, w: Json,
                    v: Value, u: Value, x: Value, y: Value, cs: bool)
    requires LeadsTo(v, token, x, cs) && LeadsTo(u, token, y, cs)
    requires Needed(patch, path + "/" + EncodeKey(token), q, w, x, y, cs)
    ensures Needed(patch, path, [token] + q, w, v, u, cs)
  {
    hide Get, PathText, EncodeKey, Justified, Grows, LeadsTo;
    var place := path + "/" + EncodeKey(token) + PathText(q);
    ChildPath(path, token, q);
    JustifiedBelow(patch, place, token, q, w, v, u, x, y, cs);
  }

  lemma MemberLeads(m: map<string, Value>, key: string, cs: bool)
    requires Norm(key, cs) in m
    ensures LeadsTo(VObject(m), key, m[Norm(key, cs)], cs)
  {
    forall q: seq<string>
      ensures Get(VObject(m), [key] + q, cs) == Get(m[Norm(key, cs)], q, cs)
    {
      assert ([key] + q)[1..] == q;
    }
  }

  lemma ItemLeads(xs: seq<Value>, i: nat, cs: bool)
    requires i < |xs| && i < SIZE_MODULUS
    ensures LeadsTo(VArray(xs), Decimal(i), xs[i], cs)
  {
    hide Position;
    IndexAt(i);
    forall q: seq<string>
      ensures Get(VArray(xs), [Decimal(i)] + q, cs) == Get(xs[i], q, cs)
    {
      assert ([Decimal(i)] + q)[1..] == q;
    }
  }

  lemma IndexAt(i: nat)
    requires i < SIZE_MODULUS
    ensures Position(Decimal(i)) == Some(i) && EncodeKey(Decimal(i)) == Decimal(i)
  {
    IndexToken(i);
    assert Decimal(i) + "" == Decimal(i);
    PositionExact(Decimal(i), "");
  }

  lemma OneKey(m: map<string, Value>, key: string, cs: bool)
    ensures Get(VObject(m), [key], cs) == if Norm(key, cs) in m then Some(m[Norm(key, cs)]) else None
    ensures forall path :: path + PathText([key]) == path + "/" + EncodeKey(key)
  {
    assert [key][1..] == [] && PathText([]) == "";
    forall path
      ensures path + PathText([key]) == path + "/" + EncodeKey(key)
    {
      assert path + ("/" + (EncodeKey(key) + "")) == path + "/" + EncodeKey(key);
    }
  }

  // ---- single operations ----

  lemma RemoveNeeded(path: string, m: map<string, Value>, n: map<string, Value>, key: string, cs: bool)
    requires Norm(key, cs) in m && Norm(key, cs) !in n
    ensures Needed(ComposePatch("remove", path, Some(key), None), path, [key], Null, VObject(m), VObject(n), cs)
  {
    hide Get, PathText, EncodeKey;
    OneKey(m, key, cs);
    OneKey(n, key, cs);
  }

  lemma AddNeeded(path: string, m: map<string, Value>, n: map<string, Value>, key: string, w: Json, cs: bool)
    requires Norm(key, cs) !in m && Norm(key, cs) in n && n[Norm(key, cs)] == Meaning(w, cs)
    ensures Needed(ComposePatch("add", path, Some(key), Some(w)), path, [key], w, VObject(m), VObject(n), cs)
  {
    hide Get, PathText, EncodeKey;
    OneKey(m, key, cs);
    OneKey(n, key, cs);
  }

  lemma ReplaceNeeded(path: string, from: Json, to: Json, cs: bool)
    requires WellFormed(from, cs) && WellFormed(to, cs)
    requires Patches(path, from, to, cs) == [ComposePatch("replace", path, None, Some(to))]
    requires !SameContainer(from, to)
    ensures Needed(ComposePatch("replace", path, None, Some(to)), path, [], to, Meaning(from, cs), Meaning(to, cs), cs)
  {
    hide ComposePatch;
    assert path + PathText([]) == path;
    ScalarsDiffer(path, from, to, cs);
  }

  lemma ScalarsDiffer(path: string, from: Json, to: Json, cs: bool)
    requires WellFormed(from, cs) && WellFormed(to, cs) && !SameContainer(from, to) && Patches(path, from, to, cs) != []
    ensures Meaning(from, cs) != Meaning(to, cs) && !SameKind(Meaning(from, cs), Meaning(to, cs))
  {
    hide ComposePatch;
    if from.Number? && to.Number? {
      CompareDoubleOnInts(from.valueint, to.valueint);
    }
  }

  // ---- all operations ----

  /** Operation i of the patches for two documents is needed, for the place q. */
  lemma {:induction false} PatchIsNeeded(path: string, from: Json, to: Json, i: nat, cs: bool)
      returns (q: seq<string>, w: Json)
    requires WellFormed(from, cs) && WellFormed(to, cs) && i < |Patches(path, from, to, cs)|
    ensures Needed(Patches(path, from, to, cs)[i], path, q, w, Meaning(from, cs), Meaning(to, cs), cs)
    decreases Height(from), 1, 0
  {
    hide Needed, Meaning, ComposePatch;
    if from.Object? && to.Object? {
      SortKeepsHeight(from.members, cs);
      SortedMembersWellFormed(from.members, cs);
      SortedMembersWellFormed(to.members, cs);
      SortMembersKeeps(from.members, cs);
      SortMembersKeeps(to.members, cs);
      q, w := MemberIsNeeded(path, SortMembers(from.members, cs), SortMembers(to.members, cs), i, cs);
      ObjectMeaning(from.members, cs);
      ObjectMeaning(to.members, cs);
    } else if from.Array? && to.Array? {
      q, w := ItemIsNeeded(path, from.items, to.items, 0, 0, 0, i, cs);
    } else {
      q, w := [], to;
      ScalarIsNeeded(path, from, to, i, cs);
    }
  }

  lemma ObjectMeaning(ms: seq<Member>, cs: bool)
    ensures Meaning(Object(ms), cs) == VObject(MembersMeaning(ms, cs))
  {
  }

  lemma ScalarIsNeeded(path: string, from: Json, to: Json, i: nat, cs: bool)
    requires WellFormed(from, cs) && WellFormed(to, cs) && i < |Patches(path, from, to, cs)| && !SameContainer(from, to)
    ensures Needed(Patches(path, from, to, cs)[i], path, [], to, Meaning(from, cs), Meaning(to, cs), cs)
  {
    hide Needed, ComposePatch, Meaning;
    assert Patches(path, from, to, cs) == [ComposePatch("replace", path, None, Some(to))];
    ReplaceNeeded(path, from, to, cs);
  }

  // ---- objects ----

  /** At the keys of m and n the other two maps hold the same. */
  ghost predicate Agree(m: map<string, Value>, n: map<string, Value>, m': map<string, Value>, n': map<string, Value>) {
    forall k :: k in m || k in n ==>
      && (k in m' <==> k in m) && (k in n' <==> k in n) && (k in m ==> m'[k] == m[k]) && (k in n ==> n'[k] == n[k])
  }

  lemma OneMore(m: map<string, Value>, n: map<string, Value>, k: string, v: Value, u: Value)
    requires k !in m && k !in n
    ensures Agree(m, n, m[k := v], n) && Agree(m, n, m, n[k := u]) && Agree(m, n, m[k := v], n[k := u])
  {
  }

  /** A member more changes nothing for the places of the others. */
  lemma Elsewhere(patch: Json, path: string, q: seq<string>, w: Json, m: map<string, Value>, n: map<string, Value>,
                  m': map<string, Value>, n': map<string, Value>, cs: bool)
    requires Needed(patch, path, q, w, VObject(m), VObject(n), cs) && Agree(m, n, m', n')
    ensures Needed(patch, path, q, w, VObject(m'), VObject(n'), cs)
  {
    hide PathText, Justified, Get, Grows, Norm;
    TopKey(patch, path, q, w, m, n, cs);
    var k := Norm(q[0], cs);
    assert (k in m' <==> k in m) && (k in n' <==> k in n) && (k in m ==> m'[k] == m[k]) && (k in n ==> n'[k] == n[k]);
    SamePlace(q, w, m, n, m', n', cs);
  }

  lemma SamePlace(q: seq<string>, w: Json, m: map<string, Value>, n: map<string, Value>,
                  m': map<string, Value>, n': map<string, Value>, cs: bool)
    requires q != []
    requires var k := Norm(q[0], cs);
             && (k in m' <==> k in m) && (k in n' <==> k in n) && (k in m ==> m'[k] == m[k]) && (k in n ==> n'[k] == n[k])
    ensures Get(VObject(m'), q, cs) == Get(VObject(m), q, cs) && Get(VObject(n'), q, cs) == Get(VObject(n), q, cs)
    ensures Grows(VObject(m'), VObject(n'), q, w, cs) == Grows(VObject(m), VObject(n), q, w, cs)
  {
    hide Get, Grows, Norm;
    SameBelow(q, m, m', cs);
    SameBelow(q, n, n', cs);
    GrowsElsewhere(q, w, m, n, m', n', cs);
  }

  lemma GrowsElsewhere(q: seq<string>, w: Json, m: map<string, Value>, n: map<string, Value>,
                       m': map<string, Value>, n': map<string, Value>, cs: bool)
    requires q != []
    requires var k := Norm(q[0], cs);
             && (k in m' <==> k in m) && (k in n' <==> k in n) && (k in m ==> m'[k] == m[k]) && (k in n ==> n'[k] == n[k])
    ensures Grows(VObject(m'), VObject(n'), q, w, cs) == Grows(VObject(m), VObject(n), q, w, cs)
  {
    hide Norm, Meaning, Position;
    if |q| > 1 {
      assert Parent(q)[0] == q[0];
      SameBelow(Parent(q), m, m', cs);
      SameBelow(Parent(q), n, n', cs);
    } else {
      assert Parent(q) == [];
    }
  }

  lemma SameBelow(q: seq<string>, m: map<string, Value>, m': map<string, Value>, cs: bool)
    requires q != []
    ensures var k := Norm(q[0], cs);
            (k in m <==> k in m') && (k in m ==> m'[k] == m[k]) ==> Get(VObject(m'), q, cs) == Get(VObject(m), q, cs)
  {
    hide Position;
  }

  /** The place of an operation lies below a key of one of the objects. */
  lemma TopKey(patch: Json, path: string, q: seq<string>, w: Json, m: map<string, Value>, n: map<string, Value>, cs: bool)
    requires Needed(patch, path, q, w, VObject(m), VObject(n), cs)
    ensures q != [] && (Norm(q[0], cs) in m || Norm(q[0], cs) in n)
  {
    hide Position, Meaning, PathText, ComposePatch, Norm;
    if |q| == 1 {
      assert Parent(q) == [];
    } else if |q| > 1 {
      assert Parent(q)[0] == q[0];
    }
  }

  lemma {:induction false} MemberIsNeeded(path: string, fs: seq<Member>, ts: seq<Member>, i: nat, cs: bool)
      returns (q: seq<string>, w: Json)
    requires WellFormedMembers(fs, cs) && WellFormedMembers(ts, cs)
    requires StrictlyAscending(fs, MemberKey, cs) && StrictlyAscending(ts, MemberKey, cs)
    requires i < |MemberPatches(path, fs, ts, cs)|
    ensures Needed(MemberPatches(path, fs, ts, cs)[i], path, q, w,
                   VObject(MembersMeaning(fs, cs)), VObject(MembersMeaning(ts, cs)), cs)
    decreases MembersHeight(fs), 0, |fs| + |ts|, 1
  {
    hide Needed, Meaning, ComposePatch, EncodeKey, WellFormed, Patches, Get, MembersMeaning, MemberPatches, Norm;
    if fs != [] && (ts == [] || CompareKeys(fs[0], ts[0], cs) < 0) {
      q, w := RemovedIsNeeded(path, fs, ts, i, cs);
    } else if fs == [] && ts == [] {
      NoMemberPatches(path, cs);
    } else if fs == [] || CompareKeys(fs[0], ts[0], cs) > 0 {
      q, w := AddedIsNeeded(path, fs, ts, i, cs);
    } else {
      q, w := CommonIsNeeded(path, fs, ts, i, cs);
    }
  }

  lemma NoMemberPatches(path: string, cs: bool)
    ensures MemberPatches(path, [], [], cs) == []
  {
  }

  /** The first document has the least key alone. */
  lemma {:induction false} RemovedIsNeeded(path: string, fs: seq<Member>, ts: seq<Member>, i: nat, cs: bool)
      returns (q: seq<string>, w: Json)
    requires WellFormedMembers(fs, cs) && WellFormedMembers(ts, cs)
    requires StrictlyAscending(fs, MemberKey, cs) && StrictlyAscending(ts, MemberKey, cs)
    requires fs != [] && (ts == [] || CompareKeys(fs[0], ts[0], cs) < 0)
    requires i < |MemberPatches(path, fs, ts, cs)|
    ensures Needed(MemberPatches(path, fs, ts, cs)[i], path, q, w,
                   VObject(MembersMeaning(fs, cs)), VObject(MembersMeaning(ts, cs)), cs)
    decreases MembersHeight(fs), 0, |fs| + |ts|, 0
  {
    hide Needed, Meaning, ComposePatch, EncodeKey, WellFormed, Patches, Get, MembersMeaning, Agree, Norm;
    MemberTail(fs, cs);
    FrontIsBelow(fs[0], ts, cs);
    var m, n := MembersMeaning(fs[1..], cs), MembersMeaning(ts, cs);
    if i == 0 {
      q, w := [fs[0].key], Null;
      RemoveNeeded(path, MembersMeaning(fs, cs), n, fs[0].key, cs);
    } else {
      q, w := MemberIsNeeded(path, fs[1..], ts, i - 1, cs);
      OneMore(m, n, Norm(fs[0].key, cs), Meaning(fs[0].value, cs), VNull);
      Elsewhere(MemberPatches(path, fs, ts, cs)[i], path, q, w, m, n, MembersMeaning(fs, cs), n, cs);
    }
  }

  /** The second document has the least key alone. */
  lemma {:induction false} AddedIsNeeded(path: string, fs: seq<Member>, ts: seq<Member>, i: nat, cs: bool)
      returns (q: seq<string>, w: Json)
    requires WellFormedMembers(fs, cs) && WellFormedMembers(ts, cs)
    requires StrictlyAscending(fs, MemberKey, cs) && StrictlyAscending(ts, MemberKey, cs)
    requires ts != [] && (fs == [] || CompareKeys(fs[0], ts[0], cs) > 0)
    requires i < |MemberPatches(path, fs, ts, cs)|
    ensures Needed(MemberPatches(path, fs, ts, cs)[i], path, q, w,
                   VObject(MembersMeaning(fs, cs)), VObject(MembersMeaning(ts, cs)), cs)
    decreases MembersHeight(fs), 0, |fs| + |ts|, 0
  {
    hide Needed, Meaning, ComposePatch, EncodeKey, WellFormed, Patches, Get, MembersMeaning, Agree, Norm;
    MemberTail(ts, cs);
    KeyIsBelow(ts[0], fs, cs);
    var m, n := MembersMeaning(fs, cs), MembersMeaning(ts[1..], cs);
    if i == 0 {
      q, w := [ts[0].key], ts[0].value;
      AddNeeded(path, m, MembersMeaning(ts, cs), ts[0].key, ts[0].value, cs);
    } else {
      q, w := MemberIsNeeded(path, fs, ts[1..], i - 1, cs);
      OneMore(m, n, Norm(ts[0].key, cs), VNull, Meaning(ts[0].value, cs));
      Elsewhere(MemberPatches(path, fs, ts, cs)[i], path, q, w, m, n, m, MembersMeaning(ts, cs), cs);
    }
  }

  /** Both objects have the key in front. */
  lemma {:induction false} CommonIsNeeded(path: string, fs: seq<Member>, ts: seq<Member>, i: nat, cs: bool)
      returns (q: seq<string>, w: Json)
    requires fs != [] && ts != [] && CompareKeys(fs[0], ts[0], cs) == 0
    requires WellFormedMembers(fs, cs) && WellFormedMembers(ts, cs)
    requires StrictlyAscending(fs, MemberKey, cs) && StrictlyAscending(ts, MemberKey, cs)
    requires i < |MemberPatches(path, fs, ts, cs)|
    ensures Needed(MemberPatches(path, fs, ts, cs)[i], path, q, w,
                   VObject(MembersMeaning(fs, cs)), VObject(MembersMeaning(ts, cs)), cs)
    decreases MembersHeight(fs), 0, |fs| + |ts|, 0
  {
    hide Needed, Meaning, ComposePatch, EncodeKey, WellFormed, Patches, Get, MembersMeaning, Agree, Norm;
    var key := fs[0].key;
    StrcmpZero(Norm(key, cs), Norm(ts[0].key, cs));
    MemberTail(fs, cs);
    MemberTail(ts, cs);
    var first := Patches(path + "/" + EncodeKey(key), fs[0].value, ts[0].value, cs);
    if i < |first| {
      var below;
      below, w := PatchIsNeeded(path + "/" + EncodeKey(key), fs[0].value, ts[0].value, i, cs);
      q := [key] + below;
      MemberLeads(MembersMeaning(fs, cs), key, cs);
      MemberLeads(MembersMeaning(ts, cs), key, cs);
      NeededBelow(first[i], path, key, below, w, VObject(MembersMeaning(fs, cs)), VObject(MembersMeaning(ts, cs)),
                  Meaning(fs[0].value, cs), Meaning(ts[0].value, cs), cs);
    } else {
      q, w := MemberIsNeeded(path, fs[1..], ts[1..], i - |first|, cs);
      OneMore(MembersMeaning(fs[1..], cs), MembersMeaning(ts[1..], cs), Norm(key, cs), Meaning(fs[0].value, cs),
              Meaning(ts[0].value, cs));
      Elsewhere(MemberPatches(path, fs, ts, cs)[i], path, q, w, MembersMeaning(fs[1..], cs), MembersMeaning(ts[1..], cs),
                MembersMeaning(fs, cs), MembersMeaning(ts, cs), cs);
    }
  }

  lemma MemberTail(ms: seq<Member>, cs: bool)
    requires ms != [] && WellFormedMembers(ms, cs) && StrictlyAscending(ms, MemberKey, cs)
    ensures WellFormedMembers(ms[1..], cs) && StrictlyAscending(ms[1..], MemberKey, cs) && WellFormed(ms[0].value, cs)
    ensures Norm(ms[0].key, cs) !in MembersMeaning(ms[1..], cs)
    ensures MembersMeaning(ms, cs) == MembersMeaning(ms[1..], cs)[Norm(ms[0].key, cs) := Meaning(ms[0].value, cs)]
    ensures Height(ms[0].value) < MembersHeight(ms) && MembersHeight(ms[1..]) <= MembersHeight(ms)
  {
    HeadIsFresh(ms, cs);
    HeadIsLeast(ms, cs);
    assert forall i :: 0 <= i < |ms[1..]| ==> ms[1..][i] == ms[i + 1];
  }

  lemma FrontIsBelow(f: Member, ts: seq<Member>, cs: bool)
    requires StrictlyAscending(ts, MemberKey, cs) && (ts == [] || CompareKeys(f, ts[0], cs) < 0)
    ensures Norm(f.key, cs) !in MembersMeaning(ts, cs)
  {
    if ts != [] {
      StrcmpSwap(Norm(f.key, cs), Norm(ts[0].key, cs));
    }
    KeyIsBelow(f, ts, cs);
  }

  // ---- arrays ----

  /** How far the loops over two arrays have come: common positions, then the rest of one. */
  predicate Walked(xs: seq<Json>, ys: seq<Json>, a: nat, b: nat, index: nat) {
    && a <= |xs| && b <= |ys|
    && ((a == b == index) || (b == |ys| == index < a) || (a == |xs| < b == index))
  }

  lemma {:induction false} ItemIsNeeded(path: string, xs: seq<Json>, ys: seq<Json>, a: nat, b: nat, index: nat, i: nat, cs: bool)
      returns (q: seq<string>, w: Json)
    requires WellFormed(Array(xs), cs) && WellFormed(Array(ys), cs) && Walked(xs, ys, a, b, index)
    requires i < |ItemPatches(path, xs[a..], ys[b..], index, cs)|
    ensures Needed(ItemPatches(path, xs[a..], ys[b..], index, cs)[i], path, q, w,
                   Meaning(Array(xs), cs), Meaning(Array(ys), cs), cs)
    decreases ItemsHeight(xs), 0, |xs| - a + |ys| - b, 1
  {
    hide Needed, Meaning, ComposePatch, EncodeKey, WellFormed, Patches, Get, Decimal, ItemPatches;
    ItemStep(path, xs, ys, a, b, index, cs);
    if a < |xs| && b < |ys| {
      q, w := CommonItemIsNeeded(path, xs, ys, a, i, cs);
    } else if a < |xs| {
      if i == 0 {
        q, w := [Decimal(index)], Null;
        ArraySize(xs, cs);
        RemoveItemNeeded(path, xs, ys, index, cs);
      } else {
        q, w := ItemIsNeeded(path, xs, ys, a + 1, b, index, i - 1, cs);
      }
    } else {
      if i == 0 {
        q, w := ["-"], ys[b];
        AddItemNeeded(path, xs, ys, b, cs);
      } else {
        q, w := ItemIsNeeded(path, xs, ys, a, b + 1, index + 1, i - 1, cs);
      }
    }
  }

  lemma {:induction false} CommonItemIsNeeded(path: string, xs: seq<Json>, ys: seq<Json>, a: nat, i: nat, cs: bool)
      returns (q: seq<string>, w: Json)
    requires WellFormed(Array(xs), cs) && WellFormed(Array(ys), cs) && a < |xs| && a < |ys|
    requires i < |ItemPatches(path, xs[a..], ys[a..], a, cs)|
    ensures Needed(ItemPatches(path, xs[a..], ys[a..], a, cs)[i], path, q, w,
                   Meaning(Array(xs), cs), Meaning(Array(ys), cs), cs)
    decreases ItemsHeight(xs), 0, |xs| - a + |ys| - a, 0
  {
    hide Needed, Meaning, ComposePatch, EncodeKey, Patches, Get, Decimal, ItemPatches;
    ItemStep(path, xs, ys, a, a, a, cs);
    ItemHeight(xs, a);
    IndexAt(a);
    var first := Patches(path + "/" + Decimal(a), xs[a], ys[a], cs);
    if i < |first| {
      var below;
      below, w := PatchIsNeeded(path + "/" + Decimal(a), xs[a], ys[a], i, cs);
      q := [Decimal(a)] + below;
      ArrayMeaning(xs, cs);
      ArrayMeaning(ys, cs);
      ItemLeads(ItemsMeaning(xs, cs), a, cs);
      ItemLeads(ItemsMeaning(ys, cs), a, cs);
      NeededBelow(first[i], path, Decimal(a), below, w, Meaning(Array(xs), cs), Meaning(Array(ys), cs),
                  Meaning(xs[a], cs), Meaning(ys[a], cs), cs);
    } else {
      q, w := ItemIsNeeded(path, xs, ys, a + 1, a + 1, a + 1, i - |first|, cs);
    }
  }

  lemma ArraySize(xs: seq<Json>, cs: bool)
    requires WellFormed(Array(xs), cs)
    ensures |xs| < SIZE_MODULUS
  {
  }

  lemma OneIndex(xs: seq<Value>, i: nat, cs: bool)
    requires i < SIZE_MODULUS
    ensures Get(VArray(xs), [Decimal(i)], cs) == if i < |xs| then Some(xs[i]) else None
    ensures forall path :: path + PathText([Decimal(i)]) == path + "/" + Decimal(i)
  {
    hide Position, Decimal, EncodeKey;
    IndexAt(i);
    assert [Decimal(i)][1..] == [];
    OneKey(map[], Decimal(i), cs);
  }

  lemma RemoveItemNeeded(path: string, xs: seq<Json>, ys: seq<Json>, index: nat, cs: bool)
    requires index == |ys| < |xs| < SIZE_MODULUS
    ensures Needed(ComposePatch("remove", path, Some(Decimal(index)), None), path, [Decimal(index)], Null,
                   Meaning(Array(xs), cs), Meaning(Array(ys), cs), cs)
  {
    hide Get, PathText, EncodeKey, Decimal, Meaning;
    IndexAt(index);
    ArrayMeaning(xs, cs);
    ArrayMeaning(ys, cs);
    OneIndex(ItemsMeaning(xs, cs), index, cs);
    OneIndex(ItemsMeaning(ys, cs), index, cs);
  }

  lemma AddItemNeeded(path: string, xs: seq<Json>, ys: seq<Json>, b: nat, cs: bool)
    requires |xs| <= b < |ys|
    ensures Needed(ComposePatch("add", path, Some("-"), Some(ys[b])), path, ["-"], ys[b],
                   Meaning(Array(xs), cs), Meaning(Array(ys), cs), cs)
  {
    hide PathText, EncodeKey, Meaning;
    ArrayMeaning(xs, cs);
    ArrayMeaning(ys, cs);
    assert Parent(["-"]) == [] && Last(["-"]) == "-";
    var rest := ItemsMeaning(ys, cs)[|xs|..];
    assert rest[b - |xs|] == Meaning(ys[b], cs);
    OneKey(map[], "-", cs);
  }

  /** Every patch made from two well-formed documents names a place where they differ. */
  lemma EveryPatchIsNeeded(from: Json, to: Json, patch: Json, cs: bool)
    requires WellFormed(from, cs) && WellFormed(to, cs) && patch in Patches("", from, to, cs)
    ensures exists q, w :: Needed(patch, "", q, w, Meaning(from, cs), Meaning(to, cs), cs)
  {
    var all := Patches("", from, to, cs);
    var i :| 0 <= i < |all| && all[i] == patch;
    var q, w := PatchIsNeeded("", from, to, i, cs);
  }

  /** So there are none exactly when the documents are equal up to member order. */
  lemma NoPatchesExact(from: Json, to: Json, p: string -> bool, cs: bool)
    requires KeyClass(p, cs) && Good(from, p, cs) && Good(to, p, cs) && Height(to) <= CIRCULAR_LIMIT
    ensures Patches("", from, to, cs) == [] <==> Meaning(from, cs) == Meaning(to, cs)
  {
    hide KeyClass, WellFormed, AllKeys, Meaning, Patches, ApplyAll, Get;
    if Patches("", from, to, cs) == [] {
      PatchesRoundTrip(from, from, to, p, cs);
      NothingApplied(from, cs);
    } else {
      var q, w := PatchIsNeeded("", from, to, 0, cs);
      DifferentDocuments(Patches("", from, to, cs)[0], q, w, Meaning(from, cs), Meaning(to, cs), cs);
    }
  }

  lemma NothingApplied(root: Json, cs: bool)
    ensures ApplyPatches(root, Array([]), cs) == Outcome(0, root)
  {
  }

  lemma DifferentDocuments(patch: Json, q: seq<string>, w: Json, v: Value, u: Value, cs: bool)
    requires Needed(patch, "", q, w, v, u, cs)
    ensures v != u
  {
    hide Get, ComposePatch, PathText;
  }
}
