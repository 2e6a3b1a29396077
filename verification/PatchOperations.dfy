/** Section 4 of RFC 6902: what each operation of a patch means, on values, and that apply_patch does it. */
module PatchOperations {
  import opened CString
  import opened Sequences
  import opened JsonTree
  import opened JsonText
  import opened JsonCompare
  import opened JsonPointer
  import opened JsonPatch
  import opened PatchRoundTrip
  import opened PointerNames

  // ---- the standard, on values ----

  /** A JSON Pointer is a list of keys and indices; this is how it is written. */
  function PathText(path: seq<string>): string {
    if path == [] then "" else "/" + (EncodeKey(path[0]) + PathText(path[1..]))
  }

  function Get(v: Value, path: seq<string>, cs: bool): Option<Value>
    decreases |path|
  {
    if path == [] then Some(v)
    else
      match v
      case VObject(m) => if Norm(path[0], cs) in m then Get(m[Norm(path[0], cs)], path[1..], cs) else None
      case VArray(items) =>
        (match Position(path[0])
         case Some(i) => if i < |items| then Get(items[i], path[1..], cs) else None
         case None => None)
      case _ => None
  }

  /** The value with another one at an existing place. */
  function Put(v: Value, path: seq<string>, w: Value, cs: bool): Value
    requires Get(v, path, cs).Some?
    decreases |path|
  {
    if path == [] then w
    else
      match v
      case VObject(m) =>
        var k := Norm(path[0], cs);
        VObject(m[k := Put(m[k], path[1..], w, cs)])
      case VArray(items) =>
        var i := Position(path[0]).value;
        VArray(items[i := Put(items[i], path[1..], w, cs)])
  }

  function RemoveHere(v: Value, token: string, cs: bool): Option<Value> {
    match v
    case VObject(m) => if Norm(token, cs) in m then Some(VObject(m - {Norm(token, cs)})) else None
    case VArray(items) =>
      (match Position(token)
       case Some(i) => if i < |items| then Some(VArray(RemoveIndex(items, i))) else None
       case None => None)
    case _ => None
  }

  function AddHere(v: Value, token: string, w: Value, cs: bool): Option<Value> {
    match v
    case VObject(m) => Some(VObject(m[Norm(token, cs) := w]))
    case VArray(items) =>
      if token == "-" then Some(VArray(items + [w]))
      else
        (match Position(token)
         case Some(i) => if i <= |items| then Some(VArray(InsertAt(items, i, w))) else None
         case None => None)
    case _ => None
  }

  function Parent(path: seq<string>): seq<string>
    requires path != []
  {
    path[..|path| - 1]
  }

  function Last(path: seq<string>): string
    requires path != []
  {
    path[|path| - 1]
  }

  /** A child taken out; the whole document has no parent to be taken out of. */
  function Without(v: Value, path: seq<string>, cs: bool): Option<Value> {
    if path == [] then None
    else
      match Get(v, Parent(path), cs)
      case None => None
      case Some(parent) =>
        match RemoveHere(parent, Last(path), cs)
        case None => None
        case Some(u) => Some(Put(v, Parent(path), u, cs))
  }

  function With(v: Value, path: seq<string>, w: Value, cs: bool): Option<Value> {
    if path == [] then Some(w)
    else
      match Get(v, Parent(path), cs)
      case None => None
      case Some(parent) =>
        match AddHere(parent, Last(path), w, cs)
        case None => None
        case Some(u) => Some(Put(v, Parent(path), u, cs))
  }

  /** The six operations. */
  datatype Edit =
    | AddAt(path: seq<string>, value: Json)
    | RemoveAt(path: seq<string>)
    | ReplaceAt(path: seq<string>, value: Json)
    | MoveTo(from: seq<string>, path: seq<string>)
    | CopyTo(from: seq<string>, path: seq<string>)
    | TestAt(path: seq<string>, value: Json)

  /** The document after an operation, or None when the operation is an error. A replacement is a
      removal and an addition in the same place, a move a removal and an addition of what was removed,
      a copy an addition of what is there. */
  function Edited(v: Value, e: Edit, cs: bool): Option<Value> {
    match e
    case AddAt(path, w) => With(v, path, Meaning(w, cs), cs)
    case RemoveAt(path) => if path == [] then Some(VInvalid) else Without(v, path, cs)
    case ReplaceAt(path, w) =>
      if path == [] then Some(Meaning(w, cs))
      else
        (match Without(v, path, cs)
         case None => None
         case Some(u) => With(u, path, Meaning(w, cs), cs))
    case MoveTo(from, path) =>
      (match (Get(v, from, cs), Without(v, from, cs))
       case (Some(w), Some(u)) => With(u, path, w, cs)
       case _ => None)
    case CopyTo(from, path) =>
      (match Get(v, from, cs)
       case None => None
       case Some(w) => With(v, path, w, cs))
    case TestAt(path, w) => if Get(v, path, cs) == Some(Meaning(w, cs)) then Some(v) else None
  }

  function OperationName(e: Edit): string {
    match e
    case AddAt(_, _) => "add"
    case RemoveAt(_) => "remove"
    case ReplaceAt(_, _) => "replace"
    case MoveTo(_, _) => "move"
    case CopyTo(_, _) => "copy"
    case TestAt(_, _) => "test"
  }

  /** The patch object that asks for an operation; other members do not matter. */
  predicate Asks(patch: Json, e: Edit, cs: bool) {
    && GetObjectItem(patch, "op", cs) == Some(String(OperationName(e)))
    && GetObjectItem(patch, "path", cs) == Some(String(PathText(e.path)))
    && (e.AddAt? || e.ReplaceAt? || e.TestAt? ==> GetObjectItem(patch, "value", cs) == Some(e.value))
    && (e.MoveTo? || e.CopyTo? ==> GetObjectItem(patch, "from", cs) == Some(String(PathText(e.from))))
  }

  // ---- documents ----

  /** Trees of any width: distinct keys of the class, numbers in the int range, no Raw node. */
  predicate Fit(t: Json, p: string -> bool, cs: bool) {
    match t
    case Raw(_) => false
    case Number(n) => INT_MIN <= n <= INT_MAX
    case Array(items) => FitItems(items, p, cs)
    case Object(ms) => FitMembers(ms, p, cs)
    case _ => true
  }

  predicate FitItems(items: seq<Json>, p: string -> bool, cs: bool) {
    forall i :: 0 <= i < |items| ==> Fit(items[i], p, cs)
  }

  predicate FitMembers(ms: seq<Member>, p: string -> bool, cs: bool) {
    Distinct(ms, cs) && forall i :: 0 <= i < |ms| ==> p(ms[i].key) && Fit(ms[i].value, p, cs)
  }

  predicate InClass(path: seq<string>, p: string -> bool) {
    forall i :: 0 <= i < |path| ==> p(path[i])
  }

  lemma {:induction false} FitIsComparable(t: Json, p: string -> bool, cs: bool)
    requires Fit(t, p, cs)
    ensures Comparable(t, cs) && Blanked(t) == t
  {
    match t
    case Array(items) =>
      forall i | 0 <= i < |items|
        ensures Comparable(items[i], cs) && Blanked(items[i]) == items[i]
      {
        FitIsComparable(items[i], p, cs);
      }
      assert BlankedItems(items) == items;
    case Object(ms) =>
      forall i | 0 <= i < |ms|
        ensures Comparable(ms[i].value, cs) && Blanked(ms[i].value) == ms[i].value
      {
        FitIsComparable(ms[i].value, p, cs);
      }
      assert BlankedMembers(ms) == ms;
    case _ =>
  }

  lemma {:induction false} FitAt(t: Json, loc: Location, p: string -> bool, cs: bool)
    requires Fit(t, p, cs) && Exists(t, loc)
    ensures Fit(At(t, loc), p, cs)
  {
    if loc != [] {
      FitAt(Children(t)[loc[0]], loc[1..], p, cs);
    }
  }

  lemma FitUpdated(ms: seq<Member>, i: nat, v: Json, p: string -> bool, cs: bool)
    requires FitMembers(ms, p, cs) && i < |ms| && Fit(v, p, cs)
    ensures FitMembers(ms[i := Member(ms[i].key, v)], p, cs)
  {
    var r := ms[i := Member(ms[i].key, v)];
    assert forall j :: 0 <= j < |r| ==> MemberKey(r[j]) == MemberKey(ms[j]);
  }

  lemma FitRemoved(ms: seq<Member>, i: nat, p: string -> bool, cs: bool)
    requires FitMembers(ms, p, cs) && i < |ms|
    ensures FitMembers(RemoveIndex(ms, i), p, cs)
  {
    var r := RemoveIndex(ms, i);
    assert forall j :: 0 <= j < |r| ==> r[j] == if j < i then ms[j] else ms[j + 1];
  }

  lemma FitAppended(ms: seq<Member>, m: Member, p: string -> bool, cs: bool)
    requires FitMembers(ms, p, cs) && Fit(m.value, p, cs) && p(m.key)
    requires Norm(m.key, cs) !in MembersMeaning(ms, cs)
    ensures FitMembers(ms + [m], p, cs)
  {
    forall i | 0 <= i < |ms|
      ensures Norm(MemberKey(ms[i]), cs) != Norm(m.key, cs)
    {
      MeaningKeys(ms, cs, Norm(m.key, cs));
    }
    assert Distinct(ms + [m], cs);
  }

  // ---- the meaning of a node reached by a path ----

  lemma ArrayMeaning(items: seq<Json>, cs: bool)
    ensures Meaning(Array(items), cs) == VArray(ItemsMeaning(items, cs)) && |ItemsMeaning(items, cs)| == |items|
    ensures forall i :: 0 <= i < |items| ==> ItemsMeaning(items, cs)[i] == Meaning(items[i], cs)
  {
  }

  /** An escaped key that is an index is written as it is; any other is no index, escaped or not. */
  lemma PositionEncoded(key: string)
    ensures Position(EncodeKey(key)) == Position(key)
  {
    if Digits(key) {
      PlainEncode(key);
    } else {
      NoDigit(key);
    }
  }

  lemma {:induction false} NoDigit(key: string)
    requires !Digits(key)
    ensures !Digits(EncodeKey(key))
  {
    var e := EncodeKey(key);
    if Digit(key[0]) {
      assert key == [key[0]] + key[1..];
      NoDigit(key[1..]);
      var i :| 0 <= i < |EncodeKey(key[1..])| && !Digit(EncodeKey(key[1..])[i]);
      assert e[i + 1] == EncodeKey(key[1..])[i];
    } else {
      assert !Digit(e[0]);
    }
  }

  /** The child a key leads to. */
  function ChildOf(t: Json, key: string, cs: bool): Option<nat> {
    match t
    case Array(items) =>
      (match Position(key)
       case Some(i) => if i < |items| then Some(i) else None
       case None => None)
    case Object(ms) => if FirstMatch(ms, key, cs) < |ms| then Some(FirstMatch(ms, key, cs)) else None
    case _ => None
  }

  lemma KeyLeadsToChild(t: Json, key: string, rest: string, cs: bool)
    requires TokenEnds(rest)
    ensures Child(t, EncodeKey(key) + rest, cs) == ChildOf(t, key, cs)
    ensures SkipToken(EncodeKey(key) + rest) == rest
  {
    hide Position, DecodeIndex;
    EncodeHasNoSlash(key);
    SkipEncoded(EncodeKey(key), rest);
    if t.Array? {
      PositionExact(EncodeKey(key), rest);
      PositionEncoded(key);
    } else if t.Object? {
      FirstNamedIsFirstMatch(t.members, key, rest, cs);
    }
  }

  lemma ChildMeaning(t: Json, key: string, cs: bool)
    ensures match ChildOf(t, key, cs)
            case None => forall path :: Get(Meaning(t, cs), [key] + path, cs) == None
            case Some(i) =>
              && i < |Children(t)|
              && forall path :: Get(Meaning(t, cs), [key] + path, cs) == Get(Meaning(Children(t)[i], cs), path, cs)
  {
    hide Position;
    forall path: seq<string>
      ensures ([key] + path)[0] == key && ([key] + path)[1..] == path
    {
    }
    match t
    case Array(items) => ArrayMeaning(items, cs);
    case Object(ms) => MeaningLookup(ms, cs, key);
    case _ =>
  }

  lemma PathEnds(path: seq<string>)
    ensures TokenEnds(PathText(path))
  {
  }

  /** Following a path in the tree is following it in the value. */
  lemma {:induction false} FollowGets(t: Json, path: seq<string>, cs: bool)
    ensures match Follow(t, PathText(path), cs)
            case None => Get(Meaning(t, cs), path, cs) == None
            case Some(loc) => Get(Meaning(t, cs), path, cs) == Some(Meaning(At(t, loc), cs))
    decreases |path|
  {
    hide Child, ChildOf, SkipToken, Meaning;
    if path != [] {
      var p, rest := PathText(path), PathText(path[1..]);
      assert p[1..] == EncodeKey(path[0]) + rest;
      assert path == [path[0]] + path[1..];
      PathEnds(path[1..]);
      KeyLeadsToChild(t, path[0], rest, cs);
      ChildMeaning(t, path[0], cs);
      var child := ChildOf(t, path[0], cs);
      if child.Some? {
        FollowGets(Children(t)[child.value], path[1..], cs);
        FollowThrough(t, p, child.value, cs);
      }
    }
  }

  lemma FollowThrough(t: Json, p: string, i: nat, cs: bool)
    requires p != "" && p[0] == '/' && Child(t, p[1..], cs) == Some(i)
    ensures match Follow(Children(t)[i], SkipToken(p[1..]), cs)
            case None => Follow(t, p, cs) == None
            case Some(below) =>
              && Follow(t, p, cs) == Some([i] + below) && Exists(t, [i] + below)
              && At(t, [i] + below) == At(Children(t)[i], below)
  {
    match Follow(Children(t)[i], SkipToken(p[1..]), cs)
    case None =>
    case Some(below) => assert ([i] + below)[1..] == below;
  }

  /** Changing the node a path leads to is changing the value there. */
  lemma {:induction false} PutMeaning(t: Json, path: seq<string>, loc: Location, v: Json, p: string -> bool, cs: bool)
    requires Fit(t, p, cs) && Fit(v, p, cs) && Follow(t, PathText(path), cs) == Some(loc)
    ensures Fit(PutAt(t, loc, v), p, cs) && Get(Meaning(t, cs), path, cs).Some?
    ensures Meaning(PutAt(t, loc, v), cs) == Put(Meaning(t, cs), path, Meaning(v, cs), cs)
    decreases |path|
  {
    hide Child, ChildOf, SkipToken, Meaning;
    FollowGets(t, path, cs);
    if path != [] {
      var q, rest := PathText(path), PathText(path[1..]);
      assert q[1..] == EncodeKey(path[0]) + rest;
      PathEnds(path[1..]);
      KeyLeadsToChild(t, path[0], rest, cs);
      var i := ChildOf(t, path[0], cs).value;
      FollowThrough(t, q, i, cs);
      assert loc == [i] + loc[1..];
      FitAt(t, [i], p, cs);
      PutMeaning(Children(t)[i], path[1..], loc[1..], v, p, cs);
      PutStep(t, path, i, loc, v, p, cs);
    }
  }

  lemma PutStep(t: Json, path: seq<string>, i: nat, loc: Location, v: Json, p: string -> bool, cs: bool)
    requires Fit(t, p, cs) && path != [] && ChildOf(t, path[0], cs) == Some(i) && Exists(t, loc) && loc != [] && loc[0] == i
    requires Get(Meaning(t, cs), path, cs).Some? && Get(Meaning(Children(t)[i], cs), path[1..], cs).Some?
    requires var child := PutAt(Children(t)[i], loc[1..], v);
             Fit(child, p, cs) && Meaning(child, cs) == Put(Meaning(Children(t)[i], cs), path[1..], Meaning(v, cs), cs)
    ensures Fit(PutAt(t, loc, v), p, cs)
    ensures Meaning(PutAt(t, loc, v), cs) == Put(Meaning(t, cs), path, Meaning(v, cs), cs)
  {
    hide Position, MembersMeaning, ItemsMeaning, FirstMatch, Norm, FitItems, FitMembers;
    var child := PutAt(Children(t)[i], loc[1..], v);
    match t
    case Array(items) => ItemChanged(items, i, child, p, cs);
    case Object(ms) =>
      MeaningLookup(ms, cs, path[0]);
      MemberChanged(ms, i, path[0], child, p, cs);
    case _ =>
  }

  lemma ItemChanged(items: seq<Json>, i: nat, child: Json, p: string -> bool, cs: bool)
    requires FitItems(items, p, cs) && i < |items| && Fit(child, p, cs)
    ensures FitItems(items[i := child], p, cs)
    ensures |ItemsMeaning(items, cs)| == |items| && ItemsMeaning(items, cs)[i] == Meaning(items[i], cs)
    ensures Meaning(Array(items), cs) == VArray(ItemsMeaning(items, cs))
    ensures Meaning(Array(items[i := child]), cs) == VArray(ItemsMeaning(items, cs)[i := Meaning(child, cs)])
  {
    hide Meaning;
    ArrayMeaning(items, cs);
    ArrayMeaning(items[i := child], cs);
    assert ItemsMeaning(items[i := child], cs) == ItemsMeaning(items, cs)[i := Meaning(child, cs)];
  }

  lemma MemberChanged(ms: seq<Member>, i: nat, key: string, child: Json, p: string -> bool, cs: bool)
    requires FitMembers(ms, p, cs) && i == FirstMatch(ms, key, cs) < |ms| && Fit(child, p, cs)
    ensures FitMembers(ms[i := Member(ms[i].key, child)], p, cs)
    ensures MembersMeaning(ms[i := Member(ms[i].key, child)], cs)
            == MembersMeaning(ms, cs)[Norm(key, cs) := Meaning(child, cs)]
  {
    hide Meaning;
    FitUpdated(ms, i, child, p, cs);
    MeaningUpdate(ms, i, child, cs);
  }

  // ---- the last token ----

  lemma {:induction false} PathSplits(path: seq<string>)
    requires path != []
    ensures PathText(path) == PathText(Parent(path)) + "/" + EncodeKey(Last(path))
  {
    hide EncodeKey;
    var first := EncodeKey(path[0]);
    if |path| > 1 {
      PathSplits(path[1..]);
      assert Parent(path)[1..] == Parent(path[1..]) && Last(path) == Last(path[1..]) && Parent(path)[0] == path[0];
      Slashed(first, PathText(Parent(path[1..])), EncodeKey(Last(path)));
    } else {
      assert PathText(path[1..]) == "" && Parent(path) == [];
      assert first + "" == first;
    }
  }

  lemma Slashed(a: string, b: string, c: string)
    ensures "/" + (a + (b + "/" + c)) == "/" + (a + b) + "/" + c
  {
  }

  lemma {:induction false} GetSplits(v: Value, path: seq<string>, cs: bool)
    requires path != []
    ensures Get(v, path, cs) == match Get(v, Parent(path), cs)
                                case None => None
                                case Some(u) => Get(u, [Last(path)], cs)
    decreases |path|
  {
    if |path| == 1 {
      assert path == [Last(path)] && Parent(path) == [];
    } else {
      assert Parent(path)[1..] == Parent(path[1..]) && Last(path) == Last(path[1..]) && Parent(path)[0] == path[0];
      match v
      case VObject(m) =>
        if Norm(path[0], cs) in m {
          GetSplits(m[Norm(path[0], cs)], path[1..], cs);
        }
      case VArray(items) =>
        var i := Position(path[0]);
        if i.Some? && i.value < |items| {
          GetSplits(items[i.value], path[1..], cs);
        }
      case _ =>
    }
  }

  lemma LastPart(path: seq<string>, p: string -> bool, cs: bool)
    requires KeyClass(p, cs) && InClass(path, p) && path != []
    ensures var text := PathText(path);
            var slash := |PathText(Parent(path))|;
            && LastSlash(text) == Some(slash) && slash < |text|
            && text[..slash] == PathText(Parent(path))
            && DecodeToken(text[slash + 1..]) == Last(path)
  {
    PathSplits(path);
    EncodeHasNoSlash(Last(path));
    LastSlashOf(PathText(Parent(path)), EncodeKey(Last(path)));
    DecodeExact(Last(path));
  }

  // ---- detaching ----

  lemma FoldedChildOf(ms: seq<Member>, key: string, p: string -> bool, cs: bool)
    requires KeyClass(p, cs) && FitMembers(ms, p, cs) && p(key)
    ensures FirstMatch(ms, key, false) == FirstMatch(ms, key, cs)
  {
    if cs {
      SameMatch(ms, key, p);
    }
  }

  /** What is left of a parent without one child, and the child. */
  predicate Detaches(t: Json, key: string, d: Detached, p: string -> bool, cs: bool) {
    if d.NotFound? then RemoveHere(Meaning(t, cs), key, cs) == None && Get(Meaning(t, cs), [key], cs) == None
    else
      && Fit(d.rest, p, cs) && Fit(d.item, p, cs)
      && RemoveHere(Meaning(t, cs), key, cs) == Some(Meaning(d.rest, cs))
      && Get(Meaning(t, cs), [key], cs) == Some(Meaning(d.item, cs))
  }

  lemma DetachedItem(items: seq<Json>, key: string, p: string -> bool, cs: bool)
    requires FitItems(items, p, cs)
    ensures var i := Position(key);
            Detaches(Array(items), key,
                     if i.Some? && i.value < |items| then Found(Array(RemoveIndex(items, i.value)), items[i.value])
                     else NotFound, p, cs)
  {
    hide Position, Meaning, FitItems, RemoveIndex, ItemsMeaning;
    ArrayAt(items, cs);
    var i := Position(key);
    if i.Some? && i.value < |items| {
      ItemRemoved(items, i.value, p, cs);
      assert Get(ItemsMeaning(items, cs)[i.value], [key][1..], cs) == Some(Meaning(items[i.value], cs));
    }
  }

  lemma ItemRemoved(items: seq<Json>, i: nat, p: string -> bool, cs: bool)
    requires FitItems(items, p, cs) && i < |items|
    ensures FitItems(RemoveIndex(items, i), p, cs) && Fit(items[i], p, cs)
    ensures |ItemsMeaning(items, cs)| == |items| && ItemsMeaning(items, cs)[i] == Meaning(items[i], cs)
    ensures Meaning(Array(RemoveIndex(items, i)), cs) == VArray(RemoveIndex(ItemsMeaning(items, cs), i))
  {
    hide Meaning, Fit;
    var rest := RemoveIndex(items, i);
    assert forall j :: 0 <= j < |rest| ==> rest[j] == if j < i then items[j] else items[j + 1];
    ArrayMeaning(rest, cs);
    assert ItemsMeaning(rest, cs) == RemoveIndex(ItemsMeaning(items, cs), i);
  }

  lemma DetachedMember(ms: seq<Member>, key: string, p: string -> bool, cs: bool)
    requires FitMembers(ms, p, cs)
    ensures var i := FirstMatch(ms, key, cs);
            Detaches(Object(ms), key,
                     if i < |ms| then Found(Object(RemoveIndex(ms, i)), ms[i].value) else NotFound, p, cs)
  {
    hide FirstMatch, MembersMeaning, Norm, RemoveIndex, FitMembers;
    MeaningLookup(ms, cs, key);
    var i := FirstMatch(ms, key, cs);
    if i < |ms| {
      FitRemoved(ms, i, p, cs);
      MemberRemoved(ms, i, key, p, cs);
      assert Get(MembersMeaning(ms, cs)[Norm(key, cs)], [key][1..], cs) == Some(Meaning(ms[i].value, cs));
    }
  }

  lemma MemberRemoved(ms: seq<Member>, i: nat, key: string, p: string -> bool, cs: bool)
    requires FitMembers(ms, p, cs) && i < |ms| && Norm(ms[i].key, cs) == Norm(key, cs)
    ensures MembersMeaning(RemoveIndex(ms, i), cs) == MembersMeaning(ms, cs) - {Norm(key, cs)}
    ensures Fit(ms[i].value, p, cs)
  {
    MeaningRemove(ms, i, cs);
  }

  lemma DetachedHere(t: Json, key: string, p: string -> bool, cs: bool)
    requires KeyClass(p, cs) && Fit(t, p, cs) && p(key)
    ensures Detaches(t, key, DetachChild(t, [], key), p, cs)
  {
    hide KeyClass, DecodeIndex, Position, Detaches, FitMembers, FirstMatch;
    match t
    case Array(items) =>
      IndexOfKey(key, p, cs);
      DetachedItem(items, key, p, cs);
    case Object(ms) =>
      FoldedChildOf(ms, key, p, cs);
      DetachedMember(ms, key, p, cs);
    case _ => DetachedNowhere(t, key, p, cs);
  }

  lemma DetachedNowhere(t: Json, key: string, p: string -> bool, cs: bool)
    requires !t.Array? && !t.Object?
    ensures Detaches(t, key, NotFound, p, cs)
  {
  }

  lemma IndexOfKey(key: string, p: string -> bool, cs: bool)
    requires KeyClass(p, cs) && p(key)
    ensures DecodeIndex(key) == Position(key)
  {
    assert key + "" == key;
    PositionExact(key, "");
  }

  /** detach_path takes out the child the path names, and hands it over. */
  lemma DetachMeaning(t: Json, path: seq<string>, p: string -> bool, cs: bool)
    requires KeyClass(p, cs) && Fit(t, p, cs) && InClass(path, p)
    ensures var d := DetachPath(t, PathText(path), cs);
            if d.NotFound? then Without(Meaning(t, cs), path, cs) == None
            else
              && Fit(d.rest, p, cs) && Fit(d.item, p, cs)
              && Without(Meaning(t, cs), path, cs) == Some(Meaning(d.rest, cs))
              && Get(Meaning(t, cs), path, cs) == Some(Meaning(d.item, cs))
  {
    hide Meaning, DecodeToken, KeyClass, DetachChild, Get, RemoveHere;
    if path != [] {
      LastPart(path, p, cs);
      FollowGets(t, Parent(path), cs);
      GetSplits(Meaning(t, cs), path, cs);
      var parent := Follow(t, PathText(Parent(path)), cs);
      if parent.Some? {
        var loc := parent.value;
        FitAt(t, loc, p, cs);
        DetachedHere(At(t, loc), Last(path), p, cs);
        DetachBelow(t, loc, Last(path));
        var d := DetachChild(At(t, loc), [], Last(path));
        if d.Found? {
          PutMeaning(t, Parent(path), loc, d.rest, p, cs);
        }
      }
    }
  }

  /** Detaching below the root is detaching from the parent and putting the parent back. */
  lemma DetachBelow(t: Json, loc: Location, key: string)
    requires Exists(t, loc)
    ensures var d := DetachChild(At(t, loc), [], key);
            DetachChild(t, loc, key) == if d.NotFound? then NotFound else Found(PutAt(t, loc, d.rest), d.item)
  {
    hide DecodeIndex, FirstMatch;
  }

  // ---- adding ----

  /** A parent with one more child, or the refusal. */
  predicate Adds(t: Json, key: string, w: Json, r: Outcome, p: string -> bool, cs: bool) {
    if r.status == 0
    then Fit(r.tree, p, cs) && AddHere(Meaning(t, cs), key, Meaning(w, cs), cs) == Some(Meaning(r.tree, cs))
    else AddHere(Meaning(t, cs), key, Meaning(w, cs), cs) == None
  }

  /** What add does to an array. */
  lemma AddToArray(items: seq<Json>, key: string, w: Json, cs: bool)
    ensures AddChild(Array(items), [], key, w, cs) ==
            if key == "-" then Outcome(0, Array(items + [w]))
            else if DecodeIndex(key).None? then Outcome(11, Array(items))
            else if DecodeIndex(key).value > |items| then Outcome(10, Array(items))
            else Outcome(0, Array(InsertAt(items, DecodeIndex(key).value, w)))
  {
    hide DecodeIndex;
  }

  lemma AppendAdds(items: seq<Json>, w: Json, p: string -> bool, cs: bool)
    requires FitItems(items, p, cs) && Fit(w, p, cs)
    ensures Adds(Array(items), "-", w, Outcome(0, Array(items + [w])), p, cs)
  {
    hide Meaning, FitItems, ItemsMeaning;
    ArrayAt(items, cs);
    Appended(items, w, p, cs);
  }

  lemma InsertAdds(items: seq<Json>, key: string, i: nat, w: Json, p: string -> bool, cs: bool)
    requires FitItems(items, p, cs) && Fit(w, p, cs) && key != "-" && Position(key) == Some(i) && i <= |items|
    ensures Adds(Array(items), key, w, Outcome(0, Array(InsertAt(items, i, w))), p, cs)
  {
    hide Position, Meaning, InsertAt, FitItems, ItemsMeaning;
    ArrayAt(items, cs);
    Inserted(items, i, w, p, cs);
  }

  lemma RefusedAdds(items: seq<Json>, key: string, w: Json, r: Outcome, p: string -> bool, cs: bool)
    requires key != "-" && r.status != 0 && (Position(key).None? || Position(key).value > |items|)
    ensures Adds(Array(items), key, w, r, p, cs)
  {
    hide Position, Meaning, ItemsMeaning;
    ArrayAt(items, cs);
  }

  lemma AddedItem(items: seq<Json>, key: string, w: Json, p: string -> bool, cs: bool)
    requires FitItems(items, p, cs) && Fit(w, p, cs) && DecodeIndex(key) == Position(key)
    ensures Adds(Array(items), key, w, AddChild(Array(items), [], key, w, cs), p, cs)
  {
    hide DecodeIndex, Position, InsertAt, FitItems, Adds, AddChild, Fit;
    AddToArray(items, key, w, cs);
    var i := Position(key);
    if key == "-" {
      AppendAdds(items, w, p, cs);
    } else if i.Some? && i.value <= |items| {
      InsertAdds(items, key, i.value, w, p, cs);
    } else {
      RefusedAdds(items, key, w, AddChild(Array(items), [], key, w, cs), p, cs);
    }
  }

  lemma ArrayAt(items: seq<Json>, cs: bool)
    ensures Meaning(Array(items), cs) == VArray(ItemsMeaning(items, cs)) && |ItemsMeaning(items, cs)| == |items|
  {
  }

  lemma Appended(items: seq<Json>, w: Json, p: string -> bool, cs: bool)
    requires FitItems(items, p, cs) && Fit(w, p, cs)
    ensures FitItems(items + [w], p, cs)
    ensures Meaning(Array(items + [w]), cs) == VArray(ItemsMeaning(items, cs) + [Meaning(w, cs)])
  {
    hide Meaning;
    ArrayMeaning(items + [w], cs);
    assert ItemsMeaning(items + [w], cs) == ItemsMeaning(items, cs) + [Meaning(w, cs)];
  }

  lemma Inserted(items: seq<Json>, i: nat, w: Json, p: string -> bool, cs: bool)
    requires FitItems(items, p, cs) && Fit(w, p, cs) && i <= |items|
    ensures InsertAt(items, i, w) == items[..i] + [w] + items[i..] && FitItems(InsertAt(items, i, w), p, cs)
    ensures |ItemsMeaning(items, cs)| == |items|
    ensures Meaning(Array(InsertAt(items, i, w)), cs) == VArray(InsertAt(ItemsMeaning(items, cs), i, Meaning(w, cs)))
  {
    hide Meaning, Fit;
    var more := InsertAt(items, i, w);
    assert forall j :: 0 <= j < |more| ==> more[j] == if j < i then items[j] else if j == i then w else items[j - 1];
    ArrayMeaning(more, cs);
    InsertedMeaning(items, i, w, cs);
  }

  lemma InsertedMeaning(items: seq<Json>, i: nat, w: Json, cs: bool)
    requires i <= |items|
    ensures |ItemsMeaning(items, cs)| == |items|
    ensures ItemsMeaning(InsertAt(items, i, w), cs) == InsertAt(ItemsMeaning(items, cs), i, Meaning(w, cs))
  {
    hide Meaning;
  }

  lemma AddedMember(ms: seq<Member>, key: string, w: Json, p: string -> bool, cs: bool)
    requires FitMembers(ms, p, cs) && Fit(w, p, cs) && p(key)
    ensures Adds(Object(ms), key, w, AddChild(Object(ms), [], key, w, cs), p, cs)
  {
    hide FitMembers, MembersMeaning, SetMember, Norm, AddChild;
    AddToObject(ms, key, w, cs);
    FitSet(ms, key, w, p, cs);
  }

  /** What add does to an object. */
  lemma AddToObject(ms: seq<Member>, key: string, w: Json, cs: bool)
    ensures AddChild(Object(ms), [], key, w, cs) == Outcome(0, Object(SetMember(ms, key, w, cs)))
  {
    hide SetMember;
  }

  lemma AddedNowhere(t: Json, key: string, w: Json, p: string -> bool, cs: bool)
    requires !t.Array? && !t.Object?
    ensures Adds(t, key, w, AddChild(t, [], key, w, cs), p, cs)
  {
  }

  lemma AddedHere(t: Json, key: string, w: Json, p: string -> bool, cs: bool)
    requires KeyClass(p, cs) && Fit(t, p, cs) && Fit(w, p, cs) && p(key)
    ensures Adds(t, key, w, AddChild(t, [], key, w, cs), p, cs)
  {
    hide KeyClass, DecodeIndex, Position, Adds, AddChild, FitMembers;
    match t
    case Array(items) =>
      IndexOfKey(key, p, cs);
      AddedItem(items, key, w, p, cs);
    case Object(ms) => AddedMember(ms, key, w, p, cs);
    case _ => AddedNowhere(t, key, w, p, cs);
  }

  lemma FitSet(ms: seq<Member>, key: string, w: Json, p: string -> bool, cs: bool)
    requires FitMembers(ms, p, cs) && Fit(w, p, cs) && p(key)
    ensures FitMembers(SetMember(ms, key, w, cs), p, cs)
    ensures MembersMeaning(SetMember(ms, key, w, cs), cs) == MembersMeaning(ms, cs)[Norm(key, cs) := Meaning(w, cs)]
  {
    hide MembersMeaning, Norm;
    var i := FirstMatch(ms, key, cs);
    MeaningLookup(ms, cs, key);
    var rs := if i < |ms| then RemoveIndex(ms, i) else ms;
    if i < |ms| {
      FitRemoved(ms, i, p, cs);
      MeaningRemove(ms, i, cs);
    }
    FitAppended(rs, Member(key, w), p, cs);
    MeaningAppend(rs, Member(key, w), cs);
    assert MembersMeaning(rs, cs)[Norm(key, cs) := Meaning(w, cs)]
        == MembersMeaning(ms, cs)[Norm(key, cs) := Meaning(w, cs)];
  }

  lemma AddBelow(t: Json, loc: Location, key: string, w: Json, cs: bool)
    requires Exists(t, loc)
    ensures var r := AddChild(At(t, loc), [], key, w, cs);
            AddChild(t, loc, key, w, cs) == if r.status == 0 then Outcome(0, PutAt(t, loc, r.tree)) else Outcome(r.status, t)
  {
    hide DecodeIndex, SetMember;
  }

  /** The end of apply_patch adds the value where the path says, except in place of the whole document. */
  lemma AddMeaning(t: Json, path: seq<string>, w: Json, p: string -> bool, cs: bool)
    requires KeyClass(p, cs) && Fit(t, p, cs) && Fit(w, p, cs) && InClass(path, p)
    ensures var r := AddPath(t, PathText(path), w, cs);
            && Fit(r.tree, p, cs)
            && (r.status == 0 <==> path != [] && With(Meaning(t, cs), path, Meaning(w, cs), cs).Some?)
            && (if r.status == 0 then With(Meaning(t, cs), path, Meaning(w, cs), cs) == Some(Meaning(r.tree, cs))
                else r.tree == t)
  {
    hide Meaning, Fit, DecodeToken, KeyClass, AddChild, Get, AddHere, PathText, Put, Follow;
    PathIsEmpty(path);
    if path != [] {
      LastPart(path, p, cs);
      FollowGets(t, Parent(path), cs);
      var parent := Follow(t, PathText(Parent(path)), cs);
      if parent.Some? {
        AddedBelow(t, path, parent.value, w, p, cs);
      }
    }
  }

  lemma AddedBelow(t: Json, path: seq<string>, loc: Location, w: Json, p: string -> bool, cs: bool)
    requires KeyClass(p, cs) && Fit(t, p, cs) && Fit(w, p, cs) && InClass(path, p) && path != []
    requires Follow(t, PathText(Parent(path)), cs) == Some(loc)
    requires Get(Meaning(t, cs), Parent(path), cs) == Some(Meaning(At(t, loc), cs))
    ensures var r := AddChild(t, loc, Last(path), w, cs);
            && Fit(r.tree, p, cs)
            && (r.status == 0 <==> With(Meaning(t, cs), path, Meaning(w, cs), cs).Some?)
            && (if r.status == 0 then With(Meaning(t, cs), path, Meaning(w, cs), cs) == Some(Meaning(r.tree, cs))
                else r.tree == t)
  {
    hide Meaning, Fit, KeyClass, AddChild, Get, AddHere, PathText, Put, Follow;
    FitAt(t, loc, p, cs);
    AddedHere(At(t, loc), Last(path), w, p, cs);
    AddBelow(t, loc, Last(path), w, cs);
    var r := AddChild(At(t, loc), [], Last(path), w, cs);
    if r.status == 0 {
      PutMeaning(t, Parent(path), loc, r.tree, p, cs);
    }
  }

  lemma PathIsEmpty(path: seq<string>)
    ensures PathText(path) == "" <==> path == []
  {
  }

  // ---- one operation ----

  /** What the operation copies is no deeper than the copy reaches. */
  predicate Shallow(root: Json, e: Edit, cs: bool) {
    match e
    case AddAt(_, value) => Height(value) <= CIRCULAR_LIMIT
    case ReplaceAt(_, value) => Height(value) <= CIRCULAR_LIMIT
    case CopyTo(from, _) =>
      (match Follow(root, PathText(from), cs)
       case None => true
       case Some(loc) => Height(At(root, loc)) <= CIRCULAR_LIMIT)
    case _ => true
  }

  predicate FitEdit(e: Edit, p: string -> bool, cs: bool) {
    && InClass(e.path, p)
    && (e.AddAt? || e.ReplaceAt? || e.TestAt? ==> Fit(e.value, p, cs))
    && (e.MoveTo? || e.CopyTo? ==> InClass(e.from, p))
  }

  /** What stays when an operation fails: a move or a replacement has taken its child out already. */
  predicate LeftBehind(root: Json, e: Edit, tree: Json, cs: bool) {
    || tree == root
    || (e.MoveTo? && Without(Meaning(root, cs), e.from, cs) == Some(Meaning(tree, cs)))
    || (e.ReplaceAt? && Without(Meaning(root, cs), e.path, cs) == Some(Meaning(tree, cs)))
  }

  /** The outcome is the one of the standard. */
  predicate Follows(root: Json, e: Edit, r: Outcome, cs: bool) {
    && (r.status == 0 <==>
          && Edited(Meaning(root, cs), e, cs).Some?
          && Shallow(root, e, cs)
          && (e.MoveTo? || e.CopyTo? ==> e.path != []))
    && (if r.status == 0 then Edited(Meaning(root, cs), e, cs) == Some(Meaning(r.tree, cs))
        else LeftBehind(root, e, r.tree, cs))
  }

  lemma NameOf(patch: Json, e: Edit, cs: bool)
    requires GetObjectItem(patch, "op", cs) == Some(String(OperationName(e)))
    ensures DecodePatchOperation(patch, cs) == match e
                                               case AddAt(_, _) => Add
                                               case RemoveAt(_) => Remove
                                               case ReplaceAt(_, _) => Replace
                                               case MoveTo(_, _) => Move
                                               case CopyTo(_, _) => Copy
                                               case TestAt(_, _) => Test
  {
    assert |"add"| == 3 && |"remove"| == 6 && |"replace"| == 7 && |"move"| == 4 && |"copy"| == 4 && |"test"| == 4;
    assert "move"[0] == 'm' && "copy"[0] == 'c' && "test"[0] == 't';
  }

  /** The steps of apply_patch, operation by operation. */
  function Applied(root: Json, e: Edit, cs: bool): Outcome {
    var path := PathText(e.path);
    match e
    case AddAt(_, value) =>
      if Duplicate(value).None? then Outcome(8, root)
      else if path == "" then Outcome(0, Duplicate(value).value)
      else AddPath(root, path, Duplicate(value).value, cs)
    case RemoveAt(_) =>
      if path == "" then Outcome(0, Invalid)
      else
        (match DetachPath(root, path, cs)
         case NotFound => Outcome(13, root)
         case Found(rest, _) => Outcome(0, rest))
    case ReplaceAt(_, value) =>
      if path == "" then
        if Duplicate(value).None? then Outcome(8, root) else Outcome(0, Duplicate(value).value)
      else
        (match DetachPath(root, path, cs)
         case NotFound => Outcome(13, root)
         case Found(rest, _) =>
           if Duplicate(value).None? then Outcome(8, rest) else AddPath(rest, path, Duplicate(value).value, cs))
    case MoveTo(from, _) =>
      (match DetachPath(root, PathText(from), cs)
       case NotFound => Outcome(5, root)
       case Found(rest, item) => AddPath(rest, path, item, cs))
    case CopyTo(from, _) =>
      (match Follow(root, PathText(from), cs)
       case None => Outcome(5, root)
       case Some(loc) =>
         if Duplicate(At(root, loc)).None? then Outcome(6, root)
         else AddPath(root, path, Duplicate(At(root, loc)).value, cs))
    case TestAt(_, value) =>
      (match Follow(root, path, cs)
       case None => Outcome(1, root)
       case Some(loc) => Outcome(if SortedEqual(At(root, loc), value, cs) then 0 else 1, root))
  }

  lemma AppliedExact(root: Json, patch: Json, e: Edit, cs: bool)
    requires Asks(patch, e, cs)
    ensures ApplyPatch(root, patch, cs) == Applied(root, e, cs)
  {
    hide Asks, ApplyPatch, Applied;
    if e.MoveTo? || e.CopyTo? {
      AppliedFrom(root, patch, e, cs);
    } else {
      AppliedValue(root, patch, e, cs);
    }
  }

  lemma AppliedFrom(root: Json, patch: Json, e: Edit, cs: bool)
    requires Asks(patch, e, cs) && (e.MoveTo? || e.CopyTo?)
    ensures ApplyPatch(root, patch, cs) == Applied(root, e, cs)
  {
    hide GetObjectItem, DecodePatchOperation, DetachPath, AddPath, Follow, Duplicate, SortedEqual, PathText;
    NameOf(patch, e, cs);
  }

  lemma AppliedValue(root: Json, patch: Json, e: Edit, cs: bool)
    requires Asks(patch, e, cs) && !(e.MoveTo? || e.CopyTo?)
    ensures ApplyPatch(root, patch, cs) == Applied(root, e, cs)
  {
    hide GetObjectItem, DecodePatchOperation, DetachPath, AddPath, Follow, Duplicate, SortedEqual, PathText;
    NameOf(patch, e, cs);
  }

  lemma WithRoot(v: Value, w: Value, cs: bool)
    ensures With(v, [], w, cs) == Some(w) && Without(v, [], cs) == None
  {
  }

  lemma AddFollows(root: Json, e: Edit, p: string -> bool, cs: bool)
    requires KeyClass(p, cs) && Fit(root, p, cs) && FitEdit(e, p, cs) && e.AddAt?
    ensures var r := Applied(root, e, cs); Follows(root, e, r, cs) && Fit(r.tree, p, cs)
  {
    hide Meaning, KeyClass, Fit, DetachPath, AddPath, Follow, With, Without, Get, Duplicate, PathText, Height;
    PathIsEmpty(e.path);
    DuplicateExact(e.value);
    AddMeaning(root, e.path, e.value, p, cs);
    WithRoot(Meaning(root, cs), Meaning(e.value, cs), cs);
  }

  lemma RemoveFollows(root: Json, e: Edit, p: string -> bool, cs: bool)
    requires KeyClass(p, cs) && Fit(root, p, cs) && FitEdit(e, p, cs) && e.RemoveAt?
    ensures var r := Applied(root, e, cs); Follows(root, e, r, cs) && Fit(r.tree, p, cs)
  {
    hide KeyClass, DetachPath, AddPath, Follow, With, Without, Get, Duplicate, PathText;
    PathIsEmpty(e.path);
    DetachMeaning(root, e.path, p, cs);
  }

  lemma ReplaceFollows(root: Json, e: Edit, p: string -> bool, cs: bool)
    requires KeyClass(p, cs) && Fit(root, p, cs) && FitEdit(e, p, cs) && e.ReplaceAt?
    ensures var r := Applied(root, e, cs); Follows(root, e, r, cs) && Fit(r.tree, p, cs)
  {
    hide Meaning, KeyClass, Fit, DetachPath, AddPath, Follow, With, Without, Get, Duplicate, PathText, Height;
    PathIsEmpty(e.path);
    DuplicateExact(e.value);
    DetachMeaning(root, e.path, p, cs);
    var d := DetachPath(root, PathText(e.path), cs);
    if d.Found? {
      AddMeaning(d.rest, e.path, e.value, p, cs);
    }
  }

  lemma MoveFollows(root: Json, e: Edit, p: string -> bool, cs: bool)
    requires KeyClass(p, cs) && Fit(root, p, cs) && FitEdit(e, p, cs) && e.MoveTo?
    ensures var r := Applied(root, e, cs); Follows(root, e, r, cs) && Fit(r.tree, p, cs)
  {
    hide Meaning, KeyClass, Fit, DetachPath, AddPath, Follow, With, Without, Get, PathText;
    DetachMeaning(root, e.from, p, cs);
    var d := DetachPath(root, PathText(e.from), cs);
    if d.Found? {
      AddMeaning(d.rest, e.path, d.item, p, cs);
    }
  }

  lemma CopyFollows(root: Json, e: Edit, p: string -> bool, cs: bool)
    requires KeyClass(p, cs) && Fit(root, p, cs) && FitEdit(e, p, cs) && e.CopyTo?
    ensures var r := Applied(root, e, cs); Follows(root, e, r, cs) && Fit(r.tree, p, cs)
  {
    hide Meaning, KeyClass, Fit, DetachPath, AddPath, With, Without, Get, Follow, Duplicate, PathText, Height;
    FollowGets(root, e.from, cs);
    var found := Follow(root, PathText(e.from), cs);
    if found.Some? {
      var item := At(root, found.value);
      FitAt(root, found.value, p, cs);
      DuplicateExact(item);
      AddMeaning(root, e.path, item, p, cs);
    }
  }

  lemma TestFollows(root: Json, e: Edit, p: string -> bool, cs: bool)
    requires Fit(root, p, cs) && FitEdit(e, p, cs) && e.TestAt?
    ensures var r := Applied(root, e, cs); Follows(root, e, r, cs) && r.tree == root
  {
    hide Meaning, Fit, DetachPath, AddPath, With, Without, Get, SortedEqual, Follow, Duplicate, PathText, Blanked;
    FollowGets(root, e.path, cs);
    FitIsComparable(e.value, p, cs);
    var found := Follow(root, PathText(e.path), cs);
    if found.Some? {
      var item := At(root, found.value);
      FitAt(root, found.value, p, cs);
      FitIsComparable(item, p, cs);
      SortedEqualExact(item, e.value, cs);
    }
  }

  /** Every operation succeeds exactly when RFC 6902 says so, except that nothing can be copied or
      moved in place of the whole document and nothing deeper than the circular limit is copied; and
      then the document means what the standard says. */
  lemma OperationFollowsRfc(root: Json, patch: Json, e: Edit, p: string -> bool, cs: bool)
    requires KeyClass(p, cs) && Fit(root, p, cs) && FitEdit(e, p, cs) && Asks(patch, e, cs)
    ensures var r := ApplyPatch(root, patch, cs); Follows(root, e, r, cs) && Fit(r.tree, p, cs)
  {
    hide ApplyPatch, Applied, Follows, Fit, Asks, KeyClass, FitEdit;
    AppliedExact(root, patch, e, cs);
    match e
    case AddAt(_, _) => AddFollows(root, e, p, cs);
    case RemoveAt(_) => RemoveFollows(root, e, p, cs);
    case ReplaceAt(_, _) => ReplaceFollows(root, e, p, cs);
    case MoveTo(_, _) => MoveFollows(root, e, p, cs);
    case CopyTo(_, _) => CopyFollows(root, e, p, cs);
    case TestAt(_, _) => TestFollows(root, e, p, cs);
  }

  /** Nothing is copied or moved in place of the whole document, even where the standard would. */
  lemma WholeDocumentRefused(root: Json, patch: Json, e: Edit, p: string -> bool, cs: bool)
    requires KeyClass(p, cs) && Fit(root, p, cs) && FitEdit(e, p, cs) && Asks(patch, e, cs)
    requires (e.CopyTo? || e.MoveTo?) && e.path == []
    ensures ApplyPatch(root, patch, cs).status != 0
    ensures e.CopyTo? && Get(Meaning(root, cs), e.from, cs).Some? ==>
              Edited(Meaning(root, cs), e, cs) == Get(Meaning(root, cs), e.from, cs)
  {
    hide ApplyPatch, Asks, KeyClass, Fit, Meaning, Get, FitEdit;
    OperationFollowsRfc(root, patch, e, p, cs);
    if e.CopyTo? && Get(Meaning(root, cs), e.from, cs).Some? {
      WithRoot(Meaning(root, cs), Get(Meaning(root, cs), e.from, cs).value, cs);
    }
  }

  predicate OnlyA(k: string) {
    k == "a"
  }

  lemma OnlyAQualifies(cs: bool)
    ensures KeyClass(OnlyA, cs) && InClass(["a"], OnlyA) && InClass([], OnlyA)
    ensures Fit(Object([Member("a", Number(1))]), OnlyA, cs)
  {
    TrailingTildes("a", 1);
  }

  lemma MeaningOfA(cs: bool)
    ensures Meaning(Object([Member("a", Number(1))]), cs) == VObject(map[Norm("a", cs) := VNumber(1)])
    ensures Get(VObject(map[Norm("a", cs) := VNumber(1)]), ["a"], cs) == Some(VNumber(1))
  {
    var ms := [Member("a", Number(1))];
    assert ms[1..] == [] && MembersMeaning([], cs) == map[];
    assert MembersMeaning(ms, cs) == map[Norm("a", cs) := VNumber(1)];
    OneToken(map[Norm("a", cs) := VNumber(1)], "a", "a", cs);
  }

  lemma CopyToRootFails(cs: bool)
    ensures var root := Object([Member("a", Number(1))]);
            var patch := Object([Member("op", String("copy")), Member("from", String("/a")), Member("path", String(""))]);
            && ApplyPatch(root, patch, cs).status != 0
            && Edited(Meaning(root, cs), CopyTo(["a"], []), cs) == Some(VNumber(1))
  {
    hide ApplyPatch, Asks, KeyClass, Fit, Meaning, Get, InClass, Edited;
    var root := Object([Member("a", Number(1))]);
    var patch := Object([Member("op", String("copy")), Member("from", String("/a")), Member("path", String(""))]);
    OnlyAQualifies(cs);
    MeaningOfA(cs);
    CopyIsAsked(cs);
    WholeDocumentRefused(root, patch, CopyTo(["a"], []), OnlyA, cs);
  }

  lemma CopyIsAsked(cs: bool)
    ensures var patch := Object([Member("op", String("copy")), Member("from", String("/a")), Member("path", String(""))]);
            Asks(patch, CopyTo(["a"], []), cs)
  {
    hide EncodeKey, PathText, FirstMatch;
    var ms := [Member("op", String("copy")), Member("from", String("/a")), Member("path", String(""))];
    CopyFields(ms, cs);
    PathOfA();
  }

  lemma PathOfA()
    ensures PathText(["a"]) == "/a" && PathText([]) == ""
  {
    hide EncodeKey;
    PlainEncode("a");
    assert ["a"][1..] == [];
    assert PathText(["a"]) == "/" + (EncodeKey("a") + PathText([]));
  }

  lemma CopyFields(ms: seq<Member>, cs: bool)
    requires |ms| == 3 && ms[0].key == "op" && ms[1].key == "from" && ms[2].key == "path"
    ensures FirstMatch(ms, "op", cs) == 0 && FirstMatch(ms, "from", cs) == 1 && FirstMatch(ms, "path", cs) == 2
  {
    assert |Norm("op", cs)| == 2 && |Norm("from", cs)| == 4 && |Norm("path", cs)| == 4;
    assert Norm("from", cs)[0] == 'f' && Norm("path", cs)[0] == 'p';
  }

  /** What fails for want of a node has its own status and changes nothing. */
  lemma FailureStatus(root: Json, patch: Json, e: Edit, p: string -> bool, cs: bool)
    requires KeyClass(p, cs) && Fit(root, p, cs) && FitEdit(e, p, cs) && Asks(patch, e, cs)
    ensures e.TestAt? && Get(Meaning(root, cs), e.path, cs) != Some(Meaning(e.value, cs)) ==>
              ApplyPatch(root, patch, cs) == Outcome(1, root)
    ensures (e.CopyTo? && Get(Meaning(root, cs), e.from, cs) == None)
            || (e.MoveTo? && Without(Meaning(root, cs), e.from, cs) == None) ==>
              ApplyPatch(root, patch, cs) == Outcome(5, root)
    ensures (e.RemoveAt? || e.ReplaceAt?) && e.path != [] && Without(Meaning(root, cs), e.path, cs) == None ==>
              ApplyPatch(root, patch, cs) == Outcome(13, root)
  {
    hide ApplyPatch, Asks, KeyClass, Fit, Meaning, Get, Without, DetachPath, AddPath, Follow, Duplicate, SortedEqual, PathText;
    AppliedExact(root, patch, e, cs);
    PathIsEmpty(e.path);
    match e
    case TestAt(path, value) => TestFollows(root, e, p, cs);
    case MoveTo(from, _) => DetachMeaning(root, from, p, cs);
    case CopyTo(from, _) => FollowGets(root, from, cs);
    case RemoveAt(path) => DetachMeaning(root, path, p, cs);
    case ReplaceAt(path, _) => DetachMeaning(root, path, p, cs);
    case _ =>
  }

  /** What was put is found there. */
  lemma {:induction false} PutGet(v: Value, path: seq<string>, w: Value, cs: bool)
    requires Get(v, path, cs).Some?
    ensures Get(Put(v, path, w, cs), path, cs) == Some(w)
    decreases |path|
  {
    hide Position;
    if path != [] {
      match v
      case VObject(m) => PutGet(m[Norm(path[0], cs)], path[1..], w, cs);
      case VArray(items) => PutGet(items[Position(path[0]).value], path[1..], w, cs);
    }
  }

  /** Moving a member of an object: the old key is gone unless it is the new one, the new key holds the
      old value, every other key what it held. */
  lemma MovedMember(root: Json, patch: Json, a: string, b: string, p: string -> bool, cs: bool)
    requires KeyClass(p, cs) && Fit(root, p, cs) && root.Object? && p(a) && p(b)
    requires Asks(patch, MoveTo([a], [b]), cs)
    ensures var r := ApplyPatch(root, patch, cs);
            var m, x, y := MembersMeaning(root.members, cs), Norm(a, cs), Norm(b, cs);
            && (r.status == 0 <==> x in m)
            && (r.status == 0 ==>
                  && r.tree.Object?
                  && (forall k :: k in MembersMeaning(r.tree.members, cs) <==> k == y || (k in m && k != x))
                  && (forall k :: k in MembersMeaning(r.tree.members, cs) ==>
                        MembersMeaning(r.tree.members, cs)[k] == if k == y then m[x] else m[k]))
            && (r.status != 0 ==> r.tree == root)
  {
    hide ApplyPatch, Asks, KeyClass, Fit, MembersMeaning, Position;
    var m, x := MembersMeaning(root.members, cs), Norm(a, cs);
    OperationFollowsRfc(root, patch, MoveTo([a], [b]), p, cs);
    OneToken(m, a, b, cs);
    assert Meaning(root, cs) == VObject(m);
  }

  lemma OneToken(m: map<string, Value>, a: string, b: string, cs: bool)
    ensures Get(VObject(m), [a], cs) == if Norm(a, cs) in m then Some(m[Norm(a, cs)]) else None
    ensures Without(VObject(m), [a], cs) == if Norm(a, cs) in m then Some(VObject(m - {Norm(a, cs)})) else None
    ensures forall w: Value, n: map<string, Value> :: With(VObject(n), [b], w, cs) == Some(VObject(n[Norm(b, cs) := w]))
  {
    assert [a][1..] == [] && Parent([a]) == [] && Parent([b]) == [];
  }

  // ---- a list of operations ----

  /** Operations are applied one after the other: either all succeed, or the first that does not ends
      the run, with its status and what it has left. */
  lemma {:induction false} FirstFailure(root: Json, patches: seq<Json>, cs: bool) returns (trees: seq<Json>)
    ensures 0 < |trees| <= |patches| + 1 && trees[0] == root
    ensures forall i :: 0 <= i < |trees| - 1 ==> ApplyPatch(trees[i], patches[i], cs) == Outcome(0, trees[i + 1])
    ensures var n := |trees| - 1;
            if n == |patches| then ApplyAll(root, patches, cs) == Outcome(0, trees[n])
            else ApplyAll(root, patches, cs) == ApplyPatch(trees[n], patches[n], cs) && ApplyPatch(trees[n], patches[n], cs).status != 0
    decreases |patches|
  {
    hide ApplyPatch;
    trees := [root];
    if patches != [] {
      var r := ApplyPatch(root, patches[0], cs);
      if r.status == 0 {
        var rest := FirstFailure(r.tree, patches[1..], cs);
        trees := [root] + rest;
      }
    }
  }

  /** A member of the patch that is a string. */
  predicate HasText(patch: Json, name: string, cs: bool) {
    GetObjectItem(patch, name, cs).Some? && GetObjectItem(patch, name, cs).value.String?
  }

  predicate Known(op: Json) {
    op in [String("add"), String("remove"), String("replace"), String("move"), String("copy"), String("test")]
  }

  lemma UnknownOperation(patch: Json, cs: bool)
    requires GetObjectItem(patch, "op", cs).Some? ==> !Known(GetObjectItem(patch, "op", cs).value)
    ensures DecodePatchOperation(patch, cs) == Unknown
  {
    hide GetObjectItem;
    var op := GetObjectItem(patch, "op", cs);
    if op.Some? && op.value.String? {
      var known := [String("add"), String("remove"), String("replace"), String("move"), String("copy"), String("test")];
      assert known[0] != op.value && known[1] != op.value && known[2] != op.value;
      assert known[3] != op.value && known[4] != op.value && known[5] != op.value;
    }
  }

  /** A patch that names no place or no operation is refused and changes nothing. */
  lemma Malformed(root: Json, patch: Json, cs: bool)
    ensures !HasText(patch, "path", cs) ==> ApplyPatch(root, patch, cs) == Outcome(2, root)
    ensures HasText(patch, "path", cs)
            && (GetObjectItem(patch, "op", cs).Some? ==> !Known(GetObjectItem(patch, "op", cs).value)) ==>
              ApplyPatch(root, patch, cs) == Outcome(3, root)
  {
    hide GetObjectItem, DecodePatchOperation, DetachPath, AddPath, Follow, Duplicate, SortedEqual, Known;
    if GetObjectItem(patch, "op", cs).Some? ==> !Known(GetObjectItem(patch, "op", cs).value) {
      UnknownOperation(patch, cs);
    }
  }
}
