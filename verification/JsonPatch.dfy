/** JSON Patch (RFC 6902): create_patches, compose_patch and apply_patch. A patch is itself a
    tree, as in the library. */
module JsonPatch {
  import opened CString
  import opened ListSort
  import opened Sequences
  import opened JsonTree
  import opened JsonText
  import opened JsonCompare
  import opened JsonPointer

  // ---- generating ----

  function Type(t: Json): nat {
    match t
    case Invalid => 0
    case Null => 1
    case False => 2
    case True => 3
    case Number(_) => 4
    case String(_) => 5
    case Raw(_) => 6
    case Array(_) => 7
    case Object(_) => 8
  }

  function FullPath(path: string, suffix: Option<string>): string {
    match suffix
    case None => path
    case Some(s) => path + "/" + EncodeKey(s)
  }

  /** compose_patch; a value that cannot be duplicated is left out of the patch. */
  function ComposePatch(operation: string, path: string, suffix: Option<string>, value: Option<Json>): Json {
    var head := [Member("op", String(operation)), Member("path", String(FullPath(path, suffix)))];
    if value.Some? && Duplicate(value.value).Some?
    then Object(head + [Member("value", Duplicate(value.value).value)])
    else Object(head)
  }

  function CompareKeys(a: Member, b: Member, cs: bool): int {
    Compare(a, b, MemberKey, cs)
  }

  /** What create_patches appends for a pair of trees. */
  function Patches(path: string, from: Json, to: Json, cs: bool): seq<Json>
    decreases Height(from), 1, 0
  {
    if Type(from) != Type(to) then [ComposePatch("replace", path, None, Some(to))]
    else
      match from
      case Number(n) =>
        if n != to.valueint || !CompareDouble(n as real, to.valueint as real)
        then [ComposePatch("replace", path, None, Some(to))] else []
      case String(s) =>
        if s != to.valuestring then [ComposePatch("replace", path, None, Some(to))] else []
      case Array(xs) => ItemPatches(path, xs, to.items, 0, cs)
      case Object(ms) =>
        SortKeepsHeight(ms, cs);
        MemberPatches(path, SortMembers(ms, cs), SortMembers(to.members, cs), cs)
      case _ => []
  }

  /** Common positions first, then removals at one fixed index, then additions at the end. */
  function ItemPatches(path: string, xs: seq<Json>, ys: seq<Json>, index: nat, cs: bool): seq<Json>
    decreases ItemsHeight(xs), 0, |xs| + |ys|
  {
    if xs != [] && ys != [] then
      Patches(path + "/" + Decimal(index), xs[0], ys[0], cs) + ItemPatches(path, xs[1..], ys[1..], index + 1, cs)
    else if xs != [] then
      [ComposePatch("remove", path, Some(Decimal(index)), None)] + ItemPatches(path, xs[1..], ys, index, cs)
    else if ys != [] then
      [ComposePatch("add", path, Some("-"), Some(ys[0]))] + ItemPatches(path, xs, ys[1..], index + 1, cs)
    else []
  }

  function MemberPatches(path: string, fs: seq<Member>, ts: seq<Member>, cs: bool): seq<Json>
    decreases MembersHeight(fs), 0, |fs| + |ts|
  {
    if fs == [] && ts == [] then []
    else if fs != [] && (ts == [] || CompareKeys(fs[0], ts[0], cs) < 0) then
      [ComposePatch("remove", path, Some(fs[0].key), None)] + MemberPatches(path, fs[1..], ts, cs)
    else if fs == [] || CompareKeys(fs[0], ts[0], cs) > 0 then
      [ComposePatch("add", path, Some(ts[0].key), Some(ts[0].value))] + MemberPatches(path, fs, ts[1..], cs)
    else
      Patches(path + "/" + EncodeKey(fs[0].key), fs[0].value, ts[0].value, cs)
      + MemberPatches(path, fs[1..], ts[1..], cs)
  }

  // ---- editing ----

  function PutAt(t: Json, loc: Location, v: Json): Json
    requires Exists(t, loc)
  {
    if loc == [] then v
    else
      var child := PutAt(Children(t)[loc[0]], loc[1..], v);
      if t.Array? then Array(t.items[loc[0] := child])
      else Object(t.members[loc[0] := Member(t.members[loc[0]].key, child)])
  }

  /** strrchr: the position of the last '/', if there is one. */
  function LastSlash(path: string): (r: Option<nat>)
    ensures r.Some? ==> r.value < |path| && path[r.value] == '/' && '/' !in path[r.value + 1..]
    ensures r.None? ==> '/' !in path
  {
    if path == "" then None
    else if path[|path| - 1] == '/' then Some(|path| - 1)
    else
      var r := LastSlash(path[..|path| - 1]);
      assert path == path[..|path| - 1] + [path[|path| - 1]];
      assert r.Some? ==> path[r.value + 1..] == path[..|path| - 1][r.value + 1..] + [path[|path| - 1]];
      r
  }

  datatype Detached = NotFound | Found(rest: Json, item: Json)

  /** detach_path: the parent is looked up as asked, a member of it always ignoring case. */
  function DetachPath(root: Json, path: string, cs: bool): Detached {
    match LastSlash(path)
    case None => NotFound
    case Some(slash) =>
      match Follow(root, path[..slash], cs)
      case None => NotFound
      case Some(loc) => DetachChild(root, loc, DecodeToken(path[slash + 1..]))
  }

  function DetachChild(root: Json, loc: Location, child: string): Detached
    requires Exists(root, loc)
  {
    match At(root, loc)
    case Array(items) =>
      (match DecodeIndex(child)
       case None => NotFound
       case Some(i) =>
         if i < |items| then Found(PutAt(root, loc, Array(RemoveIndex(items, i))), items[i]) else NotFound)
    case Object(ms) =>
      var i := FirstMatch(ms, child, false);
      if i < |ms| then Found(PutAt(root, loc, Object(RemoveIndex(ms, i))), ms[i].value) else NotFound
    case _ => NotFound
  }

  datatype Outcome = Outcome(status: int, tree: Json)

  /** The last part of apply_patch: add a value at a path. */
  function AddPath(root: Json, path: string, value: Json, cs: bool): Outcome {
    match LastSlash(path)
    case None => Outcome(9, root)
    case Some(slash) =>
      match Follow(root, path[..slash], cs)
      case None => Outcome(9, root)
      case Some(loc) => AddChild(root, loc, DecodeToken(path[slash + 1..]), value, cs)
  }

  function AddChild(root: Json, loc: Location, child: string, value: Json, cs: bool): Outcome
    requires Exists(root, loc)
  {
    match At(root, loc)
    case Array(items) =>
      if child == "-" then Outcome(0, PutAt(root, loc, Array(items + [value])))
      else
        (match DecodeIndex(child)
         case None => Outcome(11, root)
         case Some(i) =>
           if i > |items| then Outcome(10, root)
           else Outcome(0, PutAt(root, loc, Array(items[..i] + [value] + items[i..]))))
    case Object(ms) => Outcome(0, PutAt(root, loc, Object(SetMember(ms, child, value, cs))))
    case _ => Outcome(9, root)
  }

  /** Delete the member of that name, if any, and append the new one. */
  function SetMember(ms: seq<Member>, name: string, value: Json, cs: bool): seq<Member> {
    var i := FirstMatch(ms, name, cs);
    (if i < |ms| then RemoveIndex(ms, i) else ms) + [Member(name, value)]
  }

  datatype Operation = Unknown | Add | Remove | Replace | Move | Copy | Test

  function DecodePatchOperation(patch: Json, cs: bool): Operation {
    match GetObjectItem(patch, "op", cs)
    case Some(String(s)) =>
      if s == "add" then Add
      else if s == "remove" then Remove
      else if s == "replace" then Replace
      else if s == "move" then Move
      else if s == "copy" then Copy
      else if s == "test" then Test
      else Unknown
    case _ => Unknown
  }

  /** The valuestring field of a node. */
  function ValueString(t: Json): Option<string> {
    match t
    case String(s) => Some(s)
    case Raw(s) => Some(s)
    case _ => None
  }

  /** apply_patch. The tree is what the patched tree looks like on return, also on failure. */
  function ApplyPatch(root: Json, patch: Json, cs: bool): Outcome {
    match GetObjectItem(patch, "path", cs)
    case Some(String(path)) =>
      (match DecodePatchOperation(patch, cs)
       case Unknown => Outcome(3, root)
       case Test =>
         (match (Follow(root, path, cs), GetObjectItem(patch, "value", cs))
          case (Some(loc), Some(value)) => Outcome(if SortedEqual(At(root, loc), value, cs) then 0 else 1, root)
          case _ => Outcome(1, root))
       case Remove =>
         if path == "" then Outcome(0, Invalid)
         else
           (match DetachPath(root, path, cs)
            case NotFound => Outcome(13, root)
            case Found(rest, _) => Outcome(0, rest))
       case Replace =>
         if path == "" then ReplaceRoot(root, patch, cs)
         else
           (match DetachPath(root, path, cs)
            case NotFound => Outcome(13, root)
            case Found(rest, _) => AddValue(rest, path, patch, cs))
       case Add => if path == "" then ReplaceRoot(root, patch, cs) else AddValue(root, path, patch, cs)
       case Move =>
         (match GetObjectItem(patch, "from", cs)
          case None => Outcome(4, root)
          case Some(from) =>
            match ValueString(from)
            case None => Outcome(5, root)
            case Some(source) =>
              match DetachPath(root, source, cs)
              case NotFound => Outcome(5, root)
              case Found(rest, item) => AddPath(rest, path, item, cs))
       case Copy =>
         (match GetObjectItem(patch, "from", cs)
          case None => Outcome(4, root)
          case Some(from) =>
            match ValueString(from)
            case None => Outcome(5, root)
            case Some(source) =>
              match Follow(root, source, cs)
              case None => Outcome(5, root)
              case Some(loc) =>
                match Duplicate(At(root, loc))
                case None => Outcome(6, root)
                case Some(item) => AddPath(root, path, item, cs)))
    case _ => Outcome(2, root)
  }

  function ReplaceRoot(root: Json, patch: Json, cs: bool): Outcome {
    match GetObjectItem(patch, "value", cs)
    case None => Outcome(7, root)
    case Some(value) =>
      match Duplicate(value)
      case None => Outcome(8, root)
      case Some(copy) => Outcome(0, copy)
  }

  function AddValue(root: Json, path: string, patch: Json, cs: bool): Outcome {
    match GetObjectItem(patch, "value", cs)
    case None => Outcome(7, root)
    case Some(value) =>
      match Duplicate(value)
      case None => Outcome(8, root)
      case Some(copy) => AddPath(root, path, copy, cs)
  }

  /** cJSONUtils_ApplyPatches: in order, up to the first failure. */
  function ApplyAll(root: Json, patches: seq<Json>, cs: bool): Outcome
    decreases |patches|
  {
    if patches == [] then Outcome(0, root)
    else
      var r := ApplyPatch(root, patches[0], cs);
      if r.status != 0 then r else ApplyAll(r.tree, patches[1..], cs)
  }

  function ApplyPatches(root: Json, patches: Json, cs: bool): Outcome {
    if patches.Array? then ApplyAll(root, patches.items, cs) else Outcome(1, root)
  }

  // ---- the loops ----

  method ApplyPatchesLoop(root: Json, patches: Json, cs: bool) returns (r: Outcome)
    ensures r == ApplyPatches(root, patches, cs)
  {
    if !patches.Array? {
      return Outcome(1, root);
    }
    var tree, i := root, 0;
    while i < |patches.items|
      invariant i <= |patches.items|
      invariant ApplyAll(root, patches.items, cs) == ApplyAll(tree, patches.items[i..], cs)
    {
      assert patches.items[i..][1..] == patches.items[i + 1..];
      r := ApplyPatch(tree, patches.items[i], cs);
      if r.status != 0 {
        return r;
      }
      tree, i := r.tree, i + 1;
    }
    return Outcome(0, tree);
  }

  method CreatePatches(path: string, from: Json, to: Json, cs: bool) returns (patches: seq<Json>)
    ensures patches == Patches(path, from, to, cs)
    decreases Height(from), 1
  {
    if Type(from) != Type(to) {
      return [ComposePatch("replace", path, None, Some(to))];
    }
    match from
    case Number(n) =>
      patches := if n != to.valueint || !CompareDouble(n as real, to.valueint as real)
      then [ComposePatch("replace", path, None, Some(to))] else [];
    case String(s) =>
      patches := if s != to.valuestring then [ComposePatch("replace", path, None, Some(to))] else [];
    case Array(xs) =>
      patches := CreateItemPatches(path, xs, to.items, cs);
    case Object(ms) =>
      SortKeepsHeight(ms, cs);
      patches := CreateMemberPatches(path, SortMembers(ms, cs), SortMembers(to.members, cs), cs);
    case _ =>
      patches := [];
  }

  /** One step of the member walk, with the positions as the loop keeps them. */
  lemma MemberStep(path: string, fs: seq<Member>, ts: seq<Member>, i: nat, j: nat, cs: bool)
    requires i <= |fs| && j <= |ts|
    ensures i < |fs| && (j == |ts| || CompareKeys(fs[i], ts[j], cs) < 0) ==>
              MemberPatches(path, fs[i..], ts[j..], cs) ==
              [ComposePatch("remove", path, Some(fs[i].key), None)] + MemberPatches(path, fs[i + 1..], ts[j..], cs)
    ensures j < |ts| && (i == |fs| || CompareKeys(fs[i], ts[j], cs) > 0) ==>
              MemberPatches(path, fs[i..], ts[j..], cs) ==
              [ComposePatch("add", path, Some(ts[j].key), Some(ts[j].value))]
              + MemberPatches(path, fs[i..], ts[j + 1..], cs)
    ensures i < |fs| && j < |ts| && CompareKeys(fs[i], ts[j], cs) == 0 ==>
              MemberPatches(path, fs[i..], ts[j..], cs) ==
              Patches(path + "/" + EncodeKey(fs[i].key), fs[i].value, ts[j].value, cs)
              + MemberPatches(path, fs[i + 1..], ts[j + 1..], cs)
    ensures i == |fs| && j == |ts| ==> MemberPatches(path, fs[i..], ts[j..], cs) == []
  {
    assert i < |fs| ==> fs[i..][1..] == fs[i + 1..];
    assert j < |ts| ==> ts[j..][1..] == ts[j + 1..];
  }

  lemma ItemStep(path: string, xs: seq<Json>, ys: seq<Json>, i: nat, j: nat, index: nat, cs: bool)
    requires i <= |xs| && j <= |ys|
    ensures i < |xs| && j < |ys| ==>
              ItemPatches(path, xs[i..], ys[j..], index, cs) ==
              Patches(path + "/" + Decimal(index), xs[i], ys[j], cs)
              + ItemPatches(path, xs[i + 1..], ys[j + 1..], index + 1, cs)
    ensures i < |xs| && j == |ys| ==>
              ItemPatches(path, xs[i..], ys[j..], index, cs) ==
              [ComposePatch("remove", path, Some(Decimal(index)), None)]
              + ItemPatches(path, xs[i + 1..], ys[j..], index, cs)
    ensures i == |xs| && j < |ys| ==>
              ItemPatches(path, xs[i..], ys[j..], index, cs) ==
              [ComposePatch("add", path, Some("-"), Some(ys[j]))]
              + ItemPatches(path, xs[i..], ys[j + 1..], index + 1, cs)
    ensures i == |xs| && j == |ys| ==> ItemPatches(path, xs[i..], ys[j..], index, cs) == []
  {
    assert i < |xs| ==> xs[i..][1..] == xs[i + 1..];
    assert j < |ys| ==> ys[j..][1..] == ys[j + 1..];
  }

  method CreateItemPatches(path: string, xs: seq<Json>, ys: seq<Json>, cs: bool) returns (patches: seq<Json>)
    ensures patches == ItemPatches(path, xs, ys, 0, cs)
    decreases ItemsHeight(xs), 0
  {
    hide ItemPatches, Patches;
    patches := [];
    var i := 0;
    ghost var all := ItemPatches(path, xs[0..], ys[0..], 0, cs);
    while i < |xs| && i < |ys|
      invariant i <= |xs| && i <= |ys|
      invariant all == patches + ItemPatches(path, xs[i..], ys[i..], i, cs)
      decreases |xs| - i
    {
      ItemHeight(xs, i);
      ItemStep(path, xs, ys, i, i, i, cs);
      var more := CreatePatches(path + "/" + Decimal(i), xs[i], ys[i], cs);
      Regroup(patches, more, ItemPatches(path, xs[i + 1..], ys[i + 1..], i + 1, cs));
      patches, i := patches + more, i + 1;
    }
    var removals := RemoveLeftovers(path, xs[i..], i, cs);
    var additions := AddNewItems(path, ys[i..], i, cs);
    TailSplit(path, xs, ys, i, cs);
    Regroup(patches, removals, additions);
    patches := patches + removals + additions;
    assert xs[0..] == xs && ys[0..] == ys;
  }

  lemma TailSplit(path: string, xs: seq<Json>, ys: seq<Json>, i: nat, cs: bool)
    requires i <= |xs| && i <= |ys| && (i == |xs| || i == |ys|)
    ensures ItemPatches(path, xs[i..], ys[i..], i, cs) ==
            ItemPatches(path, xs[i..], [], i, cs) + ItemPatches(path, [], ys[i..], i, cs)
  {
    assert i == |xs| ==> xs[i..] == [];
    assert i == |ys| ==> ys[i..] == [];
    assert ItemPatches(path, [], [], i, cs) == [];
  }

  method RemoveLeftovers(path: string, xs: seq<Json>, index: nat, cs: bool) returns (patches: seq<Json>)
    ensures patches == ItemPatches(path, xs, [], index, cs)
  {
    hide ItemPatches, ComposePatch;
    patches := [];
    var i := 0;
    assert xs[0..] == xs;
    while i < |xs|
      invariant i <= |xs|
      invariant ItemPatches(path, xs, [], index, cs) == patches + ItemPatches(path, xs[i..], [], index, cs)
    {
      ItemStep(path, xs, [], i, 0, index, cs);
      Regroup(patches, [ComposePatch("remove", path, Some(Decimal(index)), None)], ItemPatches(path, xs[i + 1..], [], index, cs));
      patches := patches + [ComposePatch("remove", path, Some(Decimal(index)), None)];
      i := i + 1;
    }
    ItemStep(path, xs, [], i, 0, index, cs);
    assert patches + [] == patches;
  }

  method AddNewItems(path: string, ys: seq<Json>, start: nat, cs: bool) returns (patches: seq<Json>)
    ensures patches == ItemPatches(path, [], ys, start, cs)
  {
    hide ItemPatches, ComposePatch;
    patches := [];
    var j, index := 0, start;
    assert ys[0..] == ys;
    while j < |ys|
      invariant j <= |ys|
      invariant ItemPatches(path, [], ys, start, cs) == patches + ItemPatches(path, [], ys[j..], index, cs)
    {
      ItemStep(path, [], ys, 0, j, index, cs);
      Regroup(patches, [ComposePatch("add", path, Some("-"), Some(ys[j]))], ItemPatches(path, [], ys[j + 1..], index + 1, cs));
      patches := patches + [ComposePatch("add", path, Some("-"), Some(ys[j]))];
      j, index := j + 1, index + 1;
    }
    ItemStep(path, [], ys, 0, j, index, cs);
    assert patches + [] == patches;
  }

  method CreateMemberPatches(path: string, fs: seq<Member>, ts: seq<Member>, cs: bool) returns (patches: seq<Json>)
    ensures patches == MemberPatches(path, fs, ts, cs)
    decreases MembersHeight(fs), 0
  {
    hide MemberPatches, Patches, ComposePatch, EncodeKey;
    patches := [];
    var i, j := 0, 0;
    ghost var all := MemberPatches(path, fs[0..], ts[0..], cs);
    while i < |fs| || j < |ts|
      invariant i <= |fs| && j <= |ts|
      invariant all == patches + MemberPatches(path, fs[i..], ts[j..], cs)
      decreases |fs| - i + |ts| - j
    {
      MemberStep(path, fs, ts, i, j, cs);
      var diff;
      if i == |fs| {
        diff := 1;
      } else if j == |ts| {
        diff := -1;
      } else {
        diff := CompareStrings(fs[i].key, ts[j].key, cs);
        StrcmpZero(Norm(fs[i].key, cs), Norm(ts[j].key, cs));
      }
      var more;
      if diff == 0 {
        MemberHeight(fs, i);
        more := CreatePatches(path + "/" + EncodeKey(fs[i].key), fs[i].value, ts[j].value, cs);
        i, j := i + 1, j + 1;
      } else if diff < 0 {
        more := [ComposePatch("remove", path, Some(fs[i].key), None)];
        i := i + 1;
      } else {
        more := [ComposePatch("add", path, Some(ts[j].key), Some(ts[j].value))];
        j := j + 1;
      }
      Regroup(patches, more, MemberPatches(path, fs[i..], ts[j..], cs));
      patches := patches + more;
    }
    MemberStep(path, fs, ts, i, j, cs);
    assert fs[0..] == fs && ts[0..] == ts;
  }
}
