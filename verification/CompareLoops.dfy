/** compare_json and cJSON_Compare with their loops over two child lists. */
module CompareLoops {
  import opened CString
  import opened JsonTree
  import opened JsonCompare

  predicate SameType(a: Json, b: Json) {
    || (a.Invalid? && b.Invalid?) || (a.Null? && b.Null?) || (a.False? && b.False?) || (a.True? && b.True?)
    || (a.Number? && b.Number?) || (a.String? && b.String?) || (a.Raw? && b.Raw?)
    || (a.Array? && b.Array?) || (a.Object? && b.Object?)
  }

  lemma SortedItemsStep(xs: seq<Json>, ys: seq<Json>, i: nat, cs: bool)
    requires i < |xs| && i < |ys|
    ensures SortedEqualItems(xs[i..], ys[i..], cs) <==>
            SortedEqual(xs[i], ys[i], cs) && SortedEqualItems(xs[i + 1..], ys[i + 1..], cs)
  {
    assert xs[i..][1..] == xs[i + 1..] && ys[i..][1..] == ys[i + 1..];
  }

  lemma SortedMembersStep(ms: seq<Member>, ns: seq<Member>, i: nat, cs: bool)
    requires i < |ms| && i < |ns|
    ensures SortedEqualMembers(ms[i..], ns[i..], cs) <==>
            && Norm(ms[i].key, cs) == Norm(ns[i].key, cs) && SortedEqual(ms[i].value, ns[i].value, cs)
            && SortedEqualMembers(ms[i + 1..], ns[i + 1..], cs)
  {
    assert ms[i..][1..] == ms[i + 1..] && ns[i..][1..] == ns[i + 1..];
  }

  /** compare_json */
  method CompareJson(a: Json, b: Json, cs: bool) returns (r: bool)
    ensures r == SortedEqual(a, b, cs)
    decreases Height(a), 1
  {
    if !SameType(a, b) {
      return false;
    }
    match a {
      case Number(n) => r := n == b.valueint && CompareDouble(n as real, b.valueint as real);
      case String(s) => r := s == b.valuestring;
      case Array(xs) => r := CompareItems(xs, b.items, cs);
      case Object(ms) =>
        SortKeepsHeight(ms, cs);
        r := CompareMembers(SortMembers(ms, cs), SortMembers(b.members, cs), cs);
      case _ => r := true;
    }
  }

  method CompareItems(xs: seq<Json>, ys: seq<Json>, cs: bool) returns (r: bool)
    ensures r == SortedEqualItems(xs, ys, cs)
    decreases ItemsHeight(xs), 0
  {
    var i := 0;
    assert xs[0..] == xs && ys[0..] == ys;
    while i < |xs| && i < |ys|
      invariant i <= |xs| && i <= |ys|
      invariant SortedEqualItems(xs, ys, cs) == SortedEqualItems(xs[i..], ys[i..], cs)
    {
      ItemHeight(xs, i);
      SortedItemsStep(xs, ys, i, cs);
      var identical := CompareJson(xs[i], ys[i], cs);
      if !identical {
        return false;
      }
      i := i + 1;
    }
    r := i == |xs| && i == |ys|;
  }

  method CompareMembers(ms: seq<Member>, ns: seq<Member>, cs: bool) returns (r: bool)
    ensures r == SortedEqualMembers(ms, ns, cs)
    decreases MembersHeight(ms), 0
  {
    var i := 0;
    assert ms[0..] == ms && ns[0..] == ns;
    while i < |ms| && i < |ns|
      invariant i <= |ms| && i <= |ns|
      invariant SortedEqualMembers(ms, ns, cs) == SortedEqualMembers(ms[i..], ns[i..], cs)
    {
      MemberHeight(ms, i);
      SortedMembersStep(ms, ns, i, cs);
      var keys := CompareStrings(ms[i].key, ns[i].key, cs);
      if keys != 0 {
        return false;
      }
      var identical := CompareJson(ms[i].value, ns[i].value, cs);
      if !identical {
        return false;
      }
      i := i + 1;
    }
    r := i == |ms| && i == |ns|;
  }

  lemma LookupItemsStep(xs: seq<Json>, ys: seq<Json>, i: nat, cs: bool)
    requires i < |xs| && i < |ys|
    ensures LookupEqualItems(xs[i..], ys[i..], cs) <==>
            LookupEqual(xs[i], ys[i], cs) && LookupEqualItems(xs[i + 1..], ys[i + 1..], cs)
  {
    assert xs[i..][1..] == xs[i + 1..] && ys[i..][1..] == ys[i + 1..];
  }

  /** cJSON_Compare */
  method Compare(a: Json, b: Json, cs: bool) returns (r: bool)
    ensures r == LookupEqual(a, b, cs)
    decreases Height(a) + Height(b), 1
  {
    if !SameType(a, b) {
      return false;
    }
    match a {
      case Invalid => r := false;
      case Number(n) => r := CompareDouble(n as real, b.valueint as real);
      case String(s) => r := s == b.valuestring;
      case Raw(s) => r := s == b.raw;
      case Array(xs) => r := CompareElements(xs, b.items, cs);
      case Object(ms) =>
        r := EachFound(ms, b.members, cs);
        if r {
          r := EachFound(b.members, ms, cs);
        }
      case _ => r := true;
    }
  }

  method CompareElements(xs: seq<Json>, ys: seq<Json>, cs: bool) returns (r: bool)
    ensures r == LookupEqualItems(xs, ys, cs)
    decreases ItemsHeight(xs) + ItemsHeight(ys), 0
  {
    var i := 0;
    assert xs[0..] == xs && ys[0..] == ys;
    while i < |xs| && i < |ys|
      invariant i <= |xs| && i <= |ys|
      invariant LookupEqualItems(xs, ys, cs) == LookupEqualItems(xs[i..], ys[i..], cs)
    {
      ItemHeight(xs, i);
      ItemHeight(ys, i);
      LookupItemsStep(xs, ys, i, cs);
      var equal := Compare(xs[i], ys[i], cs);
      if !equal {
        return false;
      }
      i := i + 1;
    }
    r := i == |xs| && i == |ys|;
  }

  /** One of the two passes over an object: every member is looked up in the other. */
  method EachFound(ms: seq<Member>, ns: seq<Member>, cs: bool) returns (r: bool)
    ensures r == LookupIncluded(ms, ns, cs)
    decreases MembersHeight(ms) + MembersHeight(ns), 0
  {
    var i := 0;
    assert ms[0..] == ms;
    while i < |ms|
      invariant i <= |ms|
      invariant LookupIncluded(ms, ns, cs) == LookupIncluded(ms[i..], ns, cs)
    {
      MemberHeight(ms, i);
      assert ms[i..][1..] == ms[i + 1..];
      var j := GetObjectItemLoop(ns, ms[i].key, cs);
      if j == |ns| {
        return false;
      }
      MemberHeight(ns, j);
      var equal := Compare(ms[i].value, ns[j].value, cs);
      if !equal {
        return false;
      }
      i := i + 1;
    }
    r := true;
  }
}
