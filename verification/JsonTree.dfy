/** cJSON trees as values, and what a tree means once member order is forgotten. */
module JsonTree {
  import opened CString
  import opened ListSort

  datatype Json =
    | Invalid
    | Null
    | False
    | True
    | Number(valueint: int)
    | String(valuestring: string)
    | Raw(raw: string)
    | Array(items: seq<Json>)
    | Object(members: seq<Member>)

  datatype Member = Member(key: string, value: Json)

  function MemberKey(m: Member): string {
    m.key
  }

  const SIZE_MODULUS := 0x1_0000_0000
  const CIRCULAR_LIMIT := 10000
  const INT_MAX := 0x7fff_ffff
  const INT_MIN := -0x8000_0000

  /** The value a tree stands for: an object is a finite map, an array a sequence. */
  datatype Value =
    | VInvalid
    | VNull
    | VFalse
    | VTrue
    | VNumber(n: int)
    | VString(s: string)
    | VRaw(raw: string)
    | VArray(items: seq<Value>)
    | VObject(members: map<string, Value>)

  function Meaning(t: Json, cs: bool): Value {
    match t
    case Invalid => VInvalid
    case Null => VNull
    case False => VFalse
    case True => VTrue
    case Number(n) => VNumber(n)
    case String(s) => VString(s)
    case Raw(s) => VRaw(s)
    case Array(items) => VArray(seq(|items|, i requires 0 <= i < |items| => Meaning(items[i], cs)))
    case Object(ms) => VObject(MembersMeaning(ms, cs))
  }

  /** As a lookup sees them: of members with the same key, the first one counts. */
  function MembersMeaning(ms: seq<Member>, cs: bool): map<string, Value> {
    if ms == [] then map[]
    else MembersMeaning(ms[1..], cs)[Norm(ms[0].key, cs) := Meaning(ms[0].value, cs)]
  }

  function ItemsMeaning(items: seq<Json>, cs: bool): seq<Value> {
    seq(|items|, i requires 0 <= i < |items| => Meaning(items[i], cs))
  }

  predicate Distinct(ms: seq<Member>, cs: bool) {
    DistinctKeys(ms, MemberKey, cs)
  }

  /** The trees the promises are about: no Raw or Invalid node, no object with a repeated key,
      numbers in the int range, and no list longer than size_t can count. */
  predicate WellFormed(t: Json, cs: bool) {
    match t
    case Invalid => false
    case Raw(_) => false
    case Number(n) => INT_MIN <= n <= INT_MAX
    case Array(items) =>
      && |items| < SIZE_MODULUS
      && forall i :: 0 <= i < |items| ==> WellFormed(items[i], cs)
    case Object(ms) =>
      && Distinct(ms, cs)
      && forall i :: 0 <= i < |ms| ==> WellFormed(ms[i].value, cs)
    case _ => true
  }

  predicate WellFormedMembers(ms: seq<Member>, cs: bool) {
    Distinct(ms, cs) && forall i :: 0 <= i < |ms| ==> WellFormed(ms[i].value, cs)
  }

  /** Every key of the tree satisfies p. */
  predicate AllKeys(t: Json, p: string -> bool) {
    match t
    case Array(items) => forall i :: 0 <= i < |items| ==> AllKeys(items[i], p)
    case Object(ms) => forall i :: 0 <= i < |ms| ==> p(ms[i].key) && AllKeys(ms[i].value, p)
    case _ => true
  }

  predicate AllMemberKeys(ms: seq<Member>, p: string -> bool) {
    forall i :: 0 <= i < |ms| ==> p(ms[i].key) && AllKeys(ms[i].value, p)
  }

  predicate Good(t: Json, p: string -> bool, cs: bool) {
    WellFormed(t, cs) && AllKeys(t, p)
  }

  predicate GoodMembers(ms: seq<Member>, p: string -> bool, cs: bool) {
    WellFormedMembers(ms, cs) && AllMemberKeys(ms, p)
  }

  predicate GoodItems(items: seq<Json>, p: string -> bool, cs: bool) {
    forall i :: 0 <= i < |items| ==> Good(items[i], p, cs)
  }

  // ---- member lookup ----

  /** get_object_item: the index of the first member with that key, or the member count. */
  function FirstMatch(ms: seq<Member>, name: string, cs: bool): (i: nat)
    ensures i <= |ms|
    ensures i < |ms| ==> Norm(ms[i].key, cs) == Norm(name, cs)
    ensures forall j :: 0 <= j < i ==> Norm(ms[j].key, cs) != Norm(name, cs)
  {
    if ms == [] then 0
    else if Norm(ms[0].key, cs) == Norm(name, cs) then 0
    else
      var r := FirstMatch(ms[1..], name, cs);
      assert forall j :: 0 < j < r + 1 ==> ms[j] == ms[1..][j - 1];
      r + 1
  }

  function GetObjectItem(t: Json, name: string, cs: bool): Option<Json> {
    if t.Object? && FirstMatch(t.members, name, cs) < |t.members|
    then Some(t.members[FirstMatch(t.members, name, cs)].value)
    else None
  }

  method GetObjectItemLoop(ms: seq<Member>, name: string, cs: bool) returns (i: nat)
    ensures i == FirstMatch(ms, name, cs)
  {
    i := 0;
    while i < |ms|
      invariant i <= |ms|
      invariant forall j :: 0 <= j < i ==> Norm(ms[j].key, cs) != Norm(name, cs)
    {
      var r := CompareStrings(name, ms[i].key, cs);
      if r == 0 {
        break;
      }
      i := i + 1;
    }
  }

  /** For keys that folding tells apart, a lookup finds the same member in either mode. */
  lemma SameMatch(ms: seq<Member>, key: string, p: string -> bool)
    requires FoldInjective(p) && p(key) && forall i :: 0 <= i < |ms| ==> p(ms[i].key)
    ensures FirstMatch(ms, key, false) == FirstMatch(ms, key, true)
  {
    var i, j := FirstMatch(ms, key, false), FirstMatch(ms, key, true);
    if i < |ms| {
      assert p(ms[i].key) && Fold(ms[i].key) == Fold(key);
    }
  }

  // ---- the map of a member list ----

  lemma {:induction false} MeaningKeys(ms: seq<Member>, cs: bool, k: string)
    ensures k in MembersMeaning(ms, cs) <==> exists i :: 0 <= i < |ms| && Norm(ms[i].key, cs) == k
  {
    if ms != [] {
      MeaningKeys(ms[1..], cs, k);
      if k in MembersMeaning(ms[1..], cs) {
        var i :| 0 <= i < |ms[1..]| && Norm(ms[1..][i].key, cs) == k;
        assert ms[i + 1] == ms[1..][i];
      }
      if i :| 0 <= i < |ms| && Norm(ms[i].key, cs) == k {
        if i > 0 {
          assert ms[1..][i - 1] == ms[i];
        }
      }
    }
  }

  /** Looking a key up in the map is looking it up in the list. */
  lemma {:induction false} MeaningLookup(ms: seq<Member>, cs: bool, name: string)
    ensures FirstMatch(ms, name, cs) < |ms| <==> Norm(name, cs) in MembersMeaning(ms, cs)
    ensures FirstMatch(ms, name, cs) < |ms| ==>
              MembersMeaning(ms, cs)[Norm(name, cs)] == Meaning(ms[FirstMatch(ms, name, cs)].value, cs)
  {
    if ms != [] {
      MeaningLookup(ms[1..], cs, name);
    }
  }

  lemma {:induction false} MeaningAt(ms: seq<Member>, cs: bool, i: nat)
    requires i < |ms| && Distinct(ms, cs)
    ensures Norm(ms[i].key, cs) in MembersMeaning(ms, cs)
    ensures MembersMeaning(ms, cs)[Norm(ms[i].key, cs)] == Meaning(ms[i].value, cs)
    ensures FirstMatch(ms, ms[i].key, cs) == i
  {
    assert forall j :: 0 <= j < i ==> Norm(MemberKey(ms[j]), cs) != Norm(MemberKey(ms[i]), cs);
    assert FirstMatch(ms, ms[i].key, cs) == i;
    MeaningLookup(ms, cs, ms[i].key);
  }

  /** A map that agrees with the list at every key is the list's map. */
  lemma MeaningUnique(ms: seq<Member>, cs: bool, m: map<string, Value>)
    requires Distinct(ms, cs)
    requires forall i :: 0 <= i < |ms| ==> Norm(ms[i].key, cs) in m && m[Norm(ms[i].key, cs)] == Meaning(ms[i].value, cs)
    requires forall k :: k in m ==> exists i :: 0 <= i < |ms| && Norm(ms[i].key, cs) == k
    ensures MembersMeaning(ms, cs) == m
  {
    forall k
      ensures k in MembersMeaning(ms, cs) <==> k in m
      ensures k in m ==> MembersMeaning(ms, cs)[k] == m[k]
    {
      MeaningKeys(ms, cs, k);
      if k in m {
        var i :| 0 <= i < |ms| && Norm(ms[i].key, cs) == k;
        MeaningAt(ms, cs, i);
      }
    }
  }

  /** Reordering members changes nothing. */
  lemma MeaningPermuted(ms: seq<Member>, ns: seq<Member>, cs: bool)
    requires multiset(ms) == multiset(ns)
    requires Distinct(ms, cs) && Distinct(ns, cs)
    ensures MembersMeaning(ms, cs) == MembersMeaning(ns, cs)
  {
    forall i | 0 <= i < |ms|
      ensures Norm(ms[i].key, cs) in MembersMeaning(ns, cs)
      ensures MembersMeaning(ns, cs)[Norm(ms[i].key, cs)] == Meaning(ms[i].value, cs)
    {
      assert ms[i] in multiset(ns);
      var j :| 0 <= j < |ns| && ns[j] == ms[i];
      MeaningAt(ns, cs, j);
    }
    forall k | k in MembersMeaning(ns, cs)
      ensures exists i :: 0 <= i < |ms| && Norm(ms[i].key, cs) == k
    {
      MeaningKeys(ns, cs, k);
      var j :| 0 <= j < |ns| && Norm(ns[j].key, cs) == k;
      assert ns[j] in multiset(ms);
      var i :| 0 <= i < |ms| && ms[i] == ns[j];
    }
    MeaningUnique(ms, cs, MembersMeaning(ns, cs));
  }

  // ---- sort_object ----

  function SortMembers(ms: seq<Member>, cs: bool): (r: seq<Member>)
    ensures |r| == |ms|
  {
    Sort(ms, MemberKey, cs)
  }

  /** Sorting an object keeps its meaning, its members and their distinctness. */
  lemma SortMembersKeeps(ms: seq<Member>, cs: bool)
    requires Distinct(ms, cs)
    ensures MembersMeaning(SortMembers(ms, cs), cs) == MembersMeaning(ms, cs)
    ensures Distinct(SortMembers(ms, cs), cs)
    ensures StrictlyAscending(SortMembers(ms, cs), MemberKey, cs)
    ensures forall i :: 0 <= i < |ms| ==> SortMembers(ms, cs)[i] in ms
  {
    SortDistinct(ms, MemberKey, cs);
    SortCorrect(ms, MemberKey, cs);
    MeaningPermuted(ms, SortMembers(ms, cs), cs);
    forall i | 0 <= i < |ms|
      ensures SortMembers(ms, cs)[i] in ms
    {
      assert SortMembers(ms, cs)[i] in multiset(ms);
    }
  }

  // ---- cJSON_Duplicate ----

  function Height(t: Json): nat {
    match t
    case Array(items) => ItemsHeight(items)
    case Object(ms) => MembersHeight(ms)
    case _ => 0
  }

  function ItemsHeight(items: seq<Json>): nat {
    if items == [] then 0 else Max(Height(items[0]) + 1, ItemsHeight(items[1..]))
  }

  function MembersHeight(ms: seq<Member>): nat {
    if ms == [] then 0 else Max(Height(ms[0].value) + 1, MembersHeight(ms[1..]))
  }

  function Max(a: nat, b: nat): nat {
    if a < b then b else a
  }

  lemma {:induction false} ItemHeight(items: seq<Json>, i: nat)
    requires i < |items|
    ensures Height(items[i]) < ItemsHeight(items)
  {
    if i > 0 {
      ItemHeight(items[1..], i - 1);
    }
  }

  lemma {:induction false} MemberHeight(ms: seq<Member>, i: nat)
    requires i < |ms|
    ensures Height(ms[i].value) < MembersHeight(ms)
  {
    if i > 0 {
      MemberHeight(ms[1..], i - 1);
    }
  }

  /** cJSON_Duplicate_rec: a child below depth CIRCULAR_LIMIT makes the copy fail. */
  function DuplicateRec(t: Json, depth: nat): Option<Json> {
    match t
    case Array(items) =>
      (match DuplicateItems(items, depth)
       case None => None
       case Some(copy) => Some(Array(copy)))
    case Object(ms) =>
      (match DuplicateMembers(ms, depth)
       case None => None
       case Some(copy) => Some(Object(copy)))
    case _ => Some(t)
  }

  function DuplicateItems(items: seq<Json>, depth: nat): Option<seq<Json>> {
    if items == [] then Some([])
    else if depth >= CIRCULAR_LIMIT then None
    else
      match (DuplicateRec(items[0], depth + 1), DuplicateItems(items[1..], depth))
      case (Some(x), Some(rest)) => Some([x] + rest)
      case _ => None
  }

  function DuplicateMembers(ms: seq<Member>, depth: nat): Option<seq<Member>> {
    if ms == [] then Some([])
    else if depth >= CIRCULAR_LIMIT then None
    else
      match (DuplicateRec(ms[0].value, depth + 1), DuplicateMembers(ms[1..], depth))
      case (Some(x), Some(rest)) => Some([Member(ms[0].key, x)] + rest)
      case _ => None
  }

  function Duplicate(t: Json): Option<Json> {
    DuplicateRec(t, 0)
  }

  /** The copy equals the original, and is refused exactly when the tree is too high. */
  lemma {:induction false} DuplicateRecExact(t: Json, depth: nat)
    ensures DuplicateRec(t, depth) == if Height(t) == 0 || depth + Height(t) <= CIRCULAR_LIMIT then Some(t) else None
    decreases t, 1
  {
    match t
    case Array(items) => DuplicateItemsExact(items, depth);
    case Object(ms) => DuplicateMembersExact(ms, depth);
    case _ =>
  }

  lemma {:induction false} DuplicateItemsExact(items: seq<Json>, depth: nat)
    ensures DuplicateItems(items, depth) ==
            if ItemsHeight(items) == 0 || depth + ItemsHeight(items) <= CIRCULAR_LIMIT then Some(items) else None
    decreases items, 0
  {
    if items != [] {
      DuplicateRecExact(items[0], depth + 1);
      DuplicateItemsExact(items[1..], depth);
      assert items == [items[0]] + items[1..];
    }
  }

  lemma {:induction false} DuplicateMembersExact(ms: seq<Member>, depth: nat)
    ensures DuplicateMembers(ms, depth) ==
            if MembersHeight(ms) == 0 || depth + MembersHeight(ms) <= CIRCULAR_LIMIT then Some(ms) else None
    decreases ms, 0
  {
    if ms != [] {
      DuplicateRecExact(ms[0].value, depth + 1);
      DuplicateMembersExact(ms[1..], depth);
      assert ms == [Member(ms[0].key, ms[0].value)] + ms[1..];
    }
  }

  /** cJSON_Duplicate copies a tree exactly when no node lies deeper than CIRCULAR_LIMIT. */
  lemma DuplicateExact(t: Json)
    ensures Duplicate(t) == if Height(t) <= CIRCULAR_LIMIT then Some(t) else None
  {
    DuplicateRecExact(t, 0);
  }
}
