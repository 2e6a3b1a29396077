/** The two equalities: compare_json sorts both objects and walks them in step, cJSON_Compare
    looks every member up in the other object. */
module JsonCompare {
  import opened CString
  import opened ListSort
  import opened JsonTree

  // ---- compare_double ----

  const DBL_EPSILON: real := 1.0 / 4503599627370496.0

  function Fabs(x: real): real {
    if x < 0.0 then -x else x
  }

  predicate CompareDouble(a: real, b: real) {
    var maxVal := if Fabs(a) > Fabs(b) then Fabs(a) else Fabs(b);
    Fabs(a - b) <= maxVal * DBL_EPSILON
  }

  /** In the int range the tolerance is too small to confuse two integers. */
  lemma CompareDoubleOnInts(a: int, b: int)
    requires INT_MIN <= a <= INT_MAX && INT_MIN <= b <= INT_MAX
    ensures CompareDouble(a as real, b as real) <==> a == b
  {
    var x, y := a as real, b as real;
    var m := if Fabs(x) > Fabs(y) then Fabs(x) else Fabs(y);
    assert 0.0 <= m <= 2147483648.0;
    assert m * DBL_EPSILON <= 2147483648.0 * DBL_EPSILON < 1.0;
    if a < b {
      assert b - a >= 1 && (b - a) as real == y - x;
    } else if b < a {
      assert a - b >= 1 && (a - b) as real == x - y;
    }
  }

  // ---- what either equality can see ----

  /** The trees of this file: distinct keys and numbers in the int range, but any kind of node. */
  predicate Comparable(t: Json, cs: bool) {
    match t
    case Number(n) => INT_MIN <= n <= INT_MAX
    case Array(items) => ComparableItems(items, cs)
    case Object(ms) => ComparableMembers(ms, cs)
    case _ => true
  }

  predicate ComparableItems(items: seq<Json>, cs: bool) {
    forall i :: 0 <= i < |items| ==> Comparable(items[i], cs)
  }

  predicate ComparableMembers(ms: seq<Member>, cs: bool) {
    Distinct(ms, cs) && forall i :: 0 <= i < |ms| ==> Comparable(ms[i].value, cs)
  }

  /** The tree with the texts of its Raw nodes forgotten. */
  function Blanked(t: Json): Json {
    match t
    case Raw(_) => Raw("")
    case Array(items) => Array(BlankedItems(items))
    case Object(ms) => Object(BlankedMembers(ms))
    case _ => t
  }

  function BlankedItems(items: seq<Json>): seq<Json> {
    seq(|items|, i requires 0 <= i < |items| => Blanked(items[i]))
  }

  function BlankedMembers(ms: seq<Member>): seq<Member> {
    seq(|ms|, i requires 0 <= i < |ms| => Member(ms[i].key, Blanked(ms[i].value)))
  }

  predicate NoInvalid(t: Json) {
    match t
    case Invalid => false
    case Array(items) => forall i :: 0 <= i < |items| ==> NoInvalid(items[i])
    case Object(ms) => NoInvalidMembers(ms)
    case _ => true
  }

  predicate NoInvalidMembers(ms: seq<Member>) {
    forall i :: 0 <= i < |ms| ==> NoInvalid(ms[i].value)
  }

  lemma {:induction false} WellFormedIsPlain(t: Json, cs: bool)
    requires WellFormed(t, cs)
    ensures Comparable(t, cs) && Blanked(t) == t && NoInvalid(t)
  {
    match t
    case Array(items) =>
      forall i | 0 <= i < |items|
        ensures Comparable(items[i], cs) && Blanked(items[i]) == items[i] && NoInvalid(items[i])
      {
        WellFormedIsPlain(items[i], cs);
      }
      assert BlankedItems(items) == items;
    case Object(ms) =>
      forall i | 0 <= i < |ms|
        ensures Comparable(ms[i].value, cs) && Blanked(ms[i].value) == ms[i].value && NoInvalid(ms[i].value)
      {
        WellFormedIsPlain(ms[i].value, cs);
      }
      assert BlankedMembers(ms) == ms;
    case _ =>
  }

  lemma BlankedDistinct(ms: seq<Member>, cs: bool)
    requires Distinct(ms, cs)
    ensures Distinct(BlankedMembers(ms), cs)
  {
    hide Norm;
    var b := BlankedMembers(ms);
    forall i, j | 0 <= i < j < |b|
      ensures Norm(MemberKey(b[i]), cs) != Norm(MemberKey(b[j]), cs)
    {
      assert Norm(MemberKey(ms[i]), cs) != Norm(MemberKey(ms[j]), cs);
    }
  }

  lemma BlankedAscending(ms: seq<Member>, cs: bool)
    requires StrictlyAscending(ms, MemberKey, cs)
    ensures StrictlyAscending(BlankedMembers(ms), MemberKey, cs)
  {
    hide Norm, Strcmp;
    var b := BlankedMembers(ms);
    forall i | 0 <= i < |b| - 1
      ensures Compare(b[i], b[i + 1], MemberKey, cs) < 0
    {
      assert Compare(ms[i], ms[i + 1], MemberKey, cs) < 0;
    }
  }

  lemma BlankedTail(ms: seq<Member>)
    requires ms != []
    ensures BlankedMembers(ms)[1..] == BlankedMembers(ms[1..])
  {
  }

  lemma BlankedMember(m: Member, ms: seq<Member>)
    requires m in ms
    ensures Member(m.key, Blanked(m.value)) in BlankedMembers(ms)
  {
    var i :| 0 <= i < |ms| && ms[i] == m;
    assert BlankedMembers(ms)[i] == Member(m.key, Blanked(m.value));
  }

  lemma BlankedSort(ms: seq<Member>, cs: bool)
    requires Distinct(ms, cs)
    ensures MembersMeaning(BlankedMembers(SortMembers(ms, cs)), cs) == MembersMeaning(BlankedMembers(ms), cs)
  {
    hide MembersMeaning, SortMembers, BlankedMembers;
    SortMembersKeeps(ms, cs);
    SortPermutes(ms, cs);
    var s := SortMembers(ms, cs);
    BlankedDistinct(ms, cs);
    BlankedDistinct(s, cs);
    BlankedIncluded(s, ms, cs);
    BlankedIncluded(ms, s, cs);
    var m, n := MembersMeaning(BlankedMembers(s), cs), MembersMeaning(BlankedMembers(ms), cs);
    assert IncludedIn(m, n) && IncludedIn(n, m) ==> m == n;
  }

  lemma SortPermutes(ms: seq<Member>, cs: bool)
    ensures forall i :: 0 <= i < |ms| ==> ms[i] in SortMembers(ms, cs)
  {
    SortCorrect(ms, MemberKey, cs);
    forall i | 0 <= i < |ms|
      ensures ms[i] in SortMembers(ms, cs)
    {
      assert ms[i] in multiset(SortMembers(ms, cs));
    }
  }

  lemma BlankedIncluded(ms: seq<Member>, ns: seq<Member>, cs: bool)
    requires Distinct(BlankedMembers(ms), cs) && Distinct(BlankedMembers(ns), cs)
    requires forall i :: 0 <= i < |ms| ==> ms[i] in ns
    ensures IncludedIn(MembersMeaning(BlankedMembers(ms), cs), MembersMeaning(BlankedMembers(ns), cs))
  {
    hide MembersMeaning;
    forall i | 0 <= i < |ms|
      ensures BlankedMembers(ms)[i] in BlankedMembers(ns)
    {
      BlankedMember(ms[i], ns);
    }
    MeaningIncluded(BlankedMembers(ms), BlankedMembers(ns), cs);
  }

  predicate IncludedIn(m: map<string, Value>, n: map<string, Value>) {
    forall k :: k in m ==> k in n && m[k] == n[k]
  }

  lemma MeaningIncluded(ms: seq<Member>, ns: seq<Member>, cs: bool)
    requires Distinct(ms, cs) && Distinct(ns, cs)
    requires forall i :: 0 <= i < |ms| ==> ms[i] in ns
    ensures IncludedIn(MembersMeaning(ms, cs), MembersMeaning(ns, cs))
  {
    forall k | k in MembersMeaning(ms, cs)
      ensures k in MembersMeaning(ns, cs) && MembersMeaning(ms, cs)[k] == MembersMeaning(ns, cs)[k]
    {
      MeaningKeys(ms, cs, k);
      var i :| 0 <= i < |ms| && Norm(ms[i].key, cs) == k;
      MeaningAt(ms, cs, i);
      var j :| 0 <= j < |ns| && ns[j] == ms[i];
      MeaningAt(ns, cs, j);
    }
  }

  /** Equal trees stay equal when the Raw texts are forgotten, and have their Invalid nodes in common. */
  lemma {:induction false} MeaningDetermines(a: Json, b: Json, cs: bool)
    requires Comparable(a, cs) && Comparable(b, cs) && Meaning(a, cs) == Meaning(b, cs)
    ensures Meaning(Blanked(a), cs) == Meaning(Blanked(b), cs)
    ensures NoInvalid(a) ==> NoInvalid(b)
    decreases a
  {
    match (a, b)
    case (Array(xs), Array(ys)) =>
      assert ItemsMeaning(xs, cs) == ItemsMeaning(ys, cs);
      forall i | 0 <= i < |xs|
        ensures Meaning(Blanked(xs[i]), cs) == Meaning(Blanked(ys[i]), cs) && (NoInvalid(xs[i]) ==> NoInvalid(ys[i]))
      {
        assert ItemsMeaning(xs, cs)[i] == ItemsMeaning(ys, cs)[i];
        MeaningDetermines(xs[i], ys[i], cs);
      }
      assert |xs| == |ItemsMeaning(xs, cs)| == |ItemsMeaning(ys, cs)| == |ys|;
      assert ItemsMeaning(BlankedItems(xs), cs) == ItemsMeaning(BlankedItems(ys), cs);
    case (Object(ms), Object(ns)) =>
      MembersDetermine(ms, ns, cs);
    case _ =>
  }

  lemma {:induction false} MembersDetermine(ms: seq<Member>, ns: seq<Member>, cs: bool)
    requires ComparableMembers(ms, cs) && ComparableMembers(ns, cs)
    requires MembersMeaning(ms, cs) == MembersMeaning(ns, cs)
    ensures MembersMeaning(BlankedMembers(ms), cs) == MembersMeaning(BlankedMembers(ns), cs)
    ensures NoInvalidMembers(ms) ==> NoInvalidMembers(ns)
    decreases ms
  {
    hide NoInvalid, Meaning, MembersMeaning, Norm;
    forall j | 0 <= j < |ns|
      ensures BlankedIn(ns[j], ms, cs) && (NoInvalidMembers(ms) ==> NoInvalid(ns[j].value))
    {
      var i := Counterpart(ms, ns, j, cs);
      MeaningDetermines(ms[i].value, ns[j].value, cs);
    }
    SameBlanked(ms, ns, cs);
  }

  /** The member of the other object with the same key. */
  lemma Counterpart(ms: seq<Member>, ns: seq<Member>, j: nat, cs: bool) returns (i: nat)
    requires Distinct(ms, cs) && Distinct(ns, cs) && MembersMeaning(ms, cs) == MembersMeaning(ns, cs) && j < |ns|
    ensures i < |ms| && Norm(ms[i].key, cs) == Norm(ns[j].key, cs)
    ensures Meaning(ms[i].value, cs) == Meaning(ns[j].value, cs)
  {
    MeaningAt(ns, cs, j);
    MeaningKeys(ms, cs, Norm(ns[j].key, cs));
    i :| 0 <= i < |ms| && Norm(ms[i].key, cs) == Norm(ns[j].key, cs);
    MeaningAt(ms, cs, i);
  }

  predicate BlankedIn(n: Member, ms: seq<Member>, cs: bool) {
    exists i :: 0 <= i < |ms| && Norm(ms[i].key, cs) == Norm(n.key, cs)
                && Meaning(Blanked(ms[i].value), cs) == Meaning(Blanked(n.value), cs)
  }

  lemma SameBlanked(ms: seq<Member>, ns: seq<Member>, cs: bool)
    requires Distinct(ms, cs) && Distinct(ns, cs) && MembersMeaning(ms, cs) == MembersMeaning(ns, cs)
    requires forall j :: 0 <= j < |ns| ==> BlankedIn(ns[j], ms, cs)
    ensures MembersMeaning(BlankedMembers(ms), cs) == MembersMeaning(BlankedMembers(ns), cs)
  {
    hide MembersMeaning, Norm;
    var bm, bn := BlankedMembers(ms), BlankedMembers(ns);
    BlankedDistinct(ms, cs);
    BlankedDistinct(ns, cs);
    forall j | 0 <= j < |bn|
      ensures Norm(bn[j].key, cs) in MembersMeaning(bm, cs)
      ensures MembersMeaning(bm, cs)[Norm(bn[j].key, cs)] == Meaning(bn[j].value, cs)
    {
      assert BlankedIn(ns[j], ms, cs);
      var i :| 0 <= i < |ms| && Norm(ms[i].key, cs) == Norm(ns[j].key, cs)
               && Meaning(Blanked(ms[i].value), cs) == Meaning(Blanked(ns[j].value), cs);
      MeaningAt(bm, cs, i);
    }
    forall k | k in MembersMeaning(bm, cs)
      ensures exists j :: 0 <= j < |bn| && Norm(bn[j].key, cs) == k
    {
      MeaningKeys(bm, cs, k);
      var i :| 0 <= i < |bm| && Norm(bm[i].key, cs) == k;
      var j := Counterpart(ns, ms, i, cs);
      assert Norm(bn[j].key, cs) == k;
    }
    MeaningUnique(bn, cs, MembersMeaning(bm, cs));
  }

  // ---- compare_json ----

  lemma {:induction false} MembersHeightBound(ms: seq<Member>, h: nat)
    requires forall i :: 0 <= i < |ms| ==> Height(ms[i].value) < h
    ensures MembersHeight(ms) <= h
  {
    if ms != [] {
      assert forall i :: 0 <= i < |ms[1..]| ==> ms[1..][i] == ms[i + 1];
      MembersHeightBound(ms[1..], h);
    }
  }

  lemma SortKeepsHeight(ms: seq<Member>, cs: bool)
    ensures MembersHeight(SortMembers(ms, cs)) <= MembersHeight(ms)
  {
    SortCorrect(ms, MemberKey, cs);
    forall i | 0 <= i < |ms|
      ensures Height(SortMembers(ms, cs)[i].value) < MembersHeight(ms)
    {
      assert SortMembers(ms, cs)[i] in multiset(ms);
      var j :| 0 <= j < |ms| && ms[j] == SortMembers(ms, cs)[i];
      MemberHeight(ms, j);
    }
    MembersHeightBound(SortMembers(ms, cs), MembersHeight(ms));
  }

  predicate SortedEqual(a: Json, b: Json, cs: bool)
    decreases Height(a), 1, 0
  {
    match (a, b)
    case (Number(n), Number(m)) => n == m && CompareDouble(n as real, m as real)
    case (String(s), String(t)) => s == t
    case (Array(xs), Array(ys)) => SortedEqualItems(xs, ys, cs)
    case (Object(ms), Object(ns)) =>
      SortKeepsHeight(ms, cs);
      SortedEqualMembers(SortMembers(ms, cs), SortMembers(ns, cs), cs)
    case (Invalid, Invalid) => true
    case (Null, Null) => true
    case (False, False) => true
    case (True, True) => true
    case (Raw(_), Raw(_)) => true
    case _ => false
  }

  predicate SortedEqualItems(xs: seq<Json>, ys: seq<Json>, cs: bool)
    decreases ItemsHeight(xs), 0, |xs|
  {
    if xs == [] || ys == [] then xs == ys
    else SortedEqual(xs[0], ys[0], cs) && SortedEqualItems(xs[1..], ys[1..], cs)
  }

  predicate SortedEqualMembers(ms: seq<Member>, ns: seq<Member>, cs: bool)
    decreases MembersHeight(ms), 0, |ms|
  {
    if ms == [] || ns == [] then ms == ns
    else
      && Norm(ms[0].key, cs) == Norm(ns[0].key, cs)
      && SortedEqual(ms[0].value, ns[0].value, cs)
      && SortedEqualMembers(ms[1..], ns[1..], cs)
  }

  /** compare_json decides equality up to member order and the texts of Raw nodes. */
  lemma {:induction false} SortedEqualExact(a: Json, b: Json, cs: bool)
    requires Comparable(a, cs) && Comparable(b, cs)
    ensures SortedEqual(a, b, cs) <==> Meaning(Blanked(a), cs) == Meaning(Blanked(b), cs)
    decreases Height(a), 1, 0
  {
    match (a, b)
    case (Number(n), Number(m)) => CompareDoubleOnInts(n, m);
    case (Array(xs), Array(ys)) => SortedEqualItemsExact(xs, ys, cs);
    case (Object(ms), Object(ns)) =>
      SortKeepsHeight(ms, cs);
      SortedComparable(ms, cs);
      SortedComparable(ns, cs);
      BlankedSort(ms, cs);
      BlankedSort(ns, cs);
      SortedEqualMembersExact(SortMembers(ms, cs), SortMembers(ns, cs), cs);
    case _ =>
  }

  /** On well-formed trees it is equality up to member order. */
  lemma SortedEqualWellFormed(a: Json, b: Json, cs: bool)
    requires WellFormed(a, cs) && WellFormed(b, cs)
    ensures SortedEqual(a, b, cs) <==> Meaning(a, cs) == Meaning(b, cs)
  {
    WellFormedIsPlain(a, cs);
    WellFormedIsPlain(b, cs);
    SortedEqualExact(a, b, cs);
  }

  lemma SortedComparable(ms: seq<Member>, cs: bool)
    requires ComparableMembers(ms, cs)
    ensures ComparableMembers(SortMembers(ms, cs), cs) && StrictlyAscending(SortMembers(ms, cs), MemberKey, cs)
  {
    SortMembersKeeps(ms, cs);
    forall i | 0 <= i < |ms|
      ensures Comparable(SortMembers(ms, cs)[i].value, cs)
    {
      var j :| 0 <= j < |ms| && ms[j] == SortMembers(ms, cs)[i];
    }
  }

  lemma SortedMembersWellFormed(ms: seq<Member>, cs: bool)
    requires WellFormedMembers(ms, cs)
    ensures WellFormedMembers(SortMembers(ms, cs), cs)
  {
    SortMembersKeeps(ms, cs);
    forall i | 0 <= i < |ms|
      ensures WellFormed(SortMembers(ms, cs)[i].value, cs)
    {
      var j :| 0 <= j < |ms| && ms[j] == SortMembers(ms, cs)[i];
    }
  }

  lemma {:induction false} SortedEqualItemsExact(xs: seq<Json>, ys: seq<Json>, cs: bool)
    requires ComparableItems(xs, cs) && ComparableItems(ys, cs)
    ensures SortedEqualItems(xs, ys, cs) <==>
            ItemsMeaning(BlankedItems(xs), cs) == ItemsMeaning(BlankedItems(ys), cs)
    decreases ItemsHeight(xs), 0, |xs|
  {
    var us, vs := BlankedItems(xs), BlankedItems(ys);
    if xs == [] || ys == [] {
      assert |ItemsMeaning(us, cs)| == |xs| && |ItemsMeaning(vs, cs)| == |ys|;
    } else {
      SortedEqualExact(xs[0], ys[0], cs);
      SortedEqualItemsExact(xs[1..], ys[1..], cs);
      assert us[1..] == BlankedItems(xs[1..]) && vs[1..] == BlankedItems(ys[1..]);
      ItemsMeaningCons(us, vs, cs);
    }
  }

  lemma ItemsMeaningCons(xs: seq<Json>, ys: seq<Json>, cs: bool)
    requires xs != [] && ys != []
    ensures ItemsMeaning(xs, cs) == ItemsMeaning(ys, cs) <==>
            Meaning(xs[0], cs) == Meaning(ys[0], cs) && ItemsMeaning(xs[1..], cs) == ItemsMeaning(ys[1..], cs)
  {
    var v, s := Meaning(xs[0], cs), ItemsMeaning(xs[1..], cs);
    var w, t := Meaning(ys[0], cs), ItemsMeaning(ys[1..], cs);
    assert ItemsMeaning(xs, cs) == [v] + s;
    assert ItemsMeaning(ys, cs) == [w] + t;
    assert s == ([v] + s)[1..] && t == ([w] + t)[1..];
    assert v == ([v] + s)[0] && w == ([w] + t)[0];
  }

  /** In a strictly ascending list every key after the head is beyond it. */
  lemma HeadIsLeast(ms: seq<Member>, cs: bool)
    requires ms != [] && StrictlyAscending(ms, MemberKey, cs)
    ensures StrictlyAscending(ms[1..], MemberKey, cs)
    ensures forall k :: k in MembersMeaning(ms[1..], cs) ==> Before(Norm(ms[0].key, cs), k)
  {
    AscendingIsOrdered(ms, MemberKey, cs);
    forall k | k in MembersMeaning(ms[1..], cs)
      ensures Before(Norm(ms[0].key, cs), k)
    {
      MeaningKeys(ms[1..], cs, k);
      var i :| 0 <= i < |ms[1..]| && Norm(ms[1..][i].key, cs) == k;
      assert Compare(ms[0], ms[i + 1], MemberKey, cs) < 0;
    }
  }

  lemma {:induction false} SortedEqualMembersExact(ms: seq<Member>, ns: seq<Member>, cs: bool)
    requires ComparableMembers(ms, cs) && ComparableMembers(ns, cs)
    requires StrictlyAscending(ms, MemberKey, cs) && StrictlyAscending(ns, MemberKey, cs)
    ensures SortedEqualMembers(ms, ns, cs) <==>
            MembersMeaning(BlankedMembers(ms), cs) == MembersMeaning(BlankedMembers(ns), cs)
    decreases MembersHeight(ms), 0, |ms|
  {
    var bm, bn := BlankedMembers(ms), BlankedMembers(ns);
    BlankedAscending(ms, cs);
    BlankedAscending(ns, cs);
    if ms == [] {
      if ns != [] {
        assert Norm(bn[0].key, cs) in MembersMeaning(bn, cs);
      }
    } else if ns == [] {
      assert Norm(bm[0].key, cs) in MembersMeaning(bm, cs);
    } else {
      var k, l := Norm(bm[0].key, cs), Norm(bn[0].key, cs);
      BlankedTail(ms);
      BlankedTail(ns);
      HeadIsLeast(bm, cs);
      HeadIsLeast(bn, cs);
      Trichotomy(k, l);
      Trichotomy(k, k);
      Trichotomy(l, l);
      if k == l {
        HeadIsFresh(ms, cs);
        HeadIsFresh(ns, cs);
        SortedEqualExact(ms[0].value, ns[0].value, cs);
        HeadIsLeast(ms, cs);
        HeadIsLeast(ns, cs);
        SortedEqualMembersExact(ms[1..], ns[1..], cs);
        EqualWithoutKey(MembersMeaning(bm[1..], cs), MembersMeaning(bn[1..], cs), k,
                        Meaning(bm[0].value, cs), Meaning(bn[0].value, cs));
      } else if Before(k, l) {
        Trichotomy(l, k);
        assert k in MembersMeaning(bm, cs) && k !in MembersMeaning(bn, cs);
      } else {
        assert l in MembersMeaning(bn, cs) && l !in MembersMeaning(bm, cs);
      }
    }
  }

  lemma EqualWithoutKey<K, V>(m: map<K, V>, n: map<K, V>, k: K, v: V, w: V)
    requires k !in m && k !in n
    ensures m[k := v] == n[k := w] <==> v == w && m == n
  {
    if m[k := v] == n[k := w] {
      assert v == m[k := v][k] == n[k := w][k] == w;
      forall x
        ensures x in m <==> x in n
        ensures x in m ==> m[x] == n[x]
      {
        assert x in m[k := v] <==> x in n[k := w];
        if x in m {
          assert m[k := v][x] == n[k := w][x];
        }
      }
    }
  }

  // ---- cJSON_Compare ----

  predicate LookupEqual(a: Json, b: Json, cs: bool)
    decreases Height(a) + Height(b), 1, 0
  {
    match (a, b)
    case (Null, Null) => true
    case (False, False) => true
    case (True, True) => true
    case (Number(n), Number(m)) => CompareDouble(n as real, m as real)
    case (String(s), String(t)) => s == t
    case (Raw(s), Raw(t)) => s == t
    case (Array(xs), Array(ys)) => LookupEqualItems(xs, ys, cs)
    case (Object(ms), Object(ns)) => LookupIncluded(ms, ns, cs) && LookupIncluded(ns, ms, cs)
    case _ => false
  }

  predicate LookupEqualItems(xs: seq<Json>, ys: seq<Json>, cs: bool)
    decreases ItemsHeight(xs) + ItemsHeight(ys), 0, |xs|
  {
    if xs == [] || ys == [] then xs == ys
    else LookupEqual(xs[0], ys[0], cs) && LookupEqualItems(xs[1..], ys[1..], cs)
  }

  /** Each member of ms is found in ns with an equal value. */
  predicate LookupIncluded(ms: seq<Member>, ns: seq<Member>, cs: bool)
    decreases MembersHeight(ms) + MembersHeight(ns), 0, |ms|
  {
    ms == [] ||
    (var j := FirstMatch(ns, ms[0].key, cs);
     && j < |ns|
     && (MemberHeight(ns, j); LookupEqual(ms[0].value, ns[j].value, cs))
     && LookupIncluded(ms[1..], ns, cs))
  }

  predicate IntRange(t: Json) {
    match t
    case Number(n) => INT_MIN <= n <= INT_MAX
    case Array(items) => forall i :: 0 <= i < |items| ==> IntRange(items[i])
    case Object(ms) => IntRangeMembers(ms)
    case _ => true
  }

  predicate IntRangeMembers(ms: seq<Member>) {
    forall i :: 0 <= i < |ms| ==> IntRange(ms[i].value)
  }

  /** No node is Invalid, and a member whose key is repeated means what the first one with its key does. */
  predicate Uniform(t: Json, cs: bool) {
    match t
    case Invalid => false
    case Array(items) => UniformItems(items, cs)
    case Object(ms) => UniformMembers(ms, cs)
    case _ => true
  }

  predicate UniformItems(items: seq<Json>, cs: bool) {
    forall i :: 0 <= i < |items| ==> Uniform(items[i], cs)
  }

  predicate UniformMembers(ms: seq<Member>, cs: bool) {
    forall i :: 0 <= i < |ms| ==>
      Uniform(ms[i].value, cs) && Meaning(ms[i].value, cs) == Meaning(ms[FirstMatch(ms, ms[i].key, cs)].value, cs)
  }

  /** What cJSON_Compare asks of a member of one object. */
  predicate Matched(m: Member, ns: seq<Member>, cs: bool) {
    var j := FirstMatch(ns, m.key, cs);
    j < |ns| && Meaning(m.value, cs) == Meaning(ns[j].value, cs) && Uniform(m.value, cs) && Uniform(ns[j].value, cs)
  }

  predicate AllMatched(ms: seq<Member>, ns: seq<Member>, cs: bool) {
    forall i :: 0 <= i < |ms| ==> Matched(ms[i], ns, cs)
  }

  /** cJSON_Compare decides equality up to member order of uniform trees, with any keys. */
  lemma {:induction false} LookupEqualExact(a: Json, b: Json, cs: bool)
    requires IntRange(a) && IntRange(b)
    ensures LookupEqual(a, b, cs) <==> Meaning(a, cs) == Meaning(b, cs) && Uniform(a, cs) && Uniform(b, cs)
    decreases Height(a) + Height(b), 1, 0
  {
    hide MembersMeaning, UniformMembers, UniformItems, Norm;
    match (a, b)
    case (Number(n), Number(m)) => CompareDoubleOnInts(n, m);
    case (Array(xs), Array(ys)) => LookupEqualItemsExact(xs, ys, cs);
    case (Object(ms), Object(ns)) =>
      LookupIncludedExact(ms, ns, cs);
      LookupIncludedExact(ns, ms, cs);
      MatchedBothWays(ms, ns, cs);
    case _ =>
  }

  lemma {:induction false} LookupEqualItemsExact(xs: seq<Json>, ys: seq<Json>, cs: bool)
    requires IntRange(Array(xs)) && IntRange(Array(ys))
    ensures LookupEqualItems(xs, ys, cs) <==>
            ItemsMeaning(xs, cs) == ItemsMeaning(ys, cs) && UniformItems(xs, cs) && UniformItems(ys, cs)
    decreases ItemsHeight(xs) + ItemsHeight(ys), 0, |xs|
  {
    if xs == [] || ys == [] {
      assert |ItemsMeaning(xs, cs)| == |xs| && |ItemsMeaning(ys, cs)| == |ys|;
    } else {
      LookupEqualExact(xs[0], ys[0], cs);
      LookupEqualItemsExact(xs[1..], ys[1..], cs);
      ItemsMeaningCons(xs, ys, cs);
      UniformItemsCons(xs, cs);
      UniformItemsCons(ys, cs);
    }
  }

  lemma UniformItemsCons(xs: seq<Json>, cs: bool)
    requires xs != []
    ensures UniformItems(xs, cs) <==> Uniform(xs[0], cs) && UniformItems(xs[1..], cs)
  {
    hide Uniform;
    assert forall i :: 0 < i < |xs| ==> xs[i] == xs[1..][i - 1];
  }

  lemma {:induction false} LookupIncludedExact(ms: seq<Member>, ns: seq<Member>, cs: bool)
    requires IntRangeMembers(ms) && IntRangeMembers(ns)
    ensures LookupIncluded(ms, ns, cs) <==> AllMatched(ms, ns, cs)
    decreases MembersHeight(ms) + MembersHeight(ns), 0, |ms|
  {
    hide Uniform, Meaning, Norm, IntRange, LookupEqual;
    if ms != [] {
      LookupIncludedExact(ms[1..], ns, cs);
      var j := FirstMatch(ns, ms[0].key, cs);
      if j < |ns| {
        MemberHeight(ns, j);
        LookupEqualExact(ms[0].value, ns[j].value, cs);
      }
      assert forall i :: 0 < i < |ms| ==> ms[i] == ms[1..][i - 1];
    }
  }

  lemma MatchedBothWays(ms: seq<Member>, ns: seq<Member>, cs: bool)
    ensures AllMatched(ms, ns, cs) && AllMatched(ns, ms, cs)
            <==> MembersMeaning(ms, cs) == MembersMeaning(ns, cs) && UniformMembers(ms, cs) && UniformMembers(ns, cs)
  {
    hide AllMatched, UniformMembers, MembersMeaning;
    if AllMatched(ms, ns, cs) && AllMatched(ns, ms, cs) {
      MatchedIncluded(ms, ns, cs);
      MatchedIncluded(ns, ms, cs);
      var m, n := MembersMeaning(ms, cs), MembersMeaning(ns, cs);
      assert IncludedIn(m, n) && IncludedIn(n, m) ==> m == n;
      MatchedUniform(ms, ns, cs);
      MatchedUniform(ns, ms, cs);
    }
    if MembersMeaning(ms, cs) == MembersMeaning(ns, cs) && UniformMembers(ms, cs) && UniformMembers(ns, cs) {
      UniformMatched(ms, ns, cs);
      UniformMatched(ns, ms, cs);
    }
  }

  lemma MatchedIncluded(ms: seq<Member>, ns: seq<Member>, cs: bool)
    requires AllMatched(ms, ns, cs)
    ensures IncludedIn(MembersMeaning(ms, cs), MembersMeaning(ns, cs))
  {
    hide Uniform, Meaning, MembersMeaning;
    forall k | k in MembersMeaning(ms, cs)
      ensures k in MembersMeaning(ns, cs) && MembersMeaning(ms, cs)[k] == MembersMeaning(ns, cs)[k]
    {
      MeaningKeys(ms, cs, k);
      var l :| 0 <= l < |ms| && Norm(ms[l].key, cs) == k;
      var i := FirstMatch(ms, ms[l].key, cs);
      assert Matched(ms[i], ns, cs);
      MeaningLookup(ms, cs, ms[l].key);
      MeaningLookup(ns, cs, ms[i].key);
    }
  }

  lemma MatchedUniform(ms: seq<Member>, ns: seq<Member>, cs: bool)
    requires AllMatched(ms, ns, cs)
    requires MembersMeaning(ms, cs) == MembersMeaning(ns, cs)
    ensures UniformMembers(ms, cs)
  {
    hide Uniform, Meaning, MembersMeaning, Norm;
    forall i | 0 <= i < |ms|
      ensures Uniform(ms[i].value, cs) && Meaning(ms[i].value, cs) == Meaning(ms[FirstMatch(ms, ms[i].key, cs)].value, cs)
    {
      assert Matched(ms[i], ns, cs);
      MeaningLookup(ms, cs, ms[i].key);
      MeaningLookup(ns, cs, ms[i].key);
    }
  }

  lemma UniformMatched(ms: seq<Member>, ns: seq<Member>, cs: bool)
    requires MembersMeaning(ms, cs) == MembersMeaning(ns, cs) && UniformMembers(ms, cs) && UniformMembers(ns, cs)
    ensures AllMatched(ms, ns, cs)
  {
    hide Matched, UniformMembers;
    forall i | 0 <= i < |ms|
      ensures Matched(ms[i], ns, cs)
    {
      UniformMatchedAt(ms, ns, i, cs);
    }
  }

  lemma UniformMatchedAt(ms: seq<Member>, ns: seq<Member>, i: nat, cs: bool)
    requires MembersMeaning(ms, cs) == MembersMeaning(ns, cs) && i < |ms|
    requires UniformMembers(ms, cs) && UniformMembers(ns, cs)
    ensures Matched(ms[i], ns, cs)
  {
    hide Uniform, Meaning, MembersMeaning, Norm, FirstMatch;
    MeaningLookup(ms, cs, ms[i].key);
    MeaningLookup(ns, cs, ms[i].key);
    var j := FirstMatch(ns, ms[i].key, cs);
    assert j < |ns| ==> Uniform(ns[j].value, cs);
  }

  /** With distinct keys only Invalid nodes keep a tree from being uniform. */
  lemma {:induction false} DistinctIsUniform(t: Json, cs: bool)
    requires Comparable(t, cs)
    ensures IntRange(t) && (Uniform(t, cs) <==> NoInvalid(t))
  {
    match t
    case Array(items) =>
      forall i | 0 <= i < |items|
        ensures IntRange(items[i]) && (Uniform(items[i], cs) <==> NoInvalid(items[i]))
      {
        DistinctIsUniform(items[i], cs);
      }
    case Object(ms) =>
      forall i | 0 <= i < |ms|
        ensures FirstMatch(ms, ms[i].key, cs) == i
        ensures IntRange(ms[i].value) && (Uniform(ms[i].value, cs) <==> NoInvalid(ms[i].value))
      {
        MeaningAt(ms, cs, i);
        DistinctIsUniform(ms[i].value, cs);
      }
    case _ =>
  }

  lemma LookupEqualDistinct(a: Json, b: Json, cs: bool)
    requires Comparable(a, cs) && Comparable(b, cs)
    ensures LookupEqual(a, b, cs) <==> Meaning(a, cs) == Meaning(b, cs) && NoInvalid(a)
  {
    hide Meaning, Uniform, NoInvalid, Comparable, IntRange;
    DistinctIsUniform(a, cs);
    DistinctIsUniform(b, cs);
    LookupEqualExact(a, b, cs);
    if Meaning(a, cs) == Meaning(b, cs) {
      MeaningDetermines(a, b, cs);
    }
  }

  /** cJSON_Compare takes a tree for equal to its own copy exactly when it is uniform. */
  lemma CopyIsEqualExact(t: Json, cs: bool)
    requires IntRange(t) && Height(t) <= CIRCULAR_LIMIT
    ensures Duplicate(t).Some? && (LookupEqual(t, Duplicate(t).value, cs) <==> Uniform(t, cs))
  {
    DuplicateExact(t);
    LookupEqualExact(t, t, cs);
  }

  lemma HeadIsFresh(ms: seq<Member>, cs: bool)
    requires ms != [] && Distinct(ms, cs)
    ensures Norm(ms[0].key, cs) !in MembersMeaning(ms[1..], cs)
    ensures Distinct(ms[1..], cs)
  {
    forall i | 0 <= i < |ms[1..]|
      ensures Norm(ms[1..][i].key, cs) != Norm(ms[0].key, cs)
    {
      assert Norm(MemberKey(ms[0]), cs) != Norm(MemberKey(ms[i + 1]), cs);
    }
    MeaningKeys(ms[1..], cs, Norm(ms[0].key, cs));
  }

  /** The fast and the quadratic equality agree on every well-formed pair of trees. */
  lemma EqualitiesAgree(a: Json, b: Json, cs: bool)
    requires WellFormed(a, cs) && WellFormed(b, cs)
    ensures SortedEqual(a, b, cs) <==> LookupEqual(a, b, cs)
  {
    WellFormedIsPlain(a, cs);
    WellFormedIsPlain(b, cs);
    SortedEqualExact(a, b, cs);
    LookupEqualDistinct(a, b, cs);
  }

  /** With Raw and Invalid nodes the quadratic equality is the finer one. The two differ exactly on
      trees that are equal but for Raw texts and either differ in one of them or hold an Invalid node. */
  lemma EqualitiesDiffer(a: Json, b: Json, cs: bool)
    requires Comparable(a, cs) && Comparable(b, cs)
    ensures LookupEqual(a, b, cs) ==> SortedEqual(a, b, cs)
    ensures SortedEqual(a, b, cs) != LookupEqual(a, b, cs) <==>
            && Meaning(Blanked(a), cs) == Meaning(Blanked(b), cs)
            && (Meaning(a, cs) != Meaning(b, cs) || !NoInvalid(a))
  {
    SortedEqualExact(a, b, cs);
    LookupEqualDistinct(a, b, cs);
    if Meaning(a, cs) == Meaning(b, cs) {
      MeaningDetermines(a, b, cs);
    }
  }

  predicate FoundEqual(m: Member, ns: seq<Member>, cs: bool) {
    var j := FirstMatch(ns, m.key, cs);
    j < |ns| && LookupEqual(m.value, ns[j].value, cs)
  }

  lemma {:induction false} IncludedIfFound(ms: seq<Member>, ns: seq<Member>, cs: bool)
    requires forall i :: 0 <= i < |ms| ==> FoundEqual(ms[i], ns, cs)
    ensures LookupIncluded(ms, ns, cs)
  {
    if ms != [] {
      assert FoundEqual(ms[0], ns, cs);
      assert forall i :: 0 <= i < |ms[1..]| ==> ms[1..][i] == ms[i + 1];
      IncludedIfFound(ms[1..], ns, cs);
    }
  }

  lemma {:induction false} SameNumberOfMembers(ms: seq<Member>, ns: seq<Member>, cs: bool)
    requires SortedEqualMembers(ms, ns, cs)
    ensures |ms| == |ns|
    decreases |ms|
  {
    if ms != [] && ns != [] {
      SameNumberOfMembers(ms[1..], ns[1..], cs);
    }
  }

  /** cJSON_Compare does not see how often a key is repeated, compare_json does: for every object and
      every member of it that is there once more. */
  lemma RepeatedMember(ms: seq<Member>, i: nat, cs: bool)
    requires WellFormedMembers(ms, cs) && i < |ms|
    ensures LookupEqual(Object(ms + [ms[i]]), Object(ms), cs)
    ensures !SortedEqual(Object(ms + [ms[i]]), Object(ms), cs)
  {
    var more := ms + [ms[i]];
    assert forall k :: 0 <= k < |ms| ==> more[k] == ms[k];
    assert more[|ms|] == ms[i];
    forall k | 0 <= k < |more|
      ensures FoundEqual(more[k], ms, cs) && FoundEqual(more[k], more, cs)
    {
      FoundThere(ms, more, if k < |ms| then k else i, cs);
    }
    IncludedIfFound(more, ms, cs);
    IncludedIfFound(ms, more, cs);
    if SortedEqual(Object(more), Object(ms), cs) {
      SameNumberOfMembers(SortMembers(more, cs), SortMembers(ms, cs), cs);
    }
  }

  lemma FoundThere(ms: seq<Member>, more: seq<Member>, o: nat, cs: bool)
    requires WellFormedMembers(ms, cs) && o < |ms| <= |more| && more[..|ms|] == ms
    ensures FoundEqual(ms[o], ms, cs) && FoundEqual(ms[o], more, cs)
  {
    hide Norm;
    MeaningAt(ms, cs, o);
    assert forall j :: 0 <= j <= o ==> more[j] == more[..|ms|][j] == ms[j];
    WellFormedIsPlain(ms[o].value, cs);
    LookupEqualDistinct(ms[o].value, ms[o].value, cs);
  }
}
