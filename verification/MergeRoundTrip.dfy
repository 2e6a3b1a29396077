/** Section 2 of RFC 7396: merging the generated patch into the first tree, and exactly when that
    gives the second. */
module MergeRoundTrip {
  import opened CString
  import opened ListSort
  import opened Sequences
  import opened JsonTree
  import opened JsonCompare
  import opened MergePatch

  // ---- equality key by key ----

  function MeaningOf(t: Option<Json>, cs: bool): Option<Value> {
    match t
    case None => None
    case Some(v) => Some(Meaning(v, cs))
  }

  lemma KeyedDistinct(ms: seq<Member>, p: string -> bool, cs: bool)
    requires Keyed(ms, p) && Apart(p, cs)
    ensures Distinct(ms, cs)
  {
    forall i, j | 0 <= i < j < |ms|
      ensures Norm(MemberKey(ms[i]), cs) != Norm(MemberKey(ms[j]), cs)
    {
      assert Norm(MemberKey(ms[i]), true) != Norm(MemberKey(ms[j]), true);
      assert p(ms[i].key) && p(ms[j].key);
    }
  }

  lemma LookupMeaning(ms: seq<Member>, k: string, p: string -> bool, cs: bool)
    requires Keyed(ms, p) && Apart(p, cs) && p(k)
    ensures MeaningOf(Lookup(ms, k), cs) ==
            if Norm(k, cs) in MembersMeaning(ms, cs) then Some(MembersMeaning(ms, cs)[Norm(k, cs)]) else None
  {
    KeyedMatch(ms, k, p, cs);
    MeaningLookup(ms, cs, k);
  }

  /** Two objects are equal when every key has equal values in both. */
  lemma EqualAtEveryKey(ms: seq<Member>, ns: seq<Member>, p: string -> bool, cs: bool)
    requires Keyed(ms, p) && Keyed(ns, p) && Apart(p, cs)
    ensures MembersMeaning(ms, cs) == MembersMeaning(ns, cs)
            <==> forall k :: MeaningOf(Lookup(ms, k), cs) == MeaningOf(Lookup(ns, k), cs)
  {
    hide Apart, MembersMeaning, Norm;
    forall k | p(k)
      ensures MeaningOf(Lookup(ms, k), cs) ==
              if Norm(k, cs) in MembersMeaning(ms, cs) then Some(MembersMeaning(ms, cs)[Norm(k, cs)]) else None
      ensures MeaningOf(Lookup(ns, k), cs) ==
              if Norm(k, cs) in MembersMeaning(ns, cs) then Some(MembersMeaning(ns, cs)[Norm(k, cs)]) else None
    {
      LookupMeaning(ms, k, p, cs);
      LookupMeaning(ns, k, p, cs);
    }
    forall k
      ensures Lookup(ms, k).Some? || Lookup(ns, k).Some? ==> p(k)
    {
      FoundIsKey(ms, k, p);
      FoundIsKey(ns, k, p);
    }
    if forall k :: MeaningOf(Lookup(ms, k), cs) == MeaningOf(Lookup(ns, k), cs) {
      EveryKeyIn(ms, ns, p, cs);
      EveryKeyIn(ns, ms, p, cs);
      assert MembersMeaning(ms, cs) == MembersMeaning(ns, cs);
    }
  }

  lemma FoundIsKey(ms: seq<Member>, k: string, p: string -> bool)
    requires Keyed(ms, p)
    ensures Lookup(ms, k).Some? ==> p(k)
  {
    var i := FirstMatch(ms, k, true);
    assert i < |ms| ==> p(ms[i].key);
  }

  lemma EveryKeyIn(ms: seq<Member>, ns: seq<Member>, p: string -> bool, cs: bool)
    requires Keyed(ms, p) && Keyed(ns, p) && Apart(p, cs)
    requires forall k :: MeaningOf(Lookup(ms, k), cs) == MeaningOf(Lookup(ns, k), cs)
    ensures IncludedIn(MembersMeaning(ms, cs), MembersMeaning(ns, cs))
  {
    forall l | l in MembersMeaning(ms, cs)
      ensures l in MembersMeaning(ns, cs) && MembersMeaning(ms, cs)[l] == MembersMeaning(ns, cs)[l]
    {
      MeaningKeys(ms, cs, l);
      var i :| 0 <= i < |ms| && Norm(ms[i].key, cs) == l;
      LookupMeaning(ms, ms[i].key, p, cs);
      LookupMeaning(ns, ms[i].key, p, cs);
      assert MeaningOf(Lookup(ms, ms[i].key), cs) == MeaningOf(Lookup(ns, ms[i].key), cs);
    }
  }

  lemma GoodIsKeyed(ms: seq<Member>, p: string -> bool)
    requires GoodMembers(ms, p, true)
    ensures Keyed(ms, p)
  {
  }

  /** Trees whose keys folding tells apart are well-formed in either mode, and equal in both or in
      neither. */
  lemma {:induction false} ModesAgree(a: Json, b: Json, p: string -> bool, cs: bool)
    requires Good(a, p, true) && Good(b, p, true) && Apart(p, cs)
    ensures WellFormed(a, cs) && WellFormed(b, cs)
    ensures Meaning(a, cs) == Meaning(b, cs) <==> Meaning(a, true) == Meaning(b, true)
    decreases a, 1
  {
    GoodInMode(a, p, cs);
    GoodInMode(b, p, cs);
    match (a, b)
    case (Array(xs), Array(ys)) => ItemsAgree(xs, ys, p, cs);
    case (Object(ms), Object(ns)) => MembersAgree(ms, ns, p, cs);
    case _ =>
  }

  lemma {:induction false} GoodInMode(t: Json, p: string -> bool, cs: bool)
    requires Good(t, p, true) && Apart(p, cs)
    ensures WellFormed(t, cs)
  {
    match t
    case Array(items) =>
      forall i | 0 <= i < |items|
        ensures WellFormed(items[i], cs)
      {
        GoodInMode(items[i], p, cs);
      }
    case Object(ms) =>
      KeyedDistinct(ms, p, cs);
      forall i | 0 <= i < |ms|
        ensures WellFormed(ms[i].value, cs)
      {
        GoodInMode(ms[i].value, p, cs);
      }
    case _ =>
  }

  lemma {:induction false} ItemsAgree(xs: seq<Json>, ys: seq<Json>, p: string -> bool, cs: bool)
    requires GoodItems(xs, p, true) && GoodItems(ys, p, true) && Apart(p, cs)
    ensures ItemsMeaning(xs, cs) == ItemsMeaning(ys, cs) <==> ItemsMeaning(xs, true) == ItemsMeaning(ys, true)
    decreases xs, 0
  {
    hide Apart;
    if xs == [] || ys == [] {
      assert |ItemsMeaning(xs, cs)| == |xs| == |ItemsMeaning(xs, true)|;
      assert |ItemsMeaning(ys, cs)| == |ys| == |ItemsMeaning(ys, true)|;
    } else {
      ModesAgree(xs[0], ys[0], p, cs);
      ItemsAgree(xs[1..], ys[1..], p, cs);
      ItemsMeaningCons(xs, ys, cs);
      ItemsMeaningCons(xs, ys, true);
    }
  }

  lemma {:induction false} MembersAgree(ms: seq<Member>, ns: seq<Member>, p: string -> bool, cs: bool)
    requires GoodMembers(ms, p, true) && GoodMembers(ns, p, true) && Apart(p, cs)
    ensures MembersMeaning(ms, cs) == MembersMeaning(ns, cs) <==> MembersMeaning(ms, true) == MembersMeaning(ns, true)
    decreases ms, 0
  {
    forall k
      ensures MeaningOf(Lookup(ms, k), cs) == MeaningOf(Lookup(ns, k), cs)
              <==> MeaningOf(Lookup(ms, k), true) == MeaningOf(Lookup(ns, k), true)
    {
      if Lookup(ms, k).Some? && Lookup(ns, k).Some? {
        ModesAgree(Lookup(ms, k).value, Lookup(ns, k).value, p, cs);
      }
    }
    EqualAtEveryKey(ms, ns, p, cs);
    EqualAtEveryKey(ms, ns, p, true);
  }

  // ---- what the generated patch holds at one key ----

  function GeneratedAt(f: Option<Json>, t: Option<Json>, cs: bool): Option<Json> {
    match (f, t)
    case (None, None) => None
    case (Some(_), None) => Some(Null)
    case (None, Some(v)) => Some(v)
    case (Some(u), Some(v)) => if SortedEqual(u, v, cs) then None else Generate(u, v, false)
  }

  predicate Ascending(ms: seq<Member>) {
    StrictlyAscending(ms, MemberKey, true)
  }

  /** In an ascending list nothing is found below its head. */
  lemma NothingBelow(ms: seq<Member>, k: string)
    requires Ascending(ms) && (ms != [] ==> Strcmp(k, ms[0].key) < 0)
    ensures Lookup(ms, k) == None
  {
    AscendingIsOrdered(ms, MemberKey, true);
    forall i | 0 <= i < |ms|
      ensures ms[i].key != k
    {
      StrcmpZero(k, k);
      StrcmpSwap(k, ms[0].key);
      assert i > 0 ==> Compare(ms[0], ms[i], MemberKey, true) < 0;
    }
  }

  lemma ConsKeyed(m: Member, ps: seq<Member>, p: string -> bool)
    requires Keyed(ps, p) && p(m.key) && Lookup(ps, m.key) == None
    ensures Keyed([m] + ps, p)
  {
    var r := [m] + ps;
    forall i, j | 0 <= i < j < |r|
      ensures Norm(MemberKey(r[i]), true) != Norm(MemberKey(r[j]), true)
    {
      assert r[j] == ps[j - 1];
      if i > 0 {
        assert r[i] == ps[i - 1];
      }
    }
    assert forall i :: 0 <= i < |r| ==> p(r[i].key);
  }

  lemma AscendingTail(ms: seq<Member>, p: string -> bool)
    requires ms != [] && Ascending(ms) && Keyed(ms, p)
    ensures Ascending(ms[1..]) && Keyed(ms[1..], p) && p(ms[0].key) && Lookup(ms[1..], ms[0].key) == None
  {
    HeadIsLeast(ms, true);
    TailIsKeyed(ms, p);
  }

  /** Prepending at most one member with the head key. */
  lemma PrependAt(h: string, item: Option<Json>, rest: seq<Member>, k: string, p: string -> bool)
    requires Keyed(rest, p) && p(h) && Lookup(rest, h) == None
    ensures Keyed(Optional(h, item) + rest, p)
    ensures Lookup(Optional(h, item) + rest, k) == if k == h then item else Lookup(rest, k)
  {
    if item.Some? {
      ConsKeyed(Member(h, item.value), rest, p);
      var r := [Member(h, item.value)] + rest;
      assert r[1..] == rest;
      LookupCons(r, k);
    } else {
      assert [] + rest == rest;
    }
  }

  lemma {:induction false} GeneratedMembers(fs: seq<Member>, ts: seq<Member>, k: string, p: string -> bool, cs: bool)
    requires Keyed(fs, p) && Keyed(ts, p) && Ascending(fs) && Ascending(ts)
    requires forall i :: 0 <= i < |ts| ==> Height(ts[i].value) <= CIRCULAR_LIMIT
    ensures Keyed(GenerateMembers(fs, ts, cs), p)
    ensures Lookup(GenerateMembers(fs, ts, cs), k) == GeneratedAt(Lookup(fs, k), Lookup(ts, k), cs)
    decreases |fs| + |ts|
  {
    hide Keyed, Ascending, Generate, SortedEqual, Duplicate, Height, Lookup;
    NothingKeyed(p);
    if fs != [] || ts != [] {
      if fs != [] {
        AscendingTail(fs, p);
        LookupCons(fs, k);
      }
      if ts != [] {
        AscendingTail(ts, p);
        LookupCons(ts, k);
        DuplicateExact(ts[0].value);
        assert forall i :: 0 <= i < |ts[1..]| ==> ts[1..][i] == ts[i + 1];
      }
      if fs != [] && (ts == [] || Strcmp(fs[0].key, ts[0].key) < 0) {
        var h := fs[0].key;
        NothingBelow(ts, h);
        GeneratedMembers(fs[1..], ts, h, p, cs);
        GeneratedMembers(fs[1..], ts, k, p, cs);
        assert Optional(h, Some(Null)) == [Member(h, Null)];
        PrependAt(h, Some(Null), GenerateMembers(fs[1..], ts, cs), k, p);
      } else if fs == [] || Strcmp(fs[0].key, ts[0].key) > 0 {
        var h := ts[0].key;
        if fs != [] {
          StrcmpSwap(h, fs[0].key);
        }
        NothingBelow(fs, h);
        GeneratedMembers(fs, ts[1..], h, p, cs);
        GeneratedMembers(fs, ts[1..], k, p, cs);
        PrependAt(h, Some(ts[0].value), GenerateMembers(fs, ts[1..], cs), k, p);
      } else {
        var h := fs[0].key;
        StrcmpZero(h, ts[0].key);
        GeneratedMembers(fs[1..], ts[1..], h, p, cs);
        GeneratedMembers(fs[1..], ts[1..], k, p, cs);
        var changed := GeneratedAt(Some(fs[0].value), Some(ts[0].value), cs);
        PrependAt(h, changed, GenerateMembers(fs[1..], ts[1..], cs), k, p);
      }
    }
  }

  lemma NothingKeyed(p: string -> bool)
    ensures Keyed([], p) && forall k :: Lookup([], k) == None
  {
  }

  // ---- merging into something that is no object ----

  /** No object of the tree, outside arrays, has a null member. */
  predicate NoNulls(t: Json) {
    t.Object? ==> forall i :: 0 <= i < |t.members| ==> !t.members[i].value.Null? && NoNulls(t.members[i].value)
  }

  /** A tree merged into nothing, or into a tree that is no object, comes out whole exactly when
      it has no null members. */
  lemma {:induction false} MergeFresh(target: Option<Json>, t: Json, p: string -> bool, mcs: bool, cs: bool)
    requires Good(t, p, true) && Copyable(t) && Apart(p, mcs) && Apart(p, cs)
    requires target.Some? ==> !target.value.Object?
    ensures Merge(target, t, mcs).Some?
    ensures Meaning(Merge(target, t, mcs).value, cs) == Meaning(t, cs) <==> NoNulls(t)
    decreases t
  {
    if !t.Object? {
      DuplicateExact(t);
    } else {
      FreshMembers(t.members, p, mcs, cs);
    }
  }

  lemma {:induction false} FreshMembers(ts: seq<Member>, p: string -> bool, mcs: bool, cs: bool)
    requires GoodMembers(ts, p, true) && Copyable(Object(ts)) && Apart(p, mcs) && Apart(p, cs)
    ensures MergeMembers([], ts, mcs).Some?
    ensures MembersMeaning(MergeMembers([], ts, mcs).value, cs) == MembersMeaning(ts, cs) <==> NoNulls(Object(ts))
    decreases ts
  {
    hide Apart, MembersMeaning;
    GoodIsKeyed(ts, p);
    NothingKeyed(p);
    MergeFollowsRfc([], ts, "", p, mcs);
    var merged := MergeMembers([], ts, mcs).value;
    forall k
      ensures MeaningOf(Lookup(merged, k), cs) == MeaningOf(Lookup(ts, k), cs) <==>
              (Lookup(ts, k).Some? ==> !Lookup(ts, k).value.Null? && NoNulls(Lookup(ts, k).value))
    {
      MergeFollowsRfc([], ts, k, p, mcs);
      if Lookup(ts, k).Some? && !Lookup(ts, k).value.Null? {
        assert Lookup(ts, k).value == ts[FirstMatch(ts, k, true)].value;
        MergeFresh(None, Lookup(ts, k).value, p, mcs, cs);
      }
    }
    EqualAtEveryKey(merged, ts, p, cs);
    NoNullsAtEveryKey(ts);
  }

  lemma NoNullsAtEveryKey(ts: seq<Member>)
    requires Distinct(ts, true)
    ensures NoNulls(Object(ts)) <==>
            forall k :: Lookup(ts, k).Some? ==> !Lookup(ts, k).value.Null? && NoNulls(Lookup(ts, k).value)
  {
    forall i | 0 <= i < |ts|
      ensures Lookup(ts, ts[i].key) == Some(ts[i].value)
    {
      LookupUnique(ts, i);
    }
  }

  // ---- the round trip ----

  /** A merge patch can turn `from` into `to`: a null member of `to` must already be there, and a
      member that is new, or changes, must not be null or bring new null members. */
  predicate Restorable(from: Json, to: Json)
    decreases (to)
  {
    to.Object? ==>
      if from.Object? then
        forall i :: 0 <= i < |to.members| ==>
          var (f, t) := (Lookup(from.members, to.members[i].key), to.members[i].value);
          match f
          case None => !t.Null? && NoNulls(t)
          case Some(u) => Meaning(u, true) == Meaning(t, true) || (!t.Null? && Restorable(u, t))
      else NoNulls(to)
  }

  predicate RestorableAt(f: Option<Json>, t: Option<Json>) {
    match (f, t)
    case (_, None) => true
    case (None, Some(v)) => !v.Null? && NoNulls(v)
    case (Some(u), Some(v)) => Meaning(u, true) == Meaning(v, true) || (!v.Null? && Restorable(u, v))
  }

  lemma RestorableAtEveryKey(fs: seq<Member>, ts: seq<Member>)
    requires Distinct(ts, true)
    ensures Restorable(Object(fs), Object(ts)) <==> forall k :: RestorableAt(Lookup(fs, k), Lookup(ts, k))
  {
    forall i | 0 <= i < |ts|
      ensures Lookup(ts, ts[i].key) == Some(ts[i].value)
    {
      LookupUnique(ts, i);
    }
    if forall k :: RestorableAt(Lookup(fs, k), Lookup(ts, k)) {
      forall i | 0 <= i < |ts|
        ensures RestorableAt(Lookup(fs, ts[i].key), Some(ts[i].value))
      {
        assert RestorableAt(Lookup(fs, ts[i].key), Lookup(ts, ts[i].key));
      }
    }
  }

  /** What applying a generated patch, or the lack of one, leaves behind. */
  function Merged(from: Json, patch: Option<Json>, cs: bool): Option<Json> {
    match patch
    case None => Some(from)
    case Some(p) => Merge(Some(from), p, cs)
  }

  /** Sorted in either mode, the list is ascending for strcmp. */
  lemma SortedKeyed(ms: seq<Member>, p: string -> bool, cs: bool)
    requires GoodMembers(ms, p, true) && FoldKeepsOrder(p)
    ensures Keyed(SortMembers(ms, cs), p) && Ascending(SortMembers(ms, cs))
    ensures forall k :: Lookup(SortMembers(ms, cs), k) == Lookup(ms, k)
  {
    OrderTellsApart(p);
    KeyedDistinct(ms, p, cs);
    SortMembersKeeps(ms, cs);
    var s := SortMembers(ms, cs);
    forall i | 0 <= i < |s|
      ensures p(s[i].key)
    {
      var j :| 0 <= j < |ms| && ms[j] == s[i];
    }
    forall i | 0 <= i < |s| - 1
      ensures Compare(s[i], s[i + 1], MemberKey, true) < 0
    {
      assert p(s[i].key) && p(s[i + 1].key);
      assert Compare(s[i], s[i + 1], MemberKey, cs) < 0;
      assert Before(s[i].key, s[i + 1].key) <==> Before(Fold(s[i].key), Fold(s[i + 1].key));
    }
    AscendingIsOrdered(s, MemberKey, true);
    forall i, j | 0 <= i < j < |s|
      ensures Norm(MemberKey(s[i]), true) != Norm(MemberKey(s[j]), true)
    {
      StrcmpZero(s[i].key, s[j].key);
    }
    forall k
      ensures Lookup(s, k) == Lookup(ms, k)
    {
      LookupPermuted(ms, s, k, cs);
    }
  }

  lemma LookupPermuted(ms: seq<Member>, s: seq<Member>, k: string, cs: bool)
    requires s == SortMembers(ms, cs) && Distinct(ms, true) && Distinct(s, true)
    ensures Lookup(s, k) == Lookup(ms, k)
  {
    SortCorrect(ms, MemberKey, cs);
    var i, j := FirstMatch(ms, k, true), FirstMatch(s, k, true);
    if i < |ms| {
      assert ms[i] in multiset(s);
      var l :| 0 <= l < |s| && s[l] == ms[i];
      LookupUnique(s, l);
    }
    if j < |s| {
      assert s[j] in multiset(ms);
      var l :| 0 <= l < |ms| && ms[l] == s[j];
      LookupUnique(ms, l);
    }
  }

  /** Generating and merging back, for keys whose order folding keeps, whatever the modes of the
      generator, of the merge and of the equality. There is no patch exactly when both trees are equal
      objects; the result equals `to` exactly when the change is one a merge patch can express. */
  lemma {:induction false} MergeRoundTripExact(from: Json, to: Json, p: string -> bool, gcs: bool, mcs: bool, cs: bool)
    requires FoldKeepsOrder(p) && Good(from, p, true) && Good(to, p, true) && Height(to) <= CIRCULAR_LIMIT
    ensures Generate(from, to, gcs).None? <==> from.Object? && to.Object? && Meaning(from, cs) == Meaning(to, cs)
    ensures Generate(from, to, gcs).Some? ==>
              Copyable(Generate(from, to, gcs).value) && (Generate(from, to, gcs).value.Null? <==> to.Null?)
    ensures Merged(from, Generate(from, to, gcs), mcs).Some?
    ensures Meaning(Merged(from, Generate(from, to, gcs), mcs).value, cs) == Meaning(to, cs) <==> Restorable(from, to)
    decreases Height(from), 3
  {
    if !from.Object? || !to.Object? {
      DuplicateExact(to);
      LowIsCopyable(to);
      if to.Object? {
        OrderTellsApart(p);
        MergeFresh(Some(from), to, p, mcs, cs);
      } else {
        DuplicateExact(to);
      }
    } else {
      MergeObjects(from.members, to.members, p, gcs, mcs, cs);
    }
  }

  lemma {:induction false} MergeObjects(fs: seq<Member>, ts: seq<Member>,
                                        p: string -> bool, gcs: bool, mcs: bool, cs: bool)
    requires FoldKeepsOrder(p) && GoodMembers(fs, p, true) && GoodMembers(ts, p, true)
    requires MembersHeight(ts) <= CIRCULAR_LIMIT
    ensures var g := Generate(Object(fs), Object(ts), gcs);
            && (g.None? <==> MembersMeaning(fs, cs) == MembersMeaning(ts, cs))
            && (g.Some? ==> Copyable(g.value) && !g.value.Null?)
            && Merged(Object(fs), g, mcs).Some?
            && (Meaning(Merged(Object(fs), g, mcs).value, cs) == Meaning(Object(ts), cs)
                <==> Restorable(Object(fs), Object(ts)))
    decreases MembersHeight(fs), 2
  {
    hide Restorable, Copyable, FoldKeepsOrder, GoodMembers, Generate, GenerateMembers, GeneratedAt, MergeMembers, Meaning, Keyed;
    SortKeepsHeight(fs, gcs);
    var ps := GenerateMembers(SortMembers(fs, gcs), SortMembers(ts, gcs), gcs);
    GeneratedFromSorted(fs, ts, p, gcs);
    MergeGenerated(fs, ts, ps, p, gcs, mcs, cs);
    GeneratedObject(fs, ts, gcs);
    MergedObject(fs, ps, mcs);
    ObjectMeaning(fs, ts, cs);
    ObjectMeaning(MergeMembers(fs, ps, mcs).value, ts, cs);
  }

  lemma GeneratedObject(fs: seq<Member>, ts: seq<Member>, cs: bool)
    ensures var ps := GenerateMembers(SortMembers(fs, cs), SortMembers(ts, cs), cs);
            Generate(Object(fs), Object(ts), cs) == if ps == [] then None else Some(Object(ps))
  {
  }

  lemma MergedObject(fs: seq<Member>, ps: seq<Member>, cs: bool)
    requires MergeMembers(fs, ps, cs).Some?
    ensures Merge(Some(Object(fs)), Object(ps), cs) == Some(Object(MergeMembers(fs, ps, cs).value))
    ensures ps == [] ==> MergeMembers(fs, ps, cs).value == fs
  {
  }

  lemma ObjectMeaning(ms: seq<Member>, ns: seq<Member>, cs: bool)
    ensures Meaning(Object(ms), cs) == Meaning(Object(ns), cs) <==> MembersMeaning(ms, cs) == MembersMeaning(ns, cs)
  {
  }

  lemma GeneratedFromSorted(fs: seq<Member>, ts: seq<Member>, p: string -> bool, cs: bool)
    requires FoldKeepsOrder(p) && GoodMembers(fs, p, true) && GoodMembers(ts, p, true)
    requires MembersHeight(ts) <= CIRCULAR_LIMIT
    ensures var ps := GenerateMembers(SortMembers(fs, cs), SortMembers(ts, cs), cs);
            && Keyed(ps, p)
            && forall k :: Lookup(ps, k) == GeneratedAt(Lookup(fs, k), Lookup(ts, k), cs)
  {
    hide FoldKeepsOrder;
    SortKeepsHeight(ts, cs);
    SortedKeyed(fs, p, cs);
    SortedKeyed(ts, p, cs);
    var ss := SortMembers(ts, cs);
    forall i | 0 <= i < |ss|
      ensures Height(ss[i].value) <= CIRCULAR_LIMIT
    {
      MemberHeight(ss, i);
    }
    GeneratedMembers(SortMembers(fs, cs), ss, "", p, cs);
    var ps := GenerateMembers(SortMembers(fs, cs), ss, cs);
    forall k
      ensures Lookup(ps, k) == GeneratedAt(Lookup(fs, k), Lookup(ts, k), cs)
    {
      GeneratedMembers(SortMembers(fs, cs), ss, k, p, cs);
    }
  }

  /** What the patch does at one key, given what it is. */
  lemma {:induction false} MergedAtKey(fs: seq<Member>, ts: seq<Member>, ps: seq<Member>, k: string,
                                       p: string -> bool, gcs: bool, mcs: bool, cs: bool)
    requires FoldKeepsOrder(p) && GoodMembers(fs, p, true) && GoodMembers(ts, p, true)
    requires MembersHeight(ts) <= CIRCULAR_LIMIT
    requires Lookup(ps, k) == GeneratedAt(Lookup(fs, k), Lookup(ts, k), gcs)
    ensures Lookup(ps, k).Some? ==> Copyable(Lookup(ps, k).value)
    ensures Lookup(ps, k).None? <==> MeaningOf(Lookup(fs, k), cs) == MeaningOf(Lookup(ts, k), cs)
    ensures MeaningOf(MergedAt(fs, ps, k, mcs), cs) == MeaningOf(Lookup(ts, k), cs)
            <==> RestorableAt(Lookup(fs, k), Lookup(ts, k))
    decreases MembersHeight(fs), 0
  {
    hide FoldKeepsOrder, FoldInjective;
    OrderTellsApart(p);
    var f, t := Lookup(fs, k), Lookup(ts, k);
    if t.Some? {
      MemberHeight(ts, FirstMatch(ts, k, true));
      LowIsCopyable(t.value);
    }
    if f.None? && t.Some? {
      MergeFresh(None, t.value, p, mcs, cs);
    } else if f.Some? && t.Some? {
      MemberHeight(fs, FirstMatch(fs, k, true));
      ModesAgree(f.value, t.value, p, gcs);
      ModesAgree(f.value, t.value, p, cs);
      SortedEqualWellFormed(f.value, t.value, gcs);
      MergeRoundTripExact(f.value, t.value, p, false, mcs, cs);
      if Meaning(f.value, true) != Meaning(t.value, true) {
        assert Lookup(ps, k) == Generate(f.value, t.value, false);
      }
    }
  }

  lemma {:induction false} MergeGenerated(fs: seq<Member>, ts: seq<Member>, ps: seq<Member>,
                                          p: string -> bool, gcs: bool, mcs: bool, cs: bool)
    requires FoldKeepsOrder(p) && GoodMembers(fs, p, true) && GoodMembers(ts, p, true)
    requires MembersHeight(ts) <= CIRCULAR_LIMIT
    requires Keyed(ps, p)
    requires forall k :: Lookup(ps, k) == GeneratedAt(Lookup(fs, k), Lookup(ts, k), gcs)
    ensures ps == [] <==> MembersMeaning(fs, cs) == MembersMeaning(ts, cs)
    ensures Copyable(Object(ps))
    ensures MergeMembers(fs, ps, mcs).Some?
    ensures MembersMeaning(MergeMembers(fs, ps, mcs).value, cs) == MembersMeaning(ts, cs)
            <==> Restorable(Object(fs), Object(ts))
    decreases MembersHeight(fs), 1
  {
    hide FoldKeepsOrder, FoldInjective;
    OrderTellsApart(p);
    forall k
      ensures Lookup(ps, k).Some? ==> Copyable(Lookup(ps, k).value)
      ensures Lookup(ps, k).None? <==> MeaningOf(Lookup(fs, k), cs) == MeaningOf(Lookup(ts, k), cs)
      ensures MeaningOf(MergedAt(fs, ps, k, mcs), cs) == MeaningOf(Lookup(ts, k), cs)
              <==> RestorableAt(Lookup(fs, k), Lookup(ts, k))
    {
      MergedAtKey(fs, ts, ps, k, p, gcs, mcs, cs);
    }
    forall i | 0 <= i < |ps|
      ensures Copyable(ps[i].value)
    {
      LookupUnique(ps, i);
    }
    GoodIsKeyed(fs, p);
    GoodIsKeyed(ts, p);
    MergeFollowsRfc(fs, ps, "", p, mcs);
    forall k
      ensures Lookup(MergeMembers(fs, ps, mcs).value, k) == MergedAt(fs, ps, k, mcs)
    {
      MergeFollowsRfc(fs, ps, k, p, mcs);
    }
    EqualAtEveryKey(MergeMembers(fs, ps, mcs).value, ts, p, cs);
    RestorableAtEveryKey(fs, ts);
    EqualAtEveryKey(fs, ts, p, cs);
    if ps != [] {
      LookupUnique(ps, 0);
      assert Lookup(ps, ps[0].key).Some?;
    }
  }

  lemma {:induction false} NoNullsIsRestorable(from: Json, to: Json)
    requires NoNulls(to)
    ensures Restorable(from, to)
    decreases (to)
  {
    if from.Object? && to.Object? {
      forall i | 0 <= i < |to.members| && Lookup(from.members, to.members[i].key).Some?
        ensures Restorable(Lookup(from.members, to.members[i].key).value, to.members[i].value)
      {
        NoNullsIsRestorable(Lookup(from.members, to.members[i].key).value, to.members[i].value);
      }
    }
  }

  /** The promise: without null members in `to`, merging the generated patch always gives `to`. */
  lemma MergeRoundTrip(from: Json, to: Json, p: string -> bool, gcs: bool, mcs: bool, cs: bool)
    requires FoldKeepsOrder(p) && Good(from, p, true) && Good(to, p, true)
    requires Height(to) <= CIRCULAR_LIMIT && NoNulls(to)
    ensures Merged(from, Generate(from, to, gcs), mcs).Some?
    ensures Meaning(Merged(from, Generate(from, to, gcs), mcs).value, cs) == Meaning(to, cs)
  {
    MergeRoundTripExact(from, to, p, gcs, mcs, cs);
    NoNullsIsRestorable(from, to);
  }

  /** A new null member is lost: in a merge patch null means removal. */
  lemma NullMemberIsLost()
    ensures var to := Object([Member("a", Null)]);
            Meaning(Merged(Object([]), Generate(Object([]), to, true), true).value, true) != Meaning(to, true)
  {
    var to := Object([Member("a", Null)]);
    LowerQualifies();
    assert Height(Null) == 0 && [Member("a", Null)][1..] == [];
    MergeRoundTripExact(Object([]), to, Lower, true, true, true);
    assert Lookup([], "a") == None;
    assert !Restorable(Object([]), to);
  }

  // ---- which keys the promise is kept for ----

  /** Merging the generated patch gives the second tree, in the library's one mode or the other. */
  predicate Restores(from: Json, to: Json, cs: bool) {
    var r := Merged(from, Generate(from, to, cs), cs);
    r.Some? && Meaning(r.value, cs) == Meaning(to, cs)
  }

  /** The promise for a class of keys: without null members in `to` it is kept for all trees. */
  ghost predicate MergePromise(p: string -> bool, cs: bool) {
    forall from, to :: Good(from, p, cs) && Good(to, p, cs) && NoNulls(to) && Height(to) <= CIRCULAR_LIMIT ==>
                         Restores(from, to, cs)
  }

  lemma {:induction false} FoldedIsFiner(t: Json, cs: bool)
    requires WellFormed(t, cs)
    ensures WellFormed(t, true)
  {
    match t
    case Array(items) =>
      forall i | 0 <= i < |items|
        ensures WellFormed(items[i], true)
      {
        FoldedIsFiner(items[i], cs);
      }
    case Object(ms) =>
      forall i | 0 <= i < |ms|
        ensures WellFormed(ms[i].value, true)
      {
        FoldedIsFiner(ms[i].value, cs);
      }
      forall i, j | 0 <= i < j < |ms|
        ensures Norm(MemberKey(ms[i]), true) != Norm(MemberKey(ms[j]), true)
      {
        assert Norm(MemberKey(ms[i]), cs) != Norm(MemberKey(ms[j]), cs);
      }
    case _ =>
  }

  /** The keys the promise is kept for, in either mode, are those whose order folding keeps. */
  lemma MergePromiseExact(p: string -> bool, cs: bool)
    ensures MergePromise(p, cs) <==> FoldKeepsOrder(p)
  {
    if FoldKeepsOrder(p) {
      forall from, to | Good(from, p, cs) && Good(to, p, cs) && NoNulls(to) && Height(to) <= CIRCULAR_LIMIT
        ensures Restores(from, to, cs)
      {
        FoldedIsFiner(from, cs);
        FoldedIsFiner(to, cs);
        MergeRoundTrip(from, to, p, cs, cs, cs);
      }
    } else {
      var x, y := Misordered(p);
      var from, to := Unrestored(x, y, p, cs);
      assert !Restores(from, to, cs);
    }
  }

  /** Where folding does not keep the order, there are two keys it puts together or the other way round. */
  lemma Misordered(p: string -> bool) returns (x: string, y: string)
    requires !FoldKeepsOrder(p)
    ensures p(x) && p(y) && Before(y, x)
    ensures Fold(x) == Fold(y) || Before(Fold(x), Fold(y))
  {
    var a, b :| p(a) && p(b) && !(Before(a, b) <==> Before(Fold(a), Fold(b)));
    Trichotomy(a, b);
    Trichotomy(Fold(a), Fold(b));
    Trichotomy(Fold(b), Fold(a));
    if Before(a, b) {
      x, y := b, a;
    } else {
      x, y := a, b;
    }
  }

  /** Two such keys make two trees that are not restored. */
  lemma Unrestored(x: string, y: string, p: string -> bool, cs: bool) returns (from: Json, to: Json)
    requires p(x) && p(y) && Before(y, x)
    requires Fold(x) == Fold(y) || Before(Fold(x), Fold(y))
    ensures Good(from, p, cs) && Good(to, p, cs) && NoNulls(to) && Height(to) <= CIRCULAR_LIMIT
    ensures !Restores(from, to, cs)
  {
    hide Fold, Strcmp, Restores;
    NestGood(y, True, p, cs);
    NestGood(x, True, p, cs);
    if Before(Fold(x), Fold(y)) {
      ReversedIsLost(x, y, cs);
      Trichotomy(y, x);
      Trichotomy(Fold(x), Fold(y));
      BothGood(x, y, p, cs);
      from, to := Both(x, y), One(y);
      if cs {
        NestGood(x, from, p, cs);
        NestGood(x, to, p, cs);
        from, to := Nest(x, from), Nest(x, to);
      }
    } else if cs {
      Trichotomy(y, x);
      NestedCaseIsLost(x, x, x, y);
      NestGood(x, One(x), p, cs);
      NestGood(x, One(y), p, cs);
      NestGood(x, Nest(x, One(x)), p, cs);
      NestGood(x, Nest(x, One(y)), p, cs);
      from, to := Nest(x, Nest(x, One(x))), Nest(x, Nest(x, One(y)));
    } else {
      RenamedIsLost(x, y);
      from, to := One(x), One(y);
    }
  }

  // ---- the trees that are not restored ----

  function Nest(k: string, t: Json): Json {
    Object([Member(k, t)])
  }

  function One(k: string): Json {
    Nest(k, True)
  }

  function Both(x: string, y: string): Json {
    Object([Member(x, True), Member(y, True)])
  }

  lemma NestMeaning(k: string, t: Json, cs: bool)
    ensures Meaning(Nest(k, t), cs) == VObject(map[Norm(k, cs) := Meaning(t, cs)])
    ensures Height(Nest(k, t)) == Height(t) + 1
    ensures SortMembers([Member(k, t)], cs) == [Member(k, t)]
  {
    var ms := [Member(k, t)];
    assert ms[1..] == [];
    assert MembersMeaning([], cs) == map[];
    assert MembersHeight(ms) == Height(t) + 1;
  }

  lemma NestGood(k: string, t: Json, p: string -> bool, cs: bool)
    requires Good(t, p, cs) && p(k) && !t.Null? && NoNulls(t)
    ensures Good(Nest(k, t), p, cs) && NoNulls(Nest(k, t)) && Height(Nest(k, t)) == Height(t) + 1
  {
    NestMeaning(k, t, cs);
  }

  lemma BothGood(x: string, y: string, p: string -> bool, cs: bool)
    requires p(x) && p(y) && Norm(x, cs) != Norm(y, cs)
    ensures Good(Both(x, y), p, cs) && NoNulls(Both(x, y))
  {
    hide Norm;
    var ms := [Member(x, True), Member(y, True)];
    assert MemberKey(ms[0]) == x && MemberKey(ms[1]) == y;
    assert Distinct(ms, cs);
    assert AllMemberKeys(ms, p) && WellFormedMembers(ms, cs);
  }

  /** A nested pair of objects is compared in the mode asked for, and its patch made ignoring case. */
  lemma NestPatch(k: string, f: Json, t: Json, cs: bool)
    ensures Generate(Nest(k, f), Nest(k, t), cs) ==
            match (if SortedEqual(f, t, cs) then None else Generate(f, t, false))
            case None => None
            case Some(g) => Some(Nest(k, g))
  {
    NestMeaning(k, f, cs);
    NestMeaning(k, t, cs);
    StrcmpZero(k, k);
    var fs, ts := [Member(k, f)], [Member(k, t)];
    assert fs[1..] == [] && ts[1..] == [];
    assert GenerateMembers(fs, ts, cs) == Changed(fs[0], ts[0], cs) + GenerateMembers([], [], cs);
    assert GenerateMembers(fs, ts, cs) == Changed(fs[0], ts[0], cs);
  }

  lemma NestMerge(k: string, f: Json, g: Json, cs: bool)
    requires !g.Null? && Merge(Some(f), g, cs).Some?
    ensures Merge(Some(Nest(k, f)), Nest(k, g), cs) == Some(Nest(k, Merge(Some(f), g, cs).value))
  {
    var ms, ps := [Member(k, f)], [Member(k, g)];
    assert FirstMatch(ms, k, cs) == 0 && RemoveIndex(ms, 0) == [];
    assert DeleteMember(ms, k, cs) == [];
    var r := Merge(Some(f), g, cs).value;
    assert [] + [Member(k, r)] == [Member(k, r)];
    assert MergeMember(ms, ps[0], cs) == Some([Member(k, r)]);
    assert ps[1..] == [] && MergeMembers([Member(k, r)], [], cs) == Some([Member(k, r)]);
  }

  /** Where folding reverses the order of two keys, the walk takes the second object's member for a
      new one and the first object's for a surplus: it is set and then removed. In the case-sensitive
      functions this happens one level down. */
  lemma ReversedIsLost(x: string, y: string, cs: bool)
    requires Before(y, x) && Before(Fold(x), Fold(y))
    ensures var from := if cs then Nest(x, Both(x, y)) else Both(x, y);
            var to := if cs then Nest(x, One(y)) else One(y);
            && Merged(from, Generate(from, to, cs), cs) == Some(if cs then Nest(x, Object([])) else Object([]))
            && !Restores(from, to, cs)
  {
    Trichotomy(Fold(x), Fold(y));
    Trichotomy(y, x);
    ReversedPatch(x, y);
    ReversedMerge(x, y, cs);
    assert MembersMeaning([], cs) == map[];
    NestMeaning(y, True, cs);
    assert Norm(y, cs) in MembersMeaning([Member(y, True)], cs);
    if cs {
      BothDiffers(x, y);
      NestPatch(x, Both(x, y), One(y), true);
      NestMerge(x, Both(x, y), Generate(Both(x, y), One(y), false).value, true);
      NestMeaning(x, Object([]), true);
      NestMeaning(x, One(y), true);
      assert map[x := Meaning(Object([]), true)][x] != map[x := Meaning(One(y), true)][x];
    }
  }

  lemma BothDiffers(x: string, y: string)
    requires x != y
    ensures !SortedEqual(Both(x, y), One(y), true)
  {
    var sx, sy := SortMembers([Member(x, True), Member(y, True)], true), SortMembers([Member(y, True)], true);
    if SortedEqual(Both(x, y), One(y), true) {
      SameNumberOfMembers(sx, sy, true);
    }
  }

  lemma ReversedPatch(x: string, y: string)
    requires Before(y, x) && Before(Fold(x), Fold(y))
    ensures Generate(Both(x, y), One(y), false) == Some(Object([Member(y, True), Member(x, Null), Member(y, Null)]))
  {
    var a, b := Member(x, True), Member(y, True);
    var fs, ts := [a, b], [b];
    NestMeaning(y, True, false);
    assert Compare(fs[0], fs[1], MemberKey, false) < 0;
    assert StrictlyAscending(fs, MemberKey, false) && SortMembers(fs, false) == fs;
    StrcmpSwap(y, x);
    assert Strcmp(fs[0].key, ts[0].key) > 0;
    assert ts[1..] == [] && fs[1..] == [b] && fs[1..][1..] == [];
    assert Optional(y, Duplicate(True)) == [b];
    assert GenerateMembers([b], [], false) == [Member(y, Null)] + GenerateMembers([], [], false);
    assert GenerateMembers(fs, [], false) == [Member(x, Null)] + GenerateMembers([b], [], false);
    assert GenerateMembers(fs, ts, false) == [b] + GenerateMembers(fs, [], false);
    assert GenerateMembers(fs, ts, false) == [b, Member(x, Null), Member(y, Null)];
  }

  lemma ReversedMerge(x: string, y: string, cs: bool)
    requires Norm(x, cs) != Norm(y, cs)
    ensures Merge(Some(Both(x, y)), Object([Member(y, True), Member(x, Null), Member(y, Null)]), cs) == Some(Object([]))
  {
    hide Norm;
    var a, b := Member(x, True), Member(y, True);
    var fs := [a, b];
    var ps := [b, Member(x, Null), Member(y, Null)];
    assert FirstMatch(fs, y, cs) == 1 && RemoveIndex(fs, 1) == [a];
    assert Merge(Some(True), True, cs) == Some(True);
    assert MergeMember(fs, b, cs) == Some([a] + [b]);
    assert [a] + [b] == fs;
    assert FirstMatch(fs, x, cs) == 0 && RemoveIndex(fs, 0) == [b];
    assert MergeMember(fs, Member(x, Null), cs) == Some([b]);
    assert FirstMatch([b], y, cs) == 0 && RemoveIndex([b], 0) == [];
    assert MergeMember([b], Member(y, Null), cs) == Some([]);
    assert ps[1..] == [Member(x, Null), Member(y, Null)] && ps[1..][1..] == [Member(y, Null)];
    assert MergeMembers([], [Member(y, Null)][1..], cs) == Some([]);
    assert MergeMembers([b], [Member(y, Null)], cs) == Some([]);
    assert MergeMembers(fs, ps[1..], cs) == Some([]);
  }

  /** A key changed in case only is set and then, ignoring case, removed. */
  lemma RenamedIsLost(x: string, y: string)
    requires Before(y, x) && Fold(x) == Fold(y)
    ensures Generate(One(x), One(y), false) == Some(Object([Member(y, True), Member(x, Null)]))
    ensures Merged(One(x), Generate(One(x), One(y), false), false) == Some(Object([]))
    ensures !Restores(One(x), One(y), false)
  {
    RenamedPatch(x, y);
    RenamedMerge(x, y);
    NestMeaning(y, True, false);
    assert MembersMeaning([], false) == map[];
    assert Norm(y, false) in MembersMeaning([Member(y, True)], false);
  }

  lemma RenamedPatch(x: string, y: string)
    requires Before(y, x)
    ensures Generate(One(x), One(y), false) == Some(Object([Member(y, True), Member(x, Null)]))
  {
    var a, b := Member(x, True), Member(y, True);
    NestMeaning(x, True, false);
    NestMeaning(y, True, false);
    StrcmpSwap(y, x);
    assert [a][1..] == [] && [b][1..] == [];
    assert Optional(y, Duplicate(True)) == [b];
    assert GenerateMembers([a], [], false) == [Member(x, Null)] + GenerateMembers([], [], false);
    assert GenerateMembers([a], [b], false) == [b] + GenerateMembers([a], [], false);
    assert GenerateMembers([a], [b], false) == [b, Member(x, Null)];
  }

  lemma RenamedMerge(x: string, y: string)
    requires Fold(x) == Fold(y)
    ensures Merge(Some(One(x)), Object([Member(y, True), Member(x, Null)]), false) == Some(Object([]))
  {
    hide Fold;
    var a, b := Member(x, True), Member(y, True);
    var ps := [b, Member(x, Null)];
    assert FirstMatch([a], y, false) == 0 && RemoveIndex([a], 0) == [];
    assert Merge(Some(True), True, false) == Some(True);
    assert [] + [b] == [b];
    assert MergeMember([a], b, false) == Some([b]);
    assert FirstMatch([b], x, false) == 0 && RemoveIndex([b], 0) == [];
    assert MergeMember([b], Member(x, Null), false) == Some([]);
    assert ps[1..] == [Member(x, Null)] && ps[1..][1..] == [];
    assert MergeMembers([], ps[1..][1..], false) == Some([]);
    assert MergeMembers([b], ps[1..], false) == Some([]);
  }

  /** Two levels down even the case-sensitive generator ignores case: it sees no change at all. */
  lemma NestedCaseIsLost(k: string, l: string, a: string, b: string)
    requires a != b && Fold(a) == Fold(b)
    ensures var from, to := Nest(k, Nest(l, One(a))), Nest(k, Nest(l, One(b)));
            && Generate(from, to, true) == None
            && Meaning(from, true) != Meaning(to, true)
            && !Restores(from, to, true)
  {
    CaseIgnored(a, b);
    NestPatch(l, One(a), One(b), false);
    NestPatch(k, Nest(l, One(a)), Nest(l, One(b)), true);
    NestMeaning(a, True, true);
    NestMeaning(b, True, true);
    assert a in MembersMeaning([Member(a, True)], true) && a !in MembersMeaning([Member(b, True)], true);
    NestDiffers(l, One(a), One(b));
    NestDiffers(k, Nest(l, One(a)), Nest(l, One(b)));
  }

  lemma CaseIgnored(a: string, b: string)
    requires Fold(a) == Fold(b)
    ensures SortedEqual(One(a), One(b), false)
  {
    NestMeaning(a, True, false);
    NestMeaning(b, True, false);
    var ms, ns := [Member(a, True)], [Member(b, True)];
    assert ms[1..] == [] == ns[1..];
    assert SortedEqualMembers(ms, ns, false) == (SortedEqual(True, True, false) && SortedEqualMembers([], [], false));
  }

  lemma NestDiffers(k: string, f: Json, t: Json)
    requires Meaning(f, true) != Meaning(t, true)
    ensures Meaning(Nest(k, f), true) != Meaning(Nest(k, t), true)
  {
    NestMeaning(k, f, true);
    NestMeaning(k, t, true);
    assert map[k := Meaning(f, true)][k] != map[k := Meaning(t, true)][k];
  }

  /** With upper-case letters the sorted order and the order of the walk can differ. */
  lemma UpperCaseIsLost()
    ensures var from, to := Both("a", "B"), One("B");
            && Generate(from, to, false) == Some(Object([Member("B", True), Member("a", Null), Member("B", Null)]))
            && Merged(from, Generate(from, to, false), false) == Some(Object([]))
    ensures Generate(Nest("x", Nest("y", One("A"))), Nest("x", Nest("y", One("a"))), true) == None
  {
    assert Fold("a") == "a" == Fold("A") && Fold("B") == "b";
    assert "a"[0] as int - "b"[0] as int < 0 < "a"[0] as int - "B"[0] as int;
    StrcmpSwap("B", "a");
    StrcmpSwap("a", "B");
    ReversedPatch("a", "B");
    ReversedIsLost("a", "B", false);
    assert "A"[0] != "a"[0];
    NestedCaseIsLost("x", "y", "A", "a");
  }

  // ---- classes of keys the promise is kept for ----

  predicate Lower(k: string) {
    Fold(k) == k
  }

  /** No letters in lower case, and none of the characters between the upper and the lower case. */
  predicate Upper(k: string) {
    forall i :: 0 <= i < |k| ==> k[i] <= 'Z' || 'z' < k[i]
  }

  lemma LowerQualifies()
    ensures FoldKeepsOrder(Lower)
  {
  }

  lemma UpperQualifies()
    ensures FoldKeepsOrder(Upper)
  {
    forall a, b | Upper(a) && Upper(b)
      ensures Before(a, b) <==> Before(Fold(a), Fold(b))
    {
      UpperOrder(a, b);
    }
  }

  lemma {:induction false} UpperOrder(a: string, b: string)
    requires Upper(a) && Upper(b)
    ensures Before(a, b) <==> Before(Fold(a), Fold(b))
  {
    if a != "" && b != "" {
      assert Fold(a)[0] == ToLower(a[0]) && Fold(b)[0] == ToLower(b[0]);
      assert Fold(a)[1..] == Fold(a[1..]) && Fold(b)[1..] == Fold(b[1..]);
      UpperOrder(a[1..], b[1..]);
    }
  }
}
