/** JSON Merge Patch (RFC 7396): merge_patch and generate_merge_patch. */
module MergePatch {
  import opened CString
  import opened Sequences
  import opened JsonTree
  import opened JsonCompare

  // ---- applying ----

  function DeleteMember(ms: seq<Member>, name: string, cs: bool): seq<Member> {
    var i := FirstMatch(ms, name, cs);
    if i < |ms| then RemoveIndex(ms, i) else ms
  }

  /** merge_patch; None is the NULL of a copy that failed. */
  function Merge(target: Option<Json>, patch: Json, cs: bool): Option<Json>
    decreases patch
  {
    if !patch.Object? then Duplicate(patch)
    else
      var ms := if target.Some? && target.value.Object? then target.value.members else [];
      match MergeMembers(ms, patch.members, cs)
      case None => None
      case Some(merged) => Some(Object(merged))
  }

  function MergeMembers(ms: seq<Member>, ps: seq<Member>, cs: bool): Option<seq<Member>>
    decreases ps
  {
    if ps == [] then Some(ms)
    else
      match MergeMember(ms, ps[0], cs)
      case None => None
      case Some(merged) => MergeMembers(merged, ps[1..], cs)
  }

  /** One patch member: a null removes, anything else is merged and appended. */
  function MergeMember(ms: seq<Member>, p: Member, cs: bool): Option<seq<Member>>
    decreases p
  {
    if p.value.Null? then Some(DeleteMember(ms, p.key, cs))
    else
      match Merge(GetObjectItem(Object(ms), p.key, cs), p.value, cs)
      case None => None
      case Some(replacement) => Some(DeleteMember(ms, p.key, cs) + [Member(p.key, replacement)])
  }

  method MergeLoop(target: Option<Json>, patch: Json, cs: bool) returns (r: Option<Json>)
    ensures r == Merge(target, patch, cs)
    decreases patch
  {
    if !patch.Object? {
      return Duplicate(patch);
    }
    var ms, i := if target.Some? && target.value.Object? then target.value.members else [], 0;
    ghost var all := MergeMembers(ms, patch.members, cs);
    while i < |patch.members|
      invariant i <= |patch.members|
      invariant all == MergeMembers(ms, patch.members[i..], cs)
    {
      var child := patch.members[i];
      assert patch.members[i..][1..] == patch.members[i + 1..];
      if child.value.Null? {
        ms := DeleteMember(ms, child.key, cs);
      } else {
        var replacement := MergeLoop(GetObjectItem(Object(ms), child.key, cs), child.value, cs);
        if replacement.None? {
          return None;
        }
        ms := DeleteMember(ms, child.key, cs) + [Member(child.key, replacement.value)];
      }
      i := i + 1;
    }
    return Some(Object(ms));
  }

  // ---- generating ----

  /** generate_merge_patch; None is the NULL for "no patch". Whatever the mode, the walk compares
      the sorted keys case-sensitively and the nested call ignores case. */
  function Generate(from: Json, to: Json, cs: bool): Option<Json>
    decreases Height(from), 1, 0
  {
    if !to.Object? || !from.Object? then Duplicate(to)
    else
      SortKeepsHeight(from.members, cs);
      var ps := GenerateMembers(SortMembers(from.members, cs), SortMembers(to.members, cs), cs);
      if ps == [] then None else Some(Object(ps))
  }

  function GenerateMembers(fs: seq<Member>, ts: seq<Member>, cs: bool): seq<Member>
    decreases MembersHeight(fs), 0, |fs| + |ts|
  {
    if fs == [] && ts == [] then []
    else if fs != [] && (ts == [] || Strcmp(fs[0].key, ts[0].key) < 0) then
      [Member(fs[0].key, Null)] + GenerateMembers(fs[1..], ts, cs)
    else if fs == [] || Strcmp(fs[0].key, ts[0].key) > 0 then
      Optional(ts[0].key, Duplicate(ts[0].value)) + GenerateMembers(fs, ts[1..], cs)
    else
      Changed(fs[0], ts[0], cs) + GenerateMembers(fs[1..], ts[1..], cs)
  }

  /** Adding a NULL item to an object adds nothing. */
  function Optional(key: string, item: Option<Json>): seq<Member> {
    match item
    case None => []
    case Some(v) => [Member(key, v)]
  }

  function Changed(f: Member, t: Member, cs: bool): seq<Member>
    decreases Height(f.value), 2, 0
  {
    if SortedEqual(f.value, t.value, cs) then [] else Optional(t.key, Generate(f.value, t.value, false))
  }

  lemma GenerateStep(fs: seq<Member>, ts: seq<Member>, i: nat, j: nat, cs: bool)
    requires i <= |fs| && j <= |ts|
    ensures i < |fs| && (j == |ts| || Strcmp(fs[i].key, ts[j].key) < 0) ==>
              GenerateMembers(fs[i..], ts[j..], cs) ==
              [Member(fs[i].key, Null)] + GenerateMembers(fs[i + 1..], ts[j..], cs)
    ensures j < |ts| && (i == |fs| || Strcmp(fs[i].key, ts[j].key) > 0) ==>
              GenerateMembers(fs[i..], ts[j..], cs) ==
              Optional(ts[j].key, Duplicate(ts[j].value)) + GenerateMembers(fs[i..], ts[j + 1..], cs)
    ensures i < |fs| && j < |ts| && Strcmp(fs[i].key, ts[j].key) == 0 ==>
              GenerateMembers(fs[i..], ts[j..], cs) ==
              Changed(fs[i], ts[j], cs) + GenerateMembers(fs[i + 1..], ts[j + 1..], cs)
  {
    assert i < |fs| ==> fs[i..][1..] == fs[i + 1..];
    assert j < |ts| ==> ts[j..][1..] == ts[j + 1..];
  }

  method GenerateLoop(from: Json, to: Json, cs: bool) returns (r: Option<Json>)
    ensures r == Generate(from, to, cs)
    decreases Height(from), 1
  {
    if !to.Object? || !from.Object? {
      return Duplicate(to);
    }
    SortKeepsHeight(from.members, cs);
    var patch := GenerateMembersLoop(SortMembers(from.members, cs), SortMembers(to.members, cs), cs);
    return if patch == [] then None else Some(Object(patch));
  }

  method GenerateMembersLoop(fs: seq<Member>, ts: seq<Member>, cs: bool) returns (patch: seq<Member>)
    ensures patch == GenerateMembers(fs, ts, cs)
    decreases MembersHeight(fs), 0
  {
    patch := [];
    var i, j := 0, 0;
    ghost var all := GenerateMembers(fs[0..], ts[0..], cs);
    while i < |fs| || j < |ts|
      invariant i <= |fs| && j <= |ts|
      invariant all == patch + GenerateMembers(fs[i..], ts[j..], cs)
      decreases |fs| - i + |ts| - j
    {
      GenerateStep(fs, ts, i, j, cs);
      var diff := if i == |fs| then 1 else if j == |ts| then -1 else Strcmp(fs[i].key, ts[j].key);
      var more;
      if diff < 0 {
        more, i := [Member(fs[i].key, Null)], i + 1;
      } else if diff > 0 {
        more, j := Optional(ts[j].key, Duplicate(ts[j].value)), j + 1;
      } else {
        more := [];
        if !SortedEqual(fs[i].value, ts[j].value, cs) {
          MemberHeight(fs, i);
          var nested := GenerateLoop(fs[i].value, ts[j].value, false);
          more := Optional(ts[j].key, nested);
        }
        i, j := i + 1, j + 1;
      }
      Regroup(patch, more, GenerateMembers(fs[i..], ts[j..], cs));
      patch := patch + more;
    }
    assert fs[0..] == fs && ts[0..] == ts;
  }

  // ---- what merging does at one key ----

  function Lookup(ms: seq<Member>, k: string): Option<Json> {
    GetObjectItem(Object(ms), k, true)
  }

  /** Every value the merge would have to copy can be copied. */
  predicate Copyable(p: Json) {
    if p.Object? then forall i :: 0 <= i < |p.members| ==> Copyable(p.members[i].value)
    else Height(p) <= CIRCULAR_LIMIT
  }

  lemma {:induction false} LowIsCopyable(t: Json)
    requires Height(t) <= CIRCULAR_LIMIT
    ensures Copyable(t)
  {
    if t.Object? {
      forall i | 0 <= i < |t.members|
        ensures Copyable(t.members[i].value)
      {
        MemberHeight(t.members, i);
        LowIsCopyable(t.members[i].value);
      }
    }
  }

  /** A list of members with distinct keys from p. */
  predicate Keyed(ms: seq<Member>, p: string -> bool) {
    Distinct(ms, true) && forall i :: 0 <= i < |ms| ==> p(ms[i].key)
  }

  /** In this mode a lookup tells the keys of p apart. */
  ghost predicate Apart(p: string -> bool, cs: bool) {
    cs || FoldInjective(p)
  }

  lemma KeyedMatch(ms: seq<Member>, k: string, p: string -> bool, cs: bool)
    requires Keyed(ms, p) && Apart(p, cs) && p(k)
    ensures FirstMatch(ms, k, cs) == FirstMatch(ms, k, true)
  {
    if !cs {
      SameMatch(ms, k, p);
    }
  }

  lemma LookupAfterDelete(ms: seq<Member>, name: string, k: string, p: string -> bool, cs: bool)
    requires Keyed(ms, p) && Apart(p, cs) && p(name)
    ensures Keyed(DeleteMember(ms, name, cs), p)
    ensures Lookup(DeleteMember(ms, name, cs), k) == if k == name then None else Lookup(ms, k)
  {
    KeyedMatch(ms, name, p, cs);
    var i := FirstMatch(ms, name, true);
    if i < |ms| {
      LookupAfterRemove(ms, i, k, p);
    }
  }

  lemma RemovedKeyed(ms: seq<Member>, i: nat, p: string -> bool)
    requires Keyed(ms, p) && i < |ms|
    ensures var r := RemoveIndex(ms, i);
            && |r| == |ms| - 1 && Keyed(r, p)
            && (forall j :: 0 <= j < |r| ==> r[j] == if j < i then ms[j] else ms[j + 1])
            && (forall j :: 0 <= j < |r| ==> r[j].key != ms[i].key)
  {
    var r := RemoveIndex(ms, i);
    forall j | 0 <= j < |r|
      ensures r[j].key != ms[i].key
    {
      var o := if j < i then j else j + 1;
      assert Norm(MemberKey(ms[i]), true) != Norm(MemberKey(ms[o]), true);
    }
  }

  lemma LookupAfterRemove(ms: seq<Member>, i: nat, k: string, p: string -> bool)
    requires Keyed(ms, p) && i < |ms|
    ensures Keyed(RemoveIndex(ms, i), p)
    ensures Lookup(RemoveIndex(ms, i), k) == if k == ms[i].key then None else Lookup(ms, k)
  {
    RemovedKeyed(ms, i, p);
    var r, j := RemoveIndex(ms, i), FirstMatch(ms, k, true);
    hide RemoveIndex;
    if k != ms[i].key && j < |ms| {
      var l := if j < i then j else j - 1;
      assert r[l] == ms[j];
      LookupUnique(r, l);
    }
  }

  lemma LookupUnique(ms: seq<Member>, i: nat)
    requires Distinct(ms, true) && i < |ms|
    ensures Lookup(ms, ms[i].key) == Some(ms[i].value)
  {
    MeaningAt(ms, true, i);
  }

  lemma LookupAfterAppend(ms: seq<Member>, m: Member, k: string, p: string -> bool)
    requires Keyed(ms, p) && p(m.key) && Lookup(ms, m.key) == None
    ensures Keyed(ms + [m], p)
    ensures Lookup(ms + [m], k) == if k == m.key then Some(m.value) else Lookup(ms, k)
  {
    var r := ms + [m];
    assert forall i :: 0 <= i < |ms| ==> ms[i].key != m.key;
    assert Distinct(r, true);
    if k == m.key {
      LookupUnique(r, |ms|);
      assert r[|ms|] == m;
    } else {
      var i := FirstMatch(ms, k, true);
      if i < |ms| {
        LookupUnique(r, i);
        assert r[i] == ms[i];
      } else {
        assert forall j :: 0 <= j < |r| ==> r[j].key != k;
      }
    }
  }

  /** What the rules of RFC 7396, section 2, give at key k. */
  function MergedAt(ms: seq<Member>, ps: seq<Member>, k: string, cs: bool): Option<Json> {
    match Lookup(ps, k)
    case None => Lookup(ms, k)
    case Some(Null) => None
    case Some(p) => Merge(Lookup(ms, k), p, cs)
  }

  /** One patch member changes the target at its own key only. */
  lemma {:induction false} MergeMemberAt(ms: seq<Member>, m: Member, k: string, p: string -> bool, cs: bool)
    requires Keyed(ms, p) && Apart(p, cs) && p(m.key) && Copyable(m.value)
    ensures MergeMember(ms, m, cs).Some?
    ensures Keyed(MergeMember(ms, m, cs).value, p)
    ensures Lookup(MergeMember(ms, m, cs).value, k) ==
            if k != m.key then Lookup(ms, k)
            else if m.value.Null? then None
            else Merge(Lookup(ms, k), m.value, cs)
  {
    hide Apart, Keyed;
    LookupAfterDelete(ms, m.key, k, p, cs);
    LookupAfterDelete(ms, m.key, m.key, p, cs);
    if !m.value.Null? {
      KeyedMatch(ms, m.key, p, cs);
      MergeSucceeds(Lookup(ms, m.key), m.value, cs);
      var merged := Merge(Lookup(ms, m.key), m.value, cs).value;
      LookupAfterAppend(DeleteMember(ms, m.key, cs), Member(m.key, merged), k, p);
    }
  }

  lemma LookupCons(ps: seq<Member>, k: string)
    requires ps != []
    ensures Lookup(ps, k) == if k == ps[0].key then Some(ps[0].value) else Lookup(ps[1..], k)
  {
  }

  lemma TailIsKeyed(ps: seq<Member>, p: string -> bool)
    requires ps != [] && Keyed(ps, p)
    ensures Keyed(ps[1..], p) && p(ps[0].key) && Lookup(ps[1..], ps[0].key) == None
  {
    HeadIsFresh(ps, true);
    MeaningLookup(ps[1..], true, ps[0].key);
    assert forall i :: 0 <= i < |ps[1..]| ==> ps[1..][i] == ps[i + 1];
  }

  /** merge_patch follows RFC 7396 at every key: untouched without a patch member, removed by a
      null, and merged recursively by anything else. Case-sensitively for all distinct keys,
      ignoring case for those that folding tells apart. */
  lemma {:induction false} MergeFollowsRfc(ms: seq<Member>, ps: seq<Member>, k: string, p: string -> bool, cs: bool)
    requires Keyed(ms, p) && Keyed(ps, p) && Apart(p, cs)
    requires forall i :: 0 <= i < |ps| ==> Copyable(ps[i].value)
    ensures MergeMembers(ms, ps, cs).Some?
    ensures Keyed(MergeMembers(ms, ps, cs).value, p)
    ensures Lookup(MergeMembers(ms, ps, cs).value, k) == MergedAt(ms, ps, k, cs)
    decreases ps
  {
    hide Apart, Keyed;
    if ps != [] {
      TailIsKeyed(ps, p);
      MergeMemberAt(ms, ps[0], k, p, cs);
      LookupCons(ps, k);
      assert forall i :: 0 <= i < |ps[1..]| ==> ps[1..][i] == ps[i + 1];
      MergeFollowsRfc(MergeMember(ms, ps[0], cs).value, ps[1..], k, p, cs);
    }
  }

  lemma {:induction false} MergeSucceeds(target: Option<Json>, patch: Json, cs: bool)
    requires Copyable(patch)
    ensures Merge(target, patch, cs).Some?
    ensures Merge(target, patch, cs).value.Null? <==> patch.Null?
    decreases patch
  {
    if patch.Object? {
      var ms := if target.Some? && target.value.Object? then target.value.members else [];
      MergeMembersSucceeds(ms, patch.members, cs);
    } else {
      DuplicateExact(patch);
    }
  }

  lemma {:induction false} MergeMembersSucceeds(ms: seq<Member>, ps: seq<Member>, cs: bool)
    requires forall i :: 0 <= i < |ps| ==> Copyable(ps[i].value)
    ensures MergeMembers(ms, ps, cs).Some?
    decreases ps
  {
    if ps != [] {
      assert forall i :: 0 <= i < |ps[1..]| ==> ps[1..][i] == ps[i + 1];
      if !ps[0].value.Null? {
        MergeSucceeds(GetObjectItem(Object(ms), ps[0].key, cs), ps[0].value, cs);
      }
      MergeMembersSucceeds(MergeMember(ms, ps[0], cs).value, ps[1..], cs);
    }
  }
}
