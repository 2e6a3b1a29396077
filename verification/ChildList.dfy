/** The doubly linked child list of cJSON: `next` ends with null, and `prev` of the first item is
    the last one. Every operation is proved against the plain sequence operation. */
module ChildList {
  import opened CString
  import opened ListSort
  import opened Sequences

  function ItemKey(item: Item): string {
    item.key
  }

  class Item {
    const key: string
    var next: Item?
    var prev: Item?
    var child: Item?

    constructor (key: string)
      ensures this.key == key && next == null && prev == null && child == null
    {
      this.key := key;
      next, prev, child := null, null, null;
    }

    /** The items of s are chained from first, forwards to null and backwards among themselves. */
    static ghost predicate Chain(first: Item?, s: seq<Item>)
      reads s
    {
      && NoDuplicates(s)
      && (first == if s == [] then null else s[0])
      && (s != [] ==> s[|s| - 1].next == null)
      && (forall i {:trigger s[i].next} :: 0 <= i < |s| - 1 ==> s[i].next == s[i + 1])
      && (forall i {:trigger s[i].prev} :: 0 < i < |s| ==> s[i].prev == s[i - 1])
    }

    /** s is the child list of this item, with the short cut to its end in place. */
    ghost predicate Children(s: seq<Item>)
      reads this, s
    {
      && this !in s
      && Chain(child, s)
      && (s != [] ==> s[0].prev == s[|s| - 1])
    }

    lemma ChildrenChain(s: seq<Item>)
      requires Children(s)
      ensures Chain(child, s) && NoDuplicates(s) && this !in s && child == if s == [] then null else s[0]
      ensures s != [] ==> s[0].prev == s[|s| - 1]
    {
    }

    static lemma Neighbours(first: Item?, s: seq<Item>, k: nat)
      requires Chain(first, s) && k < |s|
      ensures s[k] == first <==> k == 0
      ensures s[k].next == null <==> k + 1 == |s|
      ensures k > 0 ==> s[k].prev == s[k - 1] && s[k - 1] in s && s[k - 1].next == s[k]
      ensures k + 1 < |s| ==> s[k].next == s[k + 1] && s[k + 1] in s && s[k + 1].prev == s[k]
      ensures s[k] in s && s[0] in s && s[|s| - 1] in s
    {
      if k > 0 {
        assert s[0] != s[k];
        assert s[k - 1].next == s[k];
      }
      if k + 1 < |s| {
        assert s[k + 1].prev == s[k];
      }
    }

    static lemma ChainHead(first: Item?, s: seq<Item>)
      requires Chain(first, s)
      ensures NoDuplicates(s) && first == if s == [] then null else s[0]
    {
    }

    /** get_array_item */
    method GetArrayItem(index: nat, ghost s: seq<Item>) returns (item: Item?)
      requires Chain(child, s)
      ensures item == if index < |s| then s[index] else null
    {
      item := child;
      var left := index;
      ghost var i := 0;
      while item != null && left > 0
        invariant i <= |s| && i + left == index
        invariant item == if i < |s| then s[i] else null
        decreases left
      {
        item, left, i := item.next, left - 1, i + 1;
      }
    }

    /** What the `prev` of the first child points to: the item add_item_to_array appends behind. */
    function ShortCut(): (last: Item?)
      reads this, child
    {
      if child == null then null else child.prev
    }

    /** add_item_to_array, whatever the short cut is. Right behind the last item it appends. Behind an
        earlier item it cuts off what followed. With no short cut, or one to an item of no or another
        list, the list stays as it is and the item is not in it. */
    method AddItemToArray(item: Item?, ghost s: seq<Item>) returns (ok: bool)
      requires Chain(child, s) && this !in s
      requires item != null ==> item !in s && item.next == null
      modifies this`child, s, item, ShortCut()
      ensures ok <==> item != null && item != this
      ensures !ok ==> child == old(child) && unchanged(s)
      ensures ok && (s == [] || old(s[0].prev) == s[|s| - 1]) ==> Children(s + [item])
      ensures ok && s != [] ==>
                forall j :: 0 <= j < |s| && old(s[0].prev) == s[j] ==>
                  && Children(s[..j + 1] + [item])
                  && Chain(if j + 1 < |s| then s[j + 1] else null, s[j + 1..])
      ensures ok && s != [] && old(s[0].prev) !in s ==> Chain(child, s) && child == old(child)
      ensures ok && s != [] && old(s[0].prev) == null ==> unchanged(s) && unchanged(item)
    {
      if item == null || item == this {
        return false;
      }
      if child == null {
        child := item;
        item.prev, item.next := item, null;
      } else if child.prev != null {
        ghost var j := Position(child.prev, s);
        SuffixObject(item, s, j);
        assert s[..|s|] == s;
      }
      return true;
    }

    static ghost function Position(item: Item, s: seq<Item>): (j: nat)
      ensures j < |s| ==> s[j] == item
      ensures j >= |s| ==> item !in s
    {
      if item in s then
        var j :| 0 <= j < |s| && s[j] == item;
        j
      else |s|
    }

    /** suffix_object behind the short cut, and the new short cut; j is where the old one leads. */
    method SuffixObject(item: Item, ghost s: seq<Item>, ghost j: nat)
      requires Chain(child, s) && s != [] && this !in s && item !in s && item != this && item.next == null
      requires child.prev != null && (if j < |s| then child.prev == s[j] else child.prev !in s)
      modifies child, child.prev, item
      ensures child == old(child)
      ensures j < |s| ==> Children(s[..j + 1] + [item]) && Chain(if j + 1 < |s| then s[j + 1] else null, s[j + 1..])
      ensures j >= |s| ==> Chain(child, s)
    {
      child.prev.next := item;
      item.prev := child.prev;
      child.prev := item;
      if j < |s| {
        ChainUpTo(child, s, j, item);
        ChainBeyond(s, j);
      }
    }

    /** Behind s[j] hangs a new item instead of the rest of s. */
    static lemma ChainUpTo(first: Item?, s: seq<Item>, j: nat, item: Item)
      requires j < |s| && NoDuplicates(s) && item !in s && first == s[0]
      requires s[j].next == item && item.next == null && item.prev == s[j]
      requires forall i {:trigger s[i].next} :: 0 <= i < j ==> s[i].next == s[i + 1]
      requires forall i {:trigger s[i].prev} :: 0 < i <= j ==> s[i].prev == s[i - 1]
      ensures Chain(first, s[..j + 1] + [item])
    {
      var r := s[..j + 1] + [item];
      assert forall i :: 0 <= i <= j ==> r[i] == s[i];
    }

    static lemma ChainBeyond(s: seq<Item>, j: nat)
      requires j < |s| && NoDuplicates(s) && (j + 1 < |s| ==> s[|s| - 1].next == null)
      requires forall i {:trigger s[i].next} :: j < i < |s| - 1 ==> s[i].next == s[i + 1]
      requires forall i {:trigger s[i].prev} :: j + 1 < i < |s| ==> s[i].prev == s[i - 1]
      ensures Chain(if j + 1 < |s| then s[j + 1] else null, s[j + 1..])
    {
      var r := s[j + 1..];
      assert forall i :: 0 <= i < |r| ==> r[i] == s[j + 1 + i];
    }

    /** If everything else is linked and the two neighbours of s[k] are linked to each other, the
        rest of s is a chain. */
    static lemma ChainWithout(first: Item?, s: seq<Item>, k: nat)
      requires k < |s| && NoDuplicates(s)
      requires first == if |s| == 1 then null else if k == 0 then s[1] else s[0]
      requires |s| > 1 ==> (if k + 1 == |s| then s[k - 1] else s[|s| - 1]).next == null
      requires forall i {:trigger s[i].next} :: 0 <= i < |s| - 1 && i != k && i + 1 != k ==> s[i].next == s[i + 1]
      requires forall i {:trigger s[i].prev} :: 0 < i < |s| && i != k && i != k + 1 ==> s[i].prev == s[i - 1]
      requires 0 < k < |s| - 1 ==> s[k - 1].next == s[k + 1] && s[k + 1].prev == s[k - 1]
      ensures Chain(first, RemoveIndex(s, k))
    {
      var r := RemoveIndex(s, k);
      assert forall i :: 0 <= i < |r| ==> r[i] == if i < k then s[i] else s[i + 1];
      forall i | 0 <= i < |r| - 1
        ensures r[i].next == r[i + 1]
      {
        if i < k {
          assert i + 1 != k ==> s[i].next == s[i + 1];
        } else {
          assert s[i + 1].next == s[i + 2];
        }
      }
      forall i | 0 < i < |r|
        ensures r[i].prev == r[i - 1]
      {
        if i < k {
          assert s[i].prev == s[i - 1];
        } else {
          assert i != k ==> s[i + 1].prev == s[i];
        }
      }
    }

    /** cJSON_DetachItemViaPointer */
    method DetachItemViaPointer(item: Item?, ghost s: seq<Item>, ghost k: nat) returns (detached: Item?)
      requires Children(s)
      requires item != null ==> k < |s| && s[k] == item
      modifies this`child, s
      ensures item == null ==> detached == null && child == old(child) && unchanged(s)
      ensures item != null ==>
                && detached == item && item.next == null && item.prev == null
                && Children(RemoveIndex(s, k))
    {
      if item != null {
        Neighbours(child, s, k);
      }
      if item == null || (item != child && item.prev == null) {
        return null;
      }
      if item != child {
        item.prev.next := item.next;
      }
      if item.next != null {
        item.next.prev := item.prev;
      }
      if item == child {
        child := item.next;
      } else if item.next == null {
        child.prev := item.prev;
      }
      item.prev, item.next := null, null;
      ChainWithout(child, s, k);
      return item;
    }

    /** cJSON_DetachItemFromArray and the detach_item_from_array of cJSON_Utils.c. */
    method DetachItemFromArray(which: nat, ghost s: seq<Item>) returns (detached: Item?)
      requires Children(s)
      modifies this`child, s
      ensures which >= |s| ==> detached == null && child == old(child) && unchanged(s)
      ensures which < |s| ==>
                && detached == s[which] && detached.next == null && detached.prev == null
                && Children(RemoveIndex(s, which))
    {
      var item := GetArrayItem(which, s);
      detached := DetachItemViaPointer(item, s, which);
    }

    static lemma ChainWith(first: Item?, s: seq<Item>, k: nat, item: Item)
      requires k < |s| && NoDuplicates(s) && item !in s
      requires first == if k == 0 then item else s[0]
      requires s[|s| - 1].next == null && item.next == s[k] && s[k].prev == item
      requires k > 0 ==> s[k - 1].next == item && item.prev == s[k - 1]
      requires forall i {:trigger s[i].next} :: 0 <= i < |s| - 1 && i + 1 != k ==> s[i].next == s[i + 1]
      requires forall i {:trigger s[i].prev} :: 0 < i < |s| && i != k ==> s[i].prev == s[i - 1]
      ensures Chain(first, InsertAt(s, k, item))
    {
      var r := InsertAt(s, k, item);
      assert forall i :: 0 <= i < |r| ==> r[i] == if i < k then s[i] else if i == k then item else s[i - 1];
      forall i | 0 <= i < |r| - 1
        ensures r[i].next == r[i + 1]
      {
        if i < k {
          assert i + 1 != k ==> s[i].next == s[i + 1];
        } else if i > k {
          assert s[i - 1].next == s[i];
        }
      }
      forall i | 0 < i < |r|
        ensures r[i].prev == r[i - 1]
      {
        if i < k {
          assert s[i].prev == s[i - 1];
        } else if i > k + 1 {
          assert s[i - 1].prev == s[i - 2];
        }
      }
    }

    method LinkBefore(after: Item, item: Item, ghost s: seq<Item>, ghost k: nat)
      requires Children(s) && k < |s| && s[k] == after
      requires item !in s && item != this
      modifies this`child, s, item
      ensures Children(InsertAt(s, k, item))
    {
      Neighbours(child, s, k);
      item.next := after;
      item.prev := after.prev;
      after.prev := item;
      if after == child {
        child := item;
      } else {
        item.prev.next := item;
      }
      ChainWith(child, s, k, item);
    }

    /** cJSON_InsertItemInArray: past the end the item is appended. */
    method InsertItemInArray(which: nat, item: Item, ghost s: seq<Item>) returns (ok: bool)
      requires Children(s) && item !in s && item != this && item.next == null
      modifies this`child, s, item
      ensures ok && Children(InsertAt(s, if which < |s| then which else |s|, item))
    {
      var after := GetArrayItem(which, s);
      if after == null {
        ok := AddItemToArray(item, s);
        assert InsertAt(s, |s|, item) == s + [item];
      } else {
        LinkBefore(after, item, s, which);
        ok := true;
      }
    }

    /** insert_item_in_array of cJSON_Utils.c: past the end the insertion fails. */
    method InsertItemInArrayStrictly(which: nat, item: Item, ghost s: seq<Item>) returns (ok: bool)
      requires Children(s) && item !in s && item != this && item.next == null
      modifies this`child, s, item
      ensures ok <==> which <= |s|
      ensures ok ==> Children(InsertAt(s, which, item))
      ensures !ok ==> child == old(child) && unchanged(s)
    {
      hide Chain, Children;
      ChildrenChain(s);
      var c, left := child, which;
      ghost var i := 0;
      while c != null && left > 0
        modifies {}
        invariant i <= |s| && i + left == which
        invariant c == if i < |s| then s[i] else null
        decreases left
      {
        Neighbours(child, s, i);
        c, left, i := c.next, left - 1, i + 1;
      }
      if left > 0 {
        return false;
      }
      if c == null {
        ok := AddItemToArray(item, s);
        assert InsertAt(s, |s|, item) == s + [item];
      } else {
        LinkBefore(c, item, s, which);
        ok := true;
      }
    }

    /** cJSON_ReplaceItemViaPointer */
    method ReplaceItemViaPointer(item: Item, replacement: Item, ghost s: seq<Item>, ghost k: nat) returns (ok: bool)
      requires Children(s) && k < |s| && s[k] == item
      requires replacement == item || (replacement !in s && replacement != this)
      modifies this`child, s, replacement
      ensures ok && Children(s[k := replacement])
      ensures replacement != item ==> item.next == null && item.prev == null
    {
      if replacement == item {
        return true;
      }
      Neighbours(child, s, k);
      replacement.next := item.next;
      replacement.prev := item.prev;
      if replacement.next != null {
        replacement.next.prev := replacement;
      }
      if child == item {
        if child.prev == child {
          replacement.prev := replacement;
        }
        child := replacement;
      } else {
        if replacement.prev != null {
          replacement.prev.next := replacement;
        }
        if replacement.next == null {
          child.prev := replacement;
        }
      }
      item.next, item.prev := null, null;
      ChainReplaced(child, s, k, replacement);
      return true;
    }

    /** The neighbours of s[k] are linked to the replacement, everything else among itself. */
    static lemma ChainReplaced(first: Item?, s: seq<Item>, k: nat, replacement: Item)
      requires k < |s| && NoDuplicates(s) && replacement !in s
      requires first == if k == 0 then replacement else s[0]
      requires replacement.next == if k + 1 < |s| then s[k + 1] else null
      requires k + 1 < |s| ==> s[|s| - 1].next == null && s[k + 1].prev == replacement
      requires k > 0 ==> s[k - 1].next == replacement && replacement.prev == s[k - 1]
      requires forall i {:trigger s[i].next} :: 0 <= i < |s| - 1 && i != k && i + 1 != k ==> s[i].next == s[i + 1]
      requires forall i {:trigger s[i].prev} :: 0 < i < |s| && i != k && i != k + 1 ==> s[i].prev == s[i - 1]
      ensures Chain(first, s[k := replacement])
    {
      var r := s[k := replacement];
      assert forall i :: 0 <= i < |r| ==> r[i] == if i == k then replacement else s[i];
      forall i | 0 <= i < |r| - 1
        ensures r[i].next == r[i + 1]
      {
        assert i != k && i + 1 != k ==> s[i].next == s[i + 1];
      }
      forall i | 0 < i < |r|
        ensures r[i].prev == r[i - 1]
      {
        assert i != k && i != k + 1 ==> s[i].prev == s[i - 1];
      }
    }

    // ---- sort_list ----

    static method IsSorted(list: Item, ghost s: seq<Item>, cs: bool) returns (sorted: bool)
      requires Chain(list, s)
      ensures sorted <==> StrictlyAscending(s, ItemKey, cs)
    {
      var current: Item? := list;
      ghost var i := 0;
      while current != null && current.next != null
        invariant i < |s| && current == s[i]
        invariant forall j :: 0 <= j < i ==> Compare(s[j], s[j + 1], ItemKey, cs) < 0
        decreases |s| - i
      {
        Neighbours(list, s, i);
        var diff := CompareStrings(current.key, current.next.key, cs);
        if diff >= 0 {
          assert Compare(s[i], s[i + 1], ItemKey, cs) >= 0;
          return false;
        }
        current, i := current.next, i + 1;
      }
      Neighbours(list, s, i);
      return true;
    }

    /** Two pointers, one twice as fast, find the middle, and the chain is cut before it. */
    static method SplitInTheMiddle(list: Item, ghost s: seq<Item>) returns (second: Item?)
      requires Chain(list, s) && |s| >= 2
      modifies s
      ensures Chain(list, s[..Middle(|s|)]) && Chain(second, s[Middle(|s|)..])
      ensures list.prev == old(list.prev) && second != null && second.prev == null
    {
      second := list;
      var current: Item? := list;
      ghost var m, c := 0, 0;
      while current != null
        modifies {}
        invariant m <= |s| && c == (if 2 * m <= |s| then 2 * m else |s|)
        invariant c < |s| ==> m < |s|
        invariant c == |s| ==> m == Middle(|s|)
        invariant second == if m < |s| then s[m] else null
        invariant current == if c < |s| then s[c] else null
        decreases |s| - c
      {
        Neighbours(list, s, m);
        Neighbours(list, s, c);
        second, m := second.next, m + 1;
        current, c := current.next, c + 1;
        if current != null {
          current, c := current.next, c + 1;
        }
      }
      CutBefore(list, second, s, m);
    }

    static method CutBefore(list: Item, second: Item?, ghost s: seq<Item>, ghost m: nat)
      requires Chain(list, s) && 0 < m < |s| && second == s[m]
      modifies s
      ensures Chain(list, s[..m]) && Chain(second, s[m..])
      ensures list.prev == old(list.prev) && second.prev == null
    {
      Neighbours(list, s, m);
      if second != null && second.prev != null {
        second.prev.next := null;
        second.prev := null;
      }
    }

    /** What has been merged so far: linked among itself, its last `next` still loose. */
    static ghost predicate Merged(result: Item?, tail: Item?, done: seq<Item>)
      reads done
    {
      && NoDuplicates(done)
      && (result == if done == [] then null else done[0])
      && (tail == if done == [] then null else done[|done| - 1])
      && (forall i {:trigger done[i].next} :: 0 <= i < |done| - 1 ==> done[i].next == done[i + 1])
      && (forall i {:trigger done[i].prev} :: 0 < i < |done| ==> done[i].prev == done[i - 1])
    }

    static lemma NothingMerged()
      ensures Merged(null, null, [])
    {
    }

    static lemma MergedEnds(result: Item?, tail: Item?, done: seq<Item>)
      requires Merged(result, tail, done)
      ensures done == [] ==> result == null == tail
      ensures done != [] ==> result == done[0] && tail == done[|done| - 1]
    {
    }

    static ghost predicate Apart(a: seq<Item>, b: seq<Item>) {
      forall i, j :: 0 <= i < |a| && 0 <= j < |b| ==> a[i] != b[j]
    }

    /** The state of the merge: the merged items and the two chains that are left. */
    static ghost predicate Merging(result: Item?, tail: Item?, done: seq<Item>,
                                   first: Item?, a: seq<Item>, second: Item?, b: seq<Item>)
      reads done, a, b
    {
      && Merged(result, tail, done) && Chain(first, a) && Chain(second, b)
      && Apart(done, a) && Apart(done, b) && Apart(a, b)
    }

    /** Move the first item of a chain behind the merged ones. */
    static method Take(result: Item?, tail: Item?, smaller: Item, second: Item?,
                       ghost done: seq<Item>, ghost a: seq<Item>, ghost b: seq<Item>) returns (head: Item)
      requires Merging(result, tail, done, smaller, a, second, b) && a != []
      modifies tail, smaller`prev
      ensures Merging(head, smaller, done + [smaller], smaller.next, a[1..], second, b)
      ensures head == (done + [smaller])[0] && head.prev == old(head.prev)
    {
      if result == null {
        head := smaller;
      } else {
        tail.next := smaller;
        smaller.prev := tail;
        head := result;
      }
      ghost var d := done + [smaller];
      assert forall i :: 0 <= i < |d| - 1 ==> d[i] == done[i];
    }

    /** Hang what is left of one chain behind the merged items. */
    static method AppendRest(result: Item?, tail: Item?, rest: Item, ghost done: seq<Item>, ghost r: seq<Item>)
        returns (all: Item)
      requires Merged(result, tail, done) && Chain(rest, r) && r != [] && Apart(done, r)
      modifies tail, rest
      ensures Chain(all, done + r)
      ensures done != [] ==> all.prev == old(done[0].prev)
      ensures done == [] ==> all.prev == old(rest.prev)
    {
      if result == null {
        assert done + r == r;
        return rest;
      }
      tail.next := rest;
      rest.prev := tail;
      ghost var d := done + r;
      assert forall i :: 0 <= i < |d| ==> d[i] == if i < |done| then done[i] else r[i - |done|];
      forall i | 0 <= i < |d| - 1
        ensures d[i].next == d[i + 1]
      {
        if i < |done| - 1 {
          assert done[i].next == done[i + 1];
        } else if i >= |done| {
          assert r[i - |done|].next == r[i - |done| + 1];
        }
      }
      forall i | 0 < i < |d|
        ensures d[i].prev == d[i - 1]
      {
        if i < |done| {
          assert done[i].prev == done[i - 1];
        } else if i > |done| {
          assert r[i - |done|].prev == r[i - |done| - 1];
        }
      }
      return result;
    }

    static ghost predicate Inside(a: seq<Item>, s: seq<Item>) {
      forall i :: 0 <= i < |a| ==> a[i] in s
    }

    /** Taking from the left or from the right, what is still to come follows what is done. */
    static lemma MergeProgress(done: seq<Item>, fa: seq<Item>, fb: seq<Item>, cs: bool)
      requires fa != [] && fb != []
      ensures Compare(fa[0], fb[0], ItemKey, cs) < 0 ==>
                done + MergeLists(fa, fb, ItemKey, cs) == done + [fa[0]] + MergeLists(fa[1..], fb, ItemKey, cs)
      ensures Compare(fa[0], fb[0], ItemKey, cs) >= 0 ==>
                done + MergeLists(fa, fb, ItemKey, cs) == done + [fb[0]] + MergeLists(fa, fb[1..], ItemKey, cs)
    {
      hide Compare, MergeLists;
      MergeStep(fa, fb, cs);
      Regroup(done, [fa[0]], MergeLists(fa[1..], fb, ItemKey, cs));
      Regroup(done, [fb[0]], MergeLists(fa, fb[1..], ItemKey, cs));
    }

    static lemma MergeStep(fa: seq<Item>, fb: seq<Item>, cs: bool)
      requires fa != [] && fb != []
      ensures MergeLists(fa, fb, ItemKey, cs) ==
              if Compare(fa[0], fb[0], ItemKey, cs) < 0 then [fa[0]] + MergeLists(fa[1..], fb, ItemKey, cs)
              else [fb[0]] + MergeLists(fa, fb[1..], ItemKey, cs)
    {
      hide Compare;
    }

    static lemma MergeEnds(done: seq<Item>, fa: seq<Item>, fb: seq<Item>, cs: bool)
      ensures fa == [] ==> done + MergeLists(fa, fb, ItemKey, cs) == done + fb
      ensures fb == [] ==> done + MergeLists(fa, fb, ItemKey, cs) == done + fa
    {
    }

    /** One round of the merge: the smaller first item moves over, the right one of equal ones. */
    static method MergeOne(result: Item?, tail: Item?, first: Item, second: Item,
                           ghost done: seq<Item>, ghost fa: seq<Item>, ghost fb: seq<Item>, cs: bool)
        returns (head: Item, taken: Item, first': Item?, second': Item?, ghost fa': seq<Item>, ghost fb': seq<Item>)
      requires Merging(result, tail, done, first, fa, second, fb) && fa != [] && fb != []
      modifies tail, first`prev, second`prev
      ensures Merging(head, taken, done + [taken], first', fa', second', fb')
      ensures done + MergeLists(fa, fb, ItemKey, cs) == done + [taken] + MergeLists(fa', fb', ItemKey, cs)
      ensures (taken == first && fa' == fa[1..] && fb' == fb) || (taken == second && fa' == fa && fb' == fb[1..])
      ensures head == (done + [taken])[0] && head.prev == old(head.prev)
    {
      hide MergeLists;
      MergeProgress(done, fa, fb, cs);
      var diff := CompareStrings(first.key, second.key, cs);
      if diff < 0 {
        head := Take(result, tail, first, second, done, fa, fb);
        taken, first', second', fa', fb' := first, first.next, second, fa[1..], fb;
      } else {
        head := Take(result, tail, second, first, done, fb, fa);
        taken, first', second', fa', fb' := second, first, second.next, fa, fb[1..];
      }
    }

    /** The merge loop of sort_list. */
    static method MergeChains(left: Item, right: Item, ghost a: seq<Item>, ghost b: seq<Item>, ghost s: seq<Item>, cs: bool)
        returns (merged: Item)
      requires Chain(left, a) && Chain(right, b) && Apart(a, b) && a != [] && b != []
      requires Inside(a, s) && Inside(b, s)
      modifies s
      ensures Chain(merged, MergeLists(a, b, ItemKey, cs))
      ensures merged == left || merged == right
      ensures merged.prev == old(merged.prev)
    {
      hide MergeLists, Merged;
      NothingMerged();
      var first: Item?, second: Item?, result: Item?, tail: Item? := left, right, null, null;
      ghost var done: seq<Item>, fa, fb := [], a, b;
      while first != null && second != null
        invariant Merging(result, tail, done, first, fa, second, fb)
        invariant Inside(done, s) && Inside(fa, s) && Inside(fb, s)
        invariant done + MergeLists(fa, fb, ItemKey, cs) == MergeLists(a, b, ItemKey, cs)
        invariant done == [] ==> fa == a && fb == b
        invariant done == [] ==> left.prev == old(left.prev) && right.prev == old(right.prev)
        invariant done != [] ==> (result == left || result == right) && result.prev == old(result.prev)
        invariant fa != [] || fb != []
        decreases |fa| + |fb|
      {
        MergedEnds(result, tail, done);
        result, tail, first, second, fa, fb := MergeOne(result, tail, first, second, done, fa, fb, cs);
        done := done + [tail];
      }
      MergeEnds(done, fa, fb, cs);
      MergedEnds(result, tail, done);
      if first != null {
        merged := AppendRest(result, tail, first, done, fa);
      } else {
        merged := AppendRest(result, tail, second, done, fb);
      }
    }

    /** sort_list gives the chain of the sorted sequence. The first item keeps its `prev` if it
        stays first; any other first item has none. */
    static method SortList(list: Item?, ghost s: seq<Item>, cs: bool) returns (sorted: Item?)
      requires Chain(list, s)
      modifies s
      ensures Chain(sorted, Sort(s, ItemKey, cs))
      ensures sorted != null ==> sorted.prev == if sorted == list then old(list.prev) else null
      decreases |s|, 1
    {
      hide Sort, MergeLists;
      SortSplit(s, ItemKey, cs);
      if list == null || list.next == null {
        if list != null {
          Neighbours(list, s, 0);
        }
        return list;
      }
      Neighbours(list, s, 0);
      var ascending := IsSorted(list, s, cs);
      if ascending {
        return list;
      }
      var second := SplitInTheMiddle(list, s);
      sorted := SortHalves(list, second, s[..Middle(|s|)], s[Middle(|s|)..], s, cs);
    }

    static method SortHalves(list: Item, second: Item,
                             ghost a: seq<Item>, ghost b: seq<Item>, ghost s: seq<Item>, cs: bool)
        returns (sorted: Item)
      requires Chain(list, a) && Chain(second, b) && Apart(a, b) && second.prev == null
      requires Inside(a, s) && Inside(b, s) && |a| < |s| && |b| < |s|
      modifies s
      ensures Chain(sorted, MergeLists(Sort(a, ItemKey, cs), Sort(b, ItemKey, cs), ItemKey, cs))
      ensures sorted.prev == if sorted == list then old(list.prev) else null
      decreases |s|, 0
    {
      hide Sort, MergeLists;
      SortPermutes(a, cs);
      SortPermutes(b, cs);
      ghost var sa, sb := Sort(a, ItemKey, cs), Sort(b, ItemKey, cs);
      assert Apart(sa, sb) && Apart(sa, b);
      var first := SortList(list, a, cs);
      var last := SortList(second, b, cs);
      sorted := MergeChains(first, last, sa, sb, s, cs);
    }

    static lemma SortPermutes(s: seq<Item>, cs: bool)
      ensures forall i :: 0 <= i < |s| ==> Sort(s, ItemKey, cs)[i] in s
    {
      SortCorrect(s, ItemKey, cs);
      forall i | 0 <= i < |s|
        ensures Sort(s, ItemKey, cs)[i] in s
      {
        assert Sort(s, ItemKey, cs)[i] in multiset(s);
      }
    }

    /** The first key lies strictly below all others and the last one strictly above. */
    static predicate EndsStay(s: seq<Item>, cs: bool) {
      s == [] || (FirstIsLeast(s, ItemKey, cs) && LastIsGreatest(s, ItemKey, cs))
    }

    static lemma EndsStayExact(s: seq<Item>, cs: bool)
      requires NoDuplicates(s) && s != []
      ensures Sort(s, ItemKey, cs)[0] == s[0] <==> FirstIsLeast(s, ItemKey, cs)
      ensures Sort(s, ItemKey, cs)[|s| - 1] == s[|s| - 1] <==> LastIsGreatest(s, ItemKey, cs)
    {
      SortKeepsFirst(s, ItemKey, cs);
      SortKeepsLast(s, ItemKey, cs);
    }

    /** sort_object: a first item with the least key stays first and still points to the item that was
        the last one; any other first item points to none. So the short cut to the end survives exactly
        when the first key is the least and the last key the greatest. */
    method SortObject(ghost s: seq<Item>, cs: bool)
      requires Children(s)
      modifies this`child, s
      ensures this !in Sort(s, ItemKey, cs) && Chain(child, Sort(s, ItemKey, cs))
      ensures child != null ==> child.prev == if FirstIsLeast(s, ItemKey, cs) then s[|s| - 1] else null
      ensures child != null ==> (child == s[0] <==> FirstIsLeast(s, ItemKey, cs))
      ensures Children(Sort(s, ItemKey, cs)) <==> EndsStay(s, cs)
    {
      hide Sort, FirstIsLeast, LastIsGreatest;
      if child != null {
        Neighbours(child, s, 0);
        EndsStayExact(s, cs);
      }
      child := SortList(child, s, cs);
      SortPermutes(s, cs);
    }

    /** Appending to a sorted object, as an add operation does after a test of the object: it gives the
        sorted items and the new one exactly when the first key was the least and the last key the
        greatest. Without the first condition the new item is not in the list; without only the second
        the items sorted behind the old last one are lost. */
    method AppendAfterSort(item: Item, ghost s: seq<Item>, cs: bool) returns (ok: bool)
      requires Children(s) && item !in s && item != this && item.next == null
      modifies this`child, s, item
      ensures ok
      ensures var t := Sort(s, ItemKey, cs);
              && (Children(t + [item]) <==> EndsStay(s, cs))
              && (s != [] && !FirstIsLeast(s, ItemKey, cs) ==> Chain(child, t))
              && (s != [] && FirstIsLeast(s, ItemKey, cs) ==>
                    forall j :: 0 <= j < |t| && t[j] == s[|s| - 1] ==> Children(t[..j + 1] + [item]))
    {
      hide Sort, Chain, Children, FirstIsLeast, LastIsGreatest;
      ghost var t := Sort(s, ItemKey, cs);
      ChildrenChain(s);
      if s != [] {
        EndsStayExact(s, cs);
      }
      SortObject(s, cs);
      SortPermutes(s, cs);
      ChainHead(child, t);
      ok := AddItemToArray(item, t);
      if s != [] {
        LastIsSorted(s, cs);
        AppendedExactly(t, s[0], s[|s| - 1], item);
      }
    }

    static lemma LastIsSorted(s: seq<Item>, cs: bool)
      requires s != []
      ensures s[|s| - 1] in Sort(s, ItemKey, cs)
    {
      SortCorrect(s, ItemKey, cs);
      assert s[|s| - 1] in multiset(Sort(s, ItemKey, cs));
    }

    /** Of two chains from the same item one is not the beginning of the other. */
    lemma AppendedExactly(t: seq<Item>, first: Item, last: Item, item: Item)
      requires item !in t && t != [] && last in t && NoDuplicates(t)
      requires t[0] != first ==> Chain(child, t)
      requires t[0] == first ==> forall j :: 0 <= j < |t| && t[j] == last ==> Children(t[..j + 1] + [item])
      ensures Children(t + [item]) <==> t[0] == first && t[|t| - 1] == last
    {
      var r, n := t + [item], |t| - 1;
      assert r[n] == t[n] && r[n + 1] == item;
      if t[0] == first {
        var j := Position(last, t);
        var q := t[..j + 1] + [item];
        assert Children(q) && q[j] == r[j] && q[j + 1] == item;
        if j == n {
          assert q == r;
        } else {
          assert t[j] != t[n] && r[j + 1] == t[j + 1] != item;
          assert q[j].next == q[j + 1];
        }
      }
    }

    /** An object with the keys b and a, sorted and then appended to, does not get the new member. */
    method AppendLeavesOut(a: Item, b: Item, item: Item, cs: bool) returns (ok: bool)
      requires a.key == "a" && b.key == "b"
      requires Children([b, a]) && item !in [a, b] && item != this && item.next == null
      modifies this`child, a, b, item
      ensures ok && Chain(child, [a, b])
    {
      GoesFirst(a, b, cs);
      ok := AppendAfterSort(item, [b, a], cs);
    }

    static lemma GoesFirst(a: Item, b: Item, cs: bool)
      requires a.key == "a" && b.key == "b"
      ensures Sort([b, a], ItemKey, cs) == [a, b] && !FirstIsLeast([b, a], ItemKey, cs)
    {
      assert Fold("a") == "a" && Fold("b") == "b";
      var s := [b, a];
      assert Compare(s[0], s[1], ItemKey, cs) >= 0;
      assert s[..1] == [b] && s[1..] == [a];
      assert MergeLists([b], [a], ItemKey, cs) == [a] + MergeLists([b], [], ItemKey, cs);
    }

    static lemma StaysFirst(a: Item, b: Item, c: Item, cs: bool)
      requires a.key == "a" && b.key == "b" && c.key == "c"
      ensures Sort([a, c, b], ItemKey, cs) == [a, b, c] && FirstIsLeast([a, c, b], ItemKey, cs)
    {
      assert Fold("a") == "a" && Fold("b") == "b" && Fold("c") == "c";
      assert Compare(a, c, ItemKey, cs) < 0 && Compare(a, b, ItemKey, cs) < 0 && Compare(c, b, ItemKey, cs) >= 0;
      var s := [a, c, b];
      assert !StrictlyAscending(s, ItemKey, cs) by {
        assert Compare(s[1], s[2], ItemKey, cs) >= 0;
      }
      assert s[..2] == [a, c] && s[2..] == [b];
      assert StrictlyAscending([a, c], ItemKey, cs);
      assert MergeLists([c], [b], ItemKey, cs) == [b] + MergeLists([c], [], ItemKey, cs);
      assert [a, c][1..] == [c] && [b][1..] == [];
      assert MergeLists([a, c], [b], ItemKey, cs) == [a] + MergeLists([c], [b], ItemKey, cs);
    }

    /** An object with the keys a, c, b, sorted and then appended to, loses its member c. */
    method AppendLosesMember(a: Item, b: Item, c: Item, item: Item, cs: bool) returns (ok: bool)
      requires a.key == "a" && b.key == "b" && c.key == "c"
      requires Children([a, c, b]) && item !in [a, b, c] && item != this && item.next == null
      modifies this`child, a, b, c, item
      ensures ok && Children([a, b, item])
    {
      StaysFirst(a, b, c, cs);
      ok := AppendAfterSort(item, [a, c, b], cs);
      ghost var t := [a, b, c];
      assert t[1] == b && t[..2] + [item] == [a, b, item];
    }
  }
}
