/** The printer of cJSON.c on its growing buffer. Whatever the buffer does, what is printed is
    the text of the tree. */
module Printing {
  import opened CString
  import opened JsonTree
  import opened JsonText
  import opened Sequences

  class PrintBuffer {
    var buffer: array?<char>
    var length: nat
    var offset: nat
    var depth: nat
    const noalloc: bool
    const format: bool
    const canReallocate: bool

    constructor (buffer: array<char>, length: nat, noalloc: bool, format: bool, canReallocate: bool)
      requires length <= buffer.Length
      ensures this.buffer == buffer && this.length == length && offset == 0 && depth == 0
      ensures this.noalloc == noalloc && this.format == format && this.canReallocate == canReallocate
    {
      this.buffer, this.length, this.offset, this.depth := buffer, length, 0, 0;
      this.noalloc, this.format, this.canReallocate := noalloc, format, canReallocate;
    }

    ghost predicate Valid()
      reads this
    {
      && buffer != null && length <= buffer.Length && length <= INT_MAX
      && (offset < length || (offset == length == 0 && (noalloc || canReallocate)))
    }

    /** Exactly this text lies below the offset. */
    ghost predicate Holds(text: string)
      reads this, buffer
    {
      Valid() && offset == |text| && buffer[..offset] == text
    }

    /** The text is complete and terminated; a tail of it may lie above the offset. */
    ghost predicate Wrote(text: string)
      reads this, buffer
    {
      && Valid()
      && offset <= |text| < length
      && buffer[..|text|] == text && buffer[|text|] == '\0'
      && NulFree(text[offset..])
    }

    /** Nothing but the buffer, the length and the offset may differ. */
    twostate predicate Kept()
      reads this
    {
      && depth == old(depth)
      && (noalloc ==> buffer == old(buffer) && length == old(length))
    }

    /** ensure: room for `needed` characters and one more. Without allocation it fails exactly when
        the room is not there; otherwise only when memory or the int range runs out. */
    method Ensure(needed: nat, ghost text: string) returns (ok: bool)
      requires Holds(text)
      modifies this`buffer, this`length
      ensures Kept() && (buffer == null || buffer == old(buffer) || fresh(buffer))
      ensures ok ==> Holds(text) && offset + needed + 1 <= length
      ensures noalloc ==> (ok <==> offset + needed + 1 <= length)
    {
      if length > 0 && offset >= length {
        return false;
      }
      if needed > INT_MAX {
        return false;
      }
      var total := needed + offset + 1;
      if total <= length {
        return true;
      }
      if noalloc {
        return false;
      }
      var newSize;
      if total > INT_MAX / 2 {
        if total <= INT_MAX {
          newSize := INT_MAX;
        } else {
          return false;
        }
      } else {
        newSize := total * 2;
      }
      if * {
        // the allocation failed
        buffer, length := null, 0;
        return false;
      }
      var newBuffer := new char[newSize](_ => '\0');
      var kept := if canReallocate then length else offset + 1;
      var old' := buffer;
      forall i | 0 <= i < kept {
        newBuffer[i] := old'[i];
      }
      length, buffer := newSize, newBuffer;
      return true;
    }

    /** s at position `at`, without a NUL. */
    method WriteChars(at: nat, s: string)
      requires buffer != null && at + |s| <= buffer.Length
      modifies buffer
      ensures buffer[..at + |s|] == old(buffer[..at]) + s
    {
      forall i | 0 <= i < |s| {
        buffer[at + i] := s[i];
      }
    }

    /** A token that is stepped over at once. */
    method Advance(s: string, slack: nat, ghost text: string) returns (ok: bool)
      requires Holds(text)
      modifies this`buffer, this`length, this`offset, buffer
      ensures Kept() && (buffer == null || buffer == old(buffer) || fresh(buffer))
      ensures ok ==> Holds(text + s)
      ensures noalloc ==> (ok <==> |text| + |s| + slack + 1 <= length)
    {
      ok := Ensure(|s| + slack, text);
      if ok {
        WriteChars(offset, s);
        offset := offset + |s|;
      }
    }

    /** A token written at the offset and terminated; it stays for update_offset to step over. */
    method Token(s: string, ghost text: string) returns (ok: bool)
      requires Holds(text) && NulFree(s)
      modifies this`buffer, this`length, buffer
      ensures Kept() && (buffer == null || buffer == old(buffer) || fresh(buffer))
      ensures ok ==> Wrote(text + s)
      ensures noalloc ==> (ok <==> |text| + |s| + 2 <= length)
    {
      ok := Ensure(|s| + 1, text);
      if ok {
        WriteChars(offset, s);
        buffer[offset + |s|] := '\0';
      }
    }

    /** update_offset: strlen of what lies above the offset. */
    method UpdateOffset(ghost text: string)
      requires Wrote(text)
      modifies this`offset
      ensures Holds(text)
    {
      forall k | offset <= k < |text|
        ensures buffer[k] != '\0'
      {
        assert buffer[..|text|][k] == text[offset..][k - offset];
      }
      var n := 0;
      while buffer[offset + n] != '\0'
        invariant offset + n <= |text|
        decreases |text| - n
      {
        n := n + 1;
      }
      offset := offset + n;
    }

    static method EscapeCharacters(s: string) returns (n: nat)
      ensures n == |Escape(s)| - |s|
    {
      n := 0;
      var i := 0;
      while i < |s|
        invariant i <= |s| && n == |Escape(s[..i])| - i
      {
        EscapeStep(s, i);
        n := n + |EscapeChar(s[i])| - 1;
        i := i + 1;
      }
      assert s[..i] == s;
    }

    /** The character loop of print_string_ptr. */
    method WriteEscaped(start: nat, s: string)
      requires buffer != null && start + |Escape(s)| <= buffer.Length
      modifies buffer
      ensures buffer[..start + |Escape(s)|] == old(buffer[..start]) + Escape(s)
    {
      ghost var head := buffer[..start];
      var i, at := 0, start;
      while i < |s|
        invariant i <= |s| && start <= at == start + |Escape(s[..i])| <= start + |Escape(s)|
        invariant buffer[..at] == head + Escape(s[..i])
      {
        EscapeStep(s, i);
        Regroup(head, Escape(s[..i]), EscapeChar(s[i]));
        WriteChars(at, EscapeChar(s[i]));
        at := at + |EscapeChar(s[i])|;
        i := i + 1;
      }
      assert s[..i] == s;
    }

    /** The literal between its quotes, and the NUL behind it. */
    method WriteQuoted(start: nat, s: string, escapes: nat)
      requires buffer != null && escapes == |Escape(s)| - |s| && start + |Quote(s)| < buffer.Length
      modifies buffer
      ensures buffer[..start + |Quote(s)|] == old(buffer[..start]) + Quote(s)
      ensures buffer[start + |Quote(s)|] == '\0'
    {
      hide Escape;
      WriteChars(start, "\"");
      if escapes == 0 {
        NothingEscaped(s);
        WriteChars(start + 1, s);
      } else {
        WriteEscaped(start + 1, s);
      }
      var end := start + 1 + |s| + escapes;
      WriteChars(end, "\"");
      Pieces(old(buffer[..start]), "\"", Escape(s), "\"");
      buffer[end + 1] := '\0';
    }

    /** print_string_ptr: one pass counts, the other writes into the room asked for. */
    method PrintStringPtr(s: string, ghost text: string) returns (ok: bool)
      requires Holds(text) && NulFree(s)
      modifies this`buffer, this`length, buffer
      ensures Kept() && (buffer == null || buffer == old(buffer) || fresh(buffer))
      ensures ok ==> Wrote(text + Quote(s))
      ensures noalloc ==> (ok <==> |text| + |Quote(s)| + 2 <= length)
    {
      var escapes := EscapeCharacters(s);
      ok := Ensure(|s| + escapes + 3, text);
      if ok {
        WriteQuoted(offset, s, escapes);
        EscapeNulFree(s);
        NulFreeConcat(Escape(s), "\"");
        assert (text + Quote(s))[offset..] == Quote(s);
      }
    }

    static lemma Pieces(text: string, a: string, b: string, c: string)
      ensures text + (a + b + c) == text + a + b + c
      ensures |text + (a + b + c)| == |text| + |a| + |b| + |c|
    {
    }

    static lemma {:induction false} NothingEscaped(s: string)
      requires |Escape(s)| == |s|
      ensures Escape(s) == s
    {
      if s != "" {
        NothingEscaped(s[1..]);
        assert s == [s[0]] + s[1..];
      }
    }

    /** print_value. On success the buffer holds the text so far and the text of the value; with
        a preallocated buffer it succeeds exactly when that text and two more characters fit. */
    method PrintValue(t: Json, ghost text: string) returns (ok: bool)
      requires Holds(text) && Printable(t)
      modifies this, buffer
      ensures buffer == null || buffer == old(buffer) || fresh(buffer)
      ensures ok ==> Wrote(text + Render(t, format, old(depth))) && depth == old(depth)
      ensures noalloc ==> buffer == old(buffer) && length == old(length)
      ensures noalloc ==> (ok <==> |text| + |Render(t, format, old(depth))| + 2 <= length)
      decreases t, 0
    {
      match t
      case Null => ok := Token("null", text);
      case False => ok := Token("false", text);
      case True => ok := Token("true", text);
      case Number(n) => ok := PrintNumber(n, text);
      case String(s) => ok := PrintStringPtr(s, text);
      case Raw(s) => ok := Token(s, text);
      case Array(items) => ok := PrintArray(items, text);
      case Object(ms) => ok := PrintObject(ms, text);
    }

    /** print_number moves the offset itself. */
    method PrintNumber(n: int, ghost text: string) returns (ok: bool)
      requires Holds(text)
      modifies this`buffer, this`length, this`offset, buffer
      ensures Kept() && (buffer == null || buffer == old(buffer) || fresh(buffer))
      ensures ok ==> Wrote(text + Signed(n))
      ensures noalloc ==> (ok <==> |text| + |Signed(n)| + 2 <= length)
    {
      ok := Token(Signed(n), text);
      if ok {
        offset := offset + |Signed(n)|;
      }
    }

    /** A value and the separator behind it. */
    method PrintThen(t: Json, separator: string, ghost text: string) returns (ok: bool)
      requires Holds(text) && Printable(t)
      modifies this, buffer
      ensures buffer == null || buffer == old(buffer) || fresh(buffer)
      ensures ok ==> Holds(text + (Render(t, format, depth) + separator)) && depth == old(depth)
      ensures noalloc ==> buffer == old(buffer) && length == old(length)
      ensures noalloc && |text| + |Render(t, format, old(depth))| + |separator| + 2 <= length ==> ok
      decreases t, 1
    {
      ghost var value := Render(t, format, depth);
      ok := PrintValue(t, text);
      if ok {
        UpdateOffset(text + value);
        ok := Advance(separator, 1, text + value);
        Regroup(text, value, separator);
      }
    }

    /** One element and what separates it from the next. */
    method PrintItem(t: Json, more: bool, ghost text: string) returns (ok: bool)
      requires Holds(text) && Printable(t)
      modifies this, buffer
      ensures buffer == null || buffer == old(buffer) || fresh(buffer)
      ensures ok ==> Holds(text + ItemText(t, more, format, depth)) && depth == old(depth)
      ensures noalloc ==> buffer == old(buffer) && length == old(length)
      ensures noalloc && |text| + |ItemText(t, more, format, old(depth))| + 2 <= length ==> ok
      decreases t, 2
    {
      if more {
        ok := PrintThen(t, if format then ", " else ",", text);
      } else {
        ghost var value := Render(t, format, depth);
        ok := PrintValue(t, text);
        if ok {
          UpdateOffset(text + value);
          assert value + "" == value;
        }
      }
    }

    /** One step of the loops below: what is to come, seen from after the next chunk. */
    static lemma NextChunk(goal: string, now: string, chunk: string, rest: string)
      requires goal == now + (chunk + rest)
      ensures goal == now + chunk + rest
      ensures |now| + |chunk| <= |goal|
    {
    }

    method PrintItems(items: seq<Json>, ghost text: string) returns (ok: bool)
      requires Holds(text) && forall i :: 0 <= i < |items| ==> Printable(items[i])
      modifies this, buffer
      ensures buffer == null || buffer == old(buffer) || fresh(buffer)
      ensures ok ==> Holds(text + RenderItems(items, format, depth)) && depth == old(depth)
      ensures noalloc ==> buffer == old(buffer) && length == old(length)
      ensures noalloc && |text| + |RenderItems(items, format, old(depth))| + 2 <= length ==> ok
      decreases items, 0
    {
      hide RenderItems, ItemText, Holds, Printable;
      ghost var goal := text + RenderItems(items, format, depth);
      ghost var now := text;
      var i := 0;
      assert items[0..] == items;
      NoMoreItems(format, depth);
      while i < |items|
        invariant i <= |items| && depth == old(depth)
        invariant Holds(now) && (buffer == null || buffer == old(buffer) || fresh(buffer))
        invariant noalloc ==> buffer == old(buffer) && length == old(length)
        invariant goal == now + RenderItems(items[i..], format, depth)
      {
        ghost var chunk := ItemText(items[i], i + 1 < |items|, format, depth);
        NextItem(items, i, format, depth);
        NextChunk(goal, now, chunk, RenderItems(items[i + 1..], format, depth));
        ok := PrintItem(items[i], i + 1 < |items|, now);
        if !ok {
          return;
        }
        now, i := now + chunk, i + 1;
      }
      assert items[i..] == [] && goal == now;
      ok := true;
    }

    static lemma NextItem(items: seq<Json>, i: nat, fmt: bool, depth: nat)
      requires i < |items|
      ensures RenderItems(items[i..], fmt, depth) ==
              ItemText(items[i], i + 1 < |items|, fmt, depth) + RenderItems(items[i + 1..], fmt, depth)
    {
      hide ItemText;
      assert items[i..][1..] == items[i + 1..];
    }

    static lemma NoMoreItems(fmt: bool, depth: nat)
      ensures RenderItems([], fmt, depth) == "" == RenderMembers([], fmt, depth)
    {
    }

    /** The bracket in front of the children. */
    method Open(bracket: string, slack: nat, ghost text: string) returns (ok: bool)
      requires Holds(text)
      modifies this, buffer
      ensures buffer == null || buffer == old(buffer) || fresh(buffer)
      ensures ok ==> Holds(text + bracket) && depth == old(depth) + 1
      ensures noalloc ==> buffer == old(buffer) && length == old(length)
      ensures noalloc ==> (ok <==> |text| + |bracket| + slack + 1 <= length)
    {
      ok := Advance(bracket, slack, text);
      if ok {
        depth := depth + 1;
      }
    }

    /** The bracket behind them. */
    method Close(bracket: string, ghost text: string) returns (ok: bool)
      requires Holds(text) && NulFree(bracket) && depth > 0
      modifies this, buffer
      ensures buffer == null || buffer == old(buffer) || fresh(buffer)
      ensures ok ==> Wrote(text + bracket) && depth == old(depth) - 1
      ensures noalloc ==> buffer == old(buffer) && length == old(length)
      ensures noalloc ==> (ok <==> |text| + |bracket| + 2 <= length)
    {
      ok := Token(bracket, text);
      depth := depth - 1;
    }

    static lemma ArrayText(items: seq<Json>, fmt: bool, depth: nat)
      ensures Render(Array(items), fmt, depth) == "[" + RenderItems(items, fmt, depth + 1) + "]"
    {
    }

    method PrintArray(items: seq<Json>, ghost text: string) returns (ok: bool)
      requires Holds(text) && forall i :: 0 <= i < |items| ==> Printable(items[i])
      modifies this, buffer
      ensures buffer == null || buffer == old(buffer) || fresh(buffer)
      ensures ok ==> Wrote(text + Render(Array(items), format, old(depth))) && depth == old(depth)
      ensures noalloc ==> buffer == old(buffer) && length == old(length)
      ensures noalloc ==> (ok <==> |text| + |Render(Array(items), format, old(depth))| + 2 <= length)
      decreases items, 1
    {
      hide RenderItems, Printable, Render, Holds, Wrote;
      ArrayText(items, format, depth);
      ghost var inner := RenderItems(items, format, depth + 1);
      Pieces(text, "[", inner, "]");
      ok := Open("[", 0, text);
      if ok {
        ok := PrintItems(items, text + "[");
      }
      if ok {
        ok := Close("]", text + "[" + inner);
      }
    }

    /** One member and what separates it from the next. */
    method PrintMember(m: Member, more: bool, ghost text: string) returns (ok: bool)
      requires Holds(text) && NulFree(m.key) && Printable(m.value)
      modifies this, buffer
      ensures buffer == null || buffer == old(buffer) || fresh(buffer)
      ensures ok ==> Holds(text + MemberText(m, more, format, depth)) && depth == old(depth)
      ensures noalloc ==> buffer == old(buffer) && length == old(length)
      ensures noalloc && |text| + |MemberText(m, more, format, old(depth))| + 2 <= length ==> ok
      decreases m, 1
    {
      ghost var key := KeyText(m.key, format, depth);
      ok := PrintKey(m.key, text);
      if ok {
        ghost var rest := Render(m.value, format, depth) + MemberSeparator(more, format);
        ok := PrintThen(m.value, (if more then "," else "") + (if format then "\n" else ""), text + key);
        Regroup(text, key, rest);
      }
    }

    method PrintMembers(ms: seq<Member>, ghost text: string) returns (ok: bool)
      requires Holds(text) && forall i :: 0 <= i < |ms| ==> NulFree(ms[i].key) && Printable(ms[i].value)
      modifies this, buffer
      ensures buffer == null || buffer == old(buffer) || fresh(buffer)
      ensures ok ==> Holds(text + RenderMembers(ms, format, depth)) && depth == old(depth)
      ensures noalloc ==> buffer == old(buffer) && length == old(length)
      ensures noalloc && |text| + |RenderMembers(ms, format, old(depth))| + 2 <= length ==> ok
      decreases ms, 0
    {
      hide RenderMembers, MemberText, Holds, Printable, NulFree;
      ghost var goal := text + RenderMembers(ms, format, depth);
      ghost var now := text;
      var i := 0;
      assert ms[0..] == ms;
      NoMoreItems(format, depth);
      while i < |ms|
        invariant i <= |ms| && depth == old(depth)
        invariant Holds(now) && (buffer == null || buffer == old(buffer) || fresh(buffer))
        invariant noalloc ==> buffer == old(buffer) && length == old(length)
        invariant goal == now + RenderMembers(ms[i..], format, depth)
      {
        ghost var chunk := MemberText(ms[i], i + 1 < |ms|, format, depth);
        NextMember(ms, i, format, depth);
        NextChunk(goal, now, chunk, RenderMembers(ms[i + 1..], format, depth));
        ok := PrintMember(ms[i], i + 1 < |ms|, now);
        if !ok {
          return;
        }
        now, i := now + chunk, i + 1;
      }
      assert ms[i..] == [] && goal == now;
      ok := true;
    }

    method PrintObject(ms: seq<Member>, ghost text: string) returns (ok: bool)
      requires Holds(text) && forall i :: 0 <= i < |ms| ==> NulFree(ms[i].key) && Printable(ms[i].value)
      modifies this, buffer
      ensures buffer == null || buffer == old(buffer) || fresh(buffer)
      ensures ok ==> Wrote(text + Render(Object(ms), format, old(depth))) && depth == old(depth)
      ensures noalloc ==> buffer == old(buffer) && length == old(length)
      ensures noalloc ==> (ok <==> |text| + |Render(Object(ms), format, old(depth))| + 2 <= length)
      decreases ms, 1
    {
      hide RenderMembers, Printable, Render, Holds, Wrote, NulFree, Closing;
      ObjectText(ms, format, depth);
      ghost var inner := RenderMembers(ms, format, depth + 1);
      var opening := if format then "{\n" else "{";
      Pieces(text, opening, inner, Closing(format, depth));
      ok := Open(opening, 1, text);
      if ok {
        ok := PrintMembers(ms, text + opening);
      }
      if ok {
        ClosingText(format, depth - 1);
        ok := Close(if format then Tabs(depth - 1) + "}" else "}", text + opening + inner);
      }
    }

    static lemma NextMember(ms: seq<Member>, i: nat, fmt: bool, depth: nat)
      requires i < |ms|
      ensures RenderMembers(ms[i..], fmt, depth) ==
              MemberText(ms[i], i + 1 < |ms|, fmt, depth) + RenderMembers(ms[i + 1..], fmt, depth)
    {
      hide MemberText;
      assert ms[i..][1..] == ms[i + 1..];
    }

    static lemma ClosingText(fmt: bool, depth: nat)
      ensures Closing(fmt, depth) == (if fmt then Tabs(depth) + "}" else "}") && NulFree(Closing(fmt, depth))
    {
    }

    static lemma ObjectText(ms: seq<Member>, fmt: bool, depth: nat)
      ensures Render(Object(ms), fmt, depth) ==
              (if fmt then "{\n" else "{") + RenderMembers(ms, fmt, depth + 1) + Closing(fmt, depth)
    {
    }

    method PrintKey(key: string, ghost text: string) returns (ok: bool)
      requires Holds(text) && NulFree(key)
      modifies this, buffer
      ensures Kept() && (buffer == null || buffer == old(buffer) || fresh(buffer))
      ensures ok ==> Holds(text + KeyText(key, format, depth))
      ensures noalloc ==> (|text| + |KeyText(key, format, depth)| + 2 <= length ==> ok)
    {
      hide Escape, NulFree;
      ghost var now := text;
      if format {
        ok := Advance(Tabs(depth), 0, now);
        if !ok {
          return;
        }
        now := now + Tabs(depth);
      }
      ok := PrintStringPtr(key, now);
      if !ok {
        return;
      }
      UpdateOffset(now + Quote(key));
      ok := Advance(if format then ":\t" else ":", 0, now + Quote(key));
      assert text + KeyText(key, format, depth) == now + Quote(key) + (if format then ":\t" else ":");
    }
  }

  const DEFAULT_BUFFER_SIZE := 256

  /** print: the text and its NUL in a block of just that size, or nothing when memory runs out. */
  method Print(t: Json, format: bool, canReallocate: bool) returns (printed: array?<char>)
    requires Printable(t)
    ensures printed != null ==> fresh(printed) && printed[..] == Render(t, format, 0) + "\0"
  {
    ghost var text := Render(t, format, 0);
    assert "" + text == text;
    var first := new char[DEFAULT_BUFFER_SIZE](_ => '\0');
    var p := new PrintBuffer(first, DEFAULT_BUFFER_SIZE, false, format, canReallocate);
    var ok := p.PrintValue(t, "");
    if !ok {
      return null;
    }
    p.UpdateOffset(text);
    assert p.buffer[p.offset] == '\0';
    if * {
      // the last allocation failed
      return null;
    }
    printed := CopyOut(p.buffer, p.length, p.offset, canReallocate);
  }

  /** The last block: as much of the buffer as it holds, up to the NUL. */
  method CopyOut(buffer: array<char>, length: nat, offset: nat, canReallocate: bool) returns (printed: array<char>)
    requires offset < length <= buffer.Length && buffer[offset] == '\0'
    ensures fresh(printed) && printed[..] == buffer[..offset] + "\0"
  {
    printed := new char[offset + 1](_ => '\0');
    forall i | 0 <= i < if length < offset + 1 then length else offset + 1 {
      printed[i] := buffer[i];
    }
    if !canReallocate {
      printed[offset] := '\0';
    }
  }

  /** cJSON_PrintBuffered: the starting size does not show in the text. */
  method PrintBuffered(t: Json, prebuffer: int, fmt: bool, canReallocate: bool) returns (printed: array?<char>)
    requires Printable(t) && prebuffer <= INT_MAX
    requires prebuffer != 0 || canReallocate
    ensures printed != null ==> fresh(printed) && prebuffer >= 0 && Text(printed[..]) == Render(t, fmt, 0)
  {
    ghost var text := Render(t, fmt, 0);
    assert "" + text == text;
    if prebuffer < 0 {
      return null;
    }
    var first := new char[prebuffer](_ => '\0');
    var p := new PrintBuffer(first, prebuffer, false, fmt, canReallocate);
    var ok := p.PrintValue(t, "");
    if !ok {
      return null;
    }
    printed := p.buffer;
    RenderNulFree(t, fmt, 0);
    Terminated(printed[..], text);
  }

  /** cJSON_PrintPreallocated: it takes the text, its NUL and one byte more. */
  method PrintPreallocated(t: Json, buffer: array?<char>, length: int, format: bool) returns (ok: bool)
    requires Printable(t) && length <= INT_MAX
    requires buffer != null ==> length <= buffer.Length
    modifies buffer
    ensures ok <==> buffer != null && |Render(t, format, 0)| + 2 <= length
    ensures ok ==> Text(buffer[..]) == Render(t, format, 0)
  {
    ghost var text := Render(t, format, 0);
    assert "" + text == text;
    if length < 0 || buffer == null {
      return false;
    }
    var p := new PrintBuffer(buffer, length, true, format, true);
    ok := p.PrintValue(t, "");
    if ok {
      RenderNulFree(t, format, 0);
      Terminated(buffer[..], text);
    }
  }

  /** A buffer that starts with a text and a NUL has that text. */
  lemma Terminated(buffer: string, text: string)
    requires NulFree(text) && |text| < |buffer|
    requires buffer[..|text|] == text && buffer[|text|] == '\0'
    ensures Text(buffer) == text
  {
    assert buffer == text + "\0" + buffer[|text| + 1..];
    TextIs(text, buffer[|text| + 1..]);
  }
}
