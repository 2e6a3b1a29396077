/** The parse buffer of cJSON.c: one offset that every step moves on, and a nesting depth. */
module ParseBuffers {
  import opened CString
  import opened JsonTree
  import opened JsonText
  import opened JsonParse
  import opened StringBounds

  /** A step reports a value and has moved the offset behind it, or reports failure. */
  predicate Reports<T(==)>(expected: Parsed<T>, ok: bool, value: T, offset: nat) {
    match expected
    case Fail => !ok
    case Ok(v, next) => ok && value == v && offset == next
  }

  /** Bytes written so far, in front of what is still to be decoded. */
  function After(written: string, rest: Option<string>): Option<string> {
    match rest
    case None => None
    case Some(s) => Some(written + s)
  }

  lemma {:induction false} TextStops(s: string, rest: string)
    ensures Text(s + ['\0'] + rest) == Text(s)
  {
    var whole := s + ['\0'] + rest;
    if s != "" {
      assert whole[0] == s[0] && whole[1..] == s[1..] + ['\0'] + rest;
      TextStops(s[1..], rest);
    }
  }

  lemma NothingBefore(rest: Option<string>)
    ensures After("", rest) == rest
  {
    match rest
    case None =>
    case Some(s) => assert "" + s == s;
  }

  lemma AfterStep(content: string, before: string, pos: nat, end: nat)
    requires pos < end < |content| && DecodeStep(content, pos, end).Some?
    ensures var (bytes, next) := DecodeStep(content, pos, end).value;
            After(before, Decode(content, pos, end)) == After(before + bytes, Decode(content, next, end))
  {
    var (bytes, next) := DecodeStep(content, pos, end).value;
    match Decode(content, next, end)
    case None =>
    case Some(rest) => assert before + (bytes + rest) == before + bytes + rest;
  }

  /** parse_hex4 */
  method ParseHex4Loop(content: string, at: nat) returns (h: nat)
    requires at + 4 <= |content|
    ensures h == ParseHex4(content, at)
  {
    h := 0;
    var i := 0;
    while i < 4
      invariant i <= 4
      invariant forall k :: at <= k < at + i ==> Nibble(content[k]).Some?
      invariant h == HexValue(content, at, i) * if i < 4 then 16 else 1
    {
      var digit := Nibble(content[at + i]);
      if digit.None? {
        return 0;
      }
      h := h + digit.value;
      if i < 3 {
        h := h * 16;
      }
      i := i + 1;
    }
    assert HexValue(content, at, 1) == Nibble(content[at]).value;
    assert HexValue(content, at, 2) == Nibble(content[at]).value * 16 + Nibble(content[at + 1]).value;
  }

  function HexValue(content: string, at: nat, i: nat): nat
    requires at + i <= |content|
    requires forall k :: at <= k < at + i ==> Nibble(content[k]).Some?
  {
    if i == 0 then 0 else HexValue(content, at, i - 1) * 16 + Nibble(content[at + (i - 1)]).value
  }

  /** The UTF-8 loop of utf16_literal_to_utf8: the bytes are filled in from the last to the first. */
  method WriteUtf8(codepoint: nat, output: array<char>, at: nat) returns (next: nat)
    requires codepoint <= 0x10FFFF && at + Utf8Length(codepoint) <= output.Length
    modifies output
    ensures next == at + Utf8Length(codepoint)
    ensures output[..next] == old(output[..at]) + Utf8(codepoint)
  {
    var length, mark;
    if codepoint < 0x80 {
      length, mark := 1, 0;
    } else if codepoint < 0x800 {
      length, mark := 2, 0xC0;
    } else if codepoint < 0x10000 {
      length, mark := 3, 0xE0;
    } else {
      length, mark := 4, 0xF0;
    }
    var position, rest := length - 1, codepoint;
    while position > 0
      invariant 0 <= position < length
      invariant output[..at] == old(output[..at])
      invariant rest == if position == length - 1 then codepoint
                        else if position == length - 2 then codepoint / 64
                        else if position == length - 3 then codepoint / 64 / 64
                        else codepoint / 64 / 64 / 64
      invariant position <= length - 2 ==> output[at + length - 1] == Continuation(codepoint)
      invariant position <= length - 3 ==> output[at + length - 2] == Continuation(codepoint / 64)
      invariant position <= length - 4 ==> output[at + length - 3] == Continuation(codepoint / 64 / 64)
    {
      output[at + position] := Continuation(rest);
      rest := rest / 64;
      position := position - 1;
    }
    output[at] := Byte(if length > 1 then mark + rest else rest % 128);
    next := at + length;
    assert output[at..next] == Utf8(codepoint);
  }

  /** utf16_literal_to_utf8; a length of zero reports failure. */
  method Utf16LiteralToUtf8(content: string, pos: nat, end: nat, output: array<char>, at: nat)
    returns (sequenceLength: nat, next: nat)
    requires pos <= end <= |content| && at <= output.Length
    requires match Utf16Literal(content, pos, end)
             case None => true
             case Some((codepoint, _)) => at + Utf8Length(codepoint) <= output.Length
    modifies output
    ensures match Utf16Literal(content, pos, end)
            case None => sequenceLength == 0
            case Some((codepoint, length)) =>
              sequenceLength == length && at <= next <= output.Length &&
              output[..next] == old(output[..at]) + Utf8(codepoint)
  {
    hide ParseHex4, Utf8, Utf8Length;
    if end - pos < 6 {
      return 0, 0;
    }
    var codepoint;
    var firstCode := ParseHex4Loop(content, pos + 2);
    if 0xDC00 <= firstCode <= 0xDFFF {
      return 0, 0;
    }
    if 0xD800 <= firstCode <= 0xDBFF {
      var second := pos + 6;
      if end - second < 6 || content[second] != '\\' || content[second + 1] != 'u' {
        return 0, 0;
      }
      var secondCode := ParseHex4Loop(content, second + 2);
      if secondCode < 0xDC00 || secondCode > 0xDFFF {
        return 0, 0;
      }
      sequenceLength, codepoint := 12, 0x10000 + firstCode % 0x400 * 0x400 + secondCode % 0x400;
    } else {
      sequenceLength, codepoint := 6, firstCode;
    }
    next := WriteUtf8(codepoint, output, at);
  }

  lemma ElementsRound(content: string, offset: nat, depth: nat)
    requires offset < |content|
    ensures match ParseValue(content, SkipWhitespace(content, offset + 1), depth)
            case Fail => ParseElements(content, offset, depth) == Fail
            case Ok(value, next) =>
              var after := SkipWhitespace(content, next);
              ParseElements(content, offset, depth) ==
              if CharAt(content, after, ',') then Prepend([value], ParseElements(content, after, depth))
              else if CharAt(content, after, ']') then Ok([value], after + 1) else Fail
  {
    hide ParseValue, SkipWhitespace;
  }

  lemma MembersRound(content: string, offset: nat, depth: nat)
    requires offset < |content|
    ensures match ParseMember(content, offset, depth)
            case Fail => ParseMembers(content, offset, depth) == Fail
            case Ok(m, next) =>
              var after := SkipWhitespace(content, next);
              ParseMembers(content, offset, depth) ==
              if CharAt(content, after, ',') then Prepend([m], ParseMembers(content, after, depth))
              else if CharAt(content, after, '}') then Ok([m], after + 1) else Fail
  {
    hide ParseMember, SkipWhitespace;
  }

  class ParseBuffer {
    const content: string
    var offset: nat
    var depth: nat

    constructor (content: string)
      ensures this.content == content && offset == 0 && depth == 0
    {
      this.content, offset, depth := content, 0, 0;
    }

    predicate CanAccess(index: nat)
      reads this
    {
      offset + index < |content|
    }

    method SkipWhite()
      requires offset <= |content|
      modifies this`offset
      ensures offset == SkipWhitespace(content, old(offset))
    {
      if !CanAccess(0) {
        return;
      }
      while CanAccess(0) && content[offset] as int <= 32
        invariant offset <= |content|
        invariant FirstNonSpace(content, old(offset)) == FirstNonSpace(content, offset)
        decreases |content| - offset
      {
        offset := offset + 1;
      }
      if offset == |content| {
        offset := offset - 1;
      }
    }

    /** parse_number */
    method Number() returns (ok: bool, item: Json)
      requires offset <= |content|
      modifies this`offset
      ensures Reports(ParseNumber(content, old(offset)), ok, item, offset)
    {
      var i := 0;
      while CanAccess(i) && NumberChar(content[offset + i])
        invariant offset == old(offset) && offset + i <= |content|
        invariant NumberEnd(content, offset) == NumberEnd(content, offset + i)
        decreases |content| - offset - i
      {
        i := i + 1;
      }
      match Strtod(content, offset, offset + i) {
        case None => return false, Null;
        case Some((number, afterEnd)) =>
          var valueint;
          if number >= INT_MAX {
            valueint := INT_MAX;
          } else if number <= INT_MIN {
            valueint := INT_MIN;
          } else {
            valueint := number;
          }
          offset := afterEnd;
          return true, Json.Number(valueint);
      }
    }

    /** The first pass of parse_string: the closing quote, and the escapes on the way. */
    method FindStringEnd() returns (found: bool, inputEnd: nat, skipped: nat)
      requires offset < |content|
      ensures StringEnd(content, offset + 1) == if found then Some(inputEnd) else None
      ensures found ==> offset < inputEnd && Scans(content, offset + 1, inputEnd)
      ensures found ==> skipped == Starts(content, offset + 1, inputEnd)
    {
      ghost var start := offset + 1;
      inputEnd, skipped := offset + 1, 0;
      while inputEnd < |content| && content[inputEnd] != '\"'
        invariant start <= inputEnd <= |content|
        invariant StringEnd(content, start) == StringEnd(content, inputEnd)
        invariant Scans(content, start, inputEnd) && skipped == Starts(content, start, inputEnd)
      {
        ScanStep(content, start, inputEnd);
        if content[inputEnd] == '\\' {
          if inputEnd + 1 >= |content| {
            found := false;
            return;
          }
          NotAdjacent(content, start, inputEnd);
          skipped := skipped + 1;
          inputEnd := inputEnd + 1;
        }
        inputEnd := inputEnd + 1;
      }
      found := inputEnd < |content|;
    }

    /** One round of the second pass: within the room StepRoom leaves. */
    method DecodeOne(inputPointer: nat, inputEnd: nat, output: array<char>, outputPointer: nat)
      returns (ok: bool, next: nat, written: nat)
      requires inputPointer < inputEnd < |content| && outputPointer <= output.Length
      requires match DecodeStep(content, inputPointer, inputEnd)
               case None => true
               case Some((bytes, _)) => outputPointer + |bytes| <= output.Length
      modifies output
      ensures ok == DecodeStep(content, inputPointer, inputEnd).Some?
      ensures ok ==> DecodeStep(content, inputPointer, inputEnd).value.1 == next
      ensures ok ==> outputPointer <= written <= output.Length
      ensures ok ==> output[..written] == old(output[..outputPointer]) + DecodeStep(content, inputPointer, inputEnd).value.0
    {
      if content[inputPointer] != '\\' {
        output[outputPointer] := content[inputPointer];
        return true, inputPointer + 1, outputPointer + 1;
      }
      if content[inputPointer + 1] == 'u' {
        var sequenceLength;
        sequenceLength, written := Utf16LiteralToUtf8(content, inputPointer, inputEnd, output, outputPointer);
        return sequenceLength != 0, inputPointer + sequenceLength, written;
      }
      match SimpleEscape(content[inputPointer + 1]) {
        case None => return false, 0, 0;
        case Some(c) =>
          output[outputPointer] := c;
          return true, inputPointer + 2, outputPointer + 1;
      }
    }

    /** parse_string: every write lands in the block the first pass sized. */
    method ParseStringAt() returns (ok: bool, value: string)
      requires offset < |content|
      modifies this`offset
      ensures Reports(ParseString(content, old(offset)), ok, value, offset)
    {
      hide DecodeStep, Starts;
      if content[offset] != '\"' {
        return false, "";
      }
      var found, inputEnd, skipped := FindStringEnd();
      if !found {
        return false, "";
      }
      var start := offset + 1;
      StartsGrow(content, start, start, inputEnd);
      NoStarts(content, start);
      var allocationLength := inputEnd - offset - skipped;
      var output := new char[allocationLength + 1](_ => '\0');
      var inputPointer: nat, outputPointer: nat := start, 0;
      NothingBefore(Decode(content, start, inputEnd));
      while inputPointer < inputEnd
        invariant start <= inputPointer <= inputEnd + 1
        invariant outputPointer + Starts(content, start, inputPointer) <= inputPointer - start
        invariant outputPointer + skipped <= inputEnd + 1 - start && outputPointer < output.Length
        invariant Decode(content, start, inputEnd) == After(output[..outputPointer], Decode(content, inputPointer, inputEnd))
        modifies output
        decreases inputEnd + 1 - inputPointer
      {
        ghost var before := output[..outputPointer];
        if DecodeStep(content, inputPointer, inputEnd).Some? {
          StepRoom(content, start, inputPointer, inputEnd);
          RoomLeft(content, start, DecodeStep(content, inputPointer, inputEnd).value.1, inputEnd);
        }
        var more, next, written := DecodeOne(inputPointer, inputEnd, output, outputPointer);
        if !more {
          return false, "";
        }
        AfterStep(content, before, inputPointer, inputEnd);
        inputPointer, outputPointer := next, written;
      }
      output[outputPointer] := '\0';
      assert output[..] == output[..outputPointer] + ['\0'] + output[outputPointer + 1..];
      TextStops(output[..outputPointer], output[outputPointer + 1..]);
      assert output[..outputPointer] + "" == output[..outputPointer];
      offset := inputEnd + 1;
      return true, Text(output[..]);
    }

    /** parse_value */
    method Value() returns (ok: bool, item: Json)
      requires offset <= |content|
      modifies this
      ensures Reports(ParseValue(content, old(offset), old(depth)), ok, item, offset)
      ensures ok ==> depth == old(depth)
      decreases |content| - offset, 2
    {
      if LiteralAt(content, offset, "null") {
        offset := offset + 4;
        return true, Null;
      }
      if LiteralAt(content, offset, "false") {
        offset := offset + 5;
        return true, False;
      }
      if LiteralAt(content, offset, "true") {
        offset := offset + 4;
        return true, True;
      }
      if CanAccess(0) && content[offset] == '\"' {
        var value;
        ok, value := ParseStringAt();
        return ok, String(value);
      }
      if CanAccess(0) && (content[offset] == '-' || Digit(content[offset])) {
        ok, item := Number();
        return;
      }
      if CanAccess(0) && content[offset] == '[' {
        var items;
        ok, items := ArrayAt();
        return ok, Array(items);
      }
      if CanAccess(0) && content[offset] == '{' {
        var ms;
        ok, ms := ObjectAt();
        return ok, Object(ms);
      }
      return false, Null;
    }

    /** parse_array */
    method ArrayAt() returns (ok: bool, items: seq<Json>)
      requires offset < |content|
      modifies this
      ensures Reports(ParseArray(content, old(offset), old(depth)), ok, items, offset)
      ensures ok ==> depth == old(depth)
      decreases |content| - offset, 1
    {
      hide ParseElements, SkipWhitespace;
      items := [];
      if depth >= NESTING_LIMIT {
        return false, items;
      }
      depth := depth + 1;
      if content[offset] != '[' {
        return false, items;
      }
      offset := offset + 1;
      SkipWhite();
      if !(CanAccess(0) && content[offset] == ']') {
        if !CanAccess(0) {
          offset := offset - 1;
          return false, items;
        }
        offset := offset - 1;
        ok, items := ElementsAt();
        if !ok {
          return;
        }
      }
      depth := depth - 1;
      offset := offset + 1;
      ok := true;
    }

    /** The loop over the elements, from the character in front of the first one up to the bracket. */
    method ElementsAt() returns (ok: bool, items: seq<Json>)
      requires offset < |content|
      modifies this
      ensures match ParseElements(content, old(offset), old(depth))
              case Fail => !ok
              case Ok(v, next) => ok && items == v && offset + 1 == next && depth == old(depth)
      decreases |content| - offset, 0
    {
      hide ParseElements, ParseValue, SkipWhitespace;
      items := [];
      ghost var start := offset;
      PrependNothing(ParseElements(content, start, depth));
      var more := true;
      while more
        invariant depth == old(depth) && start <= offset <= |content| && (more ==> offset < |content|)
        invariant ParseElements(content, start, depth) ==
                  if more then Prepend(items, ParseElements(content, offset, depth))
                  else if CharAt(content, offset, ']') then Ok(items, offset + 1) else Fail
        decreases |content| - offset, more
      {
        ghost var before := items;
        ElementsRound(content, offset, depth);
        offset := offset + 1;
        SkipWhite();
        var parsed, value := Value();
        if !parsed {
          return false, items;
        }
        items := items + [value];
        SkipWhite();
        more := CanAccess(0) && content[offset] == ',';
        if more {
          PrependTwice(before, [value], ParseElements(content, offset, depth));
        }
      }
      ok := CanAccess(0) && content[offset] == ']';
    }

    /** The name of a member, up to the offset of its value. */
    method Name() returns (ok: bool, key: string)
      requires offset < |content|
      modifies this`offset
      ensures Reports(ParseName(content, old(offset)), ok, key, offset)
    {
      hide ParseString, SkipWhitespace;
      if !CanAccess(1) {
        return false, "";
      }
      offset := offset + 1;
      SkipWhite();
      ok, key := ParseStringAt();
      if !ok {
        return;
      }
      SkipWhite();
      if !CanAccess(0) || content[offset] != ':' {
        return false, "";
      }
      offset := offset + 1;
      SkipWhite();
    }

    /** The loop over the members, from the character in front of the first name up to the brace. */
    method MembersAt() returns (ok: bool, ms: seq<Member>)
      requires offset < |content|
      modifies this
      ensures match ParseMembers(content, old(offset), old(depth))
              case Fail => !ok
              case Ok(v, next) => ok && ms == v && offset + 1 == next && depth == old(depth)
      decreases |content| - offset, 0
    {
      hide ParseMembers, ParseValue, ParseName, SkipWhitespace;
      ms := [];
      ghost var start := offset;
      PrependNothing(ParseMembers(content, start, depth));
      var more := true;
      while more
        invariant depth == old(depth) && start <= offset <= |content| && (more ==> offset < |content|)
        invariant ParseMembers(content, start, depth) ==
                  if more then Prepend(ms, ParseMembers(content, offset, depth))
                  else if CharAt(content, offset, '}') then Ok(ms, offset + 1) else Fail
        decreases |content| - offset, more
      {
        ghost var before := ms;
        MembersRound(content, offset, depth);
        var named, key := Name();
        if !named {
          return false, ms;
        }
        var parsed, value := Value();
        if !parsed {
          return false, ms;
        }
        ms := ms + [Member(key, value)];
        SkipWhite();
        more := CanAccess(0) && content[offset] == ',';
        if more {
          PrependTwice(before, [Member(key, value)], ParseMembers(content, offset, depth));
        }
      }
      ok := CanAccess(0) && content[offset] == '}';
    }

    /** parse_object */
    method ObjectAt() returns (ok: bool, ms: seq<Member>)
      requires offset < |content|
      modifies this
      ensures Reports(ParseObject(content, old(offset), old(depth)), ok, ms, offset)
      ensures ok ==> depth == old(depth)
      decreases |content| - offset, 1
    {
      hide ParseMembers, SkipWhitespace;
      ms := [];
      if depth >= NESTING_LIMIT {
        return false, ms;
      }
      depth := depth + 1;
      if !CanAccess(0) || content[offset] != '{' {
        return false, ms;
      }
      offset := offset + 1;
      SkipWhite();
      if !(CanAccess(0) && content[offset] == '}') {
        if !CanAccess(0) {
          offset := offset - 1;
          return false, ms;
        }
        offset := offset - 1;
        ok, ms := MembersAt();
        if !ok {
          return;
        }
      }
      depth := depth - 1;
      offset := offset + 1;
      ok := true;
    }
  }

  lemma PrependNothing<T>(r: Parsed<seq<T>>)
    ensures Prepend([], r) == r
  {
    match r
    case Fail =>
    case Ok(rest, _) => assert [] + rest == rest;
  }

  lemma PrependTwice<T>(xs: seq<T>, ys: seq<T>, r: Parsed<seq<T>>)
    ensures Prepend(xs, Prepend(ys, r)) == Prepend(xs + ys, r)
  {
    match r
    case Fail =>
    case Ok(rest, _) => assert xs + (ys + rest) == xs + ys + rest;
  }

  /** cJSON_ParseWithLengthOpts */
  method ParseText(content: string, requireNullTerminated: bool) returns (ok: bool, item: Json, parseEnd: nat)
    ensures Reports(ParseWithLengthOpts(content, requireNullTerminated), ok, item, parseEnd)
  {
    if |content| == 0 {
      return false, Null, 0;
    }
    var buffer := new ParseBuffer(content);
    buffer.offset := SkipBom(content);
    buffer.SkipWhite();
    ok, item := buffer.Value();
    if !ok {
      return false, Null, 0;
    }
    if requireNullTerminated {
      buffer.SkipWhite();
      if buffer.offset >= |content| || content[buffer.offset] != '\0' {
        return false, Null, 0;
      }
    }
    return true, item, buffer.offset;
  }
}
