/** The room of the string decoder. The first pass of parse_string counts the escapes it meets;
    a malformed \u literal makes the second pass see escapes elsewhere. Even so the second pass
    never has more bytes written than bytes read, less the first-pass escapes among them. */
module StringBounds {
  import opened JsonParse

  function Width(content: string, pos: nat): nat
    requires pos < |content|
  {
    if content[pos] == '\\' then 2 else 1
  }

  /** The first pass, started at `from`, comes to `pos`. */
  predicate Scans(content: string, from: nat, pos: nat)
    decreases pos - from
  {
    from == pos || (from < pos && from < |content| && Scans(content, from + Width(content, from), pos))
  }

  /** The first pass sees an escape begin here. */
  predicate EscapeStarts(content: string, from: nat, pos: nat) {
    pos < |content| && content[pos] == '\\' && Scans(content, from, pos)
  }

  /** How many escapes of the first pass begin before `pos`. */
  function Starts(content: string, from: nat, pos: nat): nat
    requires from <= pos <= |content|
    decreases pos
  {
    if pos == from then 0
    else Starts(content, from, pos - 1) + if EscapeStarts(content, from, pos - 1) then 1 else 0
  }

  lemma NoStarts(content: string, from: nat)
    requires from <= |content|
    ensures Starts(content, from, from) == 0
  {
  }

  lemma {:induction false} ScanStep(content: string, from: nat, pos: nat)
    requires pos < |content| && Scans(content, from, pos)
    ensures Scans(content, from, pos + Width(content, pos))
    decreases pos - from
  {
    if from < pos {
      ScanStep(content, from + Width(content, from), pos);
    } else {
      assert Scans(content, pos + Width(content, pos), pos + Width(content, pos));
    }
  }

  /** Two escapes never begin side by side. */
  lemma {:induction false} NotAdjacent(content: string, from: nat, pos: nat)
    requires EscapeStarts(content, from, pos)
    ensures !Scans(content, from, pos + 1)
    decreases pos - from
  {
    if from < pos {
      NotAdjacent(content, from + Width(content, from), pos);
    }
  }

  lemma {:induction false} StartsGrow(content: string, from: nat, a: nat, b: nat)
    requires from <= a <= b <= |content|
    ensures Starts(content, from, a) <= Starts(content, from, b) <= Starts(content, from, a) + (b - a)
    decreases b
  {
    if a < b {
      StartsGrow(content, from, a, b - 1);
    }
  }

  lemma PairOfBytes(content: string, from: nat, pos: nat)
    requires from <= pos && pos + 2 <= |content|
    ensures Starts(content, from, pos + 2) <= Starts(content, from, pos) + 1
  {
    if EscapeStarts(content, from, pos) {
      NotAdjacent(content, from, pos);
    }
    assert Starts(content, from, pos + 1) <= Starts(content, from, pos) + 1;
  }

  lemma {:induction false} NoBackslash(content: string, from: nat, pos: nat, end: nat)
    requires from <= pos <= end <= |content| && forall i :: pos <= i < end ==> content[i] != '\\'
    ensures Starts(content, from, end) == Starts(content, from, pos)
    decreases end
  {
    if pos < end {
      NoBackslash(content, from, pos, end - 1);
    }
  }

  /** A \u literal: at most one escape of the first pass begins in it when its digits are valid,
      and three when they are not; then a single byte is written for it. */
  lemma LiteralRoom(content: string, from: nat, pos: nat)
    requires from <= pos && pos + 6 <= |content| && content[pos + 1] == 'u'
    ensures ParseHex4(content, pos + 2) == 0 ==> Starts(content, from, pos + 6) <= Starts(content, from, pos) + 3
    ensures ParseHex4(content, pos + 2) != 0 ==> Starts(content, from, pos + 6) <= Starts(content, from, pos) + 1
  {
    if ParseHex4(content, pos + 2) == 0 {
      PairOfBytes(content, from, pos);
      PairOfBytes(content, from, pos + 2);
      PairOfBytes(content, from, pos + 4);
    } else {
      forall i | pos + 2 <= i < pos + 6
        ensures content[i] != '\\'
      {
        assert Nibble(content[i]).Some?;
      }
      NoBackslash(content, from, pos + 1, pos + 6);
      assert Starts(content, from, pos + 1) <= Starts(content, from, pos) + 1;
    }
  }

  /** One step of the second pass, wherever the first pass saw escapes begin. */
  lemma StepRoom(content: string, from: nat, pos: nat, end: nat)
    requires from <= pos < end < |content| && DecodeStep(content, pos, end).Some?
    ensures var (bytes, next) := DecodeStep(content, pos, end).value;
            |bytes| + Starts(content, from, next) <= next - pos + Starts(content, from, pos)
  {
    if content[pos] != '\\' {
      NoBackslash(content, from, pos, pos + 1);
    } else if content[pos + 1] == 'u' {
      var (codepoint, length) := Utf16Literal(content, pos, end).value;
      LiteralRoom(content, from, pos);
      if length == 12 {
        LiteralRoom(content, from, pos + 6);
      }
    } else {
      PairOfBytes(content, from, pos);
    }
  }

  /** From anywhere the second pass may stand, the rest of the room is still there. */
  lemma RoomLeft(content: string, from: nat, pos: nat, end: nat)
    requires from <= pos <= end + 1 <= |content| && from <= end && content[end] == '\"'
    ensures Starts(content, from, end) + pos <= Starts(content, from, pos) + end + 1
  {
    if pos <= end {
      StartsGrow(content, from, pos, end);
    } else {
      assert !EscapeStarts(content, from, end);
    }
  }

  /** The whole second pass: what it writes fits the room the first pass made, for every input and
      wherever the two passes disagree. */
  lemma {:induction false} DecodedFits(content: string, from: nat, pos: nat, end: nat)
    requires from <= pos <= end + 1 <= |content| && from <= end && content[end] == '\"'
    requires Decode(content, pos, end).Some?
    ensures |Decode(content, pos, end).value| + Starts(content, from, end) <= end + 1 - pos + Starts(content, from, pos)
    decreases end + 1 - pos
  {
    if pos < end {
      StepRoom(content, from, pos, end);
      DecodedFits(content, from, DecodeStep(content, pos, end).value.1, end);
    } else {
      RoomLeft(content, from, pos, end);
    }
  }
}
