/** The arithmetic of put_bits, and the bytes it makes of the bits. */
module BitPacking {
  import opened BitStrings

  // ---- the 24 bits of the bit buffer ----

  /** The bits that wait in the buffer: the n below bit 24. */
  function Waiting(buffer: nat, n: nat): (r: seq<bool>)
    requires n <= 24
    ensures |r| == n
  {
    Quotient(buffer, Pow2(24 - n));
    Bits(buffer / Pow2(24 - n), n)
  }

  predicate Clear(buffer: nat, n: nat)
    requires n <= 24
  {
    buffer % Pow2(24 - n) == 0
  }

  /** New bits go right below the waiting ones. */
  lemma BitsAdded(buffer: nat, n: nat, bits: nat, length: nat)
    requires n + length <= 24 && Clear(buffer, n) && bits < Pow2(length)
    ensures var after := Or(buffer, bits * Pow2(24 - n - length));
            Clear(after, n + length) && Waiting(after, n + length) == Waiting(buffer, n) + Bits(bits, length)
  {
    hide Pow2, Or, Bits;
    var s := 24 - n - length;
    var q := buffer / Pow2(24 - n);
    PowSplit(s, 24 - n);
    Quotient(buffer, Pow2(24 - n));
    ScaleLess(bits, Pow2(length), Pow2(s));
    OrAdds(buffer, bits * Pow2(s), 24 - n);
    MulAssoc(q, Pow2(length), Pow2(s));
    Distribute(q * Pow2(length), bits, Pow2(s));
    ModOfMultiple(q * Pow2(length) + bits, Pow2(s));
    BitsConcat(q, n, bits, length);
  }

  lemma HighAndLow(buffer: nat, t: nat, h: nat, l: nat)
    requires 8 <= t <= 24 && l < Pow2(t - 8)
    requires buffer == (h * Pow2(t - 8) + l) * Pow2(24 - t)
    ensures buffer / 0x10000 == h
  {
    hide Pow2;
    PowSplit(24 - t, 16);
    MulAssoc(h, Pow2(t - 8), Pow2(24 - t));
    Distribute(h * Pow2(t - 8), l, Pow2(24 - t));
    ScaleLess(l, Pow2(t - 8), Pow2(24 - t));
    Pow16();
    DivideUnique(buffer, 0x10000, h, l * Pow2(24 - t));
  }

  lemma Pow16()
    ensures Pow2(16) == 0x10000
  {
    assert Pow2(8) == 256;
    PowAdd(8, 8);
  }

  lemma Pow32()
    ensures Pow2(32) == WORD
  {
    Pow16();
    PowAdd(16, 16);
  }

  lemma Pow8()
    ensures Pow2(8) == 256
  {
  }

  /** Moving the register left by a byte drops what leaves it at the top. */
  lemma Shifted(q: nat, t: nat)
    requires 8 <= t <= 24
    ensures var after := q * Pow2(24 - t) * 256 % WORD;
            after == q % Pow2(t) * Pow2(32 - t)
  {
    hide Pow2;
    var k, low := q / Pow2(t), q % Pow2(t);
    Quotient(q, Pow2(t));
    Pow8();
    PowSplit(24 - t, 32 - t);
    MulAssoc(q, Pow2(24 - t), 256);
    Pow32();
    PowSplit(32 - t, 32);
    MulAssoc(k, Pow2(t), Pow2(32 - t));
    Distribute(k * Pow2(t), low, Pow2(32 - t));
    ScaleLess(low, Pow2(t), Pow2(32 - t));
    ScaleLess(-1, low, Pow2(32 - t));
    DivideUnique(q * Pow2(32 - t), WORD, k, low * Pow2(32 - t));
  }

  /** The low bits of the waiting ones, whatever is above them. */
  lemma LowBits(q: nat, t: nat)
    requires 8 <= t
    ensures Bits(q % Pow2(t), t - 8) == Bits(q % Pow2(t - 8), t - 8)
  {
    hide Pow2, Bits;
    var k := q / Pow2(t);
    Quotient(q, Pow2(t));
    Quotient(q % Pow2(t), Pow2(t - 8));
    PowSplit(t - 8, t);
    var m := q % Pow2(t) / Pow2(t - 8);
    Pow8();
    MulAssoc(k, 256, Pow2(t - 8));
    Distribute(k * 256, m, Pow2(t - 8));
    DivideUnique(q, Pow2(t - 8), k * 256 + m, q % Pow2(t) % Pow2(t - 8));
    BitsModulo(q % Pow2(t), t - 8);
  }

  /** A byte leaves: the eight oldest bits. */
  lemma ByteLeaves(buffer: nat, t: nat)
    requires 8 <= t <= 24 && Clear(buffer, t)
    ensures var after := buffer * 256 % WORD;
            && Clear(after, t - 8)
            && Waiting(buffer, t) == Bits(buffer / 0x10000 % 256, 8) + Waiting(after, t - 8)
  {
    hide Pow2, Bits;
    var q := buffer / Pow2(24 - t);
    var h, l := q / Pow2(t - 8), q % Pow2(t - 8);
    Quotient(buffer, Pow2(24 - t));
    Quotient(q, Pow2(t - 8));
    HighAndLow(buffer, t, h, l);
    BitsConcat(h, 8, l, t - 8);
    Pow8();
    BitsModulo(h, 8);
    Shifted(q, t);
    ModOfMultiple(q % Pow2(t), Pow2(32 - t));
    LowBits(q, t);
  }

  // ---- bytes ----

  predicate Bytes(s: seq<nat>) {
    forall i :: 0 <= i < |s| ==> s[i] < 256
  }

  function BytesBits(raw: seq<nat>): (r: seq<bool>)
    ensures |r| == 8 * |raw|
  {
    if raw == [] then [] else BytesBits(raw[..|raw| - 1]) + Bits(raw[|raw| - 1], 8)
  }

  /** Byte stuffing: a zero behind every 0xFF. */
  function StuffByte(b: nat): seq<nat> {
    if b == 0xFF then [0xFF, 0] else [b]
  }

  function Stuff(raw: seq<nat>): seq<nat> {
    if raw == [] then [] else Stuff(raw[..|raw| - 1]) + StuffByte(raw[|raw| - 1])
  }

  /** The decoder's side, section F.2.2.5: up to a marker, without the stuffed zeros. */
  function Destuff(bytes: seq<nat>): seq<nat> {
    if bytes == [] then []
    else if bytes[0] != 0xFF then [bytes[0]] + Destuff(bytes[1..])
    else if 1 < |bytes| && bytes[1] == 0 then [0xFF] + Destuff(bytes[2..])
    else []
  }

  /** Un-stuffing undoes stuffing and stops at the marker. */
  lemma {:induction false} DestuffStuff(raw: seq<nat>, tail: seq<nat>)
    ensures Destuff(Stuff(raw) + tail) == raw + Destuff(tail)
  {
    if raw == [] {
      assert [] + tail == tail;
    } else {
      var front, b := raw[..|raw| - 1], raw[|raw| - 1];
      assert Stuff(front) + StuffByte(b) + tail == Stuff(front) + (StuffByte(b) + tail);
      DestuffStuff(front, StuffByte(b) + tail);
      assert (StuffByte(b) + tail)[|StuffByte(b)|..] == tail;
      assert front + ([b] + Destuff(tail)) == raw + Destuff(tail);
    }
  }

  lemma Appended(raw: seq<nat>, b: nat)
    ensures Stuff(raw + [b]) == Stuff(raw) + StuffByte(b)
    ensures BytesBits(raw + [b]) == BytesBits(raw) + Bits(b, 8)
  {
    assert (raw + [b])[..|raw|] == raw;
  }
}
