/** The CRC-32 of lfs_config.c: a table of sixteen nibbles against the reflected bitwise CRC. The
    operators on words have names, so that the lemmas about many of them can do without their bits. */
module Crc32 {

  function Xor(a: bv32, b: bv32): bv32 {
    a ^ b
  }

  function Down(a: bv32, n: bv32): bv32
    requires n <= 32
  {
    a >> n
  }

  function Up(a: bv32, n: bv32): bv32
    requires n <= 32
  {
    a << n
  }

  function LowBit(a: bv32): bv32 {
    a & 1
  }

  function Nibble(a: bv32): bv32 {
    a & 0xf
  }

  /** The n highest bits are zero, for the n used here. */
  predicate TopClear(a: bv32, n: nat) {
    if n == 1 then a & 0x80000000 == 0
    else if n == 4 then a & 0xf0000000 == 0
    else if n == 8 then a & 0xff000000 == 0
    else if n == 16 then a & 0xffff0000 == 0
    else if n == 24 then a & 0xffffff00 == 0
    else a == 0
  }

  function FromByte(b: bv8): bv32 {
    b as bv32
  }

  // ---- the bitwise CRC ----

  /** The polynomial comes in when a one leaves at the bottom. */
  function Feedback(bit: bv32): bv32 {
    if bit == 1 then 0xedb88320 else 0
  }

  function BitStep(crc: bv32): bv32 {
    Xor(Down(crc, 1), Feedback(LowBit(crc)))
  }

  function Steps(crc: bv32, n: nat): bv32
    decreases n
  {
    if n == 0 then crc else Steps(BitStep(crc), n - 1)
  }

  function ByteStep(crc: bv32, data: bv8): bv32 {
    Steps(Xor(crc, FromByte(data)), 8)
  }

  function Crc(crc: bv32, data: seq<bv8>): bv32
    decreases data
  {
    if data == [] then crc else Crc(ByteStep(crc, data[0]), data[1..])
  }

  // ---- facts about words ----

  lemma XorSwap(a: bv32, b: bv32, c: bv32)
    ensures Xor(Xor(a, b), c) == Xor(Xor(a, c), b) == Xor(a, Xor(b, c))
  {
  }

  lemma XorTwice(a: bv32, b: bv32)
    ensures Xor(Xor(a, b), b) == a && Xor(a, Xor(a, b)) == b
  {
  }

  lemma XorNothing(a: bv32)
    ensures Xor(a, 0) == Xor(0, a) == a
  {
  }

  lemma ShiftedOut(x: bv32, z: bv32)
    requires TopClear(z, 1)
    ensures Down(Xor(x, Up(z, 1)), 1) == Xor(Down(x, 1), z)
    ensures LowBit(Xor(x, Up(z, 1))) == LowBit(x)
  {
  }

  lemma UpTwo(z: bv32)
    ensures Up(Up(z, 1), 1) == Up(z, 2)
  {
  }

  lemma UpThree(z: bv32)
    ensures Up(Up(z, 2), 1) == Up(z, 3)
  {
  }

  lemma UpFour(z: bv32)
    ensures Up(Up(z, 3), 1) == Up(z, 4)
  {
  }

  lemma UpEight(z: bv32)
    ensures Up(Up(z, 4), 4) == Up(z, 8)
  {
  }

  lemma ClearNibble(z: bv32)
    requires TopClear(z, 4)
    ensures TopClear(z, 1) && TopClear(Up(z, 1), 1) && TopClear(Up(z, 2), 1) && TopClear(Up(z, 3), 1)
  {
    ClearBits(z);
  }

  lemma ClearByte(z: bv32)
    requires TopClear(z, 8)
    ensures TopClear(z, 4) && TopClear(Up(z, 4), 4)
  {
    ClearBits(z);
  }

  lemma ClearBits(z: bv32)
    ensures z & 0xf0000000 == 0 ==>
              z & 0x80000000 == 0 && (z << 1) & 0x80000000 == 0 && (z << 2) & 0x80000000 == 0 && (z << 3) & 0x80000000 == 0
    ensures z & 0xff000000 == 0 ==> z & 0xf0000000 == 0 && (z << 4) & 0xf0000000 == 0
  {
  }

  lemma Halves(x: bv32)
    ensures Xor(Nibble(x), Up(Down(x, 4), 4)) == x && TopClear(Down(x, 4), 4) && Nibble(x) < 16
  {
  }

  // ---- steps are linear ----

  /** What lies above the bit that leaves just moves down. */
  lemma BitStepLinear(x: bv32, z: bv32)
    requires TopClear(z, 1)
    ensures BitStep(Xor(x, Up(z, 1))) == Xor(BitStep(x), z)
  {
    hide Xor, Up, Down, LowBit, TopClear, Feedback;
    ShiftedOut(x, z);
    XorSwap(Down(x, 1), z, Feedback(LowBit(x)));
  }

  function FourSteps(crc: bv32): bv32 {
    BitStep(BitStep(BitStep(BitStep(crc))))
  }

  lemma HighBits(x: bv32, z: bv32)
    requires TopClear(z, 4)
    ensures FourSteps(Xor(x, Up(z, 4))) == Xor(FourSteps(x), z)
  {
    hide Xor, Up, TopClear, BitStep;
    UpTwo(z);
    UpThree(z);
    UpFour(z);
    ClearNibble(z);
    BitStepLinear(x, Up(z, 3));
    BitStepLinear(BitStep(x), Up(z, 2));
    BitStepLinear(BitStep(BitStep(x)), Up(z, 1));
    BitStepLinear(BitStep(BitStep(BitStep(x))), z);
  }

  lemma EightSteps(crc: bv32)
    ensures Steps(crc, 8) == FourSteps(FourSteps(crc))
  {
    hide BitStep;
    var c4 := FourSteps(crc);
    assert Steps(crc, 8) == Steps(BitStep(crc), 7) == Steps(BitStep(BitStep(crc)), 6);
    assert Steps(BitStep(BitStep(crc)), 6) == Steps(BitStep(BitStep(BitStep(crc))), 5) == Steps(c4, 4);
    assert Steps(c4, 4) == Steps(BitStep(c4), 3) == Steps(BitStep(BitStep(c4)), 2);
    assert Steps(BitStep(BitStep(c4)), 2) == Steps(BitStep(BitStep(BitStep(c4))), 1) == Steps(FourSteps(c4), 0);
  }

  lemma HighBytes(x: bv32, z: bv32)
    requires TopClear(z, 8)
    ensures Steps(Xor(x, Up(z, 8)), 8) == Xor(Steps(x, 8), z)
  {
    hide Xor, Up, TopClear, FourSteps, Steps;
    UpEight(z);
    ClearByte(z);
    HighBits(x, Up(z, 4));
    HighBits(FourSteps(x), z);
    EightSteps(x);
    EightSteps(Xor(x, Up(z, 8)));
  }

  // ---- the table ----

  function RTable(n: bv32): bv32 {
    if n == 0 then 0x00000000 else if n == 1 then 0x1db71064 else if n == 2 then 0x3b6e20c8 else if n == 3 then 0x26d930ac
    else if n == 4 then 0x76dc4190 else if n == 5 then 0x6b6b51f4 else if n == 6 then 0x4db26158 else if n == 7 then 0x5005713c
    else if n == 8 then 0xedb88320 else if n == 9 then 0xf00f9344 else if n == 10 then 0xd6d6a3e8 else if n == 11 then 0xcb61b38c
    else if n == 12 then 0x9b64c2b0 else if n == 13 then 0x86d3d2d4 else if n == 14 then 0xa00ae278 else 0xbdbdf21c
  }

  /** Every entry is what four steps make of its index. */
  lemma TableEntry(n: bv32)
    requires n < 16
    ensures RTable(n) == FourSteps(n)
  {
    assert n in {0, 1, 2, 3, 4, 5, 6, 7} || n in {8, 9, 10, 11, 12, 13, 14, 15};
  }

  /** A look into the table is four steps. */
  lemma TableIsFourSteps(crc: bv32)
    ensures Xor(Down(crc, 4), RTable(Nibble(crc))) == FourSteps(crc)
  {
    hide Xor, Up, Down, TopClear, FourSteps, RTable, Nibble;
    Halves(crc);
    HighBits(Nibble(crc), Down(crc, 4));
    TableEntry(Nibble(crc));
    XorSwap(0, Down(crc, 4), RTable(Nibble(crc)));
    XorNothing(Down(crc, 4));
    XorNothing(RTable(Nibble(crc)));
  }

  /** One look of the loop. */
  function Look(crc: bv32, data: bv32): bv32 {
    Xor(Down(crc, 4), RTable(Nibble(Xor(crc, data))))
  }

  /** It takes in the low nibble of what it is given. */
  lemma LookIsFourSteps(crc: bv32, data: bv32)
    ensures Look(crc, data) == FourSteps(Xor(crc, Nibble(data)))
  {
    hide Xor, Up, Down, TopClear, FourSteps, RTable, Nibble;
    TableIsFourSteps(Xor(crc, Nibble(data)));
    NibbleMatters(crc, data);
  }

  lemma NibbleMatters(crc: bv32, data: bv32)
    ensures Down(Xor(crc, Nibble(data)), 4) == Down(crc, 4)
    ensures Nibble(Xor(crc, Nibble(data))) == Nibble(Xor(crc, data))
  {
  }

  lemma ByteHalves(data: bv8)
    ensures Xor(Nibble(FromByte(data)), Up(Down(FromByte(data), 4), 4)) == FromByte(data)
    ensures Nibble(Down(FromByte(data), 4)) == Down(FromByte(data), 4) && TopClear(Down(FromByte(data), 4), 4)
  {
  }

  /** The two looks are the eight steps of the byte. */
  lemma TwoLooks(crc: bv32, data: bv8)
    ensures Look(Look(crc, FromByte(data)), Down(FromByte(data), 4)) == ByteStep(crc, data)
  {
    hide Xor, Up, Down, TopClear, FourSteps, Nibble, Look, FromByte, Steps;
    var d := FromByte(data);
    ByteHalves(data);
    LookIsFourSteps(crc, d);
    LookIsFourSteps(Look(crc, d), Down(d, 4));
    HighBits(Xor(crc, Nibble(d)), Down(d, 4));
    XorSwap(crc, Nibble(d), Up(Down(d, 4), 4));
    EightSteps(Xor(crc, d));
  }

  // ---- lfs_crc ----

  /** The CRC of a concatenation goes on from the CRC of the first part. */
  lemma {:induction false} CrcConcat(crc: bv32, a: seq<bv8>, b: seq<bv8>)
    ensures Crc(crc, a + b) == Crc(Crc(crc, a), b)
    decreases a
  {
    hide ByteStep;
    if a == [] {
      assert a + b == b;
    } else {
      assert (a + b)[1..] == a[1..] + b;
      CrcConcat(ByteStep(crc, a[0]), a[1..], b);
    }
  }

  lemma CrcAppend(crc: bv32, data: seq<bv8>, b: bv8)
    ensures Crc(crc, data + [b]) == ByteStep(Crc(crc, data), b)
  {
    hide ByteStep;
    CrcConcat(crc, data, [b]);
    assert [b][1..] == [];
  }

  /** lfs_crc computes the bitwise CRC, for every buffer and every seed. */
  method LfsCrc(seed: bv32, buffer: array<bv8>, size: nat) returns (crc: bv32)
    requires size <= buffer.Length
    ensures crc == Crc(seed, buffer[..size])
  {
    hide ByteStep, Look, Crc, FromByte, Down;
    crc := seed;
    var i := 0;
    NoBytes(seed);
    while i < size
      invariant 0 <= i <= size && crc == Crc(seed, buffer[..i])
    {
      TwoLooks(crc, buffer[i]);
      CrcAppend(seed, buffer[..i], buffer[i]);
      crc := Look(crc, FromByte(buffer[i]));
      crc := Look(crc, Down(FromByte(buffer[i]), 4));
      assert buffer[..i + 1] == buffer[..i] + [buffer[i]];
      i := i + 1;
    }
  }

  lemma NoBytes(seed: bv32)
    ensures Crc(seed, []) == seed
  {
  }

  // ---- what the CRC detects ----

  lemma TopBit(x: bv32, y: bv32)
    ensures Xor(Down(x, 1), 0xedb88320) != Xor(Down(y, 1), 0)
    ensures Down(x, 1) == Down(y, 1) && LowBit(x) == LowBit(y) ==> x == y
    ensures LowBit(x) == 0 || LowBit(x) == 1
  {
    assert ((x >> 1) ^ 0xedb88320) & 0x80000000 != ((y >> 1) ^ 0) & 0x80000000;
  }

  lemma BitStepInjective(x: bv32, y: bv32)
    requires BitStep(x) == BitStep(y)
    ensures x == y
  {
    hide Xor, Down, LowBit;
    TopBit(x, y);
    TopBit(y, x);
    XorTwice(Down(x, 1), Feedback(LowBit(x)));
    XorTwice(Down(y, 1), Feedback(LowBit(y)));
  }

  lemma {:induction false} StepsInjective(x: bv32, y: bv32, n: nat)
    requires Steps(x, n) == Steps(y, n)
    ensures x == y
    decreases n
  {
    hide BitStep;
    if n > 0 {
      StepsInjective(BitStep(x), BitStep(y), n - 1);
      BitStepInjective(x, y);
    }
  }

  /** Over the same buffer, different seeds give different CRCs. */
  lemma {:induction false} SeedInjective(x: bv32, y: bv32, data: seq<bv8>)
    requires Crc(x, data) == Crc(y, data)
    ensures x == y
    decreases data
  {
    hide Steps, Xor, FromByte;
    if data != [] {
      var d := FromByte(data[0]);
      SeedInjective(ByteStep(x, data[0]), ByteStep(y, data[0]), data[1..]);
      StepsInjective(Xor(x, d), Xor(y, d), 8);
      XorTwice(x, d);
      XorTwice(y, d);
    }
  }

  /** Up to four bytes as a little-endian word. */
  function Word(w: seq<bv8>): bv32
    requires |w| <= 4
  {
    if w == [] then 0 else Xor(FromByte(w[0]), Up(Word(w[1..]), 8))
  }

  lemma ByteAbove(b: bv8, z: bv32)
    ensures TopClear(z, 32) ==> TopClear(Xor(FromByte(b), Up(z, 8)), 24)
    ensures TopClear(z, 24) ==> TopClear(Xor(FromByte(b), Up(z, 8)), 16)
    ensures TopClear(z, 16) ==> TopClear(Xor(FromByte(b), Up(z, 8)), 8)
    ensures TopClear(z, 24) ==> TopClear(z, 16)
    ensures TopClear(z, 16) ==> TopClear(z, 8)
  {
    ByteAboveBits(b as bv32, z);
  }

  lemma ByteAboveBits(b: bv32, z: bv32)
    requires b & 0xff == b
    ensures z == 0 ==> (b ^ (z << 8)) & 0xffffff00 == 0
    ensures z & 0xffffff00 == 0 ==> (b ^ (z << 8)) & 0xffff0000 == 0
    ensures z & 0xffff0000 == 0 ==> (b ^ (z << 8)) & 0xff000000 == 0
    ensures z & 0xffffff00 == 0 ==> z & 0xffff0000 == 0
    ensures z & 0xffff0000 == 0 ==> z & 0xff000000 == 0
  {
  }

  lemma {:induction false} WordSmall(w: seq<bv8>)
    requires |w| <= 3
    ensures TopClear(Word(w), 8)
    ensures |w| <= 2 ==> TopClear(Word(w), 16)
    ensures |w| <= 1 ==> TopClear(Word(w), 24)
    ensures |w| == 0 ==> Word(w) == 0 && TopClear(Word(w), 32)
  {
    hide Xor, Up, FromByte;
    if w != [] {
      WordSmall(w[1..]);
      ByteAbove(w[0], Word(w[1..]));
      ByteAbove(w[0], Word(w));
    }
  }

  lemma ByteAndRest(a: bv8, x: bv32, b: bv8, y: bv32)
    requires TopClear(x, 8) && TopClear(y, 8)
    requires Xor(FromByte(a), Up(x, 8)) == Xor(FromByte(b), Up(y, 8))
    ensures a == b && x == y
  {
  }

  lemma {:induction false} WordInjective(v: seq<bv8>, w: seq<bv8>)
    requires |v| == |w| <= 4 && Word(v) == Word(w)
    ensures v == w
  {
    hide Xor, Up, FromByte, TopClear;
    if v != [] {
      WordSmall(v[1..]);
      WordSmall(w[1..]);
      ByteAndRest(v[0], Word(v[1..]), w[0], Word(w[1..]));
      WordInjective(v[1..], w[1..]);
      assert v == [v[0]] + v[1..] && w == [w[0]] + w[1..];
    }
  }

  /** Up to four bytes at once: they are added to the register, and move through it together. */
  lemma {:induction false} CrcOfWord(crc: bv32, w: seq<bv8>)
    requires |w| <= 4
    ensures Crc(crc, w) == Steps(Xor(crc, Word(w)), 8 * |w|)
    decreases w
  {
    hide Steps, Xor, Up, FromByte, TopClear;
    if w == [] {
      XorNothing(crc);
      NoSteps(crc);
    } else {
      var d, rest := FromByte(w[0]), Word(w[1..]);
      WordSmall(w[1..]);
      CrcOfWord(ByteStep(crc, w[0]), w[1..]);
      HighBytes(Xor(crc, d), rest);
      XorSwap(crc, d, Up(rest, 8));
      StepsAdd(Xor(crc, Word(w)), 8, 8 * (|w| - 1));
    }
  }

  lemma NoSteps(crc: bv32)
    ensures Steps(crc, 0) == crc
  {
  }

  lemma {:induction false} StepsAdd(crc: bv32, m: nat, n: nat)
    ensures Steps(crc, m + n) == Steps(Steps(crc, m), n)
    decreases m
  {
    hide BitStep;
    if m > 0 {
      StepsAdd(BitStep(crc), m - 1, n);
    }
  }

  /** Buffers of equal length that differ, but only within four bytes, have different CRCs. */
  lemma BurstDetected(seed: bv32, a: seq<bv8>, b: seq<bv8>, from: nat)
    requires |a| == |b| && a != b && from <= |a|
    requires forall j :: 0 <= j < |a| && !(from <= j < from + 4) ==> a[j] == b[j]
    ensures Crc(seed, a) != Crc(seed, b)
  {
    hide Crc, Steps, Word, Xor;
    var end := if from + 4 <= |a| then from + 4 else |a|;
    var c := Crc(seed, a[..from]);
    var v, w := a[from..end], b[from..end];
    assert a == a[..from] + v + a[end..] && b == a[..from] + w + a[end..];
    Parts(seed, a[..from], v, a[end..]);
    Parts(seed, a[..from], w, a[end..]);
    CrcOfWord(c, v);
    CrcOfWord(c, w);
    XorTwice(c, Word(v));
    XorTwice(c, Word(w));
    if Crc(seed, a) == Crc(seed, b) {
      SeedInjective(Crc(c, v), Crc(c, w), a[end..]);
      StepsInjective(Xor(c, Word(v)), Xor(c, Word(w)), 8 * |v|);
      WordInjective(v, w);
    }
  }

  lemma Parts(seed: bv32, p: seq<bv8>, w: seq<bv8>, s: seq<bv8>)
    ensures Crc(seed, p + w + s) == Crc(Crc(Crc(seed, p), w), s)
  {
    hide Crc;
    CrcConcat(seed, p + w, s);
    CrcConcat(seed, p, w);
  }
}
