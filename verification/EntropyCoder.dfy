/** The entropy coding of 8 by 8 blocks: what the coder writes, as strings of bits, and the decoder
    of section F.2.2 of ITU-T T.81. */
module EntropyCoder {
  import opened CString
  import opened Sequences
  import opened BitStrings
  import opened Huffman

  // ---- amplitudes ----

  function Abs(v: int): nat {
    if v < 0 then -v else v
  }

  /** nbits: the number of bits of x. */
  function Category(x: nat): nat {
    if x == 0 then 0 else 1 + Category(x / 2)
  }

  lemma {:induction false} CategoryRange(x: nat)
    ensures x < Pow2(Category(x))
    ensures x > 0 ==> Pow2(Category(x) - 1) <= x
  {
    if x > 0 {
      CategoryRange(x / 2);
    }
  }

  lemma CategoryAtMost(x: nat, k: nat)
    ensures Category(x) <= k <==> x < Pow2(k)
  {
    CategoryRange(x);
    if Category(x) <= k {
      PowMonotone(Category(x), k);
    } else {
      PowMonotone(k, Category(x) - 1);
    }
  }

  /** The low n bits of the value, or of one less than a negative value. */
  function Amplitude(v: int, n: nat): nat {
    (if v < 0 then v - 1 else v) % Pow2(n)
  }

  /** EXTEND of section F.2.2.1. */
  function Extend(a: nat, n: nat): int {
    if n > 0 && a < Pow2(n - 1) then a - Pow2(n) + 1 else a
  }

  lemma ExtendAmplitude(v: int)
    ensures Amplitude(v, Category(Abs(v))) < Pow2(Category(Abs(v)))
    ensures Extend(Amplitude(v, Category(Abs(v))), Category(Abs(v))) == v
  {
    var n := Category(Abs(v));
    CategoryRange(Abs(v));
    if v >= 0 {
      DivideUnique(v, Pow2(n), 0, v);
    } else {
      DivideUnique(v - 1, Pow2(n), -1, v - 1 + Pow2(n));
    }
  }

  // ---- the coder ----

  const ZERO_RUN := 0xF0
  const END_OF_BLOCK := 0

  /** The symbol of a run of zeros and a value of n bits. */
  function Symbol(run: nat, n: nat): nat {
    run * 16 + n
  }

  /** A symbol and the bits of the value behind it. */
  function ValueBits(t: Table, run: nat, v: int): seq<bool>
    requires Symbol(run, Category(Abs(v))) < 256
  {
    var n := Category(Abs(v));
    CodeBits(t, Symbol(run, n)) + Bits(Amplitude(v, n), n)
  }

  function ZeroRuns(t: Table, run: nat): seq<bool>
  {
    if run < 16 then [] else CodeBits(t, ZERO_RUN) + ZeroRuns(t, run - 16)
  }

  /** A block as the coder takes it: 64 values in zigzag order. */
  predicate Block(b: seq<int>) {
    |b| == 64 && forall i :: 1 <= i < 64 ==> Category(Abs(b[i])) <= 10
  }

  predicate Difference(d: int) {
    Category(Abs(d)) <= 11
  }

  /** The bounds in plain numbers: below 2^10 and below 2^11 in magnitude. */
  lemma CoefficientBounds(b: seq<int>, d: int)
    ensures Block(b) <==> |b| == 64 && forall i :: 1 <= i < 64 ==> -1024 < b[i] < 1024
    ensures Difference(d) <==> -2048 < d < 2048
  {
    assert Pow2(5) == 32 && Pow2(6) == 64;
    PowAdd(5, 5);
    PowAdd(5, 6);
    CategoryAtMost(Abs(d), 11);
    if |b| == 64 {
      forall i | 1 <= i < 64
        ensures Category(Abs(b[i])) <= 10 <==> -1024 < b[i] < 1024
      {
        CategoryAtMost(Abs(b[i]), 10);
      }
    }
  }

  /** The values from index i on, after `run` zeros. */
  function EncodeAc(t: Table, b: seq<int>, i: nat, run: nat): seq<bool>
    requires Block(b) && 1 <= i <= 64
    decreases 64 - i
  {
    if i == 64 then (if run > 0 then CodeBits(t, END_OF_BLOCK) else [])
    else if b[i] == 0 then EncodeAc(t, b, i + 1, run + 1)
    else ZeroRuns(t, run) + (ValueBits(t, run % 16, b[i]) + EncodeAc(t, b, i + 1, 0))
  }

  function EncodeBlock(dc: Table, ac: Table, b: seq<int>, lastDc: int): seq<bool>
    requires Block(b) && Difference(b[0] - lastDc)
  {
    ValueBits(dc, 0, b[0] - lastDc) + EncodeAc(ac, b, 1, 0)
  }

  // ---- the decoder ----

  function Zeros(n: nat): (r: seq<int>)
    ensures |r| == n && forall i :: 0 <= i < n ==> r[i] == 0
  {
    seq(n, _ => 0)
  }

  /** RECEIVE and EXTEND: a value of n bits, and the bits behind it. */
  function Receive(bits: seq<bool>, n: nat): (r: Option<(int, seq<bool>)>)
    ensures r.Some? ==> |r.value.1| <= |bits|
  {
    if n > |bits| then None else Some((Extend(Value(bits[..n]), n), bits[n..]))
  }

  /** The difference of the DC value, section F.2.2.1. */
  function DecodeDc(t: Table, bits: seq<bool>): Option<(int, seq<bool>)>
  {
    match DecodeSymbol(t, bits)
    case None => None
    case Some((symbol, used)) => Receive(bits[used..], symbol)
  }

  /** The values from index k on, section F.2.2.2, and the bits behind them. */
  function DecodeAc(t: Table, bits: seq<bool>, k: nat): (r: Option<(seq<int>, seq<bool>)>)
    requires k <= 64
    decreases 64 - k
  {
    if k == 64 then Some(([], bits))
    else
      match DecodeSymbol(t, bits)
      case None => None
      case Some((symbol, used)) =>
        var run, n, rest := symbol / 16, symbol % 16, bits[used..];
        if n == 0 && run < 15 then Some((Zeros(64 - k), rest))
        else if n == 0 then (if k + 16 > 63 then None else After(Zeros(16), DecodeAc(t, rest, k + 16)))
        else if k + run > 63 then None
        else
          match Receive(rest, n)
          case None => None
          case Some((v, behind)) => After(Zeros(run) + [v], DecodeAc(t, behind, k + run + 1))
  }

  function After(values: seq<int>, r: Option<(seq<int>, seq<bool>)>): Option<(seq<int>, seq<bool>)> {
    match r
    case None => None
    case Some((rest, bits)) => Some((values + rest, bits))
  }

  function DecodeBlock(dc: Table, ac: Table, bits: seq<bool>, lastDc: int): Option<(seq<int>, seq<bool>)>
  {
    match DecodeDc(dc, bits)
    case None => None
    case Some((difference, rest)) => After([lastDc + difference], DecodeAc(ac, rest, 1))
  }

  // ---- one value ----

  /** The tables have codes for all symbols the coder uses. */
  predicate CoversDc(t: Table) {
    PrefixCode(t) && forall n :: 0 <= n <= 11 ==> t.sizes[n] > 0
  }

  predicate CoversAc(t: Table) {
    && PrefixCode(t) && t.sizes[END_OF_BLOCK] > 0 && t.sizes[ZERO_RUN] > 0
    && forall run, n :: 0 <= run < 16 && 1 <= n <= 10 ==> t.sizes[Symbol(run, n)] > 0
  }

  lemma ReceiveAmplitude(v: int, rest: seq<bool>)
    ensures var n := Category(Abs(v)); Receive(Bits(Amplitude(v, n), n) + rest, n) == Some((v, rest))
  {
    var n := Category(Abs(v));
    ExtendAmplitude(v);
    ValueOfBits(Amplitude(v, n), n);
    var bits := Bits(Amplitude(v, n), n) + rest;
    assert bits[..n] == Bits(Amplitude(v, n), n) && bits[n..] == rest;
  }

  /** The symbol in front of a value, and what is left. */
  lemma SymbolDecodes(t: Table, symbol: nat, rest: seq<bool>)
    requires PrefixCode(t) && symbol < 256 && t.sizes[symbol] > 0
    ensures DecodeSymbol(t, CodeBits(t, symbol) + rest) == Some((symbol, t.sizes[symbol]))
    ensures (CodeBits(t, symbol) + rest)[t.sizes[symbol]..] == rest
  {
    DecodesCode(t, symbol, rest);
  }

  lemma DcDecodes(t: Table, d: int, rest: seq<bool>)
    requires CoversDc(t) && Difference(d)
    ensures DecodeDc(t, ValueBits(t, 0, d) + rest) == Some((d, rest))
  {
    var n := Category(Abs(d));
    assert Symbol(0, n) == n;
    var code, amplitude := CodeBits(t, n), Bits(Amplitude(d, n), n);
    assert code + amplitude + rest == code + (amplitude + rest);
    SymbolDecodes(t, n, amplitude + rest);
    ReceiveAmplitude(d, rest);
  }

  // ---- a block ----

  lemma ZeroRunDecodes(t: Table, k: nat, rest: seq<bool>)
    requires CoversAc(t) && k + 16 <= 63
    ensures DecodeAc(t, CodeBits(t, ZERO_RUN) + rest, k) == After(Zeros(16), DecodeAc(t, rest, k + 16))
  {
    hide DecodeSymbol, CodeBits, PrefixCode, Receive;
    SymbolDecodes(t, ZERO_RUN, rest);
  }

  lemma EndDecodes(t: Table, k: nat, rest: seq<bool>)
    requires CoversAc(t) && k < 64
    ensures DecodeAc(t, CodeBits(t, END_OF_BLOCK) + rest, k) == Some((Zeros(64 - k), rest))
  {
    hide DecodeSymbol, CodeBits, PrefixCode, Receive;
    SymbolDecodes(t, END_OF_BLOCK, rest);
  }

  lemma NothingDecodes(t: Table, rest: seq<bool>)
    ensures DecodeAc(t, [] + rest, 64) == Some(([], rest))
  {
    assert [] + rest == rest;
  }

  lemma ValueDecodes(t: Table, run: nat, v: int, k: nat, rest: seq<bool>)
    requires CoversAc(t) && run < 16 && v != 0 && Category(Abs(v)) <= 10 && k + run <= 63
    ensures DecodeAc(t, ValueBits(t, run, v) + rest, k) == After(Zeros(run) + [v], DecodeAc(t, rest, k + run + 1))
  {
    hide DecodeSymbol, CodeBits, PrefixCode, Receive, Bits, Amplitude, Pow2, Category;
    var n := Category(Abs(v));
    assert n > 0 by { CategoryZero(Abs(v)); }
    var symbol := Symbol(run, n);
    var code, amplitude := CodeBits(t, symbol), Bits(Amplitude(v, n), n);
    Regroup(code, amplitude, rest);
    SymbolDecodes(t, symbol, amplitude + rest);
    ReceiveAmplitude(v, rest);
    assert symbol / 16 == run && symbol % 16 == n;
  }

  lemma CategoryZero(x: nat)
    ensures Category(x) == 0 <==> x == 0
  {
  }

  lemma {:induction false} ZeroRunsDecode(t: Table, run: nat, k: nat, rest: seq<bool>)
    requires CoversAc(t) && k + run <= 63
    ensures DecodeAc(t, ZeroRuns(t, run) + rest, k) == After(Zeros(run - run % 16), DecodeAc(t, rest, k + (run - run % 16)))
    decreases run
  {
    hide DecodeAc, CodeBits, CoversAc;
    if run < 16 {
      assert [] + rest == rest;
      AfterNothing(DecodeAc(t, rest, k));
    } else {
      Regroup(CodeBits(t, ZERO_RUN), ZeroRuns(t, run - 16), rest);
      ZeroRunDecodes(t, k, ZeroRuns(t, run - 16) + rest);
      ZeroRunsDecode(t, run - 16, k + 16, rest);
      var skipped := run - 16 - (run - 16) % 16;
      assert Zeros(16) + Zeros(skipped) == Zeros(16 + skipped);
      AfterTwice(Zeros(16), Zeros(skipped), DecodeAc(t, rest, k + 16 + skipped));
    }
  }

  lemma AfterNothing(r: Option<(seq<int>, seq<bool>)>)
    ensures After(Zeros(0), r) == r
  {
    match r
    case None =>
    case Some((rest, bits)) => assert Zeros(0) + rest == rest;
  }

  lemma AfterTwice(a: seq<int>, b: seq<int>, r: Option<(seq<int>, seq<bool>)>)
    ensures After(a, After(b, r)) == After(a + b, r)
  {
    match r
    case None =>
    case Some((rest, bits)) => assert a + (b + rest) == a + b + rest;
  }

  /** Decoding what was coded from index i on gives the values back, with the zeros before them. */
  lemma {:induction false} AcDecodes(t: Table, b: seq<int>, i: nat, run: nat, rest: seq<bool>)
    requires CoversAc(t) && Block(b) && 1 <= i <= 64 && run < i
    requires forall j :: i - run <= j < i ==> b[j] == 0
    ensures DecodeAc(t, EncodeAc(t, b, i, run) + rest, i - run) == Some((b[i - run..], rest))
    decreases 64 - i
  {
    hide CodeBits, CoversAc, ValueBits, ZeroRuns, DecodeAc;
    if i == 64 {
      if run > 0 {
        EndDecodes(t, 64 - run, rest);
        assert Zeros(run) == b[64 - run..];
      } else {
        NothingDecodes(t, rest);
        assert b[64..] == [];
      }
    } else if b[i] == 0 {
      AcDecodes(t, b, i + 1, run + 1, rest);
    } else {
      NextValueDecodes(t, b, i, run, EncodeAc(t, b, i + 1, 0), rest);
      AcDecodes(t, b, i + 1, 0, rest);
      assert b[i - run..i + 1] + b[i + 1..] == b[i - run..];
    }
  }

  /** The zeros before a value, and the value. */
  lemma NextValueDecodes(t: Table, b: seq<int>, i: nat, run: nat, more: seq<bool>, rest: seq<bool>)
    requires CoversAc(t) && Block(b) && 1 <= i < 64 && run < i && b[i] != 0
    requires forall j :: i - run <= j < i ==> b[j] == 0
    ensures DecodeAc(t, ZeroRuns(t, run) + (ValueBits(t, run % 16, b[i]) + more) + rest, i - run) ==
            After(b[i - run..i + 1], DecodeAc(t, more + rest, i + 1))
  {
    hide DecodeAc, CodeBits, CoversAc, ValueBits, ZeroRuns;
    var low, skipped := run % 16, run - run % 16;
    var value := ValueBits(t, low, b[i]);
    Regroup(ZeroRuns(t, run), value + more, rest);
    Regroup(value, more, rest);
    ZeroRunsDecode(t, run, i - run, value + (more + rest));
    ValueDecodes(t, low, b[i], i - low, more + rest);
    AfterTwice(Zeros(skipped), Zeros(low) + [b[i]], DecodeAc(t, more + rest, i + 1));
    assert Zeros(skipped) + (Zeros(low) + [b[i]]) == b[i - run..i + 1];
  }

  /** One block: the decoder gives back what the coder took. */
  lemma BlockDecodes(dc: Table, ac: Table, b: seq<int>, lastDc: int, rest: seq<bool>)
    requires CoversDc(dc) && CoversAc(ac) && Block(b) && Difference(b[0] - lastDc)
    ensures DecodeBlock(dc, ac, EncodeBlock(dc, ac, b, lastDc) + rest, lastDc) == Some((b, rest))
  {
    hide DecodeDc, DecodeAc, EncodeAc, ValueBits, CoversDc, CoversAc;
    var first, second := ValueBits(dc, 0, b[0] - lastDc), EncodeAc(ac, b, 1, 0);
    Regroup(first, second, rest);
    DcDecodes(dc, b[0] - lastDc, second + rest);
    AcDecodes(ac, b, 1, 0, rest);
    assert [lastDc + (b[0] - lastDc)] + b[1..] == b;
  }

  // ---- a scan ----

  /** Tables for luminance (component 0) and for chrominance. */
  datatype Tables = Tables(dcLum: Table, acLum: Table, dcChroma: Table, acChroma: Table)

  function DcTable(t: Tables, component: nat): Table {
    if component == 0 then t.dcLum else t.dcChroma
  }

  function AcTable(t: Tables, component: nat): Table {
    if component == 0 then t.acLum else t.acChroma
  }

  predicate Covers(t: Tables) {
    CoversDc(t.dcLum) && CoversDc(t.dcChroma) && CoversAc(t.acLum) && CoversAc(t.acChroma)
  }

  datatype Unit = Unit(component: nat, block: seq<int>)

  /** Blocks within the bounds, every DC value close to the one before it in its component. */
  predicate Codable(units: seq<Unit>, lastDc: seq<int>)
    requires |lastDc| == 3
  {
    units == [] ||
    (&& units[0].component < 3 && Block(units[0].block)
     && Difference(units[0].block[0] - lastDc[units[0].component])
     && Codable(units[1..], lastDc[units[0].component := units[0].block[0]]))
  }

  function EncodeUnits(t: Tables, units: seq<Unit>, lastDc: seq<int>): seq<bool>
    requires Covers(t) && |lastDc| == 3 && Codable(units, lastDc)
  {
    if units == [] then []
    else
      var c, b := units[0].component, units[0].block;
      EncodeBlock(DcTable(t, c), AcTable(t, c), b, lastDc[c]) + EncodeUnits(t, units[1..], lastDc[c := b[0]])
  }

  /** A scan is decoded knowing which component every block belongs to. */
  function DecodeUnits(t: Tables, components: seq<nat>, bits: seq<bool>, lastDc: seq<int>): Option<(seq<Unit>, seq<bool>)>
    requires Covers(t) && |lastDc| == 3 && forall i :: 0 <= i < |components| ==> components[i] < 3
  {
    if components == [] then Some(([], bits))
    else
      var c := components[0];
      match DecodeBlock(DcTable(t, c), AcTable(t, c), bits, lastDc[c])
      case None => None
      case Some((b, rest)) =>
        if b == [] then None
        else
          match DecodeUnits(t, components[1..], rest, lastDc[c := b[0]])
          case None => None
          case Some((units, behind)) => Some(([Unit(c, b)] + units, behind))
  }

  function Components(units: seq<Unit>): (r: seq<nat>)
    ensures |r| == |units| && forall i :: 0 <= i < |r| ==> r[i] == units[i].component
  {
    seq(|units|, i requires 0 <= i < |units| => units[i].component)
  }

  lemma {:induction false} CodableComponents(units: seq<Unit>, lastDc: seq<int>)
    requires |lastDc| == 3 && Codable(units, lastDc)
    ensures forall i :: 0 <= i < |units| ==> units[i].component < 3
  {
    if units != [] {
      CodableComponents(units[1..], lastDc[units[0].component := units[0].block[0]]);
      assert forall i :: 0 < i < |units| ==> units[i] == units[1..][i - 1];
    }
  }

  /** A whole scan: whatever follows it, the decoder gives back every block. */
  lemma {:induction false} UnitsDecode(t: Tables, units: seq<Unit>, lastDc: seq<int>, rest: seq<bool>)
    requires Covers(t) && |lastDc| == 3 && Codable(units, lastDc)
    requires forall i :: 0 <= i < |units| ==> units[i].component < 3
    ensures DecodeUnits(t, Components(units), EncodeUnits(t, units, lastDc) + rest, lastDc) == Some((units, rest))
  {
    hide DecodeBlock, EncodeBlock, CoversDc, CoversAc, Difference;
    if units == [] {
      assert [] + rest == rest;
    } else {
      var c, b := units[0].component, units[0].block;
      var first, more := EncodeBlock(DcTable(t, c), AcTable(t, c), b, lastDc[c]), EncodeUnits(t, units[1..], lastDc[c := b[0]]);
      Regroup(first, more, rest);
      BlockDecodes(DcTable(t, c), AcTable(t, c), b, lastDc[c], more + rest);
      UnitsDecode(t, units[1..], lastDc[c := b[0]], rest);
      assert Components(units)[1..] == Components(units[1..]);
      assert units == [Unit(c, b)] + units[1..];
    }
  }
}
