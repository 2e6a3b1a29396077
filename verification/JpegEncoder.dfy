/** The entropy-coding half of jpge.cpp's encoder: bits into a register, bytes into a buffer of 512,
    full buffers into a stream. */
module Jpeg {
  import opened Sequences
  import opened BitStrings
  import opened Huffman
  import opened EntropyCoder
  import opened BitPacking

  const OUT_BUF_SIZE := 512
  const M_EOI := 0xD9

  class JpegEncoder {
    var bitBuffer: nat
    var bitsIn: nat
    const outBuf: array<nat>
    var outPos: nat
    var outBufLeft: nat
    var stream: seq<nat>
    var allStreamWritesSucceeded: bool
    const lastDcVal: array<int>
    const coefficients: array<int>
    const tables: Tables
    /** What was emitted before the scan, and the scan's bytes before stuffing. */
    ghost var header: seq<nat>
    ghost var raw: seq<nat>

    /** At the start of a scan, behind the markers already in the stream. */
    constructor (tables: Tables, before: seq<nat>)
      requires Covers(tables)
      ensures Valid() && fresh(Repr()) && this.tables == tables
      ensures header == before && raw == [] && Contents() == [] && lastDcVal[..] == [0, 0, 0]
    {
      this.tables := tables;
      bitBuffer, bitsIn := 0, 0;
      outBuf := new nat[OUT_BUF_SIZE](_ => 0);
      outPos, outBufLeft := 0, OUT_BUF_SIZE;
      stream, allStreamWritesSucceeded := before, true;
      lastDcVal := new int[3](_ => 0);
      coefficients := new int[64](_ => 0);
      header, raw := before, [];
      new;
      hide Covers, Pow2;
      assert Emitted() == before;
      ModOfMultiple(0, Pow2(24));
    }

    function Repr(): set<object>
    {
      {this, outBuf, lastDcVal, coefficients}
    }

    ghost predicate Buffers()
      reads this
    {
      && outBuf.Length == OUT_BUF_SIZE && outPos + outBufLeft == OUT_BUF_SIZE && outBufLeft > 0
      && lastDcVal.Length == 3 && coefficients.Length == 64 && lastDcVal != coefficients
    }

    ghost function Emitted(): seq<nat>
      requires Buffers()
      reads this, outBuf
    {
      stream + outBuf[..outPos]
    }

    /** Below eight bits wait; unless a write failed, the stream and the buffer hold the header and
        the stuffed bytes of the scan. */
    ghost predicate Valid()
      reads this, outBuf
    {
      Packing() && bitsIn < 8
    }

    ghost predicate Packing()
      reads this, outBuf
    {
      && Buffers() && Covers(tables)
      && bitsIn <= 24 && Clear(bitBuffer, bitsIn) && Bytes(raw)
      && (allStreamWritesSucceeded ==> Emitted() == header + Stuff(raw))
    }

    /** All bits of the scan so far. */
    ghost function Contents(): seq<bool>
      requires bitsIn <= 24
      reads this
    {
      BytesBits(raw) + Waiting(bitBuffer, bitsIn)
    }

    /** flush_output_buffer; whether a write succeeds is the stream's affair. */
    method FlushOutputBuffer()
      requires outBuf.Length == OUT_BUF_SIZE && outPos + outBufLeft == OUT_BUF_SIZE
      modifies `outPos, `outBufLeft, `stream, `allStreamWritesSucceeded
      ensures outPos == 0 && outBufLeft == OUT_BUF_SIZE
      ensures allStreamWritesSucceeded ==> old(allStreamWritesSucceeded) && stream == old(stream + outBuf[..outPos])
    {
      if outBufLeft != OUT_BUF_SIZE {
        if allStreamWritesSucceeded {
          stream := stream + outBuf[..OUT_BUF_SIZE - outBufLeft];
          allStreamWritesSucceeded := *;
        }
      }
      outPos, outBufLeft := 0, OUT_BUF_SIZE;
    }

    /** emit_byte */
    method EmitByte(i: nat)
      requires Buffers() && i < 256
      modifies `outPos, `outBufLeft, `stream, `allStreamWritesSucceeded, outBuf
      ensures Buffers()
      ensures allStreamWritesSucceeded ==> old(allStreamWritesSucceeded) && Emitted() == old(Emitted()) + [i]
    {
      outBuf[outPos] := i;
      outPos, outBufLeft := outPos + 1, outBufLeft - 1;
      if outBufLeft == 0 {
        FlushOutputBuffer();
      }
    }

    /** One byte of the scan, with a zero behind 0xFF. */
    method EmitScanByte(c: nat)
      requires Packing() && c < 256
      modifies `outPos, `outBufLeft, `stream, `allStreamWritesSucceeded, `raw, outBuf
      ensures Packing() && raw == old(raw) + [c]
    {
      hide Covers, Stuff, BytesBits;
      EmitByte(c);
      if c == 0xFF {
        EmitByte(0);
      }
      Appended(raw, c);
      raw := raw + [c];
    }

    /** put_bits: the bits are appended, and fewer than eight wait afterwards. */
    method PutBits(bits: nat, length: nat)
      requires Valid() && length <= 16 && bits < Pow2(length)
      modifies this, outBuf
      ensures Valid() && header == old(header)
      ensures Contents() == old(Contents()) + Bits(bits, length)
    {
      hide Or, Bits, Covers, BytesBits, Stuff, Clear, Waiting;
      BitsAdded(bitBuffer, bitsIn, bits, length);
      Regroup(BytesBits(raw), Waiting(bitBuffer, bitsIn), Bits(bits, length));
      bitsIn := bitsIn + length;
      bitBuffer := Or(bitBuffer, bits * Pow2(24 - bitsIn));
      while bitsIn >= 8
        invariant Packing() && header == old(header)
        invariant Contents() == old(Contents()) + Bits(bits, length)
        decreases bitsIn
      {
        ByteLeaves(bitBuffer, bitsIn);
        var c := bitBuffer / 0x10000 % 256;
        ghost var whole := BytesBits(raw);
        Appended(raw, c);
        EmitScanByte(c);
        bitBuffer := bitBuffer * 256 % WORD;
        bitsIn := bitsIn - 8;
        Regroup(whole, Bits(c, 8), Waiting(bitBuffer, bitsIn));
      }
    }

    /** A code and, unless the value is zero, the low bits of the value. */
    method PutValue(t: Table, run: nat, v: int)
      requires Valid() && PrefixCode(t) && Symbol(run, Category(Abs(v))) < 256
      requires Category(Abs(v)) <= 16 && t.sizes[Symbol(run, Category(Abs(v)))] > 0
      modifies this, outBuf
      ensures Valid() && header == old(header)
      ensures Contents() == old(Contents()) + ValueBits(t, run, v)
    {
      hide Covers, CodeBits, Contents, Bits;
      var temp1, temp2 := v, v;
      if temp1 < 0 {
        temp1, temp2 := -temp1, temp2 - 1;
      }
      var nbits := 0;
      while temp1 != 0
        invariant temp1 >= 0 && nbits + Category(temp1) == Category(Abs(v))
        decreases temp1
      {
        nbits, temp1 := nbits + 1, temp1 / 2;
      }
      var j := Symbol(run, nbits);
      ghost var code, amplitude := CodeBits(t, j), Bits(Amplitude(v, nbits), nbits);
      PutCode(t, j);
      ExtendAmplitude(v);
      if nbits != 0 {
        PutBits(temp2 % Pow2(nbits), nbits);
      } else {
        NoBits(Amplitude(v, 0));
        assert code + [] == code;
      }
      Regroup(old(Contents()), code, amplitude);
    }

    method PutCode(t: Table, symbol: nat)
      requires Valid() && PrefixCode(t) && symbol < 256 && t.sizes[symbol] > 0
      modifies this, outBuf
      ensures Valid() && header == old(header)
      ensures Contents() == old(Contents()) + CodeBits(t, symbol)
    {
      hide Covers, Contents, Valid;
      PutBits(t.codes[symbol], t.sizes[symbol]);
    }

    /** Sixteen zeros at a time. */
    method PutZeroRuns(t: Table, run: nat) returns (runLen: nat)
      requires Valid() && CoversAc(t)
      modifies this, outBuf
      ensures Valid() && header == old(header) && runLen == run % 16
      ensures Contents() == old(Contents()) + ZeroRuns(t, run)
    {
      hide Covers, CodeBits, Contents, PrefixCode;
      ghost var goal := Contents() + ZeroRuns(t, run);
      runLen := run;
      while runLen >= 16
        invariant 0 <= runLen && runLen % 16 == run % 16 && Valid() && header == old(header)
        invariant goal == Contents() + ZeroRuns(t, runLen)
      {
        Regroup(Contents(), CodeBits(t, ZERO_RUN), ZeroRuns(t, runLen - 16));
        PutCode(t, ZERO_RUN);
        runLen := runLen - 16;
      }
      assert Contents() + [] == Contents();
    }

    /** code_coefficients_pass_two, the AC values: the runs, the values, the end of the block. */
    method CodeAc(t: Table, ghost b: seq<int>)
      requires Valid() && CoversAc(t) && Block(b) && coefficients[..] == b
      modifies this, outBuf
      ensures Valid() && header == old(header)
      ensures Contents() == old(Contents()) + EncodeAc(t, b, 1, 0)
    {
      hide Covers, CodeBits, Contents, Category, ValueBits, PrefixCode;
      ghost var goal := old(Contents()) + EncodeAc(t, b, 1, 0);
      var runLen, i := 0, 1;
      while i < 64
        invariant 1 <= i <= 64 && 0 <= runLen < i && Valid() && header == old(header)
        invariant goal == Contents() + EncodeAc(t, b, i, runLen)
      {
        var temp1 := coefficients[i];
        assert temp1 == coefficients[..][i] == b[i];
        if temp1 == 0 {
          runLen := runLen + 1;
        } else {
          ghost var value, more := ValueBits(t, runLen % 16, temp1), EncodeAc(t, b, i + 1, 0);
          Regroup(Contents(), ZeroRuns(t, runLen), value + more);
          runLen := PutZeroRuns(t, runLen);
          Regroup(Contents(), value, more);
          CategoryZero(Abs(temp1));
          PutValue(t, runLen, temp1);
          runLen := 0;
        }
        i := i + 1;
      }
      if runLen != 0 {
        PutCode(t, END_OF_BLOCK);
      } else {
        assert Contents() + [] == Contents();
      }
    }

    /** code_coefficients_pass_two */
    method CodeCoefficientsPassTwo(componentNum: nat)
      requires Valid() && componentNum < 3 && Block(coefficients[..])
      requires Difference(coefficients[0] - lastDcVal[componentNum])
      modifies this, outBuf, lastDcVal
      ensures Valid() && header == old(header)
      ensures lastDcVal[..] == old(lastDcVal[..])[componentNum := coefficients[0]]
      ensures Contents() == old(Contents()) + EncodeBlock(DcTable(tables, componentNum), AcTable(tables, componentNum),
                                                          coefficients[..], old(lastDcVal[componentNum]))
    {
      hide Contents, ValueBits, EncodeAc, Category, PrefixCode;
      var dc, ac := DcTable(tables, componentNum), AcTable(tables, componentNum);
      var difference := coefficients[0] - lastDcVal[componentNum];
      lastDcVal[componentNum] := coefficients[0];
      assert Symbol(0, Category(Abs(difference))) == Category(Abs(difference));
      PutValue(dc, 0, difference);
      CodeAc(ac, coefficients[..]);
      Regroup(old(Contents()), ValueBits(dc, 0, difference), EncodeAc(ac, coefficients[..], 1, 0));
    }

    /** code_block, given the quantized values that load_quantized_coefficients leaves. */
    method CodeBlock(componentNum: nat, block: seq<int>)
      requires Valid() && componentNum < 3 && Block(block) && Difference(block[0] - lastDcVal[componentNum])
      modifies this, outBuf, lastDcVal, coefficients
      ensures Valid() && header == old(header)
      ensures lastDcVal[..] == old(lastDcVal[..])[componentNum := block[0]]
      ensures Contents() == old(Contents()) + EncodeBlock(DcTable(tables, componentNum), AcTable(tables, componentNum),
                                                          block, old(lastDcVal[componentNum]))
    {
      hide Contents, EncodeBlock, Covers, Difference;
      forall j | 0 <= j < 64 {
        coefficients[j] := block[j];
      }
      assert coefficients[..] == block;
      CodeCoefficientsPassTwo(componentNum);
    }

    /** The end of process_end_of_image: ones fill the last byte, then comes the marker. */
    method EndOfImage()
      requires Valid()
      modifies this, outBuf
      ensures header == old(header)
      ensures allStreamWritesSucceeded ==> stream == header + (Stuff(raw) + [0xFF, M_EOI])
      ensures exists rest :: |rest| < 8 && BytesBits(raw) + rest == old(Contents()) + Bits(0x7F, 7)
    {
      hide Covers, BytesBits, Bits, Clear, Stuff;
      Pow7();
      PutBits(0x7F, 7);
      ghost var rest := Waiting(bitBuffer, bitsIn);
      assert BytesBits(raw) + rest == old(Contents()) + Bits(0x7F, 7);
      EmitByte(0xFF);
      EmitByte(M_EOI);
      FlushOutputBuffer();
      assert outBuf[..0] == [];
      assert header + Stuff(raw) + [0xFF] + [M_EOI] == header + (Stuff(raw) + [0xFF, M_EOI]);
    }

    static lemma Pow7()
      ensures Pow2(7) == 128
    {
    }
  }

  // ---- a whole scan ----

  /** The bits a decoder finds between the header and the marker. */
  function ScanBits(bytes: seq<nat>): seq<bool> {
    BytesBits(Destuff(bytes))
  }

  predicate Ones(bits: seq<bool>) {
    forall i :: 0 <= i < |bits| ==> bits[i]
  }

  lemma SevenOnes()
    ensures Ones(Bits(0x7F, 7)) && |Bits(0x7F, 7)| == 7
  {
    assert Bits(1, 1) == [true];
    assert Bits(3, 2) == [true, true];
    assert Bits(7, 3) == [true, true, true];
    assert Bits(15, 4) == [true, true, true, true];
    assert Bits(31, 5) == [true, true, true, true, true];
    assert Bits(63, 6) == [true, true, true, true, true, true];
  }

  /** Whole bytes of coded bits and seven ones: the coded bits, and fewer than eight ones. */
  lemma PaddingIsOnes(whole: seq<bool>, rest: seq<bool>, coded: seq<bool>, ones: seq<bool>)
    requires whole + rest == coded + ones && |rest| < 8 && |ones| == 7 && Ones(ones)
    ensures |coded| <= |whole| < |coded| + 8 && whole == coded + whole[|coded|..] && Ones(whole[|coded|..])
  {
    forall i | 0 <= i < |whole|
      ensures whole[i] == (coded + ones)[i]
    {
      assert whole[i] == (whole + rest)[i];
    }
  }

  lemma UnitStep(tables: Tables, units: seq<Unit>, i: nat, lastDc: seq<int>)
    requires Covers(tables) && |lastDc| == 3 && i < |units| && Codable(units[i..], lastDc)
    ensures units[i].component < 3 && Block(units[i].block)
    ensures Difference(units[i].block[0] - lastDc[units[i].component])
    ensures var u := units[i]; var after := lastDc[u.component := u.block[0]];
            && Codable(units[i + 1..], after)
            && EncodeUnits(tables, units[i..], lastDc) ==
               EncodeBlock(DcTable(tables, u.component), AcTable(tables, u.component), u.block, lastDc[u.component])
               + EncodeUnits(tables, units[i + 1..], after)
  {
    assert units[i..][1..] == units[i + 1..];
  }

  lemma NothingLeft(tables: Tables, units: seq<Unit>, lastDc: seq<int>)
    requires Covers(tables) && |lastDc| == 3
    ensures Codable(units[|units|..], lastDc) && EncodeUnits(tables, units[|units|..], lastDc) == []
  {
  }

  /** The blocks one after another, as process_mcu_row hands them to the coder, and the end of the
      image. If no write failed, the decoder of section F.2 gets back every coefficient, and behind
      them finds fewer than eight ones. */
  method EncodeScan(tables: Tables, before: seq<nat>, units: seq<Unit>) returns (ok: bool, stream: seq<nat>)
    requires Covers(tables) && Codable(units, [0, 0, 0])
    ensures ok ==> before <= stream
    ensures ok ==> (forall i :: 0 <= i < |units| ==> units[i].component < 3)
    ensures ok ==> match DecodeUnits(tables, Components(units), ScanBits(stream[|before|..]), [0, 0, 0])
                   case None => false
                   case Some((decoded, rest)) => decoded == units && |rest| < 8 && Ones(rest)
  {
    hide Covers, EncodeBlock, BytesBits, Codable, EncodeUnits, Block, Difference, JpegEncoder.Contents, DecodeUnits;
    var e := new JpegEncoder(tables, before);
    ghost var start := [0, 0, 0];
    ghost var goal := EncodeUnits(tables, units, start);
    CodableComponents(units, start);
    assert units[0..] == units && [] + goal == goal;
    var i := 0;
    while i < |units|
      invariant 0 <= i <= |units| && e.Valid() && fresh(e.Repr()) && e.tables == tables && e.header == before
      invariant Codable(units[i..], e.lastDcVal[..])
      invariant goal == e.Contents() + EncodeUnits(tables, units[i..], e.lastDcVal[..])
    {
      var u := units[i];
      UnitStep(tables, units, i, e.lastDcVal[..]);
      ghost var last := e.lastDcVal[..];
      Regroup(e.Contents(), EncodeBlock(DcTable(tables, u.component), AcTable(tables, u.component), u.block, last[u.component]),
                  EncodeUnits(tables, units[i + 1..], last[u.component := u.block[0]]));
      e.CodeBlock(u.component, u.block);
      i := i + 1;
    }
    NothingLeft(tables, units, e.lastDcVal[..]);
    assert e.Contents() + [] == e.Contents();
    e.EndOfImage();
    ok, stream := e.allStreamWritesSucceeded, e.stream;
    if ok {
      ghost var rest :| |rest| < 8 && BytesBits(e.raw) + rest == goal + Bits(0x7F, 7);
      ScanDecodes(tables, units, before, e.raw, rest);
    }
  }

  lemma ScanDecodes(tables: Tables, units: seq<Unit>, before: seq<nat>, raw: seq<nat>, rest: seq<bool>)
    requires Covers(tables) && Codable(units, [0, 0, 0]) && forall i :: 0 <= i < |units| ==> units[i].component < 3
    requires |rest| < 8 && BytesBits(raw) + rest == EncodeUnits(tables, units, [0, 0, 0]) + Bits(0x7F, 7)
    ensures var stream := before + (Stuff(raw) + [0xFF, M_EOI]);
            match DecodeUnits(tables, Components(units), ScanBits(stream[|before|..]), [0, 0, 0])
            case None => false
            case Some((decoded, padding)) => decoded == units && |padding| < 8 && Ones(padding)
  {
    hide Covers, EncodeUnits, DecodeUnits, BytesBits, Codable, Bits;
    var stream := before + (Stuff(raw) + [0xFF, M_EOI]);
    assert stream[|before|..] == Stuff(raw) + [0xFF, M_EOI];
    DestuffStuff(raw, [0xFF, M_EOI]);
    assert raw + [] == raw;
    var coded := EncodeUnits(tables, units, [0, 0, 0]);
    SevenOnes();
    PaddingIsOnes(BytesBits(raw), rest, coded, Bits(0x7F, 7));
    UnitsDecode(tables, units, [0, 0, 0], BytesBits(raw)[|coded|..]);
  }
}
