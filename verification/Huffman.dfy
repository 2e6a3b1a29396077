/** The Huffman tables of jpge.cpp: Annex C of ITU-T T.81. */
module Huffman {
  import opened CString
  import opened BitStrings

  const MAX_SIZE := 16

  /** Code and code size of every symbol; size 0 means that the symbol has no code. */
  datatype CodeTable = CodeTable(codes: seq<nat>, sizes: seq<nat>)

  type Table = t: CodeTable | |t.codes| == |t.sizes| == 256 witness CodeTable(seq(256, _ => 0), seq(256, _ => 0))

  function Repeat(l: nat, n: nat): (r: seq<nat>)
    ensures |r| == n && forall i :: 0 <= i < n ==> r[i] == l
  {
    seq(n, _ => l)
  }

  /** The sizes of the codes in order: bits[l] codes of every length l, from `l` on. */
  function SizesFrom(bits: seq<nat>, l: nat): seq<nat>
    requires |bits| == MAX_SIZE + 1 && l <= MAX_SIZE + 1
    decreases MAX_SIZE + 1 - l
  {
    if l == MAX_SIZE + 1 then [] else Repeat(l, bits[l]) + SizesFrom(bits, l + 1)
  }

  function Sizes(bits: seq<nat>): seq<nat>
    requires |bits| == MAX_SIZE + 1
  {
    SizesFrom(bits, 1)
  }

  predicate Ascending(sizes: seq<nat>) {
    && (forall p :: 0 <= p < |sizes| ==> 1 <= sizes[p] <= MAX_SIZE)
    && (forall p, q :: 0 <= p < q < |sizes| ==> sizes[p] <= sizes[q])
  }

  lemma {:induction false} SizesAscending(bits: seq<nat>, l: nat)
    requires |bits| == MAX_SIZE + 1 && 1 <= l <= MAX_SIZE + 1
    ensures Ascending(SizesFrom(bits, l))
    ensures forall p :: 0 <= p < |SizesFrom(bits, l)| ==> l <= SizesFrom(bits, l)[p]
    decreases MAX_SIZE + 1 - l
  {
    if l <= MAX_SIZE {
      SizesAscending(bits, l + 1);
    }
  }

  /** The share of the code space that the first p codes take, in units of a 16-bit code. */
  function Edge(sizes: seq<nat>, p: nat): nat
    requires p <= |sizes| && Ascending(sizes)
  {
    if p == 0 then 0 else Edge(sizes, p - 1) + Pow2(MAX_SIZE - sizes[p - 1])
  }

  /** The Kraft sum is at most one. */
  predicate Kraft(sizes: seq<nat>)
    requires Ascending(sizes)
  {
    Edge(sizes, |sizes|) <= Pow2(MAX_SIZE)
  }

  /** Annex C: the code behind another is one more, moved left by what it is longer. */
  function Code(sizes: seq<nat>, p: nat): nat
    requires p < |sizes| && Ascending(sizes)
  {
    if p == 0 then 0 else (Code(sizes, p - 1) + 1) * Pow2(sizes[p] - sizes[p - 1])
  }

  lemma Consecutive(sizes: seq<nat>, p: nat)
    requires Ascending(sizes) && p + 1 < |sizes| && sizes[p + 1] == sizes[p]
    ensures Code(sizes, p + 1) == Code(sizes, p) + 1
  {
    assert Pow2(0) == 1;
  }

  lemma {:induction false} EdgeMonotone(sizes: seq<nat>, p: nat, q: nat)
    requires Ascending(sizes) && p <= q <= |sizes|
    ensures Edge(sizes, p) <= Edge(sizes, q)
  {
    if p < q {
      EdgeMonotone(sizes, p, q - 1);
    }
  }

  lemma NextEdge(sizes: seq<nat>, p: nat)
    requires Ascending(sizes) && p < |sizes|
    ensures Edge(sizes, p + 1) == Edge(sizes, p) + Pow2(MAX_SIZE - sizes[p])
    ensures Edge(sizes, p + 1) > Edge(sizes, p)
  {
  }

  /** A code names the interval of the code space that begins at its edge. */
  lemma {:induction false} CodeScaled(sizes: seq<nat>, p: nat)
    requires Ascending(sizes) && p < |sizes|
    ensures Code(sizes, p) * Pow2(MAX_SIZE - sizes[p]) == Edge(sizes, p)
  {
    if p > 0 {
      CodeScaled(sizes, p - 1);
      var next, step, unit := Code(sizes, p - 1) + 1, Pow2(sizes[p] - sizes[p - 1]), Pow2(MAX_SIZE - sizes[p]);
      PowSplit(MAX_SIZE - sizes[p], MAX_SIZE - sizes[p - 1]);
      MulAssoc(next, step, unit);
      Distribute(Code(sizes, p - 1), 1, step * unit);
    }
  }

  /** A code fits its size. */
  lemma CodeFits(sizes: seq<nat>, p: nat)
    requires Ascending(sizes) && p < |sizes| && Kraft(sizes)
    ensures Code(sizes, p) < Pow2(sizes[p])
  {
    CodeScaled(sizes, p);
    PowSplit(MAX_SIZE - sizes[p], MAX_SIZE);
    EdgeMonotone(sizes, p + 1, |sizes|);
    ScaleLess(Code(sizes, p), Pow2(sizes[p]), Pow2(MAX_SIZE - sizes[p]));
  }

  /** No code is a prefix of another: their intervals do not meet. */
  lemma PrefixFree(sizes: seq<nat>, p: nat, q: nat)
    requires Ascending(sizes) && Kraft(sizes) && p < |sizes| && q < |sizes| && p != q
    ensures !(Bits(Code(sizes, p), sizes[p]) <= Bits(Code(sizes, q), sizes[q]))
  {
    hide Code, Pow2, Bits, Value, Edge;
    var short, long := Bits(Code(sizes, p), sizes[p]), Bits(Code(sizes, q), sizes[q]);
    NextEdge(sizes, p);
    NextEdge(sizes, q);
    if p < q {
      EdgeMonotone(sizes, p + 1, q);
    } else {
      EdgeMonotone(sizes, q + 1, p);
    }
    if short <= long {
      CodeFits(sizes, p);
      CodeFits(sizes, q);
      ValueOfBits(Code(sizes, p), sizes[p]);
      ValueOfBits(Code(sizes, q), sizes[q]);
      ValueSplit(long, sizes[p]);
      assert long[..sizes[p]] == short;
      InsideInterval(sizes, p, q, Value(long[sizes[p]..]));
    }
  }

  /** A code that begins like a shorter one lies in that one's interval. */
  lemma InsideInterval(sizes: seq<nat>, p: nat, q: nat, rest: nat)
    requires Ascending(sizes) && p < |sizes| && q < |sizes| && sizes[p] <= sizes[q]
    requires Code(sizes, q) == Code(sizes, p) * Pow2(sizes[q] - sizes[p]) + rest && rest < Pow2(sizes[q] - sizes[p])
    ensures Edge(sizes, p) <= Edge(sizes, q) < Edge(sizes, p) + Pow2(MAX_SIZE - sizes[p])
  {
    hide Code, Pow2, Edge;
    var step, unit := Pow2(sizes[q] - sizes[p]), Pow2(MAX_SIZE - sizes[q]);
    CodeScaled(sizes, p);
    CodeScaled(sizes, q);
    PowSplit(MAX_SIZE - sizes[q], MAX_SIZE - sizes[p]);
    Within(Code(sizes, p), step, unit, rest);
  }

  lemma Within(short: nat, step: nat, unit: nat, rest: nat)
    requires rest < step && unit > 0
    ensures short * (step * unit) <= (short * step + rest) * unit < short * (step * unit) + step * unit
  {
    Distribute(short * step, rest, unit);
    MulAssoc(short, step, unit);
    ScaleLess(rest, step, unit);
    ScaleLess(-1, rest, unit);
  }

  // ---- compute_huffman_table ----

  /** The last of the first n positions with its symbol. */
  predicate LastOf(val: seq<nat>, n: nat, p: nat)
    requires p < n <= |val|
  {
    forall q :: p < q < n ==> val[q] != val[p]
  }

  /** The first n codes are with their symbols: position p of the list of codes belongs to the
      symbol val[p], and a symbol named twice has its last code. */
  predicate Filled(codes: seq<nat>, codeSizes: seq<nat>, sizes: seq<nat>, val: seq<nat>, n: nat)
    requires Ascending(sizes)
  {
    && |codes| == |codeSizes| == 256 && n <= |sizes| <= |val|
    && (forall p :: 0 <= p < n ==> val[p] < 256)
    && (forall p :: 0 <= p < n && LastOf(val, n, p) ==> codes[val[p]] == Code(sizes, p) && codeSizes[val[p]] == sizes[p])
    && (forall v :: 0 <= v < 256 && v !in val[..n] ==> codeSizes[v] == 0)
  }

  lemma FilledStep(codes: seq<nat>, codeSizes: seq<nat>, sizes: seq<nat>, val: seq<nat>, n: nat)
    requires Ascending(sizes) && Filled(codes, codeSizes, sizes, val, n) && n < |sizes| && val[n] < 256
    ensures Filled(codes[val[n] := Code(sizes, n)], codeSizes[val[n] := sizes[n]], sizes, val, n + 1)
  {
    hide Code, Ascending, LastOf;
    var codes', sizes' := codes[val[n] := Code(sizes, n)], codeSizes[val[n] := sizes[n]];
    forall p | 0 <= p < n + 1 && LastOf(val, n + 1, p)
      ensures codes'[val[p]] == Code(sizes, p) && sizes'[val[p]] == sizes[p]
    {
      if p < n {
        LastBefore(val, n, p);
      }
    }
    assert val[..n + 1] == val[..n] + [val[n]];
    forall v | 0 <= v < 256 && v !in val[..n + 1]
      ensures sizes'[v] == 0
    {
      assert v !in val[..n] && val[n] in val[..n + 1];
    }
  }

  lemma LastBefore(val: seq<nat>, n: nat, p: nat)
    requires p < n < |val| && LastOf(val, n + 1, p)
    ensures val[p] != val[n] && LastOf(val, n, p)
  {
  }

  /** The table the encoder uses. */
  predicate Assigned(t: Table, sizes: seq<nat>, val: seq<nat>)
    requires Ascending(sizes)
  {
    Filled(t.codes, t.sizes, sizes, val, |sizes|)
  }

  predicate DistinctSymbols(val: seq<nat>, n: nat) {
    n <= |val| && forall p, q :: 0 <= p < q < n ==> val[p] != val[q]
  }

  /** The sizes, with a sentinel behind the last. */
  method ListSizes(bits: seq<nat>, huffSize: array<nat>) returns (lastP: nat)
    requires |bits| == MAX_SIZE + 1 && |Sizes(bits)| < huffSize.Length
    modifies huffSize
    ensures lastP == |Sizes(bits)| && huffSize[..lastP] == Sizes(bits) && huffSize[lastP] == 0
  {
    hide SizesFrom;
    var p := 0;
    var l := 1;
    while l <= MAX_SIZE
      invariant 1 <= l <= MAX_SIZE + 1 && p <= |Sizes(bits)|
      invariant Sizes(bits) == huffSize[..p] + SizesFrom(bits, l)
    {
      var i := 1;
      ghost var before := huffSize[..p];
      SizesStep(bits, l, before);
      while i <= bits[l]
        invariant 1 <= i <= bits[l] + 1 && p == |before| + (i - 1)
        invariant huffSize[..p] == before + Repeat(l, i - 1)
      {
        huffSize[p] := l;
        p, i := p + 1, i + 1;
      }
      l := l + 1;
    }
    SizesEnd(bits, huffSize[..p]);
    huffSize[p] := 0;
    lastP := p;
  }

  lemma SizesStep(bits: seq<nat>, l: nat, before: seq<nat>)
    requires |bits| == MAX_SIZE + 1 && l <= MAX_SIZE
    ensures before + SizesFrom(bits, l) == before + Repeat(l, bits[l]) + SizesFrom(bits, l + 1)
  {
    assert before + (Repeat(l, bits[l]) + SizesFrom(bits, l + 1)) == before + Repeat(l, bits[l]) + SizesFrom(bits, l + 1);
  }

  lemma SizesEnd(bits: seq<nat>, before: seq<nat>)
    requires |bits| == MAX_SIZE + 1
    ensures before + SizesFrom(bits, MAX_SIZE + 1) == before
  {
  }

  lemma NoEdge(sizes: seq<nat>)
    requires Ascending(sizes)
    ensures Edge(sizes, 0) == 0
  {
  }

  lemma Doubled(code: nat, n: nat)
    requires n > 0
    ensures code * Pow2(n) == code * 2 * Pow2(n - 1)
  {
    MulAssoc(code, 2, Pow2(n - 1));
  }

  /** The two nested loops: the code counts up within a size and doubles from size to size. */
  method ListCodes(ghost sizes: seq<nat>, huffSize: array<nat>, huffCode: array<nat>)
    requires Ascending(sizes) && |sizes| < huffSize.Length && |sizes| <= huffCode.Length && huffSize != huffCode
    requires huffSize[..|sizes|] == sizes && huffSize[|sizes|] == 0
    modifies huffCode
    ensures forall p :: 0 <= p < |sizes| ==> huffCode[p] == Code(sizes, p)
  {
    hide Code, Pow2, Edge;
    var code, si, p := 0, huffSize[0], 0;
    assert forall q :: 0 <= q < |sizes| ==> huffSize[q] == huffSize[..|sizes|][q] == sizes[q];
    NoEdge(sizes);
    while huffSize[p] != 0
      invariant 0 <= p <= |sizes| && 0 <= si <= MAX_SIZE + 1
      invariant p < |sizes| ==> 1 <= si <= sizes[p]
      invariant p < |sizes| ==> code * Pow2(MAX_SIZE - si) == Edge(sizes, p)
      invariant forall q :: 0 <= q < p ==> huffCode[q] == Code(sizes, q)
      decreases |sizes| - p, MAX_SIZE + 1 - si
    {
      ghost var start := p;
      while huffSize[p] == si
        invariant start <= p <= |sizes| && 1 <= si <= MAX_SIZE
        invariant p < |sizes| ==> si <= sizes[p]
        invariant code * Pow2(MAX_SIZE - si) == Edge(sizes, p)
        invariant forall q :: 0 <= q < p ==> huffCode[q] == Code(sizes, q)
        decreases |sizes| - p
      {
        CodeScaled(sizes, p);
        NextEdge(sizes, p);
        ScaleLess(code, Code(sizes, p), Pow2(MAX_SIZE - si));
        Distribute(code, 1, Pow2(MAX_SIZE - si));
        huffCode[p] := code;
        p, code := p + 1, code + 1;
      }
      if p < |sizes| {
        Doubled(code, MAX_SIZE - si);
      }
      code := code * 2;
      si := si + 1;
    }
  }

  /** The last loop: the codes go to their symbols. */
  method AssignCodes(codes: array<nat>, codeSizes: array<nat>, huffSize: array<nat>, huffCode: array<nat>,
                     val: seq<nat>, lastP: nat, ghost sizes: seq<nat>)
    requires Ascending(sizes) && lastP == |sizes| <= |val| && forall p :: 0 <= p < |val| ==> val[p] < 256
    requires lastP <= huffSize.Length && lastP <= huffCode.Length && codes.Length == codeSizes.Length == 256
    requires codes != codeSizes && {codes, codeSizes} !! {huffSize, huffCode}
    requires forall q :: 0 <= q < lastP ==> huffSize[q] == sizes[q] && huffCode[q] == Code(sizes, q)
    requires forall v :: 0 <= v < 256 ==> codeSizes[v] == 0
    modifies codes, codeSizes
    ensures Assigned(CodeTable(codes[..], codeSizes[..]), sizes, val)
  {
    hide Code, Ascending, Filled;
    var p := 0;
    NothingFilled(codes[..], codeSizes[..], sizes, val);
    while p < lastP
      invariant 0 <= p <= lastP && Filled(codes[..], codeSizes[..], sizes, val, p)
      invariant forall q :: 0 <= q < lastP ==> huffSize[q] == sizes[q] && huffCode[q] == Code(sizes, q)
    {
      FilledStep(codes[..], codeSizes[..], sizes, val, p);
      codes[val[p]] := huffCode[p];
      codeSizes[val[p]] := huffSize[p];
      p := p + 1;
    }
    FilledIsAssigned(CodeTable(codes[..], codeSizes[..]), sizes, val);
  }

  lemma NothingFilled(codes: seq<nat>, codeSizes: seq<nat>, sizes: seq<nat>, val: seq<nat>)
    requires Ascending(sizes) && |codes| == |codeSizes| == 256 && |sizes| <= |val|
    requires forall v :: 0 <= v < 256 ==> codeSizes[v] == 0
    ensures Filled(codes, codeSizes, sizes, val, 0)
  {
  }

  lemma FilledIsAssigned(t: Table, sizes: seq<nat>, val: seq<nat>)
    requires Ascending(sizes) && Filled(t.codes, t.sizes, sizes, val, |sizes|)
    ensures Assigned(t, sizes, val)
  {
  }

  /** compute_huffman_table. For any bits and any symbols it gives the canonical codes. */
  method ComputeHuffmanTable(codes: array<nat>, codeSizes: array<nat>, bits: seq<nat>, val: seq<nat>)
    requires |bits| == MAX_SIZE + 1 && |Sizes(bits)| <= 256 && |Sizes(bits)| <= |val|
    requires forall p :: 0 <= p < |val| ==> val[p] < 256
    requires codes.Length == codeSizes.Length == 256 && codes != codeSizes
    modifies codes, codeSizes
    ensures Ascending(Sizes(bits)) && Assigned(CodeTable(codes[..], codeSizes[..]), Sizes(bits), val)
  {
    hide Code, Pow2, Edge, SizesFrom, Assigned, LastOf;
    SizesAscending(bits, 1);
    ghost var sizes := Sizes(bits);
    var huffSize, huffCode := new nat[257](_ => 0), new nat[257](_ => 0);
    var lastP := ListSizes(bits, huffSize);
    ListCodes(sizes, huffSize, huffCode);
    forall i | 0 <= i < 256 {
      codes[i] := 0;
    }
    forall i | 0 <= i < 256 {
      codeSizes[i] := 0;
    }
    forall q | 0 <= q < lastP
      ensures huffSize[q] == sizes[q]
    {
      assert huffSize[q] == huffSize[..lastP][q];
    }
    AssignCodes(codes, codeSizes, huffSize, huffCode, val, lastP, sizes);
  }

  // ---- decoding ----

  function CodeBits(t: Table, v: nat): seq<bool>
    requires v < 256
  {
    Bits(t.codes[v], t.sizes[v])
  }

  /** Every code fits its size, and none is a prefix of another. */
  predicate PrefixCode(t: Table) {
    && (forall v :: 0 <= v < 256 ==> t.sizes[v] <= MAX_SIZE)
    && (forall v :: 0 <= v < 256 && t.sizes[v] > 0 ==> t.codes[v] < Pow2(t.sizes[v]))
    && (forall v, w :: 0 <= v < 256 && 0 <= w < 256 && v != w && t.sizes[v] > 0 && t.sizes[w] > 0 ==>
          !(CodeBits(t, v) <= CodeBits(t, w)))
  }

  /** Distinct symbols and a Kraft sum of at most one give a prefix code. */
  lemma AssignedIsPrefixCode(t: Table, sizes: seq<nat>, val: seq<nat>)
    requires Ascending(sizes) && Kraft(sizes) && Assigned(t, sizes, val) && DistinctSymbols(val, |sizes|)
    ensures PrefixCode(t)
  {
    hide Code, Edge, Pow2, Bits;
    forall v | 0 <= v < 256 && t.sizes[v] > 0
      ensures t.sizes[v] <= MAX_SIZE && t.codes[v] < Pow2(t.sizes[v])
    {
      var p := PositionOf(t, sizes, val, v);
      CodeFits(sizes, p);
    }
    forall v, w | 0 <= v < 256 && 0 <= w < 256 && v != w && t.sizes[v] > 0 && t.sizes[w] > 0
      ensures !(CodeBits(t, v) <= CodeBits(t, w))
    {
      var p, q := PositionOf(t, sizes, val, v), PositionOf(t, sizes, val, w);
      PrefixFree(sizes, p, q);
    }
  }

  ghost function PositionOf(t: Table, sizes: seq<nat>, val: seq<nat>, v: nat): (p: nat)
    requires Ascending(sizes) && Assigned(t, sizes, val) && DistinctSymbols(val, |sizes|)
    requires v < 256 && t.sizes[v] > 0
    ensures p < |sizes| && val[p] == v && t.codes[v] == Code(sizes, p) && t.sizes[v] == sizes[p]
  {
    assert v in val[..|sizes|];
    var p :| 0 <= p < |sizes| && val[..|sizes|][p] == v;
    assert LastOf(val, |sizes|, p);
    p
  }

  /** The first symbol, from v on, with this code. */
  function Lookup(t: Table, code: nat, size: nat, v: nat): (r: Option<nat>)
    requires v <= 256
    ensures r.Some? ==> r.value < 256 && t.codes[r.value] == code && t.sizes[r.value] == size
    ensures r.None? ==> forall w :: v <= w < 256 ==> !(t.codes[w] == code && t.sizes[w] == size)
    decreases 256 - v
  {
    if v == 256 then None
    else if t.codes[v] == code && t.sizes[v] == size then Some(v)
    else Lookup(t, code, size, v + 1)
  }

  /** DECODE of section F.2.2.3: one bit after another, until they are a code. The symbol, and how
      many bits it took. */
  function DecodeFrom(t: Table, bits: seq<bool>, n: nat): (r: Option<(nat, nat)>)
    ensures r.Some? ==> r.value.0 < 256 && n <= r.value.1 <= |bits|
    decreases MAX_SIZE + 1 - n
  {
    if n > MAX_SIZE || n > |bits| then None
    else
      match Lookup(t, Value(bits[..n]), n, 0)
      case Some(v) => Some((v, n))
      case None => DecodeFrom(t, bits, n + 1)
  }

  function DecodeSymbol(t: Table, bits: seq<bool>): Option<(nat, nat)>
  {
    DecodeFrom(t, bits, 1)
  }

  /** A code is decoded to its symbol, whatever follows it. */
  lemma DecodesCode(t: Table, v: nat, rest: seq<bool>)
    requires PrefixCode(t) && v < 256 && t.sizes[v] > 0
    ensures DecodeSymbol(t, CodeBits(t, v) + rest) == Some((v, t.sizes[v]))
  {
    DecodesFrom(t, v, rest, 1);
  }

  lemma {:induction false} DecodesFrom(t: Table, v: nat, rest: seq<bool>, n: nat)
    requires PrefixCode(t) && v < 256 && 1 <= n <= t.sizes[v]
    ensures DecodeFrom(t, CodeBits(t, v) + rest, n) == Some((v, t.sizes[v]))
    decreases t.sizes[v] - n
  {
    var code := CodeBits(t, v);
    var bits := code + rest;
    assert bits[..n] == code[..n];
    BitsOfValue(code[..n]);
    if n == t.sizes[v] {
      ValueOfBits(t.codes[v], n);
      assert code[..n] == code;
    }
    var found := Lookup(t, Value(bits[..n]), n, 0);
    if found.Some? {
      assert CodeBits(t, found.value) == code[..n];
      assert found.value == v;
    } else if n < t.sizes[v] {
      DecodesFrom(t, v, rest, n + 1);
    }
  }
}
