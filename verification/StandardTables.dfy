/** The four standard tables of jpge.cpp (Annex K.3 of ITU-T T.81): they satisfy everything the coder
    needs of its tables. */
module StandardTables {
  import opened BitStrings
  import opened Huffman
  import opened EntropyCoder
  import opened AcSymbols

  datatype Which = DcLum | AcLum | DcChroma | AcChroma

  // ---- how many codes there are of every length ----

  const DC_LUM_BITS: seq<nat> := [0, 0, 1, 5, 1, 1, 1, 1, 1, 1, 0, 0, 0, 0, 0, 0, 0]
  const AC_LUM_BITS: seq<nat> := [0, 0, 2, 1, 3, 3, 2, 4, 3, 5, 5, 4, 4, 0, 0, 1, 0x7d]
  const DC_CHROMA_BITS: seq<nat> := [0, 0, 3, 1, 1, 1, 1, 1, 1, 1, 1, 1, 0, 0, 0, 0, 0]
  const AC_CHROMA_BITS: seq<nat> := [0, 0, 2, 1, 2, 4, 4, 3, 4, 7, 5, 4, 4, 0, 1, 2, 0x77]

  function BitList(w: Which): (bits: seq<nat>)
    ensures |bits| == MAX_SIZE + 1
  {
    match w
    case DcLum => DC_LUM_BITS
    case AcLum => AC_LUM_BITS
    case DcChroma => DC_CHROMA_BITS
    case AcChroma => AC_CHROMA_BITS
  }

  function BitCount(w: Which, l: nat): nat {
    if l <= MAX_SIZE then BitList(w)[l] else 0
  }

  // ---- the symbols in the order of their codes ----

  function Count(w: Which): nat {
    if w == AcLum || w == AcChroma then COUNT else 12
  }

  function ValAt(w: Which, p: nat): nat
    requires p < Count(w)
  {
    match w
    case AcLum => SymbolAt(Luminance, p)
    case AcChroma => SymbolAt(Chrominance, p)
    case _ => p
  }

  /** The symbols the coder uses. */
  predicate Needed(w: Which, v: nat) {
    if w == AcLum || w == AcChroma then v < 256 && (v == END_OF_BLOCK || v == ZERO_RUN || 1 <= v % 16 <= 10)
    else v <= 11
  }

  lemma SymbolsAreDistinct(w: Which, p: nat, q: nat)
    requires p < Count(w) && q < Count(w)
    ensures ValAt(w, p) < 256 && (ValAt(w, p) == ValAt(w, q) ==> p == q)
  {
    hide SymbolAt;
    SymbolIsByte(if w == AcLum then Luminance else Chrominance, p % COUNT);
    if w == AcLum && ValAt(w, p) == ValAt(w, q) {
      SymbolsDiffer(Luminance, p, q);
    } else if w == AcChroma && ValAt(w, p) == ValAt(w, q) {
      SymbolsDiffer(Chrominance, p, q);
    }
  }

  lemma NeededStands(w: Which, v: nat) returns (p: nat)
    requires Needed(w, v)
    ensures p < Count(w) && ValAt(w, p) == v
  {
    hide SymbolAt, Place;
    if w == AcLum || w == AcChroma {
      var c := if w == AcLum then Luminance else Chrominance;
      var i := if v == END_OF_BLOCK then 160 else if v == ZERO_RUN then 161 else v / 16 * 10 + v % 16 - 1;
      AtItsPlace(c, i);
      p := Place(c, i);
    } else {
      p := v;
    }
  }

  // ---- the Kraft sum ----

  function ValList(w: Which): seq<nat> {
    seq(Count(w), p requires 0 <= p < Count(w) => ValAt(w, p))
  }

  function CountFrom(w: Which, l: nat): nat
    decreases MAX_SIZE + 1 - l
  {
    if l > MAX_SIZE then 0 else BitCount(w, l) + CountFrom(w, l + 1)
  }

  function Times(a: nat, b: nat): nat {
    a * b
  }

  function UnitsFrom(w: Which, l: nat): nat
    decreases MAX_SIZE + 1 - l
  {
    if l > MAX_SIZE then 0 else Times(BitCount(w, l), Pow2(MAX_SIZE - l)) + UnitsFrom(w, l + 1)
  }

  lemma EdgeAppend(a: seq<nat>, x: nat)
    requires Ascending(a + [x])
    ensures Ascending(a) && 1 <= x <= MAX_SIZE
    ensures Edge(a + [x], |a| + 1) == Edge(a, |a|) + Pow2(MAX_SIZE - x)
  {
    PartsAscend(a, [x]);
    EdgeOfPrefix(a, [x], |a|);
    assert (a + [x])[|a|] == x;
  }

  lemma {:induction false} EdgeConcat(a: seq<nat>, b: seq<nat>)
    requires Ascending(a + b)
    ensures Ascending(a) && Ascending(b)
    ensures Edge(a + b, |a| + |b|) == Edge(a, |a|) + Edge(b, |b|)
  {
    hide Edge, Ascending, Pow2;
    PartsAscend(a, b);
    if b == [] {
      assert a + b == a;
      NothingTaken();
    } else {
      var front, x := b[..|b| - 1], b[|b| - 1];
      assert a + b == a + front + [x] && b == front + [x];
      EdgeAppend(a + front, x);
      EdgeAppend(front, x);
      EdgeConcat(a, front);
    }
  }

  lemma PartsAscend(a: seq<nat>, b: seq<nat>)
    requires Ascending(a + b)
    ensures Ascending(a) && Ascending(b)
  {
    assert forall p :: 0 <= p < |a| ==> (a + b)[p] == a[p];
    assert forall p :: 0 <= p < |b| ==> (a + b)[|a| + p] == b[p];
  }

  lemma {:induction false} EdgeOfPrefix(a: seq<nat>, b: seq<nat>, p: nat)
    requires Ascending(a + b) && Ascending(a) && p <= |a|
    ensures Edge(a + b, p) == Edge(a, p)
  {
    if p > 0 {
      EdgeOfPrefix(a, b, p - 1);
    }
  }

  lemma {:induction false} EdgeOfRepeat(l: nat, n: nat)
    requires 1 <= l <= MAX_SIZE
    ensures Ascending(Repeat(l, n)) && Edge(Repeat(l, n), n) == n * Pow2(MAX_SIZE - l)
  {
    if n > 0 {
      EdgeOfRepeat(l, n - 1);
      assert Repeat(l, n) == Repeat(l, n - 1) + [l];
      EdgeOfPrefix(Repeat(l, n - 1), [l], n - 1);
      Distribute(n - 1, 1, Pow2(MAX_SIZE - l));
    }
  }

  lemma CountOfLength(w: Which, l: nat)
    ensures |BitList(w)| == MAX_SIZE + 1 && (l <= MAX_SIZE ==> BitList(w)[l] == BitCount(w, l))
  {
  }

  lemma {:induction false} SizesCounted(w: Which, l: nat)
    requires 1 <= l <= MAX_SIZE + 1
    ensures var s := SizesFrom(BitList(w), l); Ascending(s) && |s| == CountFrom(w, l) && Edge(s, |s|) == UnitsFrom(w, l)
    decreases MAX_SIZE + 1 - l
  {
    hide BitCount, BitList, Pow2, Edge;
    CountOfLength(w, l);
    SizesAscending(BitList(w), l);
    if l <= MAX_SIZE {
      SizesCounted(w, l + 1);
      EdgeConcat(Repeat(l, BitCount(w, l)), SizesFrom(BitList(w), l + 1));
      EdgeOfRepeat(l, BitCount(w, l));
    } else {
      NothingTaken();
    }
  }

  lemma NothingTaken()
    ensures Edge([], 0) == 0
  {
  }

  lemma Powers()
    ensures Pow2(0) == 1 && Pow2(1) == 2 && Pow2(2) == 4 && Pow2(3) == 8 && Pow2(4) == 16 && Pow2(5) == 32
    ensures Pow2(6) == 64 && Pow2(7) == 128 && Pow2(8) == 256 && Pow2(9) == 512 && Pow2(10) == 1024
    ensures Pow2(11) == 2048 && Pow2(12) == 4096 && Pow2(13) == 8192 && Pow2(14) == 16384 && Pow2(15) == 32768
    ensures Pow2(16) == 65536
  {
    assert Pow2(4) == 16 && Pow2(8) == 256 && Pow2(12) == 4096;
  }

  /** Nearly the whole code space is used. */
  lemma Sums(w: Which)
    ensures CountFrom(w, 1) == Count(w) && UnitsFrom(w, 1) <= Pow2(MAX_SIZE)
  {
    Powers();
    match w
    case DcLum => DcLumSums();
    case AcLum => AcLumSums();
    case DcChroma => DcChromaSums();
    case AcChroma => AcChromaSums();
  }

  lemma SumStep(w: Which, l: nat)
    requires l <= MAX_SIZE
    ensures CountFrom(w, l) == BitCount(w, l) + CountFrom(w, l + 1)
    ensures UnitsFrom(w, l) == Times(BitCount(w, l), Pow2(MAX_SIZE - l)) + UnitsFrom(w, l + 1)
  {
  }

  lemma SumEnd(w: Which)
    ensures CountFrom(w, MAX_SIZE + 1) == 0 == UnitsFrom(w, MAX_SIZE + 1)
  {
  }

  /** Four lengths at once. */
  lemma SumSteps(w: Which, l: nat)
    requires l <= MAX_SIZE - 3
    ensures CountFrom(w, l) ==
            BitCount(w, l) + BitCount(w, l + 1) + BitCount(w, l + 2) + BitCount(w, l + 3) + CountFrom(w, l + 4)
    ensures UnitsFrom(w, l) ==
            Times(BitCount(w, l), Pow2(MAX_SIZE - l)) + Times(BitCount(w, l + 1), Pow2(MAX_SIZE - l - 1))
            + Times(BitCount(w, l + 2), Pow2(MAX_SIZE - l - 2)) + Times(BitCount(w, l + 3), Pow2(MAX_SIZE - l - 3))
            + UnitsFrom(w, l + 4)
  {
    hide CountFrom, UnitsFrom, BitCount, Times, Pow2;
    SumStep(w, l);
    SumStep(w, l + 1);
    SumStep(w, l + 2);
    SumStep(w, l + 3);
  }

  lemma DcLumSums()
    ensures CountFrom(DcLum, 1) == Count(DcLum) && UnitsFrom(DcLum, 1) == 65408
  {
    hide Pow2, CountFrom, UnitsFrom;
    Powers();
    SumEnd(DcLum);
    SumSteps(DcLum, 13);
    assert CountFrom(DcLum, 13) == 0 && UnitsFrom(DcLum, 13) == 0;
    SumSteps(DcLum, 9);
    assert CountFrom(DcLum, 9) == 1 && UnitsFrom(DcLum, 9) == 128;
    SumSteps(DcLum, 5);
    assert CountFrom(DcLum, 5) == 5 && UnitsFrom(DcLum, 5) == 3968;
    SumSteps(DcLum, 1);
    assert CountFrom(DcLum, 1) == 12 && UnitsFrom(DcLum, 1) == 65408;
  }

  lemma AcLumSums()
    ensures CountFrom(AcLum, 1) == Count(AcLum) && UnitsFrom(AcLum, 1) == 65535
  {
    hide Pow2, CountFrom, UnitsFrom;
    Powers();
    SumEnd(AcLum);
    SumSteps(AcLum, 13);
    assert CountFrom(AcLum, 13) == 126 && UnitsFrom(AcLum, 13) == 127;
    SumSteps(AcLum, 9);
    assert CountFrom(AcLum, 9) == 144 && UnitsFrom(AcLum, 9) == 1279;
    SumSteps(AcLum, 5);
    assert CountFrom(AcLum, 5) == 156 && UnitsFrom(AcLum, 5) == 12287;
    SumSteps(AcLum, 1);
    assert CountFrom(AcLum, 1) == 162 && UnitsFrom(AcLum, 1) == 65535;
  }

  lemma DcChromaSums()
    ensures CountFrom(DcChroma, 1) == Count(DcChroma) && UnitsFrom(DcChroma, 1) == 65504
  {
    hide Pow2, CountFrom, UnitsFrom;
    Powers();
    SumEnd(DcChroma);
    SumSteps(DcChroma, 13);
    assert CountFrom(DcChroma, 13) == 0 && UnitsFrom(DcChroma, 13) == 0;
    SumSteps(DcChroma, 9);
    assert CountFrom(DcChroma, 9) == 3 && UnitsFrom(DcChroma, 9) == 224;
    SumSteps(DcChroma, 5);
    assert CountFrom(DcChroma, 5) == 7 && UnitsFrom(DcChroma, 5) == 4064;
    SumSteps(DcChroma, 1);
    assert CountFrom(DcChroma, 1) == 12 && UnitsFrom(DcChroma, 1) == 65504;
  }

  lemma AcChromaSums()
    ensures CountFrom(AcChroma, 1) == Count(AcChroma) && UnitsFrom(AcChroma, 1) == 65535
  {
    hide Pow2, CountFrom, UnitsFrom;
    Powers();
    SumEnd(AcChroma);
    SumSteps(AcChroma, 13);
    assert CountFrom(AcChroma, 13) == 122 && UnitsFrom(AcChroma, 13) == 127;
    SumSteps(AcChroma, 9);
    assert CountFrom(AcChroma, 9) == 142 && UnitsFrom(AcChroma, 9) == 1535;
    SumSteps(AcChroma, 5);
    assert CountFrom(AcChroma, 5) == 157 && UnitsFrom(AcChroma, 5) == 16383;
    SumSteps(AcChroma, 1);
    assert CountFrom(AcChroma, 1) == 162 && UnitsFrom(AcChroma, 1) == 65535;
  }

  /** What compute_huffman_table makes of a standard table is a prefix code with a code for every
      symbol the coder uses. */
  lemma StandardTableQualifies(w: Which, t: Table)
    requires Ascending(Sizes(BitList(w))) && Assigned(t, Sizes(BitList(w)), ValList(w))
    ensures PrefixCode(t) && forall v :: 0 <= v && Needed(w, v) ==> t.sizes[v] > 0
  {
    hide Edge, Pow2, Code, SizesFrom, ValAt, Needed, PrefixCode;
    var sizes, val := Sizes(BitList(w)), ValList(w);
    SizesCounted(w, 1);
    Sums(w);
    SymbolsDistinct(w);
    AssignedIsPrefixCode(t, sizes, val);
    forall v | 0 <= v && Needed(w, v)
      ensures v < 256 && t.sizes[v] > 0
    {
      var p := NeededStands(w, v);
      assert val[p] == v && LastOf(val, |sizes|, p);
    }
  }

  lemma SymbolsDistinct(w: Which)
    ensures DistinctSymbols(ValList(w), Count(w))
  {
    hide ValAt;
    forall p, q | 0 <= p < q < Count(w)
      ensures ValList(w)[p] != ValList(w)[q]
    {
      SymbolsAreDistinct(w, p, q);
    }
  }

  /** The tables jpg_open builds once, and that they do for the coder. */
  method InitializeTables() returns (tables: Tables)
    ensures Covers(tables)
  {
    var dcLum := BuildTable(DcLum);
    var acLum := BuildTable(AcLum);
    var dcChroma := BuildTable(DcChroma);
    var acChroma := BuildTable(AcChroma);
    tables := Tables(dcLum, acLum, dcChroma, acChroma);
  }

  method BuildTable(w: Which) returns (t: Table)
    ensures w == DcLum || w == DcChroma ==> CoversDc(t)
    ensures w == AcLum || w == AcChroma ==> CoversAc(t)
  {
    hide PrefixCode, Assigned, SizesFrom, Edge, ValAt, Needed, BitCount, BitList, Pow2, CountFrom, UnitsFrom;
    SizesCounted(w, 1);
    Sums(w);
    var codes, sizes := new nat[256](_ => 0), new nat[256](_ => 0);
    forall p | 0 <= p < Count(w)
      ensures ValAt(w, p) < 256
    {
      SymbolsAreDistinct(w, p, p);
    }
    ComputeHuffmanTable(codes, sizes, BitList(w), ValList(w));
    t := CodeTable(codes[..], sizes[..]);
    StandardTableQualifies(w, t);
    NeededSymbols(w);
  }

  lemma NeededSymbols(w: Which)
    ensures w == DcLum || w == DcChroma ==> forall n :: 0 <= n <= 11 ==> Needed(w, n)
    ensures w == AcLum || w == AcChroma ==> Needed(w, END_OF_BLOCK) && Needed(w, ZERO_RUN)
    ensures w == AcLum || w == AcChroma ==>
              forall run, n :: 0 <= run < 16 && 1 <= n <= 10 ==> Needed(w, Symbol(run, n))
  {
    forall run, n | 0 <= run < 16 && 1 <= n <= 10
      ensures Needed(AcLum, Symbol(run, n)) && Needed(AcChroma, Symbol(run, n))
    {
      assert Symbol(run, n) % 16 == n;
    }
  }
}
