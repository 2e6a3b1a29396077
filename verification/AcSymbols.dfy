/** The symbols of the two AC tables of jpge.cpp (Annex K.3.3.2 of ITU-T T.81): each one the coder uses
    stands in its table, and none stands there twice. */
module AcSymbols {
  import opened Sequences

  datatype Component = Luminance | Chrominance

  /** How many symbols a table has. */
  const COUNT := 162

  /** The symbols in the order of their codes, sixteen in a row. */
  const AC_LUM_VAL: seq<seq<nat>> := [
    [0x01, 0x02, 0x03, 0x00, 0x04, 0x11, 0x05, 0x12, 0x21, 0x31, 0x41, 0x06, 0x13, 0x51, 0x61, 0x07],
    [0x22, 0x71, 0x14, 0x32, 0x81, 0x91, 0xa1, 0x08, 0x23, 0x42, 0xb1, 0xc1, 0x15, 0x52, 0xd1, 0xf0],
    [0x24, 0x33, 0x62, 0x72, 0x82, 0x09, 0x0a, 0x16, 0x17, 0x18, 0x19, 0x1a, 0x25, 0x26, 0x27, 0x28],
    [0x29, 0x2a, 0x34, 0x35, 0x36, 0x37, 0x38, 0x39, 0x3a, 0x43, 0x44, 0x45, 0x46, 0x47, 0x48, 0x49],
    [0x4a, 0x53, 0x54, 0x55, 0x56, 0x57, 0x58, 0x59, 0x5a, 0x63, 0x64, 0x65, 0x66, 0x67, 0x68, 0x69],
    [0x6a, 0x73, 0x74, 0x75, 0x76, 0x77, 0x78, 0x79, 0x7a, 0x83, 0x84, 0x85, 0x86, 0x87, 0x88, 0x89],
    [0x8a, 0x92, 0x93, 0x94, 0x95, 0x96, 0x97, 0x98, 0x99, 0x9a, 0xa2, 0xa3, 0xa4, 0xa5, 0xa6, 0xa7],
    [0xa8, 0xa9, 0xaa, 0xb2, 0xb3, 0xb4, 0xb5, 0xb6, 0xb7, 0xb8, 0xb9, 0xba, 0xc2, 0xc3, 0xc4, 0xc5],
    [0xc6, 0xc7, 0xc8, 0xc9, 0xca, 0xd2, 0xd3, 0xd4, 0xd5, 0xd6, 0xd7, 0xd8, 0xd9, 0xda, 0xe1, 0xe2],
    [0xe3, 0xe4, 0xe5, 0xe6, 0xe7, 0xe8, 0xe9, 0xea, 0xf1, 0xf2, 0xf3, 0xf4, 0xf5, 0xf6, 0xf7, 0xf8],
    [0xf9, 0xfa]]

  const AC_CHROMA_VAL: seq<seq<nat>> := [
    [0x00, 0x01, 0x02, 0x03, 0x11, 0x04, 0x05, 0x21, 0x31, 0x06, 0x12, 0x41, 0x51, 0x07, 0x61, 0x71],
    [0x13, 0x22, 0x32, 0x81, 0x08, 0x14, 0x42, 0x91, 0xa1, 0xb1, 0xc1, 0x09, 0x23, 0x33, 0x52, 0xf0],
    [0x15, 0x62, 0x72, 0xd1, 0x0a, 0x16, 0x24, 0x34, 0xe1, 0x25, 0xf1, 0x17, 0x18, 0x19, 0x1a, 0x26],
    [0x27, 0x28, 0x29, 0x2a, 0x35, 0x36, 0x37, 0x38, 0x39, 0x3a, 0x43, 0x44, 0x45, 0x46, 0x47, 0x48],
    [0x49, 0x4a, 0x53, 0x54, 0x55, 0x56, 0x57, 0x58, 0x59, 0x5a, 0x63, 0x64, 0x65, 0x66, 0x67, 0x68],
    [0x69, 0x6a, 0x73, 0x74, 0x75, 0x76, 0x77, 0x78, 0x79, 0x7a, 0x82, 0x83, 0x84, 0x85, 0x86, 0x87],
    [0x88, 0x89, 0x8a, 0x92, 0x93, 0x94, 0x95, 0x96, 0x97, 0x98, 0x99, 0x9a, 0xa2, 0xa3, 0xa4, 0xa5],
    [0xa6, 0xa7, 0xa8, 0xa9, 0xaa, 0xb2, 0xb3, 0xb4, 0xb5, 0xb6, 0xb7, 0xb8, 0xb9, 0xba, 0xc2, 0xc3],
    [0xc4, 0xc5, 0xc6, 0xc7, 0xc8, 0xc9, 0xca, 0xd2, 0xd3, 0xd4, 0xd5, 0xd6, 0xd7, 0xd8, 0xd9, 0xda],
    [0xe2, 0xe3, 0xe4, 0xe5, 0xe6, 0xe7, 0xe8, 0xe9, 0xea, 0xf2, 0xf3, 0xf4, 0xf5, 0xf6, 0xf7, 0xf8],
    [0xf9, 0xfa]]

  /** Where the symbols stand: row by row those of one run, with 1 to 10 bits; then the end of the block
      and the run of sixteen zeros. */
  const AC_LUM_PLACES: seq<seq<nat>> := [
    [0, 1, 2, 4, 6, 11, 15, 23, 37, 38],
    [5, 7, 12, 18, 28, 39, 40, 41, 42, 43],
    [8, 16, 24, 32, 44, 45, 46, 47, 48, 49],
    [9, 19, 33, 50, 51, 52, 53, 54, 55, 56],
    [10, 25, 57, 58, 59, 60, 61, 62, 63, 64],
    [13, 29, 65, 66, 67, 68, 69, 70, 71, 72],
    [14, 34, 73, 74, 75, 76, 77, 78, 79, 80],
    [17, 35, 81, 82, 83, 84, 85, 86, 87, 88],
    [20, 36, 89, 90, 91, 92, 93, 94, 95, 96],
    [21, 97, 98, 99, 100, 101, 102, 103, 104, 105],
    [22, 106, 107, 108, 109, 110, 111, 112, 113, 114],
    [26, 115, 116, 117, 118, 119, 120, 121, 122, 123],
    [27, 124, 125, 126, 127, 128, 129, 130, 131, 132],
    [30, 133, 134, 135, 136, 137, 138, 139, 140, 141],
    [142, 143, 144, 145, 146, 147, 148, 149, 150, 151],
    [152, 153, 154, 155, 156, 157, 158, 159, 160, 161],
    [3, 31]]

  const AC_CHROMA_PLACES: seq<seq<nat>> := [
    [1, 2, 3, 5, 6, 9, 13, 20, 27, 36],
    [4, 10, 16, 21, 32, 37, 43, 44, 45, 46],
    [7, 17, 28, 38, 41, 47, 48, 49, 50, 51],
    [8, 18, 29, 39, 52, 53, 54, 55, 56, 57],
    [11, 22, 58, 59, 60, 61, 62, 63, 64, 65],
    [12, 30, 66, 67, 68, 69, 70, 71, 72, 73],
    [14, 33, 74, 75, 76, 77, 78, 79, 80, 81],
    [15, 34, 82, 83, 84, 85, 86, 87, 88, 89],
    [19, 90, 91, 92, 93, 94, 95, 96, 97, 98],
    [23, 99, 100, 101, 102, 103, 104, 105, 106, 107],
    [24, 108, 109, 110, 111, 112, 113, 114, 115, 116],
    [25, 117, 118, 119, 120, 121, 122, 123, 124, 125],
    [26, 126, 127, 128, 129, 130, 131, 132, 133, 134],
    [35, 135, 136, 137, 138, 139, 140, 141, 142, 143],
    [40, 144, 145, 146, 147, 148, 149, 150, 151, 152],
    [42, 153, 154, 155, 156, 157, 158, 159, 160, 161],
    [0, 31]]

  function SymbolAt(c: Component, p: nat): nat
    requires p < COUNT
  {
    match c
    case Luminance => AC_LUM_VAL[p / 16][p % 16]
    case Chrominance => AC_CHROMA_VAL[p / 16][p % 16]
  }

  // ---- every symbol stands at its place ----

  predicate LuminancePlaced(run: nat, n: nat)
    requires run < 16 && n < 10
  {
    var p := AC_LUM_PLACES[run][n];
    p < COUNT && AC_LUM_VAL[p / 16][p % 16] == run * 16 + n + 1
  }

  predicate LuminanceRow(run: nat)
    requires run < 16
  {
    && LuminancePlaced(run, 0) && LuminancePlaced(run, 1) && LuminancePlaced(run, 2) && LuminancePlaced(run, 3)
    && LuminancePlaced(run, 4) && LuminancePlaced(run, 5) && LuminancePlaced(run, 6) && LuminancePlaced(run, 7)
    && LuminancePlaced(run, 8) && LuminancePlaced(run, 9)
  }

  lemma LuminanceFrom0()
    ensures LuminanceRow(0) && LuminanceRow(1)
  {
  }

  lemma LuminanceFrom2()
    ensures LuminanceRow(2) && LuminanceRow(3) && LuminanceRow(4)
  {
  }

  lemma LuminanceFrom5()
    ensures LuminanceRow(5) && LuminanceRow(6) && LuminanceRow(7)
    ensures LuminanceRow(8) && LuminanceRow(9)
  {
  }

  lemma LuminanceFrom10()
    ensures LuminanceRow(10) && LuminanceRow(11) && LuminanceRow(12)
    ensures LuminanceRow(13) && LuminanceRow(14) && LuminanceRow(15)
  {
  }

  lemma LuminanceEnds()
    ensures SymbolAt(Luminance, AC_LUM_PLACES[16][0]) == 0
    ensures SymbolAt(Luminance, AC_LUM_PLACES[16][1]) == 0xF0
  {
  }

  lemma LuminanceRuns(run: nat, n: nat)
    requires run < 16 && n < 10
    ensures LuminancePlaced(run, n)
  {
    hide LuminancePlaced;
    LuminanceFrom0();
    LuminanceFrom2();
    LuminanceFrom5();
    LuminanceFrom10();
    assert run == 0 || run == 1 || run == 2 || run == 3 || run == 4 || run == 5 || run == 6 || run == 7
        || run == 8 || run == 9 || run == 10 || run == 11 || run == 12 || run == 13 || run == 14 || run == 15;
    assert n == 0 || n == 1 || n == 2 || n == 3 || n == 4 || n == 5 || n == 6 || n == 7 || n == 8 || n == 9;
  }

  predicate ChrominancePlaced(run: nat, n: nat)
    requires run < 16 && n < 10
  {
    var p := AC_CHROMA_PLACES[run][n];
    p < COUNT && AC_CHROMA_VAL[p / 16][p % 16] == run * 16 + n + 1
  }

  predicate ChrominanceRow(run: nat)
    requires run < 16
  {
    && ChrominancePlaced(run, 0) && ChrominancePlaced(run, 1) && ChrominancePlaced(run, 2) && ChrominancePlaced(run, 3)
    && ChrominancePlaced(run, 4) && ChrominancePlaced(run, 5) && ChrominancePlaced(run, 6) && ChrominancePlaced(run, 7)
    && ChrominancePlaced(run, 8) && ChrominancePlaced(run, 9)
  }

  lemma ChrominanceFrom0()
    ensures ChrominanceRow(0) && ChrominanceRow(1)
  {
  }

  lemma ChrominanceFrom2()
    ensures ChrominanceRow(2) && ChrominanceRow(3) && ChrominanceRow(4)
  {
  }

  lemma ChrominanceFrom5()
    ensures ChrominanceRow(5) && ChrominanceRow(6) && ChrominanceRow(7)
    ensures ChrominanceRow(8) && ChrominanceRow(9)
  {
  }

  lemma ChrominanceFrom10()
    ensures ChrominanceRow(10) && ChrominanceRow(11) && ChrominanceRow(12)
    ensures ChrominanceRow(13) && ChrominanceRow(14) && ChrominanceRow(15)
  {
  }

  lemma ChrominanceEnds()
    ensures SymbolAt(Chrominance, AC_CHROMA_PLACES[16][0]) == 0
    ensures SymbolAt(Chrominance, AC_CHROMA_PLACES[16][1]) == 0xF0
  {
  }

  lemma ChrominanceRuns(run: nat, n: nat)
    requires run < 16 && n < 10
    ensures ChrominancePlaced(run, n)
  {
    hide ChrominancePlaced;
    ChrominanceFrom0();
    ChrominanceFrom2();
    ChrominanceFrom5();
    ChrominanceFrom10();
    assert run == 0 || run == 1 || run == 2 || run == 3 || run == 4 || run == 5 || run == 6 || run == 7
        || run == 8 || run == 9 || run == 10 || run == 11 || run == 12 || run == 13 || run == 14 || run == 15;
    assert n == 0 || n == 1 || n == 2 || n == 3 || n == 4 || n == 5 || n == 6 || n == 7 || n == 8 || n == 9;
  }

  function Place(c: Component, i: nat): nat
    requires i < COUNT
  {
    match c
    case Luminance => AC_LUM_PLACES[i / 10][i % 10]
    case Chrominance => AC_CHROMA_PLACES[i / 10][i % 10]
  }

  /** The symbol the i-th place is for. */
  function Listed(i: nat): nat {
    if i < 160 then i / 10 * 16 + i % 10 + 1 else if i == 160 then 0 else 0xF0
  }

  lemma AtItsPlace(c: Component, i: nat)
    requires i < COUNT
    ensures Place(c, i) < COUNT && SymbolAt(c, Place(c, i)) == Listed(i)
  {
    hide LuminanceRow, ChrominanceRow;
    if i < 160 {
      LuminanceRuns(i / 10, i % 10);
      ChrominanceRuns(i / 10, i % 10);
    } else {
      LuminanceEnds();
      ChrominanceEnds();
    }
  }

  // ---- so the table holds these symbols and no others, each of them once ----

  /** As many different numbers below n as there are fill them up. */
  lemma {:induction false} Pigeonhole(s: seq<nat>, n: nat, p: nat)
    requires |s| == n && NoDuplicates(s) && (forall i :: 0 <= i < n ==> s[i] < n) && p < n
    ensures p in s
    decreases n
  {
    var last := n - 1;
    if last in s {
      var k :| 0 <= k < n && s[k] == last;
      var r := RemoveIndex(s, k);
      assert forall i :: 0 <= i < last ==> r[i] == s[if i < k then i else i + 1];
      if p < last {
        Pigeonhole(r, last, p);
        assert p in r;
      }
    } else {
      var r := s[..last];
      forall i | 0 <= i < last
        ensures r[i] < last
      {
        assert s[i] in s;
      }
      assert s[last] in s && s[last] < last;
      Pigeonhole(r, last, s[last]);
    }
  }

  lemma PlacesDiffer(c: Component, i: nat, j: nat)
    requires i < COUNT && j < COUNT && Place(c, i) == Place(c, j)
    ensures i == j
  {
    hide Place, SymbolAt;
    AtItsPlace(c, i);
    AtItsPlace(c, j);
  }

  lemma WhoseItIs(c: Component, p: nat) returns (i: nat)
    requires p < COUNT
    ensures i < COUNT && Place(c, i) == p && SymbolAt(c, p) == Listed(i)
  {
    hide Place, SymbolAt, Listed;
    var places := seq(COUNT, i requires 0 <= i < COUNT => Place(c, i));
    forall i | 0 <= i < COUNT
      ensures places[i] < COUNT
    {
      AtItsPlace(c, i);
    }
    forall i, j | 0 <= i < j < COUNT
      ensures places[i] != places[j]
    {
      if Place(c, i) == Place(c, j) {
        PlacesDiffer(c, i, j);
      }
    }
    Pigeonhole(places, COUNT, p);
    i :| 0 <= i < COUNT && places[i] == p;
    AtItsPlace(c, i);
  }

  lemma SymbolIsByte(c: Component, p: nat)
    requires p < COUNT
    ensures SymbolAt(c, p) < 256
  {
    hide SymbolAt, Place;
    var i := WhoseItIs(c, p);
  }

  lemma SymbolsDiffer(c: Component, p: nat, q: nat)
    requires p < COUNT && q < COUNT && SymbolAt(c, p) == SymbolAt(c, q)
    ensures p == q
  {
    hide Place, SymbolAt;
    var i := WhoseItIs(c, p);
    var j := WhoseItIs(c, q);
  }
}
