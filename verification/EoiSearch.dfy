/** The search for the end marker FF D9 in cam_hal.c: forward four bytes at a time, and backward. */
module EoiSearch {

  const INT_MAX := 0x7fff_ffff
  const MARKER_LEN := 2
  const ONE: bv32 := 0x01010101
  const HIGH: bv32 := 0x80808080

  predicate MarkerAt(s: seq<bv8>, i: int) {
    0 <= i && i + 1 < |s| && s[i] == 0xFF && s[i + 1] == 0xD9
  }

  // ---- one word ----

  /** Four bytes as a little-endian word. */
  function Word(a: bv8, b: bv8, c: bv8, d: bv8): bv32 {
    (a as bv32) | ((b as bv32) << 8) | ((c as bv32) << 16) | ((d as bv32) << 24)
  }

  /** The high bit of every byte that may be 0xFF. */
  function Mask(w: bv32): bv32 {
    var x := w ^ 0xFFFFFFFF;
    (!x & (x - ONE)) & HIGH
  }

  /** The byte k of the mask is marked. */
  predicate Candidate(m: bv32, k: nat) {
    if k == 0 then m & 0x80 != 0
    else if k == 1 then m & 0x8000 != 0
    else if k == 2 then m & 0x800000 != 0
    else if k == 3 then m & 0x80000000 != 0
    else false
  }

  /** __builtin_ctz, by halving. */
  function TrailingZeros(m: bv32): (n: nat)
    ensures n < 32
  {
    var m16 := if m & 0xFFFF == 0 then m >> 16 else m;
    var m8 := if m16 & 0xFF == 0 then m16 >> 8 else m16;
    var m4 := if m8 & 0xF == 0 then m8 >> 4 else m8;
    var m2 := if m4 & 0x3 == 0 then m4 >> 2 else m4;
    (if m & 0xFFFF == 0 then 16 else 0) + (if m16 & 0xFF == 0 then 8 else 0) + (if m8 & 0xF == 0 then 4 else 0)
    + (if m4 & 0x3 == 0 then 2 else 0) + (if m2 & 0x1 == 0 then 1 else 0)
  }

  /** No byte 0xFF is missed, wherever a borrow makes a false candidate. */
  lemma NothingMissed(a: bv8, b: bv8, c: bv8, d: bv8)
    ensures var m := Mask(Word(a, b, c, d));
            && m & HIGH == m
            && (a == 0xFF ==> Candidate(m, 0)) && (b == 0xFF ==> Candidate(m, 1))
            && (c == 0xFF ==> Candidate(m, 2)) && (d == 0xFF ==> Candidate(m, 3))
  {
  }

  /** The borrow does make false candidates: behind 0xFF, the byte 0xFE. */
  lemma FalseCandidate()
    ensures Candidate(Mask(Word(0xFF, 0xFE, 0, 0)), 1)
  {
  }

  /** The lowest set bit names the first candidate. */
  lemma FirstCandidate(m: bv32)
    requires m != 0 && m & HIGH == m
    ensures var k := TrailingZeros(m) / 8; k < 4 && Candidate(m, k) && forall j :: 0 <= j < k ==> !Candidate(m, j)
  {
    if m & 0x80 != 0 {
      assert TrailingZeros(m) == 7;
    } else if m & 0x8000 != 0 {
      assert TrailingZeros(m) == 15;
    } else if m & 0x800000 != 0 {
      assert TrailingZeros(m) == 23;
    } else {
      assert TrailingZeros(m) == 31;
    }
  }

  /** m &= m - 1 removes just that one. */
  lemma FirstCleared(m: bv32, k: nat)
    requires m != 0 && m & HIGH == m && k < 4 && Candidate(m, k) && forall j :: 0 <= j < k ==> !Candidate(m, j)
    ensures var after := m & (m - 1);
            && after & HIGH == after && after < m && !Candidate(after, k)
            && (forall j :: 0 <= j < 4 && j != k ==> Candidate(after, j) == Candidate(m, j))
  {
    assert k > 0 ==> !Candidate(m, 0);
    assert k > 1 ==> !Candidate(m, 1);
    assert k > 2 ==> !Candidate(m, 2);
  }

  lemma NoCandidates()
    ensures forall k: nat :: !Candidate(0, k)
  {
  }

  // ---- the searches ----

  /** The candidates of one word; -1 when none of them is a marker. */
  method SearchWord(inbuf: seq<bv8>, i: nat) returns (r: int)
    requires i + 4 <= |inbuf|
    ensures r == -1 ==> forall p :: i <= p < i + 4 ==> !MarkerAt(inbuf, p)
    ensures r != -1 ==> i <= r < i + 4 && MarkerAt(inbuf, r) && forall p :: i <= p < r ==> !MarkerAt(inbuf, p)
  {
    var m := Mask(Word(inbuf[i], inbuf[i + 1], inbuf[i + 2], inbuf[i + 3]));
    NothingMissed(inbuf[i], inbuf[i + 1], inbuf[i + 2], inbuf[i + 3]);
    while m != 0
      invariant m & HIGH == m
      invariant forall p :: i <= p < i + 4 && !Candidate(m, p - i) ==> !MarkerAt(inbuf, p)
      decreases m
    {
      var off := TrailingZeros(m) / 8;
      FirstCandidate(m);
      var pos := i + off;
      if pos + MARKER_LEN <= |inbuf| && inbuf[pos] == 0xFF && inbuf[pos + 1] == 0xD9 {
        forall p | i <= p < pos
          ensures !MarkerAt(inbuf, p)
        {
          assert !Candidate(m, p - i);
        }
        return pos;
      }
      FirstCleared(m, off);
      m := m & (m - 1);
    }
    NoCandidates();
    return -1;
  }

  /** The forward search: the least index of the marker, or -1 when there is none. */
  method SearchForward(inbuf: seq<bv8>) returns (r: int)
    requires |inbuf| <= INT_MAX
    ensures r == -1 ==> forall p :: 0 <= p < |inbuf| ==> !MarkerAt(inbuf, p)
    ensures r != -1 ==> MarkerAt(inbuf, r) && forall p :: 0 <= p < r ==> !MarkerAt(inbuf, p)
  {
    if |inbuf| < MARKER_LEN {
      return -1;
    }
    var i := 0;
    while i + 4 <= |inbuf|
      invariant 0 <= i <= |inbuf|
      invariant forall p :: 0 <= p < i ==> !MarkerAt(inbuf, p)
    {
      r := SearchWord(inbuf, i);
      if r != -1 {
        return;
      }
      i := i + 4;
    }
    while i + MARKER_LEN <= |inbuf|
      invariant 0 <= i <= |inbuf|
      invariant forall p :: 0 <= p < i ==> !MarkerAt(inbuf, p)
    {
      if inbuf[i] == 0xFF && inbuf[i + 1] == 0xD9 {
        return i;
      }
      i := i + 1;
    }
    return -1;
  }

  /** The backward search: the greatest index, or -1 when there is none. */
  method SearchBackward(inbuf: seq<bv8>) returns (r: int)
    requires |inbuf| <= INT_MAX
    ensures r == -1 ==> forall p :: 0 <= p < |inbuf| ==> !MarkerAt(inbuf, p)
    ensures r != -1 ==> MarkerAt(inbuf, r) && forall p :: r < p < |inbuf| ==> !MarkerAt(inbuf, p)
  {
    if |inbuf| < MARKER_LEN {
      return -1;
    }
    var d := |inbuf| - MARKER_LEN;
    while true
      invariant 0 <= d <= |inbuf| - MARKER_LEN
      invariant forall p :: d < p < |inbuf| ==> !MarkerAt(inbuf, p)
      decreases d
    {
      if inbuf[d] == 0xFF && inbuf[d + 1] == 0xD9 {
        return d;
      }
      if d == 0 {
        break;
      }
      d := d - 1;
    }
    return -1;
  }

  /** cam_verify_jpeg_eoi */
  method VerifyJpegEoi(inbuf: seq<bv8>, searchForward: bool) returns (r: int)
    requires |inbuf| <= INT_MAX
    ensures r == -1 || 0 <= r <= |inbuf| - MARKER_LEN
    ensures r == -1 <==> forall p :: 0 <= p < |inbuf| ==> !MarkerAt(inbuf, p)
    ensures r != -1 ==> MarkerAt(inbuf, r)
    ensures r != -1 && searchForward ==> forall p :: 0 <= p < r ==> !MarkerAt(inbuf, p)
    ensures r != -1 && !searchForward ==> forall p :: r < p < |inbuf| ==> !MarkerAt(inbuf, p)
  {
    if searchForward {
      r := SearchForward(inbuf);
    } else {
      r := SearchBackward(inbuf);
    }
  }
}
