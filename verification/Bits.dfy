/** Numbers as strings of bits, most significant bit first. */
module BitStrings {

  function Pow2(n: nat): (r: nat)
    ensures r > 0
  {
    if n == 0 then 1 else 2 * Pow2(n - 1)
  }

  /** The n low bits of x. */
  function Bits(x: nat, n: nat): (r: seq<bool>)
    ensures |r| == n
  {
    if n == 0 then [] else Bits(x / 2, n - 1) + [x % 2 == 1]
  }

  function Value(bits: seq<bool>): nat {
    if bits == [] then 0
    else 2 * Value(bits[..|bits| - 1]) + if bits[|bits| - 1] then 1 else 0
  }

  lemma {:induction false} PowAdd(a: nat, b: nat)
    ensures Pow2(a + b) == Pow2(a) * Pow2(b)
  {
    if a > 0 {
      PowAdd(a - 1, b);
      assert Pow2(a) * Pow2(b) == 2 * (Pow2(a - 1) * Pow2(b));
    }
  }

  lemma PowSplit(a: nat, b: nat)
    requires a <= b
    ensures Pow2(b) == Pow2(b - a) * Pow2(a)
  {
    PowAdd(b - a, a);
  }

  lemma {:induction false} PowMonotone(a: nat, b: nat)
    requires a <= b
    ensures Pow2(a) <= Pow2(b)
  {
    if a < b {
      PowMonotone(a, b - 1);
    }
  }

  /** Reading back n written bits. */
  lemma {:induction false} ValueOfBits(x: nat, n: nat)
    requires x < Pow2(n)
    ensures Value(Bits(x, n)) == x
  {
    if n > 0 {
      ValueOfBits(x / 2, n - 1);
      assert Bits(x, n)[..n - 1] == Bits(x / 2, n - 1);
    }
  }

  lemma {:induction false} BitsOfValue(bits: seq<bool>)
    ensures Value(bits) < Pow2(|bits|)
    ensures Bits(Value(bits), |bits|) == bits
  {
    if bits != [] {
      BitsOfValue(bits[..|bits| - 1]);
      assert bits == bits[..|bits| - 1] + [bits[|bits| - 1]];
    }
  }

  /** A string of bits, cut in two. */
  lemma {:induction false} ValueSplit(bits: seq<bool>, m: nat)
    requires m <= |bits|
    ensures Value(bits) == Value(bits[..m]) * Pow2(|bits| - m) + Value(bits[m..])
    ensures Value(bits[m..]) < Pow2(|bits| - m)
  {
    BitsOfValue(bits[m..]);
    if m == |bits| {
      assert bits[..m] == bits;
    } else {
      var front := bits[..|bits| - 1];
      ValueSplit(front, m);
      assert front[..m] == bits[..m] && front[m..] == bits[m..][..|bits| - m - 1];
      MulAssoc(Value(bits[..m]), Pow2(|bits| - m - 1), 2);
    }
  }

  lemma MulAssoc(a: int, b: int, c: int)
    ensures a * b * c == a * (b * c) == a * (c * b)
  {
  }

  lemma Distribute(a: int, b: int, c: int)
    ensures (a + b) * c == a * c + b * c
  {
  }

  lemma {:induction false} ScaleLess(a: int, b: int, unit: nat)
    requires unit > 0
    ensures a * unit < b * unit <==> a < b
    ensures a * unit == b * unit <==> a == b
  {
    Distribute(a, b - a, unit);
    Multiple(b - a, unit);
  }

  /** A number below another: their bits in a row. */
  lemma {:induction false} BitsConcat(x: nat, n: nat, y: nat, m: nat)
    requires y < Pow2(m)
    ensures Bits(x * Pow2(m) + y, n + m) == Bits(x, n) + Bits(y, m)
  {
    if m == 0 {
      assert Bits(x, n) + [] == Bits(x, n);
    } else {
      var whole := x * Pow2(m) + y;
      assert whole == 2 * (x * Pow2(m - 1)) + y;
      assert whole / 2 == x * Pow2(m - 1) + y / 2 && whole % 2 == y % 2;
      BitsConcat(x, n, y / 2, m - 1);
      assert Bits(x, n) + Bits(y / 2, m - 1) + [y % 2 == 1] == Bits(x, n) + (Bits(y / 2, m - 1) + [y % 2 == 1]);
    }
  }

  /** Only the low bits count. */
  lemma {:induction false} BitsModulo(x: nat, n: nat)
    ensures Bits(x, n) == Bits(x % Pow2(n), n)
  {
    hide Pow2, Bits;
    Quotient(x, Pow2(n));
    var y, q := x % Pow2(n), x / Pow2(n);
    BitsConcat(q, 0, y, n);
    NoBits(q);
    assert [] + Bits(y, n) == Bits(y, n);
  }

  lemma NoBits(x: nat)
    ensures Bits(x, 0) == []
  {
  }

  lemma Quotient(x: nat, d: nat)
    requires d > 0
    ensures x == x / d * d + x % d && x % d < d && x / d >= 0
  {
  }

  // ---- machine words ----

  const WORD := 0x1_0000_0000

  /** The | of C. */
  function Or(a: nat, b: nat): nat {
    if a == 0 && b == 0 then 0
    else 2 * Or(a / 2, b / 2) + if a % 2 == 1 || b % 2 == 1 then 1 else 0
  }

  /** Where the bits do not overlap, | adds. */
  lemma {:induction false} OrAdds(a: nat, b: nat, k: nat)
    requires a % Pow2(k) == 0 && b < Pow2(k)
    ensures Or(a, b) == a + b
  {
    if k == 0 {
      OrZero(a);
    } else {
      HalfDivides(a, k);
      OrAdds(a / 2, b / 2, k - 1);
    }
  }

  lemma {:induction false} OrZero(a: nat)
    ensures Or(a, 0) == a
  {
    if a > 0 {
      OrZero(a / 2);
    }
  }

  lemma HalfDivides(a: nat, k: nat)
    requires k > 0 && a % Pow2(k) == 0
    ensures a % 2 == 0 && (a / 2) % Pow2(k - 1) == 0
  {
    Quotient(a, Pow2(k));
    var q, half := a / Pow2(k), Pow2(k - 1);
    assert Pow2(k) == 2 * half;
    hide Pow2;
    MulAssoc(q, half, 2);
    ModOfMultiple(q, half);
  }

  lemma ModOfMultiple(q: nat, d: nat)
    requires d > 0
    ensures (q * d) % d == 0 && (q * d) / d == q
  {
    DivideUnique(q * d, d, q, 0);
  }

  lemma DivideUnique(x: int, d: nat, q: int, r: nat)
    requires d > 0 && r < d && x == q * d + r
    ensures x / d == q && x % d == r
  {
    Distribute(x / d, -q, d);
    NegateLeft(q, d);
    Multiple(x / d - q, d);
  }

  lemma NegateLeft(q: int, d: int)
    ensures -q * d == -(q * d)
  {
  }

  lemma Multiple(e: int, d: int)
    requires d > 0
    ensures e >= 1 ==> e * d >= d
    ensures e <= -1 ==> e * d <= -d
  {
    if e >= 1 {
      assert e * d == d + (e - 1) * d;
    } else if e <= -1 {
      assert e * d == -d - (-e - 1) * d;
    }
  }
}
