// Numeric helpers shared by the decoder and the reconstructor: Java's 32-bit
// `int` arithmetic and the truncating division of `BigInteger.divide`.
module Arith {

  const TWO_31: int := 0x8000_0000
  const TWO_32: int := 0x1_0000_0000

  /** A Java `int`. */
  type Int32 = x: int | -TWO_31 <= x < TWO_31

  function Abs(a: int): nat
  {
    if a < 0 then -a else a
  }

  /** The value a Java `int` expression takes when its mathematical value is
      `v`: two's-complement wrap-around into [-2^31, 2^31). */
  function Wrap32(v: int): (r: Int32)
    ensures (r - v) % TWO_32 == 0
    ensures -TWO_31 <= v < TWO_31 ==> r == v
    ensures 0 < Abs(v) < TWO_32 ==> r != 0
  {
    var m := v % TWO_32;
    assert v == TWO_32 * (v / TWO_32) + m;
    if m < TWO_31 then m else m - TWO_32
  }

  /** Integer division rounding toward zero, as `BigInteger.divide` does
      (Dafny's own `/` is Euclidean). */
  function TruncDiv(a: int, b: int): (q: int)
    requires b != 0
    // the quotient is zero or has the sign of the exact quotient
    ensures q == 0 || (q > 0) == ((a > 0) == (b > 0))
    ensures a == 0 ==> q == 0
  {
    var n := Abs(a) / Abs(b);
    TruncDivFacts(a, b, n);
    if (a >= 0) == (b > 0) then n else -n
  }

  /** What makes TruncDiv the quotient rounded toward zero. */
  lemma TruncDivSpec(a: int, b: int)
    requires b != 0
    // the remainder is smaller than the divisor ...
    ensures Abs(a - TruncDiv(a, b) * b) < Abs(b)
    // ... and is zero or carries the sign of the dividend
    ensures var r := a - TruncDiv(a, b) * b; r == 0 || (r > 0) == (a > 0)
    // the quotient is never larger in magnitude than the exact one
    ensures Abs(TruncDiv(a, b) * b) <= Abs(a)
    // for a non-negative dividend and a positive divisor it is Dafny's `/`
    ensures a >= 0 && b > 0 ==> TruncDiv(a, b) == a / b
  {
    TruncDivFacts(a, b, Abs(a) / Abs(b));
  }

  lemma TruncDivFacts(a: int, b: int, n: int)
    requires b != 0 && n == Abs(a) / Abs(b)
    ensures 0 <= Abs(a) - n * Abs(b) < Abs(b)
    ensures n >= 0
  {
    var m := Abs(b);
    assert Abs(a) == m * n + Abs(a) % m;
  }

  /** When the divisor divides the dividend, truncating division is exact. */
  lemma TruncDivExact(a: int, b: int, k: int)
    requires b != 0 && a == k * b
    ensures TruncDiv(a, b) == k
  {
    var q := TruncDiv(a, b);
    TruncDivSpec(a, b);
    assert a - q * b == (k - q) * b;
    MultipleBelow(k - q, b, a - q * b);
  }

  /** A multiple of b smaller than b in magnitude is zero times b. */
  lemma MultipleBelow(t: int, b: int, r: int)
    requires r == t * b && Abs(r) < Abs(b)
    ensures t == 0
  {
    if t != 0 {
      NonZeroMultiple(t, b);
    }
  }

  /** When `%` finds no remainder, `/` is exact. */
  lemma ExactQuotient(a: int, d: int)
    requires d != 0 && a % d == 0
    ensures a == (a / d) * d
  {
  }

  /** A non-zero multiple of b is at least as large as b in magnitude. */
  lemma NonZeroMultiple(t: int, b: int)
    requires t != 0
    ensures Abs(t * b) >= Abs(b)
  {
    var u, v := Abs(t), Abs(b);
    assert Abs(t * b) == u * v by {
      if t < 0 && b < 0 {
        assert t * b == (-t) * (-b);
      } else if t < 0 {
        assert t * b == -((-t) * b);
      } else if b < 0 {
        assert t * b == -(t * (-b));
      }
    }
    assert u * v == (u - 1) * v + v;
  }

  /** Division is determined by quotient and remainder: if n == b * q + r
      with 0 <= r < b, then q and r are what `/` and `%` give. */
  lemma DivModUnique(n: int, b: int, q: int, r: int)
    requires b > 0 && 0 <= r < b && n == b * q + r
    ensures n / b == q && n % b == r
  {
    var q', r' := n / b, n % b;
    assert b * (q - q') == r' - r;
    if q - q' >= 1 {
      assert false;
    } else if q - q' <= -1 {
      assert false;
    }
  }
}
