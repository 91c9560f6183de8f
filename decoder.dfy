// The digit decoder: `decodeBase` takes an already parsed integer and
// rewrites its base-`base` digits as a decimal numeral. It extracts digits
// with `mod base` and `/ base` but weighs them with powers of ten, so the
// result is not the value of a base-`base` numeral; only for base ten is it
// the value itself.
module DigitDecoder {

  import opened Arith

  /** Why `decodeBase` yields no value. */
  datatype DecodeError =
    | ModulusNotPositive  // BigInteger.mod throws ArithmeticException for a modulus <= 0
    | NoProgress          // base 1: `value / 1 == value`, the loop never ends

  datatype Outcome = Decoded(value: nat) | Failed(error: DecodeError)

  /** The base-`base` digits of `value`, least significant first; none when
      `value` is not positive. */
  function Digits(value: int, base: int): (ds: seq<int>)
    requires base >= 2
    ensures forall k :: 0 <= k < |ds| ==> 0 <= ds[k] < base
    ensures (ds == []) == (value <= 0)
    ensures ds != [] ==> ds[|ds| - 1] != 0  // no leading zero
    decreases value
  {
    if value <= 0 then []
    else
      DivideStep(value, base);
      [value % base] + Digits(value / base, base)
  }

  /** One step of the loop: the digit is in range and the value shrinks. */
  lemma DivideStep(v: int, b: int)
    requires v > 0 && b >= 2
    ensures v == b * (v / b) + v % b
    ensures 0 <= v % b < b
    ensures 0 <= v / b < v
    ensures v / b == 0 ==> v % b == v
  {
    var q := v / b;
    assert v == b * q + v % b;
    if q < 0 {
      assert false;
    }
    if q >= v {
      assert false;
    }
  }

  /** The numeral whose digits are `ds` (least significant first), each
      digit weighing `weight` times the one before it. */
  function FromDigits(ds: seq<int>, weight: nat): (r: int)
    ensures (forall k :: 0 <= k < |ds| ==> ds[k] >= 0) ==> r >= 0
  {
    if ds == [] then 0 else ds[0] + weight * FromDigits(ds[1..], weight)
  }

  /** What `decodeBase(value, base)` returns for a positive `value` and
      `base >= 2`: the base-`base` digits of `value` read as a decimal numeral. */
  function Decimal(value: int, base: int): nat
    requires base >= 2
  {
    FromDigits(Digits(value, base), 10)
  }

  /** ShamirSecretSharing.decodeBase: accumulates `digit * power` with
      `power` running through 1, 10, 100, ... while `value` is divided by
      `base`. */
  method DecodeBase(value: int, base: int) returns (r: Outcome)
    ensures value <= 0 ==> r == Decoded(0)
    ensures value > 0 && base <= 0 ==> r == Failed(ModulusNotPositive)
    ensures value > 0 && base == 1 ==> r == Failed(NoProgress)
    ensures value > 0 && base >= 2 ==> r == Decoded(Decimal(value, base))
  {
    if value > 0 && base <= 0 {
      return Failed(ModulusNotPositive);
    }
    if value > 0 && base == 1 {
      return Failed(NoProgress);
    }
    var result, power, v := 0, 1, value;
    while v > 0
      invariant value <= 0 ==> v == value && result == 0
      invariant value > 0 ==> base >= 2 && v >= 0 && power >= 1 && result >= 0
      invariant value > 0 ==> result + power * Decimal(v, base) == Decimal(value, base)
      decreases v
    {
      DecimalStep(v, base);
      var digit := v % base;
      ghost var rest := Decimal(v / base, base);
      PowerShift(power, digit, rest);
      assert digit * power >= 0;
      result := result + digit * power;
      v := v / base;
      power := power * 10;
    }
    return Decoded(result);
  }

  /** One turn of the loop in terms of the specification: the last digit
      plus ten times the decoding of the rest. */
  lemma DecimalStep(v: int, base: int)
    requires v > 0 && base >= 2
    ensures 0 <= v / base < v && 0 <= v % base < base
    ensures Decimal(v, base) == v % base + 10 * Decimal(v / base, base)
  {
    DivideStep(v, base);
    assert Digits(v, base)[1..] == Digits(v / base, base);
  }

  lemma PowerShift(power: int, digit: int, rest: int)
    ensures power * (digit + 10 * rest) == digit * power + (power * 10) * rest
  {
    calc {
      power * (digit + 10 * rest);
      power * digit + power * (10 * rest);
      { assert power * (10 * rest) == (power * 10) * rest; }
      digit * power + (power * 10) * rest;
    }
  }

  /** Reading the digits back in their own base gives the value. */
  lemma {:induction false} DigitsRoundTrip(value: int, base: int)
    requires value >= 0 && base >= 2
    ensures FromDigits(Digits(value, base), base) == value
    decreases value
  {
    if value > 0 {
      DivideStep(value, base);
      DigitsRoundTrip(value / base, base);
      var ds := Digits(value, base);
      assert ds[1..] == Digits(value / base, base);
    }
  }

  /** With base ten, `decodeBase` returns its argument unchanged. */
  lemma DecimalOfBaseTen(value: int)
    requires value >= 0
    ensures Decimal(value, 10) == value
  {
    DigitsRoundTrip(value, 10);
  }

  /** For a base of at most ten, the decimal digits of the result are
      exactly the base-`base` digits of `value`. */
  lemma {:induction false} DecimalDigits(value: int, base: int)
    requires value >= 0 && 2 <= base <= 10
    ensures Digits(Decimal(value, base), 10) == Digits(value, base)
    decreases value
  {
    if value > 0 {
      var q := value / base;
      DivideStep(value, base);
      DecimalDigits(q, base);
      var rest := Decimal(q, base);
      DigitsPrepend(value, base, rest);
      DecimalStep(value, base);
    }
  }

  /** The inductive step of DecimalDigits: when `rest` has the decimal
      digits that `value / base` has in base `base`, putting the last digit
      of `value` in front of `rest` gives the digits of `value`. */
  lemma DigitsPrepend(value: int, base: int, rest: int)
    requires value > 0 && 2 <= base <= 10 && rest >= 0
    requires Digits(rest, 10) == Digits(value / base, base)
    ensures Digits(value % base + 10 * rest, 10) == Digits(value, base)
  {
    var d := value % base;
    assert 0 <= d < base;
    if d == 0 {
      QuotientPositive(value, base);
      assert rest > 0;
    }
    PrependDigit(d + 10 * rest, d, rest);
    DigitsCons(value, base);
  }

  /** A positive multiple of the base has a positive quotient. */
  lemma QuotientPositive(v: int, b: int)
    requires v > 0 && b >= 2 && v % b == 0
    ensures v / b > 0
  {
    DivideStep(v, b);
  }

  /** The digits of a positive value: its last digit, then those of the rest. */
  lemma DigitsCons(v: int, b: int)
    requires v > 0 && b >= 2
    ensures Digits(v, b) == [v % b] + Digits(v / b, b)
  {
  }

  /** A decimal digit put in front of a numeral. */
  lemma PrependDigit(n: int, d: int, rest: int)
    requires 0 <= d < 10 && n == d + 10 * rest && n > 0
    ensures Digits(n, 10) == [d] + Digits(rest, 10)
  {
    assert rest >= 0;
    DivModUnique(n, 10, rest, d);
    DigitsCons(n, 10);
  }

  /** Reading the result of `decodeBase` back as a base-`base` numeral
      recovers `value` when the base is at most ten. */
  lemma DecimalReadBack(value: int, base: int)
    requires value >= 0 && 2 <= base <= 10
    ensures FromDigits(Digits(Decimal(value, base), 10), base) == value
  {
    DecimalDigits(value, base);
    DigitsRoundTrip(value, base);
  }

  /** So for a base of at most ten, distinct values decode to distinct results. */
  lemma DecimalInjective(v1: int, v2: int, base: int)
    requires v1 >= 0 && v2 >= 0 && 2 <= base <= 10
    requires Decimal(v1, base) == Decimal(v2, base)
    ensures v1 == v2
  {
    DecimalReadBack(v1, base);
    DecimalReadBack(v2, base);
  }

  /** Above ten a digit no longer fits one decimal place: the single digit
      ten and the two digits "10" both come out as 10. */
  lemma DecimalCollidesAboveTen(base: int)
    requires base > 10
    ensures Decimal(10, base) == Decimal(base, base) == 10
  {
    DivModUnique(10, base, 0, 10);
    DivModUnique(base, base, 1, 0);
    DivModUnique(1, base, 0, 1);
    assert Digits(10, base) == [10];
    assert Digits(base, base) == [0, 1];
    assert FromDigits([1], 10) == 1;
    assert [0, 1][1..] == [1];
  }

  /** `decodeBase(111, 2)`: 111 is 1101111 in binary. */
  lemma DecimalOf111Base2()
    ensures Decimal(111, 2) == 1101111
  {
    assert Digits(111, 2) == [1, 1, 1, 1, 0, 1, 1];
  }
}
