# Shamir secret reconstruction, modelled in Dafny

The program reads shares of a secret, one `(x, y)` point per share. It decodes
each `y` from a numeral given in some base. It then rebuilds the secret as
the value at `x = 0` of the polynomial through the points, using Lagrange
interpolation. This project models the two computing routines of
`ShamirSecretSharing.java` and proves what they compute.

- **`decodeBase`** (module `DigitDecoder`, file `decoder.dfy`) takes an
  integer that is already parsed. It takes off its base-`base` digits with
  `mod base` and `divide base`, but weighs them with powers of ten. So the
  result is the base-`base` digit string read as a decimal numeral
  (`Decimal`), not a change of base. `DecodeBase` is the loop, proved equal
  to `Decimal`. Then:
  - for base ten the result is the value itself;
  - for bases 2 to 10 the result reads back, in base `base`, as the value,
    so decoding is injective;
  - above base ten two different values give the same result;
  - `decodeBase(111, 2)` is 1101111.
  - A value that is not positive gives 0 whatever the base.
  - A positive value with a base ≤ 0 makes `BigInteger.mod` throw. With base
    1 the loop never ends. Both are modelled as `Failed` outcomes.
- **`findSecret`** (module `SecretReconstructor`, file `reconstructor.dfy`)
  sums `y_i * L_i` over the shares. `L_i` starts at 1. It is multiplied by
  `0 - x_j` and then divided by `x_i - x_j` for every other key, one key at a
  time, with `BigInteger.divide`, which truncates toward zero (`Arith.TruncDiv`).
  - The keys are Java `int`s, so `0 - x_j` and `x_i - x_j` wrap at 32 bits
    (`Arith.Wrap32`).
  - The map is a sequence of shares, in the order the map's iteration
    visits them.
  - The functions `Step`, `Basis`, `Accumulated` and `Secret` define the
    result.
  - `FindSecret` is the outer loop. `BasisAt` is the inner loop, lines
    91-99. Each is proved equal to its function.
  - Lemmas prove:
    - the result of zero, one and two shares;
    - a line's intercept;
    - linearity in the `y` values (scaling, sums, all zeros);
    - that the divisor is never zero;
    - that the result depends on the order of the shares.
- **Exact interpolation** (module `ExactInterpolation`, file `exact.dfy`)
  is the reference the truncating loop is compared to.
  - `L_i(0)` is the quotient of two integer products, `Numerator` over
    `Denominator`. `ExactSecret` is the rational sum it gives.
  - Call the shares *clean* when every division step of the loop divides
    evenly.
  - On clean shares with non-negative keys, `Secret` equals `ExactSecret`,
    and any two clean orders of the same shares give the same secret.
  - The shares `{1: 4, 2: 7, 3: 12}` have exact secret 3. In ascending order
    they are not clean, and the loop gives -9. In the order 2, 1, 3 they are
    clean, and the loop gives 3.
- Module `Folds` (file `folds.dfy`) holds products and sums over sequences
  and their invariance under permutation. Module `Arith` (file `arith.dfy`)
  holds the 32-bit and truncating-division helpers.

Where the code's result differs from exact interpolation, the model follows
the code:

- The shares `{1: 4, 2: 7, 3: 12}` lie on `y = x² + 3`, so exact Lagrange
  interpolation at 0 gives 3 (`ExactVersusTruncated`). The code truncates
  at each step, and in ascending key order it returns -9
  (`SecretAscendingExample`). It returns 3 only in an order where every
  division is exact (`SecretReorderedExample`).
- The code never divides by zero:
  - a `Map` cannot hold two equal keys;
  - the guard `xi != xj` at line 94 skips the share's own key, and would
    skip a repeated key too;
  - the 32-bit difference of two distinct `int`s is never zero
    (`NoDivisionByZero`).
  So `FindSecret` has no precondition.
- The keys are Java `int`s, so `0 - xj` and `xi - xj` are computed modulo
  2^32 (`Wrap32`). `StepWithoutWrap` shows that for non-negative keys the
  wrap-around never changes a step.

## Model

| member | source | states |
|---|---|---|
| Arith.Wrap32 | ShamirSecretSharing.java:95-96 | the `int` value of `0 - xj` and `xi - xj` is congruent to the exact one mod 2^32, equal to it when it fits in 32 bits, and non-zero when the exact difference is non-zero and below 2^32 in magnitude |
| Arith.TruncDiv | ShamirSecretSharing.java:97 | `BigInteger.divide`: the quotient is zero or has the sign of the exact quotient, and a zero dividend gives zero |
| Arith.TruncDivSpec | ShamirSecretSharing.java:97 | `BigInteger.divide` is truncating division: the remainder is smaller than the divisor and is zero or has the dividend's sign, the quotient never exceeds the exact one in magnitude, and for non-negative operands it is ordinary division |
| Arith.TruncDivExact | ShamirSecretSharing.java:97 | when the divisor divides the dividend, `divide` returns the exact quotient |
| DigitDecoder.Digits | ShamirSecretSharing.java:73-76 | the digits the loop takes off lie in [0, base), there are none exactly when the value is not positive, and the last one is not zero |
| DigitDecoder.DivideStep | ShamirSecretSharing.java:74-76 | one turn: `value == base * (value / base) + value mod base`, the digit is in [0, base), and the value strictly decreases while staying non-negative, so the loop ends for base ≥ 2 |
| DigitDecoder.DecodeBase | ShamirSecretSharing.java:69-81 | returns 0 for a value ≤ 0, fails with ModulusNotPositive for a positive value and base ≤ 0, with NoProgress for base 1, and otherwise returns the base-`base` digits read as a decimal numeral |
| DigitDecoder.DecimalStep | ShamirSecretSharing.java:74-77 | one turn of the loop adds the last digit and shifts the decoding of the rest by one decimal place |
| DigitDecoder.DigitsRoundTrip | ShamirSecretSharing.java:74-76 | reading the digits back in their own base gives the value again |
| DigitDecoder.DecimalOfBaseTen | ShamirSecretSharing.java:69-81 | with base 10 the decoder returns its argument unchanged |
| DigitDecoder.DecimalDigits | ShamirSecretSharing.java:74-77 | for bases 2 to 10, the decimal digits of the result are exactly the base-`base` digits of the value |
| DigitDecoder.DecimalReadBack | ShamirSecretSharing.java:69-81 | for bases 2 to 10, reading the result as a base-`base` numeral gives the value back |
| DigitDecoder.DecimalInjective | ShamirSecretSharing.java:69-81 | for bases 2 to 10, distinct non-negative values decode to distinct results |
| DigitDecoder.DecimalCollidesAboveTen | ShamirSecretSharing.java:74-77 | above base 10 the decoder is not injective: the values 10 and `base` both decode to 10 |
| DigitDecoder.DecimalOf111Base2 | ShamirSecretSharing.java:69-81 | the decoder maps 111 in base 2 to 1101111 |
| SecretReconstructor.Keys | ShamirSecretSharing.java:87 | the keys, in the order the shares are visited |
| SecretReconstructor.Step | ShamirSecretSharing.java:94-97 | one turn of the inner loop: the share's own key leaves `li` unchanged, and an `li` of zero stays zero through the step, which is how one truncation to zero wipes out a share's term |
| SecretReconstructor.NoDivisionByZero | ShamirSecretSharing.java:94-96 | under the guard `xi != xj`, the 32-bit denominator `xi - xj` is never zero |
| SecretReconstructor.FindSecret | ShamirSecretSharing.java:84-105 | the loop returns `Secret(shares)`: the sum of `y_i * L_i` over the shares in visiting order |
| SecretReconstructor.BasisAt | ShamirSecretSharing.java:91-99 | the inner loop returns `Basis(xi, keys)`: 1 multiplied by `0 - xj` and truncated-divided by `xi - xj` for each other key in order |
| SecretReconstructor.StepWithoutWrap | ShamirSecretSharing.java:95-97 | for non-negative keys the 32-bit wrap-around never matters: a step is `li * -xj` truncated-divided by `xi - xj` |
| SecretReconstructor.BasisSnoc | ShamirSecretSharing.java:92-99 | visiting one more key applies one more step to the basis value |
| SecretReconstructor.AccumulatedSnoc | ShamirSecretSharing.java:86-103 | visiting one more share adds `y * L` to the running secret |
| SecretReconstructor.SecretOfNoShares | ShamirSecretSharing.java:85 | no shares give the secret 0 |
| SecretReconstructor.SecretOfOneShare | ShamirSecretSharing.java:84-105 | a single share `(x, y)` gives `y`, whatever `x` is |
| SecretReconstructor.SecretOfTwoShares | ShamirSecretSharing.java:84-105 | the shares `{1: a, 2: b}` give `2a - b` in either order |
| SecretReconstructor.TwoShares | ShamirSecretSharing.java:84-105 | two shares with non-negative distinct keys give `y0 * L0 + y1 * L1`, each `L` a single truncating division |
| SecretReconstructor.SecretOfLine | ShamirSecretSharing.java:84-105 | two points of the line `m x + c` give `c` when `x0 - x1` divides `x1` |
| SecretReconstructor.AccumulatedScales | ShamirSecretSharing.java:102 | scaling every `y` by `c` scales the running sum by `c` |
| SecretReconstructor.SecretScales | ShamirSecretSharing.java:84-105 | scaling every `y` by `c` scales the secret by `c` |
| SecretReconstructor.SecretOfZeros | ShamirSecretSharing.java:84-105 | shares whose `y` are all zero give the secret 0 |
| SecretReconstructor.AccumulatedAdds | ShamirSecretSharing.java:102 | the running sum is additive in the `y` values |
| SecretReconstructor.SecretAdds | ShamirSecretSharing.java:84-105 | the secret of share-wise summed `y` values is the sum of the secrets |
| SecretReconstructor.ThreeKeyBasis | ShamirSecretSharing.java:91-99 | over three keys the basis value is three steps applied in order |
| SecretReconstructor.ThreeShares | ShamirSecretSharing.java:84-105 | three shares give `y0 L0 + y1 L1 + y2 L2` |
| SecretReconstructor.SecretAscendingExample | ShamirSecretSharing.java:92-97 | `{1: 4, 2: 7, 3: 12}` visited in ascending order gives -9, because `-1/2` truncates to 0 |
| SecretReconstructor.SecretReorderedExample | ShamirSecretSharing.java:84-105 | the same shares visited in the order 2, 1, 3 give 3, so the result depends on the iteration order |
| ExactInterpolation.DenominatorFactor | ShamirSecretSharing.java:96 | the exact factor `xi - xj` of the denominator is never zero for distinct keys |
| ExactInterpolation.DenominatorNonZero | ShamirSecretSharing.java:94-96 | the exact denominator of `L_i(0)` is never zero |
| ExactInterpolation.ExactStep | ShamirSecretSharing.java:94-97 | when a division step divides evenly, the step times `xi - xj` is `li * (0 - xj)` |
| ExactInterpolation.BasisExact | ShamirSecretSharing.java:91-99 | on clean keys the truncating basis value times the exact denominator is the exact numerator |
| ExactInterpolation.FractionPermutation | ShamirSecretSharing.java:92 | the exact numerator and denominator do not depend on the order of the keys |
| ExactInterpolation.CleanBasesAgree | ShamirSecretSharing.java:91-99 | two clean orders of the same keys give the same basis value |
| ExactInterpolation.AccumulatedSum | ShamirSecretSharing.java:86-103 | the running secret is the sum of the terms `y * L` over the visited shares |
| ExactInterpolation.AccumulatedPermutation | ShamirSecretSharing.java:86-103 | for fixed basis values, the order in which the outer loop visits the shares does not change the sum |
| ExactInterpolation.AccumulatedOver | ShamirSecretSharing.java:86-103 | two key orders that give every visited share the same basis value give the same running sum |
| ExactInterpolation.CleanOrdersAgree | ShamirSecretSharing.java:84-105 | two clean orders of the same shares with non-negative keys give the same secret |
| ExactInterpolation.BasisExactReal | ShamirSecretSharing.java:91-99 | on clean keys the truncating basis value is exactly Lagrange's `L_i(0)` |
| ExactInterpolation.SecretExact | ShamirSecretSharing.java:84-105 | on clean shares with non-negative keys the result is the exact Lagrange value at 0 |
| ExactInterpolation.ExactVersusTruncated | ShamirSecretSharing.java:84-105 | for `{1: 4, 2: 7, 3: 12}` the exact value at 0 is 3 while the loop, in ascending order, gives -9 |
| ExactInterpolation.AscendingNotClean | ShamirSecretSharing.java:95-97 | those shares in ascending order are not clean: a division step truncates |
| ExactInterpolation.ReorderedClean | ShamirSecretSharing.java:92-97 | in the order 2, 1, 3 every division step divides evenly |

## Left out

- `main` (lines 6-18) is console output and file names. It is not part of this model.
- `readJSONFile` (lines 21-66) is file input and line parsing. It is not part of this model. That includes the unused `n` and `k`, the `Integer.parseInt` of the key, and any check of the digits of a numeral against its base. `decodeBase` receives a value that is already parsed and checks no digits.
- The iteration order of a `HashMap` is unspecified. The model takes the shares as a sequence in the order they are visited, and the order-dependence lemmas range over all orders.
- `BigInteger`'s `ArithmeticException` is modelled as a `Failed` outcome. `DecodeBase` detects a base ≤ 0 and a base of 1 up front. The source throws on the first `mod` for a base ≤ 0 and never terminates for base 1, which a terminating model cannot show.
- SecretOfLine: holds only when `x0 - x1` divides `x1`, because otherwise a truncated step loses the line's intercept.
- CleanOrdersAgree: holds only on clean orders with non-negative keys. Orders that truncate differ, as SecretAscendingExample and SecretReorderedExample show.
- SecretExact: holds only on clean shares with non-negative keys. Elsewhere the truncating result is not the exact value.
