// What the reconstructor approximates: Lagrange interpolation at x = 0,
// where L_i(0) is the fraction Numerator / Denominator of two products over
// the other keys. The truncating computation hits that fraction exactly
// whenever every step of the inner loop divides evenly, and then the order
// in which the map is iterated does not matter.
module ExactInterpolation {

  import opened Arith
  import opened Folds
  import opened SecretReconstructor

  /** The numerator factor 0 - xj of L_i(0); the share's own key contributes 1. */
  function NumeratorFactor(xi: int, xj: int): int
  {
    if xi == xj then 1 else 0 - xj
  }

  /** The denominator factor xi - xj of L_i(0); never zero. */
  function DenominatorFactor(xi: int, xj: int): (d: int)
    ensures d != 0
  {
    if xi == xj then 1 else xi - xj
  }

  function NumeratorOf(xi: int): Share -> int
  {
    (s: Share) => NumeratorFactor(xi, s.x)
  }

  function DenominatorOf(xi: int): Share -> int
  {
    (s: Share) => DenominatorFactor(xi, s.x)
  }

  /** The product of 0 - xj over the keys of `others`. */
  function Numerator(xi: int, others: seq<Share>): int
  {
    Product(Apply(others, NumeratorOf(xi)))
  }

  /** The product of xi - xj over the keys of `others`. */
  function Denominator(xi: int, others: seq<Share>): int
  {
    Product(Apply(others, DenominatorOf(xi)))
  }

  /** The step of the inner loop from `li` at key `xj` loses nothing. */
  predicate StepDivides(li: int, xi: Int32, xj: Int32)
  {
    xi != xj ==> (li * (0 - xj as int)) % (xi as int - xj) == 0
  }

  /** Every step of the inner loop computing L for key `xi` divides evenly. */
  predicate CleanBasis(xi: Int32, xs: seq<Int32>)
  {
    forall k :: 0 <= k < |xs| ==> StepDivides(Basis(xi, xs[..k]), xi, xs[k])
  }

  /** No step of `findSecret` on these shares truncates. */
  predicate Clean(shares: seq<Share>)
  {
    forall i :: 0 <= i < |shares| ==> CleanBasis(shares[i].x, Keys(shares))
  }

  /** L_i(0) is a well-defined fraction: its denominator is never zero. */
  lemma DenominatorNonZero(xi: int, others: seq<Share>)
    ensures Denominator(xi, others) != 0
  {
    ProductNonZero(Apply(others, DenominatorOf(xi)));
  }

  /** A step that divides evenly multiplies by the numerator factor and
      divides by the denominator factor without loss. */
  lemma ExactStep(li: int, xi: Int32, xj: Int32)
    requires xi >= 0 && xj >= 0 && StepDivides(li, xi, xj)
    ensures Step(li, xi, xj) * DenominatorFactor(xi, xj) == li * NumeratorFactor(xi, xj)
  {
    if xi != xj {
      var n, d := 0 - xj as int, xi as int - xj;
      var a := li * n;
      StepWithoutWrap(li, xi, xj);
      ExactQuotient(a, d);
      TruncDivExact(a, d, a / d);
    }
  }

  /** Where every step divides evenly, L_i as computed is L_i(0) exactly:
      it times the denominator is the numerator. */
  lemma {:induction false} BasisExact(xi: Int32, others: seq<Share>)
    requires xi >= 0 && NonNegativeKeys(Keys(others))
    requires CleanBasis(xi, Keys(others))
    ensures Basis(xi, Keys(others)) * Denominator(xi, others) == Numerator(xi, others)
    decreases |others|
  {
    if others != [] {
      var n := |others| - 1;
      CleanPrefix(xi, others);
      BasisExact(xi, others[..n]);
      BasisExactStep(xi, others);
    }
  }

  /** A clean basis is clean on every prefix, and its last step divides. */
  lemma CleanPrefix(xi: Int32, others: seq<Share>)
    requires others != [] && NonNegativeKeys(Keys(others)) && CleanBasis(xi, Keys(others))
    ensures var n := |others| - 1;
      && NonNegativeKeys(Keys(others[..n]))
      && CleanBasis(xi, Keys(others[..n]))
      && others[n].x >= 0
      && StepDivides(Basis(xi, Keys(others[..n])), xi, others[n].x)
  {
    var n := |others| - 1;
    var xs, prefix := Keys(others), Keys(others[..n]);
    assert prefix == xs[..n];
    forall k | 0 <= k < n
      ensures prefix[..k] == xs[..k]
    {
    }
  }

  /** The inductive step of BasisExact: from all shares but the last to all. */
  lemma BasisExactStep(xi: Int32, others: seq<Share>)
    requires xi >= 0 && others != [] && others[|others| - 1].x >= 0
    requires var n := |others| - 1;
      && StepDivides(Basis(xi, Keys(others[..n])), xi, others[n].x)
      && Basis(xi, Keys(others[..n])) * Denominator(xi, others[..n]) == Numerator(xi, others[..n])
    ensures Basis(xi, Keys(others)) * Denominator(xi, others) == Numerator(xi, others)
  {
    var n := |others| - 1;
    var xj := others[n].x;
    var b := Basis(xi, Keys(others[..n]));
    BasisLast(xi, others);
    ExactStep(b, xi, xj);
    ProductApplyLast(others, NumeratorOf(xi));
    ProductApplyLast(others, DenominatorOf(xi));
    Rescale(Basis(xi, Keys(others)), b, DenominatorFactor(xi, xj), NumeratorFactor(xi, xj),
            Denominator(xi, others[..n]), Numerator(xi, others[..n]));
  }

  /** The computed L_i over all of `others` is one step from the one over
      all but the last key. */
  lemma BasisLast(xi: Int32, others: seq<Share>)
    requires others != []
    ensures var n := |others| - 1;
      Basis(xi, Keys(others)) == Step(Basis(xi, Keys(others[..n])), xi, others[n].x)
  {
    var n := |others| - 1;
    assert Keys(others) == Keys(others[..n]) + [others[n].x];
    BasisSnoc(xi, Keys(others[..n]), others[n].x);
  }

  /** If q * d == b * f and b * D == N, then q * (D * d) == N * f. */
  lemma Rescale(q: int, b: int, d: int, f: int, D: int, N: int)
    requires q * d == b * f && b * D == N
    ensures q * (D * d) == N * f
  {
    calc {
      q * (D * d);
      (q * d) * D;
      (b * f) * D;
      (b * D) * f;
    }
  }

  /** Two computed L_i that both hit the same non-zero-denominator fraction
      are equal. */
  lemma Cancel(b1: int, b2: int, d: int, n: int)
    requires d != 0 && b1 * d == n && b2 * d == n
    ensures b1 == b2
  {
    if b1 != b2 {
      assert (b1 - b2) * d == 0;
      NonZeroMultiple(b1 - b2, d);
      assert false;
    }
  }

  /** The fraction L_i(0) depends on the other keys, not on their order. */
  lemma FractionPermutation(xi: int, s: seq<Share>, t: seq<Share>)
    requires multiset(s) == multiset(t)
    ensures Numerator(xi, s) == Numerator(xi, t)
    ensures Denominator(xi, s) == Denominator(xi, t)
  {
    ApplyPermutation(s, t, NumeratorOf(xi));
    ProductPermutation(Apply(s, NumeratorOf(xi)), Apply(t, NumeratorOf(xi)));
    ApplyPermutation(s, t, DenominatorOf(xi));
    ProductPermutation(Apply(s, DenominatorOf(xi)), Apply(t, DenominatorOf(xi)));
  }

  /** If two iteration orders are clean for key `xi`, they compute the same L_i. */
  lemma CleanBasesAgree(xi: Int32, s: seq<Share>, t: seq<Share>)
    requires xi >= 0 && multiset(s) == multiset(t)
    requires NonNegativeKeys(Keys(s)) && NonNegativeKeys(Keys(t))
    requires CleanBasis(xi, Keys(s)) && CleanBasis(xi, Keys(t))
    ensures Basis(xi, Keys(s)) == Basis(xi, Keys(t))
  {
    BasisExact(xi, s);
    BasisExact(xi, t);
    FractionPermutation(xi, s, t);
    DenominatorNonZero(xi, s);
    Cancel(Basis(xi, Keys(s)), Basis(xi, Keys(t)), Denominator(xi, s), Numerator(xi, s));
  }

  function Value(s: Share): int
  {
    s.y
  }

  function BasisOf(xs: seq<Int32>): Share -> int
  {
    (s: Share) => Basis(s.x, xs)
  }

  /** The term y_i * L_i the outer loop adds for a share. */
  function TermOf(xs: seq<Int32>): Share -> int
  {
    Weighted(Value, BasisOf(xs))
  }

  /** The outer loop sums y_i * L_i over the visited shares. */
  lemma {:induction false} AccumulatedSum(visited: seq<Share>, xs: seq<Int32>)
    ensures Accumulated(visited, xs) == Sum(Apply(visited, TermOf(xs)))
    decreases |visited|
  {
    if visited != [] {
      AccumulatedSum(visited[..|visited| - 1], xs);
      SumApplyLast(visited, TermOf(xs));
    }
  }

  /** For fixed basis values the outer sum does not depend on the order. */
  lemma AccumulatedPermutation(v: seq<Share>, w: seq<Share>, xs: seq<Int32>)
    requires multiset(v) == multiset(w)
    ensures Accumulated(v, xs) == Accumulated(w, xs)
  {
    AccumulatedSum(v, xs);
    AccumulatedSum(w, xs);
    ApplyPermutation(v, w, TermOf(xs));
    SumPermutation(Apply(v, TermOf(xs)), Apply(w, TermOf(xs)));
  }

  /** The outer sum only looks at the keys through the basis values. */
  lemma {:induction false} AccumulatedOver(visited: seq<Share>, xs: seq<Int32>, ys: seq<Int32>)
    requires forall i :: 0 <= i < |visited| ==> Basis(visited[i].x, xs) == Basis(visited[i].x, ys)
    ensures Accumulated(visited, xs) == Accumulated(visited, ys)
    decreases |visited|
  {
    if visited != [] {
      AccumulatedOver(visited[..|visited| - 1], xs, ys);
    }
  }

  /** Two iteration orders of the same map in which no step truncates give
      the same secret. */
  lemma CleanOrdersAgree(s: seq<Share>, t: seq<Share>)
    requires multiset(s) == multiset(t)
    requires NonNegativeKeys(Keys(s)) && NonNegativeKeys(Keys(t))
    requires Clean(s) && Clean(t)
    ensures Secret(s) == Secret(t)
  {
    forall i | 0 <= i < |t|
      ensures Basis(t[i].x, Keys(s)) == Basis(t[i].x, Keys(t))
    {
      assert t[i] in multiset(s);
      var j :| 0 <= j < |s| && s[j] == t[i];
      CleanBasesAgree(t[i].x, s, t);
    }
    AccumulatedPermutation(s, t, Keys(s));
    AccumulatedOver(t, Keys(s), Keys(t));
  }

  /** L_i(0) as a rational number. */
  function ExactBasis(xi: int, all: seq<Share>): real
  {
    DenominatorNonZero(xi, all);
    Numerator(xi, all) as real / Denominator(xi, all) as real
  }

  function ExactBasisOf(all: seq<Share>): Share -> real
  {
    (s: Share) => ExactBasis(s.x, all)
  }

  /** The term y_i * L_i(0) of the interpolated value, in rationals. */
  function ExactTermOf(all: seq<Share>): Share -> real
  {
    RealWeighted(Value, ExactBasisOf(all))
  }

  /** The value at 0 of the interpolation polynomial through the shares:
      the sum of y_i * L_i(0) in rationals. */
  function ExactSecret(shares: seq<Share>): real
  {
    RealSum(Apply(shares, ExactTermOf(shares)))
  }

  /** A computed L_i that hits the fraction is the fraction. */
  lemma BasisAsReal(b: int, d: int, n: int)
    requires d != 0 && b * d == n
    ensures b as real == n as real / d as real
  {
    assert (b * d) as real == b as real * d as real;
  }

  /** Where every step divides evenly, L_i as computed is L_i(0) in rationals. */
  lemma BasisExactReal(xi: Int32, others: seq<Share>)
    requires xi >= 0 && NonNegativeKeys(Keys(others))
    requires CleanBasis(xi, Keys(others))
    ensures Basis(xi, Keys(others)) as real == ExactBasis(xi, others)
  {
    BasisExact(xi, others);
    DenominatorNonZero(xi, others);
    BasisAsReal(Basis(xi, Keys(others)), Denominator(xi, others), Numerator(xi, others));
  }

  /** On shares where no step truncates, `findSecret` returns the value at 0
      of the interpolation polynomial. */
  lemma SecretExact(shares: seq<Share>)
    requires NonNegativeKeys(Keys(shares)) && Clean(shares)
    ensures Secret(shares) as real == ExactSecret(shares)
  {
    forall k | 0 <= k < |shares|
      ensures BasisOf(Keys(shares))(shares[k]) as real == ExactBasisOf(shares)(shares[k])
    {
      BasisExactReal(shares[k].x, shares);
    }
    AccumulatedSum(shares, Keys(shares));
    WeightedSumAsReal(shares, Value, BasisOf(Keys(shares)), ExactBasisOf(shares));
  }

  /** The shares {1: 4, 2: 7, 3: 12} of y = x * x + 3: interpolation gives
      3, the truncating computation in ascending key order -9. */
  lemma ExactVersusTruncated()
    ensures ExactSecret([Share(1, 4), Share(2, 7), Share(3, 12)]) == 3.0
    ensures Secret([Share(1, 4), Share(2, 7), Share(3, 12)]) == -9
  {
    var s0, s1, s2 := Share(1, 4), Share(2, 7), Share(3, 12);
    var s := [s0, s1, s2];
    ExampleFraction(1, 1, 2, 3, 6, 2);
    ExampleFraction(2, 1, 2, 3, 3, -1);
    ExampleFraction(3, 1, 2, 3, 2, 2);
    assert ExactBasis(1, s) == 3.0 && ExactBasis(2, s) == -3.0 && ExactBasis(3, s) == 1.0;
    ExactTermValue(s0, s);
    ExactTermValue(s1, s);
    ExactTermValue(s2, s);
    ApplyThree(s0, s1, s2, ExactTermOf(s));
    ThreeElements(0, 0, 0, 12.0, -21.0, 12.0);
    SecretAscendingExample();
  }

  lemma ExactTermValue(s: Share, all: seq<Share>)
    ensures ExactTermOf(all)(s) == s.y as real * ExactBasis(s.x, all)
  {
    assert RealWeighted(Value, ExactBasisOf(all))(s) == Value(s) as real * ExactBasisOf(all)(s);
  }

  /** L_i(0) over the three shares with keys a, b, c of the example. */
  lemma ExampleFraction(xi: int, a: Int32, b: Int32, c: Int32, n: int, d: int)
    requires n == NumeratorFactor(xi, a) * NumeratorFactor(xi, b) * NumeratorFactor(xi, c)
    requires d == DenominatorFactor(xi, a) * DenominatorFactor(xi, b) * DenominatorFactor(xi, c)
    ensures ExactBasis(xi, [Share(a, 4), Share(b, 7), Share(c, 12)]) == n as real / d as real
  {
    var s0, s1, s2 := Share(a, 4), Share(b, 7), Share(c, 12);
    ApplyThree(s0, s1, s2, NumeratorOf(xi));
    ApplyThree(s0, s1, s2, DenominatorOf(xi));
    ThreeElements(NumeratorFactor(xi, a), NumeratorFactor(xi, b), NumeratorFactor(xi, c), 0.0, 0.0, 0.0);
    ThreeElements(DenominatorFactor(xi, a), DenominatorFactor(xi, b), DenominatorFactor(xi, c), 0.0, 0.0, 0.0);
  }

  /** In ascending key order the first step for key 3 computes (1 * -1) / 2
      and truncates -1/2 to 0. */
  lemma AscendingNotClean()
    ensures !Clean([Share(1, 4), Share(2, 7), Share(3, 12)])
  {
    var s := [Share(1, 4), Share(2, 7), Share(3, 12)];
    var xs := Keys(s);
    assert xs == [1, 2, 3] && xs[..0] == [];
    assert !StepDivides(Basis(3, xs[..0]), 3, xs[0]);
    assert !CleanBasis(s[2].x, xs);
  }

  /** Three keys whose steps all divide evenly. */
  lemma CleanThreeKeys(xi: Int32, a: Int32, b: Int32, c: Int32, l1: int, l2: int)
    requires StepDivides(1, xi, a) && Step(1, xi, a) == l1
    requires StepDivides(l1, xi, b) && Step(l1, xi, b) == l2
    requires StepDivides(l2, xi, c)
    ensures CleanBasis(xi, [a, b, c])
  {
    var xs := [a, b, c];
    assert xs[..0] == [] && xs[..1] == [] + [a] && xs[..2] == [a] + [b];
    BasisSnoc(xi, [], a);
    BasisSnoc(xi, [a], b);
  }

  /** Three shares each of whose keys is clean. */
  lemma CleanThreeShares(s0: Share, s1: Share, s2: Share)
    requires var xs := [s0.x, s1.x, s2.x];
      CleanBasis(s0.x, xs) && CleanBasis(s1.x, xs) && CleanBasis(s2.x, xs)
    ensures Clean([s0, s1, s2])
  {
    assert Keys([s0, s1, s2]) == [s0.x, s1.x, s2.x];
  }

  /** In the order 2, 1, 3 every step divides evenly, so that order yields
      the interpolated secret 3. */
  lemma ReorderedClean()
    ensures Clean([Share(2, 7), Share(1, 4), Share(3, 12)])
  {
    StepWithoutWrap(1, 2, 1);
    TruncDivExact(-1, 1, -1);
    CleanThreeKeys(2, 2, 1, 3, 1, -1);
    StepWithoutWrap(1, 1, 2);
    TruncDivExact(-2, -1, 2);
    CleanThreeKeys(1, 2, 1, 3, 2, 2);
    StepWithoutWrap(1, 3, 2);
    StepWithoutWrap(-2, 3, 1);
    TruncDivExact(-2, 1, -2);
    TruncDivExact(2, 2, 1);
    CleanThreeKeys(3, 2, 1, 3, -2, 1);
    CleanThreeShares(Share(2, 7), Share(1, 4), Share(3, 12));
  }
}
