// The secret reconstructor: `findSecret` evaluates the Lagrange
// interpolation polynomial of the shares at x = 0. The basis value L_i is
// built one factor at a time, each step dividing with truncation, so the
// result is exact only when every partial product divides evenly, and it
// depends on the order in which the shares are visited.
module SecretReconstructor {

  import opened Arith

  /** One entry of the share map: the key `x` is a Java `int`, the decoded
      value `y` a BigInteger. */
  datatype Share = Share(x: Int32, y: int)

  /** The keys of `shares`, in the same order. */
  function Keys(shares: seq<Share>): (xs: seq<Int32>)
    ensures |xs| == |shares|
    ensures forall k :: 0 <= k < |shares| ==> xs[k] == shares[k].x
  {
    seq(|shares|, k requires 0 <= k < |shares| => shares[k].x)
  }

  /** One turn of the inner loop: for another key `xj` the running `li` is
      multiplied by `0 - xj` and divided by `xi - xj`, both differences
      computed as Java `int`s; the share's own key is skipped. */
  function Step(li: int, xi: Int32, xj: Int32): (r: int)
    // the share's own key leaves `li` as it is
    ensures xi == xj ==> r == li
    // once truncation has brought `li` to zero, it stays zero
    ensures li == 0 ==> r == 0
  {
    if xi == xj then li
    else
      NoDivisionByZero(xi, xj);
      TruncDiv(li * Wrap32(0 - xj), Wrap32(xi - xj))
  }

  /** The guard `xi != xj` is enough: even computed as a Java `int`, the
      denominator `xi - xj` never wraps around to zero. */
  lemma NoDivisionByZero(xi: Int32, xj: Int32)
    requires xi != xj
    ensures Wrap32(xi - xj) != 0
  {
    assert 0 < Abs(xi - xj) < TWO_32;
  }

  /** L_i(0) as the inner loop leaves it after visiting the keys `xs`. */
  function Basis(xi: Int32, xs: seq<Int32>): int
  {
    if xs == [] then 1
    else Step(Basis(xi, xs[..|xs| - 1]), xi, xs[|xs| - 1])
  }

  /** The secret as the outer loop leaves it after visiting `visited`, each
      share weighted with its basis value over all the keys `xs`. */
  function Accumulated(visited: seq<Share>, xs: seq<Int32>): int
  {
    if visited == [] then 0
    else
      var last := visited[|visited| - 1];
      Accumulated(visited[..|visited| - 1], xs) + last.y * Basis(last.x, xs)
  }

  /** What `findSecret` returns for the shares in iteration order. */
  function Secret(shares: seq<Share>): int
  {
    Accumulated(shares, Keys(shares))
  }

  /** ShamirSecretSharing.findSecret, over the map's entries in the order
      its iteration yields them. */
  method FindSecret(shares: seq<Share>) returns (secret: int)
    ensures secret == Secret(shares)
  {
    secret := 0;
    var i := 0;
    while i < |shares|
      invariant 0 <= i <= |shares|
      invariant secret == Accumulated(shares[..i], Keys(shares))
    {
      var xi, yi := shares[i].x, shares[i].y;
      var li := BasisAt(xi, shares);
      AccumulatedPrefix(shares, Keys(shares), i);
      secret := secret + yi * li;
      i := i + 1;
    }
    assert shares[..i] == shares;
  }

  /** The inner loop of findSecret: L_i(0) for key `xi`, one step per entry. */
  method BasisAt(xi: Int32, shares: seq<Share>) returns (li: int)
    ensures li == Basis(xi, Keys(shares))
  {
    ghost var xs := Keys(shares);
    li := 1;
    var j := 0;
    while j < |shares|
      invariant 0 <= j <= |shares|
      invariant li == Basis(xi, xs[..j])
    {
      var xj := shares[j].x;
      BasisPrefix(xi, xs, j);
      if xi != xj {
        var numerator := Wrap32(0 - xj as int);
        var denominator := Wrap32(xi as int - xj);
        li := TruncDiv(li * numerator, denominator);
      }
      j := j + 1;
    }
    assert xs[..j] == xs;
  }

  /** Keys read from the input file are digit strings, so never negative;
      for such keys neither `0 - xj` nor `xi - xj` wraps around. */
  predicate NonNegativeKeys(xs: seq<Int32>)
  {
    forall k :: 0 <= k < |xs| ==> xs[k] >= 0
  }

  lemma StepWithoutWrap(li: int, xi: Int32, xj: Int32)
    requires xi >= 0 && xj >= 0 && xi != xj
    ensures Step(li, xi, xj) == TruncDiv(li * -xj, xi - xj)
  {
  }

  /** Visiting one more key applies one more step. */
  lemma BasisSnoc(xi: Int32, xs: seq<Int32>, xj: Int32)
    ensures Basis(xi, xs + [xj]) == Step(Basis(xi, xs), xi, xj)
  {
    assert (xs + [xj])[..|xs|] == xs;
  }

  /** The inner loop's step from the first j keys to the first j + 1. */
  lemma BasisPrefix(xi: Int32, xs: seq<Int32>, j: nat)
    requires j < |xs|
    ensures Basis(xi, xs[..j + 1]) == Step(Basis(xi, xs[..j]), xi, xs[j])
  {
    assert xs[..j + 1] == xs[..j] + [xs[j]];
    BasisSnoc(xi, xs[..j], xs[j]);
  }

  /** The outer loop's step from the first i shares to the first i + 1. */
  lemma AccumulatedPrefix(shares: seq<Share>, xs: seq<Int32>, i: nat)
    requires i < |shares|
    ensures Accumulated(shares[..i + 1], xs)
         == Accumulated(shares[..i], xs) + shares[i].y * Basis(shares[i].x, xs)
  {
    assert shares[..i + 1] == shares[..i] + [shares[i]];
    AccumulatedSnoc(shares[..i], shares[i], xs);
  }

  /** The last share visited adds its weighted value. */
  lemma AccumulatedLast(visited: seq<Share>, xs: seq<Int32>)
    requires visited != []
    ensures var n := |visited| - 1;
      Accumulated(visited, xs) == Accumulated(visited[..n], xs) + visited[n].y * Basis(visited[n].x, xs)
  {
  }

  /** Visiting one more share adds its weighted value. */
  lemma AccumulatedSnoc(visited: seq<Share>, s: Share, xs: seq<Int32>)
    ensures Accumulated(visited + [s], xs) == Accumulated(visited, xs) + s.y * Basis(s.x, xs)
  {
    assert (visited + [s])[..|visited|] == visited;
  }

  /** No shares: both loops are skipped and the secret is 0. */
  lemma SecretOfNoShares()
    ensures Secret([]) == 0
  {
  }

  /** One share: the inner loop only meets the share's own key, so L stays 1
      and the secret is the share's value. */
  lemma SecretOfOneShare(x: Int32, y: int)
    ensures Secret([Share(x, y)]) == y
  {
    assert Keys([Share(x, y)]) == [] + [x];
    BasisSnoc(x, [], x);
    AccumulatedSnoc([], Share(x, y), [x]);
    assert [] + [Share(x, y)] == [Share(x, y)];
  }

  /** Two shares at x = 1 and x = 2, in either order: L_1 = 2, L_2 = -1. */
  lemma SecretOfTwoShares(a: int, b: int)
    ensures Secret([Share(1, a), Share(2, b)]) == 2 * a - b
    ensures Secret([Share(2, b), Share(1, a)]) == 2 * a - b
  {
    TwoShares(1, a, 2, b, 2, -1);
    TwoShares(2, b, 1, a, -1, 2);
  }

  /** The secret of two shares in terms of their basis values. */
  lemma TwoShares(x0: Int32, y0: int, x1: Int32, y1: int, l0: int, l1: int)
    requires 0 <= x0 && 0 <= x1 && x0 != x1
    requires TruncDiv(-x1, x0 - x1) == l0 && TruncDiv(-x0, x1 - x0) == l1
    ensures Secret([Share(x0, y0), Share(x1, y1)]) == y0 * l0 + y1 * l1
  {
    TwoKeyBasis(x0, x0, x1);
    StepWithoutWrap(1, x0, x1);
    TwoKeyBasis(x1, x0, x1);
    StepWithoutWrap(1, x1, x0);
    TwoSharesSum(Share(x0, y0), Share(x1, y1));
  }

  lemma TwoKeyBasis(xi: Int32, a: Int32, b: Int32)
    ensures Basis(xi, [a, b]) == Step(Step(1, xi, a), xi, b)
  {
    assert [a] == [] + [a] && [a, b] == [a] + [b];
    BasisSnoc(xi, [], a);
    BasisSnoc(xi, [a], b);
  }

  lemma TwoSharesSum(s0: Share, s1: Share)
    ensures var xs := [s0.x, s1.x];
      Secret([s0, s1]) == s0.y * Basis(s0.x, xs) + s1.y * Basis(s1.x, xs)
  {
    var xs := [s0.x, s1.x];
    assert Keys([s0, s1]) == xs;
    assert [s0] == [] + [s0] && [s0, s1] == [s0] + [s1];
    AccumulatedSnoc([], s0, xs);
    AccumulatedSnoc([s0], s1, xs);
  }

  /** Two shares on the line y = m * x + c give c, provided the
      denominator x0 - x1 divides x1 (and therefore x0), so that no step
      truncates. */
  lemma SecretOfLine(x0: Int32, x1: Int32, m: int, c: int, k: int)
    requires 0 <= x0 && 0 <= x1 && x0 != x1
    requires x1 == k * (x0 - x1)
    ensures Secret([Share(x0, m * x0 + c), Share(x1, m * x1 + c)]) == c
  {
    var d := x0 - x1;
    // L_0 = -x1 / d = -k and L_1 = -x0 / -d = k + 1, since x0 == (k + 1) * d
    TruncDivExact(-x1, d, -k);
    assert x0 == (k + 1) * d;
    TruncDivExact(-x0, x1 - x0, k + 1);
    TwoShares(x0, m * x0 + c, x1, m * x1 + c, -k, k + 1);
    LineAlgebra(x0, x1, m, c, k, d);
  }

  lemma LineAlgebra(x0: int, x1: int, m: int, c: int, k: int, d: int)
    requires x1 == k * d && x0 == (k + 1) * d
    ensures (m * x0 + c) * -k + (m * x1 + c) * (k + 1) == c
  {
    calc {
      (m * x0 + c) * -k + (m * x1 + c) * (k + 1);
      m * (x1 * (k + 1) - x0 * k) + c;
      { assert x1 * (k + 1) == k * d * (k + 1) == (k + 1) * d * k == x0 * k; }
      c;
    }
  }

  /** The shares with every value multiplied by c. */
  function ScaleYs(shares: seq<Share>, c: int): (r: seq<Share>)
    ensures |r| == |shares|
    ensures forall k :: 0 <= k < |r| ==> r[k] == Share(shares[k].x, c * shares[k].y)
  {
    seq(|shares|, k requires 0 <= k < |shares| => Share(shares[k].x, c * shares[k].y))
  }

  lemma {:induction false} AccumulatedScales(visited: seq<Share>, xs: seq<Int32>, c: int)
    ensures Accumulated(ScaleYs(visited, c), xs) == c * Accumulated(visited, xs)
    decreases |visited|
  {
    if visited != [] {
      var n := |visited| - 1;
      var last := visited[n];
      assert visited == visited[..n] + [last];
      assert ScaleYs(visited, c) == ScaleYs(visited[..n], c) + [Share(last.x, c * last.y)];
      AccumulatedSnoc(visited[..n], last, xs);
      AccumulatedSnoc(ScaleYs(visited[..n], c), Share(last.x, c * last.y), xs);
      AccumulatedScales(visited[..n], xs, c);
      ScaleStep(c, Accumulated(visited[..n], xs), last.y, Basis(last.x, xs));
    }
  }

  lemma ScaleStep(c: int, a: int, y: int, b: int)
    ensures c * a + (c * y) * b == c * (a + y * b)
  {
    calc {
      c * (a + y * b);
      c * a + c * (y * b);
      { assert c * (y * b) == (c * y) * b; }
      c * a + (c * y) * b;
    }
  }

  /** The basis values depend on the keys alone, so scaling every value by c
      scales the secret by c. */
  lemma SecretScales(shares: seq<Share>, c: int)
    ensures Secret(ScaleYs(shares, c)) == c * Secret(shares)
  {
    assert Keys(ScaleYs(shares, c)) == Keys(shares);
    AccumulatedScales(shares, Keys(shares), c);
  }

  /** Shares whose values are all zero give the secret 0. */
  lemma SecretOfZeros(shares: seq<Share>)
    requires forall k :: 0 <= k < |shares| ==> shares[k].y == 0
    ensures Secret(shares) == 0
  {
    assert ScaleYs(shares, 0) == shares;
    SecretScales(shares, 0);
  }

  /** Same keys in the same order: the secret of summed values is the sum of
      the secrets. */
  lemma {:induction false} AccumulatedAdds(v1: seq<Share>, v2: seq<Share>, v: seq<Share>, xs: seq<Int32>)
    requires |v1| == |v2| == |v|
    requires forall k :: 0 <= k < |v| ==> v[k].x == v1[k].x == v2[k].x && v[k].y == v1[k].y + v2[k].y
    ensures Accumulated(v, xs) == Accumulated(v1, xs) + Accumulated(v2, xs)
    decreases |v|
  {
    if v != [] {
      var n := |v| - 1;
      AccumulatedLast(v, xs);
      AccumulatedLast(v1, xs);
      AccumulatedLast(v2, xs);
      AccumulatedAdds(v1[..n], v2[..n], v[..n], xs);
      AddStep(Accumulated(v[..n], xs), Accumulated(v1[..n], xs), Accumulated(v2[..n], xs),
              v1[n].y, v2[n].y, Basis(v[n].x, xs));
    }
  }

  lemma AddStep(a: int, a1: int, a2: int, y1: int, y2: int, b: int)
    requires a == a1 + a2
    ensures a + (y1 + y2) * b == (a1 + y1 * b) + (a2 + y2 * b)
  {
    assert (y1 + y2) * b == y1 * b + y2 * b;
  }

  lemma SecretAdds(s1: seq<Share>, s2: seq<Share>, s: seq<Share>)
    requires |s1| == |s2| == |s|
    requires forall k :: 0 <= k < |s| ==> s[k].x == s1[k].x == s2[k].x && s[k].y == s1[k].y + s2[k].y
    ensures Secret(s) == Secret(s1) + Secret(s2)
  {
    assert Keys(s1) == Keys(s) && Keys(s2) == Keys(s);
    AccumulatedAdds(s1, s2, s, Keys(s));
  }

  /** The basis value of xi over three keys, step by step. */
  lemma ThreeKeyBasis(xi: Int32, a: Int32, b: Int32, c: Int32, l1: int, l2: int, l3: int)
    requires Step(1, xi, a) == l1 && Step(l1, xi, b) == l2 && Step(l2, xi, c) == l3
    ensures Basis(xi, [a, b, c]) == l3
  {
    assert [a] == [] + [a] && [a, b] == [a] + [b] && [a, b, c] == [a, b] + [c];
    BasisSnoc(xi, [], a);
    BasisSnoc(xi, [a], b);
    BasisSnoc(xi, [a, b], c);
  }

  /** The secret of three shares in terms of their basis values. */
  lemma ThreeShares(s0: Share, s1: Share, s2: Share, l0: int, l1: int, l2: int)
    requires Basis(s0.x, [s0.x, s1.x, s2.x]) == l0
    requires Basis(s1.x, [s0.x, s1.x, s2.x]) == l1
    requires Basis(s2.x, [s0.x, s1.x, s2.x]) == l2
    ensures Secret([s0, s1, s2]) == s0.y * l0 + s1.y * l1 + s2.y * l2
  {
    var xs := [s0.x, s1.x, s2.x];
    assert Keys([s0, s1, s2]) == xs;
    assert [s0] == [] + [s0] && [s0, s1] == [s0] + [s1] && [s0, s1, s2] == [s0, s1] + [s2];
    AccumulatedSnoc([], s0, xs);
    AccumulatedSnoc([s0], s1, xs);
    AccumulatedSnoc([s0, s1], s2, xs);
  }

  /** The shares {1: 4, 2: 7, 3: 12} lie on y = x * x + 3, but visited in
      ascending order the first step of L_3 truncates -1/2 to 0 and the
      result is -9 instead of 3. */
  lemma SecretAscendingExample()
    ensures Secret([Share(1, 4), Share(2, 7), Share(3, 12)]) == -9
  {
    StepWithoutWrap(1, 1, 2);
    StepWithoutWrap(2, 1, 3);
    TruncDivExact(-2, -1, 2);
    TruncDivExact(-6, -2, 3);
    ThreeKeyBasis(1, 1, 2, 3, 1, 2, 3);
    StepWithoutWrap(1, 2, 1);
    StepWithoutWrap(-1, 2, 3);
    TruncDivExact(-1, 1, -1);
    TruncDivExact(3, -1, -3);
    ThreeKeyBasis(2, 1, 2, 3, -1, -1, -3);
    StepWithoutWrap(1, 3, 1);
    StepWithoutWrap(0, 3, 2);
    assert TruncDiv(-1, 2) == 0;
    TruncDivExact(0, 1, 0);
    ThreeKeyBasis(3, 1, 2, 3, 0, 0, 0);
    ThreeShares(Share(1, 4), Share(2, 7), Share(3, 12), 3, -3, 0);
  }

  /** The same shares visited in the order 2, 1, 3: every step divides
      exactly and the result is 3. */
  lemma SecretReorderedExample()
    ensures Secret([Share(2, 7), Share(1, 4), Share(3, 12)]) == 3
  {
    StepWithoutWrap(1, 2, 1);
    StepWithoutWrap(-1, 2, 3);
    TruncDivExact(-1, 1, -1);
    TruncDivExact(3, -1, -3);
    ThreeKeyBasis(2, 2, 1, 3, 1, -1, -3);
    StepWithoutWrap(1, 1, 2);
    StepWithoutWrap(2, 1, 3);
    TruncDivExact(-2, -1, 2);
    TruncDivExact(-6, -2, 3);
    ThreeKeyBasis(1, 2, 1, 3, 2, 2, 3);
    StepWithoutWrap(1, 3, 2);
    StepWithoutWrap(-2, 3, 1);
    TruncDivExact(-2, 1, -2);
    TruncDivExact(2, 2, 1);
    ThreeKeyBasis(3, 2, 1, 3, -2, 1, 1);
    ThreeShares(Share(2, 7), Share(1, 4), Share(3, 12), -3, 3, 1);
  }
}
