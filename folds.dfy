// Products and sums of integer sequences, and why neither depends on the
// order of the sequence. The exact interpolation is built from them.
module Folds {
  /** The product of the elements, the last one multiplied in last. */
  function Product(fs: seq<int>): int
  {
    if fs == [] then 1 else Product(fs[..|fs| - 1]) * fs[|fs| - 1]
  }

  /** The sequence without its element at index i. */
  function Without<T>(s: seq<T>, i: nat): (r: seq<T>)
    requires i < |s|
    ensures |r| == |s| - 1
  {
    s[..i] + s[i + 1..]
  }

  /** Where the last element of t sits in a permutation s of t. */
  lemma LastIn<T>(s: seq<T>, t: seq<T>) returns (i: nat)
    requires t != [] && multiset(s) == multiset(t)
    ensures i < |s| && s[i] == t[|t| - 1]
    ensures multiset(Without(s, i)) == multiset(t[..|t| - 1])
  {
    var n := |t| - 1;
    assert t == t[..n] + [t[n]];
    assert t[n] in multiset(s);
    i :| 0 <= i < |s| && s[i] == t[n];
    assert s == s[..i] + [s[i]] + s[i + 1..];
    assert multiset(Without(s, i)) == multiset(s) - multiset{t[n]};
    assert multiset(t[..n]) == multiset(t) - multiset{t[n]};
  }

  /** (p * a) * b, regrouped. */
  lemma Regroup(whole: int, part: int, removed: int, p: int, a: int, b: int)
    requires whole == part * b && part == p * a && removed == p * b
    ensures whole == removed * a
  {
  }

  lemma {:induction false} ProductRemove(fs: seq<int>, i: nat)
    requires i < |fs|
    ensures Product(fs) == Product(Without(fs, i)) * fs[i]
    decreases |fs|
  {
    var n := |fs| - 1;
    if i < n {
      ProductRemove(fs[..n], i);
      ProductRemoveStep(fs, i);
    } else {
      assert Without(fs, i) == fs[..n];
    }
  }

  /** The inductive step of ProductRemove: from the prefix to the whole. */
  lemma ProductRemoveStep(fs: seq<int>, i: nat)
    requires i < |fs| - 1
    requires Product(fs[..|fs| - 1]) == Product(Without(fs[..|fs| - 1], i)) * fs[i]
    ensures Product(fs) == Product(Without(fs, i)) * fs[i]
  {
    var n := |fs| - 1;
    var rest, removed := fs[..n], Without(fs, i);
    assert removed[..|removed| - 1] == Without(rest, i);
    assert removed[|removed| - 1] == fs[n];
    Regroup(Product(fs), Product(rest), Product(removed), Product(Without(rest, i)), fs[i], fs[n]);
  }

  lemma {:induction false} ProductPermutation(fs: seq<int>, gs: seq<int>)
    requires multiset(fs) == multiset(gs)
    ensures Product(fs) == Product(gs)
    decreases |gs|
  {
    if gs != [] {
      var n := |gs| - 1;
      var i := LastIn(fs, gs);
      ProductRemove(fs, i);
      ProductPermutation(Without(fs, i), gs[..n]);
    } else {
      assert |fs| == |multiset(fs)| == 0;
    }
  }

  /** A product of non-zero factors is non-zero. */
  lemma {:induction false} ProductNonZero(fs: seq<int>)
    requires forall k :: 0 <= k < |fs| ==> fs[k] != 0
    ensures Product(fs) != 0
    decreases |fs|
  {
    if fs != [] {
      ProductNonZero(fs[..|fs| - 1]);
    }
  }

  /** The sum of the elements, the last one added last. */
  function Sum(rs: seq<int>): int
  {
    if rs == [] then 0 else Sum(rs[..|rs| - 1]) + rs[|rs| - 1]
  }

  lemma {:induction false} SumRemove(rs: seq<int>, i: nat)
    requires i < |rs|
    ensures Sum(rs) == Sum(Without(rs, i)) + rs[i]
    decreases |rs|
  {
    var n := |rs| - 1;
    if i < n {
      SumRemove(rs[..n], i);
      var removed := Without(rs, i);
      assert removed[..|removed| - 1] == Without(rs[..n], i);
      assert removed[|removed| - 1] == rs[n];
    } else {
      assert Without(rs, i) == rs[..n];
    }
  }

  lemma {:induction false} SumPermutation(rs: seq<int>, ss: seq<int>)
    requires multiset(rs) == multiset(ss)
    ensures Sum(rs) == Sum(ss)
    decreases |ss|
  {
    if ss != [] {
      var n := |ss| - 1;
      var i := LastIn(rs, ss);
      SumRemove(rs, i);
      SumPermutation(Without(rs, i), ss[..n]);
    } else {
      assert |rs| == |multiset(rs)| == 0;
    }
  }

  /** The sum of a sequence of rationals, the last one added last. */
  function RealSum(rs: seq<real>): real
  {
    if rs == [] then 0.0 else RealSum(rs[..|rs| - 1]) + rs[|rs| - 1]
  }

  /** Summing integers commutes with reading them as rationals. */
  lemma {:induction false} SumAsReal(ns: seq<int>, rs: seq<real>)
    requires |ns| == |rs| && forall k :: 0 <= k < |ns| ==> ns[k] as real == rs[k]
    ensures Sum(ns) as real == RealSum(rs)
    decreases |ns|
  {
    if ns != [] {
      var n := |ns| - 1;
      SumAsReal(ns[..n], rs[..n]);
    }
  }

  /** The function a => w(a) * f(a). */
  function Weighted<A>(w: A -> int, f: A -> int): A -> int
  {
    a => w(a) * f(a)
  }

  /** The function a => w(a) * g(a), in rationals. */
  function RealWeighted<A>(w: A -> int, g: A -> real): A -> real
  {
    a => w(a) as real * g(a)
  }

  /** A weighted sum of integers read as a rational is the weighted sum of
      the rationals the integers stand for. */
  lemma WeightedSumAsReal<A>(s: seq<A>, w: A -> int, f: A -> int, g: A -> real)
    requires forall k :: 0 <= k < |s| ==> f(s[k]) as real == g(s[k])
    ensures Sum(Apply(s, Weighted(w, f))) as real == RealSum(Apply(s, RealWeighted(w, g)))
  {
    var ns, rs := Apply(s, Weighted(w, f)), Apply(s, RealWeighted(w, g));
    forall k | 0 <= k < |s|
      ensures ns[k] as real == rs[k]
    {
      assert (w(s[k]) * f(s[k])) as real == w(s[k]) as real * f(s[k]) as real;
    }
    SumAsReal(ns, rs);
  }

  /** f applied to every element. */
  function Apply<A, B>(s: seq<A>, f: A -> B): (r: seq<B>)
    ensures |r| == |s| && forall k :: 0 <= k < |s| ==> r[k] == f(s[k])
  {
    seq(|s|, k requires 0 <= k < |s| => f(s[k]))
  }

  /** Apply splits off the last element as the sequence does. */
  lemma ApplyLast<A, B>(s: seq<A>, f: A -> B)
    requires s != []
    ensures Apply(s, f)[..|s| - 1] == Apply(s[..|s| - 1], f)
    ensures Apply(s, f)[|s| - 1] == f(s[|s| - 1])
  {
  }

  /** The product of the images: that of all but the last, times the last. */
  lemma ProductApplyLast<A>(s: seq<A>, f: A -> int)
    requires s != []
    ensures Product(Apply(s, f)) == Product(Apply(s[..|s| - 1], f)) * f(s[|s| - 1])
  {
    ApplyLast(s, f);
  }

  /** The sum of the images: that of all but the last, plus the last. */
  lemma SumApplyLast<A>(s: seq<A>, f: A -> int)
    requires s != []
    ensures Sum(Apply(s, f)) == Sum(Apply(s[..|s| - 1], f)) + f(s[|s| - 1])
  {
    ApplyLast(s, f);
  }

  lemma {:induction false} ApplyPermutation<A, B>(s: seq<A>, t: seq<A>, f: A -> B)
    requires multiset(s) == multiset(t)
    ensures multiset(Apply(s, f)) == multiset(Apply(t, f))
    decreases |t|
  {
    if t != [] {
      var n := |t| - 1;
      var i := LastIn(s, t);
      ApplyPermutation(Without(s, i), t[..n], f);
      assert Apply(Without(s, i), f) == Without(Apply(s, f), i);
      assert Apply(t, f) == Apply(t[..n], f) + [f(t[n])];
      assert Apply(s, f) == Apply(s, f)[..i] + [f(t[n])] + Apply(s, f)[i + 1..];
    } else {
      assert |s| == |multiset(s)| == 0;
    }
  }

  /** Apply on three elements, spelled out. */
  lemma ApplyThree<A, B>(a: A, b: A, c: A, f: A -> B)
    ensures Apply([a, b, c], f) == [f(a), f(b), f(c)]
  {
  }

  /** Product and RealSum on three elements, spelled out. */
  lemma ThreeElements(x: int, y: int, z: int, u: real, v: real, w: real)
    ensures Product([x, y, z]) == x * y * z
    ensures RealSum([u, v, w]) == u + v + w
  {
    assert [x, y, z][..2] == [x, y] && [x, y][..1] == [x] && [x][..0] == [];
    assert Product([x]) == x;
    assert Product([x, y]) == x * y;
    assert [u, v, w][..2] == [u, v] && [u, v][..1] == [u] && [u][..0] == [];
    assert RealSum([u]) == u;
    assert RealSum([u, v]) == u + v;
  }
}
