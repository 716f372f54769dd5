/** Interpolation and the Lagrange basis behind the weight commitments (kzg/helpers.go, barycentric4096.go). */
module Interpolation {
  import opened Fields
  import opened Polynomials

  // ----- scaling and adding

  /** res + scale * basis, up to the first k coefficients. */
  ghost predicate Accumulated<F(!new)>(f: Field<F>, before: Poly<F>, basis: Poly<F>, scale: F, k: nat, after: Poly<F>) {
    && |after| == |before| == |basis|
    && forall i :: 0 <= i < |after| ==> after[i] == if i < k then f.add(before[i], f.mul(basis[i], scale)) else before[i]
  }

  lemma {:induction false} EvalAccumulated<F(!new)>(f: Field<F>, before: Poly<F>, basis: Poly<F>, scale: F, after: Poly<F>, x: F)
    requires IsField(f) && Accumulated(f, before, basis, scale, |basis|, after)
    ensures Eval(f, after, x) == f.add(Eval(f, before, x), f.mul(Eval(f, basis, x), scale))
  {
    if after == [] {
      MulZero(f, scale);
      MulZero(f, f.zero);
    } else {
      assert Accumulated(f, before[1..], basis[1..], scale, |basis| - 1, after[1..]);
      EvalAccumulated(f, before[1..], basis[1..], scale, after[1..], x);
      AccumulateStep(f, before[0], basis[0], scale, x, Eval(f, before[1..], x), Eval(f, basis[1..], x));
    }
  }

  /** (b + c s) + x (u + v s) = (b + x u) + (c + x v) s. */
  lemma {:induction false} AccumulateStep<F(!new)>(f: Field<F>, b: F, c: F, s: F, x: F, u: F, v: F)
    requires IsField(f)
    ensures f.add(f.add(b, f.mul(c, s)), f.mul(x, f.add(u, f.mul(v, s)))) ==
            f.add(f.add(b, f.mul(x, u)), f.mul(f.add(c, f.mul(x, v)), s))
  {
    assert Laws(f, x, u, f.mul(v, s)) && Laws(f, x, v, s);
    Swap(f, b, f.mul(c, s), f.mul(x, u), f.mul(f.mul(x, v), s));
    Factor(f, c, f.mul(x, v), s);
  }

  /** Add scale * basis to the result in place (the last loop of Interpolate). */
  method Accumulate<F(!new)>(f: Field<F>, res: array<F>, basis: Poly<F>, scale: F)
    requires |basis| == res.Length
    modifies res
    ensures Accumulated(f, old(res[..]), basis, scale, |basis|, res[..])
  {
    for k := 0 to |basis|
      invariant Accumulated(f, old(res[..]), basis, scale, k, res[..])
    {
      var tmp := f.mul(basis[k], scale);
      res[k] := f.add(res[k], tmp);
    }
  }

  // ----- interpolation

  /** The first j points, without point i. */
  function Others<F>(xs: seq<F>, i: nat, j: nat): (o: seq<F>)
    requires i < |xs| && j <= |xs|
    ensures |o| == if i < j then j - 1 else j
  {
    if i < j then xs[..i] + xs[i + 1..j] else xs[..j]
  }

  lemma {:induction false} OthersStep<F>(xs: seq<F>, i: nat, j: nat)
    requires i < |xs| && j < |xs|
    ensures Others(xs, i, j + 1) == if i == j then Others(xs, i, j) else Others(xs, i, j) + [xs[j]]
  {
  }

  lemma {:induction false} OthersMembers<F>(xs: seq<F>, i: nat, m: nat)
    requires DistinctPoints(xs) && i < |xs| && m < |xs|
    ensures xs[m] in Others(xs, i, |xs|) <==> m != i
  {
    var o := Others(xs, i, |xs|);
    if m < i {
      assert o[m] == xs[m];
    } else if i < m {
      assert o[m - 1] == xs[m];
    }
  }

  lemma {:induction false} ProductLast<F(!new)>(f: Field<F>, xs: seq<F>, x: F, t: F)
    ensures Product(f, xs + [x], t) == f.mul(f.sub(t, x), Product(f, xs, t))
  {
    assert (xs + [x])[..|xs|] == xs;
  }

  /** The product of X - xs[j] over the other points, and its value at xs[i] (the middle loop of
      Interpolate). */
  method LagrangeNumerator<F(!new)>(f: Field<F>, xs: seq<F>, i: nat) returns (basis: Poly<F>, denom: F)
    requires IsField(f) && i < |xs|
    ensures |basis| == |xs| && forall t :: Eval(f, basis, t) == Product(f, Others(xs, i, |xs|), t)
    ensures denom == Product(f, Others(xs, i, |xs|), xs[i])
  {
    basis, denom := [f.one], f.one;
    forall t ensures Eval(f, basis, t) == f.one {
      ConstantEval(f, f.one, t);
    }
    for j := 0 to |xs|
      invariant |basis| == |Others(xs, i, j)| + 1
      invariant forall t :: Eval(f, basis, t) == Product(f, Others(xs, i, j), t)
      invariant denom == Product(f, Others(xs, i, j), xs[i])
    {
      OthersStep(xs, i, j);
      if i != j {
        ghost var before := basis;
        basis := MultiplyLinear(f, basis, xs[j]);
        var diff := f.sub(xs[i], xs[j]);
        ProductLast(f, Others(xs, i, j), xs[j], xs[i]);
        assert Laws(f, denom, diff, diff);
        denom := f.mul(denom, diff);
        forall t ensures Eval(f, basis, t) == Product(f, Others(xs, i, j + 1), t) {
          assert Eval(f, before, t) == Product(f, Others(xs, i, j), t);
          ProductLast(f, Others(xs, i, j), xs[j], t);
        }
      }
    }
  }

  /** For distinct points, a polynomial R with R(xs[i]) = ys[i]; it has no more coefficients than there
      are points (Interpolate). */
  method Interpolate<F(!new)>(f: Field<F>, xs: seq<F>, ys: seq<F>) returns (r: Poly<F>)
    requires IsField(f) && |xs| <= |ys|
    ensures |r| == |xs| && (DistinctPoints(xs) ==> TakesValues(f, r, xs, ys, |xs|))
  {
    var n := |xs|;
    var res := new F[n](_ => f.zero);
    ZeroTakesNone(f, res[..], xs, ys);
    for i := 0 to n
      invariant DistinctPoints(xs) ==> TakesValues(f, res[..], xs, ys, i)
    {
      var basis, denom := LagrangeNumerator(f, xs, i);
      var scale := f.mul(ys[i], f.inv(denom));
      ghost var before := res[..];
      Accumulate(f, res, basis, scale);
      if DistinctPoints(xs) {
        OneMoreValue(f, xs, ys, i, before, basis, scale, res[..]);
      }
    }
    r := res[..];
  }

  /** The first k values are taken, the polynomial is zero at the other points. */
  ghost predicate TakesValues<F(!new)>(f: Field<F>, p: Poly<F>, xs: seq<F>, ys: seq<F>, k: nat)
    requires |xs| <= |ys|
  {
    forall m :: 0 <= m < |xs| ==> Eval(f, p, xs[m]) == if m < k then ys[m] else f.zero
  }

  lemma {:induction false} ZeroTakesNone<F(!new)>(f: Field<F>, p: Poly<F>, xs: seq<F>, ys: seq<F>)
    requires IsField(f) && AllZero(f, p) && |xs| <= |ys|
    ensures TakesValues(f, p, xs, ys, 0)
  {
    forall m | 0 <= m < |xs| ensures Eval(f, p, xs[m]) == f.zero {
      EvalZero(f, p, xs[m]);
    }
  }

  lemma {:induction false} OneMoreValue<F(!new)>(f: Field<F>, xs: seq<F>, ys: seq<F>, i: nat, before: Poly<F>, basis: Poly<F>, scale: F, after: Poly<F>)
    requires IsField(f) && DistinctPoints(xs) && i < |xs| <= |ys|
    requires TakesValues(f, before, xs, ys, i) && Accumulated(f, before, basis, scale, |basis|, after)
    requires forall t :: Eval(f, basis, t) == Product(f, Others(xs, i, |xs|), t)
    requires scale == f.mul(ys[i], f.inv(Product(f, Others(xs, i, |xs|), xs[i])))
    ensures TakesValues(f, after, xs, ys, i + 1)
  {
    forall m | 0 <= m < |xs| ensures Eval(f, after, xs[m]) == if m < i + 1 then ys[m] else f.zero {
      EvalAccumulated(f, before, basis, scale, after, xs[m]);
      InterpolationStep(f, xs, i, m, ys[i], Eval(f, before, xs[m]));
    }
  }

  /** Adding the scaled basis sets the value at point i and changes no other. */
  lemma {:induction false} InterpolationStep<F(!new)>(f: Field<F>, xs: seq<F>, i: nat, m: nat, y: F, before: F)
    requires IsField(f) && DistinctPoints(xs) && i < |xs| && m < |xs| && (m == i ==> before == f.zero)
    ensures var others := Others(xs, i, |xs|);
            f.add(before, f.mul(Product(f, others, xs[m]), f.mul(y, f.inv(Product(f, others, xs[i]))))) ==
            if m == i then y else before
  {
    var others := Others(xs, i, |xs|);
    OthersMembers(xs, i, m);
    ProductZero(f, others, xs[m]);
    var p := Product(f, others, xs[m]);
    if m == i {
      assert Laws(f, p, y, f.inv(p)) && Laws(f, y, p, f.inv(p)) && Laws(f, p, f.inv(p), y) && Laws(f, y, f.one, y);
      assert Laws(f, y, f.inv(p), p);
      MulZero(f, y);
    } else {
      MulZero(f, f.mul(y, f.inv(Product(f, others, xs[i]))));
      assert Laws(f, before, f.zero, f.zero);
    }
  }

  /** Values at as many distinct points as there are coefficients determine a polynomial, so that it does
      not matter which way the program interpolates. */
  lemma {:induction false} InterpolantUnique<F(!new)>(f: Field<F>, xs: seq<F>, p: Poly<F>, q: Poly<F>)
    requires IsField(f) && DistinctPoints(xs) && |p| == |q| <= |xs|
    requires forall m :: 0 <= m < |xs| ==> Eval(f, p, xs[m]) == Eval(f, q, xs[m])
    ensures p == q
  {
    var d := seq(|p|, i requires 0 <= i < |p| => f.sub(p[i], q[i]));
    forall m | 0 <= m < |xs| ensures Eval(f, d, xs[m]) == f.zero {
      EvalDifference(f, p, q, d, xs[m]);
      SubZero(f, Eval(f, p, xs[m]), Eval(f, q, xs[m]));
    }
    TooManyRoots(f, d, xs);
    forall i | 0 <= i < |p| ensures p[i] == q[i] {
      SubZero(f, p[i], q[i]);
      assert d[i] == f.zero;
    }
  }

  // ----- the derivative

  /** n ones added up. */
  function Natural<F(!new)>(f: Field<F>, n: nat): F {
    if n == 0 then f.zero else f.add(Natural(f, n - 1), f.one)
  }

  /** Coefficient i times k + i. */
  function Weighted<F(!new)>(f: Field<F>, p: Poly<F>, k: nat): (w: Poly<F>)
    ensures |w| == |p|
  {
    if p == [] then [] else [f.mul(p[0], Natural(f, k))] + Weighted(f, p[1..], k + 1)
  }

  lemma {:induction false} WeightedAt<F(!new)>(f: Field<F>, p: Poly<F>, k: nat, i: nat)
    requires i < |p|
    ensures Weighted(f, p, k)[i] == f.mul(p[i], Natural(f, k + i))
  {
    if i > 0 {
      WeightedAt(f, p[1..], k + 1, i - 1);
    }
  }

  function Derivative<F(!new)>(f: Field<F>, p: Poly<F>): Poly<F>
    requires p != []
  {
    Weighted(f, p[1..], 1)
  }

  lemma {:induction false} WeightedNext<F(!new)>(f: Field<F>, p: Poly<F>, k: nat, x: F)
    requires IsField(f)
    ensures Eval(f, Weighted(f, p, k + 1), x) == f.add(Eval(f, p, x), Eval(f, Weighted(f, p, k), x))
  {
    if p == [] {
      MulZero(f, f.zero);
    } else {
      WeightedNext(f, p[1..], k + 1, x);
      WeightedStep(f, p[0], Natural(f, k), x, Eval(f, p[1..], x), Eval(f, Weighted(f, p[1..], k + 1), x));
      assert Weighted(f, p, k)[1..] == Weighted(f, p[1..], k + 1);
      assert Weighted(f, p, k + 1)[1..] == Weighted(f, p[1..], k + 2);
    }
  }

  /** c (m + 1) + x (u + v) = (c + x u) + (c m + x v). */
  lemma {:induction false} WeightedStep<F(!new)>(f: Field<F>, c: F, m: F, x: F, u: F, v: F)
    requires IsField(f)
    ensures f.add(f.mul(c, f.add(m, f.one)), f.mul(x, f.add(u, v))) ==
            f.add(f.add(c, f.mul(x, u)), f.add(f.mul(c, m), f.mul(x, v)))
  {
    assert Laws(f, c, m, f.one) && Laws(f, x, u, v) && Laws(f, f.mul(c, m), c, c);
    Swap(f, c, f.mul(c, m), f.mul(x, u), f.mul(x, v));
  }

  /** The quotient by X - a takes at a the value of the derivative. */
  lemma {:induction false} DerivativeIsQuotient<F(!new)>(f: Field<F>, p: Poly<F>, a: F)
    requires IsField(f) && p != []
    ensures Eval(f, Derivative(f, p), a) == Eval(f, Synthetic(f, p, a), a)
  {
    var r := p[1..];
    if r != [] {
      DerivativeIsQuotient(f, r, a);
      WeightedNext(f, r, 0, a);
      assert Weighted(f, r, 0)[1..] == Derivative(f, r);
      MulZero(f, r[0]);
      MulZero(f, f.mul(a, Eval(f, Derivative(f, r), a)));
      assert Synthetic(f, p, a)[1..] == Synthetic(f, r, a);
    }
  }

  // ----- the Lagrange basis over the powers of a root of unity

  /** omega is a root of unity of order exactly n. */
  ghost predicate HasOrder<F(!new)>(f: Field<F>, omega: F, n: nat) {
    n > 0 && Power(f, omega, n) == f.one && forall k :: 0 < k < n ==> Power(f, omega, k) != f.one
  }

  function Powers<F(!new)>(f: Field<F>, omega: F, n: nat): (xs: seq<F>)
    ensures |xs| == n && forall i :: 0 <= i < n ==> xs[i] == Power(f, omega, i)
  {
    seq(n, i requires 0 <= i => Power(f, omega, i))
  }

  lemma {:induction false} PowerAdd<F(!new)>(f: Field<F>, x: F, i: nat, j: nat)
    requires IsField(f)
    ensures Power(f, x, i + j) == f.mul(Power(f, x, i), Power(f, x, j))
  {
    var y := Power(f, x, j);
    if i == 0 {
      assert Laws(f, y, f.one, y);
    } else {
      PowerAdd(f, x, i - 1, j);
      assert Laws(f, x, Power(f, x, i - 1), y);
    }
  }

  lemma {:induction false} PowersDistinct<F(!new)>(f: Field<F>, omega: F, n: nat)
    requires IsField(f) && HasOrder(f, omega, n)
    ensures DistinctPoints(Powers(f, omega, n))
  {
    forall i, j | 0 <= i < j < n ensures Power(f, omega, i) != Power(f, omega, j) {
      var y, z := Power(f, omega, i), Power(f, omega, j - i);
      PowerAdd(f, omega, i, j - i);
      PowerAdd(f, omega, i, n - i);
      MulZero(f, Power(f, omega, n - i));
      if y == f.mul(y, z) {
        assert Laws(f, y, z, f.neg(f.one)) && Laws(f, y, f.one, f.one);
        MulNeg(f, y, f.one);
        SubZero(f, y, y);
        NoZeroDivisors(f, y, f.sub(z, f.one));
        SubZero(f, z, f.one);
      }
    }
  }

  /** V divided by X - a_i vanishes at the other points and not at a_i. */
  lemma {:induction false} QuotientAtPoints<F(!new)>(f: Field<F>, xs: seq<F>, v: Poly<F>, i: nat)
    requires IsField(f) && DistinctPoints(xs) && i < |xs|
    requires |v| == |xs| + 1 && v[|xs|] == f.one && VanishesAt(f, v, xs)
    ensures forall j :: 0 <= j < |xs| && j != i ==> Eval(f, Synthetic(f, v, xs[i]), xs[j]) == f.zero
    ensures Eval(f, Synthetic(f, v, xs[i]), xs[i]) != f.zero
  {
    var q, n := Synthetic(f, v, xs[i]), |xs|;
    forall j | 0 <= j < n && j != i ensures Eval(f, q, xs[j]) == f.zero {
      assert xs[i] != xs[j];
      QuotientVanishes(f, v, xs[i], xs[j]);
    }
    if Eval(f, q, xs[i]) == f.zero {
      TooManyRoots(f, q, xs);
      SyntheticAt(f, v, xs[i], n - 1);
      assert v[n..] == [f.one];
      ConstantEval(f, f.one, xs[i]);
    }
  }

  method Differentiate<F(!new)>(f: Field<F>, p: Poly<F>) returns (d: Poly<F>)
    requires IsField(f) && p != []
    ensures d == Derivative(f, p)
  {
    var out := new F[|p| - 1](_ => f.zero);
    var iFr := f.zero;
    for i := 1 to |p|
      invariant iFr == Natural(f, i - 1)
      invariant forall j :: 0 <= j < i - 1 ==> out[j] == f.mul(p[j + 1], Natural(f, j + 1))
    {
      iFr := f.add(iFr, f.one);
      out[i - 1] := f.mul(p[i], iFr);
    }
    d := out[..];
    forall j | 0 <= j < |d| ensures d[j] == Derivative(f, p)[j] {
      WeightedAt(f, p[1..], 1, j);
    }
  }

  /** One at point i and zero at the others. */
  ghost predicate IsBasis<F(!new)>(f: Field<F>, xs: seq<F>, b: Poly<F>, i: nat) {
    |b| == |xs| && forall j :: 0 <= j < |xs| ==> Eval(f, b, xs[j]) == if i == j then f.one else f.zero
  }

  ghost predicate AreBases<F(!new)>(f: Field<F>, xs: seq<F>, bases: seq<Poly<F>>) {
    forall i :: 0 <= i < |bases| ==> IsBasis(f, xs, bases[i], i)
  }

  /** The polynomials whose commitments are stored as weight commitments (PrecomputeBarycentricCommits):
      the quotients of V by X - omega^i, divided by the derivative of V there, are the Lagrange basis. */
  method LagrangeBasis<F(!new)>(f: Field<F>, omega: F, n: nat) returns (bases: seq<Poly<F>>)
    requires IsField(f) && HasOrder(f, omega, n)
    ensures |bases| == n && AreBases(f, Powers(f, omega, n), bases)
  {
    var xs := Powers(f, omega, n);
    PowersDistinct(f, omega, n);
    var v := VanishingPolynomial(f, xs);
    assert VanishesAt(f, v, xs) by {
      forall k | 0 <= k < n ensures Eval(f, v, xs[k]) == f.zero {
        assert xs[k] in xs;
      }
    }
    var vPrime := Differentiate(f, v);
    bases := [];
    for i := 0 to n
      invariant |bases| == i && AreBases(f, xs, bases)
    {
      var weight := f.inv(Eval(f, vPrime, xs[i]));
      var quot := new F[n](_ => f.zero);
      SyntheticDivide(f, v, xs[i], quot);
      var q := quot[..];
      var b := ScaleInPlace(f, quot, weight);
      forall j | 0 <= j < n ensures Eval(f, b, xs[j]) == if i == j then f.one else f.zero {
        EvalScaled(f, q, b, weight, xs[j]);
        QuotientAtPoints(f, xs, v, i);
        DerivativeIsQuotient(f, v, xs[i]);
        MulZero(f, weight);
        assert Laws(f, Eval(f, q, xs[i]), f.zero, f.zero);
      }
      assert IsBasis(f, xs, b, i);
      bases := bases + [b];
    }
  }

  method ScaleInPlace<F(!new)>(f: Field<F>, quot: array<F>, w: F) returns (b: Poly<F>)
    modifies quot
    ensures |b| == quot.Length && forall k :: 0 <= k < |b| ==> b[k] == f.mul(old(quot[k]), w)
  {
    for k := 0 to quot.Length
      invariant forall j :: 0 <= j < quot.Length ==> quot[j] == if j < k then f.mul(old(quot[j]), w) else old(quot[j])
    {
      quot[k] := f.mul(quot[k], w);
    }
    b := quot[..];
  }

  lemma {:induction false} EvalScaled<F(!new)>(f: Field<F>, p: Poly<F>, b: Poly<F>, w: F, x: F)
    requires IsField(f) && |b| == |p| && forall k :: 0 <= k < |b| ==> b[k] == f.mul(p[k], w)
    ensures Eval(f, b, x) == f.mul(Eval(f, p, x), w)
  {
    if p == [] {
      MulZero(f, w);
    } else {
      EvalScaled(f, p[1..], b[1..], w, x);
      var s := Eval(f, p[1..], x);
      assert Laws(f, x, s, w);
      Factor(f, p[0], f.mul(x, s), w);
    }
  }

  // ----- a combination of the basis is the interpolating polynomial

  function AddScaled<F(!new)>(f: Field<F>, p: Poly<F>, b: Poly<F>, s: F): (r: Poly<F>)
    requires |p| == |b|
    ensures |r| == |p|
  {
    seq(|p|, i requires 0 <= i < |p| => f.add(p[i], f.mul(b[i], s)))
  }

  /** The sum of values[i] * bases[i]. */
  function Combination<F(!new)>(f: Field<F>, bases: seq<Poly<F>>, values: seq<F>, n: nat): (r: Poly<F>)
    requires |bases| == |values| && forall i :: 0 <= i < |bases| ==> |bases[i]| == n
    ensures |r| == n
  {
    var k := |bases| - 1;
    if bases == [] then Zeros(f, n) else AddScaled(f, Combination(f, bases[..k], values[..k], n), bases[k], values[k])
  }

  lemma {:induction false} CombinationAt<F(!new)>(f: Field<F>, xs: seq<F>, bases: seq<Poly<F>>, values: seq<F>, j: nat)
    requires IsField(f) && |bases| == |values| && AreBases(f, xs, bases) && j < |xs|
    requires forall i :: 0 <= i < |bases| ==> |bases[i]| == |xs|
    ensures Eval(f, Combination(f, bases, values, |xs|), xs[j]) == if j < |bases| then values[j] else f.zero
  {
    if bases == [] {
      EvalZero(f, Zeros(f, |xs|), xs[j]);
    } else {
      var k := |bases| - 1;
      var before := Combination(f, bases[..k], values[..k], |xs|);
      assert AreBases(f, xs, bases[..k]);
      CombinationAt(f, xs, bases[..k], values[..k], j);
      EvalAccumulated(f, before, bases[k], values[k], Combination(f, bases, values, |xs|), xs[j]);
      assert IsBasis(f, xs, bases[k], k);
      MulZero(f, values[k]);
      assert Laws(f, values[k], f.one, f.one) && Laws(f, Eval(f, before, xs[j]), f.zero, f.zero);
    }
  }

  /** Adding up values times weight commitments commits to the polynomial that takes these values at the
      powers of omega: it is the one that any interpolation of them gives. */
  lemma {:induction false} CombinationInterpolates<F(!new)>(f: Field<F>, omega: F, bases: seq<Poly<F>>, values: seq<F>, p: Poly<F>)
    requires IsField(f) && HasOrder(f, omega, |values|) && |bases| == |values| == |p|
    requires AreBases(f, Powers(f, omega, |values|), bases)
    requires forall j :: 0 <= j < |values| ==> Eval(f, p, Powers(f, omega, |values|)[j]) == values[j]
    ensures forall i :: 0 <= i < |bases| ==> |bases[i]| == |values|
    ensures Combination(f, bases, values, |values|) == p
  {
    var xs := Powers(f, omega, |values|);
    forall i | 0 <= i < |bases| ensures |bases[i]| == |values| {
      assert IsBasis(f, xs, bases[i], i);
    }
    forall j | 0 <= j < |xs| ensures Eval(f, Combination(f, bases, values, |xs|), xs[j]) == values[j] {
      CombinationAt(f, xs, bases, values, j);
    }
    PowersDistinct(f, omega, |values|);
    InterpolantUnique(f, xs, Combination(f, bases, values, |values|), p);
  }
}
