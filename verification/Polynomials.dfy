/** Polynomials behind the openings, over any field (kzg/helpers.go, polynomial.go, barycentric4096.go). */
module Polynomials {
  import opened Fields

  /** Coefficients, lowest first. */
  type Poly<F> = seq<F>

  function Eval<F(!new)>(f: Field<F>, p: Poly<F>, x: F): F {
    if p == [] then f.zero else f.add(p[0], f.mul(x, Eval(f, p[1..], x)))
  }

  function Zeros<F(!new)>(f: Field<F>, n: nat): (p: Poly<F>)
    ensures |p| == n
  {
    seq(n, _ => f.zero)
  }

  ghost predicate AllZero<F(!new)>(f: Field<F>, p: Poly<F>) {
    forall i :: 0 <= i < |p| ==> p[i] == f.zero
  }

  lemma {:induction false} EvalZero<F(!new)>(f: Field<F>, p: Poly<F>, x: F)
    requires IsField(f) && AllZero(f, p)
    ensures Eval(f, p, x) == f.zero
  {
    if p != [] {
      EvalZero(f, p[1..], x);
      MulZero(f, x);
      MulZero(f, f.zero);
    }
  }

  /** Zero coefficients at the end do not matter. */
  lemma {:induction false} EvalPadded<F(!new)>(f: Field<F>, p: Poly<F>, z: Poly<F>, x: F)
    requires IsField(f) && AllZero(f, z)
    ensures Eval(f, p + z, x) == Eval(f, p, x)
  {
    if p == [] {
      assert p + z == z;
      EvalZero(f, z, x);
    } else {
      assert (p + z)[1..] == p[1..] + z;
      EvalPadded(f, p[1..], z, x);
    }
  }

  // ----- subtraction

  function At<F(!new)>(f: Field<F>, p: Poly<F>, i: nat): F {
    if i < |p| then p[i] else f.zero
  }

  method SubtractPolys<F(!new)>(f: Field<F>, a: Poly<F>, b: Poly<F>) returns (d: Poly<F>)
    requires IsField(f)
    ensures |d| == if |b| > |a| then |b| else |a|
    ensures forall i :: 0 <= i < |d| ==> d[i] == f.sub(At(f, a, i), At(f, b, i))
    ensures forall x :: Eval(f, d, x) == f.sub(Eval(f, a, x), Eval(f, b, x))
  {
    var n := if |b| > |a| then |b| else |a|;
    var out := new F[n](_ => f.zero);
    for i := 0 to n
      invariant forall j :: 0 <= j < i ==> out[j] == f.sub(At(f, a, j), At(f, b, j))
    {
      var ai := if i < |a| then a[i] else f.zero;
      var bi := if i < |b| then b[i] else f.zero;
      out[i] := f.sub(ai, bi);
    }
    d := out[..];
    forall x ensures Eval(f, d, x) == f.sub(Eval(f, a, x), Eval(f, b, x)) {
      EvalDifference(f, a + Zeros(f, n - |a|), b + Zeros(f, n - |b|), d, x);
      EvalPadded(f, a, Zeros(f, n - |a|), x);
      EvalPadded(f, b, Zeros(f, n - |b|), x);
    }
  }

  lemma {:induction false} EvalDifference<F(!new)>(f: Field<F>, a: Poly<F>, b: Poly<F>, d: Poly<F>, x: F)
    requires IsField(f) && |a| == |b| == |d| && forall i :: 0 <= i < |d| ==> d[i] == f.sub(a[i], b[i])
    ensures Eval(f, d, x) == f.sub(Eval(f, a, x), Eval(f, b, x))
  {
    if d == [] {
      assert Laws(f, f.zero, f.zero, f.zero);
    } else {
      EvalDifference(f, a[1..], b[1..], d[1..], x);
      DifferenceStep(f, a[0], b[0], x, Eval(f, a[1..], x), Eval(f, b[1..], x));
    }
  }

  lemma {:induction false} DifferenceStep<F(!new)>(f: Field<F>, a: F, b: F, x: F, s: F, t: F)
    requires IsField(f)
    ensures f.add(f.sub(a, b), f.mul(x, f.sub(s, t))) == f.sub(f.add(a, f.mul(x, s)), f.add(b, f.mul(x, t)))
  {
    assert Laws(f, x, s, f.neg(t));
    MulNeg(f, x, t);
    NegAdd(f, b, f.mul(x, t));
    Swap(f, a, f.neg(b), f.mul(x, s), f.neg(f.mul(x, t)));
  }

  // ----- multiplication by a linear factor

  /** p(X) * (X - a), coefficient by coefficient. */
  ghost predicate TimesLinear<F(!new)>(f: Field<F>, p: Poly<F>, a: F, r: Poly<F>) {
    && |r| == |p| + 1
    && forall i :: 0 <= i < |r| ==> r[i] == LinearCoefficient(f, p, a, i)
  }

  ghost function LinearCoefficient<F(!new)>(f: Field<F>, p: Poly<F>, a: F, i: nat): F {
    f.add(if i == 0 then f.zero else At(f, p, i - 1), f.neg(f.mul(At(f, p, i), a)))
  }

  /** Multiply by X - a (the inner loop of VanishingPolynomial). */
  method MultiplyLinear<F(!new)>(f: Field<F>, z: Poly<F>, x: F) returns (r: Poly<F>)
    requires IsField(f)
    ensures |r| == |z| + 1 && forall t :: Eval(f, r, t) == f.mul(f.sub(t, x), Eval(f, z, t))
    ensures z != [] ==> r[|z|] == z[|z| - 1]
  {
    var newZ := new F[|z| + 1](_ => f.zero);
    for i := 0 to |z|
      invariant forall j :: 0 <= j < i ==> newZ[j] == LinearCoefficient(f, z, x, j)
      invariant newZ[i] == if i == 0 then f.zero else z[i - 1]
      invariant forall j :: i < j <= |z| ==> newZ[j] == f.zero
    {
      MulZero(f, z[i]);
      newZ[i + 1] := f.add(newZ[i + 1], z[i]);
      var tmp := f.neg(f.mul(z[i], x));
      newZ[i] := f.add(newZ[i], tmp);
    }
    r := newZ[..];
    LastCoefficient(f, z, x);
    forall t ensures Eval(f, r, t) == f.mul(f.sub(t, x), Eval(f, z, t)) {
      EvalTimesLinear(f, z, x, r, t);
    }
  }

  lemma {:induction false} LastCoefficient<F(!new)>(f: Field<F>, z: Poly<F>, x: F)
    requires IsField(f)
    ensures LinearCoefficient(f, z, x, |z|) == if |z| == 0 then f.zero else z[|z| - 1]
  {
    var last := if |z| == 0 then f.zero else z[|z| - 1];
    MulZero(f, x);
    assert Laws(f, f.zero, f.zero, f.zero) && Laws(f, last, f.zero, f.zero);
    NegUnique(f, f.zero, f.zero);
  }

  /** Its values are those of p times t - a. */
  lemma {:induction false} EvalTimesLinear<F(!new)>(f: Field<F>, p: Poly<F>, a: F, r: Poly<F>, t: F)
    requires IsField(f) && TimesLinear(f, p, a, r)
    ensures Eval(f, r, t) == f.mul(f.sub(t, a), Eval(f, p, t))
  {
    EvalCarried(f, f.zero, p, a, r, t);
    MulZero(f, f.mul(f.sub(t, a), Eval(f, p, t)));
  }

  /** r is p(X) * (X - a) with the constant c carried in. */
  lemma {:induction false} EvalCarried<F(!new)>(f: Field<F>, c: F, p: Poly<F>, a: F, r: Poly<F>, t: F)
    requires IsField(f) && |r| == |p| + 1
    requires forall i :: 0 <= i < |r| ==> r[i] == f.add(if i == 0 then c else p[i - 1], f.neg(f.mul(At(f, p, i), a)))
    ensures Eval(f, r, t) == f.add(c, f.mul(f.sub(t, a), Eval(f, p, t)))
  {
    if p == [] {
      assert r[1..] == [];
      CarriedBase(f, c, a, t);
    } else {
      forall i | 0 <= i < |r[1..]|
        ensures r[1..][i] == f.add(if i == 0 then p[0] else p[1..][i - 1], f.neg(f.mul(At(f, p[1..], i), a)))
      {
        assert r[1..][i] == r[i + 1];
      }
      EvalCarried(f, p[0], p[1..], a, r[1..], t);
      CarriedStep(f, c, p[0], a, t, Eval(f, p[1..], t));
    }
  }

  lemma {:induction false} CarriedBase<F(!new)>(f: Field<F>, c: F, a: F, t: F)
    requires IsField(f)
    ensures f.add(f.add(c, f.neg(f.mul(f.zero, a))), f.mul(t, f.zero)) == f.add(c, f.mul(f.sub(t, a), f.zero))
  {
    MulZero(f, a);
    MulZero(f, t);
    MulZero(f, f.sub(t, a));
    assert Laws(f, f.zero, f.zero, f.zero) && Laws(f, c, f.zero, f.zero);
    NegUnique(f, f.zero, f.zero);
  }

  /** (c - p a) + t (p + (t - a) s) = c + (t - a) (p + t s). */
  lemma {:induction false} CarriedStep<F(!new)>(f: Field<F>, c: F, p: F, a: F, t: F, s: F)
    requires IsField(f)
    ensures f.add(f.add(c, f.neg(f.mul(p, a))), f.mul(t, f.add(p, f.mul(f.sub(t, a), s)))) ==
            f.add(c, f.mul(f.sub(t, a), f.add(p, f.mul(t, s))))
  {
    var d := f.sub(t, a);
    var u, v := f.mul(t, p), f.mul(t, f.mul(d, s));
    var w := f.neg(f.mul(p, a));
    // Left: (c + w) + (u + v).
    assert Laws(f, t, p, f.mul(d, s));
    // Right: c + ((u + w) + v).
    assert Laws(f, d, p, f.mul(t, s));
    Factor(f, t, a, p);
    assert Laws(f, a, p, p);
    assert f.mul(d, p) == f.add(u, w);
    assert Laws(f, d, t, s) && Laws(f, t, d, s);
    assert f.mul(d, f.mul(t, s)) == v;
    assert Laws(f, c, w, f.add(u, v)) && Laws(f, w, u, v) && Laws(f, u, w, v);
  }

  // ----- vanishing polynomials

  /** The product of t - xs[i]. */
  function Product<F(!new)>(f: Field<F>, xs: seq<F>, t: F): F {
    if xs == [] then f.one else f.mul(f.sub(t, xs[|xs| - 1]), Product(f, xs[..|xs| - 1], t))
  }

  /** The product vanishes exactly at the given points. */
  lemma {:induction false} ProductZero<F(!new)>(f: Field<F>, xs: seq<F>, t: F)
    requires IsField(f)
    ensures Product(f, xs, t) == f.zero <==> t in xs
  {
    if xs != [] {
      var last, before := xs[|xs| - 1], xs[..|xs| - 1];
      ProductZero(f, before, t);
      SubZero(f, t, last);
      MulZero(f, Product(f, before, t));
      MulZero(f, f.sub(t, last));
      if Product(f, xs, t) == f.zero && f.sub(t, last) != f.zero {
        NoZeroDivisors(f, f.sub(t, last), Product(f, before, t));
      }
      assert xs == before + [last];
    }
  }

  /** Z(X) = product of X - xs[i] (VanishingPolynomial); it vanishes at the points and nowhere else. */
  method VanishingPolynomial<F(!new)>(f: Field<F>, xs: seq<F>) returns (z: Poly<F>)
    requires IsField(f)
    ensures |z| == |xs| + 1 && z[|xs|] == f.one && forall t :: Eval(f, z, t) == Product(f, xs, t)
    ensures forall t :: Eval(f, z, t) == f.zero <==> t in xs
  {
    z := [f.one];
    forall t ensures Eval(f, z, t) == f.one {
      ConstantEval(f, f.one, t);
    }
    for i := 0 to |xs|
      invariant |z| == i + 1 && z[i] == f.one && forall t :: Eval(f, z, t) == Product(f, xs[..i], t)
    {
      ghost var before := z;
      z := MultiplyLinear(f, z, xs[i]);
      assert xs[..i + 1][..i] == xs[..i];
      forall t ensures Eval(f, z, t) == Product(f, xs[..i + 1], t) {
        assert Eval(f, before, t) == Product(f, xs[..i], t);
      }
    }
    assert xs[..|xs|] == xs;
    forall t ensures Eval(f, z, t) == f.zero <==> t in xs {
      ProductZero(f, xs, t);
    }
  }

  lemma {:induction false} ConstantEval<F(!new)>(f: Field<F>, c: F, t: F)
    requires IsField(f)
    ensures Eval(f, [c], t) == c
  {
    MulZero(f, t);
    assert Laws(f, c, f.zero, f.zero);
    assert [c][1..] == [];
  }

  // ----- synthetic division

  /** The quotient of p by X - a. */
  function Synthetic<F(!new)>(f: Field<F>, p: Poly<F>, a: F): (q: Poly<F>)
    ensures |q| == if |p| == 0 then 0 else |p| - 1
  {
    if |p| <= 1 then [] else [Eval(f, p[1..], a)] + Synthetic(f, p[1..], a)
  }

  lemma {:induction false} SyntheticAt<F(!new)>(f: Field<F>, p: Poly<F>, a: F, i: nat)
    requires i + 1 < |p|
    ensures Synthetic(f, p, a)[i] == Eval(f, p[i + 1..], a)
  {
    if i > 0 {
      SyntheticAt(f, p[1..], a, i - 1);
      assert p[1..][i..] == p[i + 1..];
    }
  }

  /** p(X) = quotient(X) * (X - a) + p(a). */
  lemma {:induction false} SyntheticIdentity<F(!new)>(f: Field<F>, p: Poly<F>, a: F, t: F)
    requires IsField(f) && p != []
    ensures Eval(f, p, t) == f.add(f.mul(f.sub(t, a), Eval(f, Synthetic(f, p, a), t)), Eval(f, p, a))
  {
    if |p| == 1 {
      assert p == [p[0]] && p[1..] == [];
      ConstantEval(f, p[0], t);
      ConstantEval(f, p[0], a);
      MulZero(f, f.sub(t, a));
      MulZero(f, p[0]);
    } else {
      SyntheticIdentity(f, p[1..], a, t);
      var e, s := Eval(f, p[1..], a), Eval(f, Synthetic(f, p[1..], a), t);
      assert Synthetic(f, p, a)[1..] == Synthetic(f, p[1..], a);
      SyntheticStep(f, p[0], a, t, e, s);
    }
  }

  /** c + t ((t - a) s + e) = (t - a) (e + t s) + (c + a e). */
  lemma {:induction false} SyntheticStep<F(!new)>(f: Field<F>, c: F, a: F, t: F, e: F, s: F)
    requires IsField(f)
    ensures f.add(c, f.mul(t, f.add(f.mul(f.sub(t, a), s), e))) ==
            f.add(f.mul(f.sub(t, a), f.add(e, f.mul(t, s))), f.add(c, f.mul(a, e)))
  {
    var d := f.sub(t, a);
    CarriedStep(f, f.add(c, f.mul(a, e)), e, a, t, s);
    // CarriedStep's left side: ((c + a e) - e a) + t (e + d s).
    assert Laws(f, e, a, a) && Laws(f, e, f.mul(d, s), e);
    AddSub(f, c, f.mul(a, e));
    assert Laws(f, f.add(c, f.mul(a, e)), f.mul(d, f.add(e, f.mul(t, s))), c);
  }

  method SyntheticDivide<F(!new)>(f: Field<F>, p: Poly<F>, a: F, quot: array<F>)
    requires IsField(f) && |p| >= 2 && quot.Length == |p| - 1
    modifies quot
    ensures quot[..] == Synthetic(f, p, a)
  {
    var deg := |p| - 1;
    quot[deg - 1] := p[deg];
    assert p[deg..] == [p[deg]];
    ConstantEval(f, p[deg], a);
    for i := deg - 1 downto 0
      invariant forall k :: i <= k < deg ==> quot[k] == Eval(f, p[k + 1..], a)
    {
      var tmp := f.mul(quot[i + 1], a);
      assert p[i + 1..][0] == p[i + 1] && p[i + 1..][1..] == p[i + 2..];
      assert Laws(f, quot[i + 1], a, a);
      quot[i] := f.add(p[i + 1], tmp);
    }
    forall k | 0 <= k < deg ensures quot[k] == Synthetic(f, p, a)[k] {
      SyntheticAt(f, p, a, k);
    }
  }

  // ----- a polynomial with too many roots is zero

  predicate DistinctPoints<F(==)>(xs: seq<F>) {
    forall i, j :: 0 <= i < j < |xs| ==> xs[i] != xs[j]
  }

  ghost predicate VanishesAt<F(!new)>(f: Field<F>, p: Poly<F>, xs: seq<F>) {
    forall i :: 0 <= i < |xs| ==> Eval(f, p, xs[i]) == f.zero
  }

  lemma {:induction false} QuotientVanishes<F(!new)>(f: Field<F>, p: Poly<F>, a: F, b: F)
    requires IsField(f) && p != [] && a != b && Eval(f, p, a) == f.zero && Eval(f, p, b) == f.zero
    ensures Eval(f, Synthetic(f, p, a), b) == f.zero
  {
    var q := Eval(f, Synthetic(f, p, a), b);
    SyntheticIdentity(f, p, a, b);
    assert Laws(f, f.mul(f.sub(b, a), q), f.zero, f.zero);
    SubZero(f, b, a);
    NoZeroDivisors(f, f.sub(b, a), q);
  }

  /** With a zero quotient and a zero remainder, a polynomial is zero. */
  lemma {:induction false} ZeroQuotient<F(!new)>(f: Field<F>, p: Poly<F>, a: F)
    requires IsField(f) && p != [] && AllZero(f, Synthetic(f, p, a)) && Eval(f, p, a) == f.zero
    ensures AllZero(f, p)
  {
    MulZero(f, a);
    if |p| == 1 {
      assert p == [p[0]];
      ConstantEval(f, p[0], a);
    } else {
      var q := Synthetic(f, p, a);
      assert q[0] == Eval(f, p[1..], a) == f.zero;
      assert q[1..] == Synthetic(f, p[1..], a);
      assert forall i :: 0 <= i < |q[1..]| ==> q[1..][i] == q[i + 1];
      ZeroQuotient(f, p[1..], a);
      assert Laws(f, p[0], f.zero, f.zero);
      forall i | 0 <= i < |p| ensures p[i] == f.zero {
        if i > 0 {
          assert p[i] == p[1..][i - 1];
        }
      }
    }
  }

  /** A polynomial with no more coefficients than it has distinct roots is zero. */
  lemma {:induction false} TooManyRoots<F(!new)>(f: Field<F>, p: Poly<F>, xs: seq<F>)
    requires IsField(f) && |p| <= |xs| && DistinctPoints(xs) && VanishesAt(f, p, xs)
    ensures AllZero(f, p)
    decreases |xs|
  {
    if p != [] {
      var a, rest := xs[0], xs[1..];
      forall i | 0 <= i < |rest| ensures Eval(f, Synthetic(f, p, a), rest[i]) == f.zero {
        assert rest[i] == xs[i + 1];
        QuotientVanishes(f, p, a, rest[i]);
      }
      TooManyRoots(f, Synthetic(f, p, a), rest);
      ZeroQuotient(f, p, a);
    }
  }
}
