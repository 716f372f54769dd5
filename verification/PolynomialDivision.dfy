/** Division of polynomials and the witness of an opening (kzg/helpers.go, proof.go). */
module PolynomialDivision {
  import opened Fields
  import opened Polynomials

  /** rem with coeff * X^k times the first j coefficients of denom subtracted. */
  ghost predicate Subtracted<F(!new)>(f: Field<F>, before: Poly<F>, coeff: F, denom: Poly<F>, k: nat, j: nat, after: Poly<F>) {
    && |before| == |after| && j <= |denom| && k + |denom| <= |before|
    && forall i :: 0 <= i < |before| ==>
         after[i] == if k <= i < k + j then f.sub(before[i], f.mul(coeff, denom[i - k])) else before[i]
  }

  lemma {:induction false} EvalSubtracted<F(!new)>(f: Field<F>, before: Poly<F>, coeff: F, denom: Poly<F>, k: nat, after: Poly<F>, x: F)
    requires IsField(f) && Subtracted(f, before, coeff, denom, k, |denom|, after)
    ensures Eval(f, after, x) == f.sub(Eval(f, before, x), f.mul(f.mul(coeff, Power(f, x, k)), Eval(f, denom, x)))
    decreases k, |denom|
  {
    if k > 0 {
      assert Subtracted(f, before[1..], coeff, denom, k - 1, |denom|, after[1..]);
      EvalSubtracted(f, before[1..], coeff, denom, k - 1, after[1..], x);
      ShiftStep(f, before[0], x, Eval(f, before[1..], x), coeff, Power(f, x, k - 1), Eval(f, denom, x));
    } else if denom == [] {
      assert before == after;
      MulZero(f, f.mul(coeff, f.one));
      assert Laws(f, Eval(f, before, x), f.zero, f.zero) && Laws(f, f.zero, f.zero, f.zero);
      NegUnique(f, f.zero, f.zero);
    } else {
      assert Subtracted(f, before[1..], coeff, denom[1..], 0, |denom| - 1, after[1..]);
      EvalSubtracted(f, before[1..], coeff, denom[1..], 0, after[1..], x);
      PrefixStep(f, before[0], x, Eval(f, before[1..], x), coeff, denom[0], Eval(f, denom[1..], x));
    }
  }

  /** b + x (s - (c y) d) = (b + x s) - (c (x y)) d. */
  lemma {:induction false} ShiftStep<F(!new)>(f: Field<F>, b: F, x: F, s: F, c: F, y: F, d: F)
    requires IsField(f)
    ensures f.add(b, f.mul(x, f.sub(s, f.mul(f.mul(c, y), d)))) ==
            f.sub(f.add(b, f.mul(x, s)), f.mul(f.mul(c, f.mul(x, y)), d))
  {
    var m := f.mul(f.mul(c, y), d);
    assert Laws(f, x, s, f.neg(m));
    MulNeg(f, x, m);
    assert Laws(f, x, f.mul(c, y), d) && Laws(f, c, x, y) && Laws(f, x, c, y);
    assert Laws(f, b, f.mul(x, s), f.neg(f.mul(x, m)));
  }

  /** (b - c d) + x (s - (c 1) e) = (b + x s) - (c 1) (d + x e). */
  lemma {:induction false} PrefixStep<F(!new)>(f: Field<F>, b: F, x: F, s: F, c: F, d: F, e: F)
    requires IsField(f)
    ensures f.add(f.sub(b, f.mul(c, d)), f.mul(x, f.sub(s, f.mul(f.mul(c, f.one), e)))) ==
            f.sub(f.add(b, f.mul(x, s)), f.mul(f.mul(c, f.one), f.add(d, f.mul(x, e))))
  {
    assert Laws(f, c, d, f.mul(x, e)) && Laws(f, c, x, e) && Laws(f, x, c, e);
    DifferenceStep(f, b, f.mul(c, d), x, s, f.mul(c, e));
  }

  /** Setting a zero coefficient. */
  lemma {:induction false} EvalSet<F(!new)>(f: Field<F>, q: Poly<F>, k: nat, c: F, x: F)
    requires IsField(f) && k < |q| && q[k] == f.zero
    ensures Eval(f, q[k := c], x) == f.add(Eval(f, q, x), f.mul(c, Power(f, x, k)))
  {
    if k == 0 {
      assert q[0 := c][1..] == q[1..];
      var s := f.mul(x, Eval(f, q[1..], x));
      MulZero(f, s);
      assert Laws(f, c, s, s) && Laws(f, c, f.one, f.one);
    } else {
      assert q[k := c][1..] == q[1..][k - 1 := c];
      EvalSet(f, q[1..], k - 1, c, x);
      var s, y := Eval(f, q[1..], x), Power(f, x, k - 1);
      assert Laws(f, x, s, f.mul(c, y)) && Laws(f, x, c, y) && Laws(f, c, x, y);
      assert Laws(f, q[0], f.mul(x, s), f.mul(x, f.mul(c, y)));
    }
  }

  /** (q + c y) d + (r - (c y) d) = q d + r. */
  lemma {:induction false} DivisionStep<F(!new)>(f: Field<F>, q: F, m: F, d: F, r: F)
    requires IsField(f)
    ensures f.add(f.mul(f.add(q, m), d), f.sub(r, f.mul(m, d))) == f.add(f.mul(q, d), r)
  {
    var md := f.mul(m, d);
    Factor(f, q, m, d);
    Swap(f, f.mul(q, d), md, r, f.neg(md));
    assert Laws(f, md, f.neg(md), f.zero) && Laws(f, f.add(f.mul(q, d), r), f.zero, f.zero);
  }

  /** Division identity at every point: num = q * denom + rem. */
  ghost predicate DividesTo<F(!new)>(f: Field<F>, num: Poly<F>, denom: Poly<F>, q: Poly<F>, rem: Poly<F>) {
    forall x :: DividesAt(f, num, denom, q, rem, x)
  }

  ghost predicate DividesAt<F(!new)>(f: Field<F>, num: Poly<F>, denom: Poly<F>, q: Poly<F>, rem: Poly<F>, x: F) {
    Eval(f, num, x) == f.add(f.mul(Eval(f, q, x), Eval(f, denom, x)), Eval(f, rem, x))
  }

  lemma {:induction false} DividesStep<F(!new)>(f: Field<F>, num: Poly<F>, denom: Poly<F>, q: Poly<F>, rem: Poly<F>,
      k: nat, c: F, q': Poly<F>, rem': Poly<F>)
    requires IsField(f) && DividesTo(f, num, denom, q, rem) && k < |q| && q[k] == f.zero && q' == q[k := c]
    requires Subtracted(f, rem, c, denom, k, |denom|, rem')
    ensures DividesTo(f, num, denom, q', rem')
  {
    forall x ensures DividesAt(f, num, denom, q', rem', x) {
      assert DividesAt(f, num, denom, q, rem, x);
      EvalSet(f, q, k, c, x);
      EvalSubtracted(f, rem, c, denom, k, rem', x);
      DivisionStep(f, Eval(f, q, x), f.mul(c, Power(f, x, k)), Eval(f, denom, x), Eval(f, rem, x));
    }
  }

  lemma {:induction false} DividesStart<F(!new)>(f: Field<F>, num: Poly<F>, denom: Poly<F>, q: Poly<F>, rem: Poly<F>)
    requires IsField(f) && AllZero(f, q) && rem == num
    ensures DividesTo(f, num, denom, q, rem)
  {
    forall x ensures DividesAt(f, num, denom, q, rem, x) {
      EvalZero(f, q, x);
      MulZero(f, Eval(f, denom, x));
      MulZero(f, Eval(f, num, x));
    }
  }

  // ----- the identity coefficient by coefficient

  function AtOrZero<F(!new)>(f: Field<F>, p: Poly<F>, i: int): F {
    if i < 0 then f.zero else At(f, p, i)
  }

  /** Coefficient i of the product of two polynomials. */
  function ProductAt<F(!new)>(f: Field<F>, q: Poly<F>, d: Poly<F>, i: int): F {
    if q == [] || i < 0 then f.zero else f.add(f.mul(q[0], At(f, d, i)), ProductAt(f, q[1..], d, i - 1))
  }

  /** num = q * denom + rem as polynomials. */
  ghost predicate Divides<F(!new)>(f: Field<F>, num: Poly<F>, denom: Poly<F>, q: Poly<F>, rem: Poly<F>) {
    forall i: nat :: CoefficientDivides(f, num, denom, q, rem, i)
  }

  ghost predicate CoefficientDivides<F(!new)>(f: Field<F>, num: Poly<F>, denom: Poly<F>, q: Poly<F>, rem: Poly<F>, i: nat) {
    At(f, num, i) == f.add(ProductAt(f, q, denom, i), At(f, rem, i))
  }

  lemma {:induction false} ProductOfZero<F(!new)>(f: Field<F>, q: Poly<F>, d: Poly<F>, i: int)
    requires IsField(f) && AllZero(f, q)
    ensures ProductAt(f, q, d, i) == f.zero
  {
    if q != [] && i >= 0 {
      ProductOfZero(f, q[1..], d, i - 1);
      MulZero(f, At(f, d, i));
      MulZero(f, f.zero);
    }
  }

  /** Setting a zero coefficient c * X^k of q adds c * X^k * d to the product. */
  lemma {:induction false} ProductSet<F(!new)>(f: Field<F>, q: Poly<F>, k: nat, c: F, d: Poly<F>, i: int)
    requires IsField(f) && k < |q| && q[k] == f.zero
    ensures ProductAt(f, q[k := c], d, i) == f.add(ProductAt(f, q, d, i), f.mul(c, AtOrZero(f, d, i - k)))
    decreases k
  {
    MulZero(f, c);
    MulZero(f, f.zero);
    if i >= 0 {
      var di := At(f, d, i);
      if k == 0 {
        assert q[0 := c][1..] == q[1..];
        var s := ProductAt(f, q[1..], d, i - 1);
        MulZero(f, di);
        MulZero(f, s);
        assert Laws(f, f.mul(c, di), s, s);
      } else {
        assert q[k := c][1..] == q[1..][k - 1 := c];
        ProductSet(f, q[1..], k - 1, c, d, i - 1);
        assert Laws(f, f.mul(q[0], di), ProductAt(f, q[1..], d, i - 1), f.mul(c, AtOrZero(f, d, i - k)));
      }
    }
  }

  lemma {:induction false} SubtractedAt<F(!new)>(f: Field<F>, rem: Poly<F>, c: F, denom: Poly<F>, k: nat, rem': Poly<F>, i: nat)
    requires IsField(f) && Subtracted(f, rem, c, denom, k, |denom|, rem')
    ensures At(f, rem', i) == f.sub(At(f, rem, i), f.mul(c, AtOrZero(f, denom, i - k)))
  {
    var r := At(f, rem, i);
    MulZero(f, c);
    assert Laws(f, f.zero, f.zero, f.zero) && Laws(f, r, f.zero, f.zero);
    NegUnique(f, f.zero, f.zero);
  }

  /** (p + m) + (r - m) = p + r. */
  lemma {:induction false} MoveOver<F(!new)>(f: Field<F>, p: F, m: F, r: F)
    requires IsField(f)
    ensures f.add(f.add(p, m), f.sub(r, m)) == f.add(p, r)
  {
    Swap(f, p, m, r, f.neg(m));
    assert Laws(f, m, f.neg(m), f.zero) && Laws(f, f.add(p, r), f.zero, f.zero);
  }

  lemma {:induction false} CoefficientsStep<F(!new)>(f: Field<F>, num: Poly<F>, denom: Poly<F>, q: Poly<F>, rem: Poly<F>,
      k: nat, c: F, q': Poly<F>, rem': Poly<F>)
    requires IsField(f) && Divides(f, num, denom, q, rem) && k < |q| && q[k] == f.zero && q' == q[k := c]
    requires Subtracted(f, rem, c, denom, k, |denom|, rem')
    ensures Divides(f, num, denom, q', rem')
  {
    forall i: nat ensures CoefficientDivides(f, num, denom, q', rem', i) {
      assert CoefficientDivides(f, num, denom, q, rem, i);
      ProductSet(f, q, k, c, denom, i);
      SubtractedAt(f, rem, c, denom, k, rem', i);
      MoveOver(f, ProductAt(f, q, denom, i), f.mul(c, AtOrZero(f, denom, i - k)), At(f, rem, i));
    }
  }

  lemma {:induction false} CoefficientsStart<F(!new)>(f: Field<F>, num: Poly<F>, denom: Poly<F>, q: Poly<F>, rem: Poly<F>)
    requires IsField(f) && AllZero(f, q) && rem == num
    ensures Divides(f, num, denom, q, rem)
  {
    forall i: nat ensures CoefficientDivides(f, num, denom, q, rem, i) {
      ProductOfZero(f, q, denom, i);
      MulZero(f, At(f, num, i));
    }
  }

  // ----- the division

  /** One round of PolyDiv: subtract coeff * X^k * denom from the remainder in place. */
  method SubtractShifted<F(!new)>(f: Field<F>, rem: array<F>, coeff: F, denom: Poly<F>, k: nat)
    requires k + |denom| <= rem.Length
    modifies rem
    ensures Subtracted(f, old(rem[..]), coeff, denom, k, |denom|, rem[..])
  {
    for j := 0 to |denom|
      invariant Subtracted(f, old(rem[..]), coeff, denom, k, j, rem[..])
    {
      var tmp := f.mul(coeff, denom[j]);
      rem[k + j] := f.sub(rem[k + j], tmp);
    }
  }

  /** The leading coefficient is removed. */
  lemma {:induction false} LeadRemoved<F(!new)>(f: Field<F>, r: F, lead: F)
    requires IsField(f) && lead != f.zero
    ensures f.sub(r, f.mul(f.mul(r, f.inv(lead)), lead)) == f.zero
  {
    assert Laws(f, r, f.inv(lead), lead) && Laws(f, lead, f.inv(lead), f.zero) && Laws(f, r, f.one, f.one);
    SubZero(f, r, r);
  }

  /** No term of degree i or more. */
  ghost predicate Below<F(!new)>(f: Field<F>, p: Poly<F>, i: nat) {
    forall j :: i <= j < |p| ==> p[j] == f.zero
  }

  /** The first k coefficients are still to be found. */
  ghost predicate Pending<F(!new)>(f: Field<F>, q: Poly<F>, k: nat) {
    forall j :: 0 <= j < k && j < |q| ==> q[j] == f.zero
  }

  lemma {:induction false} DegreeDrops<F(!new)>(f: Field<F>, denom: Poly<F>, rem: Poly<F>, i: nat, coeff: F, rem': Poly<F>)
    requires IsField(f) && 0 < |denom| <= i + 1 <= |rem| && denom[|denom| - 1] != f.zero
    requires Below(f, rem, i + 1) && coeff == f.mul(rem[i], f.inv(denom[|denom| - 1]))
    requires Subtracted(f, rem, coeff, denom, i + 1 - |denom|, |denom|, rem')
    ensures Below(f, rem', i)
  {
    LeadRemoved(f, rem[i], denom[|denom| - 1]);
    assert rem'[i] == f.zero;
  }

  /** Schoolbook division (PolyDiv): num = q * denom + rem, and rem is shorter than denom when the
      leading coefficient of denom is not zero. */
  method PolyDiv<F(!new)>(f: Field<F>, num: Poly<F>, denom: Poly<F>) returns (q: Poly<F>, ghost remainder: Poly<F>)
    requires IsField(f) && 0 < |denom| <= |num| + 1
    ensures |q| == |num| + 1 - |denom| && |remainder| == |num|
    ensures Divides(f, num, denom, q, remainder) && DividesTo(f, num, denom, q, remainder)
    ensures denom[|denom| - 1] != f.zero ==> Below(f, remainder, |denom| - 1)
  {
    var d := |denom| - 1;
    var rem := new F[|num|](i requires 0 <= i < |num| => num[i]);
    q := Zeros(f, |num| - d);
    var invLead := f.inv(denom[d]);
    DividesStart(f, num, denom, q, rem[..]);
    CoefficientsStart(f, num, denom, q, rem[..]);
    for i := |num| downto d
      invariant |q| == |num| - d && Pending(f, q, i - d)
      invariant Divides(f, num, denom, q, rem[..]) && DividesTo(f, num, denom, q, rem[..])
      invariant denom[d] != f.zero ==> Below(f, rem[..], i)
    {
      q := DivisionRound(f, num, denom, q, rem, i, invLead);
    }
    remainder := rem[..];
  }

  /** One round: a coefficient of the quotient is set and its multiple of denom subtracted in place. */
  method DivisionRound<F(!new)>(f: Field<F>, ghost num: Poly<F>, denom: Poly<F>, q: Poly<F>, rem: array<F>, i: nat, invLead: F)
    returns (q': Poly<F>)
    requires IsField(f) && 0 < |denom| <= i + 1 <= rem.Length && |q| == rem.Length + 1 - |denom|
    requires invLead == f.inv(denom[|denom| - 1])
    requires Pending(f, q, i + 2 - |denom|)
    requires Divides(f, num, denom, q, rem[..]) && DividesTo(f, num, denom, q, rem[..])
    modifies rem
    ensures |q'| == |q| && Pending(f, q', i + 1 - |denom|)
    ensures Divides(f, num, denom, q', rem[..]) && DividesTo(f, num, denom, q', rem[..])
    ensures denom[|denom| - 1] != f.zero && Below(f, old(rem[..]), i + 1) ==> Below(f, rem[..], i)
  {
    var k := i + 1 - |denom|;
    ghost var before := rem[..];
    var coeff := f.mul(rem[i], invLead);
    q' := q[k := coeff];
    SubtractShifted(f, rem, coeff, denom, k);
    DividesStep(f, num, denom, q, before, k, coeff, q', rem[..]);
    CoefficientsStep(f, num, denom, q, before, k, coeff, q', rem[..]);
    if denom[|denom| - 1] != f.zero && Below(f, before, i + 1) {
      DegreeDrops(f, denom, before, i, coeff, rem[..]);
    }
  }

  // ----- the opening identity

  /** The two polynomials agree at the points. */
  ghost predicate AgreeAt<F(!new)>(f: Field<F>, p: Poly<F>, i: Poly<F>, xs: seq<F>) {
    forall k :: 0 <= k < |xs| ==> Eval(f, p, xs[k]) == Eval(f, i, xs[k])
  }

  /** p - i = q * z, at every point. */
  ghost predicate QuotientOf<F(!new)>(f: Field<F>, p: Poly<F>, i: Poly<F>, z: Poly<F>, q: Poly<F>) {
    forall t :: OpensAt(f, p, i, z, q, t)
  }

  ghost predicate OpensAt<F(!new)>(f: Field<F>, p: Poly<F>, i: Poly<F>, z: Poly<F>, q: Poly<F>, t: F) {
    f.sub(Eval(f, p, t), Eval(f, i, t)) == f.mul(Eval(f, q, t), Eval(f, z, t))
  }

  /** A remainder that is shorter than the vanishing polynomial vanishes with the dividend at as many
      points as it has coefficients, and so it is zero. */
  lemma {:induction false} RemainderZero<F(!new)>(f: Field<F>, num: Poly<F>, xs: seq<F>, z: Poly<F>, q: Poly<F>, rem: Poly<F>)
    requires IsField(f) && DistinctPoints(xs) && VanishesAt(f, num, xs) && VanishesAt(f, z, xs)
    requires DividesTo(f, num, z, q, rem) && |xs| <= |rem| && Below(f, rem, |xs|)
    ensures AllZero(f, rem)
  {
    var low, high := rem[..|xs|], rem[|xs|..];
    assert rem == low + high;
    forall i | 0 <= i < |xs| ensures Eval(f, low, xs[i]) == f.zero {
      assert DividesAt(f, num, z, q, rem, xs[i]);
      EvalPadded(f, low, high, xs[i]);
      MulZero(f, Eval(f, q, xs[i]));
      MulZero(f, Eval(f, rem, xs[i]));
    }
    TooManyRoots(f, low, xs);
    forall i | 0 <= i < |rem| ensures rem[i] == f.zero {
      if i < |xs| {
        assert rem[i] == low[i];
      }
    }
  }

  /** The division is exact: num = q * z, coefficient by coefficient and at every point. */
  lemma {:induction false} ExactQuotient<F(!new)>(f: Field<F>, num: Poly<F>, xs: seq<F>, z: Poly<F>, q: Poly<F>, rem: Poly<F>)
    requires IsField(f) && DistinctPoints(xs) && VanishesAt(f, num, xs) && VanishesAt(f, z, xs)
    requires Divides(f, num, z, q, rem) && DividesTo(f, num, z, q, rem) && |xs| <= |rem| && Below(f, rem, |xs|)
    ensures forall i: nat :: At(f, num, i) == ProductAt(f, q, z, i)
    ensures forall x :: Eval(f, num, x) == f.mul(Eval(f, q, x), Eval(f, z, x))
  {
    RemainderZero(f, num, xs, z, q, rem);
    forall i: nat ensures At(f, num, i) == ProductAt(f, q, z, i) {
      assert CoefficientDivides(f, num, z, q, rem, i);
      assert Laws(f, ProductAt(f, q, z, i), f.zero, f.zero);
    }
    forall x ensures Eval(f, num, x) == f.mul(Eval(f, q, x), Eval(f, z, x)) {
      EvalZero(f, rem, x);
      assert DividesAt(f, num, z, q, rem, x);
      assert Laws(f, f.mul(Eval(f, q, x), Eval(f, z, x)), f.zero, f.zero);
    }
  }

  /** p - i = q * z, coefficient by coefficient. */
  ghost predicate IsProduct<F(!new)>(f: Field<F>, p: Poly<F>, i: Poly<F>, q: Poly<F>, z: Poly<F>) {
    forall k: nat :: CoefficientOf(f, p, i, q, z, k)
  }

  ghost predicate CoefficientOf<F(!new)>(f: Field<F>, p: Poly<F>, i: Poly<F>, q: Poly<F>, z: Poly<F>, k: nat) {
    f.sub(At(f, p, k), At(f, i, k)) == ProductAt(f, q, z, k)
  }

  lemma {:induction false} SubtractedCoefficients<F(!new)>(f: Field<F>, p: Poly<F>, i: Poly<F>, diff: Poly<F>, q: Poly<F>, z: Poly<F>)
    requires IsField(f) && |p| <= |diff| && |i| <= |diff|
    requires forall k :: 0 <= k < |diff| ==> diff[k] == f.sub(At(f, p, k), At(f, i, k))
    requires forall k: nat :: At(f, diff, k) == ProductAt(f, q, z, k)
    ensures IsProduct(f, p, i, q, z)
  {
    SubZero(f, f.zero, f.zero);
    forall k: nat ensures CoefficientOf(f, p, i, q, z, k) {
      assert At(f, diff, k) == ProductAt(f, q, z, k);
    }
  }

  /** The witness of an opening: P - I divided by the vanishing polynomial of the opened points.  It
      satisfies P - I = Q * Z everywhere, at the secret point too, if and only if I agrees with P at the
      opened points. */
  method OpeningQuotient<F(!new)>(f: Field<F>, p: Poly<F>, i: Poly<F>, xs: seq<F>) returns (q: Poly<F>, z: Poly<F>)
    requires IsField(f) && DistinctPoints(xs) && (|xs| <= |p| || |xs| <= |i|)
    ensures forall t :: Eval(f, z, t) == f.zero <==> t in xs
    ensures QuotientOf(f, p, i, z, q) <==> AgreeAt(f, p, i, xs)
    ensures AgreeAt(f, p, i, xs) ==> IsProduct(f, p, i, q, z)
  {
    z := VanishingPolynomial(f, xs);
    var diff := SubtractPolys(f, p, i);
    ghost var rem;
    q, rem := PolyDiv(f, diff, z);
    forall k | 0 <= k < |xs| ensures Eval(f, z, xs[k]) == f.zero {
      assert xs[k] in xs;
    }
    if AgreeAt(f, p, i, xs) {
      forall k | 0 <= k < |xs| ensures Eval(f, diff, xs[k]) == f.zero {
        SubZero(f, Eval(f, p, xs[k]), Eval(f, i, xs[k]));
      }
      ExactQuotient(f, diff, xs, z, q, rem);
      assert forall t :: OpensAt(f, p, i, z, q, t);
      SubtractedCoefficients(f, p, i, diff, q, z);
    }
    if QuotientOf(f, p, i, z, q) {
      QuotientMeansAgreement(f, p, i, xs, z, q);
    }
  }

  /** No other witness does better: where Z vanishes, any quotient forces P and I to agree. */
  lemma {:induction false} QuotientMeansAgreement<F(!new)>(f: Field<F>, p: Poly<F>, i: Poly<F>, xs: seq<F>, z: Poly<F>, q: Poly<F>)
    requires IsField(f) && VanishesAt(f, z, xs) && QuotientOf(f, p, i, z, q)
    ensures AgreeAt(f, p, i, xs)
  {
    forall k | 0 <= k < |xs| ensures Eval(f, p, xs[k]) == Eval(f, i, xs[k]) {
      assert OpensAt(f, p, i, z, q, xs[k]);
      MulZero(f, Eval(f, q, xs[k]));
      SubZero(f, Eval(f, p, xs[k]), Eval(f, i, xs[k]));
    }
  }

  // ----- division by X - a

  /** X - a. */
  function Linear<F(!new)>(f: Field<F>, a: F): Poly<F> {
    [f.neg(a), f.one]
  }

  /** The first coefficient: p[0] = e (-a) + 0 + (p[0] + a e). */
  lemma {:induction false} FirstCoefficient<F(!new)>(f: Field<F>, c: F, a: F, e: F)
    requires IsField(f)
    ensures c == f.add(f.add(f.mul(e, f.neg(a)), f.zero), f.add(c, f.mul(a, e)))
  {
    var ae := f.mul(a, e);
    MulNeg(f, e, a);
    assert Laws(f, a, e, e) && Laws(f, f.neg(ae), f.zero, c) && Laws(f, f.neg(ae), f.add(c, ae), c);
    AddSub(f, c, ae);
  }

  /** p = quotient * (X - a) + p(a), coefficient by coefficient; the values follow (SyntheticIdentity). */
  lemma {:induction false} SyntheticCoefficients<F(!new)>(f: Field<F>, p: Poly<F>, a: F)
    requires IsField(f) && p != []
    ensures Divides(f, p, Linear(f, a), Synthetic(f, p, a), [Eval(f, p, a)])
  {
    forall i: nat ensures CoefficientDivides(f, p, Linear(f, a), Synthetic(f, p, a), [Eval(f, p, a)], i) {
      SyntheticCoefficient(f, p, a, i);
    }
  }

  lemma {:induction false} SyntheticCoefficient<F(!new)>(f: Field<F>, p: Poly<F>, a: F, i: nat)
    requires IsField(f) && p != []
    ensures CoefficientDivides(f, p, Linear(f, a), Synthetic(f, p, a), [Eval(f, p, a)], i)
    decreases |p|
  {
    if |p| == 1 {
      assert p == [p[0]];
      ConstantEval(f, p[0], a);
      MulZero(f, p[0]);
      MulZero(f, f.zero);
    } else {
      var e, s := Eval(f, p[1..], a), Synthetic(f, p[1..], a);
      var q := Synthetic(f, p, a);
      assert q[0] == e && q[1..] == s;
      if i == 0 {
        FirstCoefficient(f, p[0], a, e);
      } else {
        SyntheticCoefficient(f, p[1..], a, i - 1);
        LaterCoefficient(f, e, ProductAt(f, s, Linear(f, a), i - 1), i);
      }
    }
  }

  /** Coefficient i of e (X - a) + X s + 0, with that of s before. */
  lemma {:induction false} LaterCoefficient<F(!new)>(f: Field<F>, e: F, s: F, i: nat)
    requires IsField(f) && i > 0
    ensures f.add(s, At(f, [e], i - 1)) == f.add(f.add(f.mul(e, if i == 1 then f.one else f.zero), s), f.zero)
  {
    MulZero(f, e);
    MulZero(f, s);
    assert Laws(f, e, s, s) && Laws(f, s, e, e) && Laws(f, f.add(e, s), s, s) && Laws(f, s, f.zero, f.zero);
  }
}
