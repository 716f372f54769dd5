/** Fields given by their operations (the scalar field of the curve is one). */
module Fields {

  datatype Field<!F(!new)> = Field(zero: F, one: F, add: (F, F) -> F, mul: (F, F) -> F, neg: F -> F, inv: F -> F)
  {
    function sub(x: F, y: F): F {
      add(x, neg(y))
    }
  }

  /** The field axioms at three elements. */
  ghost predicate Laws<F(!new)>(f: Field<F>, x: F, y: F, z: F) {
    && f.add(x, y) == f.add(y, x)
    && f.add(f.add(x, y), z) == f.add(x, f.add(y, z))
    && f.add(x, f.zero) == x
    && f.add(x, f.neg(x)) == f.zero
    && f.mul(x, y) == f.mul(y, x)
    && f.mul(f.mul(x, y), z) == f.mul(x, f.mul(y, z))
    && f.mul(x, f.one) == x
    && f.mul(x, f.add(y, z)) == f.add(f.mul(x, y), f.mul(x, z))
    && (x != f.zero ==> f.mul(x, f.inv(x)) == f.one)
  }

  ghost predicate IsField<F(!new)>(f: Field<F>) {
    f.zero != f.one && forall x, y, z :: Laws(f, x, y, z)
  }

  lemma {:induction false} Swap<F(!new)>(f: Field<F>, a: F, b: F, c: F, d: F)
    requires IsField(f)
    ensures f.add(f.add(a, b), f.add(c, d)) == f.add(f.add(a, c), f.add(b, d))
  {
    assert Laws(f, a, b, f.add(c, d)) && Laws(f, b, c, d) && Laws(f, c, b, d) && Laws(f, a, c, f.add(b, d));
  }

  lemma {:induction false} Cancel<F(!new)>(f: Field<F>, a: F, b: F, c: F)
    requires IsField(f) && f.add(a, b) == f.add(a, c)
    ensures b == c
  {
    assert Laws(f, f.neg(a), a, b) && Laws(f, f.neg(a), a, c) && Laws(f, a, f.neg(a), b);
    assert Laws(f, b, f.zero, b) && Laws(f, c, f.zero, c);
  }

  lemma {:induction false} MulZero<F(!new)>(f: Field<F>, x: F)
    requires IsField(f)
    ensures f.mul(x, f.zero) == f.zero && f.mul(f.zero, x) == f.zero && f.add(f.zero, x) == x
  {
    assert Laws(f, x, f.zero, f.zero) && Laws(f, f.zero, f.zero, f.zero) && Laws(f, f.mul(x, f.zero), f.zero, f.zero);
    Cancel(f, f.mul(x, f.zero), f.mul(x, f.zero), f.zero);
  }

  lemma {:induction false} NegUnique<F(!new)>(f: Field<F>, a: F, b: F)
    requires IsField(f) && f.add(a, b) == f.zero
    ensures b == f.neg(a)
  {
    assert Laws(f, a, b, b);
    Cancel(f, a, b, f.neg(a));
  }

  lemma {:induction false} MulNeg<F(!new)>(f: Field<F>, x: F, y: F)
    requires IsField(f)
    ensures f.mul(x, f.neg(y)) == f.neg(f.mul(x, y)) == f.mul(f.neg(x), y)
  {
    assert Laws(f, x, y, f.neg(y)) && Laws(f, y, x, f.neg(x)) && Laws(f, x, y, y) && Laws(f, y, f.neg(x), x);
    MulZero(f, x);
    MulZero(f, y);
    NegUnique(f, f.mul(x, y), f.mul(x, f.neg(y)));
    NegUnique(f, f.mul(x, y), f.mul(f.neg(x), y));
  }

  lemma {:induction false} NegAdd<F(!new)>(f: Field<F>, x: F, y: F)
    requires IsField(f)
    ensures f.neg(f.add(x, y)) == f.add(f.neg(x), f.neg(y))
  {
    Swap(f, x, y, f.neg(x), f.neg(y));
    assert Laws(f, x, y, y) && Laws(f, y, x, x);
    MulZero(f, f.zero);
    NegUnique(f, f.add(x, y), f.add(f.neg(x), f.neg(y)));
  }

  lemma {:induction false} NoZeroDivisors<F(!new)>(f: Field<F>, x: F, y: F)
    requires IsField(f) && f.mul(x, y) == f.zero && x != f.zero
    ensures y == f.zero
  {
    assert Laws(f, f.inv(x), x, y) && Laws(f, x, f.inv(x), y) && Laws(f, y, f.one, y);
    MulZero(f, f.inv(x));
  }

  lemma {:induction false} SubZero<F(!new)>(f: Field<F>, x: F, y: F)
    requires IsField(f)
    ensures f.sub(x, y) == f.zero <==> x == y
  {
    assert Laws(f, x, y, y) && Laws(f, y, f.neg(y), f.neg(y)) && Laws(f, f.neg(y), x, x) && Laws(f, f.neg(y), y, y);
    if f.sub(x, y) == f.zero {
      Cancel(f, f.neg(y), x, y);
    }
  }

  /** Adding and subtracting the same element changes nothing. */
  lemma {:induction false} AddSub<F(!new)>(f: Field<F>, x: F, y: F)
    requires IsField(f)
    ensures f.add(f.add(x, y), f.neg(y)) == x && f.add(f.sub(x, y), y) == x
  {
    assert Laws(f, x, y, f.neg(y)) && Laws(f, y, f.neg(y), y) && Laws(f, x, f.neg(y), y);
    MulZero(f, x);
  }

  lemma {:induction false} Factor<F(!new)>(f: Field<F>, x: F, y: F, z: F)
    requires IsField(f)
    ensures f.mul(f.add(x, y), z) == f.add(f.mul(x, z), f.mul(y, z))
    ensures f.mul(f.sub(x, y), z) == f.sub(f.mul(x, z), f.mul(y, z))
  {
    assert Laws(f, z, x, y) && Laws(f, z, f.add(x, y), x) && Laws(f, x, z, z) && Laws(f, y, z, z);
    assert Laws(f, z, x, f.neg(y)) && Laws(f, z, f.sub(x, y), x);
    MulNeg(f, y, z);
    assert Laws(f, f.neg(y), z, z);
  }

  function Power<F(!new)>(f: Field<F>, x: F, k: nat): F {
    if k == 0 then f.one else f.mul(x, Power(f, x, k - 1))
  }
}
