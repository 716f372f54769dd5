/** Multiples, quotients and remainders for an arbitrary size. */
module Arithmetic {

  lemma {:induction false} Scale(a: nat, b: nat, size: nat)
    ensures a <= b ==> a * size <= b * size
  {
  }

  lemma {:induction false} DivUnique(x: nat, size: nat, q: nat, r: nat)
    requires size > 0 && x == q * size + r && r < size
    ensures x / size == q && x % size == r
  {
    var q' := x / size;
    assert x == q' * size + x % size;
    Scale(q + 1, q', size);
    Scale(q' + 1, q, size);
  }

  lemma {:induction false} Multiple(k: nat, size: nat)
    requires size > 0
    ensures k * size % size == 0 && k * size / size == k
  {
    DivUnique(k * size, size, k, 0);
  }

  lemma {:induction false} Divided(x: nat, size: nat)
    requires size > 0
    ensures x == x / size * size + x % size && 0 <= x % size < size
    ensures (x / size + 1) * size == x / size * size + size
  {
  }

  lemma {:induction false} Successor(b: nat, size: nat)
    ensures (b + 1) * size == b * size + size
  {
  }

  lemma {:induction false} Monotone(x: nat, y: nat, size: nat)
    requires size > 0 && x <= y
    ensures x / size <= y / size
  {
    var p, q := x / size, y / size;
    Divided(x, size);
    Divided(y, size);
    Scale(q + 1, p, size);
    Ordered(x, y, size, p, q, p * size, q * size);
  }

  lemma {:induction false} Ordered(x: nat, y: nat, size: nat, p: nat, q: nat, ps: nat, qs: nat)
    requires ps <= x <= y < qs + size
    requires q + 1 <= p ==> qs + size <= ps
    ensures p <= q
  {
  }

  lemma {:induction false} Regroup(q: nat, n: nat, p: nat, small: nat, size: nat)
    requires size == small * n
    ensures q * size + p * small == (q * n + p) * small
  {
  }

  lemma {:induction false} SumOfMultiples(x: nat, small: nat, a: nat, b: nat, qs: nat, ps: nat, total: nat, r: nat)
    requires x == qs + r && r == ps + b && qs + ps == total && total == a * small
    ensures x == a * small + b
  {
  }

  lemma {:induction false} ModMod(x: nat, size: nat, small: nat, n: nat)
    requires small > 0 && size > 0 && size == small * n
    ensures x % size % small == x % small
  {
    var q, r := x / size, x % size;
    var p := r / small;
    Divided(x, size);
    Divided(r, small);
    Regroup(q, n, p, small, size);
    SumOfMultiples(x, small, q * n + p, r % small, q * size, p * small, (q * n + p) * small, r);
    DivUnique(x, small, q * n + p, r % small);
  }

  /** A multiple of the child size below the size is at most a child size below it. */
  lemma {:induction false} MultipleBelow(r: nat, size: nat, small: nat, n: nat)
    requires small > 0 && size == small * n && r % small == 0
    ensures r > 0 ==> r >= small
    ensures r < size ==> r + small <= size
  {
    var t := r / small;
    Divided(r, small);
    Scale(1, t, small);
    Scale(n, t, small);
    Scale(t + 1, n, small);
    NextBelow(r, size, small, t, n, t * small, n * small);
  }

  lemma {:induction false} NextBelow(r: nat, size: nat, small: nat, t: nat, n: nat, ts: nat, ns: nat)
    requires small > 0 && r == ts && size == ns && (t == 0 ==> ts == 0) && (1 <= t ==> small <= ts)
    requires (n <= t ==> ns <= ts) && (t + 1 <= n ==> ts + small <= ns)
    ensures r > 0 ==> r >= small
    ensures r < size ==> r + small <= size
  {
  }

  lemma {:induction false} ProductBound(b: nat, size: nat, v: nat)
    requires size > 0
    ensures b * size <= v <==> b <= v / size
  {
    var q := v / size;
    Divided(v, size);
    if b <= q {
      Scale(b, q, size);
    } else {
      Scale(q + 1, b, size);
    }
    BoundCases(b * size, v, size, q * size, b <= q);
  }

  lemma {:induction false} BoundCases(bs: nat, v: nat, size: nat, qs: nat, below: bool)
    requires qs <= v < qs + size && if below then bs <= qs else qs + size <= bs
    ensures bs <= v <==> below
  {
  }

  /** Dividing twice is dividing by the product. */
  lemma {:induction false} DivDiv(x: nat, a: nat, b: nat)
    requires a > 0 && b > 0
    ensures a * b > 0 && x / (a * b) == x / a / b
  {
    var q := x / a;
    var r := q % b * a + x % a;
    Divided(x, a);
    Divided(q, b);
    Regroup(q / b, b, q % b, a, a * b);
    Successor(q % b, a);
    Scale(q % b + 1, b, a);
    TwiceDivided(x, a, q, q / b, q % b, b, r);
    DivUnique(x, a * b, q / b, r);
  }

  lemma {:induction false} TwiceDivided(x: nat, a: nat, q: nat, p: nat, m: nat, b: nat, r: nat)
    requires a > 0 && x == q * a + x % a && q == p * b + m && p * (a * b) + m * a == (p * b + m) * a && r == m * a + x % a
    ensures x == p * (a * b) + r
  {
  }
}
