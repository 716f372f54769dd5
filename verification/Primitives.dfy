/** Balances, hashes and commitments with ideal cryptography. */
module Primitives {

  datatype Option<+T> = None | Some(value: T)

  /** The balance an account holds now (balance.go, CurrentBalance). */
  datatype CurrentBalance = CurrentBalance(version: nat, balance: nat, startBlock: nat)

  /** A balance that has been superseded, with the last block it was valid at. */
  datatype HistoricalBalance = HistoricalBalance(current: CurrentBalance, endBlock: nat)

  /** Ideal hashes: the program hashes 56-byte historical balances, 48-byte current balances,
      pairs of hashes and 96-byte curve points; each is a constructor, so hashing is injective
      and never yields the all-zero hash.  The zero hash is `None` in a tree. */
  datatype Hash =
    | BalanceHash(hb: HistoricalBalance)
    | CurrentHash(cb: CurrentBalance)
    | PairHash(left: Hash, right: Hash)
    | CommitmentHash(commitment: Point)

  /** The group element value(hash) * W[index], where W are the precomputed weight commitments. */
  datatype Term = Term(index: nat, hash: Hash)

  /** An element of the free abelian group over terms, as a difference of two disjoint multisets.
      An equation between such elements holds in every group under every choice of W and of the
      field value of a hash. */
  datatype Point = Point(plus: multiset<Term>, minus: multiset<Term>)

  const ZERO := Point(multiset{}, multiset{})

  function Add(p: Point, q: Point): Point {
    var plus := p.plus + q.plus;
    var minus := p.minus + q.minus;
    Point(plus - minus, minus - plus)
  }

  lemma {:induction false} AddPositive(p: Point, q: Point)
    requires p.minus == q.minus == multiset{}
    ensures Add(p, q) == Point(p.plus + q.plus, multiset{})
  {
  }

  /** ScalarMultiplication(W[index], value(hash)). */
  function Scaled(index: nat, hash: Hash): Point {
    Point(multiset{Term(index, hash)}, multiset{})
  }

  /** ScalarMultiplication(W[index], value(hash) - value(previous)). */
  function ScaledDifference(index: nat, hash: Hash, previous: Hash): Point {
    Add(Scaled(index, hash), Point(multiset{}, multiset{Term(index, previous)}))
  }

  // ----- commitments to vectors of hashes

  type HashVector = seq<Option<Hash>>

  /** The sum of value(t[i]) * W[i] over the whole vector; the zero hash contributes nothing. */
  function Commit(t: HashVector): Point {
    Point(Terms(t), multiset{})
  }

  function Terms(t: HashVector): multiset<Term> {
    if |t| == 0 then multiset{}
    else
      var last := |t| - 1;
      Terms(t[..last]) + (if t[last].Some? then multiset{Term(last, t[last].value)} else multiset{})
  }

  lemma {:induction false} TermsMultiplicity(t: HashVector, x: Term)
    ensures Terms(t)[x] == if x.index < |t| && t[x.index] == Some(x.hash) then 1 else 0
  {
    if |t| > 0 {
      TermsMultiplicity(t[..|t| - 1], x);
    }
  }

  /** Storing a hash in an empty position adds exactly one term to the commitment. */
  lemma {:induction false} CommitFill(t: HashVector, i: nat, h: Hash)
    requires i < |t| && t[i] == None
    ensures Commit(t[i := Some(h)]) == Add(Commit(t), Scaled(i, h))
  {
    var after := t[i := Some(h)];
    forall x ensures Terms(after)[x] == (Terms(t) + multiset{Term(i, h)})[x] {
      TermsMultiplicity(t, x);
      TermsMultiplicity(after, x);
    }
    assert Terms(after) == Terms(t) + multiset{Term(i, h)};
  }

  lemma {:induction false} Cancel<T>(s: multiset<T>, x: T, y: T)
    ensures s + multiset{y} + multiset{x} - multiset{y} == s + multiset{x}
    ensures multiset{y} - (s + multiset{y} + multiset{x}) == multiset{}
  {
  }

  lemma {:induction false} DifferenceValue(i: nat, h: Hash, previous: Hash)
    ensures ScaledDifference(i, h, previous) ==
            if h == previous then ZERO else Point(multiset{Term(i, h)}, multiset{Term(i, previous)})
  {
  }

  lemma {:induction false} Exchange(s: multiset<Term>, i: nat, h: Hash, previous: Hash)
    ensures Add(Point(s + multiset{Term(i, previous)}, multiset{}), ScaledDifference(i, h, previous)) ==
            Point(s + multiset{Term(i, h)}, multiset{})
  {
    var x, y := Term(i, h), Term(i, previous);
    DifferenceValue(i, h, previous);
    if h == previous {
      AddPositive(Point(s + multiset{y}, multiset{}), ZERO);
    } else {
      Cancel(s, x, y);
      assert multiset{} + multiset{y} == multiset{y};
    }
  }

  /** Replacing a hash adds the difference of the two terms. */
  lemma {:induction false} CommitReplace(t: HashVector, i: nat, previous: Hash, h: Hash)
    requires i < |t| && t[i] == Some(previous)
    ensures Commit(t[i := Some(h)]) == Add(Commit(t), ScaledDifference(i, h, previous))
  {
    var rest := t[i := None];
    assert rest[i := Some(previous)] == t;
    assert rest[i := Some(h)] == t[i := Some(h)];
    CommitFill(rest, i, previous);
    CommitFill(rest, i, h);
    AddPositive(Commit(rest), Scaled(i, previous));
    AddPositive(Commit(rest), Scaled(i, h));
    Exchange(Terms(rest), i, h, previous);
  }

  /** Commitments are binding: vectors of one length with equal commitments are equal. */
  lemma {:induction false} CommitBinding(t: HashVector, u: HashVector)
    requires |t| == |u| && Commit(t) == Commit(u)
    ensures t == u
  {
    forall i | 0 <= i < |t| ensures t[i] == u[i] {
      if t[i].Some? {
        TermsMultiplicity(t, Term(i, t[i].value));
        TermsMultiplicity(u, Term(i, t[i].value));
      } else if u[i].Some? {
        TermsMultiplicity(t, Term(i, u[i].value));
        TermsMultiplicity(u, Term(i, u[i].value));
      }
    }
  }

  // ----- ideal openings

  function TermsAt(c: Point, i: nat): set<Term> {
    set x | x in c.plus + c.minus && x.index == i
  }

  /** The committed value at position i is v. */
  predicate OpensTo(c: Point, i: nat, v: Option<Hash>) {
    match v
    case None => TermsAt(c, i) == {}
    case Some(h) => TermsAt(c, i) == {Term(i, h)} && c.plus[Term(i, h)] == 1 && c.minus[Term(i, h)] == 0
  }

  lemma {:induction false} TermsAtCommit(t: HashVector, i: nat)
    requires i < |t|
    ensures TermsAt(Commit(t), i) == if t[i].Some? then {Term(i, t[i].value)} else {}
  {
    var c := Commit(t);
    forall x ensures x in TermsAt(c, i) <==> t[i].Some? && x == Term(i, t[i].value) {
      TermsMultiplicity(t, x);
      assert (c.plus + c.minus)[x] == Terms(t)[x];
    }
  }

  /** A commitment to t opens at i to the entry t[i] and to nothing else. */
  lemma {:induction false} OpensToEntry(t: HashVector, i: nat, v: Option<Hash>)
    requires i < |t|
    ensures OpensTo(Commit(t), i, v) <==> v == t[i]
  {
    TermsAtCommit(t, i);
    if t[i].Some? {
      TermsMultiplicity(t, Term(i, t[i].value));
      assert Term(i, t[i].value) in TermsAt(Commit(t), i);
    }
    if v.Some? && OpensTo(Commit(t), i, v) {
      assert Term(i, v.value) in TermsAt(Commit(t), i);
    }
  }
}
