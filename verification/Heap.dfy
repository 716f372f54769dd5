/** Binary heaps of hashes: index arithmetic, insertion, and the Merkle tree they must hold. */
module Heap {
  import opened Primitives

  function Parent(i: nat): nat
    requires i > 0
  {
    if i % 2 == 0 then (i - 2) / 2 else (i - 1) / 2
  }

  /** x lies in the subtree rooted at a. */
  predicate Below(a: nat, x: nat)
    decreases x
  {
    x == a || (x > a && Below(a, Parent(x)))
  }

  lemma {:induction false} BelowChild(a: nat, x: nat)
    requires x != a
    ensures Below(a, x) <==> Below(2 * a + 1, x) || Below(2 * a + 2, x)
    decreases x
  {
    if x > 0 && Parent(x) != a {
      BelowChild(a, Parent(x));
    }
  }

  lemma {:induction false} ChildrenDisjoint(a: nat, x: nat)
    ensures !(Below(2 * a + 1, x) && Below(2 * a + 2, x))
    decreases x
  {
    if x > 2 * a + 2 {
      ChildrenDisjoint(a, Parent(x));
    }
  }

  lemma {:induction false} BelowRoot(x: nat)
    ensures Below(0, x)
  {
    if x > 0 {
      BelowRoot(Parent(x));
    }
  }

  lemma {:induction false} BelowTransitive(a: nat, b: nat, x: nat)
    requires Below(a, b) && Below(b, x)
    ensures Below(a, x)
    decreases x
  {
    if x != b {
      BelowTransitive(a, b, Parent(x));
    }
  }

  /** Each index is the parent of the one before it. */
  predicate IsPath(path: seq<nat>) {
    forall k :: 0 <= k < |path| - 1 ==> path[k] > 0 && path[k + 1] == Parent(path[k])
  }

  /** The indices on the way from a node to the root, nearest first. */
  method GetAncestors(node: nat) returns (ancestors: seq<nat>)
    ensures forall a :: a in ancestors <==> a != node && Below(a, node)
    ensures |ancestors| > 0 <==> node > 0
    ensures node > 0 ==> ancestors[0] == Parent(node) && ancestors[|ancestors| - 1] == 0
    ensures IsPath(ancestors)
  {
    ancestors := [];
    var i := node;
    while i > 0
      invariant i <= node
      invariant ancestors == [] <==> i == node
      invariant ancestors != [] ==> node > 0 && ancestors[0] == Parent(node) && ancestors[|ancestors| - 1] == i
      invariant IsPath(ancestors)
      invariant forall a :: a != node && Below(a, node) <==> a in ancestors || (a != i && Below(a, i))
    {
      var before := ancestors;
      var p := Parent(i);
      ancestors := ancestors + [p];
      forall a ensures a != i && Below(a, i) <==> a == p || (a != p && Below(a, p)) {
        BelowParent(a, i);
      }
      assert forall a :: a in ancestors <==> a in before || a == p;
      forall a ensures a != node && Below(a, node) <==> a in ancestors || (a != p && Below(a, p)) {
        assert a != node && Below(a, node) <==> a in before || (a != i && Below(a, i));
      }
      i := p;
    }
  }

  lemma {:induction false} BelowParent(a: nat, x: nat)
    requires x > 0
    ensures a != x && Below(a, x) <==> Below(a, Parent(x))
  {
    if Below(a, Parent(x)) {
      BelowLeq(a, Parent(x));
    }
  }

  lemma {:induction false} BelowLeq(a: nat, x: nat)
    requires Below(a, x)
    ensures a <= x
  {
  }

  // ----- the tree over a sequence of leaves

  /** Leaf j of a heap with n leaves lies below node i. */
  predicate LeafBelow(n: nat, i: nat, j: nat)
    requires n > 0
  {
    Below(i, n - 1 + j)
  }

  /** The hash of two children; empty while either is missing. */
  function Combine(l: Option<Hash>, r: Option<Hash>): Option<Hash> {
    if l.Some? && r.Some? then Some(PairHash(l.value, r.value)) else None
  }

  /** The Merkle hash of the subtree at node i of the heap over the given leaves. */
  function Merkle(leaves: HashVector, i: nat): Option<Hash>
    requires i < 2 * |leaves| - 1
    decreases 2 * |leaves| - i
  {
    if i >= |leaves| - 1 then leaves[i - (|leaves| - 1)]
    else Combine(Merkle(leaves, 2 * i + 1), Merkle(leaves, 2 * i + 2))
  }

  /** A node holds a hash exactly when every leaf below it is present. */
  lemma {:induction false} MerkleFull(leaves: HashVector, i: nat)
    requires i < 2 * |leaves| - 1
    ensures Merkle(leaves, i).Some? <==>
            forall j :: 0 <= j < |leaves| && LeafBelow(|leaves|, i, j) ==> leaves[j].Some?
    decreases 2 * |leaves| - i
  {
    var n := |leaves|;
    if i >= n - 1 {
      LeafBelowSelf(n, i);
    } else {
      MerkleFull(leaves, 2 * i + 1);
      MerkleFull(leaves, 2 * i + 2);
      LeafBelowChildren(n, i);
    }
  }

  /** A leaf lies below itself only. */
  lemma {:induction false} LeafBelowSelf(n: nat, i: nat)
    requires n > 0 && n - 1 <= i < 2 * n - 1
    ensures forall j :: 0 <= j < n ==> (LeafBelow(n, i, j) <==> n - 1 + j == i)
  {
    forall j | 0 <= j < n && LeafBelow(n, i, j) ensures n - 1 + j == i {
      if n - 1 + j != i {
        BelowLeq(i, Parent(n - 1 + j));
      }
    }
  }

  lemma {:induction false} LeafBelowChildren(n: nat, i: nat)
    requires n > 0 && i < n - 1
    ensures forall j :: 0 <= j < n ==> (LeafBelow(n, i, j) <==> LeafBelow(n, 2 * i + 1, j) || LeafBelow(n, 2 * i + 2, j))
  {
    forall j | 0 <= j < n
      ensures LeafBelow(n, i, j) <==> LeafBelow(n, 2 * i + 1, j) || LeafBelow(n, 2 * i + 2, j)
    {
      BelowChild(i, n - 1 + j);
    }
  }

  /** A node depends on the leaves below it only. */
  lemma {:induction false} MerkleLocal(leaves: HashVector, other: HashVector, i: nat)
    requires |leaves| == |other| && i < 2 * |leaves| - 1
    requires forall j :: 0 <= j < |leaves| && LeafBelow(|leaves|, i, j) ==> leaves[j] == other[j]
    ensures Merkle(leaves, i) == Merkle(other, i)
    decreases 2 * |leaves| - i
  {
    var n := |leaves|;
    if i >= n - 1 {
      assert LeafBelow(n, i, i - (n - 1));
    } else {
      LeafBelowChildren(n, i);
      MerkleLocal(leaves, other, 2 * i + 1);
      MerkleLocal(leaves, other, 2 * i + 2);
    }
  }

  /** Equal hashes at a node mean equal leaves below it. */
  lemma {:induction false} MerkleInjective(leaves: HashVector, other: HashVector, i: nat, j: nat)
    requires |leaves| == |other| && i < 2 * |leaves| - 1 && j < |leaves|
    requires Merkle(leaves, i) == Merkle(other, i) && Merkle(leaves, i).Some?
    requires LeafBelow(|leaves|, i, j)
    ensures leaves[j] == other[j] && leaves[j].Some?
    decreases 2 * |leaves| - i
  {
    var n := |leaves|;
    if i >= n - 1 {
      LeafBelowSelf(n, i);
    } else {
      LeafBelowChildren(n, i);
      var child := if LeafBelow(n, 2 * i + 1, j) then 2 * i + 1 else 2 * i + 2;
      MerkleInjective(leaves, other, child, j);
    }
  }

  // ----- insertion

  /** Recompute the ancestors of node i, stopping at the first one with a missing child. */
  function Climb(t: HashVector, i: nat): (r: HashVector)
    requires i + 1 < |t|
    ensures |r| == |t|
    decreases i
  {
    if i == 0 then t
    else
      var p := Parent(i);
      var h := Combine(t[2 * p + 1], t[2 * p + 2]);
      if h == None then t else Climb(t[p := h], p)
  }

  /** Store a value at a leaf and update its ancestors; the empty value is not stored. */
  function Insert(t: HashVector, i: nat, value: Option<Hash>): (r: HashVector)
    requires i + 1 < |t|
    ensures |r| == |t|
  {
    if value == None then t else Climb(t[i := value], i)
  }

  /** The heap part of t is the Merkle tree over the leaves. */
  ghost predicate Holds(t: HashVector, leaves: HashVector)
    requires 2 * |leaves| - 1 <= |t|
  {
    forall i :: 0 <= i < 2 * |leaves| - 1 ==> t[i] == Merkle(leaves, i)
  }

  /** In t, node p is the hash of its two children as they stood in u. */
  ghost predicate NodeHashed(t: HashVector, u: HashVector, p: nat)
    requires p < |t| && 2 * p + 2 < |u|
  {
    t[p] == Combine(u[2 * p + 1], u[2 * p + 2])
  }

  ghost predicate Hashed(t: HashVector, u: HashVector, n: nat)
    requires 2 * n <= |t| == |u|
  {
    forall p :: 0 <= p < n - 1 ==> NodeHashed(t, u, p)
  }

  lemma {:induction false} HashedHolds(t: HashVector, leaves: HashVector, i: nat)
    requires 2 * |leaves| <= |t| && i < 2 * |leaves| - 1
    requires Hashed(t, t, |leaves|)
    requires forall j :: 0 <= j < |leaves| ==> t[|leaves| - 1 + j] == leaves[j]
    ensures t[i] == Merkle(leaves, i)
    decreases 2 * |leaves| - i
  {
    if i < |leaves| - 1 {
      HashedHolds(t, leaves, 2 * i + 1);
      HashedHolds(t, leaves, 2 * i + 2);
      assert NodeHashed(t, t, i);
    } else {
      assert t[|leaves| - 1 + (i - (|leaves| - 1))] == leaves[i - (|leaves| - 1)];
    }
  }

  /** Climbing from a node whose value replaced x restores a consistent heap, although the walk
      stops at the first ancestor with a missing child. */
  lemma {:induction false} ClimbRepairs(t: HashVector, n: nat, i: nat, x: Option<Hash>)
    requires 2 * n <= |t| && i < 2 * n - 1
    requires t[i].Some? && Hashed(t, t[i := x], n)
    ensures Hashed(Climb(t, i), Climb(t, i), n)
    decreases i
  {
    var u := t[i := x];
    if i == 0 {
      forall q | 0 <= q < n - 1 ensures NodeHashed(t, t, q) {
        assert NodeHashed(t, u, q);
      }
    } else {
      var p := Parent(i);
      var h := Combine(t[2 * p + 1], t[2 * p + 2]);
      var t' := t[p := h];
      if h.Some? {
        assert t'[p := t[p]] == t;
        forall q | 0 <= q < n - 1 ensures NodeHashed(t', t, q) {
          assert NodeHashed(t, u, q);
        }
        ClimbRepairs(t', n, p, t[p]);
      } else {
        forall q | 0 <= q < n - 1 ensures NodeHashed(t, t, q) {
          assert NodeHashed(t, u, q);
        }
      }
    }
  }

  /** Inserting leaf j into the Merkle tree over some leaves yields the Merkle tree over the
      updated leaves, whatever leaves were present before, and touches nothing outside it. */
  lemma {:induction false} InsertHolds(t: HashVector, leaves: HashVector, j: nat, value: Option<Hash>)
    requires j < |leaves| && 2 * |leaves| <= |t|
    requires Holds(t, leaves)
    requires value == None ==> leaves[j] == None
    ensures Holds(Insert(t, |leaves| - 1 + j, value), leaves[j := value])
    ensures forall k :: 2 * |leaves| - 1 <= k < |t| ==> Insert(t, |leaves| - 1 + j, value)[k] == t[k]
  {
    if value == None {
      assert leaves[j := value] == leaves;
    } else {
      InsertHashed(t, leaves, |leaves| - 1 + j, value);
      LeavesInserted(t, leaves, leaves[j := value], j, value);
      AllHashedHolds(Climb(t[|leaves| - 1 + j := value], |leaves| - 1 + j), leaves[j := value]);
    }
  }

  lemma {:induction false} LeavesInserted(t: HashVector, leaves: HashVector, leaves': HashVector, j: nat, value: Option<Hash>)
    requires j < |leaves| && 2 * |leaves| <= |t| && Holds(t, leaves) && leaves' == leaves[j := value]
    ensures var r := Climb(t[|leaves| - 1 + j := value], |leaves| - 1 + j);
            && (forall k :: 0 <= k < |leaves| ==> r[|leaves| - 1 + k] == leaves'[k])
            && (forall k :: 2 * |leaves| - 1 <= k < |t| ==> r[k] == t[k])
  {
    var n, i := |leaves|, |leaves| - 1 + j;
    var r := Climb(t[i := value], i);
    ClimbKeeps(t[i := value], n, i);
    forall k | 0 <= k < n ensures r[n - 1 + k] == leaves'[k] {
      assert t[n - 1 + k] == Merkle(leaves, n - 1 + k);
    }
  }

  lemma {:induction false} InsertHashed(t: HashVector, leaves: HashVector, i: nat, value: Option<Hash>)
    requires 2 * |leaves| <= |t| && |leaves| - 1 <= i < 2 * |leaves| - 1 && value.Some? && Holds(t, leaves)
    ensures Hashed(Climb(t[i := value], i), Climb(t[i := value], i), |leaves|)
  {
    var t' := t[i := value];
    assert t'[i := t[i]] == t;
    forall q | 0 <= q < |leaves| - 1 ensures NodeHashed(t', t, q) {
      assert t[q] == Merkle(leaves, q);
    }
    ClimbRepairs(t', |leaves|, i, t[i]);
  }

  lemma {:induction false} AllHashedHolds(t: HashVector, leaves: HashVector)
    requires 2 * |leaves| <= |t| && Hashed(t, t, |leaves|)
    requires forall j :: 0 <= j < |leaves| ==> t[|leaves| - 1 + j] == leaves[j]
    ensures Holds(t, leaves)
  {
    forall k | 0 <= k < 2 * |leaves| - 1 ensures t[k] == Merkle(leaves, k) {
      HashedHolds(t, leaves, k);
    }
  }

  /** The walk only writes internal nodes. */
  lemma {:induction false} ClimbKeeps(t: HashVector, n: nat, i: nat)
    requires 2 * n <= |t| && i < 2 * n - 1
    ensures forall k :: n - 1 <= k < |t| ==> Climb(t, i)[k] == t[k]
    decreases i
  {
    if i > 0 {
      var p := Parent(i);
      var h := Combine(t[2 * p + 1], t[2 * p + 2]);
      if h.Some? {
        ClimbKeeps(t[p := h], n, p);
      }
    }
  }

  // ----- the nodes written by an insertion

  /** The ancestors that the walk from node i recomputes, in order. */
  function Climbed(t: HashVector, i: nat): (updated: seq<nat>)
    requires i + 1 < |t|
    ensures forall k :: k in updated ==> k < i
    decreases i
  {
    if i == 0 then []
    else
      var p := Parent(i);
      var h := Combine(t[2 * p + 1], t[2 * p + 2]);
      if h == None then [] else [p] + Climbed(t[p := h], p)
  }

  predicate Filled(t: HashVector, nodes: seq<nat>) {
    forall j :: 0 <= j < |nodes| ==> nodes[j] < |t| && t[nodes[j]].Some?
  }

  /** Add value(t[k]) * W[k] to p for the listed nodes, one term after the other. */
  function AddTerms(p: Point, t: HashVector, nodes: seq<nat>): Point
    requires Filled(t, nodes)
    decreases |nodes|
  {
    if nodes == [] then p
    else AddTerms(Add(p, Scaled(nodes[0], t[nodes[0]].value)), t, nodes[1..])
  }

  /** One multi-exponentiation added to p equals adding its terms one by one. */
  lemma {:induction false} MultiExpAgrees(p: Point, q: Point, t: HashVector, nodes: seq<nat>)
    requires Filled(t, nodes)
    requires p.minus == q.minus == multiset{}
    ensures AddTerms(Add(p, q), t, nodes) == Add(p, AddTerms(q, t, nodes))
    ensures AddTerms(q, t, nodes).minus == multiset{}
    decreases |nodes|
  {
    if nodes != [] {
      var x := Scaled(nodes[0], t[nodes[0]].value);
      AddPositive(p, q);
      AddPositive(q, x);
      AddPositive(Add(p, q), x);
      AddPositive(p, Add(q, x));
      assert p.plus + q.plus + x.plus == p.plus + (q.plus + x.plus);
      MultiExpAgrees(p, Add(q, x), t, nodes[1..]);
    }
  }

  /** Every node the walk writes holds a hash afterwards. */
  lemma {:induction false} ClimbFilled(t: HashVector, i: nat)
    requires i + 1 < |t| && t[i].Some?
    ensures Filled(Climb(t, i), [i] + Climbed(t, i))
    decreases i
  {
    if i > 0 {
      var p := Parent(i);
      var h := Combine(t[2 * p + 1], t[2 * p + 2]);
      if h.Some? {
        ClimbFilled(t[p := h], p);
        ClimbFixed(t[p := h], p, i);
      }
    }
  }

  /** When leaf i was empty before, every node the walk writes was empty before. */
  lemma {:induction false} ClimbWritesOnce(t: HashVector, n: nat, i: nat)
    requires 2 * n <= |t| && i < 2 * n - 1
    requires t[i].Some? && Hashed(t, t[i := None], n)
    ensures forall k :: k in Climbed(t, i) ==> t[k] == None
    decreases i
  {
    if i > 0 {
      var p := Parent(i);
      var h := Combine(t[2 * p + 1], t[2 * p + 2]);
      assert NodeHashed(t, t[i := None], p);
      if h.Some? {
        var t' := t[p := h];
        ClimbStep(t, n, i);
        ClimbWritesOnce(t', n, p);
      }
    }
  }

  lemma {:induction false} ClimbStep(t: HashVector, n: nat, i: nat)
    requires 2 * n <= |t| && 0 < i < 2 * n - 1
    requires t[i].Some? && Hashed(t, t[i := None], n)
    requires Combine(t[2 * Parent(i) + 1], t[2 * Parent(i) + 2]).Some?
    ensures t[Parent(i)] == None
    ensures var p := Parent(i);
            var t' := t[p := Combine(t[2 * p + 1], t[2 * p + 2])];
            t'[p := None] == t && Hashed(t', t'[p := None], n)
  {
    var p := Parent(i);
    var u := t[i := None];
    var t' := t[p := Combine(t[2 * p + 1], t[2 * p + 2])];
    assert NodeHashed(t, u, p);
    assert t'[p := None] == t;
    forall q | 0 <= q < n - 1 ensures NodeHashed(t', t, q) {
      assert NodeHashed(t, u, q);
    }
  }

  /** Nodes that the walk does not list keep their value. */
  lemma {:induction false} ClimbFixed(t: HashVector, i: nat, k: nat)
    requires i + 1 < |t| && k < |t| && k !in Climbed(t, i)
    ensures Climb(t, i)[k] == t[k]
    decreases i
  {
    if i > 0 {
      var p := Parent(i);
      var h := Combine(t[2 * p + 1], t[2 * p + 2]);
      if h.Some? {
        ClimbFixed(t[p := h], p, k);
      }
    }
  }

  lemma {:induction false} FilledTail(t: HashVector, i: nat, nodes: seq<nat>)
    requires Filled(t, [i] + nodes)
    ensures Filled(t, nodes)
  {
    forall j | 0 <= j < |nodes| ensures nodes[j] < |t| && t[nodes[j]].Some? {
      assert ([i] + nodes)[j + 1] == nodes[j];
    }
  }

  lemma {:induction false} AddTermsStep(c: Point, t: HashVector, p: nat, rest: seq<nat>)
    requires p < |t| && t[p].Some? && Filled(t, rest)
    ensures Filled(t, [p] + rest)
    ensures AddTerms(c, t, [p] + rest) == AddTerms(Add(c, Scaled(p, t[p].value)), t, rest)
  {
    assert ([p] + rest)[1..] == rest;
  }

  /** The terms of the written nodes are exactly those the commitment lacks: no old value has
      to be subtracted. */
  lemma {:induction false} ClimbCommits(t: HashVector, n: nat, i: nat)
    requires 2 * n <= |t| && i < 2 * n - 1
    requires t[i].Some? && Hashed(t, t[i := None], n)
    ensures Filled(Climb(t, i), Climbed(t, i))
    ensures AddTerms(Commit(t), Climb(t, i), Climbed(t, i)) == Commit(Climb(t, i))
    decreases i
  {
    ClimbFilled(t, i);
    FilledTail(Climb(t, i), i, Climbed(t, i));
    if i > 0 {
      var p := Parent(i);
      var h := Combine(t[2 * p + 1], t[2 * p + 2]);
      if h.Some? {
        var t' := t[p := h];
        ClimbStep(t, n, i);
        ClimbCommits(t', n, p);
        CommitFill(t, p, h.value);
        ClimbFixed(t', p, p);
        AddTermsStep(Commit(t), Climb(t', p), p, Climbed(t', p));
      }
    }
  }

  // ----- the order of the children

  lemma {:induction false} ClimbedBelow(t: HashVector, i: nat)
    requires i + 1 < |t|
    ensures forall q :: q in Climbed(t, i) ==> q < i && 2 * q + 2 < |t|
    decreases i
  {
    if i > 0 {
      var p := Parent(i);
      var h := Combine(t[2 * p + 1], t[2 * p + 2]);
      if h.Some? {
        ClimbedBelow(t[p := h], p);
      }
    }
  }

  /** Node q is the hash of its two children, the one with the odd index first. */
  predicate IsPair(t: HashVector, q: nat) {
    && 2 * q + 2 < |t| && t[2 * q + 1].Some? && t[2 * q + 2].Some?
    && t[q] == Some(PairHash(t[2 * q + 1].value, t[2 * q + 2].value))
  }

  /** So is every node that the walk writes. */
  lemma {:induction false} ClimbPairs(t: HashVector, i: nat, q: nat)
    requires i + 1 < |t| && q in Climbed(t, i)
    ensures IsPair(Climb(t, i), q)
    decreases i
  {
    var p := Parent(i);
    var t' := t[p := Combine(t[2 * p + 1], t[2 * p + 2])];
    ClimbedBelow(t', p);
    if q == p {
      ClimbFixed(t', p, p);
      ClimbFixed(t', p, 2 * p + 1);
      ClimbFixed(t', p, 2 * p + 2);
    } else {
      ClimbPairs(t', p, q);
    }
  }
}
