/** Batch trees depend on the position of a version within its batch only, not on the batch. */
module Shifts {
  import opened Primitives
  import opened Heap
  import opened Layers

  /** Offset o from x in m is as offset o from x' in m'. */
  predicate SameOffset(m: Versions, x: nat, m': Versions, x': nat, o: nat) {
    (x + o in m <==> x' + o in m') && (x + o in m ==> m[x + o] == m'[x' + o])
  }

  ghost predicate SameFrom(m: Versions, x: nat, m': Versions, x': nat, n: nat) {
    forall o: nat :: o < n ==> SameOffset(m, x, m', x', o)
  }

  lemma {:induction false} SubRange(m: Versions, x: nat, m': Versions, x': nat, n: nat, d: nat, k: nat, y: nat, y': nat)
    requires SameFrom(m, x, m', x', n) && d + k <= n && y == x + d && y' == x' + d
    ensures SameFrom(m, y, m', y', k)
  {
    forall o: nat | o < k ensures SameOffset(m, y, m', y', o) {
      assert SameOffset(m, x, m', x', d + o);
    }
  }

  /** Child batch j starts j child batches after the start of its parent. */
  lemma {:induction false} ChildStart(layer: nat, b: nat, j: nat)
    requires 0 < layer <= MAX_LAYER && j < Arity(layer)
    ensures (b * Arity(layer) + j) * BatchSize(layer - 1) == b * BatchSize(layer) + j * BatchSize(layer - 1)
    ensures j * BatchSize(layer - 1) + BatchSize(layer - 1) <= BatchSize(layer)
  {
  }

  ghost predicate SameBatch(layer: nat, b: nat, m: Versions, b': nat, m': Versions)
    requires layer <= MAX_LAYER
  {
    SameFrom(m, b * BatchSize(layer), m', b' * BatchSize(layer), BatchSize(layer))
  }

  lemma {:induction false} SameChild(layer: nat, b: nat, m: Versions, b': nat, m': Versions, j: nat)
    requires 0 < layer <= MAX_LAYER && j < Arity(layer) && SameBatch(layer, b, m, b', m')
    ensures SameBatch(layer - 1, b * Arity(layer) + j, m, b' * Arity(layer) + j, m')
  {
    ChildStart(layer, b, j);
    ChildStart(layer, b', j);
    SubRange(m, b * BatchSize(layer), m', b' * BatchSize(layer), BatchSize(layer), j * BatchSize(layer - 1), BatchSize(layer - 1),
             (b * Arity(layer) + j) * BatchSize(layer - 1), (b' * Arity(layer) + j) * BatchSize(layer - 1));
  }

  lemma {:induction false} RootShifted(layer: nat, b: nat, m: Versions, b': nat, m': Versions)
    requires layer <= MAX_LAYER && SameBatch(layer, b, m, b', m')
    ensures Root(layer, b, m) == Root(layer, b', m')
    ensures layer > 0 ==> Leaves(layer, b, m) == Leaves(layer, b', m')
    decreases layer
  {
    if layer == 0 {
      assert SameOffset(m, b, m', b', 0);
    } else {
      forall j: nat | j < Arity(layer) ensures Leaves(layer, b, m)[j] == Leaves(layer, b', m')[j] {
        SameChild(layer, b, m, b', m', j);
        RootShifted(layer - 1, b * Arity(layer) + j, m, b' * Arity(layer) + j, m');
      }
      assert Leaves(layer, b, m) == Leaves(layer, b', m');
    }
  }

  /** Equal contents at equal positions give equal trees, slots included. */
  lemma {:induction false} FullTreeShifted(layer: nat, b: nat, m: Versions, b': nat, m': Versions)
    requires 0 < layer <= MAX_LAYER && SameBatch(layer, b, m, b', m')
    ensures FullTree(layer, b, m) == FullTree(layer, b', m')
    decreases layer, 0
  {
    RootShifted(layer, b, m, b', m');
    if layer > 1 {
      forall j: nat | j < L2 ensures Slots(layer, b, m)[j] == Slots(layer, b', m')[j] {
        SameChild(layer, b, m, b', m', j);
        SlotShifted(layer - 1, b * L2 + j, m, b' * L2 + j, m');
      }
      assert Slots(layer, b, m) == Slots(layer, b', m');
    }
  }

  lemma {:induction false} SlotShifted(layer: nat, b: nat, m: Versions, b': nat, m': Versions)
    requires 0 < layer < MAX_LAYER && SameBatch(layer, b, m, b', m')
    ensures SlotValue(layer, b, m) == SlotValue(layer, b', m')
    decreases layer, 1
  {
    FullTreeShifted(layer, b, m, b', m');
    assert SameOffset(m, b * BatchSize(layer), m', b' * BatchSize(layer), 0);
  }

  // ----- every top-layer batch a copy of batch t

  function Moved(t: nat, v: nat): nat {
    t * BatchSize(MAX_LAYER) + v % BatchSize(MAX_LAYER)
  }

  /** Below n, the versions of every top-layer batch are those of batch t. */
  function Repeated(m: Versions, t: nat, n: nat): Versions {
    map v: nat | v < n && Moved(t, v) in m :: m[Moved(t, v)]
  }

  lemma {:induction false} RepeatedTop(m: Versions, t: nat, n: nat, b: nat)
    requires (b + 1) * BatchSize(MAX_LAYER) <= n
    ensures FullTree(MAX_LAYER, b, Repeated(m, t, n)) == FullTree(MAX_LAYER, t, m)
    ensures Root(MAX_LAYER, b, Repeated(m, t, n)) == Root(MAX_LAYER, t, m)
  {
    var size := BatchSize(MAX_LAYER);
    var r := Repeated(m, t, n);
    forall o: nat | o < size ensures SameOffset(r, b * size, m, t * size, o) {
      assert (b * size + o) % size == o;
    }
    RootShifted(MAX_LAYER, b, r, t, m);
    FullTreeShifted(MAX_LAYER, b, r, t, m);
  }
}
