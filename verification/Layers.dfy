/** The layered segment tree as a function of the versions it contains. */
module Layers {
  import opened Primitives
  import opened Heap

  const L1 := 2048
  const L2 := 1365
  const MAX_LAYER := 4
  const TREE_SIZE := 4096

  /** The number of leaves of a batch tree at a layer. */
  function Arity(layer: nat): (n: nat)
    requires layer > 0
    ensures 0 < n && 2 * n <= TREE_SIZE
  {
    if layer == 1 then L1 else L2
  }

  /** The number of versions in a batch of a layer; a batch of layer 0 is one version. */
  function BatchSize(layer: nat): (n: nat)
    requires layer <= MAX_LAYER
    ensures n > 0
  {
    if layer == 0 then 1
    else if layer == 1 then L1
    else if layer == 2 then L1 * L2
    else if layer == 3 then L1 * L2 * L2
    else L1 * L2 * L2 * L2
  }

  predicate InBatch(layer: nat, b: nat, v: nat)
    requires layer <= MAX_LAYER
  {
    v / BatchSize(layer) == b
  }

  lemma {:induction false} BatchOfBatch(layer: nat, v: nat)
    requires 0 < layer <= MAX_LAYER
    ensures (v / BatchSize(layer - 1)) / Arity(layer) == v / BatchSize(layer)
  {
  }

  lemma {:induction false} ChildIndex(layer: nat, b: nat, j: nat)
    requires 0 < layer && j < Arity(layer)
    ensures (b * Arity(layer) + j) / Arity(layer) == b && (b * Arity(layer) + j) % Arity(layer) == j
  {
  }

  lemma {:induction false} FirstOfBatch(layer: nat, b: nat)
    requires layer <= MAX_LAYER
    ensures InBatch(layer, b, b * BatchSize(layer))
  {
  }

  lemma {:induction false} FirstInBatch(layer: nat, b: nat, v: nat)
    requires layer <= MAX_LAYER && InBatch(layer, b, v)
    ensures b * BatchSize(layer) <= v < (b + 1) * BatchSize(layer)
    ensures InBatch(layer, b, b * BatchSize(layer))
  {
  }

  lemma {:induction false} OneVersion(b: nat, v: nat)
    requires InBatch(0, b, v)
    ensures v == b
  {
  }

  // ----- roots and leaves

  /** The hashes of the versions present. */
  type Versions = map<nat, Hash>

  /** The root of batch b of a layer: present only when the batch is complete.  The leaves of a
      batch are the roots of its child batches. */
  function Root(layer: nat, b: nat, m: Versions): Option<Hash>
    requires layer <= MAX_LAYER
    decreases layer, 1
  {
    if layer == 0 then (if b in m then Some(m[b]) else None)
    else Merkle(Leaves(layer, b, m), 0)
  }

  function Leaves(layer: nat, b: nat, m: Versions): (leaves: HashVector)
    requires 0 < layer <= MAX_LAYER
    ensures |leaves| == Arity(layer)
    decreases layer, 0
  {
    seq(Arity(layer), j requires 0 <= j => Root(layer - 1, b * Arity(layer) + j, m))
  }

  predicate SameAt(m: Versions, m': Versions, v: nat) {
    (v in m <==> v in m') && (v in m ==> m[v] == m'[v])
  }

  ghost predicate SameIn(layer: nat, b: nat, m: Versions, m': Versions)
    requires layer <= MAX_LAYER
  {
    forall v: nat :: InBatch(layer, b, v) ==> SameAt(m, m', v)
  }

  lemma {:induction false} SameInChild(layer: nat, b: nat, j: nat, m: Versions, m': Versions)
    requires 0 < layer <= MAX_LAYER && j < Arity(layer)
    requires SameIn(layer, b, m, m')
    ensures SameIn(layer - 1, b * Arity(layer) + j, m, m')
  {
    ChildIndex(layer, b, j);
    forall v: nat | InBatch(layer - 1, b * Arity(layer) + j, v) ensures SameAt(m, m', v) {
      BatchOfBatch(layer, v);
      assert InBatch(layer, b, v);
    }
  }

  /** A batch depends on its own versions only. */
  lemma {:induction false} RootLocal(layer: nat, b: nat, m: Versions, m': Versions)
    requires layer <= MAX_LAYER && SameIn(layer, b, m, m')
    ensures Root(layer, b, m) == Root(layer, b, m')
    ensures layer > 0 ==> Leaves(layer, b, m) == Leaves(layer, b, m')
    decreases layer
  {
    if layer == 0 {
      assert InBatch(0, b, b);
    } else {
      forall j: nat | j < Arity(layer) ensures Leaves(layer, b, m)[j] == Leaves(layer, b, m')[j] {
        SameInChild(layer, b, j, m, m');
        RootLocal(layer - 1, b * Arity(layer) + j, m, m');
      }
      assert Leaves(layer, b, m) == Leaves(layer, b, m');
    }
  }

  /** A batch has a root exactly when all its versions are present. */
  lemma {:induction false} RootFull(layer: nat, b: nat, m: Versions)
    requires layer <= MAX_LAYER
    ensures Root(layer, b, m).Some? <==> forall v: nat :: InBatch(layer, b, v) ==> v in m
    decreases layer
  {
    if layer == 0 {
      assert InBatch(0, b, b);
    } else {
      forall j: nat | j < Arity(layer) ensures Leaves(layer, b, m)[j].Some? <==> ChildFull(layer, b, j, m) {
        RootFull(layer - 1, b * Arity(layer) + j, m);
      }
      RootOfFull(layer, b, m);
    }
  }

  lemma {:induction false} RootOfFull(layer: nat, b: nat, m: Versions)
    requires 0 < layer <= MAX_LAYER
    requires forall j: nat :: j < Arity(layer) ==> (Leaves(layer, b, m)[j].Some? <==> ChildFull(layer, b, j, m))
    ensures Root(layer, b, m).Some? <==> forall v: nat :: InBatch(layer, b, v) ==> v in m
  {
    var leaves := Leaves(layer, b, m);
    MerkleFull(leaves, 0);
    forall j: nat | j < |leaves| ensures LeafBelow(|leaves|, 0, j) {
      BelowRoot(|leaves| - 1 + j);
    }
    ChildrenFull(layer, b, m);
  }

  /** All versions of child batch j are present. */
  ghost predicate ChildFull(layer: nat, b: nat, j: nat, m: Versions)
    requires 0 < layer <= MAX_LAYER
  {
    forall v: nat :: InBatch(layer - 1, b * Arity(layer) + j, v) ==> v in m
  }

  lemma {:induction false} ChildrenFull(layer: nat, b: nat, m: Versions)
    requires 0 < layer <= MAX_LAYER
    ensures (forall j: nat :: j < Arity(layer) ==> ChildFull(layer, b, j, m)) <==> forall v: nat :: InBatch(layer, b, v) ==> v in m
  {
    if forall j: nat :: j < Arity(layer) ==> ChildFull(layer, b, j, m) {
      forall v: nat | InBatch(layer, b, v) ensures v in m {
        var j := LeafIndex(layer, b, v);
        assert ChildFull(layer, b, j, m);
      }
    } else {
      var j: nat :| j < Arity(layer) && !ChildFull(layer, b, j, m);
      var v: nat :| InBatch(layer - 1, b * Arity(layer) + j, v) && v !in m;
      ChildIndex(layer, b, j);
      BatchOfBatch(layer, v);
      assert InBatch(layer, b, v);
    }
  }

  /** The leaf position of version v within its batch of a layer. */
  lemma {:induction false} LeafIndex(layer: nat, b: nat, v: nat) returns (j: nat)
    requires 0 < layer <= MAX_LAYER && InBatch(layer, b, v)
    ensures j < Arity(layer) && j == v / BatchSize(layer - 1) % Arity(layer)
    ensures InBatch(layer - 1, b * Arity(layer) + j, v)
  {
    BatchOfBatch(layer, v);
    j := v / BatchSize(layer - 1) % Arity(layer);
  }

  /** Equal roots mean equal versions. */
  lemma {:induction false} RootInjective(layer: nat, b: nat, m: Versions, m': Versions, v: nat)
    requires layer <= MAX_LAYER && InBatch(layer, b, v)
    requires Root(layer, b, m) == Root(layer, b, m') && Root(layer, b, m).Some?
    ensures v in m && v in m' && m[v] == m'[v]
    decreases layer
  {
    if layer > 0 {
      var j := LeafIndex(layer, b, v);
      RootsOfLeaf(layer, b, m, m', j);
      RootInjective(layer - 1, b * Arity(layer) + j, m, m', v);
    }
  }

  lemma {:induction false} LeafIsRoot(layer: nat, b: nat, m: Versions, j: nat)
    requires 0 < layer <= MAX_LAYER && j < Arity(layer)
    ensures Root(layer, b, m) == Merkle(Leaves(layer, b, m), 0)
    ensures Leaves(layer, b, m)[j] == Root(layer - 1, b * Arity(layer) + j, m)
    ensures LeafBelow(Arity(layer), 0, j)
  {
    BelowRoot(Arity(layer) - 1 + j);
  }

  lemma {:induction false} RootsOfLeaf(layer: nat, b: nat, m: Versions, m': Versions, j: nat)
    requires 0 < layer <= MAX_LAYER && j < Arity(layer)
    requires Root(layer, b, m) == Root(layer, b, m') && Root(layer, b, m).Some?
    ensures var c := b * Arity(layer) + j;
            Root(layer - 1, c, m) == Root(layer - 1, c, m') && Root(layer - 1, c, m).Some?
  {
    hide *;
    LeafIsRoot(layer, b, m, j);
    LeafIsRoot(layer, b, m', j);
    MerkleInjective(Leaves(layer, b, m), Leaves(layer, b, m'), 0, j);
  }

  // ----- nodes

  /** Version v lies beneath node i of batch b of a layer. */
  predicate Beneath(layer: nat, b: nat, i: nat, v: nat)
    requires 0 < layer <= MAX_LAYER
  {
    InBatch(layer, b, v) && LeafBelow(Arity(layer), i, v / BatchSize(layer - 1) % Arity(layer))
  }

  lemma {:induction false} LeafBeneath(layer: nat, b: nat, i: nat, j: nat, v: nat)
    requires 0 < layer <= MAX_LAYER && j < Arity(layer) && LeafBelow(Arity(layer), i, j)
    requires InBatch(layer - 1, b * Arity(layer) + j, v)
    ensures Beneath(layer, b, i, v)
  {
    ChildIndex(layer, b, j);
    BatchOfBatch(layer, v);
  }

  /** A node depends on the versions beneath it only. */
  lemma {:induction false} NodeLocal(layer: nat, b: nat, i: nat, m: Versions, m': Versions)
    requires 0 < layer <= MAX_LAYER && i < 2 * Arity(layer) - 1
    requires forall v: nat :: Beneath(layer, b, i, v) ==> SameAt(m, m', v)
    ensures Merkle(Leaves(layer, b, m), i) == Merkle(Leaves(layer, b, m'), i)
  {
    forall j: nat | j < Arity(layer) && LeafBelow(Arity(layer), i, j)
      ensures Leaves(layer, b, m)[j] == Leaves(layer, b, m')[j]
    {
      var c := b * Arity(layer) + j;
      forall v: nat | InBatch(layer - 1, c, v) ensures SameAt(m, m', v) {
        LeafBeneath(layer, b, i, j, v);
      }
      RootLocal(layer - 1, c, m, m');
    }
    MerkleLocal(Leaves(layer, b, m), Leaves(layer, b, m'), i);
  }

  /** A node holds a hash exactly when every version beneath it is present. */
  lemma {:induction false} NodeFull(layer: nat, b: nat, i: nat, m: Versions)
    requires 0 < layer <= MAX_LAYER && i < 2 * Arity(layer) - 1
    requires forall v: nat :: Beneath(layer, b, i, v) ==> v in m
    ensures Merkle(Leaves(layer, b, m), i).Some?
  {
    forall j: nat | j < Arity(layer) && LeafBelow(Arity(layer), i, j)
      ensures Leaves(layer, b, m)[j].Some?
    {
      var c := b * Arity(layer) + j;
      forall v: nat | InBatch(layer - 1, c, v) ensures v in m {
        LeafBeneath(layer, b, i, j, v);
      }
      RootFull(layer - 1, c, m);
    }
    MerkleFull(Leaves(layer, b, m), i);
  }

  /** Equal hashes at a node mean equal versions beneath it. */
  lemma {:induction false} NodeInjective(layer: nat, b: nat, i: nat, m: Versions, m': Versions, v: nat)
    requires 0 < layer <= MAX_LAYER && i < 2 * Arity(layer) - 1 && Beneath(layer, b, i, v)
    requires Merkle(Leaves(layer, b, m), i) == Merkle(Leaves(layer, b, m'), i)
    requires Merkle(Leaves(layer, b, m), i).Some?
    ensures v in m && v in m' && m[v] == m'[v]
  {
    var j := LeafIndex(layer, b, v);
    MerkleInjective(Leaves(layer, b, m), Leaves(layer, b, m'), i, j);
    RootInjective(layer - 1, b * Arity(layer) + j, m, m', v);
  }

  // ----- batch trees

  /** The position of the slot for child batch j. */
  function Slot(j: nat): nat {
    2 * L2 - 1 + j
  }

  /** A batch tree: the heap over the leaves, then the block of slots, then empty entries. */
  function TreeOf(leaves: HashVector, slots: HashVector): (t: HashVector)
    requires 0 < |leaves| && 2 * |leaves| <= TREE_SIZE
    ensures |t| == TREE_SIZE
  {
    seq(TREE_SIZE, i requires 0 <= i =>
      if i < 2 * |leaves| - 1 then Merkle(leaves, i)
      else if Slot(0) <= i < Slot(|slots|) then slots[i - Slot(0)]
      else None)
  }

  function EmptyTree(): (t: HashVector)
    ensures |t| == TREE_SIZE
  {
    seq(TREE_SIZE, _ => None)
  }

  ghost predicate Shaped(leaves: HashVector, slots: HashVector) {
    0 < |leaves| <= L1 && |slots| <= L2 && (slots != [] ==> |leaves| <= L2)
  }

  lemma {:induction false} TreeAt(leaves: HashVector, slots: HashVector, i: nat)
    requires Shaped(leaves, slots) && i < TREE_SIZE
    ensures i < 2 * |leaves| - 1 ==> TreeOf(leaves, slots)[i] == Merkle(leaves, i)
    ensures Slot(0) <= i < Slot(|slots|) ==> TreeOf(leaves, slots)[i] == slots[i - Slot(0)]
    ensures i >= 2 * |leaves| - 1 && !(Slot(0) <= i < Slot(|slots|)) ==> TreeOf(leaves, slots)[i] == None
  {
  }

  /** Storing a slot changes that slot only. */
  lemma {:induction false} TreeSetSlot(leaves: HashVector, slots: HashVector, j: nat, x: Option<Hash>)
    requires Shaped(leaves, slots) && j < |slots|
    ensures TreeOf(leaves, slots)[Slot(j) := x] == TreeOf(leaves, slots[j := x])
  {
    var t, t' := TreeOf(leaves, slots), TreeOf(leaves, slots[j := x]);
    forall i: nat | i < TREE_SIZE ensures t[Slot(j) := x][i] == t'[i] {
      TreeAt(leaves, slots, i);
      TreeAt(leaves, slots[j := x], i);
    }
  }

  /** Inserting a leaf changes the heap to the heap over the new leaves. */
  lemma {:induction false} TreeInsert(leaves: HashVector, slots: HashVector, j: nat, x: Option<Hash>)
    requires Shaped(leaves, slots) && j < |leaves|
    requires x == None ==> leaves[j] == None
    ensures Insert(TreeOf(leaves, slots), |leaves| - 1 + j, x) == TreeOf(leaves[j := x], slots)
  {
    var t, t' := TreeOf(leaves, slots), TreeOf(leaves[j := x], slots);
    var r := Insert(t, |leaves| - 1 + j, x);
    forall k | 0 <= k < 2 * |leaves| - 1 ensures t[k] == Merkle(leaves, k) {
      TreeAt(leaves, slots, k);
    }
    InsertHolds(t, leaves, j, x);
    forall i: nat | i < TREE_SIZE ensures r[i] == t'[i] {
      TreeAt(leaves, slots, i);
      TreeAt(leaves[j := x], slots, i);
    }
  }

  /** The tree with its commitment slots still empty. */
  function BareTree(layer: nat, b: nat, m: Versions): HashVector
    requires 0 < layer <= MAX_LAYER
  {
    TreeOf(Leaves(layer, b, m), [])
  }

  /** The complete tree of batch b: above layer 1, the slot of every child batch that has been
      started holds the hash of the commitment to that child's complete tree. */
  function FullTree(layer: nat, b: nat, m: Versions): (t: HashVector)
    requires 0 < layer <= MAX_LAYER
    ensures |t| == TREE_SIZE
    decreases layer, 2
  {
    TreeOf(Leaves(layer, b, m), Slots(layer, b, m))
  }

  function Slots(layer: nat, b: nat, m: Versions): (slots: HashVector)
    requires 0 < layer <= MAX_LAYER
    ensures |slots| == if layer == 1 then 0 else L2
    decreases layer, 1
  {
    if layer == 1 then []
    else seq(L2, j requires 0 <= j => SlotValue(layer - 1, b * L2 + j, m))
  }

  function SlotValue(layer: nat, b: nat, m: Versions): Option<Hash>
    requires 0 < layer < MAX_LAYER
    decreases layer, 3
  {
    if b * BatchSize(layer) in m then Some(CommitmentHash(Commit(FullTree(layer, b, m)))) else None
  }

  /** The top of a batch tree is the root of the batch. */
  lemma {:induction false} TreeRoot(layer: nat, b: nat, m: Versions)
    requires 0 < layer <= MAX_LAYER
    ensures FullTree(layer, b, m)[0] == BareTree(layer, b, m)[0] == Root(layer, b, m)
  {
    TreeAt(Leaves(layer, b, m), Slots(layer, b, m), 0);
    TreeAt(Leaves(layer, b, m), [], 0);
  }

  lemma {:induction false} FullTreeLocal(layer: nat, b: nat, m: Versions, m': Versions)
    requires 0 < layer <= MAX_LAYER && SameIn(layer, b, m, m')
    ensures FullTree(layer, b, m) == FullTree(layer, b, m')
    decreases layer, 0
  {
    RootLocal(layer, b, m, m');
    if layer > 1 {
      forall j: nat | j < L2 ensures Slots(layer, b, m)[j] == Slots(layer, b, m')[j] {
        var c := b * L2 + j;
        SameInChild(layer, b, j, m, m');
        SlotLocal(layer - 1, c, m, m');
      }
      assert Slots(layer, b, m) == Slots(layer, b, m');
    }
  }

  lemma {:induction false} SlotLocal(layer: nat, b: nat, m: Versions, m': Versions)
    requires 0 < layer < MAX_LAYER && SameIn(layer, b, m, m')
    ensures SlotValue(layer, b, m) == SlotValue(layer, b, m')
    decreases layer, 1
  {
    FullTreeLocal(layer, b, m, m');
    FirstOfBatch(layer, b);
    assert SameAt(m, m', b * BatchSize(layer));
  }

  // ----- adding a version

  /** Storing version v changes one leaf of its batch, to nothing only if there was nothing. */
  lemma {:induction false} LeavesSet(layer: nat, v: nat, h: Hash, m: Versions)
    requires 0 < layer <= MAX_LAYER
    ensures var b := v / BatchSize(layer);
            var j := v / BatchSize(layer - 1) % Arity(layer);
            var root := Root(layer - 1, v / BatchSize(layer - 1), m[v := h]);
            && Leaves(layer, b, m[v := h]) == Leaves(layer, b, m)[j := root]
            && (root == None ==> Leaves(layer, b, m)[j] == None)
  {
    hide Merkle, BatchSize;
    var b := v / BatchSize(layer);
    var m' := m[v := h];
    var j := LeafIndex(layer, b, v);
    var leaves, leaves' := Leaves(layer, b, m), Leaves(layer, b, m');
    RootFull(layer - 1, b * Arity(layer) + j, m);
    RootFull(layer - 1, b * Arity(layer) + j, m');
    forall k: nat | k < Arity(layer) && k != j ensures leaves'[k] == leaves[k] {
      OtherChild(layer, b, j, k, v, h, m);
      RootLocal(layer - 1, b * Arity(layer) + k, m, m');
    }
    assert leaves' == leaves[j := leaves'[j]];
  }

  /** The leaf of a version that is added was empty. */
  lemma {:induction false} LeavesAdd(layer: nat, v: nat, h: Hash, m: Versions)
    requires 0 < layer <= MAX_LAYER && v !in m
    ensures var b := v / BatchSize(layer);
            var j := v / BatchSize(layer - 1) % Arity(layer);
            var m' := m[v := h];
            && Leaves(layer, b, m)[j] == None
            && Leaves(layer, b, m') == Leaves(layer, b, m)[j := Root(layer - 1, v / BatchSize(layer - 1), m')]
  {
    var b := v / BatchSize(layer);
    var j := LeafIndex(layer, b, v);
    RootFull(layer - 1, b * Arity(layer) + j, m);
    LeavesSet(layer, v, h, m);
  }

  lemma {:induction false} OtherChild(layer: nat, b: nat, j: nat, k: nat, v: nat, h: Hash, m: Versions)
    requires 0 < layer <= MAX_LAYER && j < Arity(layer) && k < Arity(layer) && j != k
    requires InBatch(layer - 1, b * Arity(layer) + j, v)
    ensures SameIn(layer - 1, b * Arity(layer) + k, m, m[v := h])
  {
  }

  /** Adding version v to its predecessors changes one slot of its batch. */
  lemma {:induction false} SlotsAdd(layer: nat, v: nat, h: Hash, m: Versions)
    requires 1 < layer <= MAX_LAYER && v !in m
    requires forall u: nat :: u < v ==> u in m
    ensures var b := v / BatchSize(layer);
            var c := v / BatchSize(layer - 1);
            var m' := m[v := h];
            Slots(layer, b, m') == Slots(layer, b, m)[c % L2 := Some(CommitmentHash(Commit(FullTree(layer - 1, c, m'))))]
  {
    var b := v / BatchSize(layer);
    var m' := m[v := h];
    var j := LeafIndex(layer, b, v);
    var c := b * L2 + j;
    var slots, slots' := Slots(layer, b, m), Slots(layer, b, m');
    FirstInBatch(layer - 1, c, v);
    assert c * BatchSize(layer - 1) in m';
    assert slots'[j] == SlotValue(layer - 1, c, m');
    forall k: nat | k < L2 && k != j ensures slots'[k] == slots[k] {
      OtherChild(layer, b, j, k, v, h, m);
      SlotLocal(layer - 1, b * L2 + k, m, m');
    }
    assert slots' == slots[j := slots'[j]];
  }

  lemma {:induction false} MerkleEmpty(leaves: HashVector, i: nat)
    requires i < 2 * |leaves| - 1
    requires forall j :: 0 <= j < |leaves| ==> leaves[j] == None
    ensures Merkle(leaves, i) == None
    decreases 2 * |leaves| - i
  {
    if i < |leaves| - 1 {
      MerkleEmpty(leaves, 2 * i + 1);
    }
  }

  lemma {:induction false} EmptyTreeOf(leaves: HashVector, slots: HashVector)
    requires Shaped(leaves, slots)
    requires forall j :: 0 <= j < |leaves| ==> leaves[j] == None
    requires forall j :: 0 <= j < |slots| ==> slots[j] == None
    ensures TreeOf(leaves, slots) == EmptyTree()
  {
    var t := TreeOf(leaves, slots);
    forall i: nat | i < TREE_SIZE ensures t[i] == None {
      TreeAt(leaves, slots, i);
      if i < 2 * |leaves| - 1 {
        MerkleEmpty(leaves, i);
      }
    }
  }

  /** A batch none of whose versions is present is empty. */
  lemma {:induction false} EmptyBatch(layer: nat, b: nat, m: Versions)
    requires 0 < layer <= MAX_LAYER
    requires forall v: nat :: InBatch(layer, b, v) ==> v !in m
    ensures FullTree(layer, b, m) == BareTree(layer, b, m) == EmptyTree()
  {
    EmptyLeaves(layer, b, m);
    EmptySlots(layer, b, m);
    EmptyTreeOf(Leaves(layer, b, m), Slots(layer, b, m));
    EmptyTreeOf(Leaves(layer, b, m), []);
  }

  lemma {:induction false} EmptyLeaves(layer: nat, b: nat, m: Versions)
    requires 0 < layer <= MAX_LAYER
    requires forall v: nat :: InBatch(layer, b, v) ==> v !in m
    ensures forall j :: 0 <= j < Arity(layer) ==> Leaves(layer, b, m)[j] == None
  {
    forall j: nat | j < Arity(layer) ensures Leaves(layer, b, m)[j] == None {
      var c := b * Arity(layer) + j;
      FirstOfBatch(layer - 1, c);
      FirstIsAbsent(layer, b, j, m);
      RootFull(layer - 1, c, m);
    }
  }

  lemma {:induction false} EmptySlots(layer: nat, b: nat, m: Versions)
    requires 0 < layer <= MAX_LAYER
    requires forall v: nat :: InBatch(layer, b, v) ==> v !in m
    ensures forall j :: 0 <= j < |Slots(layer, b, m)| ==> Slots(layer, b, m)[j] == None
  {
    forall j: nat | j < |Slots(layer, b, m)| ensures Slots(layer, b, m)[j] == None {
      FirstIsAbsent(layer, b, j, m);
      assert Slots(layer, b, m)[j] == SlotValue(layer - 1, b * L2 + j, m);
    }
  }

  lemma {:induction false} FirstIsAbsent(layer: nat, b: nat, j: nat, m: Versions)
    requires 0 < layer <= MAX_LAYER && j < Arity(layer)
    requires forall v: nat :: InBatch(layer, b, v) ==> v !in m
    ensures (b * Arity(layer) + j) * BatchSize(layer - 1) !in m
  {
    var c := b * Arity(layer) + j;
    var v := c * BatchSize(layer - 1);
    FirstOfBatch(layer - 1, c);
    ChildIndex(layer, b, j);
    BatchOfBatch(layer, v);
    assert InBatch(layer, b, v);
  }
}
