/** Reading a batch tree from its root: which hash is on which side (types.go, UpdateLXTree). */
module Descent {
  import opened Arithmetic
  import opened Primitives
  import opened Heap
  import opened Layers
  import opened SegmentTree

  // ----- a node is the hash of its left and its right child, in this order

  /** Node p holds the hash of its children, the one with the odd index first, or nothing while one is missing. */
  predicate PairsChildren(t: HashVector, p: nat)
    requires 2 * p + 2 < |t|
  {
    if t[2 * p + 1].Some? && t[2 * p + 2].Some?
    then t[p] == Some(PairHash(t[2 * p + 1].value, t[2 * p + 2].value))
    else t[p] == None
  }

  /** All inner nodes of a tree with n leaves do. */
  ghost predicate AllPair(t: HashVector, n: nat)
    requires 0 < n && 2 * n <= |t|
  {
    forall p: nat :: p < n - 1 ==> PairsChildren(t, p)
  }

  lemma {:induction false} TreeOfPairs(leaves: HashVector, slots: HashVector)
    requires Shaped(leaves, slots)
    ensures AllPair(TreeOf(leaves, slots), |leaves|)
  {
    var t := TreeOf(leaves, slots);
    forall p: nat | p < |leaves| - 1 ensures PairsChildren(t, p) {
      TreeAt(leaves, slots, p);
      TreeAt(leaves, slots, 2 * p + 1);
      TreeAt(leaves, slots, 2 * p + 2);
    }
  }

  /** The complete tree of a batch, and the one without slots. */
  lemma {:induction false} BatchTreePairs(layer: nat, b: nat, m: Versions)
    requires 0 < layer <= MAX_LAYER
    ensures AllPair(FullTree(layer, b, m), if layer == 1 then 2048 else 1365)
    ensures AllPair(BareTree(layer, b, m), if layer == 1 then 2048 else 1365)
  {
    TreeOfPairs(Leaves(layer, b, m), Slots(layer, b, m));
    TreeOfPairs(Leaves(layer, b, m), []);
  }

  /** Version v is the leaf at its place in the layer-1 tree. */
  lemma {:induction false} VersionLeaf(b: nat, m: Versions, v: nat)
    requires InBatch(1, b, v) && v in m
    ensures FullTree(1, b, m)[2047 + v % 2048] == BareTree(1, b, m)[2047 + v % 2048] == Some(m[v])
  {
    var j := LeafIndex(1, b, v);
    assert Leaves(1, b, m)[j] == Root(0, b * Arity(1) + j, m);
    TreeAt(Leaves(1, b, m), Slots(1, b, m), 2047 + j);
    TreeAt(Leaves(1, b, m), [], 2047 + j);
  }

  /** Above layer 1 the leaf of a child batch is the top of its tree, and behind the heap of 2729 nodes comes a slot for
      each child batch, with the hash of the commitment to its tree once its first version is there. */
  lemma {:induction false} ChildPlaces(layer: nat, b: nat, m: Versions, j: nat)
    requires 1 < layer <= MAX_LAYER && j < 1365
    ensures FullTree(layer, b, m)[1364 + j] == FullTree(layer - 1, b * 1365 + j, m)[0]
    ensures FullTree(layer, b, m)[2729 + j] ==
            if (b * 1365 + j) * BatchSize(layer - 1) in m then Some(CommitmentHash(Commit(FullTree(layer - 1, b * 1365 + j, m)))) else None
  {
    var t := FullTree(layer, b, m);
    TreeAt(Leaves(layer, b, m), Slots(layer, b, m), 1364 + j);
    TreeAt(Leaves(layer, b, m), Slots(layer, b, m), 2729 + j);
    assert Leaves(layer, b, m)[j] == Root(layer - 1, b * Arity(layer) + j, m);
    assert Slots(layer, b, m)[j] == SlotValue(layer - 1, b * L2 + j, m);
    TreeRoot(layer - 1, b * 1365 + j, m);
  }

  // ----- whole stacks

  /** Every inner node of a layer's tree pairs its children. */
  ghost predicate LayerPairs(s: LayerStack, layer: nat)
    requires 0 < layer <= MAX_LAYER
  {
    AllPair(s[layer - 1].tree, if layer == 1 then 2048 else 1365)
  }

  ghost predicate StackPairs(s: LayerStack) {
    forall layer: nat :: 0 < layer <= MAX_LAYER ==> LayerPairs(s, layer)
  }

  /** The trees after an in-order insertion: every inner node pairs its children, and the new hash is at its place. */
  lemma {:induction false} AddedPairs(s: LayerStack, v: nat, h: Hash, m: Versions)
    requires Follows(s, v, m)
    ensures StackPairs(AddLeaf(s, v, h)) && AddLeaf(s, v, h)[0].tree[2047 + v % 2048] == Some(h)
  {
    hide AllPair, FullTree, BareTree, AddLeaf, BatchSize, Commit;
    var r := AddLeaf(s, v, h);
    AddLeafHolds(s, v, h, m);
    forall layer: nat | 0 < layer <= MAX_LAYER ensures LayerPairs(r, layer) {
      assert LayerAt(r, layer, v, m[v := h]);
      BatchTreePairs(layer, v / BatchSize(layer), m[v := h]);
    }
    assert LayerAt(r, 1, v, m[v := h]);
    VersionLeaf(v / BatchSize(1), m[v := h], v);
  }

  /** Whatever the trees are, an insertion puts the hash at its place. */
  lemma {:induction false} LeafStored(s: LayerStack, v: nat, h: Hash)
    ensures AddLeaf(s, v, h)[0].tree[2047 + v % 2048] == Some(h)
  {
    FirstLayerStored(Reset(s, v), MAX_LAYER, v, h);
  }

  lemma {:induction false} FirstLayerStored(s: LayerStack, layer: nat, v: nat, h: Hash)
    requires 1 <= layer <= MAX_LAYER
    ensures UpdateLayers(s, layer, v, h)[0].tree[2047 + v % 2048] == Some(h)
  {
    hide InsertLeaf, SetSlot;
    if layer == 1 {
      PlaceIs(1, v);
      LeafInserted(s[0], 2047 + v % 2048, h);
    } else {
      FirstLayerStored(s, layer - 1, v, h);
    }
  }

  lemma {:induction false} LeafInserted(s: Layer, idx: nat, h: Hash)
    requires idx + 1 < |s.tree|
    ensures InsertLeaf(s, idx, Some(h)).tree[idx] == Some(h)
  {
    var t := s.tree[idx := Some(h)];
    ClimbedBelow(t, idx);
    ClimbFixed(t, idx, idx);
  }

  // ----- which chunks an insertion marks

  /** Node i is the leaf of version v at a layer, an ancestor of it, or the slot for its child batch. */
  predicate OnPath(i: nat, layer: nat, v: nat)
    requires 0 < layer <= MAX_LAYER
  {
    Below(i, LeafOffset(layer, v)) || (layer > 1 && i == 2729 + v / BatchSize(layer - 1) % 1365)
  }

  lemma {:induction false} ClimbedAncestor(t: HashVector, i: nat, q: nat)
    requires i + 1 < |t| && q in Climbed(t, i)
    ensures Below(q, i)
    decreases i
  {
    var p := Parent(i);
    var t' := t[p := Combine(t[2 * p + 1], t[2 * p + 2])];
    ClimbedBelow(t, i);
    if q != p {
      ClimbedAncestor(t', p, q);
    }
  }

  lemma {:induction false} ChunkMember(nodes: seq<nat>, c: nat) returns (q: nat)
    requires c in ChunksOf(nodes)
    ensures q in nodes && q / 64 == c
  {
    if nodes[0] / CHUNK_SIZE == c {
      q := nodes[0];
    } else {
      q := ChunkMember(nodes[1..], c);
    }
  }

  lemma {:induction false} LayerMarks(s: Layer, layer: nat, v: nat, value: Option<Hash>, lower: Point, c: nat) returns (i: nat)
    requires 0 < layer <= MAX_LAYER && |s.tree| == TREE_SIZE && LeafOffset(layer, v) + 1 < TREE_SIZE
    requires layer > 1 ==> L2 + LeafOffset(layer, v) < TREE_SIZE
    requires c in UpdateLayer(s, layer, LeafOffset(layer, v), value, lower).dirty && c !in s.dirty
    ensures i / 64 == c && OnPath(i, layer, v)
  {
    hide Climb, CommitWritten, BatchSize, Below, ChunksOf, Climbed;
    var idx := LeafOffset(layer, v);
    var s' := if layer > 1 then SetSlot(s, L2 + idx, CommitmentHash(lower)) else s;
    if layer > 1 && c == (L2 + idx) / CHUNK_SIZE {
      i := L2 + idx;
    } else {
      i := WrittenMark(s'.tree[idx := value], idx, c);
    }
  }

  lemma {:induction false} WrittenMark(t: HashVector, idx: nat, c: nat) returns (i: nat)
    requires idx + 1 < |t| && c in ChunksOf(Written(t, idx))
    ensures i / 64 == c && Below(i, idx)
  {
    hide ChunksOf, Climbed;
    i := ChunkMember(Written(t, idx), c);
    if i != idx {
      assert i in Climbed(t, idx);
      ClimbedAncestor(t, idx, i);
    }
  }

  lemma {:induction false} LayerUpdated(s: LayerStack, upper: nat, layer: nat, v: nat, h: Hash) returns (value: Option<Hash>, lower: Point)
    requires 0 < layer <= upper <= MAX_LAYER
    ensures UpdateLayers(s, upper, v, h)[layer - 1] == UpdateLayer(s[layer - 1], layer, LeafOffset(layer, v), value, lower)
    decreases upper
  {
    hide UpdateLayer, UpdateLayers, BatchSize;
    var below := UpdateLayers(s, upper - 1, v, h);
    UnfoldLayers(s, below, upper, v, h);
    if layer == upper {
      value, lower := Handed(below, upper, h).0, Handed(below, upper, h).1;
    } else {
      value, lower := LayerUpdated(s, upper - 1, layer, v, h);
    }
  }

  /** A chunk that an insertion marks anew holds a node on the way from the leaf to the root or the slot, unless the batch
      starts with the version. */
  lemma {:induction false} NewMarks(s: LayerStack, v: nat, h: Hash, layer: nat, c: nat) returns (i: nat)
    requires 0 < layer <= MAX_LAYER && c in AddLeaf(s, v, h)[layer - 1].dirty && c !in s[layer - 1].dirty
    ensures v % BatchSize(layer) == 0 || (i / 64 == c && OnPath(i, layer, v))
  {
    hide UpdateLayer, UpdateLayers, BatchSize, OnPath;
    i := 0;
    if v % BatchSize(layer) != 0 {
      var value, lower := LayerUpdated(Reset(s, v), MAX_LAYER, layer, v, h);
      ResetAt(s, v, layer);
      i := LayerMarks(s[layer - 1], layer, v, value, lower, c);
    }
  }

  // ----- from the root of a batch down to a version

  /** The hash at heap node i, read off the hash at the root: left at odd nodes, right at even ones. */
  function NodeOf(root: Hash, i: nat): Option<Hash> {
    if i == 0 then Some(root) else Side(NodeOf(root, (i - 1) / 2), i % 2 == 1)
  }

  function Side(parent: Option<Hash>, odd: bool): Option<Hash> {
    match parent
    case Some(PairHash(left, right)) => Some(if odd then left else right)
    case _ => None
  }

  /** The leaf of version v in the tree of its batch of a layer. */
  function Place(layer: nat, v: nat): nat
    requires 0 < layer <= 4
  {
    if layer == 1 then 2047 + v % 2048
    else if layer == 2 then 1364 + v / 2048 % 1365
    else if layer == 3 then 1364 + v / (2048 * 1365) % 1365
    else 1364 + v / (2048 * 1365 * 1365) % 1365
  }

  /** The leaf hash of version v, read off the root of its batch through all lower layers. */
  function VersionOf(root: Hash, layer: nat, v: nat): Option<Hash>
    requires layer <= 4
    decreases layer
  {
    if layer == 0 then Some(root)
    else
      match NodeOf(root, Place(layer, v))
      case Some(h) => VersionOf(h, layer - 1, v)
      case None => None
  }

  lemma {:induction false} NodeOfChild(root: Hash, p: nat, i: nat)
    requires i > 0 && p == (i - 1) / 2
    ensures NodeOf(root, i) == Side(NodeOf(root, p), i % 2 == 1)
  {
  }

  lemma {:induction false} NodeOfChildren(root: Hash, p: nat, left: Hash, right: Hash)
    requires NodeOf(root, p) == Some(PairHash(left, right))
    ensures NodeOf(root, 2 * p + 1) == Some(left) && NodeOf(root, 2 * p + 2) == Some(right)
  {
    hide NodeOf;
    NodeOfChild(root, p, 2 * p + 1);
    NodeOfChild(root, p, 2 * p + 2);
  }

  lemma {:induction false} NodeDescends(leaves: HashVector, i: nat)
    requires i < 2 * |leaves| - 1 && Merkle(leaves, 0).Some?
    ensures Merkle(leaves, i).Some? && NodeOf(Merkle(leaves, 0).value, i) == Merkle(leaves, i)
    decreases i
  {
    hide NodeOf;
    if i == 0 {
      RootNode(Merkle(leaves, 0).value);
    } else {
      var p := Parent(i);
      NodeDescends(leaves, p);
      var l, r := Merkle(leaves, 2 * p + 1), Merkle(leaves, 2 * p + 2);
      NodeOfChildren(Merkle(leaves, 0).value, p, l.value, r.value);
    }
  }

  lemma {:induction false} RootNode(root: Hash)
    ensures NodeOf(root, 0) == Some(root)
  {
  }

  lemma {:induction false} PlaceIs(layer: nat, v: nat)
    requires 0 < layer <= MAX_LAYER
    ensures Place(layer, v) == Arity(layer) - 1 + v / BatchSize(layer - 1) % Arity(layer)
  {
  }

  /** Descending from the root of a complete batch of any layer reaches the leaf hash of each of its versions. */
  lemma {:induction false} RootDescends(layer: nat, b: nat, m: Versions, v: nat)
    requires layer <= MAX_LAYER && InBatch(layer, b, v) && Root(layer, b, m).Some?
    ensures v in m && VersionOf(Root(layer, b, m).value, layer, v) == Some(m[v])
    decreases layer
  {
    hide Merkle, NodeOf, Place, Arity, BatchSize;
    if layer == 0 {
      OneVersion(b, v);
    } else {
      var j := LeafIndex(layer, b, v);
      var leaves := Leaves(layer, b, m);
      PlaceIs(layer, v);
      LeafIsRoot(layer, b, m, j);
      LeafOf(leaves, j);
      NodeDescends(leaves, |leaves| - 1 + j);
      RootDescends(layer - 1, b * Arity(layer) + j, m, v);
    }
  }

  lemma {:induction false} LeafOf(leaves: HashVector, j: nat)
    requires j < |leaves|
    ensures Merkle(leaves, |leaves| - 1 + j) == leaves[j]
  {
  }

  /** In particular from the top of the account's tree of any layer. */
  lemma {:induction false} TreeDescends(layer: nat, b: nat, m: Versions, v: nat)
    requires 0 < layer <= MAX_LAYER && InBatch(layer, b, v) && FullTree(layer, b, m)[0].Some?
    ensures v in m && VersionOf(FullTree(layer, b, m)[0].value, layer, v) == Some(m[v])
  {
    TreeRoot(layer, b, m);
    RootDescends(layer, b, m, v);
  }
}
