/** Rebuilding batch trees from leaves alone (rebuildproof.go, AddLeafNode and UpdateLXTree;
    rebuildproof_old.go). */
module Rebuild {
  import opened Arithmetic
  import opened Primitives
  import opened Heap
  import opened Layers
  import opened SegmentTree
  import opened Descent
  import opened RangeCover
  import opened AccountObjects

  type TreeStack = s: seq<HashVector> | |s| == MAX_LAYER && forall i :: 0 <= i < |s| ==> |s[i]| == TREE_SIZE
    witness seq(MAX_LAYER, _ => EmptyTree())

  function EmptyStack(): TreeStack {
    [EmptyTree(), EmptyTree(), EmptyTree(), EmptyTree()]
  }

  function BareReset(t: HashVector, layer: nat, v: nat): HashVector
    requires 0 < layer <= MAX_LAYER
  {
    if v % BatchSize(layer) == 0 then EmptyTree() else t
  }

  /** Layers 1 to `layer` with version v inserted, without slots and commitments. */
  function BareLayers(s: TreeStack, layer: nat, v: nat, h: Hash): (r: TreeStack)
    requires layer <= MAX_LAYER
    ensures forall i :: layer <= i < MAX_LAYER ==> r[i] == s[i]
  {
    if layer == 0 then s
    else
      var below := BareLayers(s, layer - 1, v, h);
      var value := if layer == 1 then Some(h) else below[layer - 2][0];
      below[layer - 1 := Insert(BareReset(s[layer - 1], layer, v), LeafOffset(layer, v), value)]
  }

  function AddBareLeaf(s: TreeStack, v: nat, h: Hash): TreeStack {
    BareLayers(s, MAX_LAYER, v, h)
  }

  /** The trees of an account object. */
  ghost function Trees(a: AccountInfo): TreeStack
    requires a.Valid()
    reads a.trees
  {
    [a.Row(0), a.Row(1), a.Row(2), a.Row(3)]
  }

  twostate predicate OtherRows(a: AccountInfo, i: nat)
    requires a.Valid()
    reads a.trees
  {
    forall j: nat :: j < MAX_LAYER && j != i ==> a.Row(j) == old(a.Row(j))
  }

  method SetRowNode(a: AccountInfo, i: nat, k: nat, x: Option<Hash>)
    requires a.Valid() && i < MAX_LAYER && k < TREE_SIZE
    modifies a.trees
    ensures a.Row(i) == old(a.Row(i))[k := x] && OtherRows(a, i)
  {
    a.trees[i, k] := x;
    assert a.Row(i) == old(a.Row(i))[k := x];
    forall j: nat | j < MAX_LAYER && j != i ensures a.Row(j) == old(a.Row(j)) {
    }
  }

  /** Store a value in a layer's tree and recompute its ancestors, without its commitment. */
  method UpdateLXTree(a: AccountInfo, idx: nat, value: Option<Hash>, layer: nat)
    requires a.Valid() && 0 < layer <= MAX_LAYER && idx + 1 < TREE_SIZE
    modifies a.trees
    ensures a.Row(layer - 1) == Insert(old(a.Row(layer - 1)), idx, value) && OtherRows(a, layer - 1)
  {
    var row := layer - 1;
    if value == None {
      return;
    }
    SetRowNode(a, row, idx, value);
    ghost var target := Climb(a.Row(row), idx);
    var i: nat := idx;
    while i > 0
      invariant i <= idx && Climb(a.Row(row), i) == target && OtherRows(a, row)
    {
      var filled := FillParent(a, row, i);
      if !filled {
        break;
      }
      i := Parent(i);
    }
  }

  /** One step of the walk: the parent gets a hash if both children have one. */
  method FillParent(a: AccountInfo, row: nat, i: nat) returns (filled: bool)
    requires a.Valid() && row < MAX_LAYER && 0 < i && i + 1 < TREE_SIZE
    modifies a.trees
    ensures filled ==> Climb(a.Row(row), Parent(i)) == Climb(old(a.Row(row)), i)
    ensures !filled ==> a.Row(row) == old(a.Row(row)) == Climb(a.Row(row), i)
    ensures OtherRows(a, row)
  {
    var parent := Parent(i);
    var left, right := a.trees[row, 2 * parent + 1], a.trees[row, 2 * parent + 2];
    assert left == a.Row(row)[2 * parent + 1] && right == a.Row(row)[2 * parent + 2];
    if left == None || right == None {
      return false;
    }
    SetRowNode(a, row, parent, Some(PairHash(left.value, right.value)));
    return true;
  }

  method ClearTree(a: AccountInfo, i: nat)
    requires a.Valid() && i < MAX_LAYER
    modifies a.trees
    ensures a.Row(i) == EmptyTree() && OtherRows(a, i)
  {
    forall k | 0 <= k < TREE_SIZE {
      a.trees[i, k] := None;
    }
    assert a.Row(i) == EmptyTree();
    forall j: nat | j < MAX_LAYER && j != i ensures a.Row(j) == old(a.Row(j)) {
    }
  }

  function BareStart(s: TreeStack, v: nat): TreeStack {
    [BareReset(s[0], 1, v), BareReset(s[1], 2, v), BareReset(s[2], 3, v), BareReset(s[3], 4, v)]
  }

  method StartTrees(a: AccountInfo, v: nat)
    requires a.Valid()
    modifies a.trees
    ensures Trees(a) == BareStart(old(Trees(a)), v)
  {
    for layer := 1 to MAX_LAYER + 1
      invariant forall j: nat :: j < MAX_LAYER ==>
                  a.Row(j) == if j < layer - 1 then BareReset(old(a.Row(j)), j + 1, v) else old(a.Row(j))
    {
      if v % BatchSize(layer) == 0 {
        ClearTree(a, layer - 1);
      }
    }
  }

  /** Add a leaf to every layer of the trees (AddLeafNode, OldAddLeafNode). */
  method AddLeafNode(a: AccountInfo, v: nat, h: Hash)
    requires a.Valid()
    modifies a.trees
    ensures Trees(a) == AddBareLeaf(old(Trees(a)), v, h)
  {
    ghost var s := Trees(a);
    StartTrees(a, v);
    var value := Some(h);
    var layer := 1;
    while layer <= MAX_LAYER
      invariant 1 <= layer <= MAX_LAYER + 1
      invariant PartlyAdded(Trees(a), s, v, h, layer - 1)
      invariant value == if layer == 1 then Some(h) else Trees(a)[layer - 2][0]
    {
      UpdateLayerTree(a, s, v, h, layer, value);
      value := a.trees[layer - 1, 0];
      assert value == Trees(a)[layer - 1][0];
      layer := layer + 1;
    }
  }

  /** The first layers are updated, the others are only cleared where due. */
  ghost predicate PartlyAdded(t: TreeStack, s: TreeStack, v: nat, h: Hash, layer: nat)
    requires layer <= MAX_LAYER
  {
    forall j :: 0 <= j < MAX_LAYER ==>
      t[j] == if j < layer then BareLayers(s, layer, v, h)[j] else BareReset(s[j], j + 1, v)
  }

  /** One round of the loop of AddLeafNode. */
  method UpdateLayerTree(a: AccountInfo, ghost s: TreeStack, v: nat, h: Hash, layer: nat, value: Option<Hash>)
    requires a.Valid() && 0 < layer <= MAX_LAYER
    requires PartlyAdded(Trees(a), s, v, h, layer - 1)
    requires value == if layer == 1 then Some(h) else Trees(a)[layer - 2][0]
    modifies a.trees
    ensures PartlyAdded(Trees(a), s, v, h, layer)
  {
    ghost var before := Trees(a);
    assert forall j: nat :: j < MAX_LAYER ==> a.Row(j) == before[j];
    UpdateLXTree(a, LeafOffset(layer, v), value, layer);
    assert Trees(a) == before[layer - 1 := Insert(before[layer - 1], LeafOffset(layer, v), value)];
    AddedStep(before, s, v, h, layer, value);
  }

  lemma {:induction false} AddedStep(t: TreeStack, s: TreeStack, v: nat, h: Hash, layer: nat, value: Option<Hash>)
    requires 0 < layer <= MAX_LAYER && PartlyAdded(t, s, v, h, layer - 1)
    requires value == if layer == 1 then Some(h) else t[layer - 2][0]
    ensures PartlyAdded(t[layer - 1 := Insert(t[layer - 1], LeafOffset(layer, v), value)], s, v, h, layer)
  {
  }

  // ----- the rebuilt trees are the reference trees

  ghost predicate BareHolds(s: TreeStack, v: nat, m: Versions) {
    forall layer :: 0 < layer <= MAX_LAYER ==> s[layer - 1] == BareTree(layer, v / BatchSize(layer), m)
  }

  /** Before version v: batches already started hold the versions so far, which may begin anywhere. */
  ghost predicate BareFollows(s: TreeStack, v: nat, m: Versions) {
    && (forall u: nat :: u in m ==> u < v)
    && forall layer :: 0 < layer <= MAX_LAYER && v % BatchSize(layer) != 0 ==>
         s[layer - 1] == BareTree(layer, v / BatchSize(layer), m)
  }

  lemma {:induction false} BareResetHolds(s: TreeStack, v: nat, m: Versions, layer: nat)
    requires BareFollows(s, v, m) && 0 < layer <= MAX_LAYER
    ensures BareReset(s[layer - 1], layer, v) == BareTree(layer, v / BatchSize(layer), m)
  {
    if v % BatchSize(layer) == 0 {
      NewBatch(layer, v, m);
      EmptyBatch(layer, v / BatchSize(layer), m);
    }
  }

  lemma {:induction false} BareInsert(t: HashVector, layer: nat, v: nat, h: Hash, m: Versions, value: Option<Hash>)
    requires 0 < layer <= MAX_LAYER
    requires t == BareTree(layer, v / BatchSize(layer), m)
    requires value == Root(layer - 1, v / BatchSize(layer - 1), m[v := h])
    ensures Insert(t, LeafOffset(layer, v), value) == BareTree(layer, v / BatchSize(layer), m[v := h])
  {
    hide BatchSize, Leaves, Root;
    var b := v / BatchSize(layer);
    var j := LeafIndex(layer, b, v);
    LeavesSet(layer, v, h, m);
    TreeInsert(Leaves(layer, b, m), [], j, value);
  }

  ghost predicate BareUpTo(s: TreeStack, layer: nat, v: nat, m: Versions)
    requires layer <= MAX_LAYER
  {
    forall l :: 0 < l <= layer ==> s[l - 1] == BareTree(l, v / BatchSize(l), m)
  }

  lemma {:induction false} BareLayersHold(s: TreeStack, layer: nat, v: nat, h: Hash, m: Versions)
    requires layer <= MAX_LAYER && BareFollows(s, v, m)
    ensures BareUpTo(BareLayers(s, layer, v, h), layer, v, m[v := h])
  {
    if layer > 0 {
      var below := BareLayers(s, layer - 1, v, h);
      BareLayersHold(s, layer - 1, v, h, m);
      BareOneLayer(s, below, layer, v, h, m);
      BareMoreLayer(below, BareLayers(s, layer, v, h), layer, v, m[v := h]);
    }
  }

  lemma {:induction false} BareMoreLayer(below: TreeStack, s: TreeStack, layer: nat, v: nat, m: Versions)
    requires 0 < layer <= MAX_LAYER && BareUpTo(below, layer - 1, v, m)
    requires s[layer - 1] == BareTree(layer, v / BatchSize(layer), m)
    requires forall i :: 0 <= i < layer - 1 ==> s[i] == below[i]
    ensures BareUpTo(s, layer, v, m)
  {
  }

  lemma {:induction false} BareOneLayer(s: TreeStack, below: TreeStack, layer: nat, v: nat, h: Hash, m: Versions)
    requires 0 < layer <= MAX_LAYER && BareFollows(s, v, m)
    requires below == BareLayers(s, layer - 1, v, h) && BareUpTo(below, layer - 1, v, m[v := h])
    ensures BareLayers(s, layer, v, h)[layer - 1] == BareTree(layer, v / BatchSize(layer), m[v := h])
  {
    var value := if layer == 1 then Some(h) else below[layer - 2][0];
    BareResetHolds(s, v, m, layer);
    BareHands(below, layer, v, h, m[v := h], value);
    BareInsert(BareReset(s[layer - 1], layer, v), layer, v, h, m, value);
  }

  lemma {:induction false} BareHands(below: TreeStack, layer: nat, v: nat, h: Hash, m: Versions, value: Option<Hash>)
    requires 0 < layer <= MAX_LAYER && BareUpTo(below, layer - 1, v, m) && v in m && m[v] == h
    requires value == if layer == 1 then Some(h) else below[layer - 2][0]
    ensures value == Root(layer - 1, v / BatchSize(layer - 1), m)
  {
    if layer > 1 {
      assert below[layer - 2] == BareTree(layer - 1, v / BatchSize(layer - 1), m);
      TreeRoot(layer - 1, v / BatchSize(layer - 1), m);
    }
  }

  /** In-order insertion from any first version: every layer holds the tree over the versions seen. */
  lemma {:induction false} AddBareLeafHolds(s: TreeStack, v: nat, h: Hash, m: Versions)
    requires BareFollows(s, v, m)
    ensures BareHolds(AddBareLeaf(s, v, h), v, m[v := h])
    ensures BareFollows(AddBareLeaf(s, v, h), v + 1, m[v := h])
  {
    BareLayersHold(s, MAX_LAYER, v, h, m);
    forall layer | 0 < layer <= MAX_LAYER && (v + 1) % BatchSize(layer) != 0
      ensures (v + 1) / BatchSize(layer) == v / BatchSize(layer)
    {
      SameBatch(layer, v);
    }
  }

  /** After an in-order insertion every inner node of a layer's tree pairs its children, and the new hash is at its
      place. */
  lemma {:induction false} BareAddedPairs(s: TreeStack, v: nat, h: Hash, m: Versions, layer: nat)
    requires BareFollows(s, v, m) && 0 < layer <= MAX_LAYER
    ensures AllPair(AddBareLeaf(s, v, h)[layer - 1], if layer == 1 then 2048 else 1365)
    ensures AddBareLeaf(s, v, h)[0][2047 + v % 2048] == Some(h)
  {
    hide AllPair, BareTree, AddBareLeaf, BatchSize, FullTree;
    var r := AddBareLeaf(s, v, h);
    AddBareLeafHolds(s, v, h, m);
    assert r[layer - 1] == BareTree(layer, v / BatchSize(layer), m[v := h]);
    var first := 1;
    assert r[first - 1] == BareTree(first, v / BatchSize(first), m[v := h]);
    BatchTreePairs(layer, v / BatchSize(layer), m[v := h]);
    VersionLeaf(v / BatchSize(1), m[v := h], v);
  }

  /** Nothing has been added yet. */
  lemma {:induction false} EmptyFollows(v: nat)
    ensures BareFollows(EmptyStack(), v, map[])
  {
    forall layer | 0 < layer <= MAX_LAYER
      ensures EmptyStack()[layer - 1] == BareTree(layer, v / BatchSize(layer), map[])
    {
      EmptyBatch(layer, v / BatchSize(layer), map[]);
    }
  }

  // ----- snapshots

  /** The batch that ends with version v, or that no later version has reached, is final. */
  lemma {:induction false} FinalBatch(layer: nat, v: nat, m: Versions, all: Versions)
    requires 0 < layer <= MAX_LAYER
    requires forall u: nat :: u <= v ==> SameAt(m, all, u)
    requires forall u: nat :: u in m ==> u <= v
    requires (v + 1) / BatchSize(layer) != v / BatchSize(layer) || (forall u: nat :: u in all ==> u <= v)
    ensures BareTree(layer, v / BatchSize(layer), m) == BareTree(layer, v / BatchSize(layer), all)
  {
    var b := v / BatchSize(layer);
    forall u: nat | InBatch(layer, b, u) ensures SameAt(m, all, u) {
      LaterBatch(layer, v, u);
    }
    RootLocal(layer, b, m, all);
  }

  lemma {:induction false} LaterBatch(layer: nat, v: nat, u: nat)
    requires 0 < layer <= MAX_LAYER
    ensures (v + 1) / BatchSize(layer) != v / BatchSize(layer) && u > v ==> !InBatch(layer, v / BatchSize(layer), u)
  {
    SameBatch(layer, v);
    if u > v {
      Monotone(v + 1, u, BatchSize(layer));
    }
  }
}
