/** Adding leaves to an account's layered segment tree (types.go, AddLeafNode and UpdateLXTree). */
module SegmentTree {
  import opened Primitives
  import opened Heap
  import opened Layers

  const CHUNK_SIZE := 64

  function ChunksBelow(n: nat): set<nat> {
    if n == 0 then {} else ChunksBelow(n - 1) + {n - 1}
  }

  /** A layer's current batch tree, the commitment kept for it, and the chunks of the tree that
      differ, or may differ, from the database. */
  datatype Layer = Layer(tree: HashVector, commit: Point, dirty: set<nat>)

  function EmptyLayer(): Layer {
    Layer(EmptyTree(), ZERO, {})
  }

  type LayerStack = s: seq<Layer> | |s| == MAX_LAYER && forall i :: 0 <= i < |s| ==> |s[i].tree| == TREE_SIZE
    witness seq(MAX_LAYER, _ => EmptyLayer())

  /** The heap position of the leaf for version v at a layer. */
  function LeafOffset(layer: nat, v: nat): nat
    requires 0 < layer <= MAX_LAYER
  {
    Arity(layer) - 1 + v / BatchSize(layer - 1) % Arity(layer)
  }

  /** A layer after its leaf at heap position idx received a value (if any) and, above layer 1,
      its slot received the hash of the lower layer's commitment. */
  function UpdateLayer(s: Layer, layer: nat, idx: nat, value: Option<Hash>, lower: Point): (r: Layer)
    requires |s.tree| == TREE_SIZE && idx + 1 < TREE_SIZE && (layer > 1 ==> L2 + idx < TREE_SIZE)
    ensures |r.tree| == TREE_SIZE
  {
    InsertLeaf(if layer > 1 then SetSlot(s, L2 + idx, CommitmentHash(lower)) else s, idx, value)
  }

  function SetSlot(s: Layer, i: nat, h: Hash): Layer
    requires i < |s.tree|
  {
    var increment := if s.tree[i] == None then Scaled(i, h) else ScaledDifference(i, h, s.tree[i].value);
    Layer(s.tree[i := Some(h)], Add(s.commit, increment), s.dirty + {i / CHUNK_SIZE})
  }

  function InsertLeaf(s: Layer, idx: nat, value: Option<Hash>): (r: Layer)
    requires idx + 1 < |s.tree|
    ensures |r.tree| == |s.tree|
  {
    if value == None then s
    else
      StoreLeaf(s, s.tree[idx := value], idx)
  }

  function StoreLeaf(s: Layer, t: HashVector, idx: nat): (r: Layer)
    requires idx + 1 < |t| && t[idx].Some?
    ensures |r.tree| == |t|
  {
    ClimbFilled(t, idx);
    Layer(Climb(t, idx), CommitWritten(s.commit, Climb(t, idx), Written(t, idx)), s.dirty + ChunksOf(Written(t, idx)))
  }

  function Written(t: HashVector, idx: nat): seq<nat>
    requires idx + 1 < |t|
  {
    [idx] + Climbed(t, idx)
  }

  function ChunksOf(nodes: seq<nat>): set<nat> {
    if nodes == [] then {} else {nodes[0] / CHUNK_SIZE} + ChunksOf(nodes[1..])
  }

  /** The commitment after adding the terms of the written nodes: one multi-exponentiation for
      more than seven nodes, one scalar multiplication per node otherwise. */
  function CommitWritten(c: Point, t: HashVector, nodes: seq<nat>): Point
    requires Filled(t, nodes)
  {
    if |nodes| > 7 then Add(c, AddTerms(ZERO, t, nodes))
    else AddTerms(c, t, nodes)
  }

  /** The batch trees that must start afresh at version v are cleared. */
  function Reset(s: LayerStack, v: nat): LayerStack {
    seq(MAX_LAYER, i requires 0 <= i < MAX_LAYER => ResetLayer(s[i], i + 1, v))
  }

  function ResetLayer(s: Layer, layer: nat, v: nat): Layer
    requires 0 < layer <= MAX_LAYER
  {
    if v % BatchSize(layer) == 0 then Layer(EmptyTree(), ZERO, s.dirty + ChunksBelow(TREE_SIZE / CHUNK_SIZE)) else s
  }

  /** Layers 1 to `layer` updated with version v, from the lowest up: each layer receives the root
      and the commitment of the layer below. */
  function UpdateLayers(s: LayerStack, layer: nat, v: nat, h: Hash): (r: LayerStack)
    requires layer <= MAX_LAYER
    ensures forall i :: layer <= i < MAX_LAYER ==> r[i] == s[i]
  {
    if layer == 0 then s
    else
      var below := UpdateLayers(s, layer - 1, v, h);
      var value := if layer == 1 then Some(h) else below[layer - 2].tree[0];
      var lower := if layer == 1 then ZERO else below[layer - 2].commit;
      below[layer - 1 := UpdateLayer(s[layer - 1], layer, LeafOffset(layer, v), value, lower)]
  }

  function AddLeaf(s: LayerStack, v: nat, h: Hash): LayerStack {
    UpdateLayers(Reset(s, v), MAX_LAYER, v, h)
  }

  // ----- one layer follows the reference tree

  /** The layer holds the complete tree of batch b and the commitment to that tree. */
  ghost predicate LayerHolds(s: Layer, layer: nat, b: nat, m: Versions)
    requires 0 < layer <= MAX_LAYER
  {
    s.tree == FullTree(layer, b, m) && s.commit == Commit(s.tree)
  }

  lemma {:induction false} SetSlotCommits(s: Layer, i: nat, h: Hash)
    requires i < |s.tree| && s.commit == Commit(s.tree)
    ensures SetSlot(s, i, h).commit == Commit(SetSlot(s, i, h).tree)
  {
    if s.tree[i] == None {
      CommitFill(s.tree, i, h);
    } else {
      CommitReplace(s.tree, i, s.tree[i].value, h);
    }
  }

  /** Both ways of adding the terms give the same commitment. */
  lemma {:induction false} CommitWrittenAgrees(c: Point, t: HashVector, nodes: seq<nat>)
    requires Filled(t, nodes) && c.minus == multiset{}
    ensures CommitWritten(c, t, nodes) == AddTerms(c, t, nodes)
  {
    AddPositive(c, ZERO);
    assert Add(c, ZERO) == c;
    if |nodes| > 7 {
      MultiExpAgrees(c, ZERO, t, nodes);
    }
  }

  /** The insertion of a leaf that was empty keeps the commitment equal to the commitment
      to the whole tree. */
  lemma {:induction false} InsertCommits(t: HashVector, n: nat, idx: nat, h: Hash)
    requires n > 0 && 2 * n <= |t| && n - 1 <= idx < 2 * n - 1
    requires t[idx] == None && Hashed(t, t, n)
    ensures var t1 := t[idx := Some(h)];
            var nodes := [idx] + Climbed(t1, idx);
            && Filled(Climb(t1, idx), nodes)
            && CommitWritten(Commit(t), Climb(t1, idx), nodes) == Commit(Climb(t1, idx))
  {
    var t1 := t[idx := Some(h)];
    InsertedHashed(t, n, idx, h);
    ClimbCommits(t1, n, idx);
    ClimbFilled(t1, idx);
    ClimbFixed(t1, idx, idx);
    CommitFill(t, idx, h);
    AddTermsStep(Commit(t), Climb(t1, idx), idx, Climbed(t1, idx));
    CommitWrittenAgrees(Commit(t), Climb(t1, idx), [idx] + Climbed(t1, idx));
  }

  lemma {:induction false} InsertedHashed(t: HashVector, n: nat, idx: nat, h: Hash)
    requires n > 0 && 2 * n <= |t| && n - 1 <= idx < 2 * n - 1
    requires t[idx] == None && Hashed(t, t, n)
    ensures var t1 := t[idx := Some(h)]; Hashed(t1, t1[idx := None], n)
  {
    var t1 := t[idx := Some(h)];
    assert t1[idx := None] == t;
    forall q | 0 <= q < n - 1 ensures NodeHashed(t1, t, q) {
      assert NodeHashed(t, t, q);
    }
  }

  lemma {:induction false} TreeHashed(leaves: HashVector, slots: HashVector)
    requires Shaped(leaves, slots)
    ensures Hashed(TreeOf(leaves, slots), TreeOf(leaves, slots), |leaves|)
  {
    var t := TreeOf(leaves, slots);
    forall q | 0 <= q < |leaves| - 1 ensures NodeHashed(t, t, q) {
      TreeAt(leaves, slots, q);
      TreeAt(leaves, slots, 2 * q + 1);
      TreeAt(leaves, slots, 2 * q + 2);
    }
  }

  /** Updating a layer that holds a tree and its commitment yields the tree with the new leaf and
      slot, and its commitment. */
  lemma {:induction false} UpdateLayerHolds(s: Layer, layer: nat, leaves: HashVector, slots: HashVector, j: nat,
                         value: Option<Hash>, lower: Point)
    requires 0 < layer && |leaves| == Arity(layer) && |slots| == (if layer == 1 then 0 else L2) && j < |leaves|
    requires s.tree == TreeOf(leaves, slots) && s.commit == Commit(s.tree)
    requires leaves[j] == None
    ensures var r := UpdateLayer(s, layer, |leaves| - 1 + j, value, lower);
            var slots' := if layer == 1 then slots else slots[j := Some(CommitmentHash(lower))];
            r.tree == TreeOf(leaves[j := value], slots') && r.commit == Commit(r.tree)
  {
    var idx := |leaves| - 1 + j;
    if layer > 1 {
      var h := CommitmentHash(lower);
      assert L2 + idx == Slot(j);
      TreeSetSlot(leaves, slots, j, Some(h));
      SetSlotCommits(s, L2 + idx, h);
      InsertLeafHolds(SetSlot(s, L2 + idx, h), leaves, slots[j := Some(h)], j, value);
    } else {
      InsertLeafHolds(s, leaves, slots, j, value);
    }
  }

  lemma {:induction false} InsertLeafHolds(s: Layer, leaves: HashVector, slots: HashVector, j: nat, value: Option<Hash>)
    requires Shaped(leaves, slots) && j < |leaves| && leaves[j] == None
    requires s.tree == TreeOf(leaves, slots) && s.commit == Commit(s.tree)
    ensures var r := InsertLeaf(s, |leaves| - 1 + j, value);
            r.tree == TreeOf(leaves[j := value], slots) && r.commit == Commit(r.tree)
  {
    if value == None {
      assert leaves[j := value] == leaves;
    } else {
      TreeHashed(leaves, slots);
      TreeAt(leaves, slots, |leaves| - 1 + j);
      InsertCommits(s.tree, |leaves|, |leaves| - 1 + j, value.value);
      TreeInsert(leaves, slots, j, value);
    }
  }

  // ----- the whole stack follows the reference tree

  /** The versions are those below v. */
  ghost predicate UpTo(m: Versions, v: nat) {
    forall u: nat :: u in m <==> u < v
  }

  /** A layer holds the batch of version v. */
  ghost predicate LayerAt(s: LayerStack, layer: nat, v: nat, m: Versions)
    requires 0 < layer <= MAX_LAYER
  {
    LayerHolds(s[layer - 1], layer, v / BatchSize(layer), m)
  }

  /** Before version v is added, every batch that has been started holds the versions so far. */
  ghost predicate Follows(s: LayerStack, v: nat, m: Versions) {
    UpTo(m, v) && forall layer: nat :: 0 < layer <= MAX_LAYER ==> Continues(s, layer, v, m)
  }

  ghost predicate Continues(s: LayerStack, layer: nat, v: nat, m: Versions)
    requires 0 < layer <= MAX_LAYER
  {
    v % BatchSize(layer) != 0 ==> LayerAt(s, layer, v, m)
  }

  /** After version v was added, every layer holds the batch of v. */
  ghost predicate HoldsAt(s: LayerStack, v: nat, m: Versions) {
    HoldUpTo(s, MAX_LAYER, v, m)
  }

  /** The lowest layers hold the batch of v. */
  ghost predicate HoldUpTo(s: LayerStack, layer: nat, v: nat, m: Versions)
    requires layer <= MAX_LAYER
  {
    forall l: nat :: 0 < l <= layer ==> LayerAt(s, l, v, m)
  }

  lemma {:induction false} CommitEmpty()
    ensures Commit(EmptyTree()) == ZERO
  {
    forall x ensures Terms(EmptyTree())[x] == 0 {
      TermsMultiplicity(EmptyTree(), x);
    }
    assert Terms(EmptyTree()) == multiset{};
  }

  lemma {:induction false} NewBatch(layer: nat, v: nat, m: Versions)
    requires 0 < layer <= MAX_LAYER && v % BatchSize(layer) == 0
    requires forall u: nat :: u in m ==> u < v
    ensures forall u: nat :: InBatch(layer, v / BatchSize(layer), u) ==> u !in m
  {
    forall u: nat | InBatch(layer, v / BatchSize(layer), u) ensures u !in m {
      FirstInBatch(layer, v / BatchSize(layer), u);
    }
  }

  lemma {:induction false} ResetHolds(s: LayerStack, v: nat, m: Versions)
    requires Follows(s, v, m)
    ensures HoldsAt(Reset(s, v), v, m)
  {
    hide Reset;
    forall layer: nat | 0 < layer <= MAX_LAYER ensures LayerAt(Reset(s, v), layer, v, m) {
      assert Continues(s, layer, v, m);
      ResetOneHolds(s[layer - 1], layer, v, m);
      ResetAt(s, v, layer);
    }
  }

  lemma {:induction false} ResetAt(s: LayerStack, v: nat, layer: nat)
    requires 0 < layer <= MAX_LAYER
    ensures Reset(s, v)[layer - 1] == ResetLayer(s[layer - 1], layer, v)
  {
  }

  lemma {:induction false} ResetOneHolds(s: Layer, layer: nat, v: nat, m: Versions)
    requires 0 < layer <= MAX_LAYER && forall u: nat :: u in m ==> u < v
    requires v % BatchSize(layer) != 0 ==> LayerHolds(s, layer, v / BatchSize(layer), m)
    ensures LayerHolds(ResetLayer(s, layer, v), layer, v / BatchSize(layer), m)
  {
    if v % BatchSize(layer) == 0 {
      CommitEmpty();
      NewBatch(layer, v, m);
      EmptyBatch(layer, v / BatchSize(layer), m);
    }
  }

  lemma {:induction false} UpdateLayersHold(s: LayerStack, layer: nat, v: nat, h: Hash, m: Versions)
    requires layer <= MAX_LAYER && UpTo(m, v) && HoldsAt(s, v, m)
    ensures HoldUpTo(UpdateLayers(s, layer, v, h), layer, v, m[v := h])
  {
    hide UpdateLayers;
    if layer > 0 {
      UpdateLayersHold(s, layer - 1, v, h, m);
      assert LayerAt(s, layer, v, m);
      UpdateOneLayer(s, UpdateLayers(s, layer - 1, v, h), layer, v, h, m);
    }
  }

  /** What layer `layer` receives from the layers below it. */
  function Handed(below: LayerStack, layer: nat, h: Hash): (Option<Hash>, Point)
    requires 0 < layer <= MAX_LAYER
  {
    if layer == 1 then (Some(h), ZERO) else (below[layer - 2].tree[0], below[layer - 2].commit)
  }

  lemma {:induction false} UnfoldLayers(s: LayerStack, below: LayerStack, layer: nat, v: nat, h: Hash)
    requires 0 < layer <= MAX_LAYER && below == UpdateLayers(s, layer - 1, v, h)
    ensures UpdateLayers(s, layer, v, h) ==
            below[layer - 1 := UpdateLayer(s[layer - 1], layer, LeafOffset(layer, v), Handed(below, layer, h).0, Handed(below, layer, h).1)]
  {
  }

  lemma {:induction false} UpdateOneLayer(s: LayerStack, below: LayerStack, layer: nat, v: nat, h: Hash, m: Versions)
    requires 0 < layer <= MAX_LAYER && below == UpdateLayers(s, layer - 1, v, h) && UpTo(m, v)
    requires LayerAt(s, layer, v, m) && HoldUpTo(below, layer - 1, v, m[v := h])
    ensures HoldUpTo(UpdateLayers(s, layer, v, h), layer, v, m[v := h])
  {
    var (value, lower) := Handed(below, layer, h);
    UnfoldLayers(s, below, layer, v, h);
    UpdatedLayer(s[layer - 1], below, layer, v, h, m, value, lower);
    OneMoreLayer(below, UpdateLayers(s, layer, v, h), layer, v, m[v := h]);
  }

  lemma {:induction false} UpdatedLayer(s: Layer, below: LayerStack, layer: nat, v: nat, h: Hash, m: Versions,
                                        value: Option<Hash>, lower: Point)
    requires 0 < layer <= MAX_LAYER && UpTo(m, v) && LayerHolds(s, layer, v / BatchSize(layer), m)
    requires HoldUpTo(below, layer - 1, v, m[v := h]) && (value, lower) == Handed(below, layer, h)
    ensures LayerHolds(UpdateLayer(s, layer, LeafOffset(layer, v), value, lower), layer, v / BatchSize(layer), m[v := h])
  {
    ChildHands(below, layer, v, h, m[v := h], value, lower);
    UpdateWithChild(s, layer, v, h, m, value, lower, v / BatchSize(layer), v / BatchSize(layer - 1) % Arity(layer), LeafOffset(layer, v));
  }

  lemma {:induction false} OneMoreLayer(below: LayerStack, s: LayerStack, layer: nat, v: nat, m: Versions)
    requires 0 < layer <= MAX_LAYER && HoldUpTo(below, layer - 1, v, m) && LayerAt(s, layer, v, m)
    requires forall i :: 0 <= i < layer - 1 ==> s[i] == below[i]
    ensures HoldUpTo(s, layer, v, m)
  {
    forall l: nat | 0 < l <= layer ensures LayerAt(s, l, v, m) {
      assert l < layer ==> LayerAt(below, l, v, m);
    }
  }

  /** A layer hands its root and its commitment to the layer above. */
  lemma {:induction false} ChildHands(below: LayerStack, layer: nat, v: nat, h: Hash, m: Versions, value: Option<Hash>, lower: Point)
    requires 0 < layer <= MAX_LAYER && HoldUpTo(below, layer - 1, v, m) && v in m && m[v] == h
    requires (value, lower) == Handed(below, layer, h)
    ensures value == Root(layer - 1, v / BatchSize(layer - 1), m)
    ensures layer > 1 ==> lower == Commit(FullTree(layer - 1, v / BatchSize(layer - 1), m))
  {
    if layer > 1 {
      assert LayerAt(below, layer - 1, v, m);
      TreeRoot(layer - 1, v / BatchSize(layer - 1), m);
    }
  }

  /** The tree of v's batch once v is added, from the tree before: one leaf and, above layer 1, one
      slot differ. */
  lemma {:induction false} FullTreeAdd(layer: nat, v: nat, h: Hash, m: Versions, b: nat, j: nat, value: Option<Hash>, lower: Point)
    requires 0 < layer <= MAX_LAYER && UpTo(m, v)
    requires b == v / BatchSize(layer) && j == v / BatchSize(layer - 1) % Arity(layer)
    requires value == Root(layer - 1, v / BatchSize(layer - 1), m[v := h])
    requires layer > 1 ==> lower == Commit(FullTree(layer - 1, v / BatchSize(layer - 1), m[v := h]))
    ensures Leaves(layer, b, m)[j] == None
    ensures var slots := Slots(layer, b, m);
            FullTree(layer, b, m[v := h]) ==
            TreeOf(Leaves(layer, b, m)[j := value], if layer == 1 then slots else slots[j := Some(CommitmentHash(lower))])
  {
    LeavesAdd(layer, v, h, m);
    if layer > 1 {
      SlotsAdd(layer, v, h, m);
    }
  }

  lemma {:induction false} UpdateWithChild(s: Layer, layer: nat, v: nat, h: Hash, m: Versions, value: Option<Hash>, lower: Point,
                                           b: nat, j: nat, idx: nat)
    requires 0 < layer <= MAX_LAYER && UpTo(m, v) && idx == Arity(layer) - 1 + j
    requires b == v / BatchSize(layer) && j == v / BatchSize(layer - 1) % Arity(layer)
    requires LayerHolds(s, layer, b, m)
    requires value == Root(layer - 1, v / BatchSize(layer - 1), m[v := h])
    requires layer > 1 ==> lower == Commit(FullTree(layer - 1, v / BatchSize(layer - 1), m[v := h]))
    ensures LayerHolds(UpdateLayer(s, layer, idx, value, lower), layer, b, m[v := h])
  {
    FullTreeAdd(layer, v, h, m, b, j, value, lower);
    UpdateInBatch(s, layer, b, m[v := h], Leaves(layer, b, m), Slots(layer, b, m), j, idx, value, lower);
  }

  lemma {:induction false} UpdateInBatch(s: Layer, layer: nat, b: nat, m: Versions, leaves: HashVector, slots: HashVector, j: nat, idx: nat,
                                         value: Option<Hash>, lower: Point)
    requires 0 < layer <= MAX_LAYER && |leaves| == Arity(layer) && |slots| == (if layer == 1 then 0 else L2)
    requires s.tree == TreeOf(leaves, slots) && s.commit == Commit(s.tree)
    requires j < |leaves| && leaves[j] == None && idx == |leaves| - 1 + j
    requires FullTree(layer, b, m) == TreeOf(leaves[j := value], if layer == 1 then slots else slots[j := Some(CommitmentHash(lower))])
    ensures LayerHolds(UpdateLayer(s, layer, idx, value, lower), layer, b, m)
  {
    UpdateLayerHolds(s, layer, leaves, slots, j, value, lower);
  }

  /** One in-order insertion: every layer then holds exactly the tree of its current batch, and its
      commitment is the commitment to that whole tree computed from scratch. */
  lemma {:induction false} AddLeafHolds(s: LayerStack, v: nat, h: Hash, m: Versions)
    requires Follows(s, v, m)
    ensures HoldsAt(AddLeaf(s, v, h), v, m[v := h])
    ensures Follows(AddLeaf(s, v, h), v + 1, m[v := h])
  {
    ResetHolds(s, v, m);
    UpdateLayersHold(Reset(s, v), MAX_LAYER, v, h, m);
    HeldFollows(AddLeaf(s, v, h), v, m[v := h]);
  }

  lemma {:induction false} HeldFollows(s: LayerStack, v: nat, m: Versions)
    requires HoldUpTo(s, MAX_LAYER, v, m) && UpTo(m, v + 1)
    ensures HoldsAt(s, v, m) && Follows(s, v + 1, m)
  {
    var next := v + 1;
    forall layer: nat | 0 < layer <= MAX_LAYER ensures Continues(s, layer, next, m) {
      assert LayerAt(s, layer, v, m);
      SameBatch(layer, v);
    }
  }

  lemma {:induction false} SameBatch(layer: nat, v: nat)
    requires 0 < layer <= MAX_LAYER
    ensures (v + 1) / BatchSize(layer) == if (v + 1) % BatchSize(layer) == 0 then v / BatchSize(layer) + 1 else v / BatchSize(layer)
  {
  }

  // ----- whole runs

  /** The versions of a history, one per entry. */
  function VersionsOf(history: seq<Hash>): Versions {
    map v: nat | v < |history| :: history[v]
  }

  /** The stack after adding a whole history to an arbitrary initial stack. */
  function Build(initial: LayerStack, history: seq<Hash>): LayerStack {
    if history == [] then initial
    else
      var last := |history| - 1;
      AddLeaf(Build(initial, history[..last]), last, history[last])
  }

  lemma {:induction false} VersionsOfAppend(history: seq<Hash>)
    requires history != []
    ensures VersionsOf(history) == VersionsOf(history[..|history| - 1])[|history| - 1 := history[|history| - 1]]
  {
  }

  lemma {:induction false} BuildFollows(initial: LayerStack, history: seq<Hash>)
    ensures Follows(Build(initial, history), |history|, VersionsOf(history))
    ensures history != [] ==> HoldsAt(Build(initial, history), |history| - 1, VersionsOf(history))
  {
    if history != [] {
      var last := |history| - 1;
      BuildFollows(initial, history[..last]);
      VersionsOfAppend(history);
      AddLeafHolds(Build(initial, history[..last]), last, history[last], VersionsOf(history[..last]));
    } else {
      forall layer: nat | 0 < layer <= MAX_LAYER ensures Continues(initial, layer, 0, map[]) {
      }
    }
  }

  /** After any number of in-order insertions, the incremental commitment of every layer is the
      commitment to the layer's whole tree, and that tree is the reference tree of its batch. */
  lemma {:induction false} IncrementalIsFromScratch(initial: LayerStack, history: seq<Hash>, last: nat)
    requires last + 1 == |history|
    ensures HoldsAt(Build(initial, history), last, VersionsOf(history))
  {
    BuildFollows(initial, history);
  }
}
