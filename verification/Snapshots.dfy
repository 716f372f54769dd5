/** Copying required batch trees while versions are added in order
    (the loops of rebuildproof_old.go and rebuildverify.go). */
module Snapshots {
  import opened Arithmetic
  import opened Primitives
  import opened Layers
  import opened SegmentTree
  import opened RangeCover
  import opened AccountObjects
  import opened Rebuild

  /** The required batch indices of every layer. */
  type BatchIdxs = s: seq<seq<nat>> | |s| == MAX_LAYER witness [[], [], [], []]

  type TreeMap = map<Key, HashVector>

  predicate Wanted(required: BatchIdxs, k: Key) {
    0 < k.0 <= MAX_LAYER && k.1 in required[k.0 - 1]
  }

  /** A required batch is copied after its last version, or after the last version of all. */
  predicate CopiedAfter(required: BatchIdxs, v: nat, last: bool, k: Key) {
    Wanted(required, k) && InBatch(k.0, k.1, v) && (last || !InBatch(k.0, k.1, v + 1))
  }

  ghost predicate CopyStep(before: TreeMap, after: TreeMap, required: BatchIdxs, v: nat, last: bool, s: TreeStack) {
    && (forall k: Key :: k in after <==> k in before || CopiedAfter(required, v, last, k))
    && forall k: Key :: k in after ==> after[k] == if CopiedAfter(required, v, last, k) then s[k.0 - 1] else before[k]
  }

  method CopyTree(a: AccountInfo, i: nat) returns (t: HashVector)
    requires a.Valid() && i < MAX_LAYER
    ensures t == Trees(a)[i]
  {
    t := seq(TREE_SIZE, k requires 0 <= k < TREE_SIZE && a.Valid() && i < MAX_LAYER reads a.trees => a.trees[i, k]);
    assert t == a.Row(i);
  }

  /** The copy of one layer's tree, if it is due. */
  method CopyLayer(a: AccountInfo, required: BatchIdxs, v: nat, last: bool, layer: nat, before: TreeMap) returns (trees: TreeMap)
    requires a.Valid() && 0 < layer <= MAX_LAYER
    ensures trees == if CopiedAfter(required, v, last, (layer, v / BatchSize(layer)))
                     then before[(layer, v / BatchSize(layer)) := Trees(a)[layer - 1]] else before
  {
    trees := before;
    var current, next := v / BatchSize(layer), (v + 1) / BatchSize(layer);
    if (last || next != current) && current in required[layer - 1] {
      var t := CopyTree(a, layer - 1);
      trees := trees[(layer, current) := t];
    }
  }

  ghost predicate CopyLayers(before: TreeMap, after: TreeMap, required: BatchIdxs, v: nat, last: bool, s: TreeStack, layers: nat) {
    && (forall k: Key :: k in after <==> k in before || (k.0 <= layers && CopiedAfter(required, v, last, k)))
    && forall k: Key :: k in after ==>
         after[k] == if k.0 <= layers && CopiedAfter(required, v, last, k) then s[k.0 - 1] else before[k]
  }

  lemma {:induction false} CopyLayersStep(before: TreeMap, trees: TreeMap, required: BatchIdxs, v: nat, last: bool, s: TreeStack, layer: nat)
    requires 0 < layer <= MAX_LAYER && CopyLayers(before, trees, required, v, last, s, layer - 1)
    ensures var k: Key := (layer, v / BatchSize(layer));
            CopyLayers(before, if CopiedAfter(required, v, last, k) then trees[k := s[layer - 1]] else trees, required, v, last, s, layer)
  {
    hide BatchSize;
  }

  method CopyFinished(a: AccountInfo, required: BatchIdxs, v: nat, last: bool, before: TreeMap) returns (trees: TreeMap)
    requires a.Valid()
    ensures CopyStep(before, trees, required, v, last, Trees(a))
  {
    trees := before;
    var layer := 1;
    while layer <= MAX_LAYER
      invariant 1 <= layer <= MAX_LAYER + 1
      invariant CopyLayers(before, trees, required, v, last, Trees(a), layer - 1)
    {
      CopyLayersStep(before, trees, required, v, last, Trees(a), layer);
      trees := CopyLayer(a, required, v, last, layer, trees);
      layer := layer + 1;
    }
  }

  /** One iteration: add the version to the trees, then copy the required batches it completes. */
  method AddAndCopy(a: AccountInfo, v: nat, h: Hash, required: BatchIdxs, last: bool, before: TreeMap) returns (trees: TreeMap)
    requires a.Valid()
    modifies a.trees
    ensures Trees(a) == AddBareLeaf(old(Trees(a)), v, h)
    ensures CopyStep(before, trees, required, v, last, Trees(a))
  {
    AddLeafNode(a, v, h);
    trees := CopyFinished(a, required, v, last, before);
  }

  // ----- versions first, first + 1, ... added in order

  ghost predicate Consecutive(all: Versions, first: nat, end: nat) {
    forall v: nat :: v in all <==> first <= v < end
  }

  function Before(all: Versions, n: nat): Versions {
    map v | v in all && v < n :: all[v]
  }

  /** When the versions first to n - 1 of those up to end have been added, batch k has been copied. */
  predicate Finished(k: Key, first: nat, n: nat, end: nat)
    requires 0 < k.0 <= MAX_LAYER
  {
    first < n && first / BatchSize(k.0) <= k.1 && if n == end then k.1 <= (n - 1) / BatchSize(k.0) else k.1 < n / BatchSize(k.0)
  }

  lemma {:induction false} FinishedStep(k: Key, first: nat, v: nat, end: nat)
    requires 0 < k.0 <= MAX_LAYER && first <= v < end
    ensures Finished(k, first, v + 1, end) <==>
            Finished(k, first, v, end) || (InBatch(k.0, k.1, v) && (v + 1 == end || !InBatch(k.0, k.1, v + 1)))
  {
    SameBatch(k.0, v);
    Monotone(first, v, BatchSize(k.0));
  }

  /** The copies so far are the trees over all the versions. */
  ghost predicate Copied(trees: TreeMap, required: BatchIdxs, all: Versions, first: nat, n: nat, end: nat) {
    && (forall k :: k in trees <==> Wanted(required, k) && Finished(k, first, n, end))
    && forall k :: k in trees ==> trees[k] == BareTree(k.0, k.1, all)
  }

  lemma {:induction false} FollowsStep(all: Versions, first: nat, v: nat, end: nat, s: TreeStack)
    requires Consecutive(all, first, end) && first <= v < end
    requires BareFollows(s, v, Before(all, v))
    ensures BareFollows(AddBareLeaf(s, v, all[v]), v + 1, Before(all, v + 1))
    ensures BareHolds(AddBareLeaf(s, v, all[v]), v, Before(all, v + 1))
  {
    assert Before(all, v)[v := all[v]] == Before(all, v + 1);
    AddBareLeafHolds(s, v, all[v], Before(all, v));
  }

  /** A tree copied when its batch is complete, or after the last version, is the tree over all
      the versions. */
  lemma {:induction false} CopiedStep(before: TreeMap, after: TreeMap, required: BatchIdxs, all: Versions, first: nat, v: nat, end: nat, s: TreeStack)
    requires Consecutive(all, first, end) && first <= v < end
    requires Copied(before, required, all, first, v, end)
    requires BareHolds(s, v, Before(all, v + 1))
    requires CopyStep(before, after, required, v, v + 1 == end, s)
    ensures Copied(after, required, all, first, v + 1, end)
  {
    forall k: Key | Wanted(required, k)
      ensures Finished(k, first, v + 1, end) <==> Finished(k, first, v, end) || CopiedAfter(required, v, v + 1 == end, k)
    {
      FinishedStep(k, first, v, end);
    }
    forall k: Key | CopiedAfter(required, v, v + 1 == end, k) ensures s[k.0 - 1] == BareTree(k.0, k.1, all) {
      FinalBatch(k.0, v, Before(all, v + 1), all);
    }
  }

  /** The trees and their copies when versions first to n - 1 of those up to end have been added. */
  ghost predicate Progress(s: TreeStack, trees: TreeMap, required: BatchIdxs, all: Versions, first: nat, n: nat, end: nat) {
    && Consecutive(all, first, end) && first <= n <= end
    && Copied(trees, required, all, first, n, end)
    && BareFollows(s, n, Before(all, n))
  }

  lemma {:induction false} ProgressStart(s: TreeStack, required: BatchIdxs, all: Versions, first: nat, end: nat)
    requires s == EmptyStack() && Consecutive(all, first, end) && first <= end
    ensures Progress(s, map[], required, all, first, first, end)
  {
    assert Before(all, first) == map[];
    EmptyFollows(first);
  }

  lemma {:induction false} ProgressStep(s: TreeStack, before: TreeMap, after: TreeMap, required: BatchIdxs, all: Versions, first: nat, v: nat, end: nat,
                     h: Hash)
    requires v < end && Progress(s, before, required, all, first, v, end)
    requires h == all[v] && CopyStep(before, after, required, v, v + 1 == end, AddBareLeaf(s, v, h))
    ensures Progress(AddBareLeaf(s, v, h), after, required, all, first, v + 1, end)
  {
    FollowsStep(all, first, v, end, s);
    CopiedStep(before, after, required, all, first, v, end, AddBareLeaf(s, v, h));
  }

  /** A new account object has empty trees. */
  method NewTrees() returns (a: AccountInfo)
    ensures a.Valid() && fresh(a.trees) && Trees(a) == EmptyStack()
  {
    a := new AccountInfo(0);
    assert forall i: nat :: i < MAX_LAYER ==> a.State().layers[i] == a.LayerAt(i) && a.LayerAt(i) == EmptyLayer();
  }
}
