/** Batch trees rebuilt from the stored leaves, roots and commitments
    (rebuildproof.go, RebuildSegmentTreeForProof, updateBatchTree and InsertCommitmentHashes). */
module StoredTrees {
  import opened Arithmetic
  import opened Primitives
  import opened Heap
  import opened Layers
  import opened SegmentTree
  import opened Accounts
  import opened RangeCover

  /** Some version with a history entry belongs to batch k. */
  predicate Started(k: Key, u: Updates) {
    0 < k.0 <= MAX_LAYER && |u| >= 2 && k.1 <= (|u| - 2) / BatchSize(k.0)
  }

  /** A batch has been started exactly when its first version has a history entry. */
  lemma {:induction false} FirstPresent(k: Key, u: Updates)
    requires 0 < k.0 <= MAX_LAYER
    ensures Started(k, u) <==> k.1 * BatchSize(k.0) in LeafHashes(u)
  {
    if |u| >= 2 {
      ProductBound(k.1, BatchSize(k.0), |u| - 2);
    }
  }

  /** For every batch started, the store of a saved account holds its root and its commitment. */
  lemma {:induction false} StoredBatch(r: Records, u: Updates, k: Key)
    requires Saved(r, u) && Started(k, u)
    ensures k in r.roots && r.roots[k] == Root(k.0, k.1, LeafHashes(u))
    ensures k in r.commitments && r.commitments[k] == Commit(FullTree(k.0, k.1, LeafHashes(u)))
  {
    if k.1 == (|u| - 2) / BatchSize(k.0) {
      LastBatch(r, u, k.0);
    } else {
      ProductBound(k.1 + 1, BatchSize(k.0), |u| - 2);
      assert BatchArchived(r, k.0, k.1, LeafHashes(u));
    }
  }

  lemma {:induction false} LastBatch(r: Records, u: Updates, layer: nat)
    requires Saved(r, u) && 0 < layer <= MAX_LAYER && |u| >= 2
    ensures var k := (layer, (|u| - 2) / BatchSize(layer));
            && k in r.roots && r.roots[k] == Root(layer, k.1, LeafHashes(u))
            && k in r.commitments && r.commitments[k] == Commit(FullTree(layer, k.1, LeafHashes(u)))
  {
    hide BatchSize, Commit, FullTree, LeafHashes, Root;
    assert LayerAfter(Load(r).layers, layer, u);
    assert RootSaved(r, layer, |u| - 1);
    assert Load(r).layers[layer - 1] == LoadLayer(r, layer, |u| - 1);
    TreeRoot(layer, (|u| - 2) / BatchSize(layer), LeafHashes(u));
  }

  // ----- the leaves of a batch, one after the other

  /** The first n leaves; the others are still empty. */
  function Taken(leaves: HashVector, n: nat): (t: HashVector)
    ensures |t| == |leaves|
  {
    seq(|leaves|, j requires 0 <= j < |leaves| => if j < n then leaves[j] else None)
  }

  lemma {:induction false} InsertNext(leaves: HashVector, n: nat)
    requires Shaped(leaves, []) && n < |leaves|
    ensures Insert(TreeOf(Taken(leaves, n), []), |leaves| - 1 + n, leaves[n]) == TreeOf(Taken(leaves, n + 1), [])
  {
    assert Taken(leaves, n)[n := leaves[n]] == Taken(leaves, n + 1);
    TreeInsert(Taken(leaves, n), [], n, leaves[n]);
  }

  lemma {:induction false} TakenNone(leaves: HashVector)
    requires Shaped(leaves, [])
    ensures TreeOf(Taken(leaves, 0), []) == EmptyTree()
  {
    EmptyTreeOf(Taken(leaves, 0), []);
  }

  /** Leaves of child batches that have not been started are empty. */
  lemma {:induction false} TakenAll(layer: nat, b: nat, u: Updates, n: nat)
    requires 0 < layer <= MAX_LAYER && |u| >= 2 && n <= Arity(layer)
    requires n < Arity(layer) ==> b * Arity(layer) + n > (|u| - 2) / BatchSize(layer - 1)
    ensures Taken(Leaves(layer, b, LeafHashes(u)), n) == Leaves(layer, b, LeafHashes(u))
  {
    var m := LeafHashes(u);
    forall j: nat | n <= j < Arity(layer) ensures Leaves(layer, b, m)[j] == None {
      var c := b * Arity(layer) + j;
      ProductBound(c, BatchSize(layer - 1), |u| - 2);
      FirstOfBatch(layer - 1, c);
      RootFull(layer - 1, c, m);
    }
  }

  // ----- methods

  /** Store a value at a leaf and recompute its ancestors (updateBatchTree). */
  method UpdateBatchTree(t: array<Option<Hash>>, idx: nat, value: Option<Hash>)
    requires idx + 1 < t.Length
    modifies t
    ensures t[..] == Insert(old(t[..]), idx, value)
  {
    if value == None {
      return;
    }
    t[idx] := value;
    ghost var target := Climb(t[..], idx);
    assert t[..] == old(t[..])[idx := value];
    var i: nat := idx;
    while i > 0
      invariant i <= idx && Climb(t[..], i) == target
    {
      var parent := Parent(i);
      var left, right := t[2 * parent + 1], t[2 * parent + 2];
      ghost var before := t[..];
      if left == None || right == None {
        break;
      }
      t[parent] := Some(PairHash(left.value, right.value));
      assert t[..] == before[parent := Combine(left, right)];
      i := parent;
    }
  }

  /** The next leaf of a tree that is filled in order. */
  method PutLeaf(t: array<Option<Hash>>, ghost leaves: HashVector, ghost n: nat, idx: nat, value: Option<Hash>)
    requires Shaped(leaves, []) && t[..] == TreeOf(Taken(leaves, n), [])
    requires n < |leaves| && idx == |leaves| - 1 + n && value == leaves[n]
    modifies t
    ensures t[..] == TreeOf(Taken(leaves, n + 1), [])
  {
    InsertNext(leaves, n);
    UpdateBatchTree(t, idx, value);
  }

  method EmptyBatchTree() returns (t: array<Option<Hash>>)
    ensures fresh(t) && t[..] == EmptyTree()
  {
    t := new Option<Hash>[TREE_SIZE](_ => None);
  }

  /** The history entries of versions sv to ev. */
  function History(u: Updates, sv: nat, ev: nat): (h: seq<HistoricalBalance>)
    requires sv <= ev + 1 <= |u| - 1
    ensures |h| == ev + 1 - sv
  {
    seq(ev + 1 - sv, i requires 0 <= i < ev + 1 - sv => Superseded(u, sv + i))
  }

  method FetchHistory(r: Records, sv: nat, ev: nat, ghost u: Updates) returns (balances: seq<HistoricalBalance>)
    requires Saved(r, u) && sv <= ev < |u| - 1
    ensures balances == History(u, sv, ev)
  {
    balances := [];
    for version := sv to ev + 1
      invariant balances == History(u, sv, ev)[..version - sv]
    {
      balances := balances + [r.history[version]];
    }
  }

  lemma {:induction false} LeafAt(u: Updates, b: nat, j: nat)
    requires j < L1 && b * L1 + j < |u| - 1
    ensures Leaves(1, b, LeafHashes(u))[j] == Some(BalanceHash(Superseded(u, b * L1 + j)))
  {
    assert Arity(1) == L1;
    assert Leaves(1, b, LeafHashes(u))[j] == Root(0, b * L1 + j, LeafHashes(u));
    assert b * L1 + j in LeafHashes(u);
  }

  /** A history entry, taken from those already fetched if it is among them. */
  method ReadEntry(r: Records, sv: nat, ev: nat, balances: seq<HistoricalBalance>, v: nat, ghost u: Updates)
    returns (hb: HistoricalBalance)
    requires Saved(r, u) && sv <= ev < |u| - 1 && balances == History(u, sv, ev) && v < |u| - 1
    ensures hb == Superseded(u, v)
  {
    hb := if sv <= v <= ev then balances[v - sv] else r.history[v];
  }

  lemma {:induction false} PositionInBatch(b: nat, v: nat)
    requires b * L1 <= v < b * L1 + L1
    ensures v % L1 == v - b * L1
  {
  }

  /** The last version of a layer-1 batch that has a history entry. */
  method LastVersion(r: Records, b: nat, ghost u: Updates) returns (end: nat)
    requires Saved(r, u) && Started((1, b), u)
    ensures end < |u| - 1 && b * L1 <= end < b * L1 + L1
    ensures end == b * L1 + L1 - 1 || end == |u| - 2
  {
    ProductBound(b, L1, |u| - 2);
    end := (b + 1) * L1 - 1;
    if end >= r.current.value.version {
      end := r.current.value.version - 1;
    }
  }

  /** A layer-1 tree from the history entries of its versions. */
  method BuildLeafBatch(r: Records, b: nat, sv: nat, ev: nat, balances: seq<HistoricalBalance>, ghost u: Updates)
    returns (t: array<Option<Hash>>)
    requires Saved(r, u) && sv <= ev < |u| - 1 && balances == History(u, sv, ev)
    requires Started((1, b), u)
    ensures fresh(t) && t[..] == FullTree(1, b, LeafHashes(u))
  {
    hide LeafHashes, FullTree, Saved;
    ghost var leaves := Leaves(1, b, LeafHashes(u));
    t := EmptyBatchTree();
    TakenNone(leaves);
    var start := b * L1;
    var end := LastVersion(r, b, u);
    for version := start to end + 1
      invariant t[..] == TreeOf(Taken(leaves, version - start), [])
    {
      var hb := ReadEntry(r, sv, ev, balances, version, u);
      LeafAt(u, b, version - start);
      PositionInBatch(b, version);
      PutLeaf(t, leaves, version - start, L1 - 1 + version % L1, Some(BalanceHash(hb)));
    }
    LeavesComplete(b, u, end + 1 - start);
  }

  lemma {:induction false} LeavesComplete(b: nat, u: Updates, n: nat)
    requires |u| >= 2 && n <= L1 && (n == L1 || b * L1 + n == |u| - 1)
    ensures TreeOf(Taken(Leaves(1, b, LeafHashes(u)), n), []) == FullTree(1, b, LeafHashes(u))
  {
    TakenAll(1, b, u, n);
  }

  // ----- slots and leaves of the upper layers

  /** How many child batches of batch b exist up to the latest one. */
  function ChildCount(b: nat, latest: nat): (n: nat)
    ensures n <= L2
  {
    if latest < b * L2 then 0 else if latest - b * L2 < L2 then latest - b * L2 + 1 else L2
  }

  /** The slots filled from the stored commitments of the first n child batches. */
  function StoredSlots(commitments: Commitments, layer: nat, b: nat, n: nat): (slots: HashVector)
    ensures |slots| == L2
  {
    seq(L2, j requires 0 <= j => if j < n && (layer, b * L2 + j) in commitments
                                 then Some(CommitmentHash(commitments[(layer, b * L2 + j)])) else None)
  }

  lemma {:induction false} NoSlots(leaves: HashVector, commitments: Commitments, layer: nat, b: nat)
    requires Shaped(leaves, []) && |leaves| <= L2
    ensures TreeOf(leaves, StoredSlots(commitments, layer, b, 0)) == TreeOf(leaves, [])
  {
    var slots := StoredSlots(commitments, layer, b, 0);
    forall i: nat | i < TREE_SIZE ensures TreeOf(leaves, slots)[i] == TreeOf(leaves, [])[i] {
      TreeAt(leaves, slots, i);
      TreeAt(leaves, [], i);
    }
  }

  /** Above layer 1, the slots filled from the store are those of the complete tree. */
  lemma {:induction false} StoredSlotsAll(r: Records, u: Updates, layer: nat, b: nat)
    requires Saved(r, u) && |u| >= 2 && 1 < layer <= MAX_LAYER
    ensures var n := ChildCount(b, (|u| - 2) / BatchSize(layer - 1));
            StoredSlots(r.commitments, layer - 1, b, n) == Slots(layer, b, LeafHashes(u))
  {
    hide *;
    var latest := (|u| - 2) / BatchSize(layer - 1);
    forall j: nat | j < L2
      ensures StoredSlots(r.commitments, layer - 1, b, ChildCount(b, latest))[j] == Slots(layer, b, LeafHashes(u))[j]
    {
      StoredSlotAt(r, u, layer, b, j, latest);
    }
  }

  lemma {:induction false} StoredSlotAt(r: Records, u: Updates, layer: nat, b: nat, j: nat, latest: nat)
    requires Saved(r, u) && |u| >= 2 && 1 < layer <= MAX_LAYER && j < L2 && latest == (|u| - 2) / BatchSize(layer - 1)
    ensures StoredSlots(r.commitments, layer - 1, b, ChildCount(b, latest))[j] == Slots(layer, b, LeafHashes(u))[j]
  {
    hide Saved, Commit, FullTree;
    var k := (layer - 1, b * L2 + j);
    FirstPresent(k, u);
    if k.1 <= latest {
      StoredBatch(r, u, k);
    }
    assert Slots(layer, b, LeafHashes(u))[j] == SlotValue(layer - 1, b * L2 + j, LeafHashes(u));
  }

  ghost predicate ChildrenStored(commitments: Commitments, layer: nat, b: nat, n: nat) {
    forall c: nat :: b * L2 <= c < b * L2 + n ==> (layer, c) in commitments
  }

  /** Fill the slots of a tree of the layer above from stored commitments, up to the latest child
      batch; a commitment that is not stored stops the program (InsertCommitmentHashes). */
  method InsertCommitmentHashes(layer: nat, b: nat, t: array<Option<Hash>>, latest: nat, commitments: Commitments,
                                cached: Commitments, ghost leaves: HashVector)
    returns (ok: bool, cached': Commitments)
    requires Shaped(leaves, []) && |leaves| <= L2 && t[..] == TreeOf(leaves, [])
    modifies t
    ensures ok <==> ChildrenStored(commitments, layer, b, ChildCount(b, latest))
    ensures ok ==> t[..] == TreeOf(leaves, StoredSlots(commitments, layer, b, ChildCount(b, latest)))
    ensures forall k: Key :: k in cached' ==>
              (k in cached && cached'[k] == cached[k]) ||
              (k in commitments && cached'[k] == commitments[k] && k.0 == layer && k.1 <= latest)
  {
    cached' := cached;
    var start := b * L2;
    ghost var n := ChildCount(b, latest);
    NoSlots(leaves, commitments, layer, b);
    var c := start;
    while c <= start + L2 - 1 && c <= latest
      invariant start <= c <= start + n
      invariant ChildrenStored(commitments, layer, b, c - start)
      invariant t[..] == TreeOf(leaves, StoredSlots(commitments, layer, b, c - start))
      invariant forall k: Key :: k in cached' ==>
                  (k in cached && cached'[k] == cached[k]) ||
                  (k in commitments && cached'[k] == commitments[k] && k.0 == layer && k.1 <= latest)
      decreases start + n - c
    {
      if (layer, c) !in commitments {
        return false, cached';
      }
      var commitment := commitments[(layer, c)];
      cached' := cached'[(layer, c) := commitment];
      PutSlot(t, leaves, commitments, layer, b, c - start, commitment);
      c := c + 1;
    }
    ok := true;
  }

  method PutSlot(t: array<Option<Hash>>, ghost leaves: HashVector, ghost commitments: Commitments, ghost layer: nat,
                 ghost b: nat, j: nat, commitment: Point)
    requires Shaped(leaves, []) && |leaves| <= L2 && j < L2
    requires t[..] == TreeOf(leaves, StoredSlots(commitments, layer, b, j))
    requires (layer, b * L2 + j) in commitments && commitments[(layer, b * L2 + j)] == commitment
    modifies t
    ensures t[..] == TreeOf(leaves, StoredSlots(commitments, layer, b, j + 1))
  {
    var h := CommitmentHash(commitment);
    ghost var slots := StoredSlots(commitments, layer, b, j);
    assert slots[j := Some(h)] == StoredSlots(commitments, layer, b, j + 1);
    TreeSetSlot(leaves, slots, j, Some(h));
    t[j + 2 * L2 - 1] := Some(h);
    assert t[..] == old(t[..])[Slot(j) := Some(h)];
  }

  /** The tree of an upper layer with the stored roots of its child batches as leaves. */
  method BuildRootBatch(r: Records, layer: nat, b: nat, latest: nat, ghost u: Updates) returns (t: array<Option<Hash>>)
    requires Saved(r, u) && |u| >= 2 && 1 < layer <= MAX_LAYER && latest == (|u| - 2) / BatchSize(layer - 1)
    ensures fresh(t) && t[..] == BareTree(layer, b, LeafHashes(u))
  {
    hide LeafHashes, BatchSize;
    ghost var leaves := Leaves(layer, b, LeafHashes(u));
    t := EmptyBatchTree();
    TakenNone(leaves);
    var start := b * L2;
    var c := start;
    while c <= start + L2 - 1 && c <= latest
      invariant start <= c <= start + ChildCount(b, latest)
      invariant t[..] == TreeOf(Taken(leaves, c - start), [])
      decreases latest + 1 - c
    {
      StoredBatch(r, u, (layer - 1, c));
      ChildIndex(layer, b, c - start);
      PutLeaf(t, leaves, c - start, L2 - 1 + c % L2, r.roots[(layer - 1, c)]);
      c := c + 1;
    }
    TakenAll(layer, b, u, c - start);
  }
}
