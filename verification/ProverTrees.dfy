/** The two ways in which the prover rebuilds the batch trees it needs: from stored roots
    (rebuildproof.go) and from all leaves (rebuildproof_old.go). */
module ProverTrees {
  import opened Arithmetic
  import opened Primitives
  import opened Heap
  import opened Layers
  import opened SegmentTree
  import opened Accounts
  import opened AccountObjects
  import opened Cover
  import opened RangeCover
  import opened Rebuild
  import opened Snapshots
  import opened StoredTrees

  ghost predicate AllStarted(required: BatchIdxs, u: Updates) {
    forall k: Key :: Wanted(required, k) ==> Started(k, u)
  }

  /** Exactly the required batches, each with its complete tree. */
  ghost predicate HonestTrees(trees: TreeMap, required: BatchIdxs, u: Updates) {
    && (forall k: Key :: k in trees <==> Wanted(required, k))
    && forall k: Key :: k in trees ==> 0 < k.0 <= MAX_LAYER && trees[k] == FullTree(k.0, k.1, LeafHashes(u))
  }

  ghost predicate HonestCache(cached: Commitments, u: Updates) {
    forall k :: k in cached ==> Started(k, u) && cached[k] == Commit(FullTree(k.0, k.1, LeafHashes(u)))
  }

  // ----- from stored roots

  /** One required tree of an upper layer, from stored roots and commitments. */
  method BuildUpperBatch(r: Records, layer: nat, b: nat, cached: Commitments, ghost u: Updates)
    returns (tree: HashVector, cached': Commitments)
    requires Saved(r, u) && |u| >= 2 && 1 < layer <= MAX_LAYER && HonestCache(cached, u)
    ensures tree == FullTree(layer, b, LeafHashes(u)) && HonestCache(cached', u)
  {
    var latest := (r.current.value.version - 1) / BatchSize(layer - 1);
    var t := BuildRootBatch(r, layer, b, latest, u);
    ghost var leaves := Leaves(layer, b, LeafHashes(u));
    var ok;
    ok, cached' := InsertCommitmentHashes(layer - 1, b, t, latest, r.commitments, cached, leaves);
    AllChildrenStored(r, u, layer - 1, b, ChildCount(b, latest));
    StoredSlotsAll(r, u, layer, b);
    tree := t[..];
    CacheStep(r, u, cached, cached', layer - 1, latest);
  }

  lemma {:induction false} AllChildrenStored(r: Records, u: Updates, layer: nat, b: nat, n: nat)
    requires Saved(r, u) && |u| >= 2 && 0 < layer < MAX_LAYER
    requires n == ChildCount(b, (|u| - 2) / BatchSize(layer))
    ensures ChildrenStored(r.commitments, layer, b, n)
  {
    forall c: nat | b * L2 <= c < b * L2 + n ensures (layer, c) in r.commitments {
      StoredBatch(r, u, (layer, c));
    }
  }

  lemma {:induction false} CacheStep(r: Records, u: Updates, cached: Commitments, cached': Commitments, layer: nat, latest: nat)
    requires Saved(r, u) && |u| >= 2 && 0 < layer <= MAX_LAYER && latest == (|u| - 2) / BatchSize(layer)
    requires HonestCache(cached, u)
    requires forall k: Key :: k in cached' ==>
               (k in cached && cached'[k] == cached[k]) ||
               (k in r.commitments && cached'[k] == r.commitments[k] && k.0 == layer && k.1 <= latest)
    ensures HonestCache(cached', u)
  {
    forall k: Key | k in cached' ensures Started(k, u) && cached'[k] == Commit(FullTree(k.0, k.1, LeafHashes(u))) {
      if k.0 == layer && k.1 <= latest {
        StoredBatch(r, u, k);
      }
    }
  }

  /** The trees of the layers below `layer`, and of the first i required batches of `layer`. */
  ghost predicate TreesUpTo(trees: TreeMap, required: BatchIdxs, layer: nat, i: nat, u: Updates) {
    && (forall k: Key :: k in trees <==>
          Wanted(required, k) && (k.0 < layer || (k.0 == layer && i <= |required[k.0 - 1]| && k.1 in required[k.0 - 1][..i])))
    && forall k: Key :: k in trees ==> 0 < k.0 <= MAX_LAYER && trees[k] == FullTree(k.0, k.1, LeafHashes(u))
  }

  lemma {:induction false} TreesStep(trees: TreeMap, required: BatchIdxs, layer: nat, i: nat, u: Updates)
    requires 0 < layer <= MAX_LAYER && i < |required[layer - 1]| && TreesUpTo(trees, required, layer, i, u)
    ensures var k := (layer, required[layer - 1][i]);
            TreesUpTo(trees[k := FullTree(k.0, k.1, LeafHashes(u))], required, layer, i + 1, u)
  {
    assert required[layer - 1][..i + 1] == required[layer - 1][..i] + [required[layer - 1][i]];
  }

  lemma {:induction false} TreesNextLayer(trees: TreeMap, required: BatchIdxs, layer: nat, u: Updates)
    requires 0 < layer <= MAX_LAYER && TreesUpTo(trees, required, layer, |required[layer - 1]|, u)
    ensures TreesUpTo(trees, required, layer + 1, 0, u)
  {
    var idxs := required[layer - 1];
    assert idxs[..|idxs|] == idxs;
  }

  method BuildLeafBatches(r: Records, required: BatchIdxs, sv: nat, ev: nat, balances: seq<HistoricalBalance>, ghost u: Updates)
    returns (trees: TreeMap)
    requires Saved(r, u) && sv <= ev < |u| - 1 && balances == History(u, sv, ev) && AllStarted(required, u)
    ensures TreesUpTo(trees, required, 2, 0, u)
  {
    trees := map[];
    for i := 0 to |required[0]|
      invariant TreesUpTo(trees, required, 1, i, u)
    {
      assert Wanted(required, (1, required[0][i]));
      var t := BuildLeafBatch(r, required[0][i], sv, ev, balances, u);
      TreesStep(trees, required, 1, i, u);
      trees := trees[(1, required[0][i]) := t[..]];
    }
    TreesNextLayer(trees, required, 1, u);
  }

  method BuildUpperBatches(r: Records, required: BatchIdxs, layer: nat, before: TreeMap, cached: Commitments, ghost u: Updates)
    returns (trees: TreeMap, cached': Commitments)
    requires Saved(r, u) && |u| >= 2 && 1 < layer <= MAX_LAYER
    requires TreesUpTo(before, required, layer, 0, u) && HonestCache(cached, u)
    ensures TreesUpTo(trees, required, layer + 1, 0, u) && HonestCache(cached', u)
  {
    trees, cached' := before, cached;
    var idxs := required[layer - 1];
    for i := 0 to |idxs|
      invariant TreesUpTo(trees, required, layer, i, u) && HonestCache(cached', u)
    {
      var t;
      t, cached' := BuildUpperBatch(r, layer, idxs[i], cached', u);
      TreesStep(trees, required, layer, i, u);
      trees := trees[(layer, idxs[i]) := t];
    }
    TreesNextLayer(trees, required, layer, u);
  }

  /** The required trees from the stored history, roots and commitments of a saved account. */
  method RebuildSegmentTreeForProof(r: Records, required: BatchIdxs, sv: nat, ev: nat, ghost u: Updates)
    returns (trees: TreeMap, balances: seq<HistoricalBalance>, cached: Commitments)
    requires Saved(r, u) && sv <= ev < |u| - 1 && AllStarted(required, u)
    ensures HonestTrees(trees, required, u)
    ensures balances == History(u, sv, ev)
    ensures HonestCache(cached, u)
  {
    cached := map[];
    balances := FetchHistory(r, sv, ev, u);
    trees := BuildLeafBatches(r, required, sv, ev, balances, u);
    for layer := 2 to MAX_LAYER + 1
      invariant TreesUpTo(trees, required, layer, 0, u) && HonestCache(cached, u)
    {
      trees, cached := BuildUpperBatches(r, required, layer, trees, cached, u);
    }
  }

  // ----- from all leaves

  /** The entries of the range among the first n versions. */
  ghost function HistoryUpTo(u: Updates, sv: nat, ev: nat, n: nat): seq<HistoricalBalance>
    requires sv <= ev < |u| - 1
  {
    if n <= sv then [] else if n > ev then History(u, sv, ev) else History(u, sv, ev)[..n - sv]
  }

  lemma {:induction false} HistoryStep(u: Updates, sv: nat, ev: nat, v: nat)
    requires sv <= ev < |u| - 1 && v < |u| - 1
    ensures HistoryUpTo(u, sv, ev, v + 1) ==
            HistoryUpTo(u, sv, ev, v) + if sv <= v <= ev then [Superseded(u, v)] else []
  {
    var h := History(u, sv, ev);
    if sv <= v <= ev {
      assert h[..v + 1 - sv] == h[..v - sv] + [h[v - sv]];
      assert h[..|h|] == h;
    }
  }

  lemma {:induction false} HistoryConsecutive(u: Updates)
    ensures Consecutive(LeafHashes(u), 0, |u| - 1)
  {
  }

  /** Every version of the history added in order, with a copy of each required tree when its batch
      is complete. */
  method ReplayHistory(r: Records, required: BatchIdxs, sv: nat, ev: nat, ghost u: Updates)
    returns (trees: TreeMap, balances: seq<HistoricalBalance>)
    requires Saved(r, u) && sv <= ev < |u| - 1
    ensures Copied(trees, required, LeafHashes(u), 0, |u| - 1, |u| - 1)
    ensures balances == History(u, sv, ev)
  {
    var a := NewTrees();
    trees, balances := map[], [];
    HistoryConsecutive(u);
    ProgressStart(Trees(a), required, LeafHashes(u), 0, |u| - 1);
    var count := CountVersions(r, u);
    for version := 0 to count
      invariant fresh(a.trees)
      invariant Replayed(Trees(a), trees, required, sv, ev, balances, u, version)
    {
      trees, balances := ReplayVersion(a, r, version, required, version + 1 >= count, trees, sv, ev, balances, u);
    }
  }

  /** The trees, their copies and the balances taken after the first n versions. */
  ghost predicate Replayed(s: TreeStack, trees: TreeMap, required: BatchIdxs, sv: nat, ev: nat, balances: seq<HistoricalBalance>,
                           u: Updates, n: nat) {
    && sv <= ev < |u| - 1
    && Progress(s, trees, required, LeafHashes(u), 0, n, |u| - 1)
    && balances == HistoryUpTo(u, sv, ev, n)
  }

  lemma {:induction false} ReplayedStep(s: TreeStack, before: TreeMap, after: TreeMap, required: BatchIdxs, sv: nat, ev: nat,
                                        taken: seq<HistoricalBalance>, u: Updates, v: nat, hb: HistoricalBalance)
    requires v < |u| - 1 && hb == Superseded(u, v) && Replayed(s, before, required, sv, ev, taken, u, v)
    requires CopyStep(before, after, required, v, v + 1 == |u| - 1, AddBareLeaf(s, v, BalanceHash(hb)))
    ensures Replayed(AddBareLeaf(s, v, BalanceHash(hb)), after, required, sv, ev, if sv <= v <= ev then taken + [hb] else taken, u, v + 1)
  {
    ProgressStep(s, before, after, required, LeafHashes(u), 0, v, |u| - 1, BalanceHash(hb));
    HistoryStep(u, sv, ev, v);
  }

  method ReplayVersion(a: AccountInfo, r: Records, v: nat, required: BatchIdxs, last: bool, before: TreeMap,
                       sv: nat, ev: nat, taken: seq<HistoricalBalance>, ghost u: Updates)
    returns (trees: TreeMap, balances: seq<HistoricalBalance>)
    requires Saved(r, u) && v < |u| - 1 && last == (v + 1 == |u| - 1)
    requires a.Valid() && Replayed(Trees(a), before, required, sv, ev, taken, u, v)
    modifies a.trees
    ensures Replayed(Trees(a), trees, required, sv, ev, balances, u, v + 1)
  {
    var hb := ReadVersion(r, v, u);
    ghost var s := Trees(a);
    trees := AddAndCopy(a, v, BalanceHash(hb), required, last, before);
    ReplayedStep(s, before, trees, required, sv, ev, taken, u, v, hb);
    balances := if sv <= v <= ev then taken + [hb] else taken;
  }

  method CountVersions(r: Records, ghost u: Updates) returns (count: nat)
    requires Saved(r, u)
    ensures count == |u| - 1
  {
    count := r.current.value.version;
  }

  method ReadVersion(r: Records, v: nat, ghost u: Updates) returns (hb: HistoricalBalance)
    requires Saved(r, u) && v < |u| - 1
    ensures hb == Superseded(u, v)
  {
    hb := r.history[v];
  }

  /** The slow path looks for commitments up to version / size of the child batch: it misses the
      child batch that starts at the current version itself. */
  predicate FindsChildren(k: Key, u: Updates) {
    1 < k.0 <= MAX_LAYER ==> (|u| - 1) % BatchSize(k.0 - 1) != 0 || (|u| - 1) / BatchSize(k.0) != k.1
  }

  ghost predicate AllFound(required: BatchIdxs, u: Updates) {
    forall k: Key :: Wanted(required, k) ==> FindsChildren(k, u)
  }

  /** The current version is not within one top batch of the largest version number. */
  predicate FewVersions(u: Updates) {
    |u| - 1 <= MAX_UINT64 - BatchSize(MAX_LAYER)
  }

  lemma {:induction false} SlowCount(u: Updates, layer: nat, b: nat)
    requires 1 < layer <= MAX_LAYER && Started((layer, b), u)
    ensures var size, v := BatchSize(layer - 1), |u| - 1;
            if FindsChildren((layer, b), u) then ChildCount(b, v / size) == ChildCount(b, (v - 1) / size)
            else v / size == (v - 1) / size + 1 && b * L2 <= v / size < b * L2 + ChildCount(b, v / size)
  {
    var size, v := BatchSize(layer - 1), |u| - 1;
    SameBatch(layer - 1, v - 1);
    BatchOfBatch(layer, v);
    BatchOfBatch(layer, v - 1);
    CountCases(b, (v - 1) / size, v / size, (v - 1) / BatchSize(layer), v / BatchSize(layer));
  }

  lemma {:induction false} CountCases(b: nat, latest: nat, next: nat, lastParent: nat, nextParent: nat)
    requires lastParent == latest / L2 && nextParent == next / L2 && b <= lastParent
    requires next == latest || next == latest + 1
    ensures if next == latest || nextParent != b then ChildCount(b, next) == ChildCount(b, latest)
            else b * L2 <= next < b * L2 + ChildCount(b, next)
  {
  }

  /** The commitments that the slow path looks for are all stored if and only if no child batch
      starts at the current version; and then they fill the slots of the complete tree. */
  lemma {:induction false} SlowFinds(r: Records, u: Updates, layer: nat, b: nat, latest: nat)
    requires Saved(r, u) && 1 < layer <= MAX_LAYER && Started((layer, b), u)
    requires latest == (|u| - 1) / BatchSize(layer - 1)
    ensures FindsChildren((layer, b), u) ==> ChildrenStored(r.commitments, layer - 1, b, ChildCount(b, latest))
    ensures FewVersions(u) && ChildrenStored(r.commitments, layer - 1, b, ChildCount(b, latest)) ==> FindsChildren((layer, b), u)
    ensures FindsChildren((layer, b), u) ==>
              StoredSlots(r.commitments, layer - 1, b, ChildCount(b, latest)) == Slots(layer, b, LeafHashes(u))
  {
    SlowCount(u, layer, b);
    if FindsChildren((layer, b), u) {
      AllChildrenStored(r, u, layer - 1, b, ChildCount(b, latest));
      StoredSlotsAll(r, u, layer, b);
    } else if FewVersions(u) {
      NotStored(r, u, layer - 1);
    }
  }

  lemma {:induction false} NotStored(r: Records, u: Updates, layer: nat)
    requires OnlyStarted(r, |u|) && |u| >= 2 && FewVersions(u) && 0 < layer <= MAX_LAYER
    requires (|u| - 1) / BatchSize(layer) == (|u| - 2) / BatchSize(layer) + 1
    ensures (layer, (|u| - 1) / BatchSize(layer)) !in r.commitments
  {
    var k := (layer, (|u| - 1) / BatchSize(layer));
    NotWrapped(|u| - 1, layer);
    assert !StartedKey(k, |u|);
  }

  lemma {:induction false} NotWrapped(v: nat, layer: nat)
    requires 0 < layer <= MAX_LAYER && v <= MAX_UINT64 - BatchSize(MAX_LAYER)
    ensures v / BatchSize(layer) < MAX_UINT64 / BatchSize(layer)
  {
  }

  function Quotient(v: nat, size: nat): nat
    requires size > 0
  {
    v / size
  }

  method ArrayOf(tree: HashVector) returns (t: array<Option<Hash>>)
    ensures fresh(t) && t[..] == tree
  {
    t := new Option<Hash>[|tree|](i requires 0 <= i < |tree| => tree[i]);
  }

  /** The slots of one replayed tree. */
  method FillSlots(r: Records, layer: nat, b: nat, bare: HashVector, ghost u: Updates) returns (ok: bool, tree: HashVector)
    requires Saved(r, u) && 1 < layer <= MAX_LAYER && Started((layer, b), u)
    requires bare == BareTree(layer, b, LeafHashes(u))
    ensures FindsChildren((layer, b), u) ==> ok && tree == FullTree(layer, b, LeafHashes(u))
    ensures FewVersions(u) && ok ==> FindsChildren((layer, b), u)
  {
    hide Saved, FewVersions, FindsChildren, LeafHashes;
    var count := CountVersions(r, u);
    var latest := Quotient(count, BatchSize(layer - 1));
    var t := ArrayOf(bare);
    ghost var leaves := Leaves(layer, b, LeafHashes(u));
    var cached;
    ok, cached := InsertCommitmentHashes(layer - 1, b, t, latest, r.commitments, map[], leaves);
    tree := t[..];
    SlowFinds(r, u, layer, b, latest);
  }

  /** The trees of the layers below `layer`, and of the first i required batches of `layer`, are
      complete; the others still lack their slots. */
  ghost predicate FilledUpTo(trees: TreeMap, required: BatchIdxs, layer: nat, i: nat, u: Updates) {
    && (forall k: Key :: k in trees <==> Wanted(required, k))
    && forall k: Key :: k in trees ==>
         if k.0 < layer || (k.0 == layer && i <= |required[k.0 - 1]| && k.1 in required[k.0 - 1][..i])
         then FindsChildren(k, u) ==> trees[k] == FullTree(k.0, k.1, LeafHashes(u))
         else trees[k] == BareTree(k.0, k.1, LeafHashes(u))
  }

  /** On every batch handled so far the stored commitments sufficed. */
  ghost predicate FoundUpTo(required: BatchIdxs, layer: nat, i: nat, u: Updates) {
    forall k: Key :: Wanted(required, k) && (k.0 < layer || (k.0 == layer && i <= |required[k.0 - 1]| && k.1 in required[k.0 - 1][..i])) ==>
      FindsChildren(k, u)
  }

  predicate DistinctIdxs(required: BatchIdxs) {
    forall i :: 0 <= i < MAX_LAYER ==> Distinct(required[i])
  }

  lemma {:induction false} FilledStep(trees: TreeMap, required: BatchIdxs, layer: nat, i: nat, u: Updates, k: Key, t: HashVector)
    requires 0 < layer <= MAX_LAYER && i < |required[layer - 1]| && k == (layer, required[layer - 1][i])
    requires FilledUpTo(trees, required, layer, i, u)
    requires FindsChildren(k, u) ==> t == FullTree(layer, k.1, LeafHashes(u))
    ensures FilledUpTo(trees[k := t], required, layer, i + 1, u)
  {
    hide FullTree, LeafHashes;
    assert required[layer - 1][..i + 1] == required[layer - 1][..i] + [required[layer - 1][i]];
  }

  lemma {:induction false} FilledNextLayer(trees: TreeMap, required: BatchIdxs, layer: nat, u: Updates)
    requires 0 < layer <= MAX_LAYER && FilledUpTo(trees, required, layer, |required[layer - 1]|, u)
    ensures FilledUpTo(trees, required, layer + 1, 0, u)
  {
    var idxs := required[layer - 1];
    assert idxs[..|idxs|] == idxs;
  }

  lemma {:induction false} FoundStep(required: BatchIdxs, layer: nat, i: nat, u: Updates)
    requires 0 < layer <= MAX_LAYER && i < |required[layer - 1]| && FoundUpTo(required, layer, i, u)
    requires FindsChildren((layer, required[layer - 1][i]), u)
    ensures FoundUpTo(required, layer, i + 1, u)
  {
    assert required[layer - 1][..i + 1] == required[layer - 1][..i] + [required[layer - 1][i]];
  }

  lemma {:induction false} FoundNextLayer(required: BatchIdxs, layer: nat, u: Updates)
    requires 0 < layer <= MAX_LAYER && FoundUpTo(required, layer, |required[layer - 1]|, u)
    ensures FoundUpTo(required, layer + 1, 0, u)
  {
    var idxs := required[layer - 1];
    assert idxs[..|idxs|] == idxs;
  }

  lemma {:induction false} ReplayedTrees(trees: TreeMap, required: BatchIdxs, u: Updates)
    requires |u| >= 2 && AllStarted(required, u)
    requires Copied(trees, required, LeafHashes(u), 0, |u| - 1, |u| - 1)
    ensures FilledUpTo(trees, required, 2, 0, u) && FoundUpTo(required, 2, 0, u)
  {
    forall k: Key | Wanted(required, k) ensures k in trees {
      assert Started(k, u);
    }
  }

  lemma {:induction false} NotYetFilled(trees: TreeMap, required: BatchIdxs, layer: nat, i: nat, u: Updates)
    requires 0 < layer <= MAX_LAYER && i < |required[layer - 1]| && DistinctIdxs(required)
    requires FilledUpTo(trees, required, layer, i, u)
    ensures var k := (layer, required[layer - 1][i]);
            Wanted(required, k) && k in trees && trees[k] == BareTree(layer, k.1, LeafHashes(u))
  {
    assert Wanted(required, (layer, required[layer - 1][i]));
  }

  method FillLayer(r: Records, required: BatchIdxs, layer: nat, before: TreeMap, ghost u: Updates) returns (ok: bool, trees: TreeMap)
    requires Saved(r, u) && 1 < layer <= MAX_LAYER && AllStarted(required, u) && DistinctIdxs(required)
    requires FilledUpTo(before, required, layer, 0, u)
    ensures ok ==> FilledUpTo(trees, required, layer + 1, 0, u)
    ensures ok && FewVersions(u) && FoundUpTo(required, layer, 0, u) ==> FoundUpTo(required, layer + 1, 0, u)
    ensures AllFound(required, u) ==> ok
  {
    trees := before;
    var idxs := required[layer - 1];
    for i := 0 to |idxs|
      invariant FilledUpTo(trees, required, layer, i, u)
      invariant FewVersions(u) && FoundUpTo(required, layer, 0, u) ==> FoundUpTo(required, layer, i, u)
    {
      var k := (layer, idxs[i]);
      NotYetFilled(trees, required, layer, i, u);
      var t;
      ok, t := FillSlots(r, layer, k.1, trees[k], u);
      if !ok {
        return;
      }
      FilledStep(trees, required, layer, i, u, k, t);
      if FewVersions(u) && FoundUpTo(required, layer, i, u) {
        FoundStep(required, layer, i, u);
      }
      trees := trees[k := t];
    }
    FilledNextLayer(trees, required, layer, u);
    if FoundUpTo(required, layer, |idxs|, u) {
      FoundNextLayer(required, layer, u);
    }
    ok := true;
  }

  /** The required trees from all leaves; it gives up when a commitment it looks for is not stored.
      Then, and only then, some required batch would hold a child batch that starts at the current
      version. */
  method OldRebuildSegmentTreeForProof(r: Records, required: BatchIdxs, sv: nat, ev: nat, ghost u: Updates)
    returns (ok: bool, trees: TreeMap, balances: seq<HistoricalBalance>)
    requires Saved(r, u) && sv <= ev < |u| - 1 && AllStarted(required, u) && DistinctIdxs(required)
    ensures AllFound(required, u) ==> ok && HonestTrees(trees, required, u)
    ensures FewVersions(u) && ok ==> AllFound(required, u)
    ensures ok ==> forall k: Key :: k in trees <==> Wanted(required, k)
    ensures balances == History(u, sv, ev)
  {
    trees, balances := ReplayHistory(r, required, sv, ev, u);
    ReplayedTrees(trees, required, u);
    for layer := 2 to MAX_LAYER + 1
      invariant FilledUpTo(trees, required, layer, 0, u)
      invariant FewVersions(u) ==> FoundUpTo(required, layer, 0, u)
    {
      ok, trees := FillLayer(r, required, layer, trees, u);
      if !ok {
        return;
      }
    }
    ok := true;
  }

  /** Away from the ends of layer-1 batches the slow path always succeeds. */
  lemma {:induction false} SlowPathSucceeds(required: BatchIdxs, u: Updates)
    requires (|u| - 1) % L1 != 0
    ensures AllFound(required, u)
  {
    hide Wanted, BatchSize;
    forall k: Key | Wanted(required, k) ensures FindsChildren(k, u) {
      if 1 < k.0 <= MAX_LAYER && (|u| - 1) % BatchSize(k.0 - 1) == 0 {
        MultipleOfFirst(|u| - 1, k.0 - 1);
      }
    }
  }

  /** Every batch size is a multiple of the first one. */
  lemma {:induction false} MultipleOfFirst(x: nat, layer: nat)
    requires 0 < layer < MAX_LAYER && x % BatchSize(layer) == 0
    ensures x % L1 == 0
  {
    if layer == 2 {
      ModMod(x, L1 * L2, L1, L2);
    } else if layer == 3 {
      ModMod(x, L1 * L2 * L2, L1, L2 * L2);
    }
  }
}
