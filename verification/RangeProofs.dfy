/** Proofs for a range of versions (proof.go, getProofRange). */
module RangeProofs {
  import opened Arithmetic
  import opened Primitives
  import opened Heap
  import opened Layers
  import opened SegmentTree
  import opened Accounts
  import opened Cover
  import opened RangeCover
  import opened Dependencies
  import opened RequiredCommitments
  import opened Snapshots
  import opened StoredTrees
  import opened ProverTrees

  /** The commitment to the quotient (P - I) / Z, where P interpolates a committed vector, Z vanishes
      at the nodes and I agrees with P there: the vector's commitment and the nodes determine it. */
  datatype Opening = Opening(commitment: Point, nodes: set<nat>)

  datatype RangeProof = RangeProof(idx: nat, layer: nat, commitment: Point, opening: Opening,
                                   range: Option<BlockRange>, dependents: seq<nat>)

  function ProofKey(p: RangeProof): Key {
    (p.layer, p.idx)
  }

  function NodeSet(nodes: seq<nat>): set<nat> {
    set i | i in nodes
  }

  /** The proof that belongs to a required commitment. */
  function HonestProof(c: RangeCommitment, u: Updates): RangeProof
    requires InTree(c)
  {
    var commitment := Commit(FullTree(c.layer, c.idx, LeafHashes(u)));
    RangeProof(c.idx, c.layer, commitment, Opening(commitment, NodeSet(OpenedNodes(c))), c.range, c.dependents)
  }

  // ----- the required batches, by layer

  method GroupByLayer(res: CommitmentMap) returns (required: BatchIdxs)
    requires forall k :: k in res ==> 0 < k.0 <= MAX_LAYER
    ensures DistinctIdxs(required) && forall k: Key :: Wanted(required, k) <==> k in res
  {
    required := [[], [], [], []];
    var pending := res.Keys;
    while pending != {}
      invariant pending <= res.Keys && DistinctIdxs(required)
      invariant forall k: Key :: Wanted(required, k) <==> k in res && k !in pending
    {
      var k :| k in pending;
      assert !Wanted(required, k);
      AddWanted(required, k);
      required := required[k.0 - 1 := required[k.0 - 1] + [k.1]];
      pending := pending - {k};
    }
  }

  lemma {:induction false} AddWanted(required: BatchIdxs, k: Key)
    requires 0 < k.0 <= MAX_LAYER && DistinctIdxs(required) && !Wanted(required, k)
    ensures var required' := required[k.0 - 1 := required[k.0 - 1] + [k.1]];
            DistinctIdxs(required') && forall q: Key :: Wanted(required', q) <==> Wanted(required, q) || q == k
  {
  }

  lemma {:induction false} RequiredStarted(res: CommitmentMap, sv: nat, ev: nat, u: Updates, k: Key)
    requires RequiredFor(res, sv, ev) && ev < |u| - 1 && k in res
    ensures Started(k, u)
  {
    RequiredAtEnd(res, sv, ev, k);
    Monotone(sv, |u| - 2, BatchSize(k.0));
    Monotone(ev, |u| - 2, BatchSize(k.0));
  }

  lemma {:induction false} RequiredAllStarted(res: CommitmentMap, sv: nat, ev: nat, u: Updates, required: BatchIdxs)
    requires RequiredFor(res, sv, ev) && ev < |u| - 1
    requires forall k: Key :: Wanted(required, k) <==> k in res
    ensures AllStarted(required, u)
  {
    forall k: Key | Wanted(required, k) ensures Started(k, u) {
      RequiredStarted(res, sv, ev, u, k);
    }
  }

  // ----- proofs

  /** One proof for each required commitment, each the one that belongs to it. */
  ghost predicate HonestProofs(proofs: seq<RangeProof>, res: CommitmentMap, sv: nat, ev: nat, u: Updates) {
    && RequiredFor(res, sv, ev)
    && Proved(proofs, res, {}, u, true)
  }

  ghost predicate IsHonest(p: RangeProof, res: CommitmentMap, u: Updates) {
    var k := ProofKey(p);
    k in res && KeyOf(res[k]) == k && InTree(res[k]) && p == HonestProof(res[k], u)
  }

  /** The proof for one required commitment, from the rebuilt tree and the cached or stored
      commitment. */
  method ProveCommitment(c: RangeCommitment, trees: TreeMap, cached: Commitments, r: Records, required: BatchIdxs,
                         ghost u: Updates, ghost honest: bool)
    returns (p: RangeProof)
    requires Saved(r, u) && InTree(c) && Wanted(required, KeyOf(c)) && Started(KeyOf(c), u)
    requires KeyOf(c) in trees && HonestCache(cached, u)
    requires honest ==> HonestTrees(trees, required, u)
    ensures ProofKey(p) == KeyOf(c)
    ensures honest ==> p == HonestProof(c, u)
  {
    var nodes := FindNodesToInterpolate(c);
    var k := KeyOf(c);
    StoredBatch(r, u, k);
    var storedCommitment := if k in cached then cached[k] else r.commitments[k];
    p := RangeProof(c.idx, c.layer, storedCommitment, Opening(Commit(trees[k]), NodeSet(nodes)), c.range, c.dependents);
  }

  ghost predicate Belongs(p: RangeProof, res: CommitmentMap, u: Updates, honest: bool) {
    ProofKey(p) in res && (honest ==> IsHonest(p, res, u))
  }

  ghost predicate HasProof(proofs: seq<RangeProof>, k: Key) {
    exists i :: 0 <= i < |proofs| && ProofKey(proofs[i]) == k
  }

  /** One proof for every required commitment that is no longer pending. */
  ghost predicate Proved(proofs: seq<RangeProof>, res: CommitmentMap, pending: set<Key>, u: Updates, honest: bool) {
    && (forall i :: 0 <= i < |proofs| ==> Belongs(proofs[i], res, u, honest) && ProofKey(proofs[i]) !in pending)
    && (forall k :: k in res && k !in pending ==> HasProof(proofs, k))
    && forall i, j :: 0 <= i < j < |proofs| ==> ProofKey(proofs[i]) != ProofKey(proofs[j])
  }

  lemma {:induction false} ProvedStep(proofs: seq<RangeProof>, p: RangeProof, res: CommitmentMap, pending: set<Key>, k: Key, u: Updates, honest: bool)
    requires Proved(proofs, res, pending, u, honest)
    requires ProofKey(p) == k && k in pending && Belongs(p, res, u, honest)
    ensures Proved(proofs + [p], res, pending - {k}, u, honest)
  {
    forall q | q in res && q !in pending - {k} ensures HasProof(proofs + [p], q) {
      if q == k {
        assert (proofs + [p])[|proofs|] == p;
      } else {
        var i :| 0 <= i < |proofs| && ProofKey(proofs[i]) == q;
        assert (proofs + [p])[i] == proofs[i];
      }
    }
  }

  method ProveCommitments(res: CommitmentMap, sv: nat, ev: nat, trees: TreeMap, cached: Commitments, r: Records,
                          required: BatchIdxs, ghost u: Updates, ghost honest: bool)
    returns (proofs: seq<RangeProof>)
    requires Saved(r, u) && RequiredFor(res, sv, ev) && ev < |u| - 1
    requires forall k: Key :: Wanted(required, k) <==> k in res
    requires forall k: Key :: Wanted(required, k) <==> k in trees
    requires HonestCache(cached, u) && (honest ==> HonestTrees(trees, required, u))
    ensures Proved(proofs, res, {}, u, honest)
  {
    proofs := [];
    var pending := res.Keys;
    while pending != {}
      invariant pending <= res.Keys && Proved(proofs, res, pending, u, honest)
    {
      var k :| k in pending;
      RequiredInTree(res, sv, ev, k);
      RequiredStarted(res, sv, ev, u, k);
      var p := ProveCommitment(res[k], trees, cached, r, required, u, honest);
      ProvedStep(proofs, p, res, pending, k, u, honest);
      proofs := proofs + [p];
      pending := pending - {k};
    }
  }

  /** The slow path finds every commitment that the range needs. */
  ghost predicate RangeFound(res: CommitmentMap, u: Updates) {
    forall k :: k in res ==> FindsChildren(k, u)
  }

  lemma {:induction false} FoundForRange(required: BatchIdxs, res: CommitmentMap, u: Updates)
    requires forall k: Key :: Wanted(required, k) <==> k in res
    ensures RangeFound(res, u) <==> AllFound(required, u)
  {
  }

  /** The slow path does fail: with 2049 updates and the range of version 0 alone, batch 0 of layer 2 is
      required and holds the child batch that starts at the current version, 2048. */
  lemma {:induction false} SlowPathFails(res: CommitmentMap, u: Updates)
    requires RequiredFor(res, 0, 0) && |u| == L1 + 1
    ensures (2, 0) in res && Started((2, 0), u) && !RangeFound(res, u)
  {
    var base := FindRangeCoveringCommitments(0, 0, 1);
    var leaf: Key := (1, 0);
    assert base[0].layer == 1 && base[0].idx == 0;
    assert Reaches(KeyOf(base[0]), leaf);
    assert ReachedFrom(base, leaf);
    ParentRequired(res, 0, 0, leaf);
    assert ParentKey(leaf) == (2, 0);
    assert !FindsChildren((2, 0), u);
  }

  /** The proofs and balances for a range of versions, from stored roots or from all leaves
      (GetNewProofRange, GetOldProofRange).  Both ways give the proofs of the complete trees. */
  method GetProofRange(r: Records, sv: nat, ev: nat, fromLeaves: bool, ghost u: Updates)
    returns (ok: bool, proofs: seq<RangeProof>, balances: seq<HistoricalBalance>, ghost res: CommitmentMap)
    requires Saved(r, u) && sv <= ev < |u| - 1
    ensures RequiredFor(res, sv, ev)
    ensures !fromLeaves || RangeFound(res, u) ==> ok && HonestProofs(proofs, res, sv, ev, u)
    ensures fromLeaves && FewVersions(u) && ok ==> RangeFound(res, u)
    ensures !ok ==> fromLeaves && !RangeFound(res, u)
    ensures balances == History(u, sv, ev)
  {
    var commitments := FindCommitmentsCoveringRange(sv, ev);
    res, proofs := commitments, [];
    var required := GroupByLayer(commitments);
    RequiredAllStarted(res, sv, ev, u, required);
    FoundForRange(required, res, u);
    var trees, cached;
    if fromLeaves {
      ok, trees, balances := OldRebuildSegmentTreeForProof(r, required, sv, ev, u);
      cached := map[];
    } else {
      ok := true;
      trees, balances, cached := RebuildSegmentTreeForProof(r, required, sv, ev, u);
    }
    if ok {
      proofs := ProveCommitments(commitments, sv, ev, trees, cached, r, required, u, !fromLeaves || RangeFound(res, u));
    }
  }

  /** Whichever way the trees were rebuilt, and in whichever order the commitments were handled, the
      proofs are the same. */
  lemma {:induction false} SameProofs(proofs: seq<RangeProof>, res: CommitmentMap, proofs': seq<RangeProof>, res': CommitmentMap,
                   sv: nat, ev: nat, u: Updates, i: nat)
    returns (i': nat)
    requires HonestProofs(proofs, res, sv, ev, u) && HonestProofs(proofs', res', sv, ev, u)
    requires i < |proofs|
    ensures i' < |proofs'|
    ensures var p, p' := proofs[i], proofs'[i'];
            && ProofKey(p) == ProofKey(p') && p.commitment == p'.commitment && p.opening == p'.opening && p.range == p'.range
            && forall d :: d in p.dependents <==> d in p'.dependents
  {
    var k := ProofKey(proofs[i]);
    assert IsHonest(proofs[i], res, u);
    SameRequired(res, res', sv, ev, k);
    i' :| 0 <= i' < |proofs'| && ProofKey(proofs'[i']) == k;
    assert IsHonest(proofs'[i'], res', u);
  }

  lemma {:induction false} SameRequired(res: CommitmentMap, res': CommitmentMap, sv: nat, ev: nat, k: Key)
    requires RequiredFor(res, sv, ev) && RequiredFor(res', sv, ev) && k in res && InTree(res[k])
    ensures k in res' && res[k].range == res'[k].range && InTree(res'[k])
    ensures forall d :: d in res[k].dependents <==> d in res'[k].dependents
    ensures NodeSet(OpenedNodes(res[k])) == NodeSet(OpenedNodes(res'[k]))
  {
    SameKeys(res, res', sv, ev, k);
    RequiredInTree(res', sv, ev, k);
    SameDependents(res, res', sv, ev, k);
    SameNodes(res[k], res'[k]);
  }

  lemma {:induction false} SameKeys(res: CommitmentMap, res': CommitmentMap, sv: nat, ev: nat, k: Key)
    requires RequiredFor(res, sv, ev) && RequiredFor(res', sv, ev)
    ensures k in res <==> k in res'
    ensures k in res ==> res[k].range == res'[k].range && KeyOf(res[k]) == KeyOf(res'[k])
  {
    var base := FindRangeCoveringCommitments(sv, ev, 1);
    assert k in res <==> ReachedFrom(base, k);
    assert k in res' <==> ReachedFrom(base, k);
  }

  lemma {:induction false} SameDependents(res: CommitmentMap, res': CommitmentMap, sv: nat, ev: nat, k: Key)
    requires RequiredFor(res, sv, ev) && RequiredFor(res', sv, ev) && k in res && k in res'
    ensures forall d :: d in res[k].dependents <==> d in res'[k].dependents
  {
    forall d ensures d in res[k].dependents <==> d in res'[k].dependents {
      assert d in res[k].dependents <==> IsChildOf(res, k, d);
      assert d in res'[k].dependents <==> IsChildOf(res', k, d);
      if k.0 > 1 {
        SameKeys(res, res', sv, ev, (k.0 - 1, d));
      }
    }
  }

  lemma {:induction false} SameNodes(c: RangeCommitment, c': RangeCommitment)
    requires InTree(c) && InTree(c') && KeyOf(c) == KeyOf(c') && c.range == c'.range
    requires forall d :: d in c.dependents <==> d in c'.dependents
    ensures NodeSet(OpenedNodes(c)) == NodeSet(OpenedNodes(c'))
  {
    SlotNodesMembers(c.dependents, c'.dependents);
    SlotNodesMembers(c'.dependents, c.dependents);
    assert CoverNodes(c) == CoverNodes(c');
  }

  lemma {:induction false} SlotNodesMembers(a: seq<nat>, b: seq<nat>)
    requires forall d :: d in a ==> d in b
    ensures forall x :: x in SlotNodes(a) ==> x in SlotNodes(b)
  {
    forall x | x in SlotNodes(a) ensures x in SlotNodes(b) {
      var i :| 0 <= i < |a| && SlotNodes(a)[i] == x;
      assert a[i] in a;
      var j :| 0 <= j < |b| && b[j] == a[i];
      assert SlotNodes(b)[j] == x;
    }
  }
}
