/** The client's batch trees, rebuilt from the supplied balances alone (rebuildverify.go). */
module VerifierTrees {
  import opened Arithmetic
  import opened Primitives
  import opened Heap
  import opened Layers
  import opened SegmentTree
  import opened Accounts
  import opened AccountObjects
  import opened RangeCover
  import opened Dependencies
  import opened RequiredCommitments
  import opened Rebuild
  import opened Snapshots
  import opened ProverTrees
  import opened RangeProofs

  type ProofMap = map<Key, RangeProof>

  /** The balances are those of versions sv to ev, in order. */
  predicate InOrder(balances: seq<HistoricalBalance>, sv: nat, ev: nat) {
    |balances| == ev + 1 - sv && forall i :: 0 <= i < |balances| ==> balances[i].current.version == sv + i
  }

  /** The leaf hashes of balances in order. */
  function Supplied(balances: seq<HistoricalBalance>, sv: nat): Versions {
    map v: nat | sv <= v < sv + |balances| :: SuppliedHash(balances, sv, v)
  }

  function SuppliedHash(balances: seq<HistoricalBalance>, sv: nat, v: nat): Hash
    requires sv <= v < sv + |balances|
  {
    BalanceHash(balances[v - sv])
  }

  // ----- leaves: the trees after adding any list of balances

  /** The trees after the first n balances, in whatever order they come. */
  function Stack(balances: seq<HistoricalBalance>, n: nat): TreeStack
    requires n <= |balances|
  {
    if n == 0 then EmptyStack()
    else AddBareLeaf(Stack(balances, n - 1), balances[n - 1].current.version, BalanceHash(balances[n - 1]))
  }

  /** Batch k is copied after balance i: the next version is in another batch, or no balance follows. */
  predicate CopiedAt(balances: seq<HistoricalBalance>, k: Key, i: nat)
    requires i < |balances|
  {
    && 0 < k.0 <= MAX_LAYER && InBatch(k.0, k.1, balances[i].current.version)
    && (i == |balances| - 1 || !InBatch(k.0, k.1, balances[i].current.version + 1))
  }

  /** How many of the first n balances had been added when batch k was last copied, or 0. */
  function CopyTime(balances: seq<HistoricalBalance>, k: Key, n: nat): (time: nat)
    requires n <= |balances|
    ensures time <= n && (time > 0 ==> CopiedAt(balances, k, time - 1))
    ensures forall i :: time <= i < n ==> !CopiedAt(balances, k, i)
  {
    if n == 0 || CopiedAt(balances, k, n - 1) then n else CopyTime(balances, k, n - 1)
  }

  /** The copies after the first n balances. */
  ghost predicate Replayed(trees: TreeMap, required: BatchIdxs, balances: seq<HistoricalBalance>, n: nat)
    requires n <= |balances|
  {
    && (forall k: Key :: k in trees <==> Wanted(required, k) && CopyTime(balances, k, n) > 0)
    && forall k: Key :: k in trees ==> trees[k] == Stack(balances, CopyTime(balances, k, n))[k.0 - 1]
  }

  lemma {:induction false} ReplayStep(before: TreeMap, after: TreeMap, required: BatchIdxs, balances: seq<HistoricalBalance>, n: nat)
    requires n < |balances| && Replayed(before, required, balances, n)
    requires CopyStep(before, after, required, balances[n].current.version, n == |balances| - 1, Stack(balances, n + 1))
    ensures Replayed(after, required, balances, n + 1)
  {
    hide Stack, InBatch;
    forall k: Key | Wanted(required, k)
      ensures CopiedAfter(required, balances[n].current.version, n == |balances| - 1, k) <==> CopiedAt(balances, k, n)
    {
      TimeStep(balances, k, n);
    }
  }

  lemma {:induction false} TimeStep(balances: seq<HistoricalBalance>, k: Key, n: nat)
    requires n < |balances|
    ensures CopyTime(balances, k, n + 1) == if CopiedAt(balances, k, n) then n + 1 else CopyTime(balances, k, n)
  {
  }

  /** Add the supplied balances in the order given and copy the required trees. */
  method AddBalances(balances: seq<HistoricalBalance>, required: BatchIdxs) returns (trees: TreeMap)
    ensures Replayed(trees, required, balances, |balances|)
  {
    hide CopyStep;
    var a := NewTrees();
    trees := map[];
    for i := 0 to |balances|
      invariant fresh(a.trees) && Trees(a) == Stack(balances, i) && Replayed(trees, required, balances, i)
    {
      var next := AddAndCopy(a, balances[i].current.version, BalanceHash(balances[i]), required, i == |balances| - 1, trees);
      ReplayStep(trees, next, required, balances, i);
      trees := next;
    }
  }

  // ----- slots

  function SuppliedSlot(k: Key, proofs: ProofMap, placed: set<Key>): Option<Hash> {
    if k in placed && k in proofs then Some(CommitmentHash(proofs[k].commitment)) else None
  }

  /** What is stored at node i of batch k for the batches in `placed`. */
  function SlotEntry(k: Key, proofs: ProofMap, placed: set<Key>, i: nat): Option<Hash> {
    if k.0 > 1 && Slot(0) <= i < Slot(L2) then SuppliedSlot((k.0 - 1, k.1 * L2 + (i - Slot(0))), proofs, placed) else None
  }

  /** The tree of batch k with the commitments in the reply in the slots of the batches in `placed`. */
  function WithSlots(t: HashVector, k: Key, proofs: ProofMap, placed: set<Key>): (r: HashVector)
    ensures |r| == |t|
  {
    seq(|t|, i requires 0 <= i < |t| => if SlotEntry(k, proofs, placed, i).Some? then SlotEntry(k, proofs, placed, i) else t[i])
  }

  function AllWithSlots(trees: TreeMap, proofs: ProofMap, placed: set<Key>): TreeMap {
    map k | k in trees :: WithSlots(trees[k], k, proofs, placed)
  }

  lemma {:induction false} EntryStep(q: Key, proofs: ProofMap, placed: set<Key>, k: Key, i: nat)
    requires k in proofs && k.0 > 0
    ensures SlotEntry(q, proofs, placed + {k}, i) ==
            if q == ParentKey(k) && i == Slot(k.1 % L2) then Some(CommitmentHash(proofs[k].commitment)) else SlotEntry(q, proofs, placed, i)
  {
    if q.0 > 1 && Slot(0) <= i < Slot(L2) {
      DivUnique(q.1 * L2 + (i - Slot(0)), L2, q.1, i - Slot(0));
    }
    Divided(k.1, L2);
  }

  lemma {:induction false} SlotsStep(t: HashVector, q: Key, proofs: ProofMap, placed: set<Key>, k: Key)
    requires k in proofs && k.0 > 0 && |t| == TREE_SIZE
    ensures WithSlots(t, q, proofs, placed + {k}) ==
            if q == ParentKey(k) then WithSlots(t, q, proofs, placed)[Slot(k.1 % L2) := Some(CommitmentHash(proofs[k].commitment))]
            else WithSlots(t, q, proofs, placed)
  {
    hide SlotEntry;
    var after, before := WithSlots(t, q, proofs, placed + {k}), WithSlots(t, q, proofs, placed);
    forall i: nat | i < TREE_SIZE
      ensures after[i] == if q == ParentKey(k) && i == Slot(k.1 % L2) then Some(CommitmentHash(proofs[k].commitment)) else before[i]
    {
      EntryStep(q, proofs, placed, k, i);
    }
  }

  lemma {:induction false} NoSlots(t: HashVector, k: Key, proofs: ProofMap)
    ensures WithSlots(t, k, proofs, {}) == t
  {
  }

  ghost predicate Sized(trees: TreeMap) {
    forall k: Key :: k in trees ==> 0 < k.0 <= MAX_LAYER && |trees[k]| == TREE_SIZE
  }

  lemma {:induction false} SlotsSized(trees: TreeMap, proofs: ProofMap, placed: set<Key>)
    requires Sized(trees)
    ensures Sized(AllWithSlots(trees, proofs, placed))
  {
  }

  /** Every required commitment below the top layer has a proof in the reply. */
  predicate LowerSupplied(res: CommitmentMap, proofs: ProofMap) {
    forall k :: k in res && k.0 < MAX_LAYER ==> k in proofs
  }

  /** Store the commitment of one required batch in its parent's tree, if there is such a tree. */
  method FillSlot(before: TreeMap, k: Key, commitment: Point) returns (trees: TreeMap)
    requires Sized(before)
    ensures trees == if ParentKey(k) in before
                     then before[ParentKey(k) := before[ParentKey(k)][Slot(k.1 % L2) := Some(CommitmentHash(commitment))]]
                     else before
  {
    trees := before;
    var parent := (k.0 + 1, k.1 / L2);
    var offset := 2 * L2 - 1 + k.1 % L2;
    if parent in trees {
      trees := trees[parent := trees[parent][offset := Some(CommitmentHash(commitment))]];
    }
  }

  lemma {:induction false} FillStep(bare: TreeMap, proofs: ProofMap, placed: set<Key>, k: Key)
    requires Sized(bare) && k in proofs && k.0 > 0
    ensures var before := AllWithSlots(bare, proofs, placed);
            AllWithSlots(bare, proofs, placed + {k}) ==
            if ParentKey(k) in before
            then before[ParentKey(k) := before[ParentKey(k)][Slot(k.1 % L2) := Some(CommitmentHash(proofs[k].commitment))]]
            else before
  {
    hide WithSlots;
    var after, before, p := AllWithSlots(bare, proofs, placed + {k}), AllWithSlots(bare, proofs, placed), ParentKey(k);
    forall q: Key | q in bare
      ensures after[q] == if q == p then before[p][Slot(k.1 % L2) := Some(CommitmentHash(proofs[k].commitment))] else before[q]
    {
      SlotsStep(bare[q], q, proofs, placed, k);
    }
    assert after.Keys == before.Keys == bare.Keys;
  }

  /** No tree has slots for batches of the top layer. */
  lemma {:induction false} TopStep(bare: TreeMap, proofs: ProofMap, placed: set<Key>, k: Key)
    requires Sized(bare) && k.0 == MAX_LAYER
    ensures AllWithSlots(bare, proofs, placed + {k}) == AllWithSlots(bare, proofs, placed)
  {
    var after, before := AllWithSlots(bare, proofs, placed + {k}), AllWithSlots(bare, proofs, placed);
    forall q: Key | q in bare ensures after[q] == before[q] {
      assert forall i: nat :: i < TREE_SIZE ==> SlotEntry(q, proofs, placed + {k}, i) == SlotEntry(q, proofs, placed, i);
    }
  }

  lemma {:induction false} MovedOver<T>(all: set<T>, pending: set<T>, k: T)
    requires k in pending && pending <= all
    ensures all - pending + {k} == all - (pending - {k})
  {
  }

  lemma {:induction false} NothingPlaced(bare: TreeMap, proofs: ProofMap, res: CommitmentMap)
    ensures AllWithSlots(bare, proofs, res.Keys - res.Keys) == bare
  {
    assert res.Keys - res.Keys == {};
    forall k | k in bare ensures AllWithSlots(bare, proofs, {})[k] == bare[k] {
      NoSlots(bare[k], k, proofs);
    }
  }

  ghost predicate Supplying(proofs: ProofMap, placed: set<Key>) {
    forall k :: k in placed && k.0 < MAX_LAYER ==> k in proofs
  }

  /** Fill the slots of all trees; a required proof below the top layer that is missing stops the
      program. */
  method FillSlots(bare: TreeMap, res: CommitmentMap, proofs: ProofMap, ghost sv: nat, ghost ev: nat) returns (ok: bool, trees: TreeMap)
    requires Sized(bare) && RequiredFor(res, sv, ev)
    ensures ok <==> LowerSupplied(res, proofs)
    ensures ok ==> trees == AllWithSlots(bare, proofs, res.Keys)
  {
    hide AllWithSlots, RequiredFor, Sized;
    trees := bare;
    var pending := res.Keys;
    NothingPlaced(bare, proofs, res);
    while pending != {}
      invariant pending <= res.Keys && Supplying(proofs, res.Keys - pending)
      invariant trees == AllWithSlots(bare, proofs, res.Keys - pending)
    {
      var k: Key :| k in pending;
      if k.0 < MAX_LAYER && k !in proofs {
        ok := false;
        return;
      }
      trees := PlaceOne(bare, trees, res, proofs, k, res.Keys - pending, sv, ev);
      MovedOver(res.Keys, pending, k);
      pending := pending - {k};
    }
    assert res.Keys - {} == res.Keys;
    ok := true;
  }

  method PlaceOne(ghost bare: TreeMap, before: TreeMap, res: CommitmentMap, proofs: ProofMap, k: Key, ghost placed: set<Key>,
                  ghost sv: nat, ghost ev: nat)
    returns (trees: TreeMap)
    requires Sized(bare) && RequiredFor(res, sv, ev) && k in res && (k.0 < MAX_LAYER ==> k in proofs)
    requires before == AllWithSlots(bare, proofs, placed)
    ensures trees == AllWithSlots(bare, proofs, placed + {k})
  {
    hide AllWithSlots, RequiredFor, Sized;
    trees := before;
    RequiredAtEnd(res, sv, ev, k);
    SlotsSized(bare, proofs, placed);
    if k.0 < MAX_LAYER {
      FillStep(bare, proofs, placed, k);
      trees := FillSlot(before, k, proofs[k].commitment);
    } else {
      TopStep(bare, proofs, placed, k);
    }
  }

  /** The copies of the required batches after all balances. */
  function ListTrees(res: CommitmentMap, balances: seq<HistoricalBalance>): TreeMap {
    map k: Key | k in res && 0 < k.0 <= MAX_LAYER && CopyTime(balances, k, |balances|) > 0 ::
      Stack(balances, CopyTime(balances, k, |balances|))[k.0 - 1]
  }

  lemma {:induction false} ReplayedAll(trees: TreeMap, required: BatchIdxs, res: CommitmentMap, balances: seq<HistoricalBalance>)
    requires Replayed(trees, required, balances, |balances|) && forall k: Key :: Wanted(required, k) <==> k in res
    ensures trees == ListTrees(res, balances) && Sized(trees)
  {
    hide Stack, CopiedAt;
    forall k: Key ensures k in trees <==> k in ListTrees(res, balances) {
      assert k in trees <==> Wanted(required, k) && CopyTime(balances, k, |balances|) > 0;
    }
  }

  /** A batch is copied if and only if it is required and some listed balance belongs to it after which the next version is
      in another batch or no balance follows; its tree is the one after the last such balance. */
  lemma {:induction false} CopiedExactly(res: CommitmentMap, balances: seq<HistoricalBalance>, k: Key)
    requires 0 < k.0 <= MAX_LAYER
    ensures k in ListTrees(res, balances) <==> k in res && exists i :: 0 <= i < |balances| && LeavesBatch(balances, k, i)
    ensures forall i :: k in res && 0 <= i < |balances| && LeavesBatch(balances, k, i) &&
                        (forall j :: i < j < |balances| ==> !LeavesBatch(balances, k, j)) ==>
              ListTrees(res, balances)[k] == Stack(balances, i + 1)[k.0 - 1]
  {
    hide Stack, BatchSize;
    var time := CopyTime(balances, k, |balances|);
    forall i | 0 <= i < |balances| ensures LeavesBatch(balances, k, i) <==> CopiedAt(balances, k, i) {
    }
    assert time > 0 ==> LeavesBatch(balances, k, time - 1);
  }

  predicate LeavesBatch(balances: seq<HistoricalBalance>, k: Key, i: nat)
    requires 0 < k.0 <= MAX_LAYER && i < |balances|
  {
    var version := balances[i].current.version;
    version / BatchSize(k.0) == k.1 && (i + 1 == |balances| || (version + 1) / BatchSize(k.0) != k.1)
  }

  /** The required trees from the supplied balances and commitments (RebuildSegmentTreeForVerify). */
  method RebuildSegmentTreeForVerify(required: BatchIdxs, balances: seq<HistoricalBalance>, proofs: ProofMap, res: CommitmentMap,
                                     ghost sv: nat, ghost ev: nat)
    returns (ok: bool, trees: TreeMap)
    requires RequiredFor(res, sv, ev) && forall k: Key :: Wanted(required, k) <==> k in res
    ensures ok <==> LowerSupplied(res, proofs)
    ensures ok ==> trees == AllWithSlots(ListTrees(res, balances), proofs, res.Keys) && Sized(trees)
  {
    hide *;
    trees := AddBalances(balances, required);
    ReplayedAll(trees, required, res, balances);
    SlotsSized(trees, proofs, res.Keys);
    ok, trees := FillSlots(trees, res, proofs, sv, ev);
  }

  // ----- balances in order

  /** The trees of the required batches over the versions w. */
  function BareTrees(res: CommitmentMap, w: Versions): TreeMap {
    map k: Key | k in res && 0 < k.0 <= MAX_LAYER :: BareTree(k.0, k.1, w)
  }

  lemma {:induction false} StackHolds(balances: seq<HistoricalBalance>, sv: nat, ev: nat, n: nat)
    requires sv <= ev && InOrder(balances, sv, ev) && n <= |balances|
    ensures var all := Supplied(balances, sv);
            && BareFollows(Stack(balances, n), sv + n, Before(all, sv + n))
            && (n > 0 ==> BareHolds(Stack(balances, n), sv + n - 1, Before(all, sv + n)))
  {
    hide AddBareLeaf, BareFollows, BareHolds;
    var all := Supplied(balances, sv);
    if n == 0 {
      assert Before(all, sv) == map[];
      EmptyFollows(sv);
    } else {
      StackHolds(balances, sv, ev, n - 1);
      assert all[sv + n - 1] == SuppliedHash(balances, sv, sv + n - 1);
      FollowsStep(all, sv, sv + n - 1, ev + 1, Stack(balances, n - 1));
    }
  }

  /** Every batch contains the first or the last of the versions. */
  ghost predicate KeysAtEnds(res: CommitmentMap, sv: nat, ev: nat) {
    forall k: Key :: k in res ==> KeyAtEnd(k, sv, ev)
  }

  predicate KeyAtEnd(k: Key, sv: nat, ev: nat) {
    0 < k.0 <= MAX_LAYER && AtEnd(k.0, k.1, sv, ev)
  }

  lemma {:induction false} RequiredAtEnds(res: CommitmentMap, sv: nat, ev: nat)
    requires RequiredFor(res, sv, ev)
    ensures KeysAtEnds(res, sv, ev)
  {
    forall k: Key | k in res ensures KeyAtEnd(k, sv, ev) {
      RequiredAtEnd(res, sv, ev, k);
    }
  }

  /** Such a batch is copied. */
  lemma {:induction false} CopiedInOrder(balances: seq<HistoricalBalance>, sv: nat, ev: nat, k: Key)
    requires sv <= ev && InOrder(balances, sv, ev) && KeyAtEnd(k, sv, ev)
    ensures CopyTime(balances, k, |balances|) > 0
  {
    if InBatch(k.0, k.1, ev) {
      assert CopiedAt(balances, k, ev - sv);
    } else {
      var v := LastOfBatch(k, sv, ev);
      assert CopiedAt(balances, k, v - sv);
    }
  }

  lemma {:induction false} LastOfBatch(k: Key, sv: nat, ev: nat) returns (v: nat)
    requires 0 < k.0 <= MAX_LAYER && sv <= ev && InBatch(k.0, k.1, sv) && !InBatch(k.0, k.1, ev)
    ensures sv <= v < ev && InBatch(k.0, k.1, v) && !InBatch(k.0, k.1, v + 1)
  {
    v := sv;
    while InBatch(k.0, k.1, v + 1)
      invariant sv <= v < ev && InBatch(k.0, k.1, v)
      decreases ev - v
    {
      v := v + 1;
    }
  }

  /** With balances in order the copies are the trees over the balances. */
  lemma {:induction false} TreeInOrder(balances: seq<HistoricalBalance>, sv: nat, ev: nat, k: Key, time: nat)
    requires sv <= ev && InOrder(balances, sv, ev) && 0 < time <= |balances| && CopiedAt(balances, k, time - 1)
    ensures Stack(balances, time)[k.0 - 1] == BareTree(k.0, k.1, Supplied(balances, sv))
  {
    hide Stack, BareTree, BatchSize;
    var all := Supplied(balances, sv);
    StackHolds(balances, sv, ev, time);
    FinalBatch(k.0, sv + time - 1, Before(all, sv + time), all);
  }

  lemma {:induction false} CopyInOrder(balances: seq<HistoricalBalance>, sv: nat, ev: nat, k: Key)
    requires sv <= ev && InOrder(balances, sv, ev) && KeyAtEnd(k, sv, ev)
    ensures CopyTime(balances, k, |balances|) > 0
    ensures Stack(balances, CopyTime(balances, k, |balances|))[k.0 - 1] == BareTree(k.0, k.1, Supplied(balances, sv))
  {
    CopiedInOrder(balances, sv, ev, k);
    TreeInOrder(balances, sv, ev, k, CopyTime(balances, k, |balances|));
  }

  lemma {:induction false} CopiesInOrder(res: CommitmentMap, balances: seq<HistoricalBalance>, sv: nat, ev: nat)
    requires sv <= ev && InOrder(balances, sv, ev) && KeysAtEnds(res, sv, ev)
    ensures ListTrees(res, balances) == BareTrees(res, Supplied(balances, sv))
  {
    hide Stack, BareTree, InOrder, CopyTime, InBatch;
    forall k: Key | k in res
      ensures 0 < k.0 <= MAX_LAYER && CopyTime(balances, k, |balances|) > 0
      ensures Stack(balances, CopyTime(balances, k, |balances|))[k.0 - 1] == BareTree(k.0, k.1, Supplied(balances, sv))
    {
      assert KeyAtEnd(k, sv, ev);
      CopyInOrder(balances, sv, ev, k);
    }
  }

  /** The client's trees for balances that are those of the range in order. */
  lemma {:induction false} TreesInOrder(res: CommitmentMap, balances: seq<HistoricalBalance>, sv: nat, ev: nat)
    requires RequiredFor(res, sv, ev) && InOrder(balances, sv, ev)
    ensures ListTrees(res, balances) == BareTrees(res, Supplied(balances, sv))
  {
    RequiredAtEnds(res, sv, ev);
    CopiesInOrder(res, balances, sv, ev);
  }
}
