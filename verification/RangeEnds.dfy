/** Ranges that reach the current version of an account (verify.go). */
module RangeEnds {
  import opened Arithmetic
  import opened Primitives
  import opened Heap
  import opened Layers
  import opened SegmentTree
  import opened Accounts
  import opened RangeCover
  import opened Dependencies
  import opened RequiredCommitments
  import opened Snapshots
  import opened StoredTrees
  import opened RangeProofs
  import opened VerifierTrees
  import opened Listed
  import opened Verification
  import opened Verifier
  import opened EndToEnd
  import opened Binding

  ghost predicate AllStarted(res: CommitmentMap, u: Updates) {
    forall k: Key :: k in res ==> Started(k, u)
  }

  // ----- honest proofs do not see what they do not open

  /** In the range the supplied leaves are those of the account, missing ones included. */
  ghost predicate SameInRange(w: Versions, u: Updates, sv: nat, ev: nat) {
    forall v: nat :: sv <= v <= ev ==> SameAt(w, LeafHashes(u), v)
  }

  lemma {:induction false} CoverAgrees(res: CommitmentMap, proofs: ProofMap, w: Versions, u: Updates, sv: nat, ev: nat, k: Key, i: nat)
    requires RequiredFor(res, sv, ev) && SameInRange(w, u, sv, ev) && RequiredAt(res, k) && i in CoverNodes(res[k])
    ensures i < TREE_SIZE && ClientTree(k, w, proofs, res.Keys)[i] == FullTree(k.0, k.1, LeafHashes(u))[i]
  {
    CoverNode(res[k], i);
    ClientNode(k, w, proofs, res.Keys, i);
    FullNode(k, LeafHashes(u), i);
    forall v: nat | Beneath(k.0, k.1, i, v) ensures SameAt(w, LeafHashes(u), v) {
      BeneathInRange(res, sv, ev, k, i, v);
    }
    NodeLocal(k.0, k.1, i, w, LeafHashes(u));
  }

  lemma {:induction false} NodeAgrees(res: CommitmentMap, proofs: ProofMap, w: Versions, u: Updates, sv: nat, ev: nat, k: Key, i: nat)
    requires RequiredFor(res, sv, ev) && SameInRange(w, u, sv, ev) && HonestReply(res, proofs, u) && AllStarted(res, u)
    requires RequiredAt(res, k) && i in OpenedNodes(res[k]) && i < TREE_SIZE
    ensures ClientTree(k, w, proofs, res.Keys)[i] == FullTree(k.0, k.1, LeafHashes(u))[i]
  {
    hide LeafHashes, HonestReply, RequiredFor, OpenedNodes, CoverNodes, BatchSize, WithSlots, Started, SameInRange;
    if i in CoverNodes(res[k]) {
      CoverAgrees(res, proofs, w, u, sv, ev, k, i);
    } else {
      var j := SlotNode(res, sv, ev, k, i);
      IsRequired(res, sv, ev, (k.0 - 1, k.1 * L2 + j));
      ChildAgrees(res, proofs, w, u, k, j);
    }
  }

  lemma {:induction false} KeyChecks(res: CommitmentMap, proofs: ProofMap, w: Versions, u: Updates, sv: nat, ev: nat, k: Key)
    requires RequiredFor(res, sv, ev) && SameInRange(w, u, sv, ev) && HonestReply(res, proofs, u) && AllStarted(res, u) && k in res
    ensures Checks(k, res, proofs, BareTrees(res, w))
  {
    hide RequiredFor, BatchSize, WithSlots, OpenedNodes, FullTree, Commit, OpensTo, BareTree, SameInRange, AllStarted;
    IsRequired(res, sv, ev, k);
    RequiredNodes(res, sv, ev, k);
    var t, full := ClientTree(k, w, proofs, res.Keys), FullTree(k.0, k.1, LeafHashes(u));
    forall i | i in OpenedNodes(res[k]) ensures i < |t| && OpensTo(proofs[k].commitment, i, t[i]) {
      NodeAgrees(res, proofs, w, u, sv, ev, k, i);
      OpensToEntry(full, i, t[i]);
    }
  }

  /** Completeness without a bound on the range: honest proofs are accepted with any balances that agree with the
      history inside the range, if every required batch has been started. */
  lemma {:induction false} AgreeingAccepted(res: CommitmentMap, proofs: ProofMap, balances: seq<HistoricalBalance>, first: nat, last: nat,
                                            u: Updates, sv: nat, ev: nat)
    requires RequiredFor(res, sv, ev) && HonestReply(res, proofs, u) && AllStarted(res, u)
    requires first <= last && InOrder(balances, first, last) && KeysAtEnds(res, first, last)
    requires SameInRange(Supplied(balances, first), u, sv, ev)
    ensures AllCheck(res, proofs, ListTrees(res, balances))
  {
    hide Checks, RequiredFor, SameInRange, AllStarted, HonestReply, InOrder, KeysAtEnds, ListTrees, BareTrees, Supplied;
    CopiesInOrder(res, balances, first, last);
    forall k: Key | k in res ensures Checks(k, res, proofs, BareTrees(res, Supplied(balances, first))) {
      KeyChecks(res, proofs, Supplied(balances, first), u, sv, ev, k);
    }
  }

  /** A batch that has been started and contains a version from the current one on contains the one before it. */
  lemma {:induction false} StartedContainsLast(u: Updates, k: Key, v: nat)
    requires Started(k, u) && InBatch(k.0, k.1, v) && v >= |u| - 1
    ensures InBatch(k.0, k.1, |u| - 2)
  {
    Monotone(|u| - 2, v, BatchSize(k.0));
  }

  lemma {:induction false} EndsAtLast(res: CommitmentMap, sv: nat, ev: nat, u: Updates)
    requires RequiredFor(res, sv, ev) && AllStarted(res, u) && ev >= |u| - 1 && |u| >= 2
    ensures KeysAtEnds(res, if sv < |u| - 1 then sv else |u| - 2, |u| - 2)
  {
    hide RequiredFor, BatchSize;
    forall k: Key | k in res ensures KeyAtEnd(k, if sv < |u| - 1 then sv else |u| - 2, |u| - 2) {
      RequiredAtEnd(res, sv, ev, k);
      assert Started(k, u);
      if InBatch(k.0, k.1, ev) {
        StartedContainsLast(u, k, ev);
      } else if sv >= |u| - 1 {
        StartedContainsLast(u, k, sv);
      }
    }
  }

  // ----- a reply with a wrong balance

  /** A wrong balance of the first version and then what there is of the history; or, for a range from the current
      version on, a wrong balance of the version before it. */
  function FewButWrong(u: Updates, sv: nat): (balances: seq<HistoricalBalance>)
    requires |u| >= 2
    ensures !AllRight(u, balances)
  {
    var balances := if sv < |u| - 1 then Padded(u, sv, |u| - 2, 1) else [Wrong(u, |u| - 2)];
    assert balances[0] in balances;
    balances
  }

  lemma {:induction false} HistorySame(u: Updates, sv: nat, ev: nat)
    requires sv < |u| - 1
    ensures InOrder(History(u, sv, |u| - 2), sv, |u| - 2) && SameInRange(Supplied(History(u, sv, |u| - 2), sv), u, sv, ev)
  {
    var h := History(u, sv, |u| - 2);
    HistoryInOrder(u, sv, |u| - 2);
    forall v: nat | sv <= v <= ev ensures SameAt(Supplied(h, sv), LeafHashes(u), v) {
      if v < |u| - 1 {
        assert Supplied(h, sv)[v] == SuppliedHash(h, sv, v);
      }
    }
  }

  lemma {:induction false} FewChecks(res: CommitmentMap, proofs: ProofMap, u: Updates, sv: nat, ev: nat)
    requires RequiredFor(res, sv, ev) && HonestReply(res, proofs, u) && AllStarted(res, u) && |u| >= 2 && ev >= |u| - 1
    ensures AllCheck(res, proofs, ListTrees(res, FewButWrong(u, sv)))
  {
    hide RequiredFor, HonestReply, AllStarted, AllCheck, ListTrees, Supplied, KeysAtEnds;
    EndsAtLast(res, sv, ev, u);
    if sv < |u| - 1 {
      HistorySame(u, sv, ev);
      AgreeingAccepted(res, proofs, History(u, sv, |u| - 2), sv, |u| - 2, u, sv, ev);
      PaddedTrees(res, u, sv, |u| - 2, 1);
    } else {
      var balances := [Wrong(u, |u| - 2)];
      NoneInRange(balances, u, sv, ev);
      AgreeingAccepted(res, proofs, balances, |u| - 2, |u| - 2, u, sv, ev);
    }
  }

  lemma {:induction false} NoneInRange(balances: seq<HistoricalBalance>, u: Updates, sv: nat, ev: nat)
    requires |u| >= 2 && |balances| == 1 && sv >= |u| - 1
    ensures SameInRange(Supplied(balances, |u| - 2), u, sv, ev)
  {
  }

  lemma {:induction false} HonestFirstTop(proofs: seq<RangeProof>, res: CommitmentMap, sv: nat, ev: nat, u: Updates)
    requires HonestProofs(proofs, res, sv, ev, u) && FirstTopIdx(proofs).Some?
    ensures FirstTop(proofs) == Some(Commit(FullTree(MAX_LAYER, FirstTopIdx(proofs).value, LeafHashes(u))))
  {
    hide FullTree, Commit, OpenedNodes;
    var i := FirstTopIs(proofs);
    assert IsHonest(proofs[i], res, u);
  }

  /** Honest proofs for a range in the current top-layer batch are bound throughout. */
  lemma {:induction false} HonestBound(res: CommitmentMap, proofs: seq<RangeProof>, u: Updates, sv: nat, ev: nat)
    requires HonestProofs(proofs, res, sv, ev, u) && RequiredFor(res, sv, ev) && InCurrentTop(u, sv, ev)
    ensures AnchorOk(HonestAnchor(u), proofs, false) && BoundThroughout(proofs, HonestAnchor(u), sv, ev)
  {
    hide HonestProofs, RequiredFor, BatchSize, FullTree, Commit, LeafHashes, MapOf, FirstTop, FirstTopIdx, HonestReply, InCompleteTop;
    HonestTopIdx(proofs, res, sv, ev, u);
    HonestFirstTop(proofs, res, sv, ev, u);
    AnchorMatches(proofs, u);
    HonestReplyOf(proofs, res, res, sv, ev, u);
    forall v: nat | sv <= v <= ev ensures BoundAt(proofs, HonestAnchor(u), v) {
      WithinAt(u, sv, ev, v);
      TopRequired(res, sv, ev, v);
      HonestTopIs(res, MapOf(proofs), sv, ev, u, TopKey(v));
    }
  }

  /** Accepted replies that are bound throughout and list at most as many balances as the range has versions list the
      account's balances only. */
  ghost predicate FewDetermine(res: CommitmentMap, sv: nat, ev: nat, u: Updates) {
    forall n: nat :: n <= ev + 1 - sv ==> CountDetermines(res, sv, ev, u, n)
  }

  lemma {:induction false} StartedMisleads(res: CommitmentMap, sv: nat, ev: nat, u: Updates)
    requires RequiredFor(res, sv, ev) && InCurrentTop(u, sv, ev) && ev >= |u| - 1 && AllStarted(res, u)
    ensures !FewDetermine(res, sv, ev, u)
  {
    hide RequiredFor, BoundThroughout, AnchorOk, ListTrees, AllCheck, MapOf, AllRight, AllStarted, BatchSize;
    var proofs := HonestProofsExist(res, sv, ev, u, {});
    var balances := FewButWrong(u, sv);
    HonestBound(res, proofs, u, sv, ev);
    HonestReplyOf(proofs, res, res, sv, ev, u);
    FewChecks(res, MapOf(proofs), u, sv, ev);
    assert Outcome(res, proofs, balances, HonestAnchor(u)).Accepted?;
    assert !CountDetermines(res, sv, ev, u, |balances|);
  }

  // ----- a required batch that has not been started

  /** Its slot is empty in the account's tree and never in the client's. */
  lemma {:induction false} UnstartedFails(res: CommitmentMap, proofs: ProofMap, bare: TreeMap, sv: nat, ev: nat, u: Updates,
                                          k: Key, v: nat)
    requires RequiredFor(res, sv, ev) && AllCheck(res, proofs, bare) && HonestTop(proofs, LeafHashes(u), v / BatchSize(MAX_LAYER))
    requires k in res && 0 < k.0 < MAX_LAYER && InBatch(k.0, k.1, v)
    ensures Started(k, u)
  {
    hide FullTree, Commit, RequiredFor, OpenedNodes, WithSlots, OpensTo, LeafHashes, HonestTop, BatchSize;
    var p, i := ParentKey(k), Slot(k.1 % L2);
    ParentRequired(res, sv, ev, k);
    ParentContains(k, v);
    Authentic(res, proofs, bare, sv, ev, LeafHashes(u), p, v);
    assert Checks(p, res, proofs, bare) && Checks(k, res, proofs, bare);
    SlotOpened(res[p], k.1);
    ChildSlot(k, bare[p], proofs, res.Keys, LeafHashes(u));
    OpensToEntry(FullTree(p.0, p.1, LeafHashes(u)), i, WithSlots(bare[p], p, proofs, res.Keys)[i]);
    FirstPresent(k, u);
  }

  /** So in a bound reply that is accepted every required batch has been started. */
  lemma {:induction false} AcceptedStarted(res: CommitmentMap, proofs: seq<RangeProof>, balances: seq<HistoricalBalance>, anchor: Anchor,
                                           sv: nat, ev: nat, u: Updates)
    requires RequiredFor(res, sv, ev) && InCurrentTop(u, sv, ev) && balances != [] && Anchored(anchor, u)
    requires BoundThroughout(proofs, anchor, sv, ev) && Outcome(res, proofs, balances, anchor).Accepted?
    ensures AllStarted(res, u)
  {
    hide RequiredFor, AnchorOk, AllCheck, ListTrees, MapOf, BoundAt, LeafHashes, HonestTop, Outcome, InCompleteTop;
    OutcomeAnchored(res, proofs, balances, anchor);
    CurrentTopsHonest(proofs, anchor, u, sv, ev);
    forall k: Key | k in res ensures Started(k, u) {
      RequiredAtEnd(res, sv, ev, k);
      var v := if InBatch(k.0, k.1, sv) then sv else ev;
      if k.0 < MAX_LAYER {
        UnstartedFails(res, MapOf(proofs), ListTrees(res, balances), sv, ev, u, k, v);
      }
    }
  }

  lemma {:induction false} UnstartedDetermines(res: CommitmentMap, sv: nat, ev: nat, u: Updates)
    requires RequiredFor(res, sv, ev) && InCurrentTop(u, sv, ev) && !AllStarted(res, u)
    ensures FewDetermine(res, sv, ev, u)
  {
    hide RequiredFor, BoundThroughout, AllStarted, Anchored, Outcome, InCurrentTop;
    forall proofs, balances, anchor | Anchored(anchor, u) && BoundThroughout(proofs, anchor, sv, ev) &&
                                      Outcome(res, proofs, balances, anchor).Accepted?
      ensures balances == []
    {
      if balances != [] {
        AcceptedStarted(res, proofs, balances, anchor, sv, ev, u);
      }
    }
  }

  /** For every range within the current top-layer batch: accepted replies that are bound and list no more balances
      than the range has versions list the account's balances only, if and only if the range ends before the current
      version or needs a batch that has not been started, in which case no balances are accepted. */
  lemma {:induction false} FewDetermineExact(res: CommitmentMap, sv: nat, ev: nat, u: Updates)
    requires RequiredFor(res, sv, ev) && InCurrentTop(u, sv, ev)
    ensures FewDetermine(res, sv, ev, u) <==> ev < |u| - 1 || !AllStarted(res, u)
  {
    hide RequiredFor, CountDetermines, AllStarted;
    if ev < |u| - 1 {
      forall n: nat | n <= ev + 1 - sv ensures CountDetermines(res, sv, ev, u, n) {
        CountExact(res, sv, ev, u, n);
      }
    } else if AllStarted(res, u) {
      StartedMisleads(res, sv, ev, u);
    } else {
      UnstartedDetermines(res, sv, ev, u);
    }
  }
}
