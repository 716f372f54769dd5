/** From the state trie down to single balances: what an accepted reply means, and that the prover's
    replies are accepted. */
module EndToEnd {
  import opened Arithmetic
  import opened Primitives
  import opened Layers
  import opened Shifts
  import opened SegmentTree
  import opened Accounts
  import opened AccountCache
  import opened RangeCover
  import opened Dependencies
  import opened RequiredCommitments
  import opened Snapshots
  import opened StoredTrees
  import opened RangeProofs
  import opened VerifierTrees
  import opened Verification
  import opened Verifier

  /** The client has a state root, and the state trie with this root holds the account's final commitment: what a
      lookup finds in it, if it finds anything, is that commitment. */
  predicate Anchored(anchor: Anchor, u: Updates) {
    anchor.rootGiven && (anchor.lookup.Found? ==> anchor.lookup.hash == CommitmentAfter(u))
  }

  function TopKey(v: nat): Key {
    (MAX_LAYER, v / BatchSize(MAX_LAYER))
  }

  /** The proof that is used for the top-layer batch of version v, if any, carries the commitment of the first
      top-layer proof.  Of several proofs for one batch the last is used, but the first of the top layer is
      compared with the trie. */
  predicate TopAnchored(proofs: seq<RangeProof>, v: nat) {
    TopKey(v) in MapOf(proofs) ==> FirstTop(proofs) == Some(MapOf(proofs)[TopKey(v)].commitment)
  }

  /** The current balance has a version other than 0. */
  predicate PositiveVersion(anchor: Anchor) {
    anchor.current.Some? && anchor.current.value.version > 0
  }

  /** What a caller can check of a reply before the verification, for the balance of version v. */
  predicate BoundAt(proofs: seq<RangeProof>, anchor: Anchor, v: nat) {
    PositiveVersion(anchor) && TopAnchored(proofs, v)
  }

  ghost predicate BoundThroughout(proofs: seq<RangeProof>, anchor: Anchor, sv: nat, ev: nat) {
    forall v: nat :: sv <= v <= ev ==> BoundAt(proofs, anchor, v)
  }

  /** The number of the account's current top-layer batch. */
  function CurrentTop(u: Updates): nat
    requires |u| >= 2
  {
    (|u| - 2) / BatchSize(MAX_LAYER)
  }

  function CurrentTopCommitment(u: Updates): Point
    requires |u| >= 2
  {
    Commit(FullTree(MAX_LAYER, CurrentTop(u), LeafHashes(u)))
  }

  /** The balance of version v in a reply is the one in the account's history. */
  predicate RightAt(balances: seq<HistoricalBalance>, sv: nat, u: Updates, v: nat)
    requires sv <= v < sv + |balances|
  {
    v < |u| - 1 && balances[v - sv] == Superseded(u, v)
  }

  lemma {:induction false} FirstTopMember(proofs: seq<RangeProof>) returns (i: nat)
    requires FirstTop(proofs).Some?
    ensures i < |proofs| && proofs[i].layer == MAX_LAYER && proofs[i].commitment == FirstTop(proofs).value
  {
    if proofs[0].layer == MAX_LAYER {
      i := 0;
    } else {
      i := FirstTopMember(proofs[1..]);
      i := i + 1;
    }
  }

  lemma {:induction false} FirstTopExists(proofs: seq<RangeProof>, i: nat)
    requires i < |proofs| && proofs[i].layer == MAX_LAYER
    ensures FirstTop(proofs).Some?
  {
    if i > 0 {
      FirstTopExists(proofs[1..], i - 1);
    }
  }

  /** A reply that is accepted has trie nodes if and only if the client has a state root, and then the account was found
      in the trie and the reply has a current balance. */
  lemma {:induction false} AcceptedWithNodes(res: CommitmentMap, proofs: seq<RangeProof>, balances: seq<HistoricalBalance>, anchor: Anchor)
    requires Outcome(res, proofs, balances, anchor).Accepted?
    ensures anchor.rootGiven <==> anchor.nodesGiven
    ensures anchor.rootGiven ==> anchor.lookup.Found? && anchor.current.Some?
  {
  }

  /** The anchor check binds the current balance and the top-layer commitment. */
  lemma {:induction false} AnchorBinds(anchor: Anchor, proofs: seq<RangeProof>, commitmentOnly: bool, u: Updates)
    requires AnchorOk(anchor, proofs, commitmentOnly) && Anchored(anchor, u)
    ensures anchor.current == Some(Current(u))
    ensures |u| >= 2 ==> TopCommitment(Current(u), proofs, commitmentOnly) ==
                         Some(Commit(FullTree(MAX_LAYER, (|u| - 2) / BatchSize(MAX_LAYER), LeafHashes(u))))
  {
  }

  /** The top-layer commitment used for version v is then that of a tree in which every top-layer batch has the
      contents of the current one. */
  lemma {:induction false} BoundTop(proofs: seq<RangeProof>, anchor: Anchor, u: Updates, v: nat, n: nat)
    requires AnchorOk(anchor, proofs, false) && Anchored(anchor, u) && BoundAt(proofs, anchor, v)
    requires n == (v / BatchSize(MAX_LAYER) + 1) * BatchSize(MAX_LAYER)
    ensures |u| >= 2 && HonestTop(MapOf(proofs), Repeated(LeafHashes(u), CurrentTop(u), n), v / BatchSize(MAX_LAYER))
  {
    hide Commit, FullTree, FirstTop, LeafHashes, BatchSize;
    AnchorBinds(anchor, proofs, false, u);
    RepeatedTop(LeafHashes(u), CurrentTop(u), n, v / BatchSize(MAX_LAYER));
  }

  lemma {:induction false} MovedInBatch(t: nat, v: nat)
    ensures InBatch(MAX_LAYER, t, Moved(t, v))
  {
    DivUnique(Moved(t, v), BatchSize(MAX_LAYER), t, v % BatchSize(MAX_LAYER));
  }

  /** A balance with its own version whose hash is in the copy of another batch cannot exist. */
  lemma {:induction false} RepeatedVersion(u: Updates, t: nat, n: nat, v: nat, b: HistoricalBalance)
    requires v in Repeated(LeafHashes(u), t, n) && Repeated(LeafHashes(u), t, n)[v] == BalanceHash(b) && b.current.version == v
    ensures v < |u| - 1 && b == Superseded(u, v) && InBatch(MAX_LAYER, t, v)
  {
    MovedInBatch(t, v);
    assert LeafHashes(u)[Moved(t, v)] == BalanceHash(Superseded(u, Moved(t, v)));
  }

  lemma {:induction false} SuppliedCommitted(res: CommitmentMap, proofs: ProofMap, balances: seq<HistoricalBalance>, sv: nat, ev: nat,
                                             m: Versions, v: nat)
    requires RequiredFor(res, sv, ev) && InOrder(balances, sv, ev)
    requires AllCheck(res, proofs, ListTrees(res, balances)) && HonestTop(proofs, m, v / BatchSize(MAX_LAYER))
    requires sv <= v <= ev && !InCompleteTop(sv, ev, v)
    ensures v in m && m[v] == BalanceHash(balances[v - sv]) && balances[v - sv].current.version == v
  {
    TreesInOrder(res, balances, sv, ev);
    CommittedAt(res, proofs, Supplied(balances, sv), sv, ev, m, v);
    assert Supplied(balances, sv)[v] == SuppliedHash(balances, sv, v);
  }

  /** End-to-end soundness at one version: if a reply is bound there, accepted and tied to a state trie that holds
      the account's commitment, then the balance is the account's and of its current top-layer batch, unless
      that whole batch lies in the range.  The hashed balances contain their versions, so that a commitment
      cannot be passed off as that of another batch. */
  lemma {:induction false} AnchoredSoundAt(res: CommitmentMap, proofs: seq<RangeProof>, balances: seq<HistoricalBalance>, anchor: Anchor,
                                           sv: nat, ev: nat, u: Updates, v: nat)
    requires RequiredFor(res, sv, ev) && InOrder(balances, sv, ev) && Anchored(anchor, u) && BoundAt(proofs, anchor, v)
    requires Outcome(res, proofs, balances, anchor).Accepted?
    requires sv <= v <= ev && !InCompleteTop(sv, ev, v)
    ensures RightAt(balances, sv, u, v) && |u| >= 2 && InBatch(MAX_LAYER, CurrentTop(u), v)
  {
    hide AnchorOk, BatchSize, Superseded, ListTrees, AllCheck, InCompleteTop, LowerSupplied, Repeated;
    var n := (v / BatchSize(MAX_LAYER) + 1) * BatchSize(MAX_LAYER);
    BoundTop(proofs, anchor, u, v, n);
    SuppliedCommitted(res, MapOf(proofs), balances, sv, ev, Repeated(LeafHashes(u), CurrentTop(u), n), v);
    RepeatedVersion(u, CurrentTop(u), n, v, balances[v - sv]);
  }

  /** End-to-end soundness: the current balance is the account's, and so is every balance of the range. */
  lemma {:induction false} AnchoredSound(res: CommitmentMap, proofs: seq<RangeProof>, balances: seq<HistoricalBalance>, anchor: Anchor,
                                         sv: nat, ev: nat, u: Updates)
    requires RequiredFor(res, sv, ev) && InOrder(balances, sv, ev) && Anchored(anchor, u)
    requires Outcome(res, proofs, balances, anchor).Accepted?
    requires BoundThroughout(proofs, anchor, sv, ev) && forall v: nat :: sv <= v <= ev ==> !InCompleteTop(sv, ev, v)
    ensures anchor.current == Some(Current(u))
    ensures ev < |u| - 1 && balances == History(u, sv, ev)
  {
    hide Outcome, BoundAt, InCompleteTop, AnchorOk, Superseded;
    OutcomeAnchored(res, proofs, balances, anchor);
    AnchorBinds(anchor, proofs, false, u);
    AnchoredSoundAt(res, proofs, balances, anchor, sv, ev, u, ev);
    forall i | 0 <= i < |balances| ensures balances[i] == History(u, sv, ev)[i] {
      AnchoredSoundAt(res, proofs, balances, anchor, sv, ev, u, sv + i);
    }
  }

  lemma {:induction false} OutcomeAnchored(res: CommitmentMap, proofs: seq<RangeProof>, balances: seq<HistoricalBalance>, anchor: Anchor)
    requires Outcome(res, proofs, balances, anchor).Accepted? && balances != []
    ensures AnchorOk(anchor, proofs, false) && AllCheck(res, MapOf(proofs), ListTrees(res, balances))
  {
  }

  // ----- balances in any order

  /** The range is within the account's current top-layer batch, and not all of it; the current balance in a reply
      tells whether it is. */
  predicate InCurrentTop(u: Updates, sv: nat, ev: nat) {
    && |u| >= 2 && sv <= ev && ev + 1 - sv < BatchSize(MAX_LAYER)
    && InBatch(MAX_LAYER, CurrentTop(u), sv) && InBatch(MAX_LAYER, CurrentTop(u), ev)
  }

  /** And it ends before the current version. */
  predicate WithinCurrent(u: Updates, sv: nat, ev: nat) {
    InCurrentTop(u, sv, ev) && ev < |u| - 1
  }

  lemma {:induction false} WithinAt(u: Updates, sv: nat, ev: nat, v: nat)
    requires InCurrentTop(u, sv, ev) && sv <= v <= ev
    ensures InBatch(MAX_LAYER, CurrentTop(u), v) && !InCompleteTop(sv, ev, v)
  {
    Monotone(sv, v, BatchSize(MAX_LAYER));
    Monotone(v, ev, BatchSize(MAX_LAYER));
    ShortRange(sv, ev, v);
  }

  lemma {:induction false} CurrentTopHonest(proofs: seq<RangeProof>, anchor: Anchor, u: Updates, v: nat)
    requires AnchorOk(anchor, proofs, false) && Anchored(anchor, u) && BoundAt(proofs, anchor, v)
    requires |u| >= 2 && InBatch(MAX_LAYER, CurrentTop(u), v)
    ensures HonestTop(MapOf(proofs), LeafHashes(u), v / BatchSize(MAX_LAYER))
  {
    hide Commit, FullTree, FirstTop, LeafHashes, BatchSize;
    AnchorBinds(anchor, proofs, false, u);
  }

  lemma {:induction false} CurrentTopsHonest(proofs: seq<RangeProof>, anchor: Anchor, u: Updates, sv: nat, ev: nat)
    requires AnchorOk(anchor, proofs, false) && Anchored(anchor, u) && InCurrentTop(u, sv, ev) && BoundThroughout(proofs, anchor, sv, ev)
    ensures HonestThroughout(MapOf(proofs), LeafHashes(u), sv, ev)
  {
    hide BoundAt, InCompleteTop, HonestTop, MapOf, AnchorOk, LeafHashes, BatchSize;
    forall v: nat | sv <= v <= ev ensures !InCompleteTop(sv, ev, v) && HonestTop(MapOf(proofs), LeafHashes(u), v / BatchSize(MAX_LAYER)) {
      WithinAt(u, sv, ev, v);
      CurrentTopHonest(proofs, anchor, u, v);
    }
  }

  /** End-to-end soundness for any list: the account's balance of the version is among the listed ones. */
  lemma {:induction false} AnchoredListedAt(res: CommitmentMap, proofs: seq<RangeProof>, balances: seq<HistoricalBalance>, anchor: Anchor,
                                            sv: nat, ev: nat, u: Updates, v: nat)
    requires RequiredFor(res, sv, ev) && ev < |u| - 1 && balances != [] && Anchored(anchor, u) && BoundAt(proofs, anchor, v)
    requires Outcome(res, proofs, balances, anchor).Accepted?
    requires sv <= v <= ev && !InCompleteTop(sv, ev, v) && InBatch(MAX_LAYER, CurrentTop(u), v)
    ensures Superseded(u, v) in balances
  {
    OutcomeAnchored(res, proofs, balances, anchor);
    CurrentTopHonest(proofs, anchor, u, v);
    ListedSoundAt(res, MapOf(proofs), balances, sv, ev, u, v);
  }

  /** A list has at least as many balances as the range has versions; if it has no more, it is the account's
      history of the range in some order. */
  lemma {:induction false} AnchoredListed(res: CommitmentMap, proofs: seq<RangeProof>, balances: seq<HistoricalBalance>, anchor: Anchor,
                                          sv: nat, ev: nat, u: Updates)
    requires RequiredFor(res, sv, ev) && WithinCurrent(u, sv, ev) && balances != [] && Anchored(anchor, u)
    requires BoundThroughout(proofs, anchor, sv, ev) && Outcome(res, proofs, balances, anchor).Accepted?
    ensures |balances| >= ev + 1 - sv
    ensures |balances| == ev + 1 - sv ==> multiset(balances) == multiset(History(u, sv, ev))
  {
    hide Outcome, BoundThroughout, HonestThroughout, ListTrees, BatchSize, MapOf, AnchorOk, AllCheck, LeafHashes;
    OutcomeAnchored(res, proofs, balances, anchor);
    CurrentTopsHonest(proofs, anchor, u, sv, ev);
    ListedSound(res, MapOf(proofs), balances, sv, ev, u);
  }

  // ----- the prover's replies

  lemma {:induction false} HonestReplyOf(proofs: seq<RangeProof>, res: CommitmentMap, res': CommitmentMap, sv: nat, ev: nat, u: Updates)
    requires HonestProofs(proofs, res, sv, ev, u) && RequiredFor(res', sv, ev)
    ensures HonestReply(res', MapOf(proofs), u)
  {
    hide Commit, FullTree, LeafHashes, MapOf, NodeSet, OpenedNodes, ProofKey, BatchSize;
    forall k: Key | k in res'
      ensures RequiredAt(res', k) && k in MapOf(proofs)
      ensures var commitment := Commit(FullTree(k.0, k.1, LeafHashes(u)));
              MapOf(proofs)[k].commitment == commitment &&
              MapOf(proofs)[k].opening == Opening(commitment, NodeSet(OpenedNodes(res'[k])))
    {
      IsRequired(res', sv, ev, k);
      SameRequired(res', res, sv, ev, k);
      var i :| 0 <= i < |proofs| && ProofKey(proofs[i]) == k;
      MapOfDistinct(proofs, i);
      assert IsHonest(proofs[i], res, u);
    }
  }

  lemma {:induction false} ReachesTop(res: CommitmentMap, sv: nat, ev: nat, k: Key) returns (top: Key)
    requires RequiredFor(res, sv, ev) && k in res
    ensures top in res && top.0 == MAX_LAYER
    decreases MAX_LAYER - k.0
  {
    RequiredAtEnd(res, sv, ev, k);
    if k.0 == MAX_LAYER {
      top := k;
    } else {
      ParentRequired(res, sv, ev, k);
      top := ReachesTop(res, sv, ev, ParentKey(k));
    }
  }

  /** The batch of the first top-layer proof in a reply. */
  function FirstTopIdx(proofs: seq<RangeProof>): Option<nat> {
    if proofs == [] then None
    else if proofs[0].layer == MAX_LAYER then Some(proofs[0].idx)
    else FirstTopIdx(proofs[1..])
  }

  lemma {:induction false} FirstTopIs(proofs: seq<RangeProof>) returns (i: nat)
    ensures FirstTop(proofs).Some? <==> FirstTopIdx(proofs).Some?
    ensures FirstTop(proofs).Some? ==>
              && i < |proofs| && proofs[i].layer == MAX_LAYER
              && proofs[i].commitment == FirstTop(proofs).value && proofs[i].idx == FirstTopIdx(proofs).value
  {
    i := 0;
    if proofs != [] && proofs[0].layer != MAX_LAYER {
      i := FirstTopIs(proofs[1..]);
      i := i + 1;
    }
  }

  /** The account's anchor: its entry in the trie and its current balance. */
  function HonestAnchor(u: Updates): Anchor {
    Anchor(true, true, Found(CommitmentAfter(u)), Some(Current(u)))
  }

  lemma {:induction false} BatchPresent(u: Updates, b: nat, v: nat)
    requires |u| >= 2 && b < CurrentTop(u) && InBatch(MAX_LAYER, b, v)
    ensures v in LeafHashes(u)
  {
  }

  /** Different top-layer batches of an account have different commitments. */
  lemma {:induction false} TopsDiffer(u: Updates, b: nat)
    requires |u| >= 2 && b <= CurrentTop(u) && Commit(FullTree(MAX_LAYER, b, LeafHashes(u))) == CurrentTopCommitment(u)
    ensures b == CurrentTop(u)
  {
    var m, t, size := LeafHashes(u), CurrentTop(u), BatchSize(MAX_LAYER);
    if b < t {
      var n, v := (b + 1) * size, b * size;
      CommitBinding(FullTree(MAX_LAYER, b, m), FullTree(MAX_LAYER, t, m));
      TreeRoot(MAX_LAYER, b, m);
      TreeRoot(MAX_LAYER, t, m);
      forall v: nat | InBatch(MAX_LAYER, b, v) ensures v in m {
        BatchPresent(u, b, v);
      }
      RootFull(MAX_LAYER, b, m);
      RepeatedTop(m, t, n, b);
      FirstOfBatch(MAX_LAYER, b);
      RootInjective(MAX_LAYER, b, m, Repeated(m, t, n), v);
    }
  }

  lemma {:induction false} AnchorMatches(proofs: seq<RangeProof>, u: Updates)
    requires |u| >= 2
    ensures AnchorOk(HonestAnchor(u), proofs, false) <==> FirstTop(proofs) == Some(CurrentTopCommitment(u))
  {
  }

  /** With the account's entry in the trie, and trie nodes in the reply, the anchor check passes exactly when the reply
      has the account's current balance and, above version 0, the current top-layer commitment: as its only proof in a
      reply without balances, as its first top-layer proof otherwise. */
  lemma {:induction false} AnchorExact(anchor: Anchor, proofs: seq<RangeProof>, commitmentOnly: bool, u: Updates)
    requires anchor.rootGiven && anchor.lookup == Found(CommitmentAfter(u))
    ensures AnchorOk(anchor, proofs, commitmentOnly) <==>
            && anchor.nodesGiven && anchor.current == Some(Current(u))
            && (|u| >= 2 ==>
                  if commitmentOnly then |proofs| == 1 && proofs[0].layer == 4 && proofs[0].commitment == CurrentTopCommitment(u)
                  else FirstTop(proofs) == Some(CurrentTopCommitment(u)))
  {
  }

  /** A reply without balances is accepted with the account's anchor if and only if the account is at version 0 or the
      reply is one top-layer proof with the current top-layer commitment. */
  lemma {:induction false} CommitmentOnlyExact(res: CommitmentMap, proofs: seq<RangeProof>, u: Updates)
    ensures Outcome(res, proofs, [], HonestAnchor(u)).Accepted? <==>
            |u| == 1 || (|proofs| == 1 && proofs[0].layer == 4 && proofs[0].commitment == CurrentTopCommitment(u))
  {
    AnchorExact(HonestAnchor(u), proofs, true, u);
  }

  /** The trie's entry matches the prover's reply exactly when its first top-layer proof is that of the
      account's current batch. */
  lemma {:induction false} HonestAnchorExact(proofs: seq<RangeProof>, res: CommitmentMap, sv: nat, ev: nat, u: Updates)
    requires HonestProofs(proofs, res, sv, ev, u) && ev < |u| - 1
    ensures AnchorOk(HonestAnchor(u), proofs, false) <==> FirstTopIdx(proofs) == Some(CurrentTop(u))
  {
    AnchorMatches(proofs, u);
    var i := FirstTopIs(proofs);
    if FirstTop(proofs).Some? {
      assert IsHonest(proofs[i], res, u);
      assert FirstTop(proofs).value == Commit(FullTree(MAX_LAYER, proofs[i].idx, LeafHashes(u)));
      RequiredStarted(res, sv, ev, u, ProofKey(proofs[i]));
      if FirstTop(proofs).value == CurrentTopCommitment(u) {
        TopsDiffer(u, proofs[i].idx);
      }
    }
  }

  /** The prover's proofs and balances pass the checks of the client, whichever order the client
      handles the required commitments in. */
  lemma {:induction false} HonestAllCheck(proofs: seq<RangeProof>, res: CommitmentMap, res': CommitmentMap, sv: nat, ev: nat, u: Updates)
    requires HonestProofs(proofs, res, sv, ev, u) && RequiredFor(res', sv, ev) && ev < |u| - 1
    ensures LowerSupplied(res', MapOf(proofs))
    ensures AllCheck(res', MapOf(proofs), ListTrees(res', History(u, sv, ev)))
  {
    HonestReplyOf(proofs, res, res', sv, ev, u);
    Complete(res', MapOf(proofs), sv, ev, u);
  }

  /** End-to-end completeness: the prover's proofs and balances for a range of the history, with the
      account's entry in the state trie, are accepted if and only if the first top-layer proof is that of
      the account's current batch. */
  lemma {:induction false} HonestReplyExact(proofs: seq<RangeProof>, res: CommitmentMap, res': CommitmentMap, sv: nat, ev: nat, u: Updates)
    requires HonestProofs(proofs, res, sv, ev, u) && RequiredFor(res', sv, ev) && ev < |u| - 1
    ensures InOrder(History(u, sv, ev), sv, ev)
    ensures Outcome(res', proofs, History(u, sv, ev), HonestAnchor(u)) ==
            if FirstTopIdx(proofs) == Some(CurrentTop(u)) then Accepted else Rejected
  {
    HistoryInOrder(u, sv, ev);
    HonestAnchorExact(proofs, res, sv, ev, u);
    HonestAllCheck(proofs, res, res', sv, ev, u);
  }

  /** The top-layer proofs of the prover are those of the batches of the first and the last version. */
  lemma {:induction false} HonestTopIdx(proofs: seq<RangeProof>, res: CommitmentMap, sv: nat, ev: nat, u: Updates)
    requires HonestProofs(proofs, res, sv, ev, u)
    ensures FirstTopIdx(proofs).Some? ==>
              FirstTopIdx(proofs).value in {sv / BatchSize(MAX_LAYER), ev / BatchSize(MAX_LAYER)}
    ensures ev + 1 - sv < BatchSize(MAX_LAYER) ==> FirstTopIdx(proofs).Some?
  {
    hide BatchSize, FirstTop, FirstTopIdx, ProofKey;
    var i := FirstTopIs(proofs);
    if FirstTop(proofs).Some? {
      assert IsHonest(proofs[i], res, u);
      RequiredAtEnd(res, sv, ev, ProofKey(proofs[i]));
    } else if ev + 1 - sv < BatchSize(MAX_LAYER) {
      ShortRange(sv, ev, sv);
      var k, c := OpenedVersion(res, sv, ev, sv);
      var top := ReachesTop(res, sv, ev, k);
      var j :| 0 <= j < |proofs| && ProofKey(proofs[j]) == top;
      FirstTopExists(proofs, j);
    }
  }

  /** A version's top-layer batch is required, unless it lies entirely in the range. */
  lemma {:induction false} TopRequired(res: CommitmentMap, sv: nat, ev: nat, v: nat)
    requires RequiredFor(res, sv, ev) && sv <= v <= ev && !InCompleteTop(sv, ev, v)
    ensures TopKey(v) in res
  {
    var k, c := OpenedVersion(res, sv, ev, v);
    AncestorRequired(res, sv, ev, k, v);
  }

  lemma {:induction false} AncestorRequired(res: CommitmentMap, sv: nat, ev: nat, k: Key, v: nat)
    requires RequiredFor(res, sv, ev) && k in res && 0 < k.0 <= MAX_LAYER && InBatch(k.0, k.1, v)
    ensures TopKey(v) in res
    decreases MAX_LAYER - k.0
  {
    if k.0 < MAX_LAYER {
      ParentRequired(res, sv, ev, k);
      ParentContains(k, v);
      AncestorRequired(res, sv, ev, ParentKey(k), v);
    }
  }

  lemma {:induction false} HonestTopIs(res: CommitmentMap, proofs: ProofMap, sv: nat, ev: nat, u: Updates, k: Key)
    requires RequiredFor(res, sv, ev) && HonestReply(res, proofs, u) && k in res && k.0 == MAX_LAYER
    ensures k in proofs && proofs[k].commitment == Commit(FullTree(MAX_LAYER, k.1, LeafHashes(u)))
  {
    hide Commit, FullTree, OpenedNodes;
    IsRequired(res, sv, ev, k);
  }

  /** An honest reply that is accepted is bound at exactly the versions of the account's current top-layer
      batch. */
  lemma {:induction false} HonestBoundExact(proofs: seq<RangeProof>, res: CommitmentMap, res': CommitmentMap, sv: nat, ev: nat, u: Updates,
                                            v: nat)
    requires HonestProofs(proofs, res, sv, ev, u) && RequiredFor(res', sv, ev) && ev < |u| - 1
    requires Outcome(res', proofs, History(u, sv, ev), HonestAnchor(u)).Accepted?
    requires sv <= v <= ev && !InCompleteTop(sv, ev, v)
    ensures BoundAt(proofs, HonestAnchor(u), v) <==> InBatch(MAX_LAYER, CurrentTop(u), v)
  {
    hide HonestProofs, HonestReply, MapOf, FirstTop, FirstTopIdx, BatchSize, FullTree, Commit, LeafHashes, InCompleteTop, ChecksVerdict, History;
    AnchorMatches(proofs, u);
    HonestReplyOf(proofs, res, res', sv, ev, u);
    TopRequired(res', sv, ev, v);
    HonestTopIs(res', MapOf(proofs), sv, ev, u, TopKey(v));
    Monotone(v, |u| - 2, BatchSize(MAX_LAYER));
    if TopAnchored(proofs, v) {
      TopsDiffer(u, v / BatchSize(MAX_LAYER));
    }
  }

  /** So a reply for a range within the current top-layer batch, and not all of it, is accepted and bound
      throughout. */
  lemma {:induction false} HonestReplyAccepted(proofs: seq<RangeProof>, res: CommitmentMap, res': CommitmentMap, sv: nat, ev: nat, u: Updates)
    requires HonestProofs(proofs, res, sv, ev, u) && RequiredFor(res', sv, ev) && WithinCurrent(u, sv, ev)
    ensures InOrder(History(u, sv, ev), sv, ev) && Outcome(res', proofs, History(u, sv, ev), HonestAnchor(u)).Accepted?
    ensures BoundThroughout(proofs, HonestAnchor(u), sv, ev)
  {
    hide HonestProofs, BoundAt, InCompleteTop, Outcome, History;
    HonestReplyExact(proofs, res, res', sv, ev, u);
    HonestTopIdx(proofs, res, sv, ev, u);
    forall v: nat | sv <= v <= ev ensures BoundAt(proofs, HonestAnchor(u), v) {
      WithinAt(u, sv, ev, v);
      HonestBoundExact(proofs, res, res', sv, ev, u, v);
    }
  }

  /** And a reply for a range before the current top-layer batch is rejected. */
  lemma {:induction false} OldRangeRejected(proofs: seq<RangeProof>, res: CommitmentMap, res': CommitmentMap, sv: nat, ev: nat, u: Updates)
    requires HonestProofs(proofs, res, sv, ev, u) && RequiredFor(res', sv, ev) && ev < |u| - 1
    requires ev / BatchSize(MAX_LAYER) < CurrentTop(u)
    ensures InOrder(History(u, sv, ev), sv, ev)
    ensures Outcome(res', proofs, History(u, sv, ev), HonestAnchor(u)).Rejected?
  {
    HonestReplyExact(proofs, res, res', sv, ev, u);
    HonestTopIdx(proofs, res, sv, ev, u);
    Monotone(sv, ev, BatchSize(MAX_LAYER));
  }

  /** Without a state root, the prover's replies are accepted for every range of the history. */
  lemma {:induction false} HonestProofsAccepted(proofs: seq<RangeProof>, res: CommitmentMap, res': CommitmentMap, sv: nat, ev: nat, u: Updates,
                             current: Option<CurrentBalance>)
    requires HonestProofs(proofs, res, sv, ev, u) && RequiredFor(res', sv, ev) && ev < |u| - 1
    ensures InOrder(History(u, sv, ev), sv, ev)
    ensures Outcome(res', proofs, History(u, sv, ev), Anchor(false, false, Invalid, current)).Accepted?
  {
    HistoryInOrder(u, sv, ev);
    HonestAllCheck(proofs, res, res', sv, ev, u);
  }
}
