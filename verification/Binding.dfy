/** What the entry in the state trie binds, and which demands on a reply are needed for it (verify.go). */
module Binding {
  import opened Arithmetic
  import opened Primitives
  import opened Heap
  import opened Layers
  import opened Accounts
  import opened RangeCover
  import opened Dependencies
  import opened RequiredCommitments
  import opened StoredTrees
  import opened RangeProofs
  import opened VerifierTrees
  import opened Listed
  import opened Verification
  import opened Verifier
  import opened EndToEnd

  // ----- what the entry determines

  lemma {:induction false} LeafEntry(b: nat, m: Versions, v: nat)
    requires InBatch(1, b, v)
    ensures FullTree(1, b, m)[L1 - 1 + v % L1] == if v in m then Some(m[v]) else None
  {
    var j := LeafIndex(1, b, v);
    FullLeaf(b, m, j);
    assert Leaves(1, b, m)[j] == Root(0, b * Arity(1) + j, m);
  }

  lemma {:induction false} FullLeaf(b: nat, m: Versions, j: nat)
    requires j < L1
    ensures FullTree(1, b, m)[L1 - 1 + j] == Leaves(1, b, m)[j]
  {
    TreeAt(Leaves(1, b, m), Slots(1, b, m), L1 - 1 + j);
  }

  /** The batch tree of version v at a layer. */
  function TreeAbove(layer: nat, m: Versions, v: nat): HashVector
    requires 0 < layer <= MAX_LAYER
  {
    FullTree(layer, v / BatchSize(layer), m)
  }

  lemma {:induction false} SlotAbove(layer: nat, m: Versions, v: nat)
    requires 1 < layer <= MAX_LAYER && (v / BatchSize(layer - 1)) * BatchSize(layer - 1) in m
    ensures TreeAbove(layer, m, v)[Slot(v / BatchSize(layer - 1) % L2)] == Some(CommitmentHash(Commit(TreeAbove(layer - 1, m, v))))
  {
    var c := v / BatchSize(layer - 1);
    BatchOfBatch(layer, v);
    SlotOf(layer, v / BatchSize(layer), m, c % L2);
    assert c == v / BatchSize(layer) * L2 + c % L2;
  }

  lemma {:induction false} SlotOf(layer: nat, b: nat, m: Versions, j: nat)
    requires 1 < layer <= MAX_LAYER && j < L2
    ensures FullTree(layer, b, m)[Slot(j)] == SlotValue(layer - 1, b * L2 + j, m)
  {
    TreeAt(Leaves(layer, b, m), Slots(layer, b, m), Slot(j));
    assert Slots(layer, b, m)[j] == SlotValue(layer - 1, b * L2 + j, m);
  }

  ghost predicate Initial(m: Versions, n: nat) {
    forall v: nat :: v in m <==> v < n
  }

  lemma {:induction false} FirstPresentOf(layer: nat, m: Versions, n: nat, v: nat)
    requires layer <= MAX_LAYER && Initial(m, n) && v < n
    ensures (v / BatchSize(layer)) * BatchSize(layer) in m
  {
    FirstInBatch(layer, v / BatchSize(layer), v);
  }

  /** Equal batch trees, complete or not, have equal versions: through the commitments in the slots, down to the
      leaves. */
  lemma {:induction false} TreeInjective(layer: nat, m: Versions, m': Versions, n: nat, v: nat)
    requires 0 < layer <= MAX_LAYER && Initial(m, n) && Initial(m', n) && v < n
    requires TreeAbove(layer, m, v) == TreeAbove(layer, m', v)
    ensures m[v] == m'[v]
    decreases layer
  {
    hide FullTree, Commit, BatchSize;
    if layer == 1 {
      LeafAbove(m, v);
      LeafAbove(m', v);
    } else {
      FirstPresentOf(layer - 1, m, n, v);
      FirstPresentOf(layer - 1, m', n, v);
      SlotAbove(layer, m, v);
      SlotAbove(layer, m', v);
      CommitBinding(TreeAbove(layer - 1, m, v), TreeAbove(layer - 1, m', v));
      TreeInjective(layer - 1, m, m', n, v);
    }
  }

  lemma {:induction false} LeafAbove(m: Versions, v: nat)
    requires v in m
    ensures TreeAbove(1, m, v)[L1 - 1 + v % L1] == Some(m[v])
  {
    LeafEntry(v / BatchSize(1), m, v);
  }

  /** The account's history of version v differs from u's. */
  predicate SameBalance(u: Updates, other: Updates, v: nat)
    requires v < |u| - 1
  {
    v < |other| - 1 && Superseded(other, v) == Superseded(u, v)
  }

  lemma {:induction false} CurrentDetermined(u: Updates, other: Updates, v: nat)
    requires v < |u| - 1 && InBatch(MAX_LAYER, CurrentTop(u), v) && CommitmentAfter(other) == CommitmentAfter(u)
    ensures SameBalance(u, other, v)
  {
    hide FullTree, Commit, BatchSize;
    assert Current(other) == Current(u);
    CommitBinding(TreeAbove(MAX_LAYER, LeafHashes(u), v), TreeAbove(MAX_LAYER, LeafHashes(other), v));
    TreeInjective(MAX_LAYER, LeafHashes(u), LeafHashes(other), |u| - 1, v);
  }

  /** The same history with another balance at version v. */
  function Altered(u: Updates, v: nat): (r: Updates)
    requires v < |u| - 1
    ensures |r| == |u| && Current(r) == Current(u) && Superseded(r, v) != Superseded(u, v)
    ensures forall v' :: 0 <= v' < |u| - 1 && v' != v ==> Superseded(r, v') == Superseded(u, v')
  {
    u[v := BalanceUpdate(u[v].block, u[v].balance + 1)]
  }

  lemma {:induction false} OldUndetermined(u: Updates, v: nat)
    requires v < |u| - 1 && !InBatch(MAX_LAYER, CurrentTop(u), v)
    ensures CommitmentAfter(Altered(u, v)) == CommitmentAfter(u)
  {
    var other := Altered(u, v);
    forall v': nat | InBatch(MAX_LAYER, CurrentTop(u), v') ensures SameAt(LeafHashes(u), LeafHashes(other), v') {
    }
    FullTreeLocal(MAX_LAYER, CurrentTop(u), LeafHashes(u), LeafHashes(other));
  }

  /** Every account with this entry in the trie has the same balance at version v. */
  ghost predicate EntryDetermines(u: Updates, v: nat)
    requires v < |u| - 1
  {
    forall other: Updates :: CommitmentAfter(other) == CommitmentAfter(u) ==> SameBalance(u, other, v)
  }

  /** The entry in the state trie determines the balances of the account's current top-layer batch and no
      others. */
  lemma {:induction false} EntryDeterminesCurrentTop(u: Updates, v: nat)
    requires v < |u| - 1
    ensures EntryDetermines(u, v) <==> InBatch(MAX_LAYER, CurrentTop(u), v)
  {
    hide CommitmentAfter, BatchSize, SameBalance;
    if InBatch(MAX_LAYER, CurrentTop(u), v) {
      forall other: Updates | CommitmentAfter(other) == CommitmentAfter(u) ensures SameBalance(u, other, v) {
        CurrentDetermined(u, other, v);
      }
    } else {
      OldUndetermined(u, v);
      AlteredDiffers(u, v);
    }
  }

  lemma {:induction false} AlteredDiffers(u: Updates, v: nat)
    requires v < |u| - 1
    ensures !SameBalance(u, Altered(u, v), v)
  {
  }

  // ----- why a reply must be bound

  /** At version 0 the trie is compared with the zero commitment, whatever proofs the reply contains: the
      proofs and balances of any history are accepted. */
  lemma {:induction false} VersionZeroUnbound(proofs: seq<RangeProof>, res: CommitmentMap, res': CommitmentMap, sv: nat, ev: nat,
                                              u: Updates, other: Updates)
    requires |u| == 1 && HonestProofs(proofs, res, sv, ev, other) && RequiredFor(res', sv, ev) && ev < |other| - 1
    ensures InOrder(History(other, sv, ev), sv, ev)
    ensures Outcome(res', proofs, History(other, sv, ev), HonestAnchor(u)).Accepted?
  {
    hide Commit, FullTree, LeafHashes, MapOf, ListTrees, AllCheck, Required;
    HistoryInOrder(other, sv, ev);
    HonestAllCheck(proofs, res, res', sv, ev, other);
  }

  /** A top-layer proof with the account's commitment; it need not open anything. */
  function TopProof(u: Updates): RangeProof
    requires |u| >= 2
  {
    RangeProof(CurrentTop(u), MAX_LAYER, CurrentTopCommitment(u), Opening(ZERO, {}), None, [])
  }

  lemma {:induction false} MapOfPrefixed(p: RangeProof, proofs: seq<RangeProof>)
    ensures forall k: Key :: k in MapOf(proofs) ==> k in MapOf([p] + proofs) && MapOf([p] + proofs)[k] == MapOf(proofs)[k]
  {
    if proofs != [] {
      var last := |proofs| - 1;
      assert ([p] + proofs)[..last + 1] == [p] + proofs[..last];
      MapOfPrefixed(p, proofs[..last]);
    }
  }

  lemma {:induction false} PrefixedReply(p: RangeProof, proofs: seq<RangeProof>, res: CommitmentMap, u: Updates)
    requires HonestReply(res, MapOf(proofs), u)
    ensures HonestReply(res, MapOf([p] + proofs), u)
  {
    MapOfPrefixed(p, proofs);
  }

  /** The first top-layer proof is compared with the trie and the last one for a batch is used: with the
      account's top-layer commitment in front, the proofs and balances of any history are accepted. */
  lemma {:induction false} FirstTopUnbound(proofs: seq<RangeProof>, res: CommitmentMap, res': CommitmentMap, sv: nat, ev: nat,
                                           u: Updates, other: Updates)
    requires |u| >= 2 && HonestProofs(proofs, res, sv, ev, other) && RequiredFor(res', sv, ev) && ev < |other| - 1
    ensures InOrder(History(other, sv, ev), sv, ev)
    ensures Outcome(res', [TopProof(u)] + proofs, History(other, sv, ev), HonestAnchor(u)).Accepted?
  {
    HistoryInOrder(other, sv, ev);
    HonestReplyOf(proofs, res, res', sv, ev, other);
    PrefixedReply(TopProof(u), proofs, res', other);
    AnchorMatches([TopProof(u)] + proofs, u);
    Complete(res', MapOf([TopProof(u)] + proofs), sv, ev, other);
  }

  lemma {:induction false} HonestBelongs(res: CommitmentMap, sv: nat, ev: nat, u: Updates, k: Key)
    requires RequiredFor(res, sv, ev) && k in res
    ensures InTree(res[k]) && ProofKey(HonestProof(res[k], u)) == k && Belongs(HonestProof(res[k], u), res, u, true)
  {
    RequiredInTree(res, sv, ev, k);
  }

  lemma {:induction false} HonestProofsExist(res: CommitmentMap, sv: nat, ev: nat, u: Updates, pending: set<Key>) returns (proofs: seq<RangeProof>)
    requires RequiredFor(res, sv, ev) && pending <= res.Keys
    ensures Proved(proofs, res, pending, u, true)
    decreases res.Keys - pending
  {
    if pending == res.Keys {
      proofs := [];
    } else {
      var k: Key :| k in res && k !in pending;
      var before := HonestProofsExist(res, sv, ev, u, pending + {k});
      HonestBelongs(res, sv, ev, u, k);
      proofs := AddHonest(before, res, pending, k, u);
    }
  }

  lemma {:induction false} AddHonest(before: seq<RangeProof>, res: CommitmentMap, pending: set<Key>, k: Key, u: Updates)
    returns (proofs: seq<RangeProof>)
    requires k in res && k !in pending && InTree(res[k]) && Proved(before, res, pending + {k}, u, true)
    requires ProofKey(HonestProof(res[k], u)) == k && Belongs(HonestProof(res[k], u), res, u, true)
    ensures Proved(proofs, res, pending, u, true)
  {
    ProvedStep(before, HonestProof(res[k], u), res, pending + {k}, k, u, true);
    assert pending + {k} - {k} == pending;
    proofs := before + [HonestProof(res[k], u)];
  }

  /** A history with another balance at version v. */
  function Other(u: Updates, v: nat, ev: nat): Updates {
    var s := seq(ev + 2, i requires 0 <= i => BalanceUpdate(i, if v < |u| then u[v].balance + 1 else 0));
    assert |s| > 0;
    s
  }

  /** An accepted reply with the account's anchor and a balance that is not the account's. */
  ghost predicate Misleads(res: CommitmentMap, proofs: seq<RangeProof>, balances: seq<HistoricalBalance>, anchor: Anchor,
                           sv: nat, ev: nat, u: Updates, v: nat)
    requires sv <= v <= ev
  {
    && InOrder(balances, sv, ev) && Anchored(anchor, u) && Outcome(res, proofs, balances, anchor).Accepted?
    && !RightAt(balances, sv, u, v)
  }

  lemma {:induction false} OtherDiffers(u: Updates, sv: nat, ev: nat, v: nat)
    requires sv <= v <= ev
    ensures ev < |Other(u, v, ev)| - 1 && !RightAt(History(Other(u, v, ev), sv, ev), sv, u, v)
  {
    var other := Other(u, v, ev);
    assert History(other, sv, ev)[v - sv] == Superseded(other, v);
  }

  /** A proof of the required commitment of the top-layer batch of version v comes first. */
  function TopFirst(res: CommitmentMap, proofs: seq<RangeProof>, v: nat, u: Updates): seq<RangeProof>
    requires TopKey(v) in res && InTree(res[TopKey(v)])
  {
    [HonestProof(res[TopKey(v)], u)] + proofs
  }

  lemma {:induction false} TopFirstAnchored(res: CommitmentMap, proofs: seq<RangeProof>, v: nat, u: Updates)
    requires TopKey(v) in res && RequiredAt(res, TopKey(v)) && HonestReply(res, MapOf(proofs), u)
    ensures TopAnchored(TopFirst(res, proofs, v, u), v)
  {
    MapOfPrefixed(HonestProof(res[TopKey(v)], u), proofs);
  }

  /** At version 0: whatever is demanded of the top-layer proofs, some reply is accepted with a wrong
      balance. */
  lemma {:induction false} VersionZeroMisleads(res: CommitmentMap, sv: nat, ev: nat, u: Updates, v: nat)
    returns (proofs: seq<RangeProof>, balances: seq<HistoricalBalance>, anchor: Anchor)
    requires RequiredFor(res, sv, ev) && sv <= v <= ev && !InCompleteTop(sv, ev, v) && |u| == 1
    ensures Misleads(res, proofs, balances, anchor, sv, ev, u, v) && TopAnchored(proofs, v)
  {
    hide Commit, FullTree, BatchSize, ListTrees, MapOf, OpenedNodes, InCompleteTop, History, RequiredFor, AllCheck, LowerSupplied;
    var other := Other(u, v, ev);
    OtherDiffers(u, sv, ev, v);
    var honest := HonestProofsExist(res, sv, ev, other, {});
    TopRequired(res, sv, ev, v);
    IsRequired(res, sv, ev, TopKey(v));
    HonestReplyOf(honest, res, res, sv, ev, other);
    TopFirstAnchored(res, honest, v, other);
    proofs, balances, anchor := TopFirst(res, honest, v, other), History(other, sv, ev), HonestAnchor(u);
    PrefixedReply(HonestProof(res[TopKey(v)], other), honest, res, other);
    HonestVersionZero(res, proofs, sv, ev, u, other);
  }

  lemma {:induction false} HonestVersionZero(res: CommitmentMap, proofs: seq<RangeProof>, sv: nat, ev: nat, u: Updates, other: Updates)
    requires |u| == 1 && RequiredFor(res, sv, ev) && ev < |other| - 1 && HonestReply(res, MapOf(proofs), other)
    ensures InOrder(History(other, sv, ev), sv, ev) && Outcome(res, proofs, History(other, sv, ev), HonestAnchor(u)).Accepted?
  {
    HistoryInOrder(other, sv, ev);
    Complete(res, MapOf(proofs), sv, ev, other);
  }

  /** With a current version, but top-layer proofs that are not tied to the trie, some reply is accepted with a
      wrong balance. */
  lemma {:induction false} UnboundTopMisleads(res: CommitmentMap, sv: nat, ev: nat, u: Updates, v: nat)
    returns (proofs: seq<RangeProof>, balances: seq<HistoricalBalance>, anchor: Anchor)
    requires RequiredFor(res, sv, ev) && sv <= v <= ev && |u| >= 2
    ensures Misleads(res, proofs, balances, anchor, sv, ev, u, v) && PositiveVersion(anchor)
  {
    hide RequiredFor, Outcome, History;
    var other := Other(u, v, ev);
    OtherDiffers(u, sv, ev, v);
    var honest := HonestProofsExist(res, sv, ev, other, {});
    proofs, balances, anchor := [TopProof(u)] + honest, History(other, sv, ev), HonestAnchor(u);
    FirstTopUnbound(honest, res, res, sv, ev, u, other);
  }

  /** Every accepted reply that meets the demands made has the account's balance at version v. */
  ghost predicate Determined(res: CommitmentMap, sv: nat, ev: nat, u: Updates, v: nat, positive: bool, top: bool)
    requires sv <= v <= ev
  {
    forall proofs, balances, anchor :: (positive ==> PositiveVersion(anchor)) && (top ==> TopAnchored(proofs, v)) ==>
      !Misleads(res, proofs, balances, anchor, sv, ev, u, v)
  }

  lemma {:induction false} PositiveIffLonger(res: CommitmentMap, proofs: seq<RangeProof>, balances: seq<HistoricalBalance>, anchor: Anchor,
                                             sv: nat, ev: nat, u: Updates, v: nat)
    requires sv <= v <= ev && Misleads(res, proofs, balances, anchor, sv, ev, u, v)
    ensures PositiveVersion(anchor) <==> |u| >= 2
  {
    OutcomeAnchored(res, proofs, balances, anchor);
    AnchorBinds(anchor, proofs, false, u);
  }

  lemma {:induction false} DemandsDetermine(res: CommitmentMap, sv: nat, ev: nat, u: Updates, v: nat, positive: bool, top: bool)
    requires RequiredFor(res, sv, ev) && sv <= v <= ev && !InCompleteTop(sv, ev, v)
    requires if |u| == 1 then positive else top
    ensures Determined(res, sv, ev, u, v, positive, top)
  {
    hide RequiredFor, InCompleteTop, TopAnchored, PositiveVersion, Misleads;
    forall proofs, balances, anchor | (positive ==> PositiveVersion(anchor)) && (top ==> TopAnchored(proofs, v))
      ensures !Misleads(res, proofs, balances, anchor, sv, ev, u, v)
    {
      NotMisled(res, proofs, balances, anchor, sv, ev, u, v, positive, top);
    }
  }

  lemma {:induction false} NotMisled(res: CommitmentMap, proofs: seq<RangeProof>, balances: seq<HistoricalBalance>, anchor: Anchor,
                                     sv: nat, ev: nat, u: Updates, v: nat, positive: bool, top: bool)
    requires RequiredFor(res, sv, ev) && sv <= v <= ev && !InCompleteTop(sv, ev, v)
    requires if |u| == 1 then positive else top
    requires (positive ==> PositiveVersion(anchor)) && (top ==> TopAnchored(proofs, v))
    ensures !Misleads(res, proofs, balances, anchor, sv, ev, u, v)
  {
    hide Outcome, InCompleteTop, TopAnchored, RequiredFor;
    if Misleads(res, proofs, balances, anchor, sv, ev, u, v) {
      PositiveIffLonger(res, proofs, balances, anchor, sv, ev, u, v);
      if |u| >= 2 {
        AnchoredSoundAt(res, proofs, balances, anchor, sv, ev, u, v);
      }
    }
  }

  /** For every account, range and version whose whole top-layer batch does not lie in the range: the demand for a
      positive version is needed for, and settles, accounts of version 0, and the demand on the top-layer proof all
      others. */
  lemma {:induction false} BindingNeeded(res: CommitmentMap, sv: nat, ev: nat, u: Updates, v: nat, positive: bool, top: bool)
    requires RequiredFor(res, sv, ev) && sv <= v <= ev && !InCompleteTop(sv, ev, v)
    ensures Determined(res, sv, ev, u, v, positive, top) <==> if |u| == 1 then positive else top
  {
    hide RequiredFor, InCompleteTop, TopAnchored, PositiveVersion, Misleads;
    if if |u| == 1 then positive else top {
      DemandsDetermine(res, sv, ev, u, v, positive, top);
    } else if |u| == 1 {
      var proofs, balances, anchor := VersionZeroMisleads(res, sv, ev, u, v);
    } else {
      var proofs, balances, anchor := UnboundTopMisleads(res, sv, ev, u, v);
    }
  }

  // ----- how many balances a reply may list

  predicate RightBalance(u: Updates, b: HistoricalBalance) {
    b.current.version < |u| - 1 && b == Superseded(u, b.current.version)
  }

  predicate AllRight(u: Updates, balances: seq<HistoricalBalance>) {
    forall b :: b in balances ==> RightBalance(u, b)
  }

  function Wrong(u: Updates, v: nat): (b: HistoricalBalance)
    requires v < |u| - 1
    ensures b.current.version == v && !RightBalance(u, b)
  {
    HistoricalBalance(CurrentBalance(v, u[v].balance + 1, u[v].block), 0)
  }

  /** The history of a range after a wrong balance of its first version, as often as wanted. */
  function Padded(u: Updates, sv: nat, ev: nat, extra: nat): (balances: seq<HistoricalBalance>)
    requires sv <= ev < |u| - 1
    ensures |balances| == extra + (ev + 1 - sv)
    ensures extra > 0 ==> !AllRight(u, balances)
  {
    var balances := seq(extra, _ => Wrong(u, sv)) + History(u, sv, ev);
    assert extra > 0 ==> balances[0] == Wrong(u, sv);
    balances
  }

  lemma {:induction false} PaddedTrees(res: CommitmentMap, u: Updates, sv: nat, ev: nat, extra: nat)
    requires sv <= ev < |u| - 1
    ensures ListTrees(res, Padded(u, sv, ev, extra)) == ListTrees(res, History(u, sv, ev))
  {
    RepeatedFirst(res, seq(extra, _ => Wrong(u, sv)), History(u, sv, ev), sv);
  }

  /** With the prover's proofs, the client accepts the history with any number of wrong balances of the first
      version put in front of it exactly when it accepts the history. */
  lemma {:induction false} PaddingIgnored(res: CommitmentMap, proofs: seq<RangeProof>, anchor: Anchor, sv: nat, ev: nat, u: Updates, extra: nat)
    requires sv <= ev < |u| - 1
    ensures Outcome(res, proofs, Padded(u, sv, ev, extra), anchor) == Outcome(res, proofs, History(u, sv, ev), anchor)
  {
    hide ListTrees, ChecksVerdict;
    PaddedTrees(res, u, sv, ev, extra);
    assert History(u, sv, ev) != [] && Padded(u, sv, ev, extra) != [];
  }

  /** Accepted replies with n balances that are bound throughout list the account's balances only. */
  ghost predicate CountDetermines(res: CommitmentMap, sv: nat, ev: nat, u: Updates, n: nat) {
    forall proofs, balances, anchor ::
      && |balances| == n && Anchored(anchor, u) && BoundThroughout(proofs, anchor, sv, ev)
      && Outcome(res, proofs, balances, anchor).Accepted? ==>
      AllRight(u, balances)
  }

  lemma {:induction false} HistoryRight(u: Updates, sv: nat, ev: nat, balances: seq<HistoricalBalance>)
    requires sv <= ev < |u| - 1 && multiset(balances) == multiset(History(u, sv, ev))
    ensures AllRight(u, balances)
  {
    var h := History(u, sv, ev);
    forall b | b in balances ensures RightBalance(u, b) {
      assert b in multiset(balances);
      assert b in h;
      var i :| 0 <= i < |h| && h[i] == b;
      assert h[i] == Superseded(u, sv + i);
    }
  }

  lemma {:induction false} TooManyMislead(res: CommitmentMap, sv: nat, ev: nat, u: Updates, n: nat)
    requires RequiredFor(res, sv, ev) && WithinCurrent(u, sv, ev) && n > ev + 1 - sv
    ensures !CountDetermines(res, sv, ev, u, n)
  {
    hide RequiredFor, Outcome, BoundThroughout, AllRight;
    var extra := n - (ev + 1 - sv);
    var honest := HonestProofsExist(res, sv, ev, u, {});
    HonestReplyAccepted(honest, res, res, sv, ev, u);
    PaddingIgnored(res, honest, HonestAnchor(u), sv, ev, u, extra);
    assert |Padded(u, sv, ev, extra)| == n;
  }

  /** For every range within the current top-layer batch and every number of balances: the accepted replies that
      are bound list the account's balances only, if and only if they list no more than the range has versions. */
  lemma {:induction false} CountExact(res: CommitmentMap, sv: nat, ev: nat, u: Updates, n: nat)
    requires RequiredFor(res, sv, ev) && WithinCurrent(u, sv, ev)
    ensures CountDetermines(res, sv, ev, u, n) <==> n <= ev + 1 - sv
  {
    hide RequiredFor, Outcome, BoundThroughout, AllRight, History, Anchored;
    if n > ev + 1 - sv {
      TooManyMislead(res, sv, ev, u, n);
    } else {
      forall proofs, balances, anchor | |balances| == n && Anchored(anchor, u) && BoundThroughout(proofs, anchor, sv, ev) &&
                                        Outcome(res, proofs, balances, anchor).Accepted?
        ensures AllRight(u, balances)
      {
        FewRight(res, proofs, balances, anchor, sv, ev, u);
      }
    }
  }

  lemma {:induction false} FewRight(res: CommitmentMap, proofs: seq<RangeProof>, balances: seq<HistoricalBalance>, anchor: Anchor,
                                    sv: nat, ev: nat, u: Updates)
    requires RequiredFor(res, sv, ev) && WithinCurrent(u, sv, ev) && |balances| <= ev + 1 - sv && Anchored(anchor, u)
    requires BoundThroughout(proofs, anchor, sv, ev) && Outcome(res, proofs, balances, anchor).Accepted?
    ensures AllRight(u, balances)
  {
    hide RequiredFor, Outcome, BoundThroughout, Anchored;
    if balances != [] {
      AnchoredListed(res, proofs, balances, anchor, sv, ev, u);
      HistoryRight(u, sv, ev, balances);
    }
  }
}
